/** The catalog that CBackupReader.ReadCatalog builds, as values: the tree is
    an arena of entries that refer to their parent and children by index,
    and the last set, volume and folder nodes created are indices into it.
    The backup stream is a sequence of decoded descriptor blocks and a
    cursor. */
module CatalogBuilder {
  import opened Wrappers
  import opened NetBinary
  import opened Mtf
  import opened CatalogTree
  import Catalog

  /** A catalog node: its kind, name, offset and descriptor block, the index
      of its parent (none for the root) and the indices of its children in
      the order they were added. */
  datatype Entry = Entry(kind: Int32, name: string, offset: Int64, block: Block, parent: Option<nat>, children: seq<nat>)

  /** lastSetNode, lastVolumeNode and lastFolderNode; None is null. */
  datatype Targets = Targets(lastSet: Option<nat>, lastVolume: Option<nat>, lastFolder: Option<nat>)

  datatype Builder = Builder(nodes: seq<Entry>, last: Targets)

  predicate Below(t: Option<nat>, n: nat) {
    t.Some? ==> t.value < n
  }

  predicate ChildrenAfter(nodes: seq<Entry>, i: nat)
    requires i < |nodes|
  {
    forall k :: 0 <= k < |nodes[i].children| ==> i < nodes[i].children[k] < |nodes|
  }

  /** Every index refers to an entry, a parent comes before its children and
      the children after their parent. */
  predicate WellFormed(bd: Builder) {
    && |bd.nodes| >= 1
    && (forall i :: 0 <= i < |bd.nodes| ==> Below(bd.nodes[i].parent, i) && ChildrenAfter(bd.nodes, i))
    && Below(bd.last.lastSet, |bd.nodes|)
    && Below(bd.last.lastVolume, |bd.nodes|)
    && Below(bd.last.lastFolder, |bd.nodes|)
  }

  /** The root node, made from the media header block and named after the
      media, and no set, volume or folder yet. */
  function Start(tape: Block): (bd: Builder)
    ensures Hierarchy(bd) && |bd.nodes| == 1
    ensures bd.nodes[0].kind == ROOT && bd.nodes[0].name == tape.name && bd.nodes[0].offset == tape.start
    ensures bd.nodes[0].block == tape && bd.nodes[0].children == []
    ensures bd.last.lastSet.None? && bd.last.lastVolume.None? && bd.last.lastFolder.None?
  {
    Builder([Entry(ROOT, tape.name, tape.start, tape, None, [])], Targets(None, None, None))
  }

  /** Add*: a new entry at the end, whose parent is p, added as p's last child. */
  function Adopt(bd: Builder, p: nat, kind: Int32, name: string, b: Block): (r: Builder)
    requires WellFormed(bd) && p < |bd.nodes|
    ensures WellFormed(r) && r.last == bd.last
    ensures |r.nodes| == |bd.nodes| + 1 && r.nodes[|bd.nodes|] == Entry(kind, name, b.start, b, Some(p), [])
    ensures r.nodes[p] == bd.nodes[p].(children := bd.nodes[p].children + [|bd.nodes|])
    ensures forall i :: 0 <= i < |bd.nodes| && i != p ==> r.nodes[i] == bd.nodes[i]
  {
    var e := bd.nodes[p];
    var r := Builder(bd.nodes[p := e.(children := e.children + [|bd.nodes|])] + [Entry(kind, name, b.start, b, Some(p), [])], bd.last);
    assert forall i :: 0 <= i < |bd.nodes| ==> ChildrenAfter(r.nodes, i) by {
      forall i | 0 <= i < |bd.nodes|
        ensures ChildrenAfter(r.nodes, i)
      {
        assert ChildrenAfter(bd.nodes, i);
      }
    }
    r
  }

  /** An entry that an Add* call made from block b, under parent, with that
      name (it may have gained children since). */
  predicate Made(e: Entry, kind: Int32, parent: Option<nat>, name: string, b: Block) {
    e.kind == kind && e.name == name && e.offset == b.start && e.block == b && e.parent == parent
  }

  /** The name held by a data stream with the given ID, decoded by the
      block's string type; None for another ID or another string type. */
  function StreamName(b: Block, s: DataStream, id: string): (r: Option<string>)
    ensures r.Some? <==> s.id == id && (b.stringType == ANSI || b.stringType == UNICODE)
    ensures r.Some? && b.stringType == ANSI ==> |r.value| == |s.data|
  {
    if s.id != id then None
    else if b.stringType == ANSI then Some(AnsiString(s.data))
    else if b.stringType == UNICODE then Some(UnicodeString(s.data))
    else None
  }

  /** AddFolder on the last volume; a null dereference when there is none. */
  function AddFolder(bd: Builder, name: string, b: Block): (r: Result<Builder>)
    requires WellFormed(bd)
    ensures r.Ok? <==> bd.last.lastVolume.Some?
    ensures r.Ok? ==> r.value == Adopt(bd, bd.last.lastVolume.value, FOLDER, name, b)
    ensures r.Err? ==> r.fault == NullReference
  {
    match bd.last.lastVolume
    case None => Err(NullReference)
    case Some(v) => Ok(Adopt(bd, v, FOLDER, name, b))
  }

  /** AddFile on the last folder; a null dereference when there is none. */
  function AddFile(bd: Builder, name: string, b: Block): (r: Result<Builder>)
    requires WellFormed(bd)
    ensures r.Ok? <==> bd.last.lastFolder.Some?
    ensures r.Ok? ==> r.value == Adopt(bd, bd.last.lastFolder.value, FILE, name, b)
    ensures r.Err? ==> r.fault == NullReference
  {
    match bd.last.lastFolder
    case None => Err(NullReference)
    case Some(f) => Ok(Adopt(bd, f, FILE, name, b))
  }

  /** The foreach over a DIRB block's streams from stream i on: every PNAM
      stream of a known string type gives a folder under the last volume,
      named without its last character. */
  function FoldersFrom(bd: Builder, b: Block, i: nat): (r: Result<Builder>)
    requires WellFormed(bd)
    ensures r.Ok? ==> WellFormed(r.value) && r.value.last == bd.last && |bd.nodes| <= |r.value.nodes|
    decreases |b.streams| - i
  {
    if i >= |b.streams| then Ok(bd)
    else match StreamName(b, b.streams[i], "PNAM")
      case None => FoldersFrom(bd, b, i + 1)
      case Some(raw) =>
        var name :- DropLast(raw);
        var next :- AddFolder(bd, name, b);
        FoldersFrom(next, b, i + 1)
  }

  /** The foreach over a FILE block's streams from stream i on: every FNAM
      stream of a known string type gives a file under the last folder. */
  function FilesFrom(bd: Builder, b: Block, i: nat): (r: Result<Builder>)
    requires WellFormed(bd)
    ensures r.Ok? ==> WellFormed(r.value) && r.value.last == bd.last && |bd.nodes| <= |r.value.nodes|
    ensures r.Err? ==> r.fault == NullReference
    decreases |b.streams| - i
  {
    if i >= |b.streams| then Ok(bd)
    else match StreamName(b, b.streams[i], "FNAM")
      case None => FilesFrom(bd, b, i + 1)
      case Some(name) =>
        var next :- AddFile(bd, name, b);
        FilesFrom(next, b, i + 1)
  }

  /** A DIRB block. The last folder becomes the last folder this block
      created, and stays as it was when the block created none. */
  function Directory(bd: Builder, b: Block): (r: Result<Builder>)
    requires WellFormed(bd)
    ensures r.Ok? ==> WellFormed(r.value)
    ensures !NameInStream(b) ==> (r.Err? <==> b.name == [] || bd.last.lastVolume.None?)
    ensures !NameInStream(b) && b.name == [] ==> r == Err(ArgumentOutOfRange)
    ensures !NameInStream(b) && b.name != [] && bd.last.lastVolume.None? ==> r == Err(NullReference)
    ensures !NameInStream(b) && r.Ok? ==>
      && |r.value.nodes| == |bd.nodes| + 1
      && bd.last.lastVolume.Some?
      && Made(r.value.nodes[|bd.nodes|], FOLDER, bd.last.lastVolume, r.value.nodes[|bd.nodes|].name, b)
      && DropLast(b.name) == Ok(r.value.nodes[|bd.nodes|].name)
      && r.value.last == bd.last.(lastFolder := Some(|bd.nodes|))
    ensures NameInStream(b) ==> (r.Err? <==> FoldersFrom(bd, b, 0).Err?)
    ensures NameInStream(b) && r.Err? ==> FoldersFrom(bd, b, 0) == Err(r.fault)
    ensures NameInStream(b) ==> var names := StreamNames(b, "PNAM", 0);
      (r.Ok? <==> NoneEmpty(names) && (names == [] || bd.last.lastVolume.Some?))
    ensures NameInStream(b) && r.Ok? ==>
      && FoldersFrom(bd, b, 0) == Ok(r.value.(last := bd.last))
      && r.value.last == if |r.value.nodes| > |bd.nodes| then bd.last.(lastFolder := Some(|r.value.nodes| - 1)) else bd.last
  {
    if NameInStream(b) then
      FoldersFromSucceeds(bd, b, 0);
      var next :- FoldersFrom(bd, b, 0);
      if |next.nodes| > |bd.nodes| then Ok(next.(last := next.last.(lastFolder := Some(|next.nodes| - 1))))
      else Ok(next)
    else
      var name :- DropLast(b.name);
      var next :- AddFolder(bd, name, b);
      Ok(next.(last := next.last.(lastFolder := Some(|bd.nodes|))))
  }

  /** A FILE block; file names are used as they are. */
  function File(bd: Builder, b: Block): (r: Result<Builder>)
    requires WellFormed(bd)
    ensures r.Ok? ==> WellFormed(r.value) && r.value.last == bd.last
    ensures !NameInStream(b) ==> (r.Err? <==> bd.last.lastFolder.None?)
    ensures !NameInStream(b) && r.Err? ==> r.fault == NullReference
    ensures !NameInStream(b) && r.Ok? ==>
      |r.value.nodes| == |bd.nodes| + 1 && Made(r.value.nodes[|bd.nodes|], FILE, bd.last.lastFolder, b.name, b)
    ensures NameInStream(b) ==>
      (r.Ok? <==> StreamNames(b, "FNAM", 0) == [] || bd.last.lastFolder.Some?)
    ensures NameInStream(b) && r.Err? ==> r.fault == NullReference
  {
    if NameInStream(b) then FilesFromSucceeds(bd, b, 0); FilesFrom(bd, b, 0)
    else AddFile(bd, b.name, b)
  }

  /** One block of the catalog loop, by its type. A set goes under the root,
      a volume under the last set; any other block type leaves everything as
      it was. */
  function Dispatch(bd: Builder, b: Block): (r: Result<Builder>)
    requires WellFormed(bd)
    ensures r.Ok? ==> WellFormed(r.value)
    ensures b.blockType !in [MTF_SSET, MTF_VOLB, MTF_DIRB, MTF_FILE] ==> r == Ok(bd)
    ensures b.blockType == MTF_VOLB && bd.last.lastSet.None? ==> r == Err(NullReference)
    ensures b.blockType == MTF_DIRB && !NameInStream(b) ==>
      (r.Err? <==> b.name == [] || bd.last.lastVolume.None?)
    ensures b.blockType == MTF_DIRB && !NameInStream(b) && b.name != [] && bd.last.lastVolume.None? ==>
      r == Err(NullReference)
    ensures b.blockType == MTF_FILE && !NameInStream(b) ==> (r.Err? <==> bd.last.lastFolder.None?)
    ensures b.blockType == MTF_DIRB ==> r == Directory(bd, b)
    ensures b.blockType == MTF_FILE ==> r == File(bd, b)
    ensures b.blockType == MTF_SSET ==>
      && r.Ok? && |r.value.nodes| == |bd.nodes| + 1
      && Made(r.value.nodes[|bd.nodes|], SET, Some(0), Catalog.SetName(b.setNumber, b.name), b)
      && r.value.last == bd.last.(lastSet := Some(|bd.nodes|))
    ensures b.blockType == MTF_VOLB && bd.last.lastSet.Some? ==>
      && r.Ok? && |r.value.nodes| == |bd.nodes| + 1
      && Made(r.value.nodes[|bd.nodes|], VOLUME, bd.last.lastSet, b.name, b)
      && r.value.last == bd.last.(lastVolume := Some(|bd.nodes|))
  {
    if b.blockType == MTF_SSET then
      var next := Adopt(bd, 0, SET, Catalog.SetName(b.setNumber, b.name), b);
      Ok(next.(last := next.last.(lastSet := Some(|bd.nodes|))))
    else if b.blockType == MTF_VOLB then
      match bd.last.lastSet
      case None => Err(NullReference)
      case Some(s) =>
        var next := Adopt(bd, s, VOLUME, b.name, b);
        Ok(next.(last := next.last.(lastVolume := Some(|bd.nodes|))))
    else if b.blockType == MTF_DIRB then Directory(bd, b)
    else if b.blockType == MTF_FILE then File(bd, b)
    else Ok(bd)
  }

  /** The loop state between iterations: the catalog so far, the stream
      cursor, the number of iterations done, mLastPos and the progress values
      reported. */
  datatype Scan = Scan(bd: Builder, cursor: nat, steps: nat, lastPos: int, reports: seq<int>)

  /** PeekNextBlockType; 0 past the last block. */
  function PeekType(blocks: seq<Block>, cursor: nat): nat {
    if cursor < |blocks| then blocks[cursor].blockType else 0
  }

  /** CancelRead was called from another thread once cancelAt iterations
      had been done, and the flag stays set. */
  predicate Cancelled(cancelAt: Option<nat>, steps: nat) {
    cancelAt.Some? && cancelAt.value <= steps
  }

  /** The loop condition. */
  predicate Continues(blocks: seq<Block>, s: Scan, cancelAt: Option<nat>) {
    PeekType(blocks, s.cursor) != MTF_EOTM && PeekType(blocks, s.cursor) != 0 && !Cancelled(cancelAt, s.steps)
  }

  /** The progress value, as a whole percentage of the stream length. */
  function Percent(pos: int, length: nat): int {
    if length == 0 then 0 else pos * 100 / length
  }

  /** One iteration: read the block, add it to the catalog, then fire the
      progress check when the stream has moved past mLastPos by more than
      mIncrement. */
  function Step(s: Scan, blocks: seq<Block>, increment: int, length: nat): (r: Result<Scan>)
    requires WellFormed(s.bd) && s.cursor < |blocks|
    ensures r.Ok? ==> WellFormed(r.value.bd) && r.value.cursor == s.cursor + 1 && r.value.steps == s.steps + 1
    ensures r.Ok? <==> Dispatch(s.bd, blocks[s.cursor]).Ok?
    ensures r.Err? ==> Dispatch(s.bd, blocks[s.cursor]) == Err(r.fault)
    ensures r.Ok? ==> r.value.bd == Dispatch(s.bd, blocks[s.cursor]).value
  {
    var b := blocks[s.cursor];
    var bd :- Dispatch(s.bd, b);
    Ok(Advanced(s, bd, b.finish, increment, length))
  }

  /** The state after a block that ended at pos was added, giving bd: one
      more block read and one more iteration, and a progress report when pos
      is past mLastPos by more than mIncrement. */
  function Advanced(s: Scan, bd: Builder, pos: int, increment: int, length: nat): (r: Scan)
    ensures r.bd == bd && r.cursor == s.cursor + 1 && r.steps == s.steps + 1
    ensures pos > s.lastPos + increment ==> r.lastPos == pos && r.reports == s.reports + [Percent(pos, length)]
    ensures pos <= s.lastPos + increment ==> r.lastPos == s.lastPos && r.reports == s.reports
  {
    if pos > s.lastPos + increment then Scan(bd, s.cursor + 1, s.steps + 1, pos, s.reports + [Percent(pos, length)])
    else Scan(bd, s.cursor + 1, s.steps + 1, s.lastPos, s.reports)
  }

  /** The catalog loop from state s on, to the state where it stops or the
      exception that ends it. */
  function RunFrom(s: Scan, blocks: seq<Block>, cancelAt: Option<nat>, increment: int, length: nat): (r: Result<Scan>)
    requires WellFormed(s.bd) && s.cursor <= |blocks|
    ensures r.Ok? ==> WellFormed(r.value.bd) && s.cursor <= r.value.cursor <= |blocks|
    ensures !Continues(blocks, s, cancelAt) ==> r == Ok(s)
    decreases |blocks| - s.cursor
  {
    if !Continues(blocks, s, cancelAt) then Ok(s)
    else
      var next :- Step(s, blocks, increment, length);
      RunFrom(next, blocks, cancelAt, increment, length)
  }

  /** ReadCatalog: the media header and the soft filemark, each cast to its
      block class, then the catalog loop from the third block on. */
  function ReadCatalog(blocks: seq<Block>, lastPos: int, increment: int, length: nat, cancelAt: Option<nat>): (r: Result<Scan>)
    ensures r.Ok? ==> WellFormed(r.value.bd) && 2 <= r.value.cursor <= |blocks|
    ensures |blocks| == 0 ==> r == Err(EndOfStream)
    ensures |blocks| >= 1 && blocks[0].blockType != MTF_TAPE ==> r == Err(InvalidCast)
    ensures |blocks| == 1 && blocks[0].blockType == MTF_TAPE ==> r == Err(EndOfStream)
    ensures |blocks| >= 2 && blocks[0].blockType == MTF_TAPE && blocks[1].blockType != MTF_SFMB ==> r == Err(InvalidCast)
  {
    if |blocks| == 0 then Err(EndOfStream)
    else if blocks[0].blockType != MTF_TAPE then Err(InvalidCast)
    else if |blocks| == 1 then Err(EndOfStream)
    else if blocks[1].blockType != MTF_SFMB then Err(InvalidCast)
    else RunFrom(Scan(Start(blocks[0]), 2, 0, lastPos, []), blocks, cancelAt, increment, length)
  }

  // ---------------------------------------------------------------------
  // Growth: entries are only ever appended, and existing ones only gain
  // children.

  /** e' is e, with possibly more children after the ones e has. */
  predicate Grown(e: Entry, e': Entry) {
    && e'.kind == e.kind && e'.name == e.name && e'.offset == e.offset && e'.block == e.block
    && e'.parent == e.parent && e.children <= e'.children
  }

  predicate Extends(big: seq<Entry>, small: seq<Entry>) {
    |small| <= |big| && forall i :: 0 <= i < |small| ==> Grown(small[i], big[i])
  }

  lemma ExtendsTrans(a: seq<Entry>, b: seq<Entry>, c: seq<Entry>)
    requires Extends(b, a) && Extends(c, b)
    ensures Extends(c, a)
  {
    forall i | 0 <= i < |a|
      ensures Grown(a[i], c[i])
    {
      assert Grown(a[i], b[i]) && Grown(b[i], c[i]);
      assert a[i].children <= c[i].children by {
        assert c[i].children[..|a[i].children|] == b[i].children[..|a[i].children|];
      }
    }
  }

  lemma AdoptExtends(bd: Builder, p: nat, kind: Int32, name: string, b: Block)
    requires WellFormed(bd) && p < |bd.nodes|
    ensures Extends(Adopt(bd, p, kind, name, b).nodes, bd.nodes)
  {
    var r := Adopt(bd, p, kind, name, b);
    assert Grown(bd.nodes[p], r.nodes[p]);
  }

  // ---------------------------------------------------------------------
  // Names: every matching stream makes one node, named as it decodes.

  /** The names the streams with the given ID decode to, from stream i on, in order. */
  function StreamNames(b: Block, id: string, i: nat): seq<string>
    decreases |b.streams| - i
  {
    if i >= |b.streams| then []
    else (match StreamName(b, b.streams[i], id) case None => [] case Some(n) => [n]) + StreamNames(b, id, i + 1)
  }

  predicate NoneEmpty(names: seq<string>) {
    forall k :: 0 <= k < |names| ==> names[k] != []
  }

  lemma NoneEmptyCons(name: string, rest: seq<string>)
    ensures NoneEmpty([name] + rest) <==> name != [] && NoneEmpty(rest)
  {
    var names := [name] + rest;
    assert names[0] == name;
    assert forall k :: 0 <= k < |rest| ==> names[k + 1] == rest[k];
    if name != [] && NoneEmpty(rest) {
      forall k | 0 <= k < |names|
        ensures names[k] != []
      {
        if k > 0 {
          assert names[k] == rest[k - 1];
        }
      }
    }
  }

  /** The PNAM loop succeeds exactly when no decoded name is empty and, if
      there is any, there is a last volume. */
  lemma {:induction false} FoldersFromSucceeds(bd: Builder, b: Block, i: nat)
    requires WellFormed(bd)
    ensures var names := StreamNames(b, "PNAM", i);
      FoldersFrom(bd, b, i).Ok? <==> NoneEmpty(names) && (names == [] || bd.last.lastVolume.Some?)
    decreases |b.streams| - i
  {
    if i < |b.streams| {
      var rest := StreamNames(b, "PNAM", i + 1);
      match StreamName(b, b.streams[i], "PNAM")
      case None =>
        assert StreamNames(b, "PNAM", i) == rest;
        FoldersFromSucceeds(bd, b, i + 1);
      case Some(raw) =>
        assert StreamNames(b, "PNAM", i) == [raw] + rest;
        NoneEmptyCons(raw, rest);
        if raw != [] && bd.last.lastVolume.Some? {
          var next := Adopt(bd, bd.last.lastVolume.value, FOLDER, DropLast(raw).value, b);
          FoldersFromSucceeds(next, b, i + 1);
        }
    }
  }

  /** The names without their last character. */
  function Stripped(names: seq<string>): (r: seq<string>)
    requires NoneEmpty(names)
    ensures |r| == |names| && forall k :: 0 <= k < |names| ==> DropLast(names[k]) == Ok(r[k])
  {
    if names == [] then [] else [DropLast(names[0]).value] + Stripped(names[1..])
  }

  /** Add* under parent p, once per name, in order. */
  function AdoptAll(bd: Builder, p: nat, kind: Int32, names: seq<string>, b: Block): (r: Builder)
    requires WellFormed(bd) && p < |bd.nodes|
    ensures WellFormed(r) && r.last == bd.last
    decreases names
  {
    if names == [] then bd else AdoptAll(Adopt(bd, p, kind, names[0], b), p, kind, names[1..], b)
  }

  /** AdoptAll appends one entry per name, in order, and changes no existing
      entry but p's children. */
  lemma {:induction false} AdoptAllAppends(bd: Builder, p: nat, kind: Int32, names: seq<string>, b: Block)
    requires WellFormed(bd) && p < |bd.nodes|
    ensures var r := AdoptAll(bd, p, kind, names, b);
      && Extends(r.nodes, bd.nodes) && |r.nodes| == |bd.nodes| + |names|
      && forall j :: |bd.nodes| <= j < |r.nodes| ==> Made(r.nodes[j], kind, Some(p), names[j - |bd.nodes|], b)
    decreases names
  {
    var r := AdoptAll(bd, p, kind, names, b);
    if names != [] {
      var next := Adopt(bd, p, kind, names[0], b);
      AdoptAllAppends(next, p, kind, names[1..], b);
      AdoptExtends(bd, p, kind, names[0], b);
      ExtendsTrans(bd.nodes, next.nodes, r.nodes);
      assert Grown(next.nodes[|bd.nodes|], r.nodes[|bd.nodes|]);
      assert forall m :: 1 <= m < |names| ==> names[m] == names[1..][m - 1];
    }
  }

  /** The PNAM loop is AdoptAll under the last volume of the stripped names. */
  lemma {:induction false} FoldersFromAdopts(bd: Builder, b: Block, i: nat)
    requires WellFormed(bd) && FoldersFrom(bd, b, i).Ok?
    ensures var names := StreamNames(b, "PNAM", i);
      && NoneEmpty(names) && (names == [] || bd.last.lastVolume.Some?)
      && FoldersFrom(bd, b, i).value ==
           if names == [] then bd else AdoptAll(bd, bd.last.lastVolume.value, FOLDER, Stripped(names), b)
    decreases |b.streams| - i
  {
    FoldersFromSucceeds(bd, b, i);
    if i < |b.streams| {
      var names := StreamNames(b, "PNAM", i);
      var rest := StreamNames(b, "PNAM", i + 1);
      match StreamName(b, b.streams[i], "PNAM")
      case None =>
        assert names == rest;
        FoldersFromAdopts(bd, b, i + 1);
      case Some(raw) =>
        assert names == [raw] + rest;
        NoneEmptyCons(raw, rest);
        var v := bd.last.lastVolume.value;
        var next := Adopt(bd, v, FOLDER, DropLast(raw).value, b);
        FoldersFromAdopts(next, b, i + 1);
        assert names[1..] == rest;
    }
  }

  /** When the PNAM loop succeeds it appends one folder per name, in stream
      order, under the last volume, named without the name's last
      character, and changes no existing entry but the volume's children. */
  lemma {:induction false} FoldersFromNames(bd: Builder, b: Block, i: nat)
    requires WellFormed(bd) && FoldersFrom(bd, b, i).Ok?
    ensures var names := StreamNames(b, "PNAM", i);
      var r := FoldersFrom(bd, b, i).value;
      && Extends(r.nodes, bd.nodes) && |r.nodes| == |bd.nodes| + |names|
      && forall j :: |bd.nodes| <= j < |r.nodes| ==>
           Made(r.nodes[j], FOLDER, bd.last.lastVolume, r.nodes[j].name, b)
           && DropLast(names[j - |bd.nodes|]) == Ok(r.nodes[j].name)
  {
    var names := StreamNames(b, "PNAM", i);
    FoldersFromAdopts(bd, b, i);
    if names != [] {
      AdoptAllAppends(bd, bd.last.lastVolume.value, FOLDER, Stripped(names), b);
    }
  }

  /** The FNAM loop succeeds exactly when there is no name or there is a
      last folder. */
  lemma {:induction false} FilesFromSucceeds(bd: Builder, b: Block, i: nat)
    requires WellFormed(bd)
    ensures FilesFrom(bd, b, i).Ok? <==> StreamNames(b, "FNAM", i) == [] || bd.last.lastFolder.Some?
    decreases |b.streams| - i
  {
    if i < |b.streams| {
      var rest := StreamNames(b, "FNAM", i + 1);
      match StreamName(b, b.streams[i], "FNAM")
      case None =>
        assert StreamNames(b, "FNAM", i) == rest;
        FilesFromSucceeds(bd, b, i + 1);
      case Some(name) =>
        assert StreamNames(b, "FNAM", i) == [name] + rest;
        if bd.last.lastFolder.Some? {
          FilesFromSucceeds(Adopt(bd, bd.last.lastFolder.value, FILE, name, b), b, i + 1);
        }
    }
  }

  /** The FNAM loop is AdoptAll under the last folder of the names. */
  lemma {:induction false} FilesFromAdopts(bd: Builder, b: Block, i: nat)
    requires WellFormed(bd) && FilesFrom(bd, b, i).Ok?
    ensures var names := StreamNames(b, "FNAM", i);
      && (names == [] || bd.last.lastFolder.Some?)
      && FilesFrom(bd, b, i).value ==
           if names == [] then bd else AdoptAll(bd, bd.last.lastFolder.value, FILE, names, b)
    decreases |b.streams| - i
  {
    FilesFromSucceeds(bd, b, i);
    if i < |b.streams| {
      var names := StreamNames(b, "FNAM", i);
      var rest := StreamNames(b, "FNAM", i + 1);
      match StreamName(b, b.streams[i], "FNAM")
      case None =>
        assert names == rest;
        FilesFromAdopts(bd, b, i + 1);
      case Some(name) =>
        assert names == [name] + rest;
        FilesFromAdopts(Adopt(bd, bd.last.lastFolder.value, FILE, name, b), b, i + 1);
        assert names[1..] == rest;
    }
  }

  /** When the FNAM loop succeeds it appends one file per name, in stream
      order, under the last folder, with the name as decoded. */
  lemma {:induction false} FilesFromNames(bd: Builder, b: Block, i: nat)
    requires WellFormed(bd) && FilesFrom(bd, b, i).Ok?
    ensures var names := StreamNames(b, "FNAM", i);
      var r := FilesFrom(bd, b, i).value;
      && Extends(r.nodes, bd.nodes) && |r.nodes| == |bd.nodes| + |names|
      && forall j :: |bd.nodes| <= j < |r.nodes| ==> Made(r.nodes[j], FILE, bd.last.lastFolder, names[j - |bd.nodes|], b)
  {
    var names := StreamNames(b, "FNAM", i);
    FilesFromAdopts(bd, b, i);
    if names != [] {
      AdoptAllAppends(bd, bd.last.lastFolder.value, FILE, names, b);
    }
  }

  // ---------------------------------------------------------------------
  // The shape of the catalog: sets under the root, volumes under sets,
  // folders under volumes (never under folders), files under folders, and
  // each target the newest node of its kind.

  /** The kind of node that a node of the given kind is added under. */
  function ParentKind(kind: Int32): Int32 {
    if kind == SET then ROOT else if kind == VOLUME then SET else if kind == FOLDER then VOLUME else FOLDER
  }

  predicate Increasing(ids: seq<nat>) {
    forall k, l :: 0 <= k < l < |ids| ==> ids[k] < ids[l]
  }

  /** Entry i is a set, volume, folder or file, its parent is of the kind it
      is added under, and it is among its parent's children. */
  predicate Placed(nodes: seq<Entry>, i: nat)
    requires i < |nodes|
  {
    && SET <= nodes[i].kind <= FILE
    && nodes[i].parent.Some? && nodes[i].parent.value < |nodes|
    && nodes[nodes[i].parent.value].kind == ParentKind(nodes[i].kind)
    && i in nodes[nodes[i].parent.value].children
  }

  /** Entry i's children are in the order they were added, and i is their parent. */
  predicate Parented(nodes: seq<Entry>, i: nat)
    requires i < |nodes|
  {
    && Increasing(nodes[i].children)
    && forall k :: 0 <= k < |nodes[i].children| ==>
         nodes[i].children[k] < |nodes| && nodes[nodes[i].children[k]].parent == Some(i)
  }

  predicate Shape(nodes: seq<Entry>) {
    && |nodes| >= 1 && nodes[0].kind == ROOT && nodes[0].parent.None?
    && (forall i :: 1 <= i < |nodes| ==> Placed(nodes, i))
    && (forall i :: 0 <= i < |nodes| ==> Parented(nodes, i))
  }

  /** t is the most recently added entry of the given kind; None when there is none. */
  predicate Newest(nodes: seq<Entry>, t: Option<nat>, kind: Int32) {
    match t
    case None => forall j :: 0 <= j < |nodes| ==> nodes[j].kind != kind
    case Some(n) => n < |nodes| && nodes[n].kind == kind && forall j :: n < j < |nodes| ==> nodes[j].kind != kind
  }

  predicate Hierarchy(bd: Builder) {
    && WellFormed(bd) && Shape(bd.nodes)
    && Newest(bd.nodes, bd.last.lastSet, SET)
    && Newest(bd.nodes, bd.last.lastVolume, VOLUME)
    && Newest(bd.nodes, bd.last.lastFolder, FOLDER)
  }

  lemma AdoptShape(bd: Builder, p: nat, kind: Int32, name: string, b: Block)
    requires WellFormed(bd) && Shape(bd.nodes) && p < |bd.nodes|
    requires SET <= kind <= FILE && bd.nodes[p].kind == ParentKind(kind)
    ensures Shape(Adopt(bd, p, kind, name, b).nodes)
  {
    var r := Adopt(bd, p, kind, name, b).nodes;
    var n := |bd.nodes|;
    forall i | 1 <= i < |r|
      ensures Placed(r, i)
    {
      if i < n {
        assert Placed(bd.nodes, i);
        var q := bd.nodes[i].parent.value;
        assert i in r[q].children by {
          assert bd.nodes[q].children <= r[q].children;
        }
      }
    }
    forall i | 0 <= i < |r|
      ensures Parented(r, i)
    {
      if i < n {
        assert Parented(bd.nodes, i);
        if i == p {
          assert ChildrenAfter(bd.nodes, p);
          assert r[p].children == bd.nodes[p].children + [n];
        }
      }
    }
  }

  lemma {:induction false} AdoptAllShape(bd: Builder, p: nat, kind: Int32, names: seq<string>, b: Block)
    requires WellFormed(bd) && Shape(bd.nodes) && p < |bd.nodes|
    requires SET <= kind <= FILE && bd.nodes[p].kind == ParentKind(kind)
    ensures Shape(AdoptAll(bd, p, kind, names, b).nodes)
    decreases names
  {
    if names != [] {
      AdoptShape(bd, p, kind, names[0], b);
      AdoptAllShape(Adopt(bd, p, kind, names[0], b), p, kind, names[1..], b);
    }
  }

  /** Appending entries of other kinds keeps the newest entry of this kind. */
  lemma NewestKept(small: seq<Entry>, big: seq<Entry>, t: Option<nat>, kind: Int32)
    requires Extends(big, small) && Newest(small, t, kind)
    requires forall j :: |small| <= j < |big| ==> big[j].kind != kind
    ensures Newest(big, t, kind)
  {
    if t.None? {
      forall j | 0 <= j < |big|
        ensures big[j].kind != kind
      {
        if j < |small| {
          assert Grown(small[j], big[j]);
        }
      }
    } else {
      assert Grown(small[t.value], big[t.value]);
      forall j | t.value < j < |big|
        ensures big[j].kind != kind
      {
        if j < |small| {
          assert Grown(small[j], big[j]);
        }
      }
    }
  }

  /** Every block that is added to the catalog keeps its shape. */
  lemma DispatchHierarchy(bd: Builder, b: Block)
    requires Hierarchy(bd) && Dispatch(bd, b).Ok?
    ensures Hierarchy(Dispatch(bd, b).value)
  {
    var r := Dispatch(bd, b).value;
    var n := |bd.nodes|;
    if b.blockType == MTF_SSET {
      AdoptShape(bd, 0, SET, Catalog.SetName(b.setNumber, b.name), b);
      AdoptExtends(bd, 0, SET, Catalog.SetName(b.setNumber, b.name), b);
      NewestKept(bd.nodes, r.nodes, bd.last.lastVolume, VOLUME);
      NewestKept(bd.nodes, r.nodes, bd.last.lastFolder, FOLDER);
    } else if b.blockType == MTF_VOLB {
      var s := bd.last.lastSet.value;
      AdoptShape(bd, s, VOLUME, b.name, b);
      AdoptExtends(bd, s, VOLUME, b.name, b);
      NewestKept(bd.nodes, r.nodes, bd.last.lastSet, SET);
      NewestKept(bd.nodes, r.nodes, bd.last.lastFolder, FOLDER);
    } else if b.blockType == MTF_DIRB {
      DirectoryHierarchy(bd, b);
    } else if b.blockType == MTF_FILE {
      FileHierarchy(bd, b);
    }
  }

  lemma DirectoryHierarchy(bd: Builder, b: Block)
    requires Hierarchy(bd) && Directory(bd, b).Ok?
    ensures Hierarchy(Directory(bd, b).value)
  {
    var r := Directory(bd, b).value;
    if NameInStream(b) {
      var names := StreamNames(b, "PNAM", 0);
      FoldersFromAdopts(bd, b, 0);
      if names != [] {
        var v := bd.last.lastVolume.value;
        var made := AdoptAll(bd, v, FOLDER, Stripped(names), b);
        AdoptAllShape(bd, v, FOLDER, Stripped(names), b);
        AdoptAllAppends(bd, v, FOLDER, Stripped(names), b);
        NewestKept(bd.nodes, r.nodes, bd.last.lastSet, SET);
        NewestKept(bd.nodes, r.nodes, bd.last.lastVolume, VOLUME);
      }
    } else {
      var v := bd.last.lastVolume.value;
      var name := DropLast(b.name).value;
      AdoptShape(bd, v, FOLDER, name, b);
      AdoptExtends(bd, v, FOLDER, name, b);
      NewestKept(bd.nodes, r.nodes, bd.last.lastSet, SET);
      NewestKept(bd.nodes, r.nodes, bd.last.lastVolume, VOLUME);
    }
  }

  lemma FileHierarchy(bd: Builder, b: Block)
    requires Hierarchy(bd) && File(bd, b).Ok?
    ensures Hierarchy(File(bd, b).value)
  {
    var r := File(bd, b).value;
    var names := if NameInStream(b) then StreamNames(b, "FNAM", 0) else [b.name];
    if NameInStream(b) {
      FilesFromAdopts(bd, b, 0);
    }
    if names != [] {
      var f := bd.last.lastFolder.value;
      if NameInStream(b) {
        AdoptAllShape(bd, f, FILE, names, b);
        AdoptAllAppends(bd, f, FILE, names, b);
      } else {
        AdoptShape(bd, f, FILE, b.name, b);
        AdoptExtends(bd, f, FILE, b.name, b);
      }
      NewestKept(bd.nodes, r.nodes, bd.last.lastSet, SET);
      NewestKept(bd.nodes, r.nodes, bd.last.lastVolume, VOLUME);
      NewestKept(bd.nodes, r.nodes, bd.last.lastFolder, FOLDER);
    }
  }

  /** The root's children are exactly the sets, in the order they arrived. */
  lemma RootChildrenAreSets(bd: Builder)
    requires Hierarchy(bd)
    ensures Increasing(bd.nodes[0].children)
    ensures forall i :: 1 <= i < |bd.nodes| ==> (i in bd.nodes[0].children <==> bd.nodes[i].kind == SET)
  {
    assert Parented(bd.nodes, 0);
    forall i | 1 <= i < |bd.nodes|
      ensures i in bd.nodes[0].children <==> bd.nodes[i].kind == SET
    {
      assert Placed(bd.nodes, i);
      var q := bd.nodes[i].parent.value;
      assert q == 0 || Placed(bd.nodes, q);
      if i in bd.nodes[0].children {
        var k :| 0 <= k < |bd.nodes[0].children| && bd.nodes[0].children[k] == i;
        assert q == 0;
      }
    }
  }

  // ---------------------------------------------------------------------
  // The loop.

  /** A block appends entries made from it and changes no existing entry
      but by giving it children. */
  lemma DispatchGrows(bd: Builder, b: Block)
    requires WellFormed(bd) && Dispatch(bd, b).Ok?
    ensures var r := Dispatch(bd, b).value;
      && Extends(r.nodes, bd.nodes)
      && forall j :: |bd.nodes| <= j < |r.nodes| ==> r.nodes[j].block == b
  {
    if b.blockType == MTF_SSET {
      AdoptExtends(bd, 0, SET, Catalog.SetName(b.setNumber, b.name), b);
    } else if b.blockType == MTF_VOLB {
      AdoptExtends(bd, bd.last.lastSet.value, VOLUME, b.name, b);
    } else if b.blockType == MTF_DIRB {
      if NameInStream(b) {
        FoldersFromNames(bd, b, 0);
      } else {
        AdoptExtends(bd, bd.last.lastVolume.value, FOLDER, DropLast(b.name).value, b);
      }
    } else if b.blockType == MTF_FILE {
      if NameInStream(b) {
        FilesFromNames(bd, b, 0);
      } else {
        AdoptExtends(bd, bd.last.lastFolder.value, FILE, b.name, b);
      }
    }
  }

  /** The loop stops exactly at the first block of type EOTM or 0 (or past
      the last block), or once cancelled; every iteration consumes exactly
      one block. */
  lemma {:induction false} RunStops(s: Scan, blocks: seq<Block>, cancelAt: Option<nat>, increment: int, length: nat)
    requires WellFormed(s.bd) && s.cursor <= |blocks| && RunFrom(s, blocks, cancelAt, increment, length).Ok?
    ensures var u := RunFrom(s, blocks, cancelAt, increment, length).value;
      && !Continues(blocks, u, cancelAt)
      && u.steps == s.steps + (u.cursor - s.cursor)
      && forall j :: s.cursor <= j < u.cursor ==>
           blocks[j].blockType != MTF_EOTM && blocks[j].blockType != 0 && !Cancelled(cancelAt, s.steps + (j - s.cursor))
    decreases |blocks| - s.cursor
  {
    if Continues(blocks, s, cancelAt) {
      var next := Step(s, blocks, increment, length).value;
      RunStops(next, blocks, cancelAt, increment, length);
      var u := RunFrom(s, blocks, cancelAt, increment, length).value;
      assert u == RunFrom(next, blocks, cancelAt, increment, length).value;
      assert u.steps == next.steps + (u.cursor - next.cursor);
      forall j | s.cursor <= j < u.cursor
        ensures blocks[j].blockType != MTF_EOTM && blocks[j].blockType != 0 && !Cancelled(cancelAt, s.steps + (j - s.cursor))
      {
        if j == s.cursor {
          assert PeekType(blocks, s.cursor) == blocks[j].blockType;
        } else {
          assert next.steps + (j - next.cursor) == s.steps + (j - s.cursor);
        }
      }
    }
  }

  /** One iteration appends entries made from the block it reads, and at
      most one progress report. */
  lemma StepGrows(s: Scan, blocks: seq<Block>, increment: int, length: nat)
    requires WellFormed(s.bd) && s.cursor < |blocks| && Step(s, blocks, increment, length).Ok?
    ensures var r := Step(s, blocks, increment, length).value;
      && Extends(r.bd.nodes, s.bd.nodes) && s.reports <= r.reports
      && forall j :: |s.bd.nodes| <= j < |r.bd.nodes| ==> r.bd.nodes[j].block == blocks[s.cursor]
  {
    DispatchGrows(s.bd, blocks[s.cursor]);
  }

  /** A run only appends entries, made from the blocks it consumed, and only
      appends progress reports. */
  lemma {:induction false} RunGrows(s: Scan, blocks: seq<Block>, cancelAt: Option<nat>, increment: int, length: nat)
    requires WellFormed(s.bd) && s.cursor <= |blocks| && RunFrom(s, blocks, cancelAt, increment, length).Ok?
    ensures var u := RunFrom(s, blocks, cancelAt, increment, length).value;
      && Extends(u.bd.nodes, s.bd.nodes) && s.reports <= u.reports
      && forall j :: |s.bd.nodes| <= j < |u.bd.nodes| ==> u.bd.nodes[j].block in blocks[s.cursor..u.cursor]
    decreases |blocks| - s.cursor
  {
    if Continues(blocks, s, cancelAt) {
      var next := Step(s, blocks, increment, length).value;
      var u := RunFrom(next, blocks, cancelAt, increment, length).value;
      assert RunFrom(s, blocks, cancelAt, increment, length) == Ok(u);
      StepGrows(s, blocks, increment, length);
      RunGrows(next, blocks, cancelAt, increment, length);
      ExtendsTrans(s.bd.nodes, next.bd.nodes, u.bd.nodes);
      forall j | |s.bd.nodes| <= j < |u.bd.nodes|
        ensures u.bd.nodes[j].block in blocks[s.cursor..u.cursor]
      {
        if j < |next.bd.nodes| {
          assert Grown(next.bd.nodes[j], u.bd.nodes[j]);
        }
        SliceWidens(blocks, s.cursor, u.cursor, u.bd.nodes[j].block);
      }
    }
  }

  /** What lies in blocks[i+1..k], or is blocks[i], lies in blocks[i..k]. */
  lemma SliceWidens(blocks: seq<Block>, i: nat, k: nat, b: Block)
    requires i < k <= |blocks| && (b == blocks[i] || b in blocks[i + 1..k])
    ensures b in blocks[i..k]
  {
    assert blocks[i..k] == [blocks[i]] + blocks[i + 1..k];
  }

  /** Every block the loop adds keeps the shape of the catalog. */
  lemma {:induction false} RunHierarchy(s: Scan, blocks: seq<Block>, cancelAt: Option<nat>, increment: int, length: nat)
    requires Hierarchy(s.bd) && s.cursor <= |blocks| && RunFrom(s, blocks, cancelAt, increment, length).Ok?
    ensures Hierarchy(RunFrom(s, blocks, cancelAt, increment, length).value.bd)
    decreases |blocks| - s.cursor
  {
    if Continues(blocks, s, cancelAt) {
      DispatchHierarchy(s.bd, blocks[s.cursor]);
      RunHierarchy(Step(s, blocks, increment, length).value, blocks, cancelAt, increment, length);
    }
  }

  /** A run cancelled after k iterations stops at a state the uncancelled
      run passes through: its catalog is a prefix of the uncancelled run's
      catalog, and so are its progress reports. */
  lemma {:induction false} CancelledPrefix(s: Scan, blocks: seq<Block>, k: nat, increment: int, length: nat)
    requires WellFormed(s.bd) && s.cursor <= |blocks| && RunFrom(s, blocks, None, increment, length).Ok?
    ensures RunFrom(s, blocks, Some(k), increment, length).Ok?
    ensures var c := RunFrom(s, blocks, Some(k), increment, length).value;
      var u := RunFrom(s, blocks, None, increment, length).value;
      Extends(u.bd.nodes, c.bd.nodes) && c.reports <= u.reports && c.cursor <= u.cursor
    decreases |blocks| - s.cursor
  {
    if Continues(blocks, s, Some(k)) {
      CancelledPrefix(Step(s, blocks, increment, length).value, blocks, k, increment, length);
    } else {
      RunGrows(s, blocks, None, increment, length);
    }
  }

  /** The whole catalog read: the catalog keeps its shape, holds only nodes
      made from blocks read, and the loop stopped where it should. */
  lemma CatalogRead(blocks: seq<Block>, lastPos: int, increment: int, length: nat, cancelAt: Option<nat>)
    requires ReadCatalog(blocks, lastPos, increment, length, cancelAt).Ok?
    ensures var u := ReadCatalog(blocks, lastPos, increment, length, cancelAt).value;
      && Hierarchy(u.bd)
      && u.bd.nodes[0].kind == ROOT && u.bd.nodes[0].block == blocks[0]
      && (forall j :: 0 <= j < |u.bd.nodes| ==> u.bd.nodes[j].block in blocks[..u.cursor])
      && !Continues(blocks, u, cancelAt)
  {
    var s := Scan(Start(blocks[0]), 2, 0, lastPos, []);
    var u := ReadCatalog(blocks, lastPos, increment, length, cancelAt).value;
    RunHierarchy(s, blocks, cancelAt, increment, length);
    RunGrows(s, blocks, cancelAt, increment, length);
    RunStops(s, blocks, cancelAt, increment, length);
    assert Grown(s.bd.nodes[0], u.bd.nodes[0]);
    forall j | 0 <= j < |u.bd.nodes|
      ensures u.bd.nodes[j].block in blocks[..u.cursor]
    {
      if j == 0 {
        assert blocks[..u.cursor][0] == blocks[0];
      } else {
        var x := u.bd.nodes[j].block;
        assert x in blocks[2..u.cursor];
        var m :| 0 <= m < |blocks[2..u.cursor]| && blocks[2..u.cursor][m] == x;
        assert blocks[..u.cursor][m + 2] == x;
      }
    }
  }

  /** The subtree at entry i as the catalog file stores it: kind, name,
      offset and the subtrees of the children in order. */
  function TreeOf(bd: Builder, i: nat): (t: Tree)
    requires WellFormed(bd) && i < |bd.nodes|
    ensures t.kind == bd.nodes[i].kind && t.name == bd.nodes[i].name && t.offset == bd.nodes[i].offset
    ensures |t.children| == |bd.nodes[i].children|
    decreases |bd.nodes| - i
  {
    var e := bd.nodes[i];
    assert ChildrenAfter(bd.nodes, i);
    Tree(e.kind, e.name, e.offset, seq(|e.children|, k requires 0 <= k < |e.children| => TreeOf(bd, e.children[k])))
  }

  // ---------------------------------------------------------------------
  // Progress.

  predicate Sorted(xs: seq<int>) {
    forall i, j :: 0 <= i < j < |xs| ==> xs[i] <= xs[j]
  }

  /** Blocks as read from a stream of the given length: each ends inside
      the stream, and no block ends before an earlier one. */
  predicate InStream(blocks: seq<Block>, length: nat) {
    && (forall i :: 0 <= i < |blocks| ==> 0 <= blocks[i].finish <= length)
    && (forall i, j :: 0 <= i < j < |blocks| ==> blocks[i].finish <= blocks[j].finish)
  }

  /** The progress state of the loop: mLastPos lies in the stream and no
      later than any unread block's end, and the reports so far are a
      non-decreasing run of percentages, none above mLastPos's. */
  predicate Progressing(s: Scan, blocks: seq<Block>, length: nat) {
    && 0 <= s.lastPos <= length
    && Sorted(s.reports)
    && (forall i :: 0 <= i < |s.reports| ==> 0 <= s.reports[i] <= Percent(s.lastPos, length))
    && (forall j :: s.cursor <= j < |blocks| ==> s.lastPos <= blocks[j].finish)
  }

  lemma DivMono(a: int, b: int, n: int)
    requires a <= b && n > 0
    ensures a / n <= b / n
  {
    assert n * (a / n) <= a;
    assert b < n * (b / n + 1);
    assert n * (a / n) < n * (b / n + 1);
  }

  lemma PercentMono(p: int, q: int, length: nat)
    requires p <= q
    ensures Percent(p, length) <= Percent(q, length)
  {
    if length > 0 {
      DivMono(p * 100, q * 100, length);
    }
  }

  /** A position inside the stream is between 0 and 100 per cent of it. */
  lemma PercentBounds(p: int, length: nat)
    requires 0 <= p <= length
    ensures 0 <= Percent(p, length) <= 100
  {
    if length > 0 {
      DivMono(p * 100, length * 100, length);
      DivMono(0, p * 100, length);
      assert length * 100 / length == 100;
    }
  }

  lemma {:induction false} StepProgress(s: Scan, blocks: seq<Block>, increment: int, length: nat)
    requires WellFormed(s.bd) && s.cursor < |blocks| && Step(s, blocks, increment, length).Ok?
    requires InStream(blocks, length) && increment >= 0 && Progressing(s, blocks, length)
    ensures var r := Step(s, blocks, increment, length).value;
      && Progressing(r, blocks, length)
      && s.lastPos <= r.lastPos
      && (r.reports != s.reports <==> blocks[s.cursor].finish > s.lastPos + increment)
      && (r.reports != s.reports ==>
            r.lastPos == blocks[s.cursor].finish && r.reports == s.reports + [Percent(r.lastPos, length)])
      && (r.reports == s.reports ==> r.lastPos == s.lastPos)
  {
    var b := blocks[s.cursor];
    var r := Step(s, blocks, increment, length).value;
    if b.finish > s.lastPos + increment {
      PercentMono(s.lastPos, b.finish, length);
      PercentBounds(b.finish, length);
      assert r.reports == s.reports + [Percent(b.finish, length)];
      forall j | s.cursor < j < |blocks|
        ensures r.lastPos <= blocks[j].finish
      {
        assert blocks[s.cursor].finish <= blocks[j].finish;
      }
    }
  }

  /** Over a whole run mLastPos only moves forward, the reports stay a
      non-decreasing run of percentages, and there is at most one report
      per block read. */
  lemma {:induction false} RunProgress(s: Scan, blocks: seq<Block>, cancelAt: Option<nat>, increment: int, length: nat)
    requires WellFormed(s.bd) && s.cursor <= |blocks| && RunFrom(s, blocks, cancelAt, increment, length).Ok?
    requires InStream(blocks, length) && increment >= 0 && Progressing(s, blocks, length)
    ensures var u := RunFrom(s, blocks, cancelAt, increment, length).value;
      && Progressing(u, blocks, length)
      && s.lastPos <= u.lastPos
      && |u.reports| - |s.reports| <= u.cursor - s.cursor
    decreases |blocks| - s.cursor
  {
    if Continues(blocks, s, cancelAt) {
      var next := Step(s, blocks, increment, length).value;
      StepProgress(s, blocks, increment, length);
      RunProgress(next, blocks, cancelAt, increment, length);
    }
  }

  /** The quotient of a by n is d when a is n * d plus a remainder below n. */
  lemma DivUnique(a: int, n: int, d: int, m: int)
    requires n > 0 && a == n * d + m && 0 <= m < n
    ensures a / n == d
  {
    var q, k := a / n, a % n;
    assert a == n * q + k && 0 <= k < n;
    if q != d {
      var x := if q < d then d - q else q - d;
      assert n * x == if q < d then k - m else m - k by {
        if q < d { assert n * d == n * q + n * x; } else { assert n * q == n * d + n * x; }
      }
      MulAtLeast(n, x);
    }
  }

  lemma MulAtLeast(n: int, x: int)
    requires n > 0 && x >= 1
    ensures n * x >= n
  {
  }

  /** With mIncrement = Length / 100, moving past mLastPos + mIncrement
      moves the percentage up by at least one. */
  lemma StepUp(lastPos: int, pos: int, length: nat)
    requires 0 <= lastPos && lastPos + length / 100 < pos <= length
    ensures Percent(lastPos, length) + 1 <= Percent(pos, length)
  {
    var q := length / 100;
    assert length < 100 * q + 100;
    var a := lastPos * 100;
    assert a + length < pos * 100;
    DivUnique(a + length, length, a / length + 1, a % length);
    DivMono(a + length, pos * 100, length);
  }

  /** The reports are a strictly increasing run of percentages from 1 up to
      mLastPos's. */
  predicate Rising(s: Scan, length: nat) {
    && (forall i, j :: 0 <= i < j < |s.reports| ==> s.reports[i] < s.reports[j])
    && (forall i :: 0 <= i < |s.reports| ==> 1 <= s.reports[i] <= Percent(s.lastPos, length))
  }

  lemma {:induction false} StepRises(s: Scan, blocks: seq<Block>, length: nat)
    requires WellFormed(s.bd) && s.cursor < |blocks| && Step(s, blocks, length / 100, length).Ok?
    requires InStream(blocks, length) && Progressing(s, blocks, length) && Rising(s, length)
    ensures Rising(Step(s, blocks, length / 100, length).value, length)
  {
    var r := Step(s, blocks, length / 100, length).value;
    StepProgress(s, blocks, length / 100, length);
    if r.reports != s.reports {
      StepUp(s.lastPos, r.lastPos, length);
      PercentBounds(s.lastPos, length);
      assert r.reports == s.reports + [Percent(r.lastPos, length)];
    }
  }

  /** Over a whole run with mIncrement = Length / 100, the reports keep
      rising strictly. */
  lemma {:induction false} RunRises(s: Scan, blocks: seq<Block>, cancelAt: Option<nat>, length: nat)
    requires WellFormed(s.bd) && s.cursor <= |blocks| && RunFrom(s, blocks, cancelAt, length / 100, length).Ok?
    requires InStream(blocks, length) && Progressing(s, blocks, length) && Rising(s, length)
    ensures Rising(RunFrom(s, blocks, cancelAt, length / 100, length).value, length)
    decreases |blocks| - s.cursor
  {
    if Continues(blocks, s, cancelAt) {
      var next := Step(s, blocks, length / 100, length).value;
      StepProgress(s, blocks, length / 100, length);
      StepRises(s, blocks, length);
      RunRises(next, blocks, cancelAt, length);
    }
  }

  /** Read from the start of the stream with mIncrement = Length / 100, the
      progress reports are a strictly increasing run of percentages from 1
      to 100, at most one per block read. */
  lemma CatalogProgress(blocks: seq<Block>, length: nat, cancelAt: Option<nat>)
    requires InStream(blocks, length)
    requires ReadCatalog(blocks, 0, length / 100, length, cancelAt).Ok?
    ensures var u := ReadCatalog(blocks, 0, length / 100, length, cancelAt).value;
      && (forall i, j :: 0 <= i < j < |u.reports| ==> u.reports[i] < u.reports[j])
      && (forall i :: 0 <= i < |u.reports| ==> 1 <= u.reports[i] <= 100)
      && |u.reports| <= u.cursor - 2
  {
    var s := Scan(Start(blocks[0]), 2, 0, 0, []);
    RunProgress(s, blocks, cancelAt, length / 100, length);
    RunRises(s, blocks, cancelAt, length);
    var u := ReadCatalog(blocks, 0, length / 100, length, cancelAt).value;
    PercentBounds(u.lastPos, length);
  }
}
