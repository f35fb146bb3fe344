/** CBackupReader: the catalog loop over the heap nodes of CCatalogNode,
    proved to build, node for node, the catalog that CatalogBuilder
    describes. The backup stream is a sequence of decoded descriptor blocks
    and a cursor; cancellation from another thread is a schedule saying
    after how many iterations CancelRead is called. */
module BackupReader {
  import opened Wrappers
  import opened NetBinary
  import opened Mtf
  import opened CatalogTree
  import opened Catalog
  import opened CatalogBuilder

  /** CBackupStream, as the descriptor blocks it holds from its current
      position on. */
  class BlockStream {
    const blocks: seq<Block>
    const length: nat
    var cursor: nat

    /** The cursor never goes past the last block. */
    ghost predicate Valid()
      reads this
    {
      cursor <= |blocks|
    }

    constructor (blocks: seq<Block>, length: nat)
      ensures Valid() && this.blocks == blocks && this.length == length && cursor == 0
    {
      this.blocks := blocks;
      this.length := length;
      cursor := 0;
    }

    /** PeekNextBlockType: the type of the next block, 0 at the end. */
    method PeekNextBlockType() returns (t: nat)
      ensures t == PeekType(blocks, cursor)
      ensures cursor < |blocks| ==> t == blocks[cursor].blockType
    {
      t := if cursor < |blocks| then blocks[cursor].blockType else 0;
    }

    /** ReadDBLK: the next block, and the stream moves past it. */
    method ReadBlock() returns (r: Result<Block>)
      requires Valid()
      modifies this`cursor
      ensures Valid()
      ensures old(cursor) < |blocks| ==> r == Ok(blocks[old(cursor)]) && cursor == old(cursor) + 1
      ensures old(cursor) >= |blocks| ==> r == Err(EndOfStream) && cursor == old(cursor)
    {
      if cursor < |blocks| {
        r := Ok(blocks[cursor]);
        cursor := cursor + 1;
      } else {
        r := Err(EndOfStream);
      }
    }

    /** BaseStream.Position: the end of the last block read, 0 before the
        first. In a stream whose blocks end in order inside it, the position
        lies inside the stream and the next block does not end before it
        (nor, by that order, does any later one). */
    function Pos(): (p: int)
      reads this
      ensures cursor == 0 ==> p == 0
      ensures 0 < cursor <= |blocks| ==> p == blocks[cursor - 1].finish
      ensures InStream(blocks, length) ==> 0 <= p <= length
      ensures InStream(blocks, length) && cursor < |blocks| ==> p <= blocks[cursor].finish
    {
      if 0 < cursor <= |blocks| then blocks[cursor - 1].finish else 0
    }
  }

  // ---------------------------------------------------------------------
  // Heap nodes and arena entries.

  /** The heap node for an arena index; null for none. */
  ghost function Ptr(made: seq<CatalogNode>, t: Option<nat>): CatalogNode? {
    if t.Some? && t.value < |made| then made[t.value] else null
  }

  /** The heap node made[i] is the entry e: the same kind, name, offset and
      block, the node for e's parent as parent, and the nodes for e's
      children as children, in order. */
  ghost predicate Mirrors(made: seq<CatalogNode>, i: nat, e: Entry)
    requires i < |made|
    reads made
  {
    && made[i].kind == e.kind && made[i].name == e.name && made[i].offset == e.offset
    && made[i].block == Some(e.block)
    && made[i].parent == Ptr(made, e.parent)
    && |made[i].children| == |e.children|
    && forall k :: 0 <= k < |e.children| ==> e.children[k] < |made| && made[i].children[k] == made[e.children[k]]
  }

  /** Distinct heap nodes, one per entry, each mirroring its entry. */
  ghost predicate Represents(made: seq<CatalogNode>, es: seq<Entry>)
    reads made
  {
    && |made| == |es|
    && (forall i, j :: 0 <= i < j < |made| ==> made[i] != made[j])
    && forall i :: 0 <= i < |made| ==> Mirrors(made, i, es[i])
  }

  /** Appending nodes keeps every earlier index pointing at the same node. */
  lemma PtrKept(made: seq<CatalogNode>, made': seq<CatalogNode>, t: Option<nat>)
    requires made <= made' && Below(t, |made|)
    ensures Ptr(made', t) == Ptr(made, t)
  {
  }

  /** Every node in ns was allocated by the current method. */
  twostate predicate AllFresh(new ns: seq<CatalogNode>) {
    forall j | 0 <= j < |ns| :: fresh(ns[j])
  }

  /** The nodes made so far are the ones made before and new ones after
      them. */
  twostate predicate GrewFrom(made: seq<CatalogNode>, new made': seq<CatalogNode>) {
    made <= made' && forall j :: |made| <= j < |made'| ==> fresh(made'[j])
  }

  /** The heap nodes made represent the arena of bd, the root is the node
      for entry 0, and the last set, volume and folder nodes are the ones for
      bd's targets. */
  ghost predicate Tracks(made: seq<CatalogNode>, bd: Builder, root: CatalogNode,
                         lastSet: CatalogNode?, lastVolume: CatalogNode?, lastFolder: CatalogNode?)
    reads made
  {
    && WellFormed(bd) && Represents(made, bd.nodes) && |made| > 0 && root == made[0]
    && lastSet == Ptr(made, bd.last.lastSet) && lastVolume == Ptr(made, bd.last.lastVolume)
    && lastFolder == Ptr(made, bd.last.lastFolder)
  }

  /** An Add* call on the node for entry p: its kind picks AddSet,
      AddVolume, AddFolder or AddFile. The call appends the new node to that
      node's children and changes nothing else, so the arena gains it as
      Adopt's new entry. */
  method Attach(parent: CatalogNode, kind: Int32, b: Block, name: string, ghost made: seq<CatalogNode>, ghost bd: Builder, ghost p: nat)
    returns (c: CatalogNode)
    requires WellFormed(bd) && p < |bd.nodes| && Represents(made, bd.nodes) && parent == made[p]
    requires kind == SET || kind == VOLUME || kind == FOLDER || kind == FILE
    requires kind == SET ==> name == SetName(b.setNumber, b.name)
    requires kind == VOLUME ==> name == b.name
    modifies parent`children
    ensures fresh(c) && Represents(made + [c], Adopt(bd, p, kind, name, b).nodes)
  {
    if kind == SET {
      c := parent.AddSet(b);
    } else if kind == VOLUME {
      c := parent.AddVolume(b);
    } else if kind == FOLDER {
      c := parent.AddFolder(b, name);
    } else {
      c := parent.AddFile(b, name);
    }
    var made' := made + [c];
    var es := Adopt(bd, p, kind, name, b).nodes;
    var n := |bd.nodes|;
    forall i | 0 <= i < |made'|
      ensures Mirrors(made', i, es[i])
    {
      if i == n {
        assert made'[i] == c;
      } else {
        assert old(Mirrors(made, i, bd.nodes[i]));
        assert made'[i] == made[i];
        var e := bd.nodes[i];
        assert forall k :: 0 <= k < |e.children| ==> made'[e.children[k]] == made[e.children[k]];
        if e.parent.Some? {
          assert Ptr(made', e.parent) == Ptr(made, e.parent);
        }
        if i == p {
          assert es[i].children == e.children + [n];
          assert made'[i].children == old(made[i].children) + [made'[n]];
        }
      }
    }
  }

  // ---------------------------------------------------------------------
  // One block of the catalog loop.

  /** One pass of the foreach over a DIRB block's streams, on stream i
      (CBackupReader.cs lines 82-101): a PNAM stream of a known string type
      is read as a name, its last character dropped, and a folder of that
      name added under the last volume. */
  method FolderFromStream(b: Block, i: nat, lastVolume: CatalogNode?, ghost made: seq<CatalogNode>, ghost bd: Builder)
    returns (err: Option<Fault>, c: CatalogNode?, ghost made': seq<CatalogNode>, ghost next: Builder)
    requires i < |b.streams| && WellFormed(bd) && Represents(made, bd.nodes) && lastVolume == Ptr(made, bd.last.lastVolume)
    modifies made
    ensures err.Some? ==> FoldersFrom(bd, b, i) == Err(err.value)
    ensures err.None? ==> WellFormed(next) && next.last == bd.last && FoldersFrom(bd, b, i) == FoldersFrom(next, b, i + 1)
    ensures err.None? ==> Represents(made', next.nodes)
    ensures err.None? && c == null ==> made' == made
    ensures err.None? && c != null ==> made' == made + [c] && fresh(c)
  {
    err, c, made', next := None, null, made, bd;
    var s := b.streams[i];
    if s.id == "PNAM" && (b.stringType == ANSI || b.stringType == UNICODE) {
      var raw := if b.stringType == ANSI then AnsiString(s.data) else UnicodeString(s.data);
      assert StreamName(b, s, "PNAM") == Some(raw);
      var name := DropLast(raw);
      if name.Err? {
        return Some(name.fault), c, made', next;
      }
      if lastVolume == null {
        return Some(NullReference), c, made', next;
      }
      c := Attach(lastVolume, FOLDER, b, name.value, made, bd, bd.last.lastVolume.value);
      made', next := made + [c], Adopt(bd, bd.last.lastVolume.value, FOLDER, name.value, b);
    }
  }

  /** The foreach over a DIRB block's PNAM streams (CBackupReader.cs lines
      80-103). The folder made last is returned, null if there is none. */
  method AddFolders(b: Block, lastVolume: CatalogNode?, ghost made: seq<CatalogNode>, ghost bd: Builder)
    returns (err: Option<Fault>, cnode: CatalogNode?, ghost made': seq<CatalogNode>)
    requires WellFormed(bd) && Represents(made, bd.nodes) && lastVolume == Ptr(made, bd.last.lastVolume)
    modifies made
    ensures err.Some? <==> FoldersFrom(bd, b, 0).Err?
    ensures err.Some? ==> FoldersFrom(bd, b, 0) == Err(err.value)
    ensures err.None? ==> Represents(made', FoldersFrom(bd, b, 0).value.nodes) && GrewFrom(made, made')
    ensures err.None? ==> cnode == if |made'| > |made| then made'[|made'| - 1] else null
  {
    ghost var cur := bd;
    made', cnode := made, null;
    var i := 0;
    while i < |b.streams|
      invariant 0 <= i <= |b.streams|
      invariant WellFormed(cur) && cur.last == bd.last && FoldersFrom(cur, b, i) == FoldersFrom(bd, b, 0)
      invariant Represents(made', cur.nodes)
      invariant made <= made'
      invariant forall j :: |made| <= j < |made'| ==> fresh(made'[j])
      invariant |made'| == |made| ==> cnode == null
      invariant |made'| > |made| ==> cnode == made'[|made'| - 1]
    {
      var e, c, m, next := FolderFromStream(b, i, lastVolume, made', cur);
      if e.Some? {
        return e, cnode, made';
      }
      if c != null {
        forall j | |made| <= j < |m|
          ensures fresh(m[j])
        {
          if j < |made'| {
            assert m[j] == made'[j];
          }
        }
        cnode := c;
      }
      PtrKept(made', m, cur.last.lastVolume);
      cur, made' := next, m;
      i := i + 1;
    }
    err := None;
  }

  /** One pass of the foreach over a FILE block's streams, on stream i
      (CBackupReader.cs lines 119-136): a FNAM stream of a known string type
      is read as a name and a file of that name added under the last folder. */
  method FileFromStream(b: Block, i: nat, lastFolder: CatalogNode?, ghost made: seq<CatalogNode>, ghost bd: Builder)
    returns (err: Option<Fault>, c: CatalogNode?, ghost made': seq<CatalogNode>, ghost next: Builder)
    requires i < |b.streams| && WellFormed(bd) && Represents(made, bd.nodes) && lastFolder == Ptr(made, bd.last.lastFolder)
    modifies made
    ensures err.Some? ==> FilesFrom(bd, b, i) == Err(err.value)
    ensures err.None? ==> WellFormed(next) && next.last == bd.last && FilesFrom(bd, b, i) == FilesFrom(next, b, i + 1)
    ensures err.None? ==> Represents(made', next.nodes)
    ensures err.None? && c == null ==> made' == made
    ensures err.None? && c != null ==> made' == made + [c] && fresh(c)
  {
    err, c, made', next := None, null, made, bd;
    var s := b.streams[i];
    if s.id == "FNAM" && (b.stringType == ANSI || b.stringType == UNICODE) {
      var name := if b.stringType == ANSI then AnsiString(s.data) else UnicodeString(s.data);
      assert StreamName(b, s, "FNAM") == Some(name);
      if lastFolder == null {
        return Some(NullReference), c, made', next;
      }
      c := Attach(lastFolder, FILE, b, name, made, bd, bd.last.lastFolder.value);
      made', next := made + [c], Adopt(bd, bd.last.lastFolder.value, FILE, name, b);
    }
  }

  /** The foreach over a FILE block's FNAM streams (CBackupReader.cs lines
      117-138). */
  method AddFiles(b: Block, lastFolder: CatalogNode?, ghost made: seq<CatalogNode>, ghost bd: Builder)
    returns (err: Option<Fault>, ghost made': seq<CatalogNode>)
    requires WellFormed(bd) && Represents(made, bd.nodes) && lastFolder == Ptr(made, bd.last.lastFolder)
    modifies made
    ensures err.Some? <==> FilesFrom(bd, b, 0).Err?
    ensures err.Some? ==> FilesFrom(bd, b, 0) == Err(err.value)
    ensures err.None? ==> Represents(made', FilesFrom(bd, b, 0).value.nodes) && GrewFrom(made, made')
  {
    ghost var cur := bd;
    made' := made;
    var i := 0;
    while i < |b.streams|
      invariant 0 <= i <= |b.streams|
      invariant WellFormed(cur) && cur.last == bd.last && FilesFrom(cur, b, i) == FilesFrom(bd, b, 0)
      invariant Represents(made', cur.nodes)
      invariant made <= made'
      invariant forall j :: |made| <= j < |made'| ==> fresh(made'[j])
    {
      var e, c, m, next := FileFromStream(b, i, lastFolder, made', cur);
      if e.Some? {
        return e, made';
      }
      if c != null {
        forall j | |made| <= j < |m|
          ensures fresh(m[j])
        {
          if j < |made'| {
            assert m[j] == made'[j];
          }
        }
      }
      PtrKept(made', m, cur.last.lastFolder);
      cur, made' := next, m;
      i := i + 1;
    }
    err := None;
  }

  /** The body of the catalog loop for one block (CBackupReader.cs lines
      63-143): a set goes under the root, a volume under the last set, a
      directory under the last volume and a file under the last folder, and
      the last set, volume or folder moves to the node made. It does on the
      heap what Dispatch does on the arena, and fails with the same fault. */
  method AddBlock(b: Block, root: CatalogNode, lastSet: CatalogNode?, lastVolume: CatalogNode?, lastFolder: CatalogNode?,
                   ghost made: seq<CatalogNode>, ghost bd: Builder)
    returns (err: Option<Fault>, set': CatalogNode?, volume': CatalogNode?, folder': CatalogNode?, ghost made': seq<CatalogNode>)
    requires Tracks(made, bd, root, lastSet, lastVolume, lastFolder)
    modifies made
    ensures err.Some? <==> Dispatch(bd, b).Err?
    ensures err.Some? ==> Dispatch(bd, b) == Err(err.value)
    ensures err.None? ==> Tracks(made', Dispatch(bd, b).value, root, set', volume', folder') && GrewFrom(made, made')
  {
    err, set', volume', folder', made' := None, lastSet, lastVolume, lastFolder, made;
    if b.blockType == MTF_SSET {
      var c := Attach(root, SET, b, SetName(b.setNumber, b.name), made, bd, 0);
      made', set' := made + [c], c;
    } else if b.blockType == MTF_VOLB {
      if lastSet == null {
        return Some(NullReference), set', volume', folder', made';
      }
      var c := Attach(lastSet, VOLUME, b, b.name, made, bd, bd.last.lastSet.value);
      made', volume' := made + [c], c;
    } else if b.blockType == MTF_DIRB || b.blockType == MTF_FILE {
      err, folder', made' := EntryBlock(b, root, lastSet, lastVolume, lastFolder, made, bd);
      return;
    }
    PtrKept(made, made', bd.last.lastSet);
    PtrKept(made, made', bd.last.lastVolume);
    PtrKept(made, made', bd.last.lastFolder);
  }

  /** The DIRB and FILE branches of AddBlock: folders or files under the
      last volume or folder. The last set and volume stay, and the last
      folder moves to the folder a DIRB block made last. */
  method EntryBlock(b: Block, root: CatalogNode, lastSet: CatalogNode?, lastVolume: CatalogNode?, lastFolder: CatalogNode?,
                    ghost made: seq<CatalogNode>, ghost bd: Builder)
    returns (err: Option<Fault>, folder': CatalogNode?, ghost made': seq<CatalogNode>)
    requires b.blockType == MTF_DIRB || b.blockType == MTF_FILE
    requires Tracks(made, bd, root, lastSet, lastVolume, lastFolder)
    modifies made
    ensures err.Some? <==> Dispatch(bd, b).Err?
    ensures err.Some? ==> Dispatch(bd, b) == Err(err.value)
    ensures err.None? ==> Tracks(made', Dispatch(bd, b).value, root, lastSet, lastVolume, folder') && GrewFrom(made, made')
  {
    folder', made' := lastFolder, made;
    if b.blockType == MTF_DIRB {
      var cnode;
      err, cnode, made' := Directory(b, lastVolume, made, bd);
      if err.Some? {
        return;
      }
      if cnode != null {
        folder' := cnode;
      }
    } else {
      err, made' := File(b, lastFolder, made, bd);
      if err.Some? {
        return;
      }
    }
    PtrKept(made, made', bd.last.lastSet);
    PtrKept(made, made', bd.last.lastVolume);
    PtrKept(made, made', bd.last.lastFolder);
  }

  /** A DIRB block (CBackupReader.cs lines 75-111): the folders named in its
      streams, or the one named by the block without its last character; the
      folder made last is returned, null if there is none. */
  method Directory(b: Block, lastVolume: CatalogNode?, ghost made: seq<CatalogNode>, ghost bd: Builder)
    returns (err: Option<Fault>, cnode: CatalogNode?, ghost made': seq<CatalogNode>)
    requires WellFormed(bd) && Represents(made, bd.nodes) && lastVolume == Ptr(made, bd.last.lastVolume)
    modifies made
    ensures err.Some? <==> CatalogBuilder.Directory(bd, b).Err?
    ensures err.Some? ==> CatalogBuilder.Directory(bd, b) == Err(err.value)
    ensures err.None? ==> var r := CatalogBuilder.Directory(bd, b).value;
      && Represents(made', r.nodes) && GrewFrom(made, made') && r.last.lastVolume == bd.last.lastVolume
      && r.last.lastSet == bd.last.lastSet
      && (cnode == null ==> r.last.lastFolder == bd.last.lastFolder)
      && (cnode != null ==> cnode == Ptr(made', r.last.lastFolder))
  {
    if NameInStream(b) {
      err, cnode, made' := AddFolders(b, lastVolume, made, bd);
    } else {
      made', cnode := made, null;
      var name := DropLast(b.name);
      if name.Err? {
        return Some(name.fault), cnode, made';
      }
      if lastVolume == null {
        return Some(NullReference), cnode, made';
      }
      var c := Attach(lastVolume, FOLDER, b, name.value, made, bd, bd.last.lastVolume.value);
      err, cnode, made' := None, c, made + [c];
    }
  }

  /** A FILE block (CBackupReader.cs lines 112-143): the files named in its
      streams, or the one named by the block. */
  method File(b: Block, lastFolder: CatalogNode?, ghost made: seq<CatalogNode>, ghost bd: Builder)
    returns (err: Option<Fault>, ghost made': seq<CatalogNode>)
    requires WellFormed(bd) && Represents(made, bd.nodes) && lastFolder == Ptr(made, bd.last.lastFolder)
    modifies made
    ensures err.Some? <==> CatalogBuilder.File(bd, b).Err?
    ensures err.Some? ==> CatalogBuilder.File(bd, b) == Err(err.value)
    ensures err.None? ==> Represents(made', CatalogBuilder.File(bd, b).value.nodes) && GrewFrom(made, made')
  {
    if NameInStream(b) {
      err, made' := AddFiles(b, lastFolder, made, bd);
    } else {
      made' := made;
      if lastFolder == null {
        return Some(NullReference), made';
      }
      var c := Attach(lastFolder, FILE, b, b.name, made, bd, bd.last.lastFolder.value);
      err, made' := None, made + [c];
    }
  }

  /** The nodes of a catalog on the heap. */
  ghost function Nodes(made: seq<CatalogNode>): set<CatalogNode> {
    set n | n in made
  }

  /** The heap nodes hold the subtrees of the arena they represent, so a
      catalog read from a backup is what SaveCatalog saves. */
  lemma {:induction false} HeapHolds(made: seq<CatalogNode>, bd: Builder, i: nat)
    requires WellFormed(bd) && Represents(made, bd.nodes) && i < |made|
    ensures Holds(made[i], TreeOf(bd, i), Nodes(made))
    decreases |bd.nodes| - i
  {
    var e, t := bd.nodes[i], TreeOf(bd, i);
    assert Mirrors(made, i, e);
    assert ChildrenAfter(bd.nodes, i);
    forall k | 0 <= k < |t.children|
      ensures Holds(made[i].children[k], t.children[k], Nodes(made))
    {
      HeapHolds(made, bd, e.children[k]);
    }
  }

  /** On the heap, every node but the root hangs under a node of the kind
      it is added under (a set under the root, a volume under a set, a
      folder under a volume, a file under a folder) and is among that node's
      children. */
  lemma HeapPlaced(made: seq<CatalogNode>, bd: Builder, i: nat)
    requires Hierarchy(bd) && Represents(made, bd.nodes) && 1 <= i < |made|
    ensures made[i].parent != null && made[i].parent in made
    ensures made[i].parent.kind == ParentKind(made[i].kind) && made[i] in made[i].parent.children
  {
    assert Placed(bd.nodes, i) && Mirrors(made, i, bd.nodes[i]);
    var p := bd.nodes[i].parent.value;
    assert Mirrors(made, p, bd.nodes[p]);
    var k :| 0 <= k < |bd.nodes[p].children| && bd.nodes[p].children[k] == i;
    assert made[p].children[k] == made[i];
  }

  /** CBackupReader. The progress events raised are kept, in order, in
      progress. */
  class BackupReader {
    var stream: BlockStream?
    var increment: int
    var lastPos: int
    var cancel: bool
    var progress: seq<int>

    ghost predicate Valid()
      reads this`stream, stream
    {
      stream != null ==> stream.Valid()
    }

    /** CBackupReader(): no backup file open yet. */
    constructor ()
      ensures Valid() && stream == null && increment == 0 && lastPos == 0 && !cancel && progress == []
    {
      stream, increment, lastPos, cancel, progress := null, 0, 0, false, [];
    }

    /** CBackupReader(filename): a reader with the backup file opened. */
    constructor Opened(blocks: seq<Block>, length: nat)
      ensures Valid() && fresh(stream) && stream.blocks == blocks && stream.length == length && stream.cursor == 0
      ensures increment == length / 100 && lastPos == 0 && !cancel && progress == []
    {
      stream, increment, lastPos, cancel, progress := null, 0, 0, false, [];
      new;
      Open(blocks, length);
    }

    /** Open: the stream over the backup file's blocks, mIncrement one
        hundredth of its length, mLastPos 0 and not cancelled. */
    method Open(blocks: seq<Block>, length: nat)
      modifies this
      ensures Valid() && fresh(stream) && stream.blocks == blocks && stream.length == length && stream.cursor == 0
      ensures increment == length / 100 && lastPos == 0 && !cancel && progress == old(progress)
    {
      stream := new BlockStream(blocks, length);
      increment := length / 100;
      lastPos := 0;
      cancel := false;
    }

    /** CancelRead: the catalog loop stops before its next block. */
    method CancelRead()
      modifies this`cancel
      ensures cancel
    {
      cancel := true;
    }

    /** The loop state sc, over the blocks bs that were left in the stream
        at position base when the read started: the stream is sc.cursor
        blocks further on, and mLastPos and the progress events since then
        are sc's. */
    ghost predicate At(sc: Scan, bs: seq<Block>, base: nat, before: seq<int>)
      reads this`stream, this`lastPos, this`progress, stream
    {
      && stream != null && stream.Valid() && base <= |stream.blocks| && bs == stream.blocks[base..]
      && stream.cursor == base + sc.cursor && sc.cursor <= |bs|
      && lastPos == sc.lastPos && progress == before + sc.reports
    }

    /** The first half of one pass of the catalog loop (CBackupReader.cs
        lines 60-143): read the next block and add it to the catalog, as
        Dispatch does on the arena. */
    method Advance(node: CatalogNode, lastSet: CatalogNode?, lastVolume: CatalogNode?, lastFolder: CatalogNode?,
                   ghost made: seq<CatalogNode>, ghost sc: Scan, ghost bs: seq<Block>, ghost base: nat, ghost before: seq<int>)
      returns (err: Option<Fault>, set': CatalogNode?, volume': CatalogNode?, folder': CatalogNode?,
               ghost made': seq<CatalogNode>, ghost bd: Builder)
      requires At(sc, bs, base, before) && sc.cursor < |bs| && Tracks(made, sc.bd, node, lastSet, lastVolume, lastFolder)
      modifies stream`cursor, made
      ensures stream.Valid() && stream.cursor == old(stream.cursor) + 1
      ensures err.Some? <==> Dispatch(sc.bd, bs[sc.cursor]).Err?
      ensures err.Some? ==> Dispatch(sc.bd, bs[sc.cursor]) == Err(err.value)
      ensures err.None? ==>
        bd == Dispatch(sc.bd, bs[sc.cursor]).value && Tracks(made', bd, node, set', volume', folder') && GrewFrom(made, made')
    {
      var block := stream.ReadBlock();
      assert block == Ok(bs[sc.cursor]);
      err, set', volume', folder', made' := AddBlock(block.value, node, lastSet, lastVolume, lastFolder, made, sc.bd);
      bd := sc.bd;
      if err.None? {
        bd := Dispatch(sc.bd, block.value).value;
      }
    }

    /** The progress check that ends each pass (CBackupReader.cs lines
        150-154): once the stream has moved past mLastPos by more than
        mIncrement, mLastPos moves to the stream position and a progress
        event carries that position as a percentage of the length. */
    method Report(ghost sc: Scan, ghost bd: Builder, ghost bs: seq<Block>, ghost base: nat, ghost before: seq<int>)
      returns (ghost sc': Scan)
      requires stream != null && stream.Valid() && base <= |stream.blocks| && bs == stream.blocks[base..]
      requires sc.cursor < |bs| && stream.cursor == base + sc.cursor + 1
      requires lastPos == sc.lastPos && progress == before + sc.reports
      modifies this`lastPos, this`progress
      ensures sc' == Advanced(sc, bd, bs[sc.cursor].finish, increment, stream.length) && At(sc', bs, base, before)
    {
      sc' := Advanced(sc, bd, bs[sc.cursor].finish, increment, stream.length);
      if stream.Pos() > lastPos + increment {
        lastPos := stream.Pos();
        progress := progress + [Percent(lastPos, stream.length)];
      }
    }

    /** One pass of the catalog loop (CBackupReader.cs lines 60-154): add
        the next block to the catalog, peek at the type of the one after it,
        and run the progress check. This is Step on the arena. */
    method Pass(node: CatalogNode, lastSet: CatalogNode?, lastVolume: CatalogNode?, lastFolder: CatalogNode?,
                ghost made: seq<CatalogNode>, ghost sc: Scan, ghost bs: seq<Block>, ghost base: nat, ghost before: seq<int>)
      returns (err: Option<Fault>, set': CatalogNode?, volume': CatalogNode?, folder': CatalogNode?, next: nat,
               ghost made': seq<CatalogNode>, ghost sc': Scan)
      requires At(sc, bs, base, before) && sc.cursor < |bs| && Tracks(made, sc.bd, node, lastSet, lastVolume, lastFolder)
      modifies stream`cursor, this`lastPos, this`progress, made
      ensures stream.Valid()
      ensures err.Some? <==> Dispatch(sc.bd, bs[sc.cursor]).Err?
      ensures err.Some? ==> Dispatch(sc.bd, bs[sc.cursor]) == Err(err.value)
      ensures err.None? ==>
        && sc' == Advanced(sc, Dispatch(sc.bd, bs[sc.cursor]).value, bs[sc.cursor].finish, increment, stream.length)
        && At(sc', bs, base, before) && next == PeekType(bs, sc'.cursor)
        && Tracks(made', sc'.bd, node, set', volume', folder') && GrewFrom(made, made')
    {
      next, sc' := 0, sc;
      ghost var bd;
      err, set', volume', folder', made', bd := Advance(node, lastSet, lastVolume, lastFolder, made, sc, bs, base, before);
      if err.Some? {
        return;
      }
      next := stream.PeekNextBlockType();
      sc' := Report(sc, bd, bs, base, before);
    }

    /** A pass of the catalog loop, with the other thread calling
        CancelRead once count + 1 passes are done if cancelAt says so. */
    method Turn(node: CatalogNode, lastSet: CatalogNode?, lastVolume: CatalogNode?, lastFolder: CatalogNode?,
                count: nat, cancelAt: Option<nat>,
                ghost made: seq<CatalogNode>, ghost sc: Scan, ghost bs: seq<Block>, ghost base: nat, ghost before: seq<int>)
      returns (err: Option<Fault>, set': CatalogNode?, volume': CatalogNode?, folder': CatalogNode?, next: nat,
               ghost made': seq<CatalogNode>, ghost sc': Scan)
      requires At(sc, bs, base, before) && sc.cursor < |bs| && Tracks(made, sc.bd, node, lastSet, lastVolume, lastFolder)
      requires count == sc.steps && cancel == Cancelled(cancelAt, count)
      modifies stream`cursor, this`lastPos, this`progress, this`cancel, made
      ensures stream.Valid()
      ensures err.Some? <==> Dispatch(sc.bd, bs[sc.cursor]).Err?
      ensures err.Some? ==> Dispatch(sc.bd, bs[sc.cursor]) == Err(err.value)
      ensures err.None? ==>
        && sc' == Advanced(sc, Dispatch(sc.bd, bs[sc.cursor]).value, bs[sc.cursor].finish, increment, stream.length)
        && At(sc', bs, base, before) && next == PeekType(bs, sc'.cursor)
        && Tracks(made', sc'.bd, node, set', volume', folder') && GrewFrom(made, made')
        && cancel == Cancelled(cancelAt, count + 1)
    {
      err, set', volume', folder', next, made', sc' := Pass(node, lastSet, lastVolume, lastFolder, made, sc, bs, base, before);
      if err.None? && cancelAt == Some(count + 1) {
        CancelRead();
      }
    }

    /** The catalog loop (CBackupReader.cs lines 58-155) from loop state sc,
        with blockType the type of the next block and steps the number of
        passes done so far: it ends as RunFrom does, with the same fault, or
        in RunFrom's final state, and the cancel flag is set exactly when
        CancelRead has been called by then. */
    method CatalogLoop(node: CatalogNode, lastSet: CatalogNode?, lastVolume: CatalogNode?, lastFolder: CatalogNode?,
                       blockType: nat, steps: nat, cancelAt: Option<nat>,
                       ghost made: seq<CatalogNode>, ghost sc: Scan, ghost bs: seq<Block>, ghost base: nat, ghost before: seq<int>)
      returns (err: Option<Fault>, ghost made': seq<CatalogNode>, ghost sc': Scan)
      requires At(sc, bs, base, before) && Tracks(made, sc.bd, node, lastSet, lastVolume, lastFolder)
      requires steps == sc.steps && cancel == Cancelled(cancelAt, steps) && blockType == PeekType(bs, sc.cursor)
      modifies stream`cursor, this`lastPos, this`progress, this`cancel, made
      ensures stream.Valid()
      ensures err.Some? <==> RunFrom(sc, bs, cancelAt, increment, stream.length).Err?
      ensures err.Some? ==> RunFrom(sc, bs, cancelAt, increment, stream.length) == Err(err.value)
      ensures err.None? ==>
        && sc' == RunFrom(sc, bs, cancelAt, increment, stream.length).value && At(sc', bs, base, before)
        && Represents(made', sc'.bd.nodes) && made'[0] == node && GrewFrom(made, made')
        && cancel == Cancelled(cancelAt, sc'.steps)
    {
      var curSet, curVolume, curFolder, next, count := lastSet, lastVolume, lastFolder, blockType, steps;
      made', sc' := made, sc;
      while next != MTF_EOTM && next != 0 && !cancel
        invariant At(sc', bs, base, before) && Tracks(made', sc'.bd, node, curSet, curVolume, curFolder)
        invariant RunFrom(sc', bs, cancelAt, increment, stream.length) == RunFrom(sc, bs, cancelAt, increment, stream.length)
        invariant count == sc'.steps && cancel == Cancelled(cancelAt, count) && next == PeekType(bs, sc'.cursor)
        invariant made <= made' && forall j :: |made| <= j < |made'| ==> fresh(made'[j])
        decreases |bs| - sc'.cursor
      {
        assert Continues(bs, sc', cancelAt);
        var e, s', v', f';
        ghost var m, sc'';
        e, s', v', f', next, m, sc'' := Turn(node, curSet, curVolume, curFolder, count, cancelAt, made', sc', bs, base, before);
        if e.Some? {
          return e, made', sc';
        }
        forall j | |made| <= j < |m|
          ensures fresh(m[j])
        {
          if j < |made'| {
            assert m[j] == made'[j];
          }
        }
        made', sc', curSet, curVolume, curFolder, count := m, sc'', s', v', f', count + 1;
      }
      err := None;
    }

    /** The start of ReadCatalog (CBackupReader.cs lines 43-47): the media
        header and the soft filemark, each cast to its block class. It fails
        as CatalogBuilder.ReadCatalog does before the loop. */
    method Header(ghost bs: seq<Block>, ghost cancelAt: Option<nat>) returns (tape: Result<Block>)
      requires stream != null && stream.Valid() && bs == stream.blocks[stream.cursor..]
      modifies stream`cursor
      ensures stream.Valid()
      ensures tape.Err? ==> CatalogBuilder.ReadCatalog(bs, lastPos, increment, stream.length, cancelAt) == Err(tape.fault)
      ensures tape.Ok? ==>
        && 2 <= |bs| && tape.value == bs[0] && bs[0].blockType == MTF_TAPE && bs[1].blockType == MTF_SFMB
        && stream.cursor == old(stream.cursor) + 2
    {
      tape := stream.ReadBlock();
      if tape.Err? {
        return;
      }
      if tape.value.blockType != MTF_TAPE {
        return Err(InvalidCast);
      }
      var filemark := stream.ReadBlock();
      if filemark.Err? {
        return Err(filemark.fault);
      }
      if filemark.value.blockType != MTF_SFMB {
        return Err(InvalidCast);
      }
    }

    /** The root node (CBackupReader.cs line 50): a Root node named after
        the media, which stands for the arena the catalog starts from. */
    static method Root(tape: Block) returns (node: CatalogNode)
      ensures fresh(node) && Tracks([node], Start(tape), node, null, null, null)
    {
      node := new CatalogNode.Of(tape, tape.name, ROOT);
    }

    /** ReadCatalog, with CancelRead called from another thread once the
        loop has done cancelAt iterations (never, for None). The nodes read
        are the ones CatalogBuilder.ReadCatalog builds from the blocks left
        in the stream; the stream ends up past the blocks the loop read, and
        mLastPos, the progress events and the cancel flag are the ones that
        run ends with. Without an open stream nothing can be read. */
    method ReadCatalog(cancelAt: Option<nat>) returns (r: Result<CatalogNode>, ghost made: seq<CatalogNode>)
      requires Valid()
      modifies this`cancel, this`lastPos, this`progress, stream
      ensures Valid()
      ensures stream == null ==> r == Err(NullReference)
      ensures stream != null ==>
        var spec := CatalogBuilder.ReadCatalog(old(stream.blocks[stream.cursor..]), old(lastPos), increment, stream.length, cancelAt);
        && (r.Ok? <==> spec.Ok?)
        && (r.Err? ==> spec == Err(r.fault))
        && (r.Ok? ==>
             && Represents(made, spec.value.bd.nodes) && r.value == made[0]
             && AllFresh(made)
             && stream.cursor == old(stream.cursor) + spec.value.cursor
             && lastPos == spec.value.lastPos && progress == old(progress) + spec.value.reports
             && cancel == Cancelled(cancelAt, spec.value.steps))
    {
      made := [];
      cancel := false;
      if stream == null {
        return Err(NullReference), made;
      }
      ghost var base := stream.cursor;
      ghost var bs := stream.blocks[base..];
      var tape := Header(bs, cancelAt);
      if tape.Err? {
        return Err(tape.fault), made;
      }
      r, made := BuildCatalog(tape.value, cancelAt, bs, base);
    }

    /** ReadCatalog after the two header blocks (CBackupReader.cs lines
        50-157): the root node, then the catalog loop from the third block
        on, which builds what RunFrom builds from the starting catalog. */
    method BuildCatalog(tape: Block, cancelAt: Option<nat>, ghost bs: seq<Block>, ghost base: nat)
      returns (r: Result<CatalogNode>, ghost made: seq<CatalogNode>)
      requires At(Scan(Start(tape), 2, 0, lastPos, []), bs, base, progress) && !cancel
      modifies this`cancel, this`lastPos, this`progress, stream
      ensures stream.Valid()
      ensures var spec := RunFrom(Scan(Start(tape), 2, 0, old(lastPos), []), bs, cancelAt, increment, stream.length);
        && (r.Ok? <==> spec.Ok?)
        && (r.Err? ==> spec == Err(r.fault))
        && (r.Ok? ==>
             && Represents(made, spec.value.bd.nodes) && r.value == made[0]
             && AllFresh(made)
             && stream.cursor == base + spec.value.cursor
             && lastPos == spec.value.lastPos && progress == old(progress) + spec.value.reports
             && cancel == Cancelled(cancelAt, spec.value.steps))
    {
      var node := Root(tape);
      var lastSet: CatalogNode?, lastVolume: CatalogNode?, lastFolder: CatalogNode? := null, null, null;
      made := [node];
      ghost var start := Scan(Start(tape), 2, 0, lastPos, []);
      if cancelAt == Some(0) {
        CancelRead();
      }
      var blockType := stream.PeekNextBlockType();
      var err;
      ghost var m, sc;
      err, m, sc := CatalogLoop(node, lastSet, lastVolume, lastFolder, blockType, 0, cancelAt, made, start, bs, base, old(progress));
      if err.Some? {
        return Err(err.value), made;
      }
      assert AllFresh(m) by {
        assert m[0] == node;
      }
      made := m;
      r := Ok(node);
    }
  }
}
