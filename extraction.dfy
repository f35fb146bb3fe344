/** CCatalogNode.ExtractTo as a function from a catalog tree to the
    file-system effects it performs, in order. The block a File node points
    to is looked up by its offset, as the seek and ReadDBLK on the backup
    stream do; an exception ends the whole walk, since no level catches it. */
module Extraction {
  import opened Wrappers
  import opened NetBinary
  import opened Mtf
  import opened CatalogTree

  datatype Effect =
    | CreateDirectory(path: string)
    | CreateFile(path: string)
    | Write(path: string, data: seq<byte>)

  /** The effects performed, in order, and the exception that ended the walk, if any. */
  datatype Outcome = Outcome(log: seq<Effect>, fault: Option<Fault>)

  /** Reading the descriptor block at a stream offset. */
  type BlockAt = Int64 -> Result<Block>

  /** The trailing '\' rule. Looking at the last character of an empty path
      is an index out of range. */
  function Normalize(target: string): (r: Result<string>)
    ensures r.Ok? <==> target != []
    ensures r.Ok? ==> target <= r.value && r.value[|r.value| - 1] == '\\'
    ensures r.Ok? ==> (r.value == target <==> target[|target| - 1] == '\\')
    ensures r.Ok? ==> |r.value| <= |target| + 1
  {
    if target == [] then Err(IndexOutOfRange)
    else if target[|target| - 1] != '\\' then Ok(target + "\\")
    else Ok(target)
  }

  /** Normalizing a normalized path changes nothing. */
  lemma NormalizeIdempotent(target: string)
    requires target != []
    ensures Normalize(Normalize(target).value) == Normalize(target)
  {
  }

  /** Prepends effects to an outcome. */
  function Then(first: seq<Effect>, o: Outcome): (r: Outcome)
    ensures r.fault == o.fault && r.log == first + o.log
  {
    Outcome(first + o.log, o.fault)
  }

  /** ExtractTo on one node. The target is normalized first; Root and Set
      nodes then fail before any effect. A Volume creates the target and
      extracts its children into it; a Folder creates target + name and
      extracts its children into that; a File creates the target, creates
      target + name and writes its streams; a node of any other kind does
      nothing. */
  function ExtractTo(t: Tree, target: string, blockAt: BlockAt): (o: Outcome)
    ensures target == [] ==> o == Outcome([], Some(IndexOutOfRange))
    ensures target != [] && (t.kind == ROOT || t.kind == SET) ==> o == Outcome([], Some(NotExtractable))
    ensures target != [] && (t.kind == VOLUME || t.kind == FILE) ==>
      o.log != [] && o.log[0] == CreateDirectory(Normalize(target).value)
    ensures target != [] && t.kind == FOLDER ==>
      o.log != [] && o.log[0] == CreateDirectory(Normalize(target).value + t.name)
    ensures t.kind > FILE || t.kind < ROOT ==> o.log == []
    decreases t, 1
  {
    match Normalize(target)
    case Err(f) => Outcome([], Some(f))
    case Ok(np) =>
      if t.kind == ROOT || t.kind == SET then Outcome([], Some(NotExtractable))
      else if t.kind == VOLUME then Then([CreateDirectory(np)], ExtractAll(t.children, np, blockAt))
      else if t.kind == FOLDER then
        Then([CreateDirectory(np + t.name)], ExtractAll(t.children, np + t.name, blockAt))
      else if t.kind == FILE then ExtractFile(np, t, blockAt)
      else Outcome([], None)
  }

  /** The children in order, stopping at the first that throws. */
  function ExtractAll(ts: seq<Tree>, target: string, blockAt: BlockAt): (o: Outcome)
    ensures ts == [] ==> o == Outcome([], None)
    ensures ts != [] ==> ExtractTo(ts[0], target, blockAt).log <= o.log
    ensures ts != [] && ExtractTo(ts[0], target, blockAt).fault.Some? ==> o == ExtractTo(ts[0], target, blockAt)
    decreases ts, 0
  {
    if ts == [] then Outcome([], None)
    else
      var first := ExtractTo(ts[0], target, blockAt);
      if first.fault.Some? then first
      else Then(first.log, ExtractAll(ts[1..], target, blockAt))
  }

  /** A File node: the directory and the output file are created before the
      block is read, so an unreadable block or one that is not a FILE block
      (the cast to a file descriptor block) leaves an empty file behind. */
  function ExtractFile(np: string, t: Tree, blockAt: BlockAt): (o: Outcome)
    ensures |o.log| >= 2 && o.log[..2] == [CreateDirectory(np), CreateFile(np + t.name)]
    ensures o.fault.None? <==> blockAt(t.offset).Ok? && blockAt(t.offset).value.blockType == MTF_FILE
  {
    var path := np + t.name;
    var made := [CreateDirectory(np), CreateFile(path)];
    match blockAt(t.offset)
    case Err(f) => Outcome(made, Some(f))
    case Ok(b) =>
      if b.blockType != MTF_FILE then Outcome(made, Some(InvalidCast))
      else Outcome(made + Writes(path, b.streams), None)
  }

  /** One write to path per STAN stream, in stream order; other streams are skipped. */
  function Writes(path: string, streams: seq<DataStream>): (log: seq<Effect>)
    ensures forall e | e in log :: e.Write? && e.path == path
  {
    if streams == [] then []
    else (if streams[0].id == "STAN" then [Write(path, streams[0].data)] else []) + Writes(path, streams[1..])
  }

  /** The concatenated data of a stream list's STAN streams. */
  function StanData(streams: seq<DataStream>): (data: seq<byte>)
    ensures (forall d | d in streams :: d.id != "STAN") ==> data == []
    ensures |streams| == 1 && streams[0].id == "STAN" ==> data == streams[0].data
  {
    if streams == [] then [] else (if streams[0].id == "STAN" then streams[0].data else []) + StanData(streams[1..])
  }

  /** The bytes a log writes to path, in order. new FileStream with
      FileMode.Create truncates a file that exists, so these are the file's
      contents only for a log that creates the file once, before its writes,
      as the log of one File node does (ExtractedFileContents). */
  function Written(log: seq<Effect>, path: string): (data: seq<byte>)
    ensures (forall e | e in log :: !(e.Write? && e.path == path)) ==> data == []
    ensures |log| == 1 && log[0].Write? && log[0].path == path ==> data == log[0].data
  {
    if log == [] then [] else (if log[0].Write? && log[0].path == path then log[0].data else []) + Written(log[1..], path)
  }

  lemma {:induction false} WrittenAppend(a: seq<Effect>, b: seq<Effect>, path: string)
    ensures Written(a + b, path) == Written(a, path) + Written(b, path)
  {
    if a == [] {
      assert a + b == b;
    } else {
      var ab := a + b;
      var head := if a[0].Write? && a[0].path == path then a[0].data else [];
      assert ab[0] == a[0];
      assert ab[1..] == a[1..] + b;
      WrittenAppend(a[1..], b, path);
      calc {
        Written(ab, path);
        head + Written(a[1..] + b, path);
        head + (Written(a[1..], path) + Written(b, path));
        (head + Written(a[1..], path)) + Written(b, path);
      }
    }
  }

  lemma {:induction false} WrittenWrites(path: string, streams: seq<DataStream>)
    ensures Written(Writes(path, streams), path) == StanData(streams)
  {
    if streams != [] {
      var head := if streams[0].id == "STAN" then [Write(path, streams[0].data)] else [];
      WrittenAppend(head, Writes(path, streams[1..]), path);
      WrittenWrites(path, streams[1..]);
      if head != [] {
        assert head[1..] == [];
      }
    }
  }

  /** Extracting a File node whose block is a FILE block succeeds and leaves
      in target + name exactly the STAN streams' data, in order. */
  lemma ExtractedFileContents(t: Tree, target: string, blockAt: BlockAt)
    requires target != [] && t.kind == FILE
    requires blockAt(t.offset).Ok? && blockAt(t.offset).value.blockType == MTF_FILE
    ensures ExtractTo(t, target, blockAt).fault.None?
    ensures Written(ExtractTo(t, target, blockAt).log, Normalize(target).value + t.name)
         == StanData(blockAt(t.offset).value.streams)
  {
    var np := Normalize(target).value;
    var path := np + t.name;
    var made := [CreateDirectory(np), CreateFile(path)];
    var b := blockAt(t.offset).value;
    assert ExtractTo(t, target, blockAt).log == made + Writes(path, b.streams);
    WrittenAppend(made, Writes(path, b.streams), path);
    assert made[1..][1..] == [];
    WrittenWrites(path, b.streams);
  }

  /** The nodes an extraction reaches, and succeeds on: no Root or Set node,
      every File node's block a readable FILE block. Volumes and Folders pass
      on to their children; the children of other nodes are never visited. */
  ghost predicate Extractable(t: Tree, blockAt: BlockAt)
    decreases t, 1
  {
    && t.kind != ROOT && t.kind != SET
    && (t.kind == FILE ==> blockAt(t.offset).Ok? && blockAt(t.offset).value.blockType == MTF_FILE)
    && (t.kind == VOLUME || t.kind == FOLDER ==> AllExtractable(t.children, blockAt))
  }

  ghost predicate AllExtractable(ts: seq<Tree>, blockAt: BlockAt)
    decreases ts, 0
  {
    forall i :: 0 <= i < |ts| ==> Extractable(ts[i], blockAt)
  }

  /** An extraction throws nothing exactly when the target is not empty and
      every node it reaches is extractable. */
  lemma {:induction false} ExtractSucceeds(t: Tree, target: string, blockAt: BlockAt)
    ensures ExtractTo(t, target, blockAt).fault.None? <==> target != [] && Extractable(t, blockAt)
    decreases t, 1
  {
    if target != [] {
      var np := Normalize(target).value;
      if t.kind == VOLUME {
        ExtractAllSucceeds(t.children, np, blockAt);
      } else if t.kind == FOLDER {
        ExtractAllSucceeds(t.children, np + t.name, blockAt);
      }
    }
  }

  lemma {:induction false} ExtractAllSucceeds(ts: seq<Tree>, target: string, blockAt: BlockAt)
    requires target != []
    ensures ExtractAll(ts, target, blockAt).fault.None? <==> AllExtractable(ts, blockAt)
    decreases ts, 0
  {
    if ts != [] {
      ExtractSucceeds(ts[0], target, blockAt);
      ExtractAllSucceeds(ts[1..], target, blockAt);
      assert forall i :: 1 <= i < |ts| ==> ts[1..][i - 1] == ts[i];
      if AllExtractable(ts[1..], blockAt) && Extractable(ts[0], blockAt) {
        forall i | 0 <= i < |ts|
          ensures Extractable(ts[i], blockAt)
        {
          if i > 0 {
            assert ts[i] == ts[1..][i - 1];
          }
        }
      }
    }
  }

  /** Every effect of an extraction is on a path that starts with the
      normalized target, and the path of everything below a Folder starts with
      target + name. These are string prefixes, not directory containment. */
  lemma {:induction false} ExtractUnder(t: Tree, target: string, blockAt: BlockAt)
    requires target != []
    ensures forall e | e in ExtractTo(t, target, blockAt).log :: Normalize(target).value <= e.path
    ensures t.kind == FOLDER ==>
      forall e | e in ExtractTo(t, target, blockAt).log :: Normalize(target).value + t.name <= e.path
    decreases t, 1
  {
    var np := Normalize(target).value;
    var o := ExtractTo(t, target, blockAt);
    if t.kind == VOLUME {
      ExtractAllUnder(t.children, np, blockAt);
    } else if t.kind == FOLDER {
      var dir := np + t.name;
      ExtractAllUnder(t.children, dir, blockAt);
      forall e | e in o.log
        ensures dir <= e.path && np <= e.path
      {
        assert dir <= e.path;
        assert e.path[..|np|] == dir[..|np|];
      }
    } else if t.kind == FILE {
      var b := blockAt(t.offset);
      if b.Ok? && b.value.blockType == MTF_FILE {
        assert o.log == [CreateDirectory(np), CreateFile(np + t.name)] + Writes(np + t.name, b.value.streams);
      }
    }
  }

  lemma {:induction false} ExtractAllUnder(ts: seq<Tree>, target: string, blockAt: BlockAt)
    requires target != []
    ensures forall e | e in ExtractAll(ts, target, blockAt).log :: target <= e.path
    decreases ts, 0
  {
    if ts != [] {
      var np := Normalize(target).value;
      ExtractUnder(ts[0], target, blockAt);
      ExtractAllUnder(ts[1..], target, blockAt);
      forall e | e in ExtractTo(ts[0], target, blockAt).log
        ensures target <= e.path
      {
        assert np <= e.path;
        assert e.path[..|target|] == np[..|target|];
      }
    }
  }

  // ---------------------------------------------------------------------
  // Where each child is extracted.

  /** The outcome of extracting each of ts into target on its own. */
  function Outcomes(ts: seq<Tree>, target: string, blockAt: BlockAt): (os: seq<Outcome>) {
    seq(|ts|, j requires 0 <= j < |ts| => ExtractTo(ts[j], target, blockAt))
  }

  /** The foreach over a list of outcomes: each one's effects in turn,
      stopping at the first that throws. */
  function Fold(os: seq<Outcome>): (o: Outcome) {
    if os == [] then Outcome([], None)
    else if os[0].fault.Some? then os[0]
    else Then(os[0].log, Fold(os[1..]))
  }

  /** The effects of a list of outcomes, one after the other. */
  function Joined(os: seq<Outcome>): (log: seq<Effect>) {
    if os == [] then [] else os[0].log + Joined(os[1..])
  }

  /** The effects of extracting each of ts into target, one after the other. */
  function Logs(ts: seq<Tree>, target: string, blockAt: BlockAt): (log: seq<Effect>) {
    Joined(Outcomes(ts, target, blockAt))
  }

  /** The foreach over the children is the fold of their outcomes. */
  lemma {:induction false} ExtractAllFold(ts: seq<Tree>, target: string, blockAt: BlockAt)
    ensures ExtractAll(ts, target, blockAt) == Fold(Outcomes(ts, target, blockAt))
    decreases ts
  {
    if ts != [] {
      assert Outcomes(ts, target, blockAt)[1..] == Outcomes(ts[1..], target, blockAt);
      ExtractAllFold(ts[1..], target, blockAt);
    }
  }

  lemma PrefixAfter(a: seq<Effect>, p: seq<Effect>, q: seq<Effect>)
    requires p <= q
    ensures a + p <= a + q
  {
    assert (a + q)[..|a + p|] == a + q[..|p|];
  }

  /** While the outcomes before i threw nothing, outcome i's effects follow
      theirs in the fold; when i is the first to throw, the fold ends with
      its fault, right after its effects. */
  lemma {:induction false} FoldEach(os: seq<Outcome>, i: nat)
    requires i < |os| && forall j :: 0 <= j < i ==> os[j].fault.None?
    ensures Joined(os[..i]) + os[i].log <= Fold(os).log
    ensures os[i].fault.Some? ==> Fold(os) == Outcome(Joined(os[..i + 1]), os[i].fault)
  {
    assert os[..i + 1][0] == os[0] && os[..i + 1][1..] == os[1..][..i];
    if i == 0 {
      assert os[1..][..0] == [];
    } else {
      assert os[0].fault.None?;
      assert os[..i][0] == os[0] && os[..i][1..] == os[1..][..i - 1];
      FoldEach(os[1..], i - 1);
      var before := Joined(os[1..][..i - 1]);
      PrefixAfter(os[0].log, before + os[i].log, Fold(os[1..]).log);
      assert os[0].log + before + os[i].log == os[0].log + (before + os[i].log);
    }
  }

  /** A fold in which nothing throws does every outcome's effects. */
  lemma {:induction false} FoldAll(os: seq<Outcome>)
    requires forall j :: 0 <= j < |os| ==> os[j].fault.None?
    ensures Fold(os) == Outcome(Joined(os), None)
  {
    if os != [] {
      assert os[0].fault.None?;
      FoldAll(os[1..]);
    }
  }

  /** The foreach over the children: while the children before child i
      threw nothing, child i is extracted into the same target, and its
      effects follow theirs; when child i is the first to throw, the walk
      ends with its fault, right after its effects. */
  lemma ExtractAllEach(ts: seq<Tree>, target: string, blockAt: BlockAt, i: nat)
    requires i < |ts| && forall j :: 0 <= j < i ==> ExtractTo(ts[j], target, blockAt).fault.None?
    ensures Logs(ts[..i], target, blockAt) + ExtractTo(ts[i], target, blockAt).log <= ExtractAll(ts, target, blockAt).log
    ensures ExtractTo(ts[i], target, blockAt).fault.Some? ==>
      ExtractAll(ts, target, blockAt) == Outcome(Logs(ts[..i + 1], target, blockAt), ExtractTo(ts[i], target, blockAt).fault)
  {
    var os := Outcomes(ts, target, blockAt);
    assert Outcomes(ts[..i], target, blockAt) == os[..i];
    assert Outcomes(ts[..i + 1], target, blockAt) == os[..i + 1];
    ExtractAllFold(ts, target, blockAt);
    FoldEach(os, i);
  }

  /** When no child throws, the foreach does exactly the children's
      effects, in order, all into the same target. */
  lemma ExtractAllLogs(ts: seq<Tree>, target: string, blockAt: BlockAt)
    requires forall j :: 0 <= j < |ts| ==> ExtractTo(ts[j], target, blockAt).fault.None?
    ensures ExtractAll(ts, target, blockAt) == Outcome(Logs(ts, target, blockAt), None)
  {
    ExtractAllFold(ts, target, blockAt);
    FoldAll(Outcomes(ts, target, blockAt));
  }

  /** The directory a Volume or a Folder extracts its children into: the
      normalized target for a Volume, and that followed by the folder's
      name for a Folder. */
  function ChildTarget(t: Tree, np: string): (d: string)
    ensures np <= d
    ensures t.kind == VOLUME ==> d == np
  {
    if t.kind == FOLDER then np + t.name else np
  }

  /** A Volume or a Folder creates its directory and then extracts each
      child into it, in order: child i's effects follow the directory and
      the effects of the children before it, and when no child throws the
      extraction is exactly those effects. */
  /** A Volume or a Folder: its directory, then the foreach over its
      children into that directory. */
  lemma ExtractToDirectory(t: Tree, target: string, blockAt: BlockAt)
    requires target != [] && (t.kind == VOLUME || t.kind == FOLDER)
    ensures var d := ChildTarget(t, Normalize(target).value);
      ExtractTo(t, target, blockAt) == Then([CreateDirectory(d)], ExtractAll(t.children, d, blockAt))
  {
  }

  lemma ExtractChildren(t: Tree, target: string, blockAt: BlockAt, i: nat)
    requires target != [] && (t.kind == VOLUME || t.kind == FOLDER)
    requires i < |t.children|
    requires forall j :: 0 <= j < i ==> ExtractTo(t.children[j], ChildTarget(t, Normalize(target).value), blockAt).fault.None?
    ensures var d := ChildTarget(t, Normalize(target).value);
      [CreateDirectory(d)] + Logs(t.children[..i], d, blockAt) + ExtractTo(t.children[i], d, blockAt).log
        <= ExtractTo(t, target, blockAt).log
    ensures var d := ChildTarget(t, Normalize(target).value); var x := ExtractTo(t.children[i], d, blockAt);
      x.fault.Some? ==> ExtractTo(t, target, blockAt) == Outcome([CreateDirectory(d)] + Logs(t.children[..i + 1], d, blockAt), x.fault)
  {
    var d := ChildTarget(t, Normalize(target).value);
    var before := Logs(t.children[..i], d, blockAt);
    var x := ExtractTo(t.children[i], d, blockAt);
    var all := ExtractAll(t.children, d, blockAt);
    assert ExtractTo(t, target, blockAt) == Then([CreateDirectory(d)], all) by {
      ExtractToDirectory(t, target, blockAt);
    }
    assert before + x.log <= all.log && (x.fault.Some? ==> all == Outcome(Logs(t.children[..i + 1], d, blockAt), x.fault)) by {
      ExtractAllEach(t.children, d, blockAt, i);
    }
    PrefixAfter([CreateDirectory(d)], before + x.log, all.log);
    assert [CreateDirectory(d)] + before + x.log == [CreateDirectory(d)] + (before + x.log);
  }

  lemma ExtractChildrenLogs(t: Tree, target: string, blockAt: BlockAt)
    requires target != [] && (t.kind == VOLUME || t.kind == FOLDER)
    requires forall j :: 0 <= j < |t.children| ==> ExtractTo(t.children[j], ChildTarget(t, Normalize(target).value), blockAt).fault.None?
    ensures var d := ChildTarget(t, Normalize(target).value);
      ExtractTo(t, target, blockAt) == Outcome([CreateDirectory(d)] + Logs(t.children, d, blockAt), None)
  {
    var d := ChildTarget(t, Normalize(target).value);
    ExtractAllLogs(t.children, d, blockAt);
    ExtractToDirectory(t, target, blockAt);
  }
}
