/** CCatalogNode: a node of the catalog tree as a heap object, the
    BinaryWriter and BinaryReader it saves itself to and reads itself from,
    and the catalog file operations. */
module Catalog {
  import opened Wrappers
  import opened NetBinary
  import opened Mtf
  import opened CatalogTree
  import Utf8

  class CatalogNode {
    var name: string
    var kind: Int32
    var offset: Int64
    var parent: CatalogNode?
    var children: seq<CatalogNode>
    var block: Option<Block>

    /** CCatalogNode(): an empty root with no descriptor block. */
    constructor ()
      ensures name == "" && kind == ROOT && offset == 0
      ensures parent == null && children == [] && block == None
    {
      block := None;
      name := "";
      kind := ROOT;
      offset := 0;
      parent := null;
      children := [];
    }

    /** CCatalogNode(descriptorBlock, nName, nType): the offset is where the
        block starts in the backup stream. */
    constructor Of(b: Block, nName: string, nType: Int32)
      ensures name == nName && kind == nType && offset == b.start
      ensures parent == null && children == [] && block == Some(b)
    {
      block := Some(b);
      name := nName;
      kind := nType;
      offset := b.start;
      parent := null;
      children := [];
    }

    method AddSet(b: Block) returns (c: CatalogNode)
      modifies this`children
      ensures fresh(c) && c.name == SetName(b.setNumber, b.name) && c.kind == SET && c.offset == b.start
      ensures c.parent == this && c.children == [] && c.block == Some(b)
      ensures children == old(children) + [c]
    {
      var nm := SetName(b.setNumber, b.name);
      c := new CatalogNode.Of(b, nm, SET);
      c.parent := this;
      children := children + [c];
    }

    /** A volume is named after the device. */
    method AddVolume(b: Block) returns (c: CatalogNode)
      modifies this`children
      ensures fresh(c) && c.name == b.name && c.kind == VOLUME && c.offset == b.start
      ensures c.parent == this && c.children == [] && c.block == Some(b)
      ensures children == old(children) + [c]
    {
      c := new CatalogNode.Of(b, b.name, VOLUME);
      c.parent := this;
      children := children + [c];
    }

    method AddFolder(b: Block, nName: string) returns (c: CatalogNode)
      modifies this`children
      ensures fresh(c) && c.name == nName && c.kind == FOLDER && c.offset == b.start
      ensures c.parent == this && c.children == [] && c.block == Some(b)
      ensures children == old(children) + [c]
    {
      c := new CatalogNode.Of(b, nName, FOLDER);
      c.parent := this;
      children := children + [c];
    }

    method AddFile(b: Block, nName: string) returns (c: CatalogNode)
      modifies this`children
      ensures fresh(c) && c.name == nName && c.kind == FILE && c.offset == b.start
      ensures c.parent == this && c.children == [] && c.block == Some(b)
      ensures children == old(children) + [c]
    {
      c := new CatalogNode.Of(b, nName, FILE);
      c.parent := this;
      children := children + [c];
    }

    /** SaveNode: the header of this node, then each child's record in list
        order. The record layout is stated over a header writer hw that
        writes headers as HeaderBytes does. */
    method SaveNode(w: Writer, ghost t: Tree, ghost fp: set<CatalogNode>, ghost hw: HeaderWriter)
      requires Holds(this, t, fp) && Writable(t) && WritesHeaders(hw)
      modifies w
      ensures w.bytes == old(w.bytes) + NodeBytes(hw, t)
      decreases t
    {
      WriteHeader(w, Header(kind, name, offset, |children| as Int32), hw);
      assert HeaderOf(t) == Header(kind, name, offset, |children| as Int32);
      var i := 0;
      while i < |children|
        invariant 0 <= i <= |children|
        invariant unchanged(fp)
        invariant w.bytes + ChildrenBytes(hw, t, i) == old(w.bytes) + NodeBytes(hw, t)
      {
        ghost var before := w.bytes;
        children[i].SaveNode(w, t.children[i], fp, hw);
        SavedChild(hw, t, i, before, w.bytes, old(w.bytes) + NodeBytes(hw, t));
        i := i + 1;
      }
    }

    /** The four writes at the start of SaveNode: the kind, the name, the
        offset and the child count, which is writing a header as hw does. */
    static method WriteHeader(w: Writer, h: Header, ghost hw: HeaderWriter)
      requires WritesHeaders(hw)
      modifies w
      ensures w.bytes == old(w.bytes) + hw(h)
    {
      assert hw(h) == HeaderBytes(h);
      w.WriteInt32(h.kind);
      w.WriteString(h.name);
      w.WriteInt64(h.offset);
      w.WriteInt32(h.count);
    }

    /** ReadNode: reads this node's header into its fields, then its
        children, which are appended to the ones it already has. Parent
        links and descriptor blocks are not read back. On failure the fault
        is the one the record decoder reports; what the failed read left
        behind is not specified. The record layout is stated over a header
        reader hd that reads headers as DecodeHeader does. */
    method ReadNode(r: Reader, ghost hd: HeaderReader)
      returns (err: Option<Fault>, ghost t: Tree, ghost made: seq<CatalogNode>, ghost fp: set<CatalogNode>)
      requires ReadsHeaders(hd)
      modifies this, r
      ensures NodeFrom(hd, old(r.rest)) == if err.None? then Ok(Read(t, r.rest)) else Err(err.value)
      ensures err.None? ==> kind == t.kind && name == t.name && offset == t.offset
      ensures err.None? ==> parent == old(parent) && block == old(block)
      ensures err.None? ==> children == old(children) + made && HoldsAll(made, t.children, fp)
      ensures err.None? && old(children) == [] ==> Holds(this, t, fp)
      ensures err.None? ==> Detached(fp - {this})
      ensures this in fp && fresh(fp - {this})
      decreases |r.rest|, 0
    {
      t, made, fp := Tree(ROOT, "", 0, []), [], {this};
      var h := ReadHeader(r, hd);
      if h.Err? {
        return Some(h.fault), t, made, fp;
      }
      kind, name, offset := h.value.kind, h.value.name, h.value.offset;
      ghost var kids, below;
      err, kids, made, below := ReadChildren(r, h.value.count, hd);
      t := Tree(h.value.kind, h.value.name, h.value.offset, kids);
      fp := below + {this};
      if err.None? {
        HoldsAllMono(made, kids, below, fp);
      }
    }

    /** The four reads at the start of ReadNode: the kind, the name, the
        offset and the child count, which is reading a header as hd does. */
    static method ReadHeader(r: Reader, ghost hd: HeaderReader) returns (h: Result<Header>)
      requires ReadsHeaders(hd)
      modifies r
      ensures hd(old(r.rest)) == if h.Ok? then Ok(Read(h.value, r.rest)) else Err(h.fault)
    {
      assert hd(r.rest) == DecodeHeader(r.rest);
      var k := r.ReadInt32();
      if k.Err? { return Err(k.fault); }
      var nm := r.ReadString();
      if nm.Err? { return Err(nm.fault); }
      var off := r.ReadInt64();
      if off.Err? { return Err(off.fault); }
      var count := r.ReadInt32();
      if count.Err? { return Err(count.fault); }
      h := Ok(Header(k.value, nm.value, off.value, count.value));
    }

    /** The loop of ReadNode: for each stored child, a new empty node is
        appended to the children and the child is read into it. */
    method ReadChildren(r: Reader, count: Int32, ghost hd: HeaderReader)
      returns (err: Option<Fault>, ghost kids: seq<Tree>, ghost made: seq<CatalogNode>, ghost fp: set<CatalogNode>)
      requires ReadsHeaders(hd)
      modifies this`children, r
      ensures ChildrenFrom(hd, old(r.rest), Count(count)) == if err.None? then Ok(Read(kids, r.rest)) else Err(err.value)
      ensures err.None? ==> children == old(children) + made && HoldsAll(made, kids, fp)
      ensures err.None? ==> Detached(fp)
      ensures this !in fp && fresh(fp)
      decreases |r.rest|, 2
    {
      ghost var data := r.rest;
      kids, made, fp := [], [], {};
      var i := 0;
      while i < count
        invariant 0 <= i <= Count(count)
        invariant |r.rest| <= |data|
        invariant children == old(children) + made
        invariant ChildrenFrom(hd, data, i) == Ok(Read(kids, r.rest))
        invariant HoldsAll(made, kids, fp)
        invariant this !in fp && fresh(fp)
        invariant Detached(fp)
      {
        ghost var mid := r.rest;
        var e, node, tc, fc := ReadChild(r, hd);
        if e.Some? {
          ChildrenFail(hd, data, i, kids, mid, Count(count));
          return e, kids, made, fp;
        }
        ChildrenSnoc(hd, data, i, kids, mid, tc, r.rest);
        HoldsAllSnoc(made, kids, fp, node, tc, fc);
        DetachedAdd(fp, fc);
        kids, made, fp := kids + [tc], made + [node], fp + fc;
        i := i + 1;
      }
      err := None;
    }

    /** One pass of ReadNode's loop: a new empty node is appended to the
        children and the next record is read into it. */
    method ReadChild(r: Reader, ghost hd: HeaderReader)
      returns (err: Option<Fault>, node: CatalogNode, ghost t: Tree, ghost fp: set<CatalogNode>)
      requires ReadsHeaders(hd)
      modifies this`children, r
      ensures children == old(children) + [node]
      ensures NodeFrom(hd, old(r.rest)) == if err.None? then Ok(Read(t, r.rest)) else Err(err.value)
      ensures err.None? ==> Holds(node, t, fp) && Detached(fp)
      ensures fresh(fp)
      decreases |r.rest|, 1
    {
      node := new CatalogNode();
      children := children + [node];
      ghost var made;
      err, t, made, fp := node.ReadNode(r, hd);
    }

    /** SaveCatalog: the backup file name, then the root's record. */
    static method SaveCatalog(node: CatalogNode, backupFilename: string, ghost t: Tree, ghost fp: set<CatalogNode>)
      returns (file: seq<byte>)
      requires Holds(node, t, fp) && Writable(t)
      ensures file == CatalogFileBytes(backupFilename, t)
    {
      var w := new Writer();
      w.WriteString(backupFilename);
      node.SaveNode(w, t, fp, HeaderBytes);
      file := w.bytes;
    }

    /** ReadBackupFilename: the leading string of a catalog file. */
    static method ReadBackupFilename(file: seq<byte>) returns (r: Result<string>)
      ensures r == BackupFilenameOf(file)
    {
      var reader := new Reader(file);
      r := reader.ReadString();
    }

    /** ReadCatalog: a new empty root, the backup file name skipped, then the
        root's record read into the root. */
    static method ReadCatalog(file: seq<byte>) returns (r: Result<CatalogNode>, ghost t: Tree, ghost fp: set<CatalogNode>)
      ensures r.Ok? <==> CatalogOf(file).Ok?
      ensures r.Err? ==> CatalogOf(file) == Err(r.fault)
      ensures r.Ok? ==> CatalogOf(file) == Ok(t) && Holds(r.value, t, fp)
      ensures r.Ok? ==> r.value.parent == null && r.value.block == None
      ensures r.Ok? ==> Detached(fp)
    {
      var node := new CatalogNode();
      var reader := new Reader(file);
      t, fp := Tree(ROOT, "", 0, []), {};
      var s := reader.ReadString();
      if s.Err? { return Err(s.fault), t, fp; }
      var err;
      ghost var made;
      err, t, made, fp := node.ReadNode(reader, DecodeHeader);
      if err.Some? { return Err(err.value), t, fp; }
      r := Ok(node);
    }
  }

  /** The name AddSet gives a set node: "Set: ", the data set number in
      decimal, " - ", the data set name. */
  function SetName(number: nat, dataSetName: string): (s: string)
    ensures |s| == 8 + |Decimal(number)| + |dataSetName|
    ensures s[..5] == "Set: " && s[|s| - |dataSetName|..] == dataSetName
  {
    "Set: " + Decimal(number) + " - " + dataSetName
  }

  /** The number and the name can be told back from a set node's name: the
      number's digits end at the first space. */
  lemma SetNameInjective(n1: nat, a: string, n2: nat, b: string)
    requires SetName(n1, a) == SetName(n2, b)
    ensures n1 == n2 && a == b
  {
    var d1, d2 := Decimal(n1), Decimal(n2);
    var s := SetName(n1, a);
    assert s == "Set: " + (d1 + (" - " + a));
    assert s == "Set: " + (d2 + (" - " + b));
    assert d1 + (" - " + a) == s[5..] == d2 + (" - " + b);
    SplitAtSpace(d1, " - " + a, d2, " - " + b);
    assert a == (" - " + a)[3..];
    assert b == (" - " + b)[3..];
    DecimalRoundTrip(n1);
    DecimalRoundTrip(n2);
  }

  /** Two words without spaces, each followed by text that starts with a
      space, split the same way. */
  lemma SplitAtSpace(d1: string, x: string, d2: string, y: string)
    requires forall i :: 0 <= i < |d1| ==> d1[i] != ' '
    requires forall i :: 0 <= i < |d2| ==> d2[i] != ' '
    requires |x| > 0 && x[0] == ' ' && |y| > 0 && y[0] == ' '
    requires d1 + x == d2 + y
    ensures d1 == d2 && x == y
  {
    var s := d1 + x;
    assert s[|d1|] == ' ' && s[|d2|] == (d2 + y)[|d2|] == ' ';
    assert forall k :: 0 <= k < |d1| ==> s[k] == d1[k];
    assert forall k :: 0 <= k < |d2| ==> s[k] == (d2 + y)[k] == d2[k];
    assert |d1| == |d2|;
    assert d1 == s[..|d1|] && d2 == (d2 + y)[..|d2|];
    assert x == s[|d1|..] && y == (d2 + y)[|d2|..];
  }

  /** The heap node n holds the tree t: same kind, name and offset, and its
      children hold t's children, all within the footprint fp. */
  ghost predicate Holds(n: CatalogNode, t: Tree, fp: set<CatalogNode>)
    reads fp
    decreases t, 1
  {
    && n in fp
    && n.kind == t.kind && n.name == t.name && n.offset == t.offset
    && HoldsAll(n.children, t.children, fp)
  }

  /** Nodes as ReadNode leaves the ones it creates: no parent link and no
      descriptor block. */
  ghost predicate Detached(fp: set<CatalogNode>)
    reads fp
  {
    forall n | n in fp :: n.parent == null && n.block == None
  }

  lemma DetachedAdd(fp: set<CatalogNode>, fc: set<CatalogNode>)
    requires Detached(fp) && Detached(fc)
    ensures Detached(fp + fc)
  {
  }

  /** The nodes ns hold the trees ts, one by one. */
  ghost predicate HoldsAll(ns: seq<CatalogNode>, ts: seq<Tree>, fp: set<CatalogNode>)
    reads fp
    decreases ts, 0
  {
    && |ns| == |ts|
    && forall i :: 0 <= i < |ts| ==> Holds(ns[i], ts[i], fp)
  }

  /** Writing child i's record moves the boundary between what is written
      and what is still to write past that record. */
  lemma SavedChild(hw: HeaderWriter, t: Tree, i: nat, before: seq<byte>, after: seq<byte>, whole: seq<byte>)
    requires Writable(t) && i < |t.children|
    requires before + ChildrenBytes(hw, t, i) == whole
    requires after == before + NodeBytes(hw, t.children[i])
    ensures after + ChildrenBytes(hw, t, i + 1) == whole
  {
    ChildrenBytesUnfold(hw, t, i, []);
    assert ChildrenBytes(hw, t, i) + [] == ChildrenBytes(hw, t, i);
    assert ChildrenBytes(hw, t, i + 1) + [] == ChildrenBytes(hw, t, i + 1);
  }

  /** A larger footprint keeps holding. */
  lemma {:induction false} HoldsMono(n: CatalogNode, t: Tree, fp: set<CatalogNode>, fp': set<CatalogNode>)
    requires Holds(n, t, fp) && fp <= fp'
    ensures Holds(n, t, fp')
    decreases t, 1
  {
    HoldsAllMono(n.children, t.children, fp, fp');
  }

  lemma {:induction false} HoldsAllMono(ns: seq<CatalogNode>, ts: seq<Tree>, fp: set<CatalogNode>, fp': set<CatalogNode>)
    requires HoldsAll(ns, ts, fp) && fp <= fp'
    ensures HoldsAll(ns, ts, fp')
    decreases ts, 0
  {
    forall i | 0 <= i < |ts|
      ensures Holds(ns[i], ts[i], fp')
    {
      HoldsMono(ns[i], ts[i], fp, fp');
    }
  }

  /** One more node holding one more tree, over the union of the footprints. */
  lemma HoldsAllSnoc(ns: seq<CatalogNode>, ts: seq<Tree>, fp: set<CatalogNode>, n: CatalogNode, t: Tree, fn: set<CatalogNode>)
    requires HoldsAll(ns, ts, fp) && Holds(n, t, fn)
    ensures HoldsAll(ns + [n], ts + [t], fp + fn)
  {
    HoldsAllMono(ns, ts, fp, fp + fn);
    HoldsMono(n, t, fn, fp + fn);
    forall i | 0 <= i < |ts| + 1
      ensures Holds((ns + [n])[i], (ts + [t])[i], fp + fn)
    {
      if i < |ts| {
        assert (ns + [n])[i] == ns[i] && (ts + [t])[i] == ts[i];
      }
    }
  }

  /** BinaryWriter over a growing byte sequence. */
  class Writer {
    var bytes: seq<byte>

    constructor ()
      ensures bytes == []
    {
      bytes := [];
    }

    method WriteInt32(x: Int32)
      modifies this
      ensures bytes == old(bytes) + Int32Bytes(x)
    {
      bytes := bytes + Int32Bytes(x);
    }

    method WriteInt64(x: Int64)
      modifies this
      ensures bytes == old(bytes) + Int64Bytes(x)
    {
      bytes := bytes + Int64Bytes(x);
    }

    method WriteString(s: string)
      modifies this
      ensures bytes == old(bytes) + StringBytes(s)
    {
      bytes := bytes + StringBytes(s);
    }
  }

  /** BinaryReader over the bytes not read yet. After a failed read the
      remaining bytes are not specified. */
  class Reader {
    var rest: seq<byte>

    constructor (file: seq<byte>)
      ensures rest == file
    {
      rest := file;
    }

    method ReadInt32() returns (r: Result<Int32>)
      modifies this
      ensures NetBinary.ReadInt32(old(rest)) == if r.Ok? then Ok(Read(r.value, rest)) else Err(r.fault)
    {
      var x := NetBinary.ReadInt32(rest);
      if x.Err? { return Err(x.fault); }
      rest := x.value.rest;
      r := Ok(x.value.value);
    }

    method ReadInt64() returns (r: Result<Int64>)
      modifies this
      ensures NetBinary.ReadInt64(old(rest)) == if r.Ok? then Ok(Read(r.value, rest)) else Err(r.fault)
    {
      var x := NetBinary.ReadInt64(rest);
      if x.Err? { return Err(x.fault); }
      rest := x.value.rest;
      r := Ok(x.value.value);
    }

    method ReadString() returns (r: Result<string>)
      modifies this
      ensures NetBinary.ReadString(old(rest)) == if r.Ok? then Ok(Read(r.value, rest)) else Err(r.fault)
    {
      var x := NetBinary.ReadString(rest);
      if x.Err? { return Err(x.fault); }
      rest := x.value.rest;
      r := Ok(x.value.value);
    }
  }
}
