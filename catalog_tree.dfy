/** The value of a catalog node as the catalog file stores it (kind, name,
    offset and ordered children; no parent link, no descriptor block), and
    the pre-order record layout that CCatalogNode.SaveNode writes and
    CCatalogNode.ReadNode reads back. */
module CatalogTree {
  import opened Wrappers
  import opened NetBinary
  import Utf8

  /** ENodeType. The stored kind is any Int32: nothing checks it on reading. */
  const ROOT: Int32 := 0
  const SET: Int32 := 1
  const VOLUME: Int32 := 2
  const FOLDER: Int32 := 3
  const FILE: Int32 := 4

  datatype Tree = Tree(kind: Int32, name: string, offset: Int64, children: seq<Tree>)

  /** What BinaryWriter can write: every name's UTF-8 form and every child
      count fit in an Int32. */
  predicate Writable(t: Tree) {
    && |Utf8.Encode(t.name)| < 0x8000_0000
    && |t.children| < 0x8000_0000
    && forall i :: 0 <= i < |t.children| ==> Writable(t.children[i])
  }

  /** The fixed part of a record: kind, name, offset and child count. */
  datatype Header = Header(kind: Int32, name: string, offset: Int64, count: Int32)

  function HeaderOf(t: Tree): Header
    requires |t.children| < 0x8000_0000
  {
    Header(t.kind, t.name, t.offset, |t.children| as Int32)
  }

  /** The header bytes SaveNode writes: Int32 kind, string name, Int64
      offset, Int32 child count. */
  function HeaderBytes(h: Header): (bs: seq<byte>)
  {
    Int32Bytes(h.kind) + StringBytes(h.name) + Int64Bytes(h.offset) + Int32Bytes(h.count)
  }

  /** The header fields ReadNode reads, in the same order. */
  function DecodeHeader(data: seq<byte>): (r: Result<Read<Header>>)
    ensures r.Ok? ==> |r.value.rest| + 17 <= |data|
    ensures r.Ok? ==> ReadInt32(data) == Ok(Read(r.value.value.kind, data[4..]))
    ensures r.Ok? ==> ReadString(data[4..]).Ok? && ReadString(data[4..]).value.value == r.value.value.name
    ensures |data| < 4 ==> r == Err(EndOfStream)
  {
    var kind :- ReadInt32(data);
    var name :- ReadString(kind.rest);
    var offset :- ReadInt64(name.rest);
    var count :- ReadInt32(offset.rest);
    Ok(Read(Header(kind.value, name.value, offset.value, count.value), count.rest))
  }

  lemma HeaderRoundTrip(h: Header, rest: seq<byte>)
    requires |Utf8.Encode(h.name)| < 0x8000_0000
    ensures DecodeHeader(HeaderBytes(h) + rest) == Ok(Read(h, rest))
  {
    var k, s, o, c := Int32Bytes(h.kind), StringBytes(h.name), Int64Bytes(h.offset), Int32Bytes(h.count);
    assert HeaderBytes(h) + rest == k + (s + (o + (c + rest)));
    Int32RoundTrip(h.kind, s + (o + (c + rest)));
    StringRoundTrip(h.name, o + (c + rest));
    Int64RoundTrip(h.offset, c + rest);
    Int32RoundTrip(h.count, rest);
  }

  /* The record layout does not depend on how a header is written: the
     functions below take the header writer and reader as parameters, and
     SaveNode's and ReadNode's layouts are their instances for HeaderBytes
     and DecodeHeader. */

  type HeaderWriter = Header -> seq<byte>
  type HeaderReader = seq<byte> -> Result<Read<Header>>

  /** A header reader that consumes at least one byte when it succeeds. */
  ghost predicate Consumes(hd: HeaderReader) {
    forall d :: hd(d).Ok? ==> |hd(d).value.rest| < |d|
  }

  /** A header writer and reader that read back every header whose name a
      BinaryWriter can write, whatever follows it. */
  ghost predicate HeaderCodec(hw: HeaderWriter, hd: HeaderReader) {
    && Consumes(hd)
    && forall h: Header, r :: |Utf8.Encode(h.name)| < 0x8000_0000 ==> hd(hw(h) + r) == Ok(Read(h, r))
  }

  /** hw writes headers as HeaderBytes does, and hd reads them as
      DecodeHeader does. Each equation is put to use only where the concrete
      codec itself is mentioned, which keeps the codec's definition out of
      proofs that are about the record layout. */
  ghost predicate WritesHeaders(hw: HeaderWriter) {
    forall h {:trigger HeaderBytes(h)} :: hw(h) == HeaderBytes(h)
  }

  ghost predicate ReadsHeaders(hd: HeaderReader) {
    && Consumes(hd)
    && forall d {:trigger DecodeHeader(d)} :: hd(d) == DecodeHeader(d)
  }

  /** One node record: its header, then the records of the children in order. */
  function NodeBytes(hw: HeaderWriter, t: Tree): (bs: seq<byte>)
    requires Writable(t)
    ensures hw(HeaderOf(t)) <= bs
    ensures t.children == [] ==> bs == hw(HeaderOf(t))
    decreases t, 1
  {
    hw(HeaderOf(t)) + ChildrenBytes(hw, t, 0)
  }

  /** The records of the children of t from the i-th on. */
  function ChildrenBytes(hw: HeaderWriter, t: Tree, i: nat): (bs: seq<byte>)
    requires Writable(t) && i <= |t.children|
    decreases t, 0, |t.children| - i
  {
    if i == |t.children| then [] else NodeBytes(hw, t.children[i]) + ChildrenBytes(hw, t, i + 1)
  }

  /** A header, then as many child records as its count says; a count of
      zero or less reads no children. */
  function NodeFrom(hd: HeaderReader, data: seq<byte>): (r: Result<Read<Tree>>)
    requires Consumes(hd)
    ensures r.Ok? ==> |r.value.rest| < |data|
    ensures r.Ok? ==> hd(data).Ok? && var h := hd(data).value.value;
      && r.value.value.kind == h.kind && r.value.value.name == h.name && r.value.value.offset == h.offset
      && |r.value.value.children| == Count(h.count)
    ensures hd(data).Err? ==> r == Err(hd(data).fault)
    decreases |data|, 0
  {
    var h :- hd(data);
    var kids :- ChildrenFrom(hd, h.rest, Count(h.value.count));
    Ok(Read(Tree(h.value.kind, h.value.name, h.value.offset, kids.value), kids.rest))
  }

  /** The number of children a stored count stands for. */
  function Count(count: Int32): nat {
    if count < 0 then 0 else count
  }

  /** n consecutive node records. */
  function ChildrenFrom(hd: HeaderReader, data: seq<byte>, n: nat): (r: Result<Read<seq<Tree>>>)
    requires Consumes(hd)
    ensures r.Ok? ==> |r.value.rest| <= |data| && |r.value.value| == n
    ensures n > 0 && r.Ok? ==> NodeFrom(hd, data).Ok? && r.value.value[0] == NodeFrom(hd, data).value.value
    ensures n > 0 && NodeFrom(hd, data).Err? ==> r == Err(NodeFrom(hd, data).fault)
    decreases |data|, 1, n
  {
    if n == 0 then Ok(Read([], data))
    else
      var first :- NodeFrom(hd, data);
      var more :- ChildrenFrom(hd, first.rest, n - 1);
      Ok(Read([first.value] + more.value, more.rest))
  }

  /** Reading back a record rebuilds the same tree and leaves exactly the
      bytes that follow the record. */
  lemma {:induction false} NodeRoundTripWith(hw: HeaderWriter, hd: HeaderReader, t: Tree, rest: seq<byte>)
    requires HeaderCodec(hw, hd) && Writable(t)
    ensures NodeFrom(hd, NodeBytes(hw, t) + rest) == Ok(Read(t, rest))
    decreases t, 1
  {
    var kids := ChildrenBytes(hw, t, 0) + rest;
    assert NodeBytes(hw, t) + rest == hw(HeaderOf(t)) + kids;
    assert hd(hw(HeaderOf(t)) + kids) == Ok(Read(HeaderOf(t), kids));
    ChildrenRoundTrip(hw, hd, t, 0, |t.children|, rest);
    assert t.children[0..] == t.children;
  }

  /** The records of children i, i + 1, ... read back as those children. */
  lemma {:induction false} ChildrenRoundTrip(hw: HeaderWriter, hd: HeaderReader, t: Tree, i: nat, n: nat, rest: seq<byte>)
    requires HeaderCodec(hw, hd) && Writable(t) && i + n == |t.children|
    ensures ChildrenFrom(hd, ChildrenBytes(hw, t, i) + rest, n) == Ok(Read(t.children[i..], rest))
    decreases t, 0, n
  {
    if n > 0 {
      var more := ChildrenBytes(hw, t, i + 1) + rest;
      NodeRoundTripWith(hw, hd, t.children[i], more);
      ChildrenRoundTrip(hw, hd, t, i + 1, n - 1, rest);
      ChildrenBytesUnfold(hw, t, i, rest);
      DropCons(t.children, i);
    } else {
      assert ChildrenBytes(hw, t, i) + rest == rest;
      assert t.children[i..] == [];
    }
  }

  /** Reading i records and then one more is reading i + 1 records. */
  lemma {:induction false} ChildrenSnoc(hd: HeaderReader, data: seq<byte>, i: nat, kids: seq<Tree>, mid: seq<byte>,
                                         last: Tree, rest: seq<byte>)
    requires Consumes(hd)
    requires ChildrenFrom(hd, data, i) == Ok(Read(kids, mid))
    requires NodeFrom(hd, mid) == Ok(Read(last, rest))
    ensures ChildrenFrom(hd, data, i + 1) == Ok(Read(kids + [last], rest))
    decreases i
  {
    if i > 0 {
      var first := NodeFrom(hd, data).value;
      var more := ChildrenFrom(hd, first.rest, i - 1).value;
      ChildrenSnoc(hd, first.rest, i - 1, more.value, mid, last, rest);
      assert [first.value] + (more.value + [last]) == kids + [last];
    } else {
      assert kids + [last] == [last] + [];
    }
  }

  /** When the record after the first i cannot be read, reading any more
      than i records fails with that record's fault. */
  lemma {:induction false} ChildrenFail(hd: HeaderReader, data: seq<byte>, i: nat, kids: seq<Tree>, mid: seq<byte>, n: nat)
    requires Consumes(hd)
    requires ChildrenFrom(hd, data, i) == Ok(Read(kids, mid))
    requires NodeFrom(hd, mid).Err? && i < n
    ensures ChildrenFrom(hd, data, n) == Err(NodeFrom(hd, mid).fault)
    decreases i
  {
    if i > 0 {
      var first := NodeFrom(hd, data).value;
      var more := ChildrenFrom(hd, first.rest, i - 1).value;
      ChildrenFail(hd, first.rest, i - 1, more.value, mid, n - 1);
    }
  }

  lemma ChildrenBytesUnfold(hw: HeaderWriter, t: Tree, i: nat, rest: seq<byte>)
    requires Writable(t) && i < |t.children|
    ensures ChildrenBytes(hw, t, i) + rest == NodeBytes(hw, t.children[i]) + (ChildrenBytes(hw, t, i + 1) + rest)
  {
  }

  lemma DropCons<T>(s: seq<T>, i: nat)
    requires i < |s|
    ensures s[i..] == [s[i]] + s[i + 1..]
  {
  }

  /** A record whose stored child count is zero or negative has no children. */
  lemma NoChildrenForNonPositiveCount(hd: HeaderReader, data: seq<byte>)
    requires Consumes(hd)
    requires hd(data).Ok? && hd(data).value.value.count <= 0
    ensures NodeFrom(hd, data).Ok?
    ensures NodeFrom(hd, data).value.value.children == []
    ensures NodeFrom(hd, data).value.rest == hd(data).value.rest
  {
  }

  /** SaveNode's record of a node. */
  function EncodeNode(t: Tree): (bs: seq<byte>)
    requires Writable(t)
  {
    NodeBytes(HeaderBytes, t)
  }

  /** ReadNode's reading of a record. */
  function DecodeNode(data: seq<byte>): (r: Result<Read<Tree>>)
    ensures r.Ok? ==> |r.value.rest| < |data|
  {
    NodeFrom(DecodeHeader, data)
  }

  /** ReadNode applied to what SaveNode wrote rebuilds the same tree and
      leaves exactly the bytes that follow the record. */
  lemma NodeRoundTrip(t: Tree, rest: seq<byte>)
    requires Writable(t)
    ensures DecodeNode(EncodeNode(t) + rest) == Ok(Read(t, rest))
  {
    forall h: Header, r | |Utf8.Encode(h.name)| < 0x8000_0000
      ensures DecodeHeader(HeaderBytes(h) + r) == Ok(Read(h, r))
    {
      HeaderRoundTrip(h, r);
    }
    NodeRoundTripWith(HeaderBytes, DecodeHeader, t, rest);
  }

  /** SaveCatalog: the backup file name, then the root's record. */
  function CatalogFileBytes(backupFilename: string, root: Tree): seq<byte>
    requires Writable(root)
  {
    StringBytes(backupFilename) + EncodeNode(root)
  }

  /** ReadBackupFilename: the leading string of a catalog file. */
  function BackupFilenameOf(file: seq<byte>): Result<string> {
    var name :- ReadString(file);
    Ok(name.value)
  }

  /** ReadCatalog: skip the leading string, then read the root record;
      whatever follows the root record is not read. */
  function CatalogOf(file: seq<byte>): Result<Tree> {
    var name :- ReadString(file);
    var root :- DecodeNode(name.rest);
    Ok(root.value)
  }

  /** A saved catalog gives back its backup file name and its tree. */
  lemma CatalogFileRoundTrip(backupFilename: string, root: Tree)
    requires Writable(root) && |Utf8.Encode(backupFilename)| < 0x8000_0000
    ensures BackupFilenameOf(CatalogFileBytes(backupFilename, root)) == Ok(backupFilename)
    ensures CatalogOf(CatalogFileBytes(backupFilename, root)) == Ok(root)
  {
    var node := EncodeNode(root);
    StringRoundTrip(backupFilename, node);
    NodeRoundTrip(root, []);
    assert node + [] == node;
  }
}
