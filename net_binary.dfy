/** The byte layout of .NET's BinaryWriter and BinaryReader (the .NET
    Framework implementation): little-endian two's-complement integers, and
    strings as a 7-bit variable-length byte count followed by UTF-8 bytes.
    Readers take the bytes from the current position on and return the value
    read and the bytes after it. */
module NetBinary {
  import opened Wrappers
  import Utf8

  type byte = Utf8.byte
  type Int32 = x: int | -0x8000_0000 <= x < 0x8000_0000
  type Int64 = x: int | -0x8000_0000_0000_0000 <= x < 0x8000_0000_0000_0000

  /** A value read from the front of a byte sequence, and the bytes after it. */
  datatype Read<+T> = Read(value: T, rest: seq<byte>)

  function Pow256(n: nat): (r: nat)
    ensures r > 0
  {
    if n == 0 then 1 else 256 * Pow256(n - 1)
  }

  /** The n low bytes of u, least significant first. */
  function LittleEndian(u: nat, n: nat): (bs: seq<byte>)
    ensures |bs| == n
  {
    if n == 0 then [] else [u % 256] + LittleEndian(u / 256, n - 1)
  }

  function FromLittleEndian(bs: seq<byte>): (u: nat)
    ensures u < Pow256(|bs|)
  {
    if bs == [] then 0 else bs[0] + 256 * FromLittleEndian(bs[1..])
  }

  lemma {:induction false} LittleEndianRoundTrip(u: nat, n: nat)
    requires u < Pow256(n)
    ensures FromLittleEndian(LittleEndian(u, n)) == u
  {
    if n > 0 {
      LittleEndianRoundTrip(u / 256, n - 1);
      assert LittleEndian(u, n)[1..] == LittleEndian(u / 256, n - 1);
    }
  }

  /** BinaryWriter.Write(int). */
  function Int32Bytes(x: Int32): (bs: seq<byte>)
    ensures |bs| == 4
  {
    LittleEndian(if x < 0 then x + 0x1_0000_0000 else x, 4)
  }

  /** BinaryWriter.Write(long). */
  function Int64Bytes(x: Int64): (bs: seq<byte>)
    ensures |bs| == 8
  {
    LittleEndian(if x < 0 then x + 0x1_0000_0000_0000_0000 else x, 8)
  }

  /** The signed value of a little-endian two's-complement word of n bytes. */
  function Signed(u: nat, n: nat): int {
    if u < Pow256(n) / 2 then u else u - Pow256(n)
  }

  /** BinaryReader.ReadInt32. */
  function ReadInt32(data: seq<byte>): (r: Result<Read<Int32>>)
    ensures r.Ok? <==> |data| >= 4
    ensures r.Ok? ==> r.value.rest == data[4..]
  {
    if |data| < 4 then Err(EndOfStream)
    else
      assert Pow256(4) == 0x1_0000_0000;
      Ok(Read(Signed(FromLittleEndian(data[..4]), 4), data[4..]))
  }

  /** BinaryReader.ReadInt64. */
  function ReadInt64(data: seq<byte>): (r: Result<Read<Int64>>)
    ensures r.Ok? <==> |data| >= 8
    ensures r.Ok? ==> r.value.rest == data[8..]
  {
    if |data| < 8 then Err(EndOfStream)
    else
      assert Pow256(8) == 0x1_0000_0000_0000_0000;
      Ok(Read(Signed(FromLittleEndian(data[..8]), 8), data[8..]))
  }

  lemma Int32RoundTrip(x: Int32, rest: seq<byte>)
    ensures ReadInt32(Int32Bytes(x) + rest) == Ok(Read(x, rest))
  {
    var bs := Int32Bytes(x) + rest;
    assert bs[..4] == Int32Bytes(x);
    assert bs[4..] == rest;
    assert Pow256(4) == 0x1_0000_0000;
    LittleEndianRoundTrip(if x < 0 then x + 0x1_0000_0000 else x, 4);
  }

  lemma Int64RoundTrip(x: Int64, rest: seq<byte>)
    ensures ReadInt64(Int64Bytes(x) + rest) == Ok(Read(x, rest))
  {
    var bs := Int64Bytes(x) + rest;
    assert bs[..8] == Int64Bytes(x);
    assert bs[8..] == rest;
    assert Pow256(8) == 0x1_0000_0000_0000_0000;
    LittleEndianRoundTrip(if x < 0 then x + 0x1_0000_0000_0000_0000 else x, 8);
  }

  /** BinaryWriter.Write7BitEncodedInt for a non-negative value: seven bits
      per byte, least significant group first, high bit set on every byte but
      the last. */
  function SevenBitBytes(v: nat): (bs: seq<byte>)
    ensures |bs| >= 1
    decreases v
  {
    if v < 0x80 then [v] else [v % 0x80 + 0x80] + SevenBitBytes(v / 0x80)
  }

  function Pow128(k: nat): (r: nat)
    ensures r > 0
  {
    if k == 0 then 1 else 128 * Pow128(k - 1)
  }

  /** u shifted left by 7k bits. */
  function Shift7(u: nat, k: nat): nat {
    if k == 0 then u else 128 * Shift7(u, k - 1)
  }

  /** The signed 32-bit value of the low 32 bits of u. */
  function ToInt32(u: nat): Int32 {
    var w := u % 0x1_0000_0000;
    if w < 0x8000_0000 then w else w - 0x1_0000_0000
  }

  /** BinaryReader.Read7BitEncodedInt, from byte number k of the encoding on,
      with acc the value of the k groups read so far; the result is the sum
      of all groups, before truncation to 32 bits. A sixth byte is a format
      error. */
  function SevenBitFrom(data: seq<byte>, acc: nat, k: nat): (r: Result<Read<nat>>)
    requires k <= 5
    ensures r.Ok? ==> |r.value.rest| < |data|
    decreases 5 - k
  {
    if k == 5 then Err(BadSevenBitInt)
    else if data == [] then Err(EndOfStream)
    else
      var b := data[0];
      var acc' := acc + Shift7(b % 0x80, k);
      if b < 0x80 then Ok(Read(acc', data[1..]))
      else SevenBitFrom(data[1..], acc', k + 1)
  }

  /** Bits shifted past bit 31 are lost, as with C#'s `(b & 0x7F) << 28` on
      an int. */
  function Read7BitEncodedInt(data: seq<byte>): (r: Result<Read<Int32>>)
    ensures r.Ok? ==> |r.value.rest| < |data|
    ensures data == [] ==> r == Err(EndOfStream)
    ensures data != [] && data[0] < 0x80 ==> r == Ok(Read(data[0] as Int32, data[1..]))
    ensures |data| >= 5 && (forall i :: 0 <= i < 5 ==> data[i] >= 0x80) ==> r == Err(BadSevenBitInt)
  {
    SevenBitTooLong(data, 0, 0);
    var n :- SevenBitFrom(data, 0, 0);
    Ok(Read(ToInt32(n.value), n.rest))
  }

  /** Five bytes in a row with the high bit set are a format error. */
  lemma {:induction false} SevenBitTooLong(data: seq<byte>, acc: nat, k: nat)
    requires k <= 5
    ensures |data| >= 5 - k && (forall i :: 0 <= i < 5 - k ==> data[i] >= 0x80) ==> SevenBitFrom(data, acc, k) == Err(BadSevenBitInt)
    decreases 5 - k
  {
    if k < 5 && |data| >= 5 - k && (forall i :: 0 <= i < 5 - k ==> data[i] >= 0x80) {
      assert data[0] >= 0x80;
      SevenBitTooLong(data[1..], acc + Shift7(data[0] % 0x80, k), k + 1);
    }
  }

  lemma {:induction false} SevenBitLength(v: nat, k: nat)
    requires v < Pow128(k)
    ensures |SevenBitBytes(v)| <= if k == 0 then 1 else k
  {
    if v >= 0x80 {
      SevenBitLength(v / 0x80, k - 1);
    }
  }

  /** Shifting a 7-bit group distributes over the group and the rest. */
  lemma {:induction false} ShiftSplit(lo: nat, hi: nat, k: nat)
    ensures Shift7(lo + 128 * hi, k) == Shift7(lo, k) + 128 * Shift7(hi, k)
  {
    if k > 0 {
      ShiftSplit(lo, hi, k - 1);
    }
  }

  lemma {:induction false} SevenBitFromEncoded(v: nat, rest: seq<byte>, acc: nat, k: nat)
    requires k + |SevenBitBytes(v)| <= 5
    ensures SevenBitFrom(SevenBitBytes(v) + rest, acc, k) == Ok(Read(acc + Shift7(v, k), rest))
    decreases v
  {
    if v < 0x80 {
      var bs := SevenBitBytes(v) + rest;
      assert bs[0] == v && bs[1..] == rest;
      assert v % 0x80 == v;
    } else {
      var tail := SevenBitBytes(v / 0x80);
      assert SevenBitBytes(v) + rest == [v % 0x80 + 0x80] + (tail + rest);
      SevenBitFromStep(v % 0x80, tail + rest, acc, k);
      SevenBitFromEncoded(v / 0x80, rest, acc + Shift7(v % 0x80, k), k + 1);
      ShiftGroups(v, k);
    }
  }

  /** A byte with the high bit set adds its group and passes on to the next byte. */
  lemma SevenBitFromStep(g: nat, tail: seq<byte>, acc: nat, k: nat)
    requires g < 0x80 && k < 5
    ensures SevenBitFrom([g + 0x80] + tail, acc, k) == SevenBitFrom(tail, acc + Shift7(g, k), k + 1)
  {
    var bs := [g + 0x80] + tail;
    assert bs[0] == g + 0x80 && bs[1..] == tail;
    assert bs[0] % 0x80 == g;
  }

  /** v shifted by 7k bits is its low group shifted by 7k bits plus the rest
      shifted by 7(k + 1) bits. */
  lemma ShiftGroups(v: nat, k: nat)
    ensures Shift7(v, k) == Shift7(v % 0x80, k) + Shift7(v / 0x80, k + 1)
  {
    ShiftSplit(v % 0x80, v / 0x80, k);
    assert v % 0x80 + 128 * (v / 0x80) == v;
  }

  lemma ToInt32Small(u: nat)
    requires u < 0x8000_0000
    ensures ToInt32(u) == u
  {
  }

  /** A length below 2^31 takes at most five bytes. */
  lemma SevenBitShort(v: nat)
    requires v < 0x8000_0000
    ensures |SevenBitBytes(v)| <= 5
  {
    assert Pow128(5) == 0x8_0000_0000;
    SevenBitLength(v, 5);
  }

  /** Reading back a length prefix gives the length, for every length a .NET
      string's UTF-8 form can have. */
  lemma SevenBitRoundTrip(v: nat, rest: seq<byte>)
    requires v < 0x8000_0000
    ensures Read7BitEncodedInt(SevenBitBytes(v) + rest) == Ok(Read(v, rest))
  {
    SevenBitShort(v);
    SevenBitFromEncoded(v, rest, 0, 0);
    assert 0 + Shift7(v, 0) == v;
    ToInt32Small(v);
  }

  /** BinaryWriter.Write(string). */
  function StringBytes(s: string): (bs: seq<byte>)
    ensures |bs| > |Utf8.Encode(s)| && bs[|bs| - |Utf8.Encode(s)|..] == Utf8.Encode(s)
    ensures s == "" ==> bs == [0]
  {
    var u := Utf8.Encode(s);
    SevenBitBytes(|u|) + u
  }

  /** BinaryReader.ReadString: a negative length is an IOException, a
      length that runs past the end an EndOfStreamException. */
  function ReadString(data: seq<byte>): (r: Result<Read<string>>)
    ensures r.Ok? ==> |r.value.rest| < |data|
    ensures Read7BitEncodedInt(data).Err? ==> r == Err(Read7BitEncodedInt(data).fault)
    ensures Read7BitEncodedInt(data).Ok? && Read7BitEncodedInt(data).value.value < 0 ==> r == Err(InvalidStringLength)
    ensures Read7BitEncodedInt(data).Ok? ==> var n := Read7BitEncodedInt(data).value;
      n.value > |n.rest| ==> r == Err(EndOfStream)
  {
    var n :- Read7BitEncodedInt(data);
    if n.value < 0 then Err(InvalidStringLength)
    else if n.value == 0 then Ok(Read("", n.rest))
    else if |n.rest| < n.value then Err(EndOfStream)
    else Ok(Read(Utf8.Decode(n.rest[..n.value]), n.rest[n.value..]))
  }

  /** The string reader gives back what the string writer wrote and leaves
      exactly the bytes after it. */
  lemma StringRoundTrip(s: string, rest: seq<byte>)
    requires |Utf8.Encode(s)| < 0x8000_0000
    ensures ReadString(StringBytes(s) + rest) == Ok(Read(s, rest))
  {
    var u := Utf8.Encode(s);
    var p := SevenBitBytes(|u|);
    assert StringBytes(s) + rest == p + (u + rest);
    SevenBitRoundTrip(|u|, u + rest);
    assert (u + rest)[..|u|] == u;
    assert (u + rest)[|u|..] == rest;
    Utf8.DecodeEncode(s);
  }
}
