/** The part of the Microsoft Tape Format (MTF 1.00a) vocabulary the catalog
    uses: descriptor block (DBLK) types, the name-in-stream attribute bit,
    the string types, data streams, and the decoding of stream bytes into
    names. Blocks arrive already decoded by the backup stream. */
module Mtf {
  import opened Wrappers
  import opened NetBinary

  /** DBLK types are four ASCII characters, read as a little-endian 32-bit word. */
  const MTF_TAPE: nat := 0x4550_4154 // "TAPE", media header
  const MTF_SFMB: nat := 0x424D_4653 // "SFMB", soft filemark
  const MTF_SSET: nat := 0x5445_5353 // "SSET", start of data set
  const MTF_VOLB: nat := 0x424C_4F56 // "VOLB", volume
  const MTF_DIRB: nat := 0x4252_4944 // "DIRB", directory
  const MTF_FILE: nat := 0x454C_4946 // "FILE", file
  const MTF_EOTM: nat := 0x4D54_4F45 // "EOTM", end of tape media

  /** DIRB_PATH_IN_STREAM_BIT and FILE_NAME_IN_STREAM_BIT are both bit 17. */
  const NAME_IN_STREAM_BIT: bv32 := 0x0002_0000

  /** STRING_TYPE values. */
  const ANSI: nat := 1
  const UNICODE: nat := 2

  /** A data stream attached to a block: its four-character stream ID and its bytes. */
  datatype DataStream = DataStream(id: string, data: seq<byte>)

  /** One decoded descriptor block. `name` holds the block's own name field:
      the media name of a TAPE block, the data set name of an SSET block, the
      device name of a VOLB block, the directory name of a DIRB block and
      the file name of a FILE block. `finish` is the stream position just
      after the block. */
  datatype Block = Block(
    blockType: nat,
    start: Int64,
    finish: int,
    attributes: bv32,
    stringType: nat,
    name: string,
    setNumber: nat,
    streams: seq<DataStream>)

  predicate NameInStream(b: Block) {
    b.attributes & NAME_IN_STREAM_BIT != 0
  }

  /** ASCIIEncoding.GetString: one character per byte, '?' for bytes above 0x7F. */
  function AnsiString(data: seq<byte>): (s: string)
    ensures |s| == |data|
    ensures forall i :: 0 <= i < |data| ==> s[i] == if data[i] < 0x80 then data[i] as char else '?'
  {
    if data == [] then "" else [if data[0] < 0x80 then data[0] as char else '?'] + AnsiString(data[1..])
  }

  /** UnicodeEncoding.GetString: UTF-16 little-endian code units; a
      surrogate pair makes one character, and a lone surrogate or a final odd
      byte makes U+FFFD. */
  function UnicodeString(data: seq<byte>): (s: string)
    ensures |s| <= |data| && |data| <= 4 * |s|
    decreases |data|
  {
    if |data| == 0 then ""
    else if |data| == 1 then [Utf8.Replacement]
    else
      var u := data[0] as int + 0x100 * data[1] as int;
      if u < 0xD800 || 0xE000 <= u then [u as char] + UnicodeString(data[2..])
      else if u < 0xDC00 && |data| >= 4 && 0xDC00 <= data[2] as int + 0x100 * data[3] as int < 0xE000 then
        var lo := data[2] as int + 0x100 * data[3] as int;
        [(0x1_0000 + (u - 0xD800) * 0x400 + (lo - 0xDC00)) as char] + UnicodeString(data[4..])
      else [Utf8.Replacement] + UnicodeString(data[2..])
  }

  /** The bytes of a string written as UTF-16 little-endian, for characters
      of the Basic Multilingual Plane. */
  function Utf16Le(s: string): (bs: seq<byte>)
    requires forall i :: 0 <= i < |s| ==> s[i] as int < 0x1_0000
    ensures |bs| == 2 * |s|
  {
    if s == [] then [] else [s[0] as int % 0x100, s[0] as int / 0x100] + Utf16Le(s[1..])
  }

  lemma {:induction false} UnicodeStringOfUtf16Le(s: string)
    requires forall i :: 0 <= i < |s| ==> s[i] as int < 0x1_0000
    ensures UnicodeString(Utf16Le(s)) == s
  {
    if s != [] {
      var bs := Utf16Le(s);
      assert bs[2..] == Utf16Le(s[1..]);
      UnicodeStringOfUtf16Le(s[1..]);
    }
  }

  /** `String.Substring(0, Length - 1)`: drops exactly one final character,
      and throws on the empty string. */
  function DropLast(s: string): (r: Result<string>)
    ensures r.Ok? <==> s != []
    ensures r.Ok? ==> r.value + [s[|s| - 1]] == s
    ensures r.Err? ==> r.fault == ArgumentOutOfRange
  {
    if s == [] then Err(ArgumentOutOfRange) else Ok(s[..|s| - 1])
  }

  /** The decimal digits of a number, as Int32.ToString and UInt16.ToString write them. */
  function Decimal(n: nat): (s: string)
    ensures |s| >= 1
    ensures forall i :: 0 <= i < |s| ==> '0' <= s[i] <= '9'
  {
    if n < 10 then [('0' as int + n) as char] else Decimal(n / 10) + [('0' as int + n % 10) as char]
  }

  function DecimalValue(s: string): int {
    if s == [] then 0 else 10 * DecimalValue(s[..|s| - 1]) + (s[|s| - 1] as int - '0' as int)
  }

  /** Decimal writes a number that reads back as itself. */
  lemma {:induction false} DecimalRoundTrip(n: nat)
    ensures DecimalValue(Decimal(n)) == n
  {
    if n >= 10 {
      var s := Decimal(n);
      assert s[..|s| - 1] == Decimal(n / 10);
      DecimalRoundTrip(n / 10);
    }
  }
}
