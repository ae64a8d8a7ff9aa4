/** The text form of a digest: every byte as two lower-case hexadecimal
    digits, high nibble first (the "x2" format of Byte.ToString). */
module HexEncoding {
  import opened Wrappers

  newtype byte = x: int | 0 <= x < 256

  /** An MD5 digest is 16 bytes long (RFC 1321, section 3.5). */
  type Digest = s: seq<byte> | |s| == 16 witness seq(16, _ => 0)

  /** The characters "x2" produces: 0-9 and a-f, never upper case. */
  predicate IsHexDigit(c: char)
  {
    '0' <= c <= '9' || 'a' <= c <= 'f'
  }

  /** The digit for a nibble. */
  function HexDigit(n: int): (c: char)
    requires 0 <= n < 16
    ensures IsHexDigit(c)
  {
    if n < 10 then ('0' as int + n) as char else ('a' as int + n - 10) as char
  }

  /** The nibble a digit stands for. */
  function DigitValue(c: char): (n: int)
    requires IsHexDigit(c)
    ensures 0 <= n < 16
  {
    if c <= '9' then c as int - '0' as int else c as int - 'a' as int + 10
  }

  lemma DigitRoundTrip(n: int)
    requires 0 <= n < 16
    ensures DigitValue(HexDigit(n)) == n
  {
  }

  /** One byte in the "x2" format. */
  function ByteHex(b: byte): (s: string)
    ensures |s| == 2 && IsHexDigit(s[0]) && IsHexDigit(s[1])
    ensures DigitValue(s[0]) * 16 + DigitValue(s[1]) == b as int
  {
    [HexDigit(b as int / 16), HexDigit(b as int % 16)]
  }

  /** The bytes appended one after another in the "x2" format: twice as
      many characters as bytes, all of them hexadecimal digits. */
  function Hex(bytes: seq<byte>): (s: string)
    ensures |s| == 2 * |bytes|
    ensures forall i :: 0 <= i < |s| ==> IsHexDigit(s[i])
  {
    if |bytes| == 0 then ""
    else Hex(bytes[..|bytes| - 1]) + ByteHex(bytes[|bytes| - 1])
  }

  /** Characters 2j and 2j+1 are the high and the low nibble of byte j. */
  lemma {:induction false} HexAt(bytes: seq<byte>, j: int)
    requires 0 <= j < |bytes|
    ensures Hex(bytes)[2 * j] == HexDigit(bytes[j] as int / 16)
    ensures Hex(bytes)[2 * j + 1] == HexDigit(bytes[j] as int % 16)
  {
    var n := |bytes| - 1;
    if j < n {
      HexAt(bytes[..n], j);
      assert bytes[..n][j] == bytes[j];
    }
  }

  /** A digest prints as 32 hexadecimal digits. */
  lemma DigestHexLength(d: Digest)
    ensures |Hex(d)| == 32
  {
  }

  /** The byte two digits stand for, high nibble first. */
  function PairValue(hi: char, lo: char): (b: byte)
    requires IsHexDigit(hi) && IsHexDigit(lo)
  {
    (DigitValue(hi) * 16 + DigitValue(lo)) as byte
  }

  /** The inverse of Hex: reads pairs of digits back into bytes, and fails
      on an odd length or on any character outside 0-9a-f. */
  function Unhex(s: string): (r: Option<seq<byte>>)
    ensures r.Some? ==> |r.value| * 2 == |s|
  {
    if |s| % 2 != 0 || exists i :: 0 <= i < |s| && !IsHexDigit(s[i]) then None
    else Some(seq(|s| / 2, j requires 0 <= j < |s| / 2 => PairValue(s[2 * j], s[2 * j + 1])))
  }

  /** Reading the digits back gives the bytes that were printed. */
  lemma UnhexHex(bytes: seq<byte>)
    ensures Unhex(Hex(bytes)) == Some(bytes)
  {
    var s := Hex(bytes);
    assert |s| % 2 == 0 && |s| / 2 == |bytes|;
    assert !exists i :: 0 <= i < |s| && !IsHexDigit(s[i]);
    var r := Unhex(s).value;
    forall j | 0 <= j < |bytes| ensures r[j] == bytes[j] {
      HexAt(bytes, j);
      DigitRoundTrip(bytes[j] as int / 16);
      DigitRoundTrip(bytes[j] as int % 16);
      assert r[j] == PairValue(s[2 * j], s[2 * j + 1]);
    }
    assert r == bytes;
  }

  /** Different digests never print the same: the report identifies each
      file's digest exactly. */
  lemma HexInjective(a: seq<byte>, b: seq<byte>)
    requires Hex(a) == Hex(b)
    ensures a == b
  {
    UnhexHex(a);
    UnhexHex(b);
  }
}
