/**
 * The content hash of the backup engine: SHA-256, taken as an arbitrary
 * function from bytes to a 32-byte digest, printed as lowercase
 * hexadecimal, two digits per byte, high nibble first.
 */
module Hex {
  import opened Text

  type Digest = d: seq<Byte> | |d| == 32 witness seq(32, _ => 0 as Byte)

  /** The digest function (SHA-256 from the `sha2` crate); nothing about its internals is used. */
  type DigestFn = seq<Byte> -> Digest

  predicate IsLowerHexDigit(c: char) {
    '0' <= c <= '9' || 'a' <= c <= 'f'
  }

  predicate IsLowerHex(s: string) {
    forall i :: 0 <= i < |s| ==> IsLowerHexDigit(s[i])
  }

  function DigitValue(c: char): (v: int)
    requires IsLowerHexDigit(c)
    ensures 0 <= v < 16
  {
    if c <= '9' then c as int - '0' as int else c as int - 'a' as int + 10
  }

  function HexDigit(v: int): (c: char)
    requires 0 <= v < 16
    ensures IsLowerHexDigit(c) && DigitValue(c) == v
  {
    if v < 10 then ('0' as int + v) as char else ('a' as int + v - 10) as char
  }

  function ToHex(d: seq<Byte>): (s: string)
    ensures |s| == 2 * |d| && IsLowerHex(s)
  {
    if d == [] then ""
    else [HexDigit(d[0] as int / 16), HexDigit(d[0] as int % 16)] + ToHex(d[1..])
  }

  /** Reading the hexadecimal text back: the inverse of ToHex. */
  function FromHex(s: string): (d: seq<Byte>)
    requires |s| % 2 == 0 && IsLowerHex(s)
    ensures |d| == |s| / 2
  {
    if s == [] then []
    else [(DigitValue(s[0]) * 16 + DigitValue(s[1])) as Byte] + FromHex(s[2..])
  }

  lemma {:induction false} FromHexToHex(d: seq<Byte>)
    ensures FromHex(ToHex(d)) == d
  {
    if d != [] {
      var s := ToHex(d);
      assert s[2..] == ToHex(d[1..]);
      FromHexToHex(d[1..]);
      assert [d[0]] + d[1..] == d;
    }
  }

  /** Distinct digests print as distinct hash strings. */
  lemma ToHexInjective(d1: seq<Byte>, d2: seq<Byte>)
    requires ToHex(d1) == ToHex(d2)
    ensures d1 == d2
  {
    FromHexToHex(d1);
    FromHexToHex(d2);
  }

  /** `calculate_file_hash`'s result for a file with bytes `content`. */
  function FileHash(sha: DigestFn, content: seq<Byte>): (h: string)
    ensures |h| == 64 && IsLowerHex(h)
  {
    ToHex(sha(content))
  }

  /** A hexadecimal hash is ASCII and holds no line-break characters. */
  lemma HexIsPlainText(h: string)
    requires IsLowerHex(h)
    ensures IsAscii(h)
    ensures forall k :: 0 <= k < |h| ==> h[k] != '\n' && h[k] != '\r'
    ensures IsAscii(h + "\n")
  {
    assert forall k :: 0 <= k < |h| ==> IsLowerHexDigit(h[k]);
  }
}
