/**
 * Bytes and text: the byte type of file contents, reading a file as UTF-8
 * text (`fs::read_to_string`), writing ASCII text, `str::lines`, and the
 * ASCII lower-casing and string order that file names are compared with.
 */
module Text {
  import opened Wrappers

  newtype Byte = b: int | 0 <= b < 256

  /** Every character is in the ASCII range. */
  predicate IsAscii(s: string) {
    forall i :: 0 <= i < |s| ==> s[i] as int < 128
  }

  /** The bytes that writing the ASCII string `s` puts in a file (UTF-8 of ASCII is one byte per character). */
  function AsciiBytes(s: string): (b: seq<Byte>)
    requires IsAscii(s)
    ensures |b| == |s|
  {
    if s == [] then [] else [s[0] as int as Byte] + AsciiBytes(s[1..])
  }

  lemma {:induction false} AsciiBytesAppend(s: string, t: string)
    requires IsAscii(s) && IsAscii(t)
    ensures IsAscii(s + t)
    ensures AsciiBytes(s + t) == AsciiBytes(s) + AsciiBytes(t)
  {
    if s != [] {
      assert (s + t)[1..] == s[1..] + t;
      AsciiBytesAppend(s[1..], t);
      calc {
        AsciiBytes(s + t);
        [(s + t)[0] as int as Byte] + AsciiBytes((s + t)[1..]);
        [s[0] as int as Byte] + (AsciiBytes(s[1..]) + AsciiBytes(t));
        ([s[0] as int as Byte] + AsciiBytes(s[1..])) + AsciiBytes(t);
      }
    } else {
      assert s + t == t;
    }
  }

  // ---------------------------------------------------------------------
  // UTF-8 decoding, as `fs::read_to_string` does it: the bytes must be
  // well-formed UTF-8 (RFC 3629, section 4), otherwise the read fails.
  // ---------------------------------------------------------------------

  predicate IsContinuation(b: Byte) { 0x80 <= b <= 0xBF }

  /** Smallest and largest second byte allowed after a three-byte lead (no overlong forms, no surrogates). */
  function Low3(b0: int): int { if b0 == 0xE0 then 0xA0 else 0x80 }
  function High3(b0: int): int { if b0 == 0xED then 0x9F else 0xBF }
  /** The same for a four-byte lead (no overlong forms, nothing above U+10FFFF). */
  function Low4(b0: int): int { if b0 == 0xF0 then 0x90 else 0x80 }
  function High4(b0: int): int { if b0 == 0xF4 then 0x8F else 0xBF }

  /**
   * The scalar value that `b` starts with and the number of bytes it takes,
   * or None when `b` does not start with a well-formed UTF-8 sequence.
   */
  function DecodeFirst(b: seq<Byte>): (r: Option<(char, nat)>)
    requires |b| > 0
    ensures r.Some? ==> 1 <= r.value.1 <= 4 && r.value.1 <= |b|
    ensures r.Some? && r.value.1 == 1 ==> r.value.0 as int == b[0] as int
  {
    var b0 := b[0] as int;
    if b0 < 0x80 then
      Some((b0 as char, 1))
    else if 0xC2 <= b0 <= 0xDF then
      if |b| >= 2 && IsContinuation(b[1]) then
        Some((((b0 - 0xC0) * 64 + (b[1] as int - 0x80)) as char, 2))
      else None
    else if 0xE0 <= b0 <= 0xEF then
      if |b| >= 3 && Low3(b0) <= b[1] as int <= High3(b0) && IsContinuation(b[2]) then
        Some((((b0 - 0xE0) * 4096 + (b[1] as int - 0x80) * 64 + (b[2] as int - 0x80)) as char, 3))
      else None
    else if 0xF0 <= b0 <= 0xF4 then
      if |b| >= 4 && Low4(b0) <= b[1] as int <= High4(b0) && IsContinuation(b[2]) && IsContinuation(b[3]) then
        Some((((b0 - 0xF0) * 262144 + (b[1] as int - 0x80) * 4096
               + (b[2] as int - 0x80) * 64 + (b[3] as int - 0x80)) as char, 4))
      else None
    else None
  }

  /**
   * The text that `b` decodes to, or None when `b` is not well-formed
   * UTF-8: every character takes one to four bytes, so the text is never
   * longer than the bytes and at least a quarter as long.
   */
  function Decode(b: seq<Byte>): (r: Option<string>)
    ensures r.Some? ==> |r.value| <= |b| <= 4 * |r.value|
    decreases |b|
  {
    if b == [] then Some([])
    else match DecodeFirst(b)
      case None => None
      case Some((c, n)) =>
        match Decode(b[n..])
        case None => None
        case Some(s) => Some([c] + s)
  }

  /** The bytes of an ASCII string decode back to that string. */
  lemma {:induction false} DecodeAscii(s: string)
    requires IsAscii(s)
    ensures Decode(AsciiBytes(s)) == Some(s)
  {
    if s != [] {
      var b := AsciiBytes(s);
      assert b[1..] == AsciiBytes(s[1..]);
      DecodeAscii(s[1..]);
      assert [s[0]] + s[1..] == s;
    }
  }

  /** Decoding the first scalar value only looks at its own bytes. */
  lemma DecodeFirstPrefix(a: seq<Byte>, b: seq<Byte>)
    requires |a| > 0 && DecodeFirst(a).Some?
    ensures DecodeFirst(a + b) == DecodeFirst(a)
  {
    var n := DecodeFirst(a).value.1;
    assert forall i :: 0 <= i < n ==> (a + b)[i] == a[i];
  }

  /** Decoding a non-empty byte string: its first scalar value, then the rest. */
  lemma DecodeCons(b: seq<Byte>, c: char, n: nat)
    requires |b| > 0 && DecodeFirst(b) == Some((c, n))
    ensures Decode(b) == if Decode(b[n..]).Some? then Some([c] + Decode(b[n..]).value) else None
  {
  }

  lemma DropAppend<T>(a: seq<T>, b: seq<T>, n: nat)
    requires n <= |a|
    ensures (a + b)[n..] == a[n..] + b
  {
  }

  lemma ConsParts<T>(x: T, s: seq<T>)
    ensures |[x] + s| == |s| + 1 && ([x] + s)[0] == x && ([x] + s)[1..] == s
  {
  }

  lemma AppendAssociative<T>(x: seq<T>, y: seq<T>, z: seq<T>)
    ensures x + (y + z) == x + y + z
  {
  }

  /** One step of `DecodeAppend`: from the rest of `a` followed by `b`, to all of `a` followed by `b`. */
  lemma DecodeAppendStep(a: seq<Byte>, b: seq<Byte>, c: char, n: nat)
    requires |a| > 0 && DecodeFirst(a) == Some((c, n))
    requires Decode(a[n..]).Some? && Decode(b).Some?
    requires Decode(a[n..] + b) == Some(Decode(a[n..]).value + Decode(b).value)
    ensures Decode(a + b) == Some([c] + Decode(a[n..]).value + Decode(b).value)
  {
    DecodeFirstPrefix(a, b);
    DropAppend(a, b, n);
    DecodeCons(a + b, c, n);
    AppendAssociative([c], Decode(a[n..]).value, Decode(b).value);
  }

  /** Decoding distributes over concatenation of well-formed byte strings. */
  lemma {:induction false} DecodeAppend(a: seq<Byte>, b: seq<Byte>)
    requires Decode(a).Some? && Decode(b).Some?
    ensures Decode(a + b) == Some(Decode(a).value + Decode(b).value)
    decreases |a|
  {
    if a == [] {
      assert a + b == b;
      assert Decode(a).value + Decode(b).value == Decode(b).value;
    } else {
      var c := DecodeFirst(a).value.0;
      var n := DecodeFirst(a).value.1;
      DecodeCons(a, c, n);
      DecodeAppend(a[n..], b);
      DecodeAppendStep(a, b, c, n);
    }
  }

  // ---------------------------------------------------------------------
  // `str::lines`: split at '\n'; a line that ended with "\r\n" loses the
  // '\r'; a final '\n' does not start an empty last line.
  // ---------------------------------------------------------------------

  /** Index of the first '\n' in `s`. */
  function FirstNewline(s: string): (r: Option<nat>)
    ensures r.Some? ==> r.value < |s| && s[r.value] == '\n'
    ensures r.Some? ==> forall k :: 0 <= k < r.value ==> s[k] != '\n'
    ensures r.None? ==> forall k :: 0 <= k < |s| ==> s[k] != '\n'
  {
    if s == [] then None
    else if s[0] == '\n' then Some(0)
    else match FirstNewline(s[1..])
      case None => None
      case Some(i) => Some(i + 1)
  }

  function StripCarriageReturn(line: string): string {
    if |line| > 0 && line[|line| - 1] == '\r' then line[..|line| - 1] else line
  }

  /**
   * `str::lines`: no line holds a '\n', there are no more lines than
   * characters, and only the empty text has none.
   */
  function Lines(s: string): (r: seq<string>)
    ensures |r| <= |s|
    ensures r == [] <==> s == []
    ensures forall k, j :: 0 <= k < |r| && 0 <= j < |r[k]| ==> r[k][j] != '\n'
    decreases |s|
  {
    if s == [] then []
    else match FirstNewline(s)
      case None => [s]
      case Some(i) => [StripCarriageReturn(s[..i])] + Lines(s[i + 1..])
  }

  /** Text that is empty or ends with a line break: appending to it starts a new line. */
  predicate EndsLine(s: string) {
    s == [] || s[|s| - 1] == '\n'
  }

  lemma FirstNewlineAppend(s: string, t: string)
    requires FirstNewline(s).Some?
    ensures FirstNewline(s + t) == FirstNewline(s)
  {
    var i := FirstNewline(s).value;
    var j := FirstNewline(s + t);
    assert (s + t)[i] == '\n';
    assert j.Some?;
  }

  /** A single line with its line break is one line for `lines()`. */
  lemma LinesOfOneLine(line: string)
    requires forall k :: 0 <= k < |line| ==> line[k] != '\n'
    ensures Lines(line + "\n") == [StripCarriageReturn(line)]
  {
    var t := line + "\n";
    assert t[|line|] == '\n';
    assert FirstNewline(t) == Some(|line|) by {
      var f := FirstNewline(t);
      assert f.Some?;
      assert t[f.value] == '\n';
    }
    assert t[..|line|] == line;
    assert t[|line| + 1..] == [];
  }

  /** `lines()` of text with a line break: the first line, then the lines after the break. */
  lemma LinesCons(s: string, i: nat)
    requires FirstNewline(s) == Some(i)
    ensures Lines(s) == [StripCarriageReturn(s[..i])] + Lines(s[i + 1..])
  {
  }

  lemma TakeAppend<T>(a: seq<T>, b: seq<T>, n: nat)
    requires n <= |a|
    ensures (a + b)[..n] == a[..n]
  {
  }

  /** One step of `LinesAppend`: from the text after the first line break, to the whole text. */
  lemma LinesAppendStep(s: string, t: string, i: nat)
    requires FirstNewline(s) == Some(i)
    requires Lines(s[i + 1..] + t) == Lines(s[i + 1..]) + Lines(t)
    ensures Lines(s + t) == Lines(s) + Lines(t)
  {
    FirstNewlineAppend(s, t);
    LinesCons(s, i);
    LinesCons(s + t, i);
    TakeAppend(s, t, i);
    DropAppend(s, t, i + 1);
    AppendAssociative([StripCarriageReturn(s[..i])], Lines(s[i + 1..]), Lines(t));
  }

  /** After text that ends a line, `lines()` of what follows is simply appended. */
  lemma {:induction false} LinesAppend(s: string, t: string)
    requires EndsLine(s)
    ensures Lines(s + t) == Lines(s) + Lines(t)
    decreases |s|
  {
    if s == [] {
      assert s + t == t;
    } else {
      assert FirstNewline(s).Some? by {
        assert s[|s| - 1] == '\n';
      }
      var i := FirstNewline(s).value;
      assert EndsLine(s[i + 1..]);
      LinesAppend(s[i + 1..], t);
      LinesAppendStep(s, t, i);
    }
  }

  /**
   * Appending a line and its line break to text that ends a line adds
   * exactly that line to what `lines()` yields, and the text still ends a line.
   */
  lemma LinesAppendLine(s: string, line: string)
    requires EndsLine(s)
    requires forall k :: 0 <= k < |line| ==> line[k] != '\n'
    ensures Lines(s + (line + "\n")) == Lines(s) + [StripCarriageReturn(line)]
    ensures EndsLine(s + (line + "\n"))
  {
    LinesAppend(s, line + "\n");
    LinesOfOneLine(line);
  }

  // ---------------------------------------------------------------------
  // ASCII lower-casing and the order of `String::cmp` (code point by code
  // point, a proper prefix first).
  // ---------------------------------------------------------------------

  function LowerChar(c: char): char {
    if 'A' <= c <= 'Z' then (c as int + 32) as char else c
  }

  /**
   * ASCII lower-casing: no capital A-Z is left, each one becomes its small
   * letter, and every other character is kept.
   */
  function Lower(s: string): (r: string)
    ensures |r| == |s|
    ensures forall i :: 0 <= i < |r| ==> !('A' <= r[i] <= 'Z')
    ensures forall i :: 0 <= i < |s| && 'A' <= s[i] <= 'Z' ==> r[i] as int == s[i] as int + 32
    ensures forall i :: 0 <= i < |s| && !('A' <= s[i] <= 'Z') ==> r[i] == s[i]
  {
    seq(|s|, i requires 0 <= i < |s| => LowerChar(s[i]))
  }

  /** Lower-casing twice is lower-casing once. */
  lemma LowerIdempotent(s: string)
    ensures Lower(Lower(s)) == Lower(s)
  {
  }

  /** `a <= b` in the lexicographic order of strings. */
  predicate LexLeq(a: string, b: string)
    decreases |a|
  {
    a == [] || (b != [] && (a[0] < b[0] || (a[0] == b[0] && LexLeq(a[1..], b[1..]))))
  }

  lemma {:induction false} LexLeqTotal(a: string, b: string)
    ensures LexLeq(a, b) || LexLeq(b, a)
    decreases |a|
  {
    if a != [] && b != [] && a[0] == b[0] {
      LexLeqTotal(a[1..], b[1..]);
    }
  }

  lemma {:induction false} LexLeqTransitive(a: string, b: string, c: string)
    requires LexLeq(a, b) && LexLeq(b, c)
    ensures LexLeq(a, c)
    decreases |a|
  {
    if a != [] && b != [] && c != [] && a[0] == b[0] == c[0] {
      LexLeqTransitive(a[1..], b[1..], c[1..]);
    }
  }
}
