/** JavaScript strings as sequences of UTF-16 code units, and their code-point view. */
module Text {

  /** One UTF-16 code unit, the element `charCodeAt` returns. */
  newtype CodeUnit = x: int | 0 <= x < 0x1_0000

  /** A JavaScript string: `length` counts these code units. */
  type JsString = seq<CodeUnit>

  predicate IsHighSurrogate(u: CodeUnit) { 0xD800 <= u <= 0xDBFF }
  predicate IsLowSurrogate(u: CodeUnit) { 0xDC00 <= u <= 0xDFFF }

  /** The UTF-16 encoding of a Dafny string (a sequence of Unicode scalar values). */
  function Utf16(s: string): (r: JsString)
    ensures |r| >= |s|
  {
    if s == [] then []
    else if s[0] as int < 0x1_0000 then [s[0] as int as CodeUnit] + Utf16(s[1..])
    else [HighSurrogate(s[0] as int), LowSurrogate(s[0] as int)] + Utf16(s[1..])
  }

  function HighSurrogate(c: int): CodeUnit
    requires 0x1_0000 <= c < 0x11_0000
  {
    (0xD800 + (c - 0x1_0000) / 0x400) as CodeUnit
  }

  function LowSurrogate(c: int): CodeUnit
    requires 0x1_0000 <= c
  {
    (0xDC00 + (c - 0x1_0000) % 0x400) as CodeUnit
  }

  /**
   * The code points a regular expression with the `u` flag iterates over:
   * a high surrogate followed by a low surrogate is one code point, any other
   * code unit (including a lone surrogate) stands for itself.
   */
  function CodePoints(u: JsString): (r: seq<int>)
    ensures |r| <= |u|
    ensures u != [] ==> r != []
    decreases |u|
  {
    if u == [] then []
    else if |u| >= 2 && IsHighSurrogate(u[0]) && IsLowSurrogate(u[1]) then
      [0x1_0000 + (u[0] as int - 0xD800) * 0x400 + (u[1] as int - 0xDC00)] + CodePoints(u[2..])
    else [u[0] as int] + CodePoints(u[1..])
  }

  /** The scalar values of a Dafny string, as the integers a `u`-flag regular expression sees. */
  function Ords(s: string): (r: seq<int>)
    ensures |r| == |s| && forall i :: 0 <= i < |s| ==> r[i] == s[i] as int
  {
    seq(|s|, i requires 0 <= i < |s| => s[i] as int)
  }

  /** Decoding the code points of an encoded string gives back its scalar values. */
  lemma {:induction false} CodePointsOfUtf16(s: string)
    ensures CodePoints(Utf16(s)) == Ords(s)
  {
    if s != [] {
      CodePointsOfUtf16(s[1..]);
      assert Ords(s) == [s[0] as int] + Ords(s[1..]);
      var c := s[0] as int;
      if c < 0x1_0000 {
        assert !(0xD800 <= c <= 0xDFFF);
        var u := Utf16(s);
        assert u[0] == c as CodeUnit && u[1..] == Utf16(s[1..]);
      } else {
        var u := Utf16(s);
        assert u[0] == HighSurrogate(c) && u[1] == LowSurrogate(c);
        assert u[2..] == Utf16(s[1..]);
      }
    }
  }
}
