/** The optional post-processing of index.ts's printed output: one pass of
    the case-insensitive global pattern `\\u([\dA-F]{4})|( {4})`, which turns
    each `\uXXXX` escape into the code unit it names and each run of four
    spaces into two. JavaScript strings are sequences of UTF-16 code units. */
module Pretty {

  type CodeUnit = x: int | 0 <= x < 0x1_0000

  const Backslash: CodeUnit := 0x5C
  const Space: CodeUnit := 0x20

  predicate IsU(c: CodeUnit) {
    c == 0x75 || c == 0x55   // `u` or `U`: the pattern carries the `i` flag
  }

  /** `[\dA-F]` under the `i` flag: ASCII digits and the letters a-f in either case. */
  predicate IsHexDigit(c: CodeUnit) {
    (0x30 <= c <= 0x39) || (0x41 <= c <= 0x46) || (0x61 <= c <= 0x66)
  }

  function HexDigitValue(c: CodeUnit): (v: nat)
    requires IsHexDigit(c)
    ensures v < 16
  {
    if c <= 0x39 then c - 0x30
    else if c <= 0x46 then c - 0x41 + 10
    else c - 0x61 + 10
  }

  /** `parseInt(hex, 16)` on four hex digits, most significant first. */
  function HexValue(h: seq<CodeUnit>): (v: CodeUnit)
    requires |h| == 4 && forall i :: 0 <= i < 4 ==> IsHexDigit(h[i])
  {
    ((HexDigitValue(h[0]) * 16 + HexDigitValue(h[1])) * 16 + HexDigitValue(h[2])) * 16 + HexDigitValue(h[3])
  }

  /** The first alternative matches at `i`: a backslash, `u`, four hex digits. */
  predicate EscapeAt(s: seq<CodeUnit>, i: nat) {
    i + 6 <= |s| && s[i] == Backslash && IsU(s[i + 1]) &&
    IsHexDigit(s[i + 2]) && IsHexDigit(s[i + 3]) && IsHexDigit(s[i + 4]) && IsHexDigit(s[i + 5])
  }

  /** The second alternative matches at `i`: four spaces. */
  predicate IndentAt(s: seq<CodeUnit>, i: nat) {
    i + 4 <= |s| && s[i] == Space && s[i + 1] == Space && s[i + 2] == Space && s[i + 3] == Space
  }

  /** `pretty`: scanning left to right, the escape alternative is tried
      before the indentation one, and scanning resumes after each match. */
  function Pretty(s: seq<CodeUnit>): (r: seq<CodeUnit>)
    ensures |r| <= |s|
    ensures (exists i :: 0 <= i < |s| && (EscapeAt(s, i) || IndentAt(s, i))) ==> |r| < |s|
    decreases |s|
  {
    if s == [] then []
    else if EscapeAt(s, 0) then
      ShiftMatch(s, 6);
      [HexValue(s[2..6])] + Pretty(s[6..])
    else if IndentAt(s, 0) then
      ShiftMatch(s, 4);
      [Space, Space] + Pretty(s[4..])
    else
      ShiftMatch(s, 1);
      [s[0]] + Pretty(s[1..])
  }

  /** A match in `s` at or after `k` is a match in `s[k..]`; one before `k`
      has already been consumed. */
  lemma ShiftMatch(s: seq<CodeUnit>, k: nat)
    requires k <= |s|
    ensures forall i :: k <= i < |s| && EscapeAt(s, i) ==> EscapeAt(s[k..], i - k)
    ensures forall i :: k <= i < |s| && IndentAt(s, i) ==> IndentAt(s[k..], i - k)
  {
  }

  /** Text without any match is left exactly as it is, and text with one is
      changed: the matches are precisely what `pretty` acts on. */
  lemma {:induction false} PrettyIdentity(s: seq<CodeUnit>)
    ensures Pretty(s) == s <==> forall i :: 0 <= i < |s| ==> !EscapeAt(s, i) && !IndentAt(s, i)
    decreases |s|
  {
    if s != [] && forall i :: 0 <= i < |s| ==> !EscapeAt(s, i) && !IndentAt(s, i) {
      assert !EscapeAt(s, 0) && !IndentAt(s, 0);
      forall i | 0 <= i < |s[1..]|
        ensures !EscapeAt(s[1..], i) && !IndentAt(s[1..], i)
      {
        assert !EscapeAt(s, i + 1) && !IndentAt(s, i + 1);
      }
      PrettyIdentity(s[1..]);
      assert s == [s[0]] + s[1..];
    }
  }

  /** The upper-case hex digit of a value below 16. */
  function HexDigit(v: nat): (c: CodeUnit)
    requires v < 16
    ensures IsHexDigit(c) && HexDigitValue(c) == v
  {
    if v < 10 then 0x30 + v else 0x41 + v - 10
  }

  /** The `\uXXXX` escape of one code unit, as a printer writes it. */
  function EscapeUnit(c: CodeUnit): (e: seq<CodeUnit>)
    ensures |e| == 6 && EscapeAt(e, 0) && HexValue(e[2..6]) == c
  {
    var a := c / 16;
    var b := a / 16;
    var d := b / 16;
    assert c == a * 16 + c % 16 && a == b * 16 + a % 16 && b == d * 16 + b % 16 && d < 16;
    var e := [Backslash, 0x75, HexDigit(d), HexDigit(b % 16), HexDigit(a % 16), HexDigit(c % 16)];
    assert HexValue(e[2..6]) == ((d * 16 + b % 16) * 16 + a % 16) * 16 + c % 16;
    e
  }

  /** Every code unit written as its escape. */
  function Escape(t: seq<CodeUnit>): (e: seq<CodeUnit>)
    ensures |e| == 6 * |t|
  {
    if t == [] then [] else EscapeUnit(t[0]) + Escape(t[1..])
  }

  /** `pretty` decodes escaped text back to the code units it names. */
  lemma {:induction false} PrettyDecodesEscapes(t: seq<CodeUnit>)
    ensures Pretty(Escape(t)) == t
  {
    if t != [] {
      var e := Escape(t);
      assert e[..6] == EscapeUnit(t[0]);
      assert e[6..] == Escape(t[1..]);
      assert EscapeAt(e, 0);
      assert e[2..6] == EscapeUnit(t[0])[2..6];
      PrettyDecodesEscapes(t[1..]);
      assert t == [t[0]] + t[1..];
    }
  }

  function Spaces(n: nat): (r: seq<CodeUnit>)
    ensures |r| == n && forall i :: 0 <= i < n ==> r[i] == Space
  {
    if n == 0 then [] else [Space] + Spaces(n - 1)
  }

  /** Four-space indentation becomes two-space indentation, and a remainder
      of fewer than four spaces is kept. */
  lemma {:induction false} PrettyHalvesIndentation(k: nat, rest: nat)
    requires rest < 4
    ensures Pretty(Spaces(4 * k + rest)) == Spaces(2 * k + rest)
  {
    var s := Spaces(4 * k + rest);
    if k == 0 {
      PrettyIdentity(s);
    } else {
      assert IndentAt(s, 0) && !EscapeAt(s, 0);
      assert s[4..] == Spaces(4 * (k - 1) + rest);
      PrettyHalvesIndentation(k - 1, rest);
      assert [Space, Space] + Spaces(2 * (k - 1) + rest) == Spaces(2 * k + rest);
    }
  }
}
