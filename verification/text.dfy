/** Text helpers shared by the file-name gate and the version bump:
    `String.prototype.split` / `Array.prototype.join` on one separator
    character, and decimal notation of naturals (`Number` on a digit string,
    `String` on a non-negative integer). */
module Text {

  /** `parts.join(sep)`. */
  function Join(parts: seq<string>, sep: char): string
  {
    if |parts| == 0 then []
    else if |parts| == 1 then parts[0]
    else parts[0] + [sep] + Join(parts[1..], sep)
  }

  /** `s.split(sep)`: the maximal separator-free pieces of `s`, in order;
      never empty (`"".split(".")` is `[""]`). */
  function Split(s: string, sep: char): (parts: seq<string>)
    ensures |parts| >= 1
    ensures forall i :: 0 <= i < |parts| ==> sep !in parts[i]
    ensures Join(parts, sep) == s
    decreases |s|
  {
    if s == [] then [[]]
    else
      var rest := Split(s[1..], sep);
      if s[0] == sep then
        assert [s[0]] + s[1..] == s;
        [[]] + rest
      else
        var parts := [[s[0]] + rest[0]] + rest[1..];
        assert sep !in [s[0]] + rest[0];
        assert Join(parts, sep) == [s[0]] + Join(rest, sep) by {
          if |rest| > 1 {
            assert parts[1..] == rest[1..];
          }
        }
        assert [s[0]] + s[1..] == s;
        parts
  }

  /** Without a separator there is exactly one piece: the whole text. */
  lemma {:induction false} SplitWithoutSeparator(s: string, sep: char)
    requires sep !in s
    ensures Split(s, sep) == [s]
    decreases |s|
  {
    if s != [] {
      assert sep !in s[1..];
      SplitWithoutSeparator(s[1..], sep);
    }
  }

  /** With a separator at `i` and none after it, there are at least two pieces
      and the last one is the text after `i`. */
  lemma {:induction false} SplitLast(s: string, sep: char, i: nat)
    requires i < |s| && s[i] == sep
    requires forall j :: i < j < |s| ==> s[j] != sep
    ensures |Split(s, sep)| >= 2
    ensures Split(s, sep)[|Split(s, sep)| - 1] == s[i + 1..]
    decreases i
  {
    if i == 0 {
      assert sep !in s[1..];
      SplitWithoutSeparator(s[1..], sep);
      var p: seq<string> := [[], s[1..]];
      assert Split(s, sep) == p;
    } else {
      SplitLast(s[1..], sep, i - 1);
      assert s[1..][i..] == s[i + 1..];
      SplitKeepsLast(s, sep);
    }
  }

  /** When the text after the first character already splits into several
      pieces, the first character does not change the last piece. */
  lemma SplitKeepsLast(s: string, sep: char)
    requires s != [] && |Split(s[1..], sep)| >= 2
    ensures |Split(s, sep)| >= 2
    ensures Split(s, sep)[|Split(s, sep)| - 1] == Split(s[1..], sep)[|Split(s[1..], sep)| - 1]
  {
    var rest := Split(s[1..], sep);
    var parts := Split(s, sep);
    if s[0] == sep {
      var p := [[]] + rest;
      assert parts == p;
      assert p[|p| - 1] == rest[|rest| - 1];
    } else {
      var p := [[s[0]] + rest[0]] + rest[1..];
      assert parts == p;
      assert |p| == |rest| && p[|p| - 1] == rest[1..][|rest| - 2];
    }
  }

  /** A separator-free piece followed by a separator splits off as the first piece. */
  lemma {:induction false} SplitAfterPiece(a: string, t: string, sep: char)
    requires sep !in a
    ensures Split(a + [sep] + t, sep) == [a] + Split(t, sep)
    decreases |a|
  {
    var s := a + [sep] + t;
    if a == [] {
      assert s == [sep] + t;
      assert s[1..] == t;
    } else {
      assert s[0] == a[0] && s[0] != sep;
      assert s[1..] == a[1..] + [sep] + t;
      SplitAfterPiece(a[1..], t, sep);
      assert [a[0]] + a[1..] == a;
    }
  }

  /** Splitting a join of separator-free pieces gives the pieces back. */
  lemma {:induction false} SplitJoin(parts: seq<string>, sep: char)
    requires |parts| >= 1
    requires forall i :: 0 <= i < |parts| ==> sep !in parts[i]
    ensures Split(Join(parts, sep), sep) == parts
    decreases |parts|
  {
    if |parts| == 1 {
      SplitWithoutSeparator(parts[0], sep);
    } else {
      SplitJoin(parts[1..], sep);
      SplitAfterPiece(parts[0], Join(parts[1..], sep), sep);
      assert [parts[0]] + parts[1..] == parts;
    }
  }

  /** The number of pieces is one more than the number of separators. */
  lemma {:induction false} SplitCount(s: string, sep: char)
    ensures |Split(s, sep)| == 1 + multiset(s)[sep]
    decreases |s|
  {
    if s != [] {
      SplitCount(s[1..], sep);
      assert s == [s[0]] + s[1..];
      assert multiset(s) == multiset([s[0]]) + multiset(s[1..]);
      var rest := Split(s[1..], sep);
      if s[0] == sep {
        var p := [[]] + rest;
        assert Split(s, sep) == p;
        assert |p| == |rest| + 1;
      } else {
        var p := [[s[0]] + rest[0]] + rest[1..];
        assert Split(s, sep) == p;
        assert |p| == |rest|;
      }
    }
  }

  predicate IsDigit(c: char) {
    '0' <= c <= '9'
  }

  function DigitValue(c: char): nat
    requires IsDigit(c)
  {
    c as int - '0' as int
  }

  /** A non-empty run of decimal digits. */
  predicate IsDecimal(s: string) {
    |s| > 0 && forall i :: 0 <= i < |s| ==> IsDigit(s[i])
  }

  /** `Number(s)` for a run of decimal digits (leading zeros allowed). */
  function DecimalValue(s: string): nat
    requires forall i :: 0 <= i < |s| ==> IsDigit(s[i])
    decreases |s|
  {
    if s == [] then 0
    else DecimalValue(s[..|s| - 1]) * 10 + DigitValue(s[|s| - 1])
  }

  /** `String(n)` for a natural: its canonical decimal notation, which
      `DecimalValue` reads back as `n`. */
  function NatToDecimal(n: nat): (s: string)
    ensures IsDecimal(s)
    ensures DecimalValue(s) == n
    ensures |s| > 1 ==> s[0] != '0'
  {
    var last := ['0' + (n % 10) as char];
    if n < 10 then last
    else
      var s := NatToDecimal(n / 10) + last;
      assert s[..|s| - 1] == NatToDecimal(n / 10);
      s
  }
}
