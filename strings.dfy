/**
 * The string operations the core relies on: JavaScript's `split` and `join` on a
 * one-character separator, `endsWith`, and the decimal rendering of integers that
 * JavaScript's `+` on a string and Java's string concatenation perform.
 */
module Strings {

  /** `s.split(sep)`: the pieces between separators; never empty, `"".split(".")` is `[""]`. */
  function Split(s: string, sep: char): (parts: seq<string>)
    ensures |parts| > 0
    ensures forall i :: 0 <= i < |parts| ==> sep !in parts[i]
  {
    if s == [] then [""]
    else
      var rest := Split(s[1..], sep);
      if s[0] == sep then [""] + rest
      else [[s[0]] + rest[0]] + rest[1..]
  }

  /** `parts.join(sep)`: the pieces with one separator between neighbours. */
  function Join(parts: seq<string>, sep: char): string
  {
    if parts == [] then ""
    else if |parts| == 1 then parts[0]
    else parts[0] + [sep] + Join(parts[1..], sep)
  }

  lemma AppendAssociative<T>(a: seq<T>, b: seq<T>, c: seq<T>)
    ensures a + (b + c) == (a + b) + c
  {
  }

  /** Three separator-free pieces joined by the separator split back into those pieces. */
  lemma SplitThree(x: string, y: string, z: string, sep: char)
    requires sep !in x && sep !in y && sep !in z
    ensures Split(x + [sep] + y + [sep] + z, sep) == [x, y, z]
  {
    var parts := [x, y, z];
    assert forall i :: 0 <= i < |parts| ==> sep !in parts[i];
    SplitJoin(parts, sep);
    assert parts[1..] == [y, z] && [y, z][1..] == [z];
    assert Join([z], sep) == z;
    assert Join([y, z], sep) == y + [sep] + z;
    assert Join(parts, sep) == x + [sep] + (y + [sep] + z);
    AppendAssociative(x + [sep], y + [sep], z);
    AppendAssociative(x + [sep], y, [sep]);
  }

  /** Joining what was split gives the string back. */
  lemma {:induction false} JoinSplit(s: string, sep: char)
    ensures Join(Split(s, sep), sep) == s
  {
    if s != [] {
      var rest := Split(s[1..], sep);
      JoinSplit(s[1..], sep);
      if s[0] == sep {
        assert Split(s, sep) == [""] + rest;
        assert ([""] + rest)[1..] == rest;
      } else {
        var parts := [[s[0]] + rest[0]] + rest[1..];
        assert Split(s, sep) == parts;
        if |rest| > 1 {
          assert parts[1..] == rest[1..];
          assert Join(rest, sep) == rest[0] + [sep] + Join(rest[1..], sep);
        }
      }
    }
  }

  /** Splitting a separator-free prefix onto what follows glues it to the first piece. */
  lemma {:induction false} SplitSeparatorFreePrefix(p: string, x: string, sep: char)
    requires sep !in p
    ensures Split(p + x, sep) == [p + Split(x, sep)[0]] + Split(x, sep)[1..]
  {
    if p != [] {
      assert (p + x)[1..] == p[1..] + x;
      SplitSeparatorFreePrefix(p[1..], x, sep);
      assert [p[0]] + (p[1..] + Split(x, sep)[0]) == p + Split(x, sep)[0];
    } else {
      assert p + x == x;
      assert p + Split(x, sep)[0] == Split(x, sep)[0];
      assert Split(x, sep) == [Split(x, sep)[0]] + Split(x, sep)[1..];
    }
  }

  /** Splitting what was joined gives the pieces back, when no piece holds the separator. */
  lemma {:induction false} SplitJoin(parts: seq<string>, sep: char)
    requires |parts| > 0
    requires forall i :: 0 <= i < |parts| ==> sep !in parts[i]
    ensures Split(Join(parts, sep), sep) == parts
  {
    if |parts| == 1 {
      SplitSeparatorFreePrefix(parts[0], "", sep);
      assert parts[0] + "" == parts[0];
    } else {
      var tail := Join(parts[1..], sep);
      SplitJoin(parts[1..], sep);
      assert parts[0] + [sep] + tail == parts[0] + ([sep] + tail);
      SplitSeparatorFreePrefix(parts[0], [sep] + tail, sep);
      assert ([sep] + tail)[1..] == tail;
      assert Split([sep] + tail, sep) == [""] + parts[1..];
      assert parts[0] + "" == parts[0];
      assert parts == [parts[0]] + parts[1..];
    }
  }

  /** `s.endsWith(suffix)`. */
  predicate EndsWith(s: string, suffix: string) {
    |suffix| <= |s| && s[|s| - |suffix|..] == suffix
  }

  /** A suffix stays a suffix when more is put in front. */
  lemma EndsWithAfterPrefix(p: string, s: string)
    ensures EndsWith(p + s, s)
  {
    assert (p + s)[|p + s| - |s|..] == s;
  }

  predicate IsDigit(c: char) {
    '0' <= c <= '9'
  }

  predicate AllDigits(s: string) {
    forall i :: 0 <= i < |s| ==> IsDigit(s[i])
  }

  function DigitChar(d: nat): (c: char)
    requires d < 10
    ensures IsDigit(c)
  {
    ('0' as int + d) as char
  }

  function DigitValue(c: char): (d: nat)
    requires IsDigit(c)
    ensures d < 10
  {
    c as int - '0' as int
  }

  /** The decimal digits of `n`, most significant first, without leading zeros. */
  function NatToString(n: nat): (s: string)
    ensures |s| > 0 && AllDigits(s)
  {
    if n < 10 then [DigitChar(n)] else NatToString(n / 10) + [DigitChar(n % 10)]
  }

  /** The value of a string of decimal digits. */
  function DigitsValue(s: string): nat
    requires AllDigits(s)
  {
    if s == [] then 0 else 10 * DigitsValue(s[..|s| - 1]) + DigitValue(s[|s| - 1])
  }

  /** Reading back the digits of `n` gives `n`. */
  lemma {:induction false} NatToStringRoundTrip(n: nat)
    ensures DigitsValue(NatToString(n)) == n
  {
    if n >= 10 {
      var s := NatToString(n);
      NatToStringRoundTrip(n / 10);
      assert s[..|s| - 1] == NatToString(n / 10);
    }
  }

  /** Java's `Integer.toString` and JavaScript's `String(n)` of an integer: a minus sign, then the digits. */
  function IntToString(i: int): (s: string)
    ensures |s| > 0
    ensures i >= 0 ==> AllDigits(s)
    ensures i < 0 ==> s[0] == '-' && AllDigits(s[1..])
  {
    if i < 0 then "-" + NatToString(-i) else NatToString(i)
  }

  /** Distinct integers render to distinct strings. */
  lemma IntToStringInjective(i: int, j: int)
    requires IntToString(i) == IntToString(j)
    ensures i == j
  {
    if i < 0 && j < 0 {
      assert IntToString(i)[1..] == NatToString(-i);
      assert IntToString(j)[1..] == NatToString(-j);
      NatToStringRoundTrip(-i);
      NatToStringRoundTrip(-j);
    } else if i >= 0 && j >= 0 {
      NatToStringRoundTrip(i);
      NatToStringRoundTrip(j);
    }
  }
}
