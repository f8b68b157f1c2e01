/** String helpers shared by the subtitle transform and the timestamp parser:
    JavaScript's `split` and `join` on a one-character separator, character
    counting, and decimal digit strings. */
module Strings {

  /** The number of occurrences of `c` in `s`. */
  function Count(s: string, c: char): (n: nat)
    ensures n <= |s|
    ensures n == 0 <==> c !in s
  {
    if s == [] then 0 else (if s[0] == c then 1 else 0) + Count(s[1..], c)
  }

  lemma {:induction false} CountAppend(a: string, b: string, c: char)
    ensures Count(a + b, c) == Count(a, c) + Count(b, c)
  {
    if a == [] {
      assert a + b == b;
    } else {
      assert (a + b)[1..] == a[1..] + b;
      CountAppend(a[1..], b, c);
    }
  }

  /** Two strings of equal length that agree, position by position, on where
      `c` occurs hold the same number of `c`. */
  lemma {:induction false} CountPointwise(s: string, t: string, c: char)
    requires |s| == |t|
    requires forall k :: 0 <= k < |s| ==> (s[k] == c <==> t[k] == c)
    ensures Count(s, c) == Count(t, c)
  {
    if s != [] {
      CountPointwise(s[1..], t[1..], c);
    }
  }

  /** `s.split(sep)`: the pieces of `s` between occurrences of `sep`, in order.
      There is always at least one piece, and one more piece than separators. */
  function Split(s: string, sep: char): (parts: seq<string>)
    ensures |parts| == Count(s, sep) + 1
    ensures forall i :: 0 <= i < |parts| ==> sep !in parts[i]
  {
    if s == [] then [[]]
    else
      var rest := Split(s[1..], sep);
      if s[0] == sep then [[]] + rest
      else [[s[0]] + rest[0]] + rest[1..]
  }

  /** `parts.join(sep)`: the pieces with one `sep` between neighbours. */
  function Join(parts: seq<string>, sep: char): (s: string)
    ensures |parts| > 0 ==> Count(s, sep) >= |parts| - 1
  {
    if |parts| == 0 then []
    else if |parts| == 1 then parts[0]
    else
      CountAppend(parts[0] + [sep], Join(parts[1..], sep), sep);
      CountAppend(parts[0], [sep], sep);
      parts[0] + [sep] + Join(parts[1..], sep)
  }

  /** Joining the pieces of a split gives back the string. */
  lemma {:induction false} JoinSplit(s: string, sep: char)
    ensures Join(Split(s, sep), sep) == s
  {
    if s != [] {
      var rest := Split(s[1..], sep);
      var parts := Split(s, sep);
      JoinSplit(s[1..], sep);
      if s[0] == sep {
        assert parts == [[]] + rest;
        assert parts[1..] == rest;
        assert Join(parts, sep) == [] + [sep] + Join(rest, sep);
      } else if |rest| == 1 {
        assert parts == [[s[0]] + rest[0]];
      } else {
        assert parts == [[s[0]] + rest[0]] + rest[1..];
        assert parts[1..] == rest[1..];
        assert Join(rest, sep) == rest[0] + [sep] + Join(rest[1..], sep);
        assert Join(parts, sep) == [s[0]] + rest[0] + [sep] + Join(rest[1..], sep);
      }
      assert [s[0]] + s[1..] == s;
    }
  }

  /** A string without the separator splits into itself alone. */
  lemma {:induction false} SplitWithoutSeparator(a: string, sep: char)
    requires sep !in a
    ensures Split(a, sep) == [a]
  {
    if a != [] {
      SplitWithoutSeparator(a[1..], sep);
      assert [a[0]] + a[1..] == a;
    }
  }

  /** Splitting at the first separator peels off the piece before it. */
  lemma {:induction false} SplitAtFirst(a: string, sep: char, b: string)
    requires sep !in a
    ensures Split(a + [sep] + b, sep) == [a] + Split(b, sep)
  {
    var s := a + [sep] + b;
    if a == [] {
      assert s[0] == sep && s[1..] == b;
    } else {
      assert s[0] == a[0] && s[1..] == a[1..] + [sep] + b;
      SplitAtFirst(a[1..], sep, b);
      assert [a[0]] + a[1..] == a;
    }
  }

  /** Splitting a join of separator-free pieces gives back the pieces. */
  lemma {:induction false} SplitJoin(parts: seq<string>, sep: char)
    requires |parts| > 0
    requires forall i :: 0 <= i < |parts| ==> sep !in parts[i]
    ensures Split(Join(parts, sep), sep) == parts
  {
    if |parts| == 1 {
      SplitWithoutSeparator(parts[0], sep);
    } else {
      SplitJoin(parts[1..], sep);
      SplitAtFirst(parts[0], sep, Join(parts[1..], sep));
    }
  }

  /** A character matched by `\d` in a JavaScript regular expression without
      the `u` flag, and accepted by `Number`/`parseInt` as a decimal digit. */
  predicate IsDigit(c: char) {
    '0' <= c <= '9'
  }

  predicate AllDigits(s: string) {
    forall i :: 0 <= i < |s| ==> IsDigit(s[i])
  }

  function Pow10(n: nat): (p: nat)
    ensures p >= 1
  {
    if n == 0 then 1 else 10 * Pow10(n - 1)
  }

  /** The decimal value of a digit string, most significant digit first. */
  function DigitsValue(s: string): (n: nat)
    requires AllDigits(s)
    ensures n < Pow10(|s|)
  {
    if s == [] then 0
    else
      var high := DigitsValue(s[..|s| - 1]);
      var d := (s[|s| - 1] as int) - ('0' as int);
      assert high * 10 <= (Pow10(|s| - 1) - 1) * 10;
      high * 10 + d
  }

  /** One digit is worth its distance from `'0'`. */
  lemma DigitValue(c: char)
    requires IsDigit(c)
    ensures DigitsValue([c]) == (c as int) - ('0' as int)
  {
    assert [c][..0] == [];
  }

  /** The value of digits written after others: the leading digits are worth
      a power of ten per following digit. Together with `DigitValue`, this
      makes `DigitsValue` the positional decimal value, most significant
      digit first. */
  lemma {:induction false} DigitsValueAppend(a: string, b: string)
    requires AllDigits(a) && AllDigits(b)
    ensures AllDigits(a + b)
    ensures DigitsValue(a + b) == DigitsValue(a) * Pow10(|b|) + DigitsValue(b)
    decreases |b|
  {
    var c := a + b;
    assert forall i :: 0 <= i < |c| ==> IsDigit(c[i]) by {
      forall i | 0 <= i < |c| ensures IsDigit(c[i]) {
        if i < |a| { assert c[i] == a[i]; } else { assert c[i] == b[i - |a|]; }
      }
    }
    if b == [] {
      assert c == a;
    } else {
      var b' := b[..|b| - 1];
      assert c[..|c| - 1] == a + b';
      assert AllDigits(b') by {
        forall i | 0 <= i < |b'| ensures IsDigit(b'[i]) { assert b'[i] == b[i]; }
      }
      DigitsValueAppend(a, b');
      var d := (b[|b| - 1] as int) - ('0' as int);
      assert DigitsValue(c) == DigitsValue(a + b') * 10 + d;
      assert DigitsValue(b) == DigitsValue(b') * 10 + d;
      ShiftDecimal(DigitsValue(a), Pow10(|b'|), DigitsValue(b'), d);
    }
  }

  lemma ShiftDecimal(high: int, p: int, low: int, d: int)
    ensures (high * p + low) * 10 + d == high * (10 * p) + (low * 10 + d)
  {
  }

}
