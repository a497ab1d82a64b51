/**
 * Two pieces of Python's string library the renderer relies on:
 * `str.split(sep)` with a one-character separator, and `str(n)` for a
 * natural number.
 */
module Strings {

  /** `s.split(c)`: the pieces between occurrences of `c`; never an empty list. */
  function Split(s: string, c: char): (parts: seq<string>)
    ensures |parts| >= 1
    decreases |s|
  {
    if s == [] then [[]]
    else
      var rest := Split(s[1..], c);
      if s[0] == c then [[]] + rest else [[s[0]] + rest[0]] + rest[1..]
  }

  /** `c.join(parts)`, the inverse of `Split`. */
  function Join(parts: seq<string>, c: char): string
  {
    if parts == [] then []
    else if |parts| == 1 then parts[0]
    else parts[0] + [c] + Join(parts[1..], c)
  }

  /** Splitting and joining again gives back the string. */
  lemma {:induction false} JoinSplit(s: string, c: char)
    ensures Join(Split(s, c), c) == s
    decreases |s|
  {
    if s != [] {
      var rest := Split(s[1..], c);
      JoinSplit(s[1..], c);
      if s[0] == c {
        assert s == [c] + s[1..];
      } else if |rest| == 1 {
        assert s == [s[0]] + s[1..];
      } else {
        assert Join(rest, c) == rest[0] + [c] + Join(rest[1..], c);
        assert s == [s[0]] + s[1..];
      }
    }
  }

  /** No piece contains the separator. */
  lemma {:induction false} SplitPiecesFree(s: string, c: char)
    ensures forall i :: 0 <= i < |Split(s, c)| ==> c !in Split(s, c)[i]
    decreases |s|
  {
    if s != [] {
      SplitPiecesFree(s[1..], c);
    }
  }

  /** Every character of a piece comes from the string. */
  lemma {:induction false} SplitPieceChars(s: string, c: char)
    ensures forall i, ch :: 0 <= i < |Split(s, c)| && ch in Split(s, c)[i] ==> ch in s
    decreases |s|
  {
    if s != [] {
      SplitPieceChars(s[1..], c);
      var rest := Split(s[1..], c);
      forall i, ch | 0 <= i < |Split(s, c)| && ch in Split(s, c)[i]
        ensures ch in s
      {
        assert s == [s[0]] + s[1..];
        if s[0] != c && i == 0 {
          assert Split(s, c)[0] == [s[0]] + rest[0];
        }
      }
    }
  }

  /** A string splits into more than one piece exactly when it holds the separator. */
  lemma {:induction false} SplitSeveral(s: string, c: char)
    ensures |Split(s, c)| > 1 <==> c in s
    decreases |s|
  {
    if s != [] {
      SplitSeveral(s[1..], c);
    }
  }

  /** A separator-free prefix `x` only lengthens the first piece. */
  lemma {:induction false} SplitFreePrefix(x: string, y: string, c: char)
    requires c !in x
    ensures Split(x + y, c) == [x + Split(y, c)[0]] + Split(y, c)[1..]
    decreases |x|
  {
    if x != [] {
      assert (x + y)[1..] == x[1..] + y;
      SplitFreePrefix(x[1..], y, c);
      var rest := Split(x[1..] + y, c);
      assert (x + y)[0] == x[0] && x[0] != c;
      assert Split(x + y, c) == [[x[0]] + rest[0]] + rest[1..];
      assert rest[1..] == Split(y, c)[1..];
      assert [x[0]] + rest[0] == x + Split(y, c)[0];
    } else {
      var parts := Split(y, c);
      assert x + y == y && x + parts[0] == parts[0];
      assert parts == [parts[0]] + parts[1..];
    }
  }

  /** A leading separator opens an empty first piece. */
  lemma SplitLeadingSeparator(y: string, c: char)
    ensures Split([c] + y, c) == [[]] + Split(y, c)
  {
    assert ([c] + y)[1..] == y;
  }

  function DigitChar(d: nat): (ch: char)
    requires d < 10
    ensures '0' <= ch <= '9'
  {
    "0123456789"[d]
  }

  /** `str(n)`: the decimal numeral of `n`, with no leading zero. */
  function NatToString(n: nat): (s: string)
    ensures |s| >= 1
    decreases n
  {
    if n < 10 then [DigitChar(n)] else NatToString(n / 10) + [DigitChar(n % 10)]
  }

  predicate IsDigits(s: string)
  {
    forall i :: 0 <= i < |s| ==> '0' <= s[i] <= '9'
  }

  /** Reads a decimal numeral back: the reference decoder for `NatToString`. */
  function ParseDecimal(s: string): nat
    requires IsDigits(s)
  {
    if s == [] then 0
    else 10 * ParseDecimal(s[..|s| - 1]) + (s[|s| - 1] - '0') as nat
  }

  /** A digit character reads back as its value. */
  lemma DigitValue(d: nat)
    requires d < 10
    ensures (DigitChar(d) - '0') as nat == d
  {
    assert "0123456789"[d] as int == '0' as int + d;
  }

  /** `NatToString` writes only digits, never a leading zero (except "0" itself), and reads back as `n`. */
  lemma {:induction false} NatToStringRoundTrip(n: nat)
    ensures IsDigits(NatToString(n))
    ensures |NatToString(n)| > 1 ==> NatToString(n)[0] != '0'
    ensures ParseDecimal(NatToString(n)) == n
    decreases n
  {
    var s := NatToString(n);
    if n >= 10 {
      NatToStringRoundTrip(n / 10);
      var p := NatToString(n / 10);
      var last := DigitChar(n % 10);
      assert s == p + [last];
      assert s[..|s| - 1] == p;
      assert s[0] == p[0];
      DigitValue(n % 10);
      assert ParseDecimal(s) == 10 * ParseDecimal(p) + (last - '0') as nat;
    } else {
      DigitValue(n);
      assert s[..0] == [];
    }
  }
}
