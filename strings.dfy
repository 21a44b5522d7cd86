/** The few Python string operations the scripts use, on `seq<char>`:
    `s.split(c)[0]`, `s.split(c)`, `c.join(xs)` and `str(n)` for a natural number. */
module Strings {

  /** `s.split(sep)[0]`: the text of `s` before the first `sep`, or all of `s`. */
  function Before(s: string, sep: char): (r: string)
    ensures r <= s
    ensures sep !in r
    ensures |r| < |s| ==> s[|r|] == sep
  {
    if s == [] || s[0] == sep then [] else [s[0]] + Before(s[1..], sep)
  }

  /** Cutting at the first `sep` of `x + y` cuts inside `x` when `x` holds a `sep`. */
  lemma {:induction false} BeforeAppend(x: string, y: string, sep: char)
    ensures Before(x + y, sep) == if sep in x then Before(x, sep) else x + Before(y, sep)
  {
    if x == [] {
      assert x + y == y;
    } else {
      assert (x + y)[0] == x[0] && (x + y)[1..] == x[1..] + y;
      if x[0] != sep {
        BeforeAppend(x[1..], y, sep);
        assert x == [x[0]] + x[1..];
        assert (sep in x) == (sep in x[1..]);
      }
    }
  }

  /** `s.split(sep)`: the pieces of `s` between occurrences of `sep`. */
  function Split(s: string, sep: char): (r: seq<string>)
    ensures |r| >= 1
    decreases |s|
  {
    var head := Before(s, sep);
    if |head| == |s| then [s] else [head] + Split(s[|head| + 1..], sep)
  }

  /** `sep.join(xs)`. */
  function Join(xs: seq<string>, sep: char): (r: string)
  {
    if xs == [] then ""
    else if |xs| == 1 then xs[0]
    else xs[0] + [sep] + Join(xs[1..], sep)
  }

  /** Splitting a join gives back the joined pieces when none of them holds the separator. */
  lemma {:induction false} SplitJoin(xs: seq<string>, sep: char)
    requires |xs| >= 1
    requires forall k :: 0 <= k < |xs| ==> sep !in xs[k]
    ensures Split(Join(xs, sep), sep) == xs
  {
    if |xs| > 1 {
      var s := Join(xs, sep);
      var rest := Join(xs[1..], sep);
      assert s == xs[0] + ([sep] + rest);
      BeforeAppend(xs[0], [sep] + rest, sep);
      assert Before([sep] + rest, sep) == [];
      assert Before(s, sep) == xs[0];
      assert s[|xs[0]| + 1..] == rest;
      SplitJoin(xs[1..], sep);
      assert Split(s, sep) == [xs[0]] + Split(rest, sep);
      assert xs == [xs[0]] + xs[1..];
    } else {
      assert Join(xs, sep) == xs[0];
    }
  }

  predicate IsDigit(c: char) { '0' <= c <= '9' }

  function DigitChar(d: nat): (c: char)
    requires d < 10
    ensures IsDigit(c) && c as int - '0' as int == d
  {
    "0123456789"[d]
  }

  /** The value of a string of decimal digits. */
  function DecimalValue(s: string): nat
    requires forall k :: 0 <= k < |s| ==> IsDigit(s[k])
  {
    if s == [] then 0
    else
      assert IsDigit(s[|s| - 1]);
      DecimalValue(s[..|s| - 1]) * 10 + (s[|s| - 1] as int - '0' as int)
  }

  /** `str(n)`: the decimal numeral of `n`, without leading zeros. */
  function NatToString(n: nat): (r: string)
    ensures |r| >= 1 && (|r| > 1 ==> r[0] != '0')
    ensures forall k :: 0 <= k < |r| ==> IsDigit(r[k])
    ensures DecimalValue(r) == n
  {
    if n < 10 then [DigitChar(n)]
    else
      var r := NatToString(n / 10) + [DigitChar(n % 10)];
      assert r[..|r| - 1] == NatToString(n / 10);
      r
  }

  /** Distinct numbers have distinct numerals. */
  lemma NatToStringInjective(m: nat, n: nat)
    ensures NatToString(m) == NatToString(n) <==> m == n
  {
  }
}
