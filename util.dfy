/** Small shared vocabulary: optional values, results, integer helpers and
    Python's decimal rendering of integers (`str(n)`, `int(s)`). */
module Util {

  datatype Option<T> = None | Some(value: T)

  datatype Result<T, E> = Success(value: T) | Failure(error: E)

  function Min(a: int, b: int): int { if a <= b then a else b }

  function Max(a: int, b: int): int { if a >= b then a else b }

  /** Python's slice `s[:k]`: a negative `k` counts from the end, and both
      ends are clipped to the sequence. */
  function Prefix<T>(s: seq<T>, k: int): (r: seq<T>)
    ensures |r| <= |s| && r + s[|r|..] == s
    ensures k >= 0 ==> |r| == Min(k, |s|)
    ensures k < 0 ==> |s| - |r| == Min(-k, |s|)
  {
    if k >= 0 then s[..Min(k, |s|)] else s[..Max(0, |s| + k)]
  }

  /** A smaller slice bound of the same sign gives a prefix of what the
      larger one gives (across the sign it does not: `s[:-1]` is longer
      than `s[:0]`). */
  lemma PrefixMonotone<T>(s: seq<T>, k1: int, k2: int)
    requires 0 <= k1 <= k2 || k1 <= k2 < 0
    ensures |Prefix(s, k1)| <= |Prefix(s, k2)|
    ensures Prefix(s, k2)[..|Prefix(s, k1)|] == Prefix(s, k1)
  {
    var a := Prefix(s, k1);
    var b := Prefix(s, k2);
    assert a == s[..|a|] by { assert s == a + s[|a|..]; }
    assert b == s[..|b|] by { assert s == b + s[|b|..]; }
  }

  /** Python's `sep.join(xs)`. */
  function Join(sep: string, xs: seq<string>): string {
    if |xs| == 0 then ""
    else if |xs| == 1 then xs[0]
    else xs[0] + sep + Join(sep, xs[1..])
  }

  /** Joining one more piece appends the separator and the piece. */
  lemma {:induction false} JoinSnoc(sep: string, xs: seq<string>, y: string)
    requires |xs| > 0
    ensures Join(sep, xs + [y]) == Join(sep, xs) + sep + y
    decreases |xs|
  {
    var t := xs[1..];
    assert (xs + [y])[0] == xs[0] && (xs + [y])[1..] == t + [y];
    if |xs| == 1 {
      assert Join(sep, t + [y]) == y;
    } else {
      JoinSnoc(sep, t, y);
      var j := Join(sep, t);
      calc {
        Join(sep, xs + [y]);
        xs[0] + sep + Join(sep, t + [y]);
        xs[0] + sep + (j + sep + y);
        { assert xs[0] + sep + (j + sep + y) == xs[0] + sep + j + sep + y; }
        xs[0] + sep + j + sep + y;
        Join(sep, xs) + sep + y;
      }
    }
  }

  predicate IsDigitChar(c: char) { '0' <= c <= '9' }

  /** Python's `s.isdigit()` restricted to ASCII digits: non-empty, digits only. */
  predicate IsDecimal(s: string) {
    |s| > 0 && forall i :: 0 <= i < |s| ==> IsDigitChar(s[i])
  }

  function DigitChar(d: nat): (c: char)
    requires d < 10
    ensures IsDigitChar(c) && (c as int) - ('0' as int) == d
  {
    ['0', '1', '2', '3', '4', '5', '6', '7', '8', '9'][d]
  }

  /** Python's `int(s)` on a string of ASCII digits. */
  function DecimalValue(s: string): nat
    requires forall i :: 0 <= i < |s| ==> IsDigitChar(s[i])
  {
    if s == [] then 0
    else
      assert IsDigitChar(s[|s| - 1]);
      DecimalValue(s[..|s| - 1]) * 10 + ((s[|s| - 1] as int) - ('0' as int))
  }

  /** Python's `str(n)` for a natural number: its decimal digits. */
  function NatToString(n: nat): (s: string)
    ensures IsDecimal(s)
    ensures s[0] == '0' ==> s == "0"
    decreases n
  {
    if n < 10 then [DigitChar(n)] else NatToString(n / 10) + [DigitChar(n % 10)]
  }

  /** Python's `str(i)` for any integer. */
  function IntToString(i: int): string {
    if i < 0 then "-" + NatToString(-i) else NatToString(i)
  }

  /** `int(str(n)) == n`: the decimal rendering loses nothing. */
  lemma {:induction false} DecimalValueOfNatToString(n: nat)
    ensures DecimalValue(NatToString(n)) == n
    decreases n
  {
    if n >= 10 {
      var s := NatToString(n);
      assert s[..|s| - 1] == NatToString(n / 10);
      DecimalValueOfNatToString(n / 10);
    }
  }

  /** Distinct numbers are rendered as distinct strings. */
  lemma NatToStringInjective(m: nat, n: nat)
    ensures NatToString(m) == NatToString(n) ==> m == n
  {
    DecimalValueOfNatToString(m);
    DecimalValueOfNatToString(n);
  }
}
