/**
 * The JavaScript number operations the trackers rely on: `parseInt(s, 10)`,
 * `parseFloat(s)`, `Math.round` and `String(n)`. Values are exact: integers
 * are unbounded and `parseFloat` yields a rational, so the double-precision
 * rounding of the runtime is not part of this model.
 */
module Numbers {
  import opened Wrappers
  import opened Text

  /** A JavaScript number as the trackers produce one: an integer, or NaN. */
  datatype Number = Int(value: int) | NaN

  predicate AllDigits(s: string) { forall i :: 0 <= i < |s| ==> IsDigit(s[i]) }

  function DigitValue(c: char): (d: nat)
    requires IsDigit(c)
    ensures d < 10
  {
    c as int - '0' as int
  }

  function DigitChar(d: nat): (c: char)
    requires d < 10
    ensures IsDigit(c) && DigitValue(c) == d
  {
    ('0' as int + d) as char
  }

  /** The value of a string of decimal digits, most significant first. */
  function DigitsValue(ds: string): nat
    requires AllDigits(ds)
    decreases |ds|
  {
    if ds == [] then 0 else DigitsValue(ds[..|ds| - 1]) * 10 + DigitValue(ds[|ds| - 1])
  }

  /** The end of the run of decimal digits that starts at `i`. */
  function DigitRunEnd(s: string, i: nat): (j: nat)
    requires i <= |s|
    ensures i <= j <= |s|
    ensures forall k :: i <= k < j ==> IsDigit(s[k])
    ensures j == |s| || !IsDigit(s[j])
    decreases |s| - i
  {
    if i < |s| && IsDigit(s[i]) then DigitRunEnd(s, i + 1) else i
  }

  /** A run of digits ending where a non-digit (or the end) follows is the run `DigitRunEnd` finds. */
  lemma {:induction false} DigitRunEndIs(s: string, i: nat, j: nat)
    requires i <= j <= |s|
    requires forall k :: i <= k < j ==> IsDigit(s[k])
    requires j == |s| || !IsDigit(s[j])
    ensures DigitRunEnd(s, i) == j
    decreases j - i
  {
    if i < j { DigitRunEndIs(s, i + 1, j); }
  }

  // ---------------------------------------------------------------------
  // String(n)
  // ---------------------------------------------------------------------

  /** The decimal digits of `n`, without leading zeros. */
  function NatToString(n: nat): (r: string)
    ensures |r| >= 1 && AllDigits(r) && DigitsValue(r) == n
    ensures r[0] == '0' <==> n == 0
    ensures n == 0 ==> r == "0"
    decreases n
  {
    if n < 10 then [DigitChar(n)]
    else
      var p := NatToString(n / 10);
      var r := p + [DigitChar(n % 10)];
      assert r[..|r| - 1] == p;
      r
  }

  /** `String(n)` for an integer: its canonical decimal form, with a minus sign when negative. */
  function IntToString(n: int): (r: string)
    ensures |r| >= 1 && (r[0] == '-' <==> n < 0)
    ensures AllDigits(if n < 0 then r[1..] else r)
  {
    if n < 0 then "-" + NatToString(-n) else NatToString(n)
  }

  // ---------------------------------------------------------------------
  // parseInt(s, 10) and parseFloat(s)
  // ---------------------------------------------------------------------

  /** An optional leading sign: its factor and the index after it. */
  function SignPrefix(s: string): (r: (int, nat))
    ensures r.1 <= 1 && r.1 <= |s| && (r.0 == 1 || r.0 == -1)
  {
    if |s| > 0 && s[0] == '-' then (-1, 1)
    else if |s| > 0 && s[0] == '+' then (1, 1)
    else (1, 0)
  }

  /**
   * `parseInt(s, 10)` for text with no leading white space: the optional
   * sign and the digits after it, or `None` (NaN) when there is no digit.
   */
  function ParseIntPrefix(s: string): (r: Option<int>)
    ensures var i := if |s| > 0 && (s[0] == '-' || s[0] == '+') then 1 else 0;
            r.None? <==> i == |s| || !IsDigit(s[i])
    ensures r.Some? && r.value < 0 ==> s[0] == '-'
  {
    var (sign, i) := SignPrefix(s);
    var j := DigitRunEnd(s, i);
    if j == i then None
    else
      var v: int := DigitsValue(s[i..j]);
      Some(if sign < 0 then -v else v)
  }

  /** `parseInt` reads back what `String` writes. */
  lemma {:induction false} IntToStringRoundTrip(n: int)
    ensures ParseIntPrefix(IntToString(n)) == Some(n)
  {
    var r := IntToString(n);
    var i := if n < 0 then 1 else 0;
    DigitRunEndIs(r, i, |r|);
    if n < 0 { assert r[1..|r|] == NatToString(-n); } else { assert r[0..|r|] == r; }
  }

  /** `parseInt` reads the leading digits and ignores whatever follows them: "12.7" is 12, "007x" is 7. */
  lemma {:induction false} ParseIntOfDigits(ds: string, tail: string)
    requires |ds| >= 1 && AllDigits(ds)
    requires tail == [] || !IsDigit(tail[0])
    ensures ParseIntPrefix(ds + tail) == Some(DigitsValue(ds))
  {
    var s := ds + tail;
    DigitRunEndIs(s, 0, |ds|);
    assert s[0..|ds|] == ds;
  }

  /** The same after a minus sign: "-12.7" is -12. */
  lemma {:induction false} ParseIntOfNegativeDigits(ds: string, tail: string)
    requires |ds| >= 1 && AllDigits(ds)
    requires tail == [] || !IsDigit(tail[0])
    ensures ParseIntPrefix("-" + ds + tail) == Some(-(DigitsValue(ds) as int))
  {
    var s := "-" + ds + tail;
    assert s[0] == '-' && SignPrefix(s) == (-1, 1);
    DigitRunEndIs(s, 1, |ds| + 1);
    assert s[1..|ds| + 1] == ds;
  }

  /** The value of fraction digits written after a decimal point: "25" is 0.25. */
  function FractionValue(fs: string): (x: real)
    requires AllDigits(fs)
    ensures 0.0 <= x < 1.0
    decreases |fs|
  {
    if fs == [] then 0.0 else (DigitValue(fs[0]) as real + FractionValue(fs[1..])) / 10.0
  }

  /** `m * 10^e` for a signed exponent. */
  function ScaleBy(m: real, e: int): (x: real)
    ensures m >= 0.0 ==> x >= 0.0
    decreases if e < 0 then -e else e
  {
    if e == 0 then m
    else if e > 0 then ScaleBy(m * 10.0, e - 1)
    else ScaleBy(m / 10.0, e + 1)
  }

  /** The value of an exponent part `e[+-]?digits` starting at `b`, or 0 when none is there. */
  function ExponentAt(s: string, b: nat): int
    requires b <= |s|
  {
    if b < |s| && (s[b] == 'e' || s[b] == 'E') then
      var (sign, i) := SignPrefix(s[b + 1..]);
      var j := DigitRunEnd(s, b + 1 + i);
      if j == b + 1 + i then 0 else sign * DigitsValue(s[b + 1 + i..j])
    else 0
  }

  /**
   * `parseFloat(s)` for text with no leading white space: the longest prefix
   * that is a decimal literal (sign, digits, optional point and fraction,
   * optional exponent), or `None` (NaN) when the mantissa has no digit.
   */
  function ParseFloatPrefix(s: string): (r: Option<real>)
    ensures var i := if |s| > 0 && (s[0] == '-' || s[0] == '+') then 1 else 0;
            r.None? <==> !((i < |s| && IsDigit(s[i])) || (i + 1 < |s| && s[i] == '.' && IsDigit(s[i + 1])))
    ensures r.Some? && r.value < 0.0 ==> s[0] == '-'
  {
    var (sign, i) := SignPrefix(s);
    match UnsignedDecimalAt(s, i)
    case None => None
    case Some(m) => Some(if sign < 0 then -m else m)
  }

  /** The unsigned decimal literal at `i`: digits, an optional point with digits, an optional exponent. */
  function UnsignedDecimalAt(s: string, i: nat): Option<real>
    requires i <= |s|
  {
    var a := DigitRunEnd(s, i);
    var hasPoint := a < |s| && s[a] == '.';
    var b := if hasPoint then DigitRunEnd(s, a + 1) else a;
    if a == i && b <= a + 1 then None
    else Some(ScaleBy(MantissaValue(s, i, a, b), ExponentAt(s, b)))
  }

  /** The digits `s[i..a]` before the point plus the digits after it up to `b`. */
  function MantissaValue(s: string, i: nat, a: nat, b: nat): real
    requires i <= a <= b <= |s|
    requires forall k :: i <= k < a ==> IsDigit(s[k])
    requires b > a ==> forall k :: a < k < b ==> IsDigit(s[k])
  {
    var whole := DigitsValue(s[i..a]) as real;
    if b > a then whole + FractionValue(s[a + 1..b]) else whole
  }

  /**
   * A decimal written as whole digits, a point and fraction digits, followed
   * by anything that cannot continue the literal, reads as that decimal.
   */
  lemma {:induction false} ParseFloatOfDecimal(ds: string, fs: string, tail: string)
    requires |ds| >= 1 && AllDigits(ds) && AllDigits(fs)
    requires tail == [] || (!IsDigit(tail[0]) && tail[0] != 'e' && tail[0] != 'E')
    ensures ParseFloatPrefix(ds + "." + fs + tail)
            == Some(DigitsValue(ds) as real + FractionValue(fs))
  {
    var s := ds + "." + fs + tail;
    var a := |ds|;
    var b := a + 1 + |fs|;
    assert s[0..a] == ds && s[a + 1..b] == fs && s[a] == '.';
    assert b == |s| || (!IsDigit(s[b]) && s[b] != 'e' && s[b] != 'E') by {
      assert b < |s| ==> s[b] == tail[0];
    }
    ParseFloatWithPoint(s, ds, fs, a, b);
  }

  /** Whole digits followed by anything that cannot continue the literal read as their integer value. */
  lemma {:induction false} ParseFloatOfWhole(ds: string, tail: string)
    requires |ds| >= 1 && AllDigits(ds)
    requires tail == [] || (!IsDigit(tail[0]) && tail[0] != '.' && tail[0] != 'e' && tail[0] != 'E')
    ensures ParseFloatPrefix(ds + tail) == Some(DigitsValue(ds) as real)
  {
    var s := ds + tail;
    var a := |ds|;
    assert s[0..a] == ds;
    SliceDigits(s, 0, a, ds);
    assert a < |s| ==> s[a] == tail[0];
    DigitRunEndIs(s, 0, a);
    assert SignPrefix(s) == (1, 0);
    assert ExponentAt(s, a) == 0;
  }

  /** The same for exactly one fraction digit: whole digits and tenths. */
  lemma {:induction false} ParseFloatOfTenths(ds: string, d: nat, tail: string)
    requires |ds| >= 1 && AllDigits(ds) && d < 10
    requires tail == [] || (!IsDigit(tail[0]) && tail[0] != 'e' && tail[0] != 'E')
    ensures ParseFloatPrefix(ds + "." + [DigitChar(d)] + tail) == Some(DigitsValue(ds) as real + d as real / 10.0)
  {
    ParseFloatOfDecimal(ds, [DigitChar(d)], tail);
    OneFractionDigit(d);
  }

  /** One digit after the point is that many tenths. */
  lemma {:induction false} OneFractionDigit(d: nat)
    requires d < 10
    ensures FractionValue([DigitChar(d)]) == d as real / 10.0
  {
    assert [DigitChar(d)][1..] == [];
  }

  lemma {:induction false} ParseFloatWithPoint(s: string, ds: string, fs: string, a: nat, b: nat)
    requires AllDigits(ds) && AllDigits(fs)
    requires a == |ds| >= 1 && b == a + 1 + |fs| <= |s|
    requires s[0..a] == ds && s[a] == '.' && s[a + 1..b] == fs
    requires b == |s| || (!IsDigit(s[b]) && s[b] != 'e' && s[b] != 'E')
    ensures ParseFloatPrefix(s) == Some(DigitsValue(ds) as real + FractionValue(fs))
  {
    SliceDigits(s, 0, a, ds);
    SliceDigits(s, a + 1, b, fs);
    assert SignPrefix(s) == (1, 0);
    UnsignedDecimalWithPoint(s, a, b);
  }

  /** A slice that is a digit string holds a digit at each of its positions. */
  lemma {:induction false} SliceDigits(s: string, lo: nat, hi: nat, ds: string)
    requires lo <= hi <= |s| && s[lo..hi] == ds && AllDigits(ds)
    ensures forall k :: lo <= k < hi ==> IsDigit(s[k])
  {
    forall k | lo <= k < hi ensures IsDigit(s[k]) { assert s[k] == ds[k - lo]; }
  }

  lemma {:induction false} UnsignedDecimalWithPoint(s: string, a: nat, b: nat)
    requires 1 <= a < b <= |s| && s[a] == '.'
    requires forall k :: 0 <= k < a ==> IsDigit(s[k])
    requires forall k :: a < k < b ==> IsDigit(s[k])
    requires b == |s| || (!IsDigit(s[b]) && s[b] != 'e' && s[b] != 'E')
    ensures UnsignedDecimalAt(s, 0) == Some(MantissaValue(s, 0, a, b))
  {
    DigitRunEndIs(s, 0, a);
    DigitRunEndIs(s, a + 1, b);
    assert ExponentAt(s, b) == 0;
  }

  /** Text that starts with a letter has no leading number: `parseFloat` gives NaN. */
  lemma {:induction false} ParseFloatOfLetter(s: string)
    requires |s| >= 1 && 'a' <= s[0] <= 'z'
    ensures ParseFloatPrefix(s) == None
  {
    assert SignPrefix(s) == (1, 0);
    assert DigitRunEnd(s, 0) == 0;
  }

  /** An integer rounds to itself. */
  lemma {:induction false} RoundWhole(m: int)
    ensures Round(m as real) == m
  {
  }

  /** `Math.round(x)`: the nearest integer, halves rounded up. */
  function Round(x: real): (r: int)
    ensures x - 0.5 < r as real <= x + 0.5
  {
    (x + 0.5).Floor
  }
}
