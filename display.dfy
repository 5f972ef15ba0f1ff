/**
 * The number rules behind what the trackers show: the compact download
 * count (`numFmt`), the commit sparkline's bar heights and the download
 * bars' widths.
 */
module Display {
  import opened Wrappers
  import opened Text
  import opened Numbers
  import opened Badges

  function Max(a: int, b: int): int { if a < b then b else a }

  // =====================================================================
  // numFmt
  // =====================================================================

  /** A count of tenths written with one decimal: 12 is "1.2". */
  function TenthsText(t: nat): string
  {
    NatToString(t / 10) + "." + [DigitChar(t % 10)]
  }

  /**
   * `numFmt(n)`: a million and over in millions with one decimal and "M",
   * a thousand and over in thousands with one decimal and "k", anything
   * smaller as `String(n)`; NaN fails both comparisons and prints "NaN".
   */
  function FormatCount(n: Number): (r: string)
    ensures n.Int? && n.value >= 1_000_000 ==> EndsWith(r, 'M')
    ensures n.Int? && 1_000 <= n.value < 1_000_000 ==> EndsWith(r, 'k')
    ensures n.Int? && n.value < 1_000 ==> ParseIntPrefix(r) == Some(n.value)
    ensures n.Int? && n.value < 1_000 ==> r == IntToString(n.value)
    ensures n.NaN? ==> r == "NaN"
  {
    match n
    case NaN => "NaN"
    case Int(v) =>
      if v >= 1_000_000 then TenthsText((v + 50_000) / 100_000) + "M"
      else if v >= 1_000 then TenthsText((v + 50) / 100) + "k"
      else
        IntToStringRoundTrip(v);
        IntToString(v)
  }

  /** `x.toFixed(1)` for a non-negative `x`: the nearest tenth, halves rounded up, written with one decimal. */
  function ToFixed1(x: real): (r: string)
    requires x >= 0.0
    ensures |r| >= 3 && r[|r| - 2] == '.' && IsDigit(r[|r| - 1])
  {
    TenthsText(Round(x * 10.0))
  }

  /** `parseFloat` reads `x.toFixed(1)` back as a value within half a tenth of `x`. */
  lemma {:induction false} ToFixed1ReadsBack(x: real)
    requires x >= 0.0
    ensures ParseFloatPrefix(ToFixed1(x)).Some?
    ensures x - 0.05 < ParseFloatPrefix(ToFixed1(x)).value <= x + 0.05
  {
    TenthsTextValue(Round(x * 10.0));
  }

  /** `parseFloat` reads a count of tenths written with one decimal as that many tenths. */
  lemma {:induction false} TenthsTextValue(t: nat)
    ensures ParseFloatPrefix(TenthsText(t)) == Some(t as real / 10.0)
  {
    var ds := NatToString(t / 10);
    assert TenthsText(t) == ds + "." + [DigitChar(t % 10)] + [];
    ParseFloatOfTenths(ds, t % 10, []);
    assert t == (t / 10) * 10 + t % 10;
    assert (t / 10) as real + (t % 10) as real / 10.0 == t as real / 10.0;
  }

  /**
   * `(n / 1e6).toFixed(1) + "M"` from a million up, `(n / 1e3).toFixed(1) + "k"`
   * from a thousand up: the integer rounding used by `FormatCount` is
   * `toFixed`'s nearest tenth.
   */
  lemma {:induction false} FormatCountForms(v: int)
    ensures v >= 1_000_000 ==> FormatCount(Int(v)) == ToFixed1(v as real / 1_000_000.0) + "M"
    ensures 1_000 <= v < 1_000_000 ==> FormatCount(Int(v)) == ToFixed1(v as real / 1_000.0) + "k"
  {
    RoundedTenths(v);
  }

  /** `Math.round` of tenths of thousands and of millions, in integers. */
  lemma {:induction false} RoundedTenths(v: int)
    ensures Round(v as real / 1_000.0 * 10.0) == (v + 50) / 100
    ensures Round(v as real / 1_000_000.0 * 10.0) == (v + 50_000) / 100_000
  {
    var r := Round(v as real / 1_000.0 * 10.0);
    var q := (v + 50) / 100;
    assert v as real / 1_000.0 * 10.0 == v as real / 100.0;
    assert v as real - 50.0 < r as real * 100.0 <= v as real + 50.0;
    assert v - 50 < r * 100 <= v + 50;
    assert q * 100 <= v + 50 < q * 100 + 100;
    var r' := Round(v as real / 1_000_000.0 * 10.0);
    var q' := (v + 50_000) / 100_000;
    assert v as real / 1_000_000.0 * 10.0 == v as real / 100_000.0;
    assert v as real - 50_000.0 < r' as real * 100_000.0 <= v as real + 50_000.0;
    assert v - 50_000 < r' * 100_000 <= v + 50_000;
    assert q' * 100_000 <= v + 50_000 < q' * 100_000 + 100_000;
  }

  /**
   * The badge decoder reads a formatted count back: exactly below a
   * thousand, and within half a displayed tenth (50 in thousands, 50000 in
   * millions) above.
   */
  lemma {:induction false} FormatCountReadsBack(v: int)
    ensures ParseBadgeCount(FormatCount(Int(v))).Some?
    ensures var w := ParseBadgeCount(FormatCount(Int(v))).value;
            && w.Int?
            && (v < 1_000 ==> w.value == v)
            && (1_000 <= v < 1_000_000 ==> v - 50 < w.value <= v + 50)
            && (v >= 1_000_000 ==> v - 50_000 < w.value <= v + 50_000)
  {
    if v < 1_000 {
      SmallCountReadsBack(v);
    } else if v < 1_000_000 {
      var t := (v + 50) / 100;
      assert FormatCount(Int(v)) == TenthsText(t) + "k";
      ScaledCountReadsBack(t, 'k');
      assert TenthsUnit('k') == 100;
      assert v - 50 < t * 100 <= v + 50;
    } else {
      var t := (v + 50_000) / 100_000;
      assert FormatCount(Int(v)) == TenthsText(t) + "M";
      ScaledCountReadsBack(t, 'M');
      assert TenthsUnit('M') == 100_000;
      assert v - 50_000 < t * 100_000 <= v + 50_000;
    }
  }

  lemma {:induction false} SmallCountReadsBack(v: int)
    requires v < 1_000
    ensures ParseBadgeCount(IntToString(v)) == Some(Int(v))
  {
    var s := IntToString(v);
    SignedDigits(v);
    PlainTextIsOneToken(s);
    OneTokenCount(s);
    DecodeSignedInteger(s);
    IntToStringRoundTrip(v);
  }

  /** `String(v)` is digits with at most a leading minus sign, and ends in a digit. */
  lemma {:induction false} SignedDigits(v: int)
    ensures var s := IntToString(v);
            && (forall i :: 0 <= i < |s| ==> IsDigit(s[i]) || s[i] == '-')
            && IsDigit(s[|s| - 1])
  {
    var s := IntToString(v);
    var ds := if v < 0 then s[1..] else s;
    forall i | 0 <= i < |s| ensures IsDigit(s[i]) || s[i] == '-' {
      if v < 0 && i > 0 { assert s[i] == ds[i - 1]; }
    }
    if v < 0 { assert s[|s| - 1] == ds[|ds| - 1]; }
  }

  /** A token of digits and minus signs ending in a digit is read by `parseInt`. */
  lemma {:induction false} DecodeSignedInteger(s: string)
    requires |s| >= 1 && IsDigit(s[|s| - 1])
    requires forall i :: 0 <= i < |s| ==> IsDigit(s[i]) || s[i] == '-'
    ensures DecodeCount(s) == match ParseIntPrefix(s) case Some(n) => Some(Int(n)) case None => None
  {
    assert ',' !in s;
    var lower := ToLower(s);
    assert lower == s;
  }

  lemma {:induction false} ScaledCountReadsBack(t: nat, suffix: char)
    requires suffix == 'k' || suffix == 'M'
    ensures ParseBadgeCount(TenthsText(t) + [suffix]) == Some(Int(t * TenthsUnit(suffix)))
  {
    TenthsTokenCount(t, suffix);
    DecodeTenths(t, suffix);
  }

  /** A count written in tenths with a suffix is one token, decoded as such. */
  lemma {:induction false} TenthsTokenCount(t: nat, suffix: char)
    requires suffix == 'k' || suffix == 'M'
    ensures ParseBadgeCount(TenthsText(t) + [suffix]) == DecodeCount(TenthsText(t) + [suffix])
  {
    var ds := NatToString(t / 10);
    var token := ds + "." + [DigitChar(t % 10)] + [suffix];
    assert TenthsText(t) + [suffix] == token;
    TenthsTokenIsPlain(ds, t % 10, suffix);
    PlainTextIsOneToken(token);
    assert HasDigit(token) by {
      assert IsDigit(token[0]) by { assert token[0] == ds[0]; }
    }
    OneTokenCount(token);
  }

  /** The decoder scales the tenths back by the suffix's unit. */
  lemma {:induction false} DecodeTenths(t: nat, suffix: char)
    requires suffix == 'k' || suffix == 'M'
    ensures DecodeCount(TenthsText(t) + [suffix]) == Some(Int(t * TenthsUnit(suffix)))
  {
    var ds := NatToString(t / 10);
    TenthsRecombine(t, DigitsValue(ds), TenthsUnit(suffix));
    ScaledDecimalToken(TenthsText(t) + [suffix], ds, t % 10, suffix, t * TenthsUnit(suffix));
  }

  /** Whole units and the last digit of `t` make `t` tenths again, at any unit. */
  lemma {:induction false} TenthsRecombine(t: nat, whole: nat, unit: nat)
    requires whole == t / 10
    ensures (whole * 10 + t % 10) * unit == t * unit
  {
    assert whole * 10 + t % 10 == t;
  }

  /**
   * `Badges.ScaledDecimalCount`, restated for a token and a count given by
   * name: `DecodeTenths` needs the count as `t * TenthsUnit(suffix)`, and
   * naming it keeps the verifier from unfolding that product again.
   */
  lemma {:induction false} ScaledDecimalToken(token: string, ds: string, d: nat, suffix: char, n: int)
    requires |ds| >= 1 && AllDigits(ds) && d < 10
    requires suffix == 'k' || suffix == 'K' || suffix == 'm' || suffix == 'M'
    requires token == ds + "." + [DigitChar(d)] + [suffix]
    requires n == (DigitsValue(ds) * 10 + d) * TenthsUnit(suffix)
    ensures DecodeCount(token) == Some(Int(n))
  {
    ScaledDecimalCount(ds, d, suffix);
  }

  lemma {:induction false} TenthsTokenIsPlain(ds: string, d: nat, suffix: char)
    requires AllDigits(ds) && d < 10 && (suffix == 'k' || suffix == 'M')
    ensures var token := ds + "." + [DigitChar(d)] + [suffix];
            forall i :: 0 <= i < |token| ==> token[i] != '<' && !IsSpace(token[i])
  {
    var token := ds + "." + [DigitChar(d)] + [suffix];
    forall i | 0 <= i < |token| ensures token[i] != '<' && !IsSpace(token[i]) {
      if i < |ds| { assert token[i] == ds[i]; }
    }
  }

  // =====================================================================
  // sparklineFromWeeklyTotals
  // =====================================================================

  /** `Math.max(floor, ...xs)`. */
  function MaxOf(floor: int, xs: seq<int>): (m: int)
    ensures m >= floor && forall i :: 0 <= i < |xs| ==> xs[i] <= m
    ensures m == floor || m in xs
    decreases |xs|
  {
    if xs == [] then floor
    else
      var m := MaxOf(floor, xs[..|xs| - 1]);
      assert xs == xs[..|xs| - 1] + [xs[|xs| - 1]];
      Max(m, xs[|xs| - 1])
  }

  /** What the commit-activity endpoint returned: a list of weeks (each with its total), or some other value. */
  datatype WeeklyActivity = Weeks(totals: seq<int>) | NotAList

  /** One bar of the sparkline: its height in pixels and the total shown in its title. */
  datatype Bar = Bar(height: int, total: int)

  /**
   * `Math.max(2, Math.round((t / max) * 28))`: at least 2 pixels, at most 28
   * when `t` does not exceed `max`, and the full 28 when it equals it. Above
   * the 2-pixel floor the height is the nearest whole pixel to `t / max * 28`.
   */
  function BarHeight(t: int, max: int): (h: int)
    requires max >= 1
    ensures h >= 2
    ensures var x := t as real / max as real * 28.0;
            x - 0.5 < h as real && (h > 2 ==> h as real <= x + 0.5)
    ensures t <= max ==> h <= 28
    ensures t == max ==> h == 28
  {
    ShareOfScale(t, max, 28);
    Max(2, Round(t as real / max as real * 28.0))
  }

  /** `Math.round((t / max) * scale)` is at most `scale` for `t` up to `max`, and `scale` itself at `max`. */
  lemma {:induction false} ShareOfScale(t: int, max: int, scale: nat)
    requires max >= 1
    ensures t <= max ==> Round(t as real / max as real * scale as real) <= scale
    ensures t == max ==> Round(t as real / max as real * scale as real) == scale
  {
    if t <= max {
      RatioAtMostOne(t, max, max);
      RoundMonotone(t as real / max as real * scale as real, scale as real);
    }
    if t == max {
      RatioOfSelf(max);
    }
  }

  /**
   * The bars of `sparklineFromWeeklyTotals(weeks)`, in week order; no bars
   * stands for the empty string returned for a non-list or an empty list.
   */
  function Sparkline(weeks: WeeklyActivity): (bars: seq<Bar>)
    ensures weeks.NotAList? ==> bars == []
    ensures weeks.Weeks? ==> |bars| == |weeks.totals|
    ensures weeks.Weeks? ==> forall i :: 0 <= i < |bars| ==>
              bars[i].total == weeks.totals[i]
              && bars[i].height == BarHeight(weeks.totals[i], MaxOf(1, weeks.totals))
  {
    match weeks
    case NotAList => []
    case Weeks(totals) =>
      var max := MaxOf(1, totals);
      seq(|totals|, i requires 0 <= i < |totals| => Bar(BarHeight(totals[i], max), totals[i]))
  }

  /** Rounding never reverses order. */
  lemma {:induction false} RoundMonotone(x: real, y: real)
    requires x <= y
    ensures Round(x) <= Round(y)
  {
    assert (y + 0.5).Floor as real > y + 0.5 - 1.0;
  }

  /** `t / max` for `t` at most `max` is at most 1, and grows with `t`. */
  lemma {:induction false} RatioAtMostOne(t: int, u: int, max: int)
    requires max >= 1 && t <= u
    ensures t as real / max as real <= u as real / max as real
    ensures u <= max ==> u as real / max as real <= 1.0
  {
    var m := max as real;
    assert (u as real - t as real) / m >= 0.0;
    assert u as real / m - t as real / m == (u as real - t as real) / m;
    if u <= max {
      assert (m - u as real) / m >= 0.0;
      assert m / m - u as real / m == (m - u as real) / m;
    }
  }

  /** Every bar is between 2 and 28 pixels tall, whatever the totals. */
  lemma {:induction false} SparkHeightsBounded(weeks: WeeklyActivity)
    ensures forall b :: b in Sparkline(weeks) ==> 2 <= b.height <= 28
  {
    var bars := Sparkline(weeks);
    forall b | b in bars ensures 2 <= b.height <= 28 {
      var i :| 0 <= i < |bars| && bars[i] == b;
      var max := MaxOf(1, weeks.totals);
      var t := weeks.totals[i];
      RatioAtMostOne(t, max, max);
      RoundMonotone(t as real / max as real * 28.0, 28.0);
    }
  }

  /** A week with more commits never gets a shorter bar. */
  lemma {:induction false} SparkHeightsMonotone(weeks: WeeklyActivity, i: nat, j: nat)
    requires weeks.Weeks? && i < |weeks.totals| && j < |weeks.totals|
    requires weeks.totals[i] <= weeks.totals[j]
    ensures Sparkline(weeks)[i].height <= Sparkline(weeks)[j].height
  {
    var max := MaxOf(1, weeks.totals);
    RatioAtMostOne(weeks.totals[i], weeks.totals[j], max);
    RoundMonotone(weeks.totals[i] as real / max as real * 28.0, weeks.totals[j] as real / max as real * 28.0);
  }

  /** The busiest week gets the full 28 pixels as soon as it has a commit. */
  lemma {:induction false} BusiestWeekFullHeight(weeks: WeeklyActivity, i: nat)
    requires weeks.Weeks? && i < |weeks.totals|
    requires weeks.totals[i] >= 1
    requires forall j :: 0 <= j < |weeks.totals| ==> weeks.totals[j] <= weeks.totals[i]
    ensures Sparkline(weeks)[i].height == 28
  {
    var t := weeks.totals[i];
    MaxOfAttained(1, weeks.totals, i);
    RatioOfSelf(t);
    assert Sparkline(weeks)[i].height == BarHeight(t, t);
  }

  lemma {:induction false} RatioOfSelf(x: int)
    requires x >= 1
    ensures x as real / x as real == 1.0
  {
  }

  /** A value that is at least the floor and every other value is the maximum. */
  lemma {:induction false} MaxOfAttained(floor: int, xs: seq<int>, i: nat)
    requires i < |xs| && xs[i] >= floor
    requires forall j :: 0 <= j < |xs| ==> xs[j] <= xs[i]
    ensures MaxOf(floor, xs) == xs[i]
  {
    var m := MaxOf(floor, xs);
    if m != floor {
      var j :| 0 <= j < |xs| && xs[j] == m;
    }
  }

  // =====================================================================
  // Download bars in loadBioconda
  // =====================================================================

  /** `r.downloads || 0`: NaN (falsy) counts as 0. */
  function CountOrZero(d: Number): (c: int)
    ensures c == 0 <==> d.NaN? || d == Int(0)
    ensures c != 0 ==> d == Int(c)
  {
    match d
    case Int(v) => v
    case NaN => 0
  }

  /** `Math.max(1, ...results.map(r => r.downloads || 0))`. */
  function MaxDownloads(ds: seq<Number>): (m: int)
    ensures m >= 1
    ensures forall i :: 0 <= i < |ds| ==> CountOrZero(ds[i]) <= m
    ensures m == 1 || exists i :: 0 <= i < |ds| && CountOrZero(ds[i]) == m
  {
    var counts := seq(|ds|, i requires 0 <= i < |ds| => CountOrZero(ds[i]));
    var m := MaxOf(1, counts);
    assert forall i :: 0 <= i < |ds| ==> counts[i] == CountOrZero(ds[i]);
    m
  }

  /**
   * The bar width in percent, `Math.max(4, Math.round((d / maxDl) * 100))`;
   * NaN downloads give a NaN width. Above the 4 percent floor the width is
   * the nearest whole percent to `d / maxDl * 100`.
   */
  function BarWidth(d: Number, maxDl: int): (w: Number)
    requires maxDl >= 1
    ensures w.NaN? <==> d.NaN?
    ensures d.Int? ==> w.value >= 4
    ensures d.Int? ==> var x := d.value as real / maxDl as real * 100.0;
            x - 0.5 < w.value as real && (w.value > 4 ==> w.value as real <= x + 0.5)
    ensures d.Int? && d.value <= maxDl ==> w.value <= 100
    ensures d == Int(maxDl) ==> w == Int(100)
  {
    ShareOfScale(CountOrZero(d), maxDl, 100);
    match d
    case NaN => NaN
    case Int(v) => Int(Max(4, Round(v as real / maxDl as real * 100.0)))
  }

  /** The width of every package's bar, scaled by the largest count. */
  function BarWidths(ds: seq<Number>): (ws: seq<Number>)
    ensures |ws| == |ds|
    ensures forall i :: 0 <= i < |ds| ==> ws[i] == BarWidth(ds[i], MaxDownloads(ds))
  {
    var maxDl := MaxDownloads(ds);
    seq(|ds|, i requires 0 <= i < |ds| => BarWidth(ds[i], maxDl))
  }

  /** Every numeric width is between 4 and 100 percent; only NaN downloads give a NaN width. */
  lemma {:induction false} BarWidthsBounded(ds: seq<Number>, i: nat)
    requires i < |ds|
    ensures BarWidths(ds)[i].NaN? <==> ds[i].NaN?
    ensures BarWidths(ds)[i].Int? ==> 4 <= BarWidths(ds)[i].value <= 100
  {
    var maxDl := MaxDownloads(ds);
    if ds[i].Int? {
      var v := ds[i].value;
      assert CountOrZero(ds[i]) == v;
      RatioAtMostOne(v, maxDl, maxDl);
      RoundMonotone(v as real / maxDl as real * 100.0, 100.0);
    }
  }

  /** The package with the most downloads gets the full width once it has one. */
  lemma {:induction false} LargestGetsFullWidth(ds: seq<Number>, i: nat)
    requires i < |ds| && ds[i].Int? && ds[i].value >= 1
    requires forall j :: 0 <= j < |ds| ==> CountOrZero(ds[j]) <= ds[i].value
    ensures BarWidths(ds)[i] == Int(100)
  {
    var maxDl := MaxDownloads(ds);
    assert CountOrZero(ds[i]) == ds[i].value;
    if maxDl != 1 {
      var j :| 0 <= j < |ds| && CountOrZero(ds[j]) == maxDl;
    }
    assert ds[i] == Int(maxDl);
  }

  /** A package with no downloads gets the minimum width. */
  lemma {:induction false} ZeroGetsMinimumWidth(ds: seq<Number>, i: nat)
    requires i < |ds| && ds[i] == Int(0)
    ensures BarWidths(ds)[i] == Int(4)
  {
  }

  lemma {:induction false} BarWidthsSample()
    ensures BarWidths([Int(0), Int(0), Int(500)]) == [Int(4), Int(4), Int(100)]
  {
    var ds := [Int(0), Int(0), Int(500)];
    LargestGetsFullWidth(ds, 2);
    ZeroGetsMinimumWidth(ds, 0);
    ZeroGetsMinimumWidth(ds, 1);
  }
}
