/**
 * The text extractors of the package fact resolver: the download count read
 * from the downloads badge (`parseBadgeCount`), the version read from the
 * version badge, and the version and summary read from the recipe README.
 */
module Badges {
  import opened Wrappers
  import opened Text
  import opened Numbers

  // =====================================================================
  // parseBadgeCount
  // =====================================================================

  /**
   * The badge's text, tag-stripped, collapsed and trimmed, split on single
   * spaces: the words of the tag-stripped text, or one empty token when it
   * has none.
   */
  function BadgeTokens(svg: string): (r: seq<string>)
    ensures Words(StripTags(svg)) != [] ==> r == Words(StripTags(svg))
    ensures Words(StripTags(svg)) == [] ==> r == [""]
  {
    var t := StripTags(svg);
    SplitWords(t);
    Split(Trim(CollapseSpaces(t)), ' ')
  }

  lemma {:induction false} SplitWords(t: string)
    ensures Words(t) != [] ==> Split(Trim(CollapseSpaces(t)), ' ') == Words(t)
    ensures Words(t) == [] ==> Split(Trim(CollapseSpaces(t)), ' ') == [""]
  {
    CollapseThenTrim(t);
    var ws := Words(t);
    if ws != [] {
      forall i | 0 <= i < |ws| ensures ' ' !in ws[i] {
        assert IsWord(ws[i]);
      }
      SplitJoin(ws, ' ');
    } else {
      assert IndexOf([], ' ', 0).None?;
    }
  }

  /** The index of the first element satisfying `p`, scanning from the front. */
  function FirstWhere<T>(xs: seq<T>, p: T -> bool): (r: Option<nat>)
    ensures r.Some? ==> r.value < |xs| && p(xs[r.value])
    ensures r.Some? ==> forall j :: 0 <= j < r.value ==> !p(xs[j])
    ensures r.None? ==> forall j :: 0 <= j < |xs| ==> !p(xs[j])
    decreases |xs|
  {
    if xs == [] then None
    else if p(xs[0]) then Some(0)
    else match FirstWhere(xs[1..], p)
      case None => None
      case Some(i) => Some(i + 1)
  }

  /** The index of the first token containing a digit (`tokens.find(t => /\d/.test(t))`). */
  function FirstDigitToken(tokens: seq<string>): (r: Option<nat>)
    ensures r.Some? ==> r.value < |tokens| && HasDigit(tokens[r.value])
    ensures r.Some? ==> forall j :: 0 <= j < r.value ==> !HasDigit(tokens[j])
    ensures r.None? ==> forall j :: 0 <= j < |tokens| ==> !HasDigit(tokens[j])
  {
    FirstWhere(tokens, HasDigit)
  }

  /** `Math.round(parseFloat(s) * scale)`: NaN when `s` does not start with a number. */
  function RoundScaled(s: string, scale: nat): (r: Number)
    ensures r.NaN? <==> ParseFloatPrefix(s).None?
    ensures r.Int? ==> var x := ParseFloatPrefix(s).value * scale as real;
                       x - 0.5 < r.value as real <= x + 0.5
  {
    match ParseFloatPrefix(s)
    case None => NaN
    case Some(v) =>
      var x := v * scale as real;
      Int(Round(x))
  }

  /**
   * How `parseBadgeCount` reads its token: commas dropped, lower-cased; a
   * `k` or `m` suffix scales the leading decimal by a thousand or a million
   * (NaN when there is none); otherwise the leading integer, or `None` (null)
   * when there is none.
   */
  function DecodeCount(token: string): (r: Option<Number>)
    ensures var s := ToLower(Remove(token, ','));
            r == Some(NaN) ==> EndsWith(s, 'k') || EndsWith(s, 'm')
    ensures var s := ToLower(Remove(token, ','));
            r.None? ==> !EndsWith(s, 'k') && !EndsWith(s, 'm')
  {
    var s := ToLower(Remove(token, ','));
    if EndsWith(s, 'k') then Some(RoundScaled(s, 1_000))
    else if EndsWith(s, 'm') then Some(RoundScaled(s, 1_000_000))
    else match ParseIntPrefix(s)
      case Some(n) => Some(Int(n))
      case None => None
  }

  /** Commas and letter case never change how a token reads. */
  lemma {:induction false} DecodeIgnoresCaseAndCommas(token: string)
    ensures DecodeCount(ToLower(Remove(token, ','))) == DecodeCount(token)
  {
    var x := Remove(token, ',');
    var s := ToLower(x);
    assert ',' !in s by {
      forall i | 0 <= i < |s| ensures s[i] != ',' {
        assert x[i] in x;
      }
    }
    assert Remove(s, ',') == s;
    var l := ToLower(s);
    assert l == s by {
      forall i | 0 <= i < |s| ensures l[i] == s[i] {
        assert l[i] == LowerChar(LowerChar(x[i]));
      }
    }
  }

  /**
   * `parseBadgeCount(svgText)`: the first digit-bearing token of the badge,
   * decoded; null when the text has no digit at all.
   */
  function ParseBadgeCount(svg: string): (r: Option<Number>)
    ensures !HasDigit(StripTags(svg)) ==> r.None?
  {
    DigitTokenIffDigit(svg);
    var tokens := BadgeTokens(svg);
    match FirstDigitToken(tokens)
    case None => None
    case Some(i) => DecodeCount(tokens[i])
  }

  /**
   * Some token contains a digit exactly when the tag-stripped text does:
   * collapsing, trimming and splitting only touch white space.
   */
  lemma {:induction false} DigitTokenIffDigit(svg: string)
    ensures FirstDigitToken(BadgeTokens(svg)).Some? <==> HasDigit(StripTags(svg))
  {
    if HasDigit(StripTags(svg)) {
      DigitReachesTokens(svg);
    }
    if FirstDigitToken(BadgeTokens(svg)).Some? {
      DigitComesFromText(svg);
    }
  }

  lemma {:induction false} DigitReachesTokens(svg: string)
    requires HasDigit(StripTags(svg))
    ensures FirstDigitToken(BadgeTokens(svg)).Some?
  {
    var t := StripTags(svg);
    var c := CollapseSpaces(t);
    var u := Trim(c);
    var tokens := Split(u, ' ');
    var k :| 0 <= k < |t| && IsDigit(t[k]);
    var d := t[k];
    assert d in t && !IsSpace(d);
    CollapseSpacesKeepsCharacters(t);
    assert d in c;
    TrimIsPadding(c);
    assert d in u;
    SplitKeepsCharacters(u, ' ', d);
    var i :| 0 <= i < |tokens| && d in tokens[i];
    var m :| 0 <= m < |tokens[i]| && tokens[i][m] == d;
    assert HasDigit(tokens[i]);
  }

  lemma {:induction false} DigitComesFromText(svg: string)
    requires FirstDigitToken(BadgeTokens(svg)).Some?
    ensures HasDigit(StripTags(svg))
  {
    var t := StripTags(svg);
    var c := CollapseSpaces(t);
    var u := Trim(c);
    var tokens := Split(u, ' ');
    var i := FirstDigitToken(tokens).value;
    var m :| 0 <= m < |tokens[i]| && IsDigit(tokens[i][m]);
    var d := tokens[i][m];
    assert d in Split(u, ' ')[i] && !IsSpace(d);
    SplitKeepsCharacters(u, ' ', d);
    assert d in u;
    TrimIsPadding(c);
    assert d in c;
    CollapseSpacesKeepsCharacters(t);
    assert d in t;
    var k :| 0 <= k < |t| && t[k] == d;
  }

  /** A badge whose tag-stripped text has no digit yields null. */
  lemma {:induction false} NoDigitNoCount(svg: string)
    requires !HasDigit(StripTags(svg))
    ensures ParseBadgeCount(svg) == None
  {
    DigitTokenIffDigit(svg);
  }

  /** The count is the first word of the tag-stripped text that holds a digit, decoded. */
  lemma {:induction false} FirstDigitWordCount(svg: string, i: nat)
    requires var ws := Words(StripTags(svg)); i < |ws| && HasDigit(ws[i])
    requires var ws := Words(StripTags(svg)); forall j :: 0 <= j < i ==> !HasDigit(ws[j])
    ensures ParseBadgeCount(svg) == DecodeCount(Words(StripTags(svg))[i])
  {
    var ws := Words(StripTags(svg));
    assert BadgeTokens(svg) == ws;
    var f := FirstDigitToken(ws);
    assert f.Some?;
    assert !(f.value < i) && !(i < f.value);
  }

  /** A count token followed by a one-word caption: the token decides. */
  lemma {:induction false} LabelledCount(token: string, caption: string)
    requires IsWord(token) && IsWord(caption) && HasDigit(token)
    requires '<' !in token && '<' !in caption
    ensures ParseBadgeCount(token + " " + caption) == DecodeCount(token)
  {
    var s := token + " " + caption;
    assert '<' !in s;
    StripTagsWithoutAngle(s);
    TwoWords(token, caption);
    FirstDigitWordCount(s, 0);
  }

  /**
   * A decimal count with a `k` or `m` suffix followed by a caption, such as
   * "1.2k downloads", reads as that decimal scaled: 1200.
   */
  lemma {:induction false} ScaledCountWithCaption(ds: string, d: nat, suffix: char, caption: string)
    requires |ds| >= 1 && AllDigits(ds) && d < 10
    requires suffix == 'k' || suffix == 'K' || suffix == 'm' || suffix == 'M'
    requires IsWord(caption) && '<' !in caption
    ensures ParseBadgeCount(ds + "." + [DigitChar(d)] + [suffix] + " " + caption)
            == Some(Int((DigitsValue(ds) * 10 + d) * TenthsUnit(suffix)))
  {
    var token := ds + "." + [DigitChar(d)] + [suffix];
    assert forall i :: 0 <= i < |ds| ==> token[i] == ds[i];
    assert IsDigit(token[0]);
    LabelledCount(token, caption);
    ScaledDecimalCount(ds, d, suffix);
  }

  /** Text with no tag opener and no white space is a single token. */
  lemma {:induction false} PlainTextIsOneToken(s: string)
    requires |s| >= 1 && '<' !in s
    requires forall i :: 0 <= i < |s| ==> !IsSpace(s[i])
    ensures BadgeTokens(s) == [s]
  {
    StripTagsWithoutAngle(s);
    CollapseSpacesWithoutSpace(s);
    TrimOfTrimmed(s);
    assert IndexOf(s, ' ', 0).None?;
  }

  /** A run of digits and commas reads as the integer its digits spell. */
  lemma {:induction false} CommaGroupedCount(token: string)
    requires HasDigit(token)
    requires forall i :: 0 <= i < |token| ==> IsDigit(token[i]) || token[i] == ','
    ensures var r := Remove(token, ','); AllDigits(r) && ParseBadgeCount(token) == Some(Int(DigitsValue(r)))
  {
    assert '<' !in token && forall i :: 0 <= i < |token| ==> !IsSpace(token[i]);
    PlainTextIsOneToken(token);
    assert FirstDigitToken([token]) == Some(0);
    CommaGroupedDigits(token);
  }

  /** Such a token, commas dropped, is a non-empty run of digits, and `parseInt` reads all of it. */
  lemma {:induction false} CommaGroupedDigits(token: string)
    requires HasDigit(token)
    requires forall i :: 0 <= i < |token| ==> IsDigit(token[i]) || token[i] == ','
    ensures var r := Remove(token, ','); AllDigits(r) && DecodeCount(token) == Some(Int(DigitsValue(r)))
  {
    var k :| 0 <= k < |token| && IsDigit(token[k]);
    assert token[k] in token;
    var r := Remove(token, ',');
    assert AllDigits(r) by {
      forall i | 0 <= i < |r| ensures IsDigit(r[i]) {
        assert r[i] in r;
      }
    }
    assert token[k] in r;
    DigitTextCount(token, r);
  }

  /** A token that is a non-empty run of digits once its commas are dropped reads as the integer they spell. */
  lemma {:induction false} DigitTextCount(token: string, r: string)
    requires r == Remove(token, ',') && |r| >= 1 && AllDigits(r)
    ensures DecodeCount(token) == Some(Int(DigitsValue(r)))
  {
    var s := ToLower(r);
    assert s == r;
    assert !EndsWith(s, 'k') && !EndsWith(s, 'm');
    assert SignPrefix(s) == (1, 0);
    DigitRunEndIs(s, 0, |s|);
    assert s[0..|s|] == s;
  }

  /** A badge text that is one token with a digit is decoded as that token. */
  lemma {:induction false} OneTokenCount(s: string)
    requires BadgeTokens(s) == [s] && HasDigit(s)
    ensures ParseBadgeCount(s) == DecodeCount(s)
  {
    assert FirstDigitToken([s]) == Some(0);
  }

  /**
   * A `k`-suffixed token that starts with a letter has no leading number:
   * `parseFloat` gives NaN, and NaN (not null) is the badge's count.
   */
  lemma {:induction false} UnnumberedThousandsIsNaN(token: string)
    requires |token| >= 2 && 'a' <= token[0] <= 'z' && token[|token| - 1] == 'k'
    requires HasDigit(token) && '<' !in token && ',' !in token
    requires forall i :: 0 <= i < |token| ==> !IsSpace(token[i])
    ensures ParseBadgeCount(token) == Some(NaN)
  {
    PlainTextIsOneToken(token);
    OneTokenCount(token);
    DecodeUnnumberedThousands(token);
  }

  lemma {:induction false} DecodeUnnumberedThousands(token: string)
    requires |token| >= 2 && 'a' <= token[0] <= 'z' && token[|token| - 1] == 'k' && ',' !in token
    ensures DecodeCount(token) == Some(NaN)
  {
    var s := ToLower(Remove(token, ','));
    assert s == ToLower(token);
    assert s[0] == token[0] && EndsWith(s, 'k');
    ParseFloatOfLetter(s);
  }

  /**
   * A token of digits and a point followed by any fraction digits and a
   * `k`/`m` suffix (either case) reads as `Math.round` of that decimal times
   * a thousand or a million, `x` being the decimal's exact value: "1.2345k"
   * reads as `Math.round(1234.5)`.
   */
  lemma {:induction false} DecimalScaledCount(ds: string, fs: string, suffix: char, x: real)
    requires |ds| >= 1 && AllDigits(ds) && AllDigits(fs)
    requires suffix == 'k' || suffix == 'K' || suffix == 'm' || suffix == 'M'
    requires x == DigitsValue(ds) as real + FractionValue(fs)
    ensures suffix == 'k' || suffix == 'K' ==> DecodeCount(ds + "." + fs + [suffix]) == Some(Int(Round(x * 1_000 as real)))
    ensures suffix == 'm' || suffix == 'M' ==> DecodeCount(ds + "." + fs + [suffix]) == Some(Int(Round(x * 1_000_000 as real)))
  {
    var lower := LowerChar(suffix);
    assert lower == 'k' || lower == 'm';
    DecimalIsPlain(ds, fs);
    ParseFloatOfDecimal(ds, fs, [lower]);
    ScaledToken(ds + "." + fs, suffix, x);
  }

  /** Whole digits, a point and fraction digits: only digits and points. */
  lemma {:induction false} DecimalIsPlain(ds: string, fs: string)
    requires AllDigits(ds) && AllDigits(fs)
    ensures var p := ds + "." + fs; forall i :: 0 <= i < |p| ==> IsDigit(p[i]) || p[i] == '.'
  {
    var p := ds + "." + fs;
    forall i | 0 <= i < |p| ensures IsDigit(p[i]) || p[i] == '.' {
      if i < |ds| { assert p[i] == ds[i]; } else if i > |ds| { assert p[i] == fs[i - |ds| - 1]; }
    }
  }

  /** Whole digits with a `k` suffix (either case), `n` being their value, read as `n` thousand: "12k" gives 12000. */
  lemma {:induction false} WholeThousandsCount(ds: string, suffix: char, n: nat)
    requires |ds| >= 1 && AllDigits(ds) && n == DigitsValue(ds)
    requires suffix == 'k' || suffix == 'K'
    ensures DecodeCount(ds + [suffix]) == Some(Int(n * 1_000))
  {
    WholeReadsAs(ds, suffix, n as real);
    RoundWholeScaled(n);
  }

  /** Whole digits with an `m` suffix (either case), `n` being their value, read as `n` million: "3M" gives 3000000. */
  lemma {:induction false} WholeMillionsCount(ds: string, suffix: char, n: nat)
    requires |ds| >= 1 && AllDigits(ds) && n == DigitsValue(ds)
    requires suffix == 'm' || suffix == 'M'
    ensures DecodeCount(ds + [suffix]) == Some(Int(n * 1_000_000))
  {
    WholeReadsAs(ds, suffix, n as real);
    RoundWholeScaled(n);
  }

  /** Whole digits with a `k`/`m` suffix: the number `parseFloat` reads, scaled and rounded. */
  lemma {:induction false} WholeReadsAs(ds: string, suffix: char, x: real)
    requires |ds| >= 1 && AllDigits(ds) && x == DigitsValue(ds) as real
    requires suffix == 'k' || suffix == 'K' || suffix == 'm' || suffix == 'M'
    ensures suffix == 'k' || suffix == 'K' ==> DecodeCount(ds + [suffix]) == Some(Int(Round(x * 1_000 as real)))
    ensures suffix == 'm' || suffix == 'M' ==> DecodeCount(ds + [suffix]) == Some(Int(Round(x * 1_000_000 as real)))
  {
    ParseFloatOfWhole(ds, [LowerChar(suffix)]);
    ScaledToken(ds, suffix, x);
  }

  /** A whole number times a thousand or a million is already whole. */
  lemma {:induction false} RoundWholeScaled(n: nat)
    ensures Round(n as real * 1_000 as real) == n * 1_000
    ensures Round(n as real * 1_000_000 as real) == n * 1_000_000
  {
    assert n as real * 1_000 as real == (n * 1_000) as real;
    assert n as real * 1_000_000 as real == (n * 1_000_000) as real;
    RoundWhole(n * 1_000);
    RoundWhole(n * 1_000_000);
  }

  /** A token of digits and points with a `k`/`m` suffix: its leading number, scaled and rounded. */
  lemma {:induction false} ScaledToken(p: string, suffix: char, x: real)
    requires forall i :: 0 <= i < |p| ==> IsDigit(p[i]) || p[i] == '.'
    requires suffix == 'k' || suffix == 'K' || suffix == 'm' || suffix == 'M'
    requires ParseFloatPrefix(p + [LowerChar(suffix)]) == Some(x)
    ensures suffix == 'k' || suffix == 'K' ==> DecodeCount(p + [suffix]) == Some(Int(Round(x * 1_000 as real)))
    ensures suffix == 'm' || suffix == 'M' ==> DecodeCount(p + [suffix]) == Some(Int(Round(x * 1_000_000 as real)))
  {
    var lower := LowerChar(suffix);
    var s := p + [lower];
    LowerPlainToken(p, suffix);
    RoundScaledOf(s, x);
    if lower == 'k' {
      assert EndsWith(s, 'k');
    } else {
      assert !EndsWith(s, 'k') && EndsWith(s, 'm');
    }
  }

  /** Given what `parseFloat` reads, the two scalings the decoder applies. */
  lemma {:induction false} RoundScaledOf(s: string, x: real)
    requires ParseFloatPrefix(s) == Some(x)
    ensures RoundScaled(s, 1_000) == Int(Round(x * 1_000 as real))
    ensures RoundScaled(s, 1_000_000) == Int(Round(x * 1_000_000 as real))
  {
  }

  /** Such a token has no comma, and lower-casing only changes its suffix. */
  lemma {:induction false} LowerPlainToken(p: string, suffix: char)
    requires forall i :: 0 <= i < |p| ==> IsDigit(p[i]) || p[i] == '.'
    requires suffix != ','
    ensures ToLower(Remove(p + [suffix], ',')) == p + [LowerChar(suffix)]
  {
    var token := p + [suffix];
    assert ',' !in token by {
      forall i | 0 <= i < |token| ensures token[i] != ',' {
        if i < |p| { assert token[i] == p[i]; }
      }
    }
    var s := ToLower(token);
    forall i | 0 <= i < |p| ensures s[i] == p[i] {
      assert token[i] == p[i];
    }
  }

  /** What a `k` or `m` suffix (either case) multiplies a count of tenths by. */
  function TenthsUnit(suffix: char): nat
  {
    if suffix == 'k' || suffix == 'K' then 100 else 100_000
  }

  /**
   * A token of whole digits, a point, one tenths digit and a `k`/`m` suffix
   * (either case) reads as that decimal times a thousand or a million.
   */
  lemma {:induction false} ScaledDecimalCount(ds: string, d: nat, suffix: char)
    requires |ds| >= 1 && AllDigits(ds) && d < 10
    requires suffix == 'k' || suffix == 'K' || suffix == 'm' || suffix == 'M'
    ensures DecodeCount(ds + "." + [DigitChar(d)] + [suffix])
            == Some(Int((DigitsValue(ds) * 10 + d) * TenthsUnit(suffix)))
  {
    var lower := LowerChar(suffix);
    assert lower == 'k' || lower == 'm';
    var s := ds + "." + [DigitChar(d)] + [lower];
    var token := ds + "." + [DigitChar(d)] + [suffix];
    LowerScaledToken(ds, DigitChar(d), suffix);
    TenthsTokenScaled(ds, d, lower);
    if lower == 'k' {
      assert EndsWith(s, 'k');
      assert TenthsUnit(suffix) == 100;
    } else {
      assert !EndsWith(s, 'k') && EndsWith(s, 'm');
      assert TenthsUnit(suffix) == 100_000;
    }
  }

  /** Digits, a point, a tenths digit and `k` or `m`: scaled by a thousand or a million, already a whole number. */
  lemma {:induction false} TenthsTokenScaled(ds: string, d: nat, lower: char)
    requires |ds| >= 1 && AllDigits(ds) && d < 10 && (lower == 'k' || lower == 'm')
    ensures lower == 'k' ==> RoundScaled(ds + "." + [DigitChar(d)] + [lower], 1_000) == Int((DigitsValue(ds) * 10 + d) * 100)
    ensures lower == 'm' ==> RoundScaled(ds + "." + [DigitChar(d)] + [lower], 1_000_000) == Int((DigitsValue(ds) * 10 + d) * 100_000)
  {
    ParseFloatOfTenths(ds, d, [lower]);
    ScaledTenthsValue(ds + "." + [DigitChar(d)] + [lower], DigitsValue(ds), d, DigitsValue(ds) * 10 + d);
  }

  /** The lower-cased token's leading decimal, scaled as its suffix says. */
  lemma {:induction false} ScaledTenthsValue(s: string, whole: nat, d: nat, t: nat)
    requires ParseFloatPrefix(s) == Some(whole as real + d as real / 10.0)
    requires t == whole * 10 + d
    ensures RoundScaled(s, 1_000) == Int(t * 100)
    ensures RoundScaled(s, 1_000_000) == Int(t * 100_000)
  {
    RoundScaledTenths(whole, d, t);
  }

  /** Whole units and tenths, scaled by a thousand or a million, are already whole. */
  lemma {:induction false} RoundScaledTenths(whole: nat, d: nat, t: nat)
    requires t == whole * 10 + d
    ensures Round((whole as real + d as real / 10.0) * 1_000 as real) == t * 100
    ensures Round((whole as real + d as real / 10.0) * 1_000_000 as real) == t * 100_000
  {
    assert (whole as real + d as real / 10.0) * 1_000 as real == (t * 100) as real;
    assert (whole as real + d as real / 10.0) * 1_000_000 as real == (t * 100_000) as real;
  }

  /** Such a token has no comma, and lower-casing only changes its suffix. */
  lemma {:induction false} LowerScaledToken(ds: string, x: char, suffix: char)
    requires AllDigits(ds) && IsDigit(x) && suffix != ','
    ensures ToLower(Remove(ds + "." + [x] + [suffix], ',')) == ds + "." + [x] + [LowerChar(suffix)]
  {
    var token := ds + "." + [x] + [suffix];
    assert ',' !in token by {
      forall i | 0 <= i < |token| ensures token[i] != ',' {
        if i < |ds| { assert token[i] == ds[i]; }
      }
    }
    var s := ToLower(token);
    forall i | 0 <= i < |ds| ensures s[i] == ds[i] {
      assert token[i] == ds[i];
    }
  }

  // =====================================================================
  // The version pattern  \d+(?:\.\d+)*(?:-[0-9A-Za-z\.]+)?
  // =====================================================================

  /** A character of the pre-release class `[0-9A-Za-z\.]`. */
  predicate IsSuffixChar(c: char) { IsDigit(c) || IsAsciiLetter(c) || c == '.' }

  /** `\d+(?:\.\d+)*` as a whole: digits and points, a digit at both ends, never two points together. */
  predicate IsDottedNumber(t: string) {
    |t| > 0 && IsDigit(t[0]) && IsDigit(t[|t| - 1])
    && (forall i :: 0 <= i < |t| ==> IsDigit(t[i]) || t[i] == '.')
    && (forall i :: 0 <= i < |t| - 1 ==> IsDigit(t[i]) || IsDigit(t[i + 1]))
  }

  /**
   * `/^\d+(?:\.\d+)*(?:-[0-9A-Za-z\.]+)?$/.test(t)`. Neither part may hold a
   * `-`, so the first `-` (if any) is where the pre-release suffix starts.
   */
  predicate IsVersion(t: string) {
    match IndexOf(t, '-', 0)
    case None => IsDottedNumber(t)
    case Some(k) => IsDottedNumber(t[..k]) && k + 1 < |t| && forall i :: k < i < |t| ==> IsSuffixChar(t[i])
  }

  /** `t` is a dotted number, a `-` at `k`, and a non-empty pre-release suffix. */
  predicate SuffixedAt(t: string, k: nat) {
    k + 1 < |t| && t[k] == '-' && IsDottedNumber(t[..k])
    && forall i :: k < i < |t| ==> IsSuffixChar(t[i])
  }

  /** The two forms the pattern accepts: a dotted number, alone or with a pre-release suffix. */
  lemma {:induction false} VersionForms(t: string)
    ensures IsVersion(t) <==> IsDottedNumber(t) || exists k: nat :: SuffixedAt(t, k)
    ensures IsVersion(t) ==> IsDigit(t[0])
  {
    if IsDottedNumber(t) {
      assert IndexOf(t, '-', 0).None?;
    }
    if k: nat :| SuffixedAt(t, k) {
      assert forall i :: 0 <= i < k ==> t[i] == t[..k][i] && t[i] != '-';
      var f := IndexOf(t, '-', 0);
      assert f.Some? && !(f.value < k) && !(k < f.value);
    }
    match IndexOf(t, '-', 0)
    case None =>
    case Some(k) =>
      if IsVersion(t) {
        assert SuffixedAt(t, k);
        assert t[0] == t[..k][0];
      }
  }

  lemma {:induction false} VersionSamples()
    ensures IsVersion("1.2.3") && IsVersion("2.0.1-beta.1") && IsVersion("7")
  {
    assert IndexOf("1.2.3", '-', 0).None?;
    assert IndexOf("2.0.1-beta.1", '-', 0) == Some(5);
    assert "2.0.1-beta.1"[..5] == "2.0.1";
    assert IndexOf("7", '-', 0).None?;
  }

  lemma {:induction false} NonVersionSamples()
    ensures !IsVersion("1..2") && !IsVersion("v1.2") && !IsVersion("1.2-") && !IsVersion("1.")
  {
    assert IndexOf("1..2", '-', 0).None?;
    assert IndexOf("1.2-", '-', 0) == Some(3);
  }

  // ---------------------------------------------------------------------
  // The version badge: the first match of /\b<pattern>\b/
  // ---------------------------------------------------------------------

  predicate IsWordAt(s: string, i: int) { 0 <= i < |s| && IsWordChar(s[i]) }

  /** `\b` at position `i`: a word character on exactly one side. */
  predicate WordBoundary(s: string, i: int) { IsWordAt(s, i - 1) != IsWordAt(s, i) }

  /** `/\b\d+(?:\.\d+)*(?:-[0-9A-Za-z\.]+)?\b/` matches `s[p..e]`. */
  predicate VersionMatchAt(s: string, p: nat, e: nat) {
    p < e <= |s| && IsVersion(s[p..e]) && WordBoundary(s, p) && WordBoundary(s, e)
  }

  /** The largest end at most `e` of a match starting at `p`. */
  function LongestMatchEnd(s: string, p: nat, e: nat): (r: Option<nat>)
    requires e <= |s|
    ensures r.Some? ==> p < r.value <= e && VersionMatchAt(s, p, r.value)
    ensures r.Some? ==> forall f :: r.value < f <= e ==> !VersionMatchAt(s, p, f)
    ensures r.None? ==> forall f :: p < f <= e ==> !VersionMatchAt(s, p, f)
    decreases e
  {
    if e <= p then None
    else if VersionMatchAt(s, p, e) then Some(e)
    else LongestMatchEnd(s, p, e - 1)
  }

  /**
   * The match `String.prototype.match` returns, searching from `p`: the
   * leftmost start that has a match, with the longest match from there.
   */
  function FirstVersionMatch(s: string, p: nat): (r: Option<(nat, nat)>)
    requires p <= |s|
    ensures r.Some? ==> p <= r.value.0 && VersionMatchAt(s, r.value.0, r.value.1)
    ensures r.Some? ==> forall q, f :: p <= q < r.value.0 && q < f <= |s| ==> !VersionMatchAt(s, q, f)
    ensures r.Some? ==> forall f :: r.value.1 < f <= |s| ==> !VersionMatchAt(s, r.value.0, f)
    ensures r.None? ==> forall q, f :: p <= q < f <= |s| ==> !VersionMatchAt(s, q, f)
    decreases |s| - p
  {
    if p == |s| then None
    else match LongestMatchEnd(s, p, |s|)
      case Some(e) => Some((p, e))
      case None => FirstVersionMatch(s, p + 1)
  }

  /** `svg.replace(/<[^>]+>/g, " ").match(...)[0]`, or `None` when there is no match. */
  function BadgeVersion(svg: string): (r: Option<string>)
    ensures r.Some? ==> IsVersion(r.value) && r.value != []
  {
    var t := StripTags(svg);
    match FirstVersionMatch(t, 0)
    case Some((p, e)) => Some(t[p..e])
    case None => None
  }

  /**
   * `v` is the text of the match at `p`, no match starts further left, and
   * none from `p` is longer.
   */
  predicate IsFirstMatchAt(t: string, p: nat, v: string) {
    p + |v| <= |t| && t[p..p + |v|] == v && VersionMatchAt(t, p, p + |v|)
    && (forall q, f :: 0 <= q < p && q < f <= |t| ==> !VersionMatchAt(t, q, f))
    && (forall f :: p + |v| < f <= |t| ==> !VersionMatchAt(t, p, f))
  }

  /**
   * What the version badge yields is a piece of the tag-stripped text that
   * wholly matches the pattern with a word boundary on both sides, no match
   * starts further left, and none from the same start is longer.
   */
  lemma {:induction false} BadgeVersionIsFirstMatch(svg: string)
    ensures var t := StripTags(svg);
            match BadgeVersion(svg)
            case None => forall q, f :: 0 <= q < f <= |t| ==> !VersionMatchAt(t, q, f)
            case Some(v) => exists p: nat :: IsFirstMatchAt(t, p, v)
  {
    var t := StripTags(svg);
    match FirstVersionMatch(t, 0)
    case Some((p, e)) =>
      assert |t[p..e]| == e - p;
      assert IsFirstMatchAt(t, p, t[p..e]);
    case None =>
  }

  // =====================================================================
  // The recipe README: first matching code span, first paragraph
  // =====================================================================

  /** `/^\d+(?:\.\d+)*(?:-[0-9A-Za-z\.]+)?$/.test(code.textContent.trim())`. */
  predicate IsVersionCode(code: string)
    ensures IsVersionCode(code) ==> Trim(code) != [] && IsDigit(Trim(code)[0])
  {
    VersionForms(Trim(code));
    IsVersion(Trim(code))
  }

  /** The index of the first code span whose trimmed text is a version. */
  function FirstVersionCode(codes: seq<string>): (r: Option<nat>)
    ensures r.Some? ==> r.value < |codes| && IsVersionCode(codes[r.value])
    ensures r.Some? ==> forall j :: 0 <= j < r.value ==> !IsVersionCode(codes[j])
    ensures r.None? ==> forall j :: 0 <= j < |codes| ==> !IsVersionCode(codes[j])
  {
    FirstWhere(codes, IsVersionCode)
  }

  /** The version the README stage stores: the first trimmed code text that is a version. */
  function ReadmeVersion(codes: seq<string>): (r: Option<string>)
    ensures r.Some? ==> IsVersion(r.value)
  {
    match FirstVersionCode(codes)
    case Some(i) => Some(Trim(codes[i]))
    case None => None
  }

  /** The first code span whose trimmed text is a version gives the README's version. */
  lemma {:induction false} ReadmeVersionAt(codes: seq<string>, i: nat)
    requires i < |codes| && IsVersionCode(codes[i])
    requires forall j :: 0 <= j < i ==> !IsVersionCode(codes[j])
    ensures ReadmeVersion(codes) == Some(Trim(codes[i]))
  {
    assert FirstVersionCode(codes) == Some(i);
  }

  /**
   * `p.textContent.trim().replace(/\s+/g, " ")`: the paragraph's words, in
   * order, one space between each two and none at either end.
   */
  function ParagraphSummary(text: string): (r: string)
    ensures r == Unwords(Words(text))
    ensures IsCollapsed(r)
    ensures r == [] || (r[0] != ' ' && r[|r| - 1] != ' ')
    ensures forall c :: !IsSpace(c) ==> (c in r <==> c in text)
  {
    SummaryShape(text);
    SummaryIsWords(text);
    CollapseSpaces(Trim(text))
  }

  /** Trimming, then collapsing, leaves single spaces between the same non-space characters. */
  lemma {:induction false} SummaryShape(text: string)
    ensures var r := CollapseSpaces(Trim(text));
            IsCollapsed(r) && (r == [] || (r[0] != ' ' && r[|r| - 1] != ' '))
            && forall c :: !IsSpace(c) ==> (c in r <==> c in text)
  {
    var t := Trim(text);
    CollapseSpacesCollapses(t);
    CollapseSpacesKeepsCharacters(t);
    TrimIsPadding(text);
  }

  /** Trimming, then collapsing, gives the words of the text joined by single spaces. */
  lemma {:induction false} SummaryIsWords(text: string)
    ensures CollapseSpaces(Trim(text)) == Unwords(Words(text))
  {
    var t := Trim(text);
    CollapseSpacesCollapses(t);
    CollapsedIsUnwords(CollapseSpaces(t));
    CollapseSpacesKeepsWords(t);
    TrimKeepsWords(text);
  }
}
