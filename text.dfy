/**
 * The string operations of the JavaScript runtime that the badge and README
 * extractors chain together: the tag-stripping and white-space-collapsing
 * `replace` calls, `trim`, `split(" ")` and `toLowerCase`.
 */
module Text {
  import opened Wrappers

  /** JavaScript white space and line terminators: what `\s` matches and `trim()` removes. */
  predicate IsSpace(c: char) {
    var n := c as int;
    n == 0x09 || n == 0x0A || n == 0x0B || n == 0x0C || n == 0x0D || n == 0x20
    || n == 0xA0 || n == 0x1680 || (0x2000 <= n <= 0x200A) || n == 0x2028 || n == 0x2029
    || n == 0x202F || n == 0x205F || n == 0x3000 || n == 0xFEFF
  }

  /** What `\d` matches. */
  predicate IsDigit(c: char) { '0' <= c <= '9' }

  predicate IsAsciiLetter(c: char) { 'a' <= c <= 'z' || 'A' <= c <= 'Z' }

  /** A word character for `\b` in a regular expression without the `u` flag: `[A-Za-z0-9_]`. */
  predicate IsWordChar(c: char) { IsDigit(c) || IsAsciiLetter(c) || c == '_' }

  /** What `/\d/.test(s)` decides. */
  predicate HasDigit(s: string) { exists i :: 0 <= i < |s| && IsDigit(s[i]) }

  predicate AllSpace(s: string) { forall k :: 0 <= k < |s| ==> IsSpace(s[k]) }

  /** The first index at or after `from` holding `c` (`indexOf`). */
  function IndexOf(s: string, c: char, from: nat): (r: Option<nat>)
    ensures r.Some? ==> from <= r.value < |s| && s[r.value] == c
    ensures r.Some? ==> forall k :: from <= k < r.value ==> s[k] != c
    ensures r.None? ==> forall k :: from <= k < |s| ==> s[k] != c
    decreases |s| - from
  {
    if from >= |s| then None
    else if s[from] == c then Some(from)
    else IndexOf(s, c, from + 1)
  }

  // ---------------------------------------------------------------------
  // replace(/<[^>]+>/g, " ")
  // ---------------------------------------------------------------------

  /**
   * When `/<[^>]+>/` matches at the start of `s`, the index of the `>` that
   * closes the match: `[^>]+` needs at least one character, and being greedy
   * over characters other than `>` it stops at the first `>`.
   */
  function TagEnd(s: string): (r: Option<nat>)
    ensures r.Some? ==> 2 <= r.value < |s| && s[0] == '<' && s[r.value] == '>'
    ensures r.Some? ==> forall k :: 0 < k < r.value ==> s[k] != '>'
  {
    if |s| >= 2 && s[0] == '<' && s[1] != '>' then IndexOf(s, '>', 2) else None
  }

  /** No position of `s` starts a match of `/<[^>]+>/`. */
  predicate NoTag(s: string) {
    forall i :: 0 <= i < |s| ==> TagEnd(s[i..]).None?
  }

  /** `s.replace(/<[^>]+>/g, " ")`: every tag, scanning left to right, becomes one space. */
  function StripTags(s: string): (r: string)
    ensures |r| <= |s|
    decreases |s|
  {
    if s == [] then []
    else match TagEnd(s)
      case Some(k) => " " + StripTags(s[k + 1..])
      case None => [s[0]] + StripTags(s[1..])
  }

  /** The global replacement leaves nothing that the pattern still matches. */
  lemma {:induction false} StripTagsLeavesNoTag(s: string)
    ensures NoTag(StripTags(s))
    decreases |s|
  {
    if s == [] { return; }
    var r := StripTags(s);
    match TagEnd(s)
    case Some(k) =>
      var x := StripTags(s[k + 1..]);
      StripTagsLeavesNoTag(s[k + 1..]);
      assert r == " " + x;
      forall i | 0 <= i < |r| ensures TagEnd(r[i..]).None? {
        if i > 0 { assert r[i..] == x[i - 1..]; }
      }
    case None =>
      var x := StripTags(s[1..]);
      StripTagsLeavesNoTag(s[1..]);
      assert r == [s[0]] + x;
      forall i | 0 <= i < |r| ensures TagEnd(r[i..]).None? {
        if i > 0 {
          assert r[i..] == x[i - 1..];
        } else if s[0] == '<' && |s| >= 2 && s[1] != '>' {
          // No `>` anywhere after the `<`, so none survives into `x` either.
          assert forall c :: c in s[1..] ==> c != '>';
          StripTagsKeepsCharacters(s[1..]);
          assert '>' !in x;
        } else if s[0] == '<' && |s| >= 2 {
          assert TagEnd(s[1..]).None?;
          assert r[1] == '>';
        }
      }
  }

  /** Stripping only adds spaces: every other character of the result comes from the input. */
  lemma {:induction false} StripTagsKeepsCharacters(s: string)
    ensures forall c :: c != ' ' && c in StripTags(s) ==> c in s
    decreases |s|
  {
    if s != [] {
      match TagEnd(s)
      case Some(k) =>
        StripTagsKeepsCharacters(s[k + 1..]);
        assert forall c :: c in s[k + 1..] ==> c in s;
      case None =>
        StripTagsKeepsCharacters(s[1..]);
        assert forall c :: c in s[1..] ==> c in s;
    }
  }

  /** Text before the first `<` passes through unchanged. */
  lemma {:induction false} StripTagsKeepsPlainPrefix(x: string, z: string)
    requires '<' !in x
    ensures StripTags(x + z) == x + StripTags(z)
    decreases |x|
  {
    if x == [] {
      assert x + z == z;
    } else {
      var s := x + z;
      assert s[0] == x[0] && TagEnd(s).None?;
      assert s[1..] == x[1..] + z;
      StripTagsKeepsPlainPrefix(x[1..], z);
      assert StripTags(s) == [x[0]] + StripTags(x[1..] + z);
      assert x + StripTags(z) == [x[0]] + (x[1..] + StripTags(z));
    }
  }

  /** A closed tag `<t>` after tag-free text becomes one space, and stripping goes on after it. */
  lemma {:induction false} StripTagsOfTag(x: string, t: string, y: string)
    requires '<' !in x && t != [] && '>' !in t
    ensures StripTags(x + "<" + t + ">" + y) == x + " " + StripTags(y)
  {
    var s := "<" + t + ">" + y;
    var k := |t| + 1;
    assert s[k] == '>' && s[1] == t[0] && t[0] in t;
    forall i | 2 <= i < k ensures s[i] != '>' {
      assert s[i] == t[i - 1] && t[i - 1] in t;
    }
    assert TagEnd(s) == Some(k);
    assert s[k + 1..] == y;
    StripTagsKeepsPlainPrefix(x, s);
    assert x + "<" + t + ">" + y == x + s;
  }

  /** Without a `<` there is nothing to strip. */
  lemma {:induction false} StripTagsWithoutAngle(s: string)
    requires '<' !in s
    ensures StripTags(s) == s
    decreases |s|
  {
    if s != [] {
      assert TagEnd(s).None?;
      assert '<' !in s[1..];
      StripTagsWithoutAngle(s[1..]);
      assert s == [s[0]] + s[1..];
    }
  }

  // ---------------------------------------------------------------------
  // replace(/\s+/g, " ")
  // ---------------------------------------------------------------------

  /** The end of the run of white space that starts at `i`. */
  function SpaceRunEnd(s: string, i: nat): (j: nat)
    requires i <= |s|
    ensures i <= j <= |s|
    ensures forall k :: i <= k < j ==> IsSpace(s[k])
    ensures j == |s| || !IsSpace(s[j])
    decreases |s| - i
  {
    if i < |s| && IsSpace(s[i]) then SpaceRunEnd(s, i + 1) else i
  }

  /** Each white-space character is a plain space and is never followed by another. */
  predicate IsCollapsed(s: string) {
    forall i :: 0 <= i < |s| && IsSpace(s[i]) ==> s[i] == ' ' && (i + 1 < |s| ==> !IsSpace(s[i + 1]))
  }

  /** `s.replace(/\s+/g, " ")`: every maximal run of white space becomes one space. */
  function CollapseSpaces(s: string): (r: string)
    ensures |r| <= |s|
    ensures |s| > 0 ==> |r| > 0 && (IsSpace(r[0]) <==> IsSpace(s[0]))
    ensures |s| > 0 ==> (IsSpace(r[|r| - 1]) <==> IsSpace(s[|s| - 1]))
    decreases |s|
  {
    if s == [] then []
    else if IsSpace(s[0]) then
      var j := SpaceRunEnd(s, 0);
      assert s == s[..j] + s[j..];
      " " + CollapseSpaces(s[j..])
    else
      assert s == [s[0]] + s[1..];
      [s[0]] + CollapseSpaces(s[1..])
  }

  lemma {:induction false} CollapseSpacesCollapses(s: string)
    ensures IsCollapsed(CollapseSpaces(s))
    decreases |s|
  {
    if s == [] { return; }
    var r := CollapseSpaces(s);
    if IsSpace(s[0]) {
      var j := SpaceRunEnd(s, 0);
      var x := CollapseSpaces(s[j..]);
      CollapseSpacesCollapses(s[j..]);
      assert r == " " + x;
      forall i | 0 <= i < |r| && IsSpace(r[i])
        ensures r[i] == ' ' && (i + 1 < |r| ==> !IsSpace(r[i + 1]))
      {
        if i > 0 { assert r[i] == x[i - 1]; }
        else if 1 < |r| { assert r[1] == x[0] && !IsSpace(s[j..][0]); }
      }
    } else {
      var x := CollapseSpaces(s[1..]);
      CollapseSpacesCollapses(s[1..]);
      assert r == [s[0]] + x;
      forall i | 0 <= i < |r| && IsSpace(r[i])
        ensures r[i] == ' ' && (i + 1 < |r| ==> !IsSpace(r[i + 1]))
      {
        assert i > 0;
        assert r[i] == x[i - 1];
      }
    }
  }

  /** Collapsing replaces white space only: every other character is kept, and none is added. */
  lemma {:induction false} CollapseSpacesKeepsCharacters(s: string)
    ensures forall c :: !IsSpace(c) ==> (c in CollapseSpaces(s) <==> c in s)
    decreases |s|
  {
    if s == [] { return; }
    if IsSpace(s[0]) {
      var j := SpaceRunEnd(s, 0);
      CollapseSpacesKeepsCharacters(s[j..]);
      SpacePrefixKeepsCharacters(s, j);
      SpacePrefixKeepsCharacters(" " + CollapseSpaces(s[j..]), 1);
      assert (" " + CollapseSpaces(s[j..]))[1..] == CollapseSpaces(s[j..]);
    } else {
      CollapseSpacesKeepsCharacters(s[1..]);
      assert s == [s[0]] + s[1..];
    }
  }

  /** Dropping a leading run of white space keeps every other character. */
  lemma {:induction false} SpacePrefixKeepsCharacters(s: string, j: nat)
    requires j <= |s| && forall k :: 0 <= k < j ==> IsSpace(s[k])
    ensures forall c :: !IsSpace(c) ==> (c in s[j..] <==> c in s)
  {
    forall c | !IsSpace(c) && c in s ensures c in s[j..] {
      var k :| 0 <= k < |s| && s[k] == c;
      assert s[j..][k - j] == c;
    }
    forall c | !IsSpace(c) && c in s[j..] ensures c in s {
      var k :| 0 <= k < |s[j..]| && s[j..][k] == c;
      assert s[j + k] == c;
    }
  }

  /** Text without white space passes through unchanged. */
  lemma {:induction false} CollapseSpacesWithoutSpace(s: string)
    requires forall i :: 0 <= i < |s| ==> !IsSpace(s[i])
    ensures CollapseSpaces(s) == s
    decreases |s|
  {
    if s != [] {
      CollapseSpacesWithoutSpace(s[1..]);
      assert s == [s[0]] + s[1..];
    }
  }

  // ---------------------------------------------------------------------
  // trim()
  // ---------------------------------------------------------------------

  /** The start of the run of white space that ends at `j` and begins no earlier than `lo`. */
  function SpaceRunStart(s: string, lo: nat, j: nat): (k: nat)
    requires lo <= j <= |s|
    ensures lo <= k <= j
    ensures forall m :: k <= m < j ==> IsSpace(s[m])
    ensures k == lo || !IsSpace(s[k - 1])
    decreases j
  {
    if j > lo && IsSpace(s[j - 1]) then SpaceRunStart(s, lo, j - 1) else j
  }

  /** `s` is `r` with white space only before it (the first `i` characters) and after it. */
  predicate SpacePadded(s: string, i: nat, r: string) {
    i + |r| <= |s| && r == s[i..i + |r|] && AllSpace(s[..i]) && AllSpace(s[i + |r|..])
  }

  /**
   * `s.trim()`: the longest middle part of `s` that neither starts nor ends
   * with white space, dropping only white space on either side.
   */
  function Trim(s: string): (r: string)
    ensures r == [] || (!IsSpace(r[0]) && !IsSpace(r[|r| - 1]))
  {
    var a := SpaceRunEnd(s, 0);
    var b := SpaceRunStart(s, a, |s|);
    s[a..b]
  }

  /** `trim()` drops white space only, and only at the two ends. */
  lemma {:induction false} TrimIsPadding(s: string)
    ensures SpacePadded(s, SpaceRunEnd(s, 0), Trim(s))
    ensures forall c :: !IsSpace(c) ==> (c in Trim(s) <==> c in s)
  {
    var a := SpaceRunEnd(s, 0);
    var b := SpaceRunStart(s, a, |s|);
    assert s == s[..a] + s[a..b] + s[b..];
    SpacePaddingKeepsCharacters(s[..a], s[a..b], s[b..]);
  }

  lemma {:induction false} SpacePaddingKeepsCharacters(pre: string, mid: string, post: string)
    requires AllSpace(pre) && AllSpace(post)
    ensures forall c :: !IsSpace(c) ==> (c in pre + mid + post <==> c in mid)
  {
    forall c | !IsSpace(c) && c in pre + mid + post ensures c in mid {
      var k :| 0 <= k < |pre + mid + post| && (pre + mid + post)[k] == c;
      if |pre| <= k < |pre| + |mid| { assert mid[k - |pre|] == c; }
    }
  }

  /** Text that neither starts nor ends with white space is its own trim. */
  lemma {:induction false} TrimOfTrimmed(s: string)
    requires s == [] || (!IsSpace(s[0]) && !IsSpace(s[|s| - 1]))
    ensures Trim(s) == s
  {
  }

  // ---------------------------------------------------------------------
  // split(sep) and join(sep)
  // ---------------------------------------------------------------------

  /** `parts.join(sep)`. */
  function Join(parts: seq<string>, sep: char): string
    requires |parts| >= 1
    decreases |parts|
  {
    if |parts| == 1 then parts[0] else parts[0] + [sep] + Join(parts[1..], sep)
  }

  /**
   * `s.split(sep)` for a one-character separator: the pieces between the
   * separators, empty ones included; the empty string splits into `[""]`.
   */
  function Split(s: string, sep: char): (parts: seq<string>)
    ensures |parts| >= 1
    ensures forall i :: 0 <= i < |parts| ==> sep !in parts[i]
    ensures Join(parts, sep) == s
    decreases |s|
  {
    match IndexOf(s, sep, 0)
    case None => [s]
    case Some(k) =>
      var rest := Split(s[k + 1..], sep);
      var parts := [s[..k]] + rest;
      assert parts[1..] == rest;
      assert s == s[..k] + [sep] + s[k + 1..];
      parts
  }

  /** `c` occurs in one of the pieces. */
  predicate InSomePiece(parts: seq<string>, c: char) {
    exists i :: 0 <= i < |parts| && c in parts[i]
  }

  /** A character other than the separator is in the text iff it is in one of its pieces. */
  lemma {:induction false} SplitKeepsCharacters(s: string, sep: char, c: char)
    requires c != sep
    ensures c in s <==> InSomePiece(Split(s, sep), c)
    decreases |s|
  {
    var parts := Split(s, sep);
    match IndexOf(s, sep, 0)
    case None =>
      assert parts == [s];
      if c in s {
        assert c in parts[0];
      }
      if InSomePiece(parts, c) {
        var i :| 0 <= i < |parts| && c in parts[i];
        assert i == 0;
      }
    case Some(k) =>
      var rest := Split(s[k + 1..], sep);
      SplitKeepsCharacters(s[k + 1..], sep, c);
      assert parts == [s[..k]] + rest;
      assert s == s[..k] + [sep] + s[k + 1..];
      if c in s {
        if c in s[..k] {
          assert c in parts[0];
        } else {
          assert c in s[k + 1..];
          var j :| 0 <= j < |rest| && c in rest[j];
          assert c in parts[j + 1];
        }
      }
      if InSomePiece(parts, c) {
        var i :| 0 <= i < |parts| && c in parts[i];
        if i > 0 {
          assert parts[i] == rest[i - 1];
          assert InSomePiece(rest, c);
        }
      }
  }

  /** Splitting undoes joining, when no part holds the separator. */
  lemma {:induction false} SplitJoin(parts: seq<string>, sep: char)
    requires |parts| >= 1
    requires forall i :: 0 <= i < |parts| ==> sep !in parts[i]
    ensures Split(Join(parts, sep), sep) == parts
    decreases |parts|
  {
    var s := Join(parts, sep);
    if |parts| == 1 {
      assert IndexOf(s, sep, 0).None?;
    } else {
      var k := |parts[0]|;
      var rest := Join(parts[1..], sep);
      assert s == parts[0] + [sep] + rest;
      assert s[k] == sep;
      assert forall m :: 0 <= m < k ==> s[m] == parts[0][m];
      assert IndexOf(s, sep, 0) == Some(k);
      assert s[..k] == parts[0];
      assert s[k + 1..] == rest;
      SplitJoin(parts[1..], sep);
      assert parts == [parts[0]] + parts[1..];
    }
  }

  // ---------------------------------------------------------------------
  // Words: what trimming, collapsing and splitting on spaces all keep
  // ---------------------------------------------------------------------

  /** A word: non-empty and free of white space. */
  predicate IsWord(w: string) {
    w != [] && forall k :: 0 <= k < |w| ==> !IsSpace(w[k])
  }

  /** The end of the run of characters other than white space that starts at `i`. */
  function WordEnd(s: string, i: nat): (j: nat)
    requires i <= |s|
    ensures i <= j <= |s|
    ensures forall k :: i <= k < j ==> !IsSpace(s[k])
    ensures j == |s| || IsSpace(s[j])
    decreases |s| - i
  {
    if i < |s| && !IsSpace(s[i]) then WordEnd(s, i + 1) else i
  }

  /** The words of `s`: its maximal runs of characters other than white space, in order. */
  function Words(s: string): (ws: seq<string>)
    ensures forall i :: 0 <= i < |ws| ==> IsWord(ws[i])
    decreases |s|
  {
    if s == [] then []
    else if IsSpace(s[0]) then Words(s[1..])
    else
      var j := WordEnd(s, 0);
      [s[..j]] + Words(s[j..])
  }

  /** The words written out with one space between each two; no words give the empty text. */
  function Unwords(ws: seq<string>): string {
    if ws == [] then [] else Join(ws, ' ')
  }

  lemma {:induction false} WordEndIs(s: string, i: nat, j: nat)
    requires i <= j <= |s|
    requires forall k :: i <= k < j ==> !IsSpace(s[k])
    requires j == |s| || IsSpace(s[j])
    ensures WordEnd(s, i) == j
    decreases j - i
  {
    if i < j { WordEndIs(s, i + 1, j); }
  }

  /** White space in front of a text adds no word. */
  lemma {:induction false} WordsAfterSpace(pre: string, s: string)
    requires AllSpace(pre)
    ensures Words(pre + s) == Words(s)
    decreases |pre|
  {
    if pre == [] {
      assert pre + s == s;
    } else {
      assert (pre + s)[0] == pre[0];
      assert (pre + s)[1..] == pre[1..] + s;
      WordsAfterSpace(pre[1..], s);
    }
  }

  /** White space after a text adds no word. */
  lemma {:induction false} WordsBeforeSpace(s: string, post: string)
    requires AllSpace(post)
    ensures Words(s + post) == Words(s)
    decreases |s|
  {
    if s == [] {
      WordsAfterSpace(post, []);
      assert post + [] == post && s + post == post;
    } else if IsSpace(s[0]) {
      assert (s + post)[1..] == s[1..] + post;
      WordsBeforeSpace(s[1..], post);
    } else {
      var j := WordEnd(s, 0);
      WordEndIs(s + post, 0, j);
      assert (s + post)[..j] == s[..j];
      assert (s + post)[j..] == s[j..] + post;
      WordsBeforeSpace(s[j..], post);
    }
  }

  /** `trim()` keeps every word. */
  lemma {:induction false} TrimKeepsWords(s: string)
    ensures Words(Trim(s)) == Words(s)
  {
    var a := SpaceRunEnd(s, 0);
    var b := SpaceRunStart(s, a, |s|);
    assert AllSpace(s[..a]) by {
      forall k | 0 <= k < a ensures IsSpace(s[..a][k]) { assert s[..a][k] == s[k]; }
    }
    assert AllSpace(s[b..]) by {
      forall k | 0 <= k < |s| - b ensures IsSpace(s[b..][k]) { assert s[b..][k] == s[b + k]; }
    }
    assert s == s[..a] + (s[a..b] + s[b..]);
    WordsAfterSpace(s[..a], s[a..b] + s[b..]);
    WordsBeforeSpace(s[a..b], s[b..]);
  }

  /** A character other than white space in front of `x` starts the first word or joins it. */
  lemma {:induction false} WordsCons(c: char, x: string)
    requires !IsSpace(c)
    ensures x != [] && !IsSpace(x[0]) ==> Words([c] + x) == [[c] + Words(x)[0]] + Words(x)[1..]
    ensures x == [] || IsSpace(x[0]) ==> Words([c] + x) == [[c]] + Words(x)
  {
    var s := [c] + x;
    var j := WordEnd(x, 0);
    WordEndIs(s, 0, j + 1);
    assert s[..j + 1] == [c] + x[..j];
    assert s[j + 1..] == x[j..];
    if x == [] || IsSpace(x[0]) {
      assert x[0..] == x;
    }
  }

  /** Collapsing white space keeps every word. */
  lemma {:induction false} CollapseSpacesKeepsWords(s: string)
    ensures Words(CollapseSpaces(s)) == Words(s)
    decreases |s|
  {
    if s == [] { return; }
    if IsSpace(s[0]) {
      CollapseSpacesKeepsWords(s[SpaceRunEnd(s, 0)..]);
      CollapsedSpaceRunKeepsWords(s);
    } else {
      CollapseSpacesKeepsWords(s[1..]);
      CollapsedWordCharKeepsWords(s);
    }
  }

  /** The step for a leading run of white space, which becomes one space. */
  lemma {:induction false} CollapsedSpaceRunKeepsWords(s: string)
    requires s != [] && IsSpace(s[0])
    requires Words(CollapseSpaces(s[SpaceRunEnd(s, 0)..])) == Words(s[SpaceRunEnd(s, 0)..])
    ensures Words(CollapseSpaces(s)) == Words(s)
  {
    var j := SpaceRunEnd(s, 0);
    var y := CollapseSpaces(s[j..]);
    assert CollapseSpaces(s) == " " + y;
    WordsAfterSpace(" ", y);
    WordsDropSpaces(s, j);
  }

  /** Dropping a leading run of white space keeps every word. */
  lemma {:induction false} WordsDropSpaces(s: string, j: nat)
    requires j <= |s| && forall k :: 0 <= k < j ==> IsSpace(s[k])
    ensures Words(s[j..]) == Words(s)
  {
    assert AllSpace(s[..j]) by {
      forall k | 0 <= k < j ensures IsSpace(s[..j][k]) { assert s[..j][k] == s[k]; }
    }
    WordsAfterSpace(s[..j], s[j..]);
    assert s[..j] + s[j..] == s;
  }

  /** The step for a leading character other than white space, which is kept. */
  lemma {:induction false} CollapsedWordCharKeepsWords(s: string)
    requires s != [] && !IsSpace(s[0])
    requires Words(CollapseSpaces(s[1..])) == Words(s[1..])
    ensures Words(CollapseSpaces(s)) == Words(s)
  {
    assert CollapseSpaces(s) == [s[0]] + CollapseSpaces(s[1..]);
    WordsCons(s[0], CollapseSpaces(s[1..]));
    WordsCons(s[0], s[1..]);
    assert s == [s[0]] + s[1..];
  }

  /** Two words with one space between them. */
  lemma {:induction false} TwoWords(a: string, b: string)
    requires IsWord(a) && IsWord(b)
    ensures Words(a + " " + b) == [a, b]
  {
    var s := a + " " + b;
    assert s[0] == a[0] && s[|a|] == ' ';
    WordEndIs(s, 0, |a|);
    assert s[..|a|] == a;
    assert s[|a|..] == " " + b;
    assert Words(s) == [a] + Words(" " + b);
    assert (" " + b)[1..] == b;
    assert Words(" " + b) == Words(b);
    WordEndIs(b, 0, |b|);
    assert b[..|b|] == b && b[|b|..] == [];
    assert Words(b) == [b];
  }

  /** Any part of a collapsed text is collapsed. */
  lemma {:induction false} CollapsedSlice(s: string, a: nat, b: nat)
    requires a <= b <= |s| && IsCollapsed(s)
    ensures IsCollapsed(s[a..b])
  {
    var t := s[a..b];
    forall i | 0 <= i < |t| && IsSpace(t[i])
      ensures t[i] == ' ' && (i + 1 < |t| ==> !IsSpace(t[i + 1]))
    {
      assert t[i] == s[a + i];
      if i + 1 < |t| { assert t[i + 1] == s[a + i + 1]; }
    }
  }

  /**
   * `s.replace(/\s+/g, " ").trim()` is the words of `s`, single-spaced.
   */
  lemma {:induction false} CollapseThenTrim(s: string)
    ensures Trim(CollapseSpaces(s)) == Unwords(Words(s))
  {
    var c := CollapseSpaces(s);
    CollapseSpacesCollapses(s);
    CollapsedSlice(c, SpaceRunEnd(c, 0), SpaceRunStart(c, SpaceRunEnd(c, 0), |c|));
    CollapsedIsUnwords(Trim(c));
    TrimKeepsWords(c);
    CollapseSpacesKeepsWords(s);
  }

  /** A collapsed text without white space at either end is its words, single-spaced. */
  lemma {:induction false} CollapsedIsUnwords(u: string)
    requires IsCollapsed(u)
    requires u == [] || (!IsSpace(u[0]) && !IsSpace(u[|u| - 1]))
    ensures u == Unwords(Words(u))
    decreases |u|
  {
    if u == [] { return; }
    var j := WordEnd(u, 0);
    if j == |u| {
      assert u[..j] == u && u[j..] == [];
    } else {
      assert u[j] == ' ' && j + 1 < |u| && !IsSpace(u[j + 1]);
      var rest := u[j + 1..];
      assert IsCollapsed(rest) by {
        forall i | 0 <= i < |rest| && IsSpace(rest[i])
          ensures rest[i] == ' ' && (i + 1 < |rest| ==> !IsSpace(rest[i + 1]))
        {
          assert rest[i] == u[j + 1 + i];
        }
      }
      CollapsedIsUnwords(rest);
      assert u[j..][1..] == rest;
      var ws := Words(rest);
      assert ws != [];
      var all := [u[..j]] + ws;
      assert all[1..] == ws;
      assert u == u[..j] + [' '] + rest;
    }
  }

  // ---------------------------------------------------------------------
  // replace(/,/g, "") and toLowerCase()
  // ---------------------------------------------------------------------

  /** `s.replace(/c/g, "")` for a single literal character `c`. */
  function Remove(s: string, c: char): (r: string)
    ensures c !in r
    ensures forall d :: d != c ==> (d in r <==> d in s)
    ensures c !in s ==> r == s
    decreases |s|
  {
    if s == [] then []
    else
      assert s == [s[0]] + s[1..];
      (if s[0] == c then [] else [s[0]]) + Remove(s[1..], c)
  }

  /** Removing distributes over concatenation, so the kept characters stay in order. */
  lemma {:induction false} RemoveAppend(a: string, b: string, c: char)
    ensures Remove(a + b, c) == Remove(a, c) + Remove(b, c)
    decreases |a|
  {
    if a == [] {
      assert a + b == b;
    } else {
      assert (a + b)[1..] == a[1..] + b;
      RemoveAppend(a[1..], b, c);
    }
  }

  /** One character is dropped when it is `c` and kept otherwise. */
  lemma {:induction false} RemoveOne(d: char, c: char)
    ensures Remove([d], c) == (if d == c then [] else [d])
  {
    assert [d][1..] == [];
  }

  /**
   * Lower case of one character, for the characters whose lower case is
   * ASCII: `A`-`Z`, and KELVIN SIGN, which lower-cases to `k`. Every other
   * character is kept; where its lower case differs, that lower case holds
   * no digit, sign, point, `e`, `k` or `m` (U+0130 becomes `i` and a
   * combining dot), so it cannot change how the badge decoder reads a token.
   */
  function LowerChar(c: char): (l: char)
    ensures IsDigit(l) <==> IsDigit(c)
  {
    if 'A' <= c <= 'Z' then (c as int + 32) as char
    else if c == '\U{212A}' then 'k'
    else c
  }

  /** `s.toLowerCase()`, character by character. */
  function ToLower(s: string): (r: string)
    ensures |r| == |s|
    ensures forall i :: 0 <= i < |s| ==> r[i] == LowerChar(s[i])
  {
    seq(|s|, i requires 0 <= i < |s| => LowerChar(s[i]))
  }

  /** `s.endsWith(c)` for a one-character suffix. */
  predicate EndsWith(s: string, c: char) {
    |s| > 0 && s[|s| - 1] == c
  }
}
