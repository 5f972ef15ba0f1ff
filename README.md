# Home-page trackers, modelled in Dafny

The home page has two live panels, both driven by `js/home-trackers.js`.

- **GitHub repository list.** Each repository row shows a sparkline of weekly commit totals. GitHub answers 202 while it is still computing the statistics, so the commit-activity poller asks again after a growing delay.
- **Bioconda package list.** Each package's latest version, summary and download count are resolved from up to four sources, tried in order: the Anaconda package API, the downloads badge SVG, the version badge SVG and the recipe README. The downloads badge is requested only while the count is empty and the version badge only while the version is empty. The README is requested whenever the version is still empty after both; its paragraph then fills the summary only if that is empty too. A bar shows each package's downloads relative to the largest.

The model is split into modules that follow the script's parts:

| file | module | what it models |
|---|---|---|
| `wrappers.dfy` | `Wrappers` | `Option` |
| `text.dfy` | `Text` | the JavaScript string operations used: tag stripping with `/<[^>]+>/g`, `\s+` collapsing, `trim`, `split`, removal of commas, `toLowerCase` |
| `numbers.dfy` | `Numbers` | `Number` (an integer or NaN), `parseInt(s, 10)`, `parseFloat`, `Math.round`, `String(n)` |
| `badges.dfy` | `Badges` | `parseBadgeCount`, the version pattern applied to the version badge, the README's version code and summary paragraph |
| `display.dfy` | `Display` | `num`/`numFmt`, sparkline heights, download bar widths |
| `activity.dfy` | `Activity` | `fetchCommitActivity` and the chart cell of a repository row |
| `facts.dfy` | `Facts` | `getBiocondaFacts` and the rows of `loadBioconda` |

## How the model is built

- **The resolver is a method.** `getBiocondaFacts` updates three local slots step by step, so `Facts.GetBiocondaFacts` is a method. It keeps those slots and the `for … of … break` loop over the README's `code` elements, which is `Facts.FirstVersionInCodes`. It is proved equal to a field-wise specification, `Facts.ResolveFacts`:
  - latest version: the first of API, version badge, README;
  - downloads: the API's count, else the badge's;
  - summary: the API's, else the README paragraph's when the README stage runs.

  It also returns the endpoints it requests, so the lemmas can state which fallbacks are skipped.
- **The poller is a function.** `fetchCommitActivity` is recursive and updates nothing, so it is a function of a `server` that maps the index of each request to its response. Its `Poll` result records the outcome, the number of requests and the waits between them.
- **Words are the reference for the text chain.** `Text.Words` splits a text into its maximal runs of characters other than white space. The badge tokens and the README summary are each proved equal to an expression over those words, independently of how the chain of `replace`, `trim` and `split` computes them.
- **Numbers are exact.** A JavaScript number here is `Int(n)` or `NaN`. `parseFloat` yields an exact rational, and `Math.round(x)` is `floor(x + 1/2)`. `(n / 1000).toFixed(1)` is rounding to the nearest tenth with halves rounded up.
- **`num` and `numFmt` are one function.** They are textually identical (`js/home-trackers.js:8-12` and `:182-186`), so both are modelled by `Display.FormatCount`.
- **How the version pattern picks its match.** `/\b\d+(?:\.\d+)*(?:-[0-9A-Za-z\.]+)?\b/` is modelled as the leftmost start and, from that start, the longest end with a word boundary at both ends. For this pattern, the backtracking order gives the same match:
  - a shorter digit run ends between two digits, where `\b` fails;
  - fewer `.digits` groups stop in front of a `.`, which cannot start the suffix;
  - the optional suffix and its greedy class are tried longest first.
- **NaN download counts.** A `k` or `m` token with no leading number (`"v1.2k"`) makes `parseBadgeCount` return NaN rather than null. The resolver keeps NaN, because `n != null` and `downloads ?? 0` both let it through. The page then shows "NaN downloads" and a NaN bar width. `Badges.UnnumberedThousandsIsNaN` and `Facts.NaNBadgeCountIsShown` state this behaviour as the code has it.

Three behaviours of the code that the model keeps as written:

- **A server that always answers 202.** The poller makes `retries + 1` requests. Because 202 counts as `res.ok`, the body of the last 202 is returned as data (`Activity.AlwaysAcceptedPolls`).
- **A commit-activity body that does not parse.** `res.json()` is returned un-awaited, so its rejection escapes the poller's `catch`. The whole repository list then shows its failure message (`Activity.ChartFor`).
- **Fact sources.** There are four sources. The two badges are separate steps with separate guards: the downloads badge is guarded by the count, the version badge by the version.

## Model

| member | source | states |
|---|---|---|
| `Text.StripTags` | js/home-trackers.js:120 | the replacement never lengthens the text (what it produces is stated by the lemmas below) |
| `Text.StripTagsKeepsPlainPrefix` | js/home-trackers.js:120 | text before the first `<` is kept as it is |
| `Text.StripTagsOfTag` | js/home-trackers.js:120 | a closed tag `<t>` after tag-free text becomes exactly one space, and stripping goes on after it |
| `Text.StripTagsLeavesNoTag` | js/home-trackers.js:120 | after the global replacement of `<[^>]+>` by a space, no position of the text starts a tag match |
| `Text.StripTagsKeepsCharacters` | js/home-trackers.js:120 | every non-space character of the stripped text comes from the input |
| `Text.CollapseSpaces` | js/home-trackers.js:120 | the collapsed text is never longer, and starts (ends) with white space iff the input does |
| `Text.CollapseSpacesCollapses` | js/home-trackers.js:120 | after `replace(/\s+/g, " ")` every white-space character is a plain space and never followed by more white space |
| `Text.CollapseSpacesKeepsCharacters` | js/home-trackers.js:120 | collapsing keeps exactly the non-white-space characters of the input |
| `Text.Trim` | js/home-trackers.js:120 | the trimmed text neither starts nor ends with white space |
| `Text.TrimIsPadding` | js/home-trackers.js:120 | `trim()` removes only a run of white space at each end: the input is that run, the result and a white-space tail |
| `Text.Split` | js/home-trackers.js:121 | `split(" ")` yields at least one piece, no piece holds the separator, and joining the pieces with it gives the text back |
| `Text.SplitKeepsCharacters` | js/home-trackers.js:121 | a non-separator character is in the text iff it is in one of the pieces |
| `Text.SplitJoin` | js/home-trackers.js:121 | splitting undoes joining when no part holds the separator |
| `Text.Words` | js/home-trackers.js:120-121 | every word is non-empty and holds no white space |
| `Text.CollapseSpacesKeepsWords` | js/home-trackers.js:120 | collapsing white space keeps the words, in order |
| `Text.TrimKeepsWords` | js/home-trackers.js:120 | `trim()` keeps the words, in order |
| `Text.CollapsedIsUnwords` | js/home-trackers.js:120 | a collapsed text with no white space at either end is its words joined by single spaces |
| `Text.CollapseThenTrim` | js/home-trackers.js:120 | `replace(/\s+/g, " ").trim()` is the words of the text joined by single spaces |
| `Text.Remove` | js/home-trackers.js:123 | `replace(/,/g, "")` leaves no comma, keeps every other character, and changes nothing in comma-free text |
| `Text.RemoveAppend` | js/home-trackers.js:123 | removing distributes over concatenation, so the kept characters stay in order and keep their count |
| `Text.RemoveOne` | js/home-trackers.js:123 | a single character is dropped exactly when it is the one removed |
| `Text.ToLower` | js/home-trackers.js:123 | `toLowerCase()` keeps the length and lower-cases each character, position by position |
| `Numbers.NatToString` | js/home-trackers.js:11 | the decimal form of a natural number is a non-empty digit string whose value is that number, with no leading zero |
| `Numbers.IntToString` | js/home-trackers.js:11 | `String(n)` starts with `-` iff `n` is negative, and is digits otherwise |
| `Numbers.ParseIntPrefix` | js/home-trackers.js:126-127 | `parseInt(s, 10)` is NaN exactly when no digit follows the optional sign, and negative only after a `-` |
| `Numbers.ParseFloatPrefix` | js/home-trackers.js:124-125 | `parseFloat(s)` is NaN exactly when neither a digit nor a point and a digit follow the optional sign, and negative only after a `-` |
| `Numbers.IntToStringRoundTrip` | js/home-trackers.js:126 | `parseInt(String(n), 10)` is `n` |
| `Numbers.ParseIntOfDigits` | js/home-trackers.js:126-127 | `parseInt` of a digit run followed by anything that is not a digit is the value of that run (`"12.7"` is 12, `"007x"` is 7) |
| `Numbers.ParseIntOfNegativeDigits` | js/home-trackers.js:126-127 | the same after a minus sign gives the negated value |
| `Numbers.ParseFloatOfDecimal` | js/home-trackers.js:124-125 | `parseFloat` of whole digits, a point and fraction digits, followed by anything that cannot continue the literal, is that decimal |
| `Numbers.ParseFloatOfTenths` | js/home-trackers.js:124-125 | the same with one fraction digit: whole units plus that many tenths |
| `Numbers.Round` | js/home-trackers.js:56 | `Math.round(x)` lies in `(x - 1/2, x + 1/2]` |
| `Badges.BadgeTokens` | js/home-trackers.js:120-121 | the tokens are the words of the tag-stripped badge text, in order, or one empty token when it has none |
| `Badges.FirstDigitToken` | js/home-trackers.js:121-122 | `find(t => /\d/.test(t))`: the first token with a digit, none before it has one, and `None` only when no token has one |
| `Badges.DigitTokenIffDigit` | js/home-trackers.js:119-122 | some token holds a digit iff the tag-stripped badge text does, since collapsing, trimming and splitting touch only white space |
| `Badges.ParseBadgeCount` | js/home-trackers.js:119-128 | a badge whose tag-stripped text has no digit yields null |
| `Badges.FirstDigitWordCount` | js/home-trackers.js:119-128 | the count is the first word of the tag-stripped text that holds a digit, decoded |
| `Badges.DecodeCount` | js/home-trackers.js:123-127 | NaN only for a token ending in `k` or `m`, null only for one ending in neither |
| `Badges.DecodeIgnoresCaseAndCommas` | js/home-trackers.js:123 | commas and letter case never change how a token reads |
| `Badges.LabelledCount` | js/home-trackers.js:119-128 | a count token followed by a one-word caption reads as the token |
| `Badges.ScaledCountWithCaption` | js/home-trackers.js:119-128 | a decimal with a `k` or `m` suffix and a caption, such as `1.2k downloads`, reads as the decimal scaled: 1200 |
| `Badges.NoDigitNoCount` | js/home-trackers.js:122 | a badge whose stripped text has no digit yields null |
| `Badges.PlainTextIsOneToken` | js/home-trackers.js:120-121 | text with no `<` and no white space is a single token |
| `Badges.CommaGroupedCount` | js/home-trackers.js:119-128 | a token of digits and commas (such as `1,234`) reads as the integer its digits spell |
| `Badges.RoundScaled` | js/home-trackers.js:124-125 | `Math.round(parseFloat(s) * scale)` is NaN iff `parseFloat` finds no number, and otherwise within a half of the scaled number |
| `Badges.DecimalScaledCount` | js/home-trackers.js:123-125 | digits, a point, any fraction digits and `k`/`K` (`m`/`M`) read as `Math.round` of the exact decimal times a thousand (a million) |
| `Badges.WholeThousandsCount` | js/home-trackers.js:123-124 | whole digits with `k` or `K` read as that many thousands |
| `Badges.WholeMillionsCount` | js/home-trackers.js:123-125 | whole digits with `m` or `M` read as that many millions |
| `Badges.ScaledDecimalCount` | js/home-trackers.js:123-125 | `d.dk`, `d.dK`, `d.dm` and `d.dM` read as the decimal times a thousand or a million, exactly |
| `Badges.UnnumberedThousandsIsNaN` | js/home-trackers.js:121-124 | a `k` token that starts with a lower-case letter reads as NaN, not null |
| `Badges.VersionForms` | js/home-trackers.js:156 | the version pattern accepts exactly a dotted number, alone or followed by `-` and a non-empty pre-release suffix, so a version starts with a digit |
| `Badges.VersionSamples` | js/home-trackers.js:169 | the version pattern accepts `1.2.3`, `2.0.1-beta.1` and `7` |
| `Badges.NonVersionSamples` | js/home-trackers.js:169 | the version pattern rejects `1..2`, `v1.2`, `1.2-` and `1.` |
| `Badges.LongestMatchEnd` | js/home-trackers.js:156 | from a start, the longest end at which the pattern matches with word boundaries, or none |
| `Badges.FirstVersionMatch` | js/home-trackers.js:156 | a match at the leftmost start that has one, longest from there, or no match anywhere |
| `Badges.BadgeVersion` | js/home-trackers.js:156-157 | the version taken from the version badge is non-empty and wholly matches the version pattern |
| `Badges.BadgeVersionIsFirstMatch` | js/home-trackers.js:156-157 | that version is the text of the leftmost, longest match in the tag-stripped badge, and `None` means no match exists |
| `Badges.IsVersionCode` | js/home-trackers.js:168-169 | a code element holds a version only if its trimmed text is non-empty and starts with a digit |
| `Badges.FirstVersionCode` | js/home-trackers.js:167-170 | the first `code` element whose trimmed text is a version: none before it is one, and `None` only when none is |
| `Badges.ReadmeVersionAt` | js/home-trackers.js:167-170 | when the first version-shaped `code` element is at index `i`, the README stage stores its trimmed text |
| `Badges.ReadmeVersion` | js/home-trackers.js:167-169 | the version the README stage stores wholly matches the version pattern |
| `Badges.ParagraphSummary` | js/home-trackers.js:174 | the summary is the paragraph's words, in order, joined by single spaces: no other white space, none at either end, and the same characters otherwise |
| `Display.FormatCount` | js/home-trackers.js:182-186 | counts of a million and more end in `M`, of a thousand and more in `k`, smaller ones are exactly `String(n)` (and so read back with `parseInt`), and NaN is shown as `NaN` |
| `Display.ToFixed1` | js/home-trackers.js:9-10 | `x.toFixed(1)` has exactly one digit after its point |
| `Display.ToFixed1ReadsBack` | js/home-trackers.js:183-184 | `parseFloat` reads `x.toFixed(1)` back within half a tenth of `x` |
| `Display.TenthsTextValue` | js/home-trackers.js:183-184 | a count of tenths written with one decimal reads back as exactly that many tenths |
| `Display.FormatCountForms` | js/home-trackers.js:9-10 | from a million up the count is `(n / 1e6).toFixed(1)` and `M`, from a thousand up `(n / 1e3).toFixed(1)` and `k`, with `toFixed` as the nearest tenth |
| `Display.FormatCountReadsBack` | js/home-trackers.js:182-186 | the badge reader reads a formatted count back to the count, exactly below a thousand, within 50 for `k`, within 50000 for `M` |
| `Display.ScaledCountReadsBack` | js/home-trackers.js:184 | `t` tenths written with `k` or `M` read back as exactly `t` hundreds or `t` hundred-thousands |
| `Display.MaxOf` | js/home-trackers.js:54 | `Math.max(1, ...totals)` is at least 1, at least every total, and is 1 or one of the totals |
| `Display.BarHeight` | js/home-trackers.js:56 | a bar is at least 2 pixels, at most 28 for a total up to the maximum, and exactly 28 at the maximum; above 2 it is `t / max * 28` rounded to the nearest pixel (within (x − ½, x + ½]), and it is 2 only when that rounds to 2 or less |
| `Display.Sparkline` | js/home-trackers.js:51-58 | nothing for a value that is not a list; otherwise one bar per week, with the week's total and the height `max(2, round(t / max * 28))` |
| `Display.SparkHeightsBounded` | js/home-trackers.js:56 | every bar is 2 to 28 pixels high |
| `Display.SparkHeightsMonotone` | js/home-trackers.js:56 | a week with more commits never gets a lower bar |
| `Display.BusiestWeekFullHeight` | js/home-trackers.js:54-56 | the busiest week, if it has commits, gets the full 28 pixels |
| `Display.RoundMonotone` | js/home-trackers.js:56 | `Math.round` is monotone |
| `Display.CountOrZero` | js/home-trackers.js:206 | `d || 0` is 0 exactly for NaN and 0, and the count itself otherwise |
| `Display.MaxDownloads` | js/home-trackers.js:206 | `maxDl` is at least 1, bounds every count (NaN counting 0), and is 1 or one of the counts |
| `Display.BarWidth` | js/home-trackers.js:216 | the width is NaN iff the count is; otherwise at least 4, at most 100 for a count up to `maxDl`, 100 at `maxDl`, and above 4 it is `d / maxDl * 100` rounded to the nearest percent, 4 only when that rounds to 4 or less |
| `Display.BarWidths` | js/home-trackers.js:216 | one width per package, each computed from that package's count and `maxDl` |
| `Display.BarWidthsBounded` | js/home-trackers.js:216 | a width is NaN iff its count is NaN; every other width is 4 to 100 percent |
| `Display.LargestGetsFullWidth` | js/home-trackers.js:206-216 | the largest positive count gets 100 percent |
| `Display.ZeroGetsMinimumWidth` | js/home-trackers.js:216 | a zero count gets the 4 percent minimum |
| `Display.BarWidthsSample` | js/home-trackers.js:206-216 | counts 0, 0 and 500 get widths 4, 4 and 100 |
| `Activity.Settle` | js/home-trackers.js:39-47 | null exactly for a thrown fetch or a non-2xx status, a rejection exactly for a 2xx body that does not parse, and otherwise the parsed body |
| `Activity.RetriesOn` | js/home-trackers.js:40 | the poller retries only on a reply whose status counts as `res.ok` |
| `Activity.Delays` | js/home-trackers.js:41-42 | the waits start at `delayMs` and each is 1.25 times the one before |
| `Activity.FetchCommitActivity` | js/home-trackers.js:36-49 | every request but the last got a 202 with retries left; the last did not; at most `retries + 1` requests; the waits grow by 1.25; the outcome is the last response's: null for a failed fetch or a non-2xx status, a rejection for an unparsable body, else the body |
| `Activity.AcceptedRetriesOnce` | js/home-trackers.js:40-43 | a 202 with retries left costs one more request, with one retry fewer and 1.25 times the delay, and changes nothing else |
| `Activity.FailureStops` | js/home-trackers.js:39-47 | a thrown fetch or a non-2xx status ends the poll at once with null |
| `Activity.AlwaysAcceptedPolls` | js/home-trackers.js:40-45 | a server that always answers 202 gets `retries + 1` requests, and its last body is returned as data |
| `Activity.RowPoll` | js/home-trackers.js:36-43 | a repository row's poll, with the defaults 6 and 1500 ms, makes 1 to 7 requests, waiting 1500 ms first and 1.25 times longer each time |
| `Activity.WarmingUpSample` | js/home-trackers.js:36-45 | 202, 202, then 200, with 6 retries from 1500 ms: three requests, waits of 1500 and 1875 ms, the data returned |
| `Activity.ChartFor` | js/home-trackers.js:94-99 | a null or falsy result shows the unavailable notice, a rejection fails the whole list, and data shows its sparkline |
| `Facts.EntryCount` | js/home-trackers.js:141 | `f.ndownloads || 0` is 0 exactly when the count is missing or 0, and the count otherwise |
| `Facts.FilesTotal` | js/home-trackers.js:141 | the sum over `files` is undefined (the reduce throws) iff some entry is null; otherwise it is the front-to-back sum of the entries' counts, a missing count adding 0 |
| `Facts.FilesTotalAppend` | js/home-trackers.js:141 | the sum over two lists of files is the sum of their sums |
| `Facts.UncountedEntryAddsNothing` | js/home-trackers.js:141 | an entry without `ndownloads`, or with 0, adds nothing |
| `Facts.ApiDownloads` | js/home-trackers.js:138-142 | the API supplies a count only when it answered; a numeric `ndownloads` is that count; otherwise the sum over `files`, present iff `files` is a list with no null entry |
| `Facts.BadgeDownloads` | js/home-trackers.js:145-151 | the downloads badge supplies a count only when it was fetched and its tag-stripped text has a digit |
| `Facts.ApiSummary` | js/home-trackers.js:137 | the API's summary when it answered, "" when it failed |
| `Facts.ReadmeSummary` | js/home-trackers.js:172-175 | the README supplies a summary iff its stage runs and it has a paragraph; that summary is the paragraph's words joined by single spaces |
| `Facts.ResolvedSummary` | js/home-trackers.js:137-175 | a non-empty API summary wins; otherwise the README's, when it supplies one; otherwise "" |
| `Facts.ApiLatest` | js/home-trackers.js:136 | the API supplies a version only when `latest_version` is non-empty |
| `Facts.BadgeLatest` | js/home-trackers.js:153-158 | the version badge supplies only non-empty versions |
| `Facts.ReadmeLatest` | js/home-trackers.js:162-170 | the README supplies only versions |
| `Facts.FirstVersionInCodes` | js/home-trackers.js:167-170 | the loop over the `code` elements stops at, and stores, the first trimmed text that is a version |
| `Facts.GetBiocondaFacts` | js/home-trackers.js:130-180 | the facts returned are the field-wise first-writer-wins resolution with the defaults `—` and 0, and the endpoints requested are the API, then each fallback only while its slot is empty |
| `Facts.Consulted` | js/home-trackers.js:134-163 | the API is requested first and once; the downloads badge iff the API gave no count, the version badge iff it gave no version, and the README iff neither the API nor the version badge gave one; those requested come in that order |
| `Facts.ResolveFacts` | js/home-trackers.js:179 | the version is never empty: the one resolved, else the placeholder `—`; the count is the one resolved, else 0 |
| `Facts.ApiVersionIsFinal` | js/home-trackers.js:136-162 | a version from the API is kept, and neither the version badge nor the README is requested |
| `Facts.BadgeVersionIsFinal` | js/home-trackers.js:153-162 | a version from the badge is kept, and the README is not requested |
| `Facts.DownloadsBadgeOnlyWhenNeeded` | js/home-trackers.js:138-146 | the downloads badge is requested iff the API left the count empty; an API count is final |
| `Facts.NumericCountWins` | js/home-trackers.js:138-142 | a numeric `ndownloads` is used whatever `files` holds |
| `Facts.ReadmeSummaryOnlyAsFallback` | js/home-trackers.js:137-175 | the summary differs from the API's only when the API gave none and the README stage ran |
| `Facts.DownloadsBadgeFeedsOnlyDownloads` | js/home-trackers.js:145-152 | changing the downloads badge changes neither the version nor the summary |
| `Facts.NaNBadgeCountIsShown` | js/home-trackers.js:146-150 | a NaN count from the badge becomes the package's count, and is shown as `NaN` |
| `Facts.NaNBadgeSample` | js/home-trackers.js:124 | the badge text `v1.2k` reads as NaN |
| `Facts.AllFailingGivesDefaults` | js/home-trackers.js:179 | with every source failing, the facts are `—`, "" and 0, and all four endpoints are requested |
| `Facts.LatestIsSuppliedOrPlaceholder` | js/home-trackers.js:179 | the version shown is the placeholder, the API's `latest_version`, or a string matching the version pattern |
| `Facts.ResolvedCounts` | js/home-trackers.js:200-206 | one resolved count per package, in order |
| `Facts.BiocondaListing` | js/home-trackers.js:197-219 | no packages gives the notice; otherwise one row per package with its name, `v` and version, its bar width, its count text, and the package's summary when it is non-empty |
| `Facts.ListingWidthsBounded` | js/home-trackers.js:206-216 | each row's bar is 4 to 100 percent wide unless its count is NaN |

## Left out

- Network, `fetch`, `setTimeout`, `Promise.all`, JSON and HTML parsing, and the DOM are not modelled.
  - Responses are parameters: `Activity.FetchCommitActivity` takes a map from request index to response, and `Facts.GetBiocondaFacts` takes the four sources.
  - The README is given as the texts of its `code` elements and of the first paragraph of its `main` (or `body`).
- URL building with `encodeURIComponent` is left out, and so is its `URIError` on lone surrogates, which would reject `Promise.all`.
- The markup strings are left out: HTML escaping, `title` attributes and CSS classes. Rows carry the values the markup shows.
- Configuration reading is left out: the `trackers-config` element, `window.__biocfg`, `window.TRACKERS`, and the GitHub user and page size. The package list is a parameter of `Facts.BiocondaListing`.
- The repository loop of `loadGitHubRepos` is modelled only per row (`Activity.ChartFor`). The repository-list request, the "No repositories found." branch, the missing-placeholder `continue` and the row markup are not modelled.
- `fmtDate` is left out, since it depends on the locale. `js/clock.js` and `js/vega-init.js` are not part of this model.
- Double-precision arithmetic is not modelled: values are exact rationals. Outside the model:
  - `toFixed` and `Math.round` on a value that lies within rounding error of a half;
  - `parseInt` of a value of about 1.8e308 or more, which gives `Infinity` and then null.
- Activity weeks are modelled as integer totals. A week that is not an object with a numeric `total` is not modelled: a `null` week makes `w.total` throw, which fails the whole list, and a non-numeric total gives NaN heights.
- Counts are integers. A non-integer numeric `ndownloads` cannot be represented.
- A `k` or `m` token whose number is too large for a double reads as `Infinity` and would be shown as "InfinityM"; exact numbers never overflow. `Numbers.ParseFloatPrefix` does not accept the literal `Infinity`, which a lower-cased badge token can never spell.
- API fields of unexpected types are not modelled: a non-string `latest_version` or `summary`, or a non-number `ndownloads` inside `files`, which `+` would turn into string concatenation. A `null` API body is modelled as a failed API request, which has the same effect.
- Display.FormatCount: numbers above a million are written with the integer part of their tenths, with no exponent. That matches `toFixed` below 10^21, and the model does not bound counts.
- Text.LowerChar: lower-casing is modelled for `A`-`Z` and KELVIN SIGN only. Other characters are kept, since their lower case cannot change how a token is decoded.
