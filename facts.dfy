/**
 * The package fact resolver (`getBiocondaFacts`) and the package list built
 * from its results (`loadBioconda`). The resolver fills three slots, the
 * latest version, the summary and the download count, from up to four
 * sources tried in order, each only while the slots it feeds are empty.
 */
module Facts {
  import opened Wrappers
  import opened Text
  import opened Numbers
  import opened Badges
  import opened Display

  // =====================================================================
  // The sources, as the resolver receives them
  // =====================================================================

  /** An element of the package API's `files` list: `null`, or an object with an optional numeric `ndownloads`. */
  datatype FileEntry = NullEntry | Entry(ndownloads: Option<int>)

  /**
   * The package API's answer. A failed request, a non-2xx status, a body
   * that does not parse and a `null` body all end in its `catch`.
   * `latestVersion` and `summary` are "" when absent or empty; `ndownloads`
   * is present when it is a number; `files` is present when it is a list.
   */
  datatype ApiResponse =
    | ApiFailure
    | ApiOk(latestVersion: string, summary: string, ndownloads: Option<int>, files: Option<seq<FileEntry>>)

  /** A badge SVG fetched as text. */
  datatype TextResponse = TextFailure | TextOk(text: string)

  /** The recipe README: the texts of its `code` elements and of its first paragraph, if any. */
  datatype ReadmeResponse = ReadmeFailure | ReadmeOk(codes: seq<string>, paragraph: Option<string>)

  datatype Sources = Sources(api: ApiResponse, downloadsBadge: TextResponse, versionBadge: TextResponse, readme: ReadmeResponse)

  /** The endpoints the resolver may request, in the order it requests them. */
  datatype Endpoint = PackageApi | DownloadsBadge | VersionBadge | RecipeReadme

  /** `{ latest, summary, downloads }` as returned. */
  datatype PackageFacts = PackageFacts(latest: string, summary: string, downloads: Number)

  /** The placeholder shown when no version was found. */
  const NoVersion: string := "—"

  // =====================================================================
  // What each source contributes
  // =====================================================================

  /** `f.ndownloads || 0`. */
  function EntryCount(f: FileEntry): (n: int)
    requires f.Entry?
    ensures n == 0 <==> f.ndownloads.None? || f.ndownloads.value == 0
    ensures n != 0 ==> f.ndownloads == Some(n)
  {
    f.ndownloads.GetOr(0)
  }

  /**
   * `files.reduce((acc, f) => acc + (f.ndownloads || 0), 0)`; `None` when
   * some entry is `null`, where reading `f.ndownloads` throws.
   */
  function FilesTotal(files: seq<FileEntry>): (r: Option<int>)
    ensures r.None? <==> NullEntry in files
    ensures r.Some? ==> r.value == SumCounts(files)
    decreases |files|
  {
    if files == [] then Some(0)
    else
      var last := files[|files| - 1];
      assert files == files[..|files| - 1] + [last];
      SumCountsSnoc(files[..|files| - 1], last);
      match FilesTotal(files[..|files| - 1])
      case None => None
      case Some(acc) => if last.NullEntry? then None else Some(acc + EntryCount(last))
  }

  /** The counts of the entries, added front to back; a `null` entry adds nothing. */
  function SumCounts(files: seq<FileEntry>): int
    decreases |files|
  {
    if files == [] then 0
    else (if files[0].Entry? then EntryCount(files[0]) else 0) + SumCounts(files[1..])
  }

  lemma {:induction false} SumCountsSnoc(files: seq<FileEntry>, f: FileEntry)
    ensures SumCounts(files + [f]) == SumCounts(files) + (if f.Entry? then EntryCount(f) else 0)
    decreases |files|
  {
    if files == [] {
      assert [] + [f] == [f];
      assert [f][1..] == [];
    } else {
      assert (files + [f])[1..] == files[1..] + [f];
      SumCountsSnoc(files[1..], f);
    }
  }

  /** The sum over two lists of files is the sum of their sums. */
  lemma {:induction false} FilesTotalAppend(a: seq<FileEntry>, b: seq<FileEntry>)
    requires NullEntry !in a + b
    ensures FilesTotal(a + b).Some? && FilesTotal(a).Some? && FilesTotal(b).Some?
    ensures FilesTotal(a + b).value == FilesTotal(a).value + FilesTotal(b).value
    decreases |b|
  {
    if b == [] {
      assert a + b == a;
    } else {
      var b' := b[..|b| - 1];
      assert (a + b)[..|a + b| - 1] == a + b';
      assert b == b' + [b[|b| - 1]];
      FilesTotalAppend(a, b');
    }
  }

  /** An entry without a count, or with 0, adds nothing. */
  lemma {:induction false} UncountedEntryAddsNothing(files: seq<FileEntry>, f: FileEntry)
    requires f == Entry(None) || f == Entry(Some(0))
    ensures FilesTotal(files + [f]) == FilesTotal(files)
  {
    assert (files + [f])[..|files|] == files;
  }

  /** The version the package API supplies: a non-empty `latest_version`. */
  function ApiLatest(api: ApiResponse): (r: Option<string>)
    ensures r.Some? ==> r.value != []
  {
    if api.ApiOk? && api.latestVersion != "" then Some(api.latestVersion) else None
  }

  /** The summary the package API supplies, "" for none. */
  function ApiSummary(api: ApiResponse): (s: string)
    ensures api.ApiFailure? ==> s == ""
    ensures api.ApiOk? ==> s == api.summary
  {
    if api.ApiOk? then api.summary else ""
  }

  /** The count the package API supplies: a numeric `ndownloads` first, else the total over `files`. */
  function ApiDownloads(api: ApiResponse): (r: Option<Number>)
    ensures r.Some? ==> api.ApiOk? && r.value.Int?
    ensures api.ApiOk? && api.ndownloads.Some? ==> r == Some(Int(api.ndownloads.value))
    ensures api.ApiOk? && api.ndownloads.None? ==>
              (r.Some? <==> api.files.Some? && NullEntry !in api.files.value)
    ensures r.Some? && api.ndownloads.None? ==> r.value == Int(SumCounts(api.files.value))
  {
    match api
    case ApiFailure => None
    case ApiOk(_, _, ndownloads, files) =>
      if ndownloads.Some? then Some(Int(ndownloads.value))
      else if files.Some? then
        match FilesTotal(files.value)
        case Some(total) => Some(Int(total))
        case None => None
      else None
  }

  /** The count the downloads badge supplies. */
  function BadgeDownloads(r: TextResponse): (n: Option<Number>)
    ensures n.Some? ==> r.TextOk? && HasDigit(StripTags(r.text))
  {
    if r.TextOk? then ParseBadgeCount(r.text) else None
  }

  /** The version the version badge supplies. */
  function BadgeLatest(r: TextResponse): (v: Option<string>)
    ensures v.Some? ==> v.value != [] && IsVersion(v.value)
  {
    if r.TextOk? then BadgeVersion(r.text) else None
  }

  /** The version the README supplies. */
  function ReadmeLatest(r: ReadmeResponse): (v: Option<string>)
    ensures v.Some? ==> IsVersion(v.value)
  {
    if r.ReadmeOk? then ReadmeVersion(r.codes) else None
  }

  /** The README stage runs when neither the API nor the version badge gave a version. */
  predicate ReadmeRuns(src: Sources)
  {
    ApiLatest(src.api).None? && BadgeLatest(src.versionBadge).None?
  }

  /** The summary the README supplies, when its stage runs and it has a paragraph. */
  function ReadmeSummary(src: Sources): (r: Option<string>)
    ensures r.Some? <==> ReadmeRuns(src) && src.readme.ReadmeOk? && src.readme.paragraph.Some?
    ensures r.Some? ==> r.value == Unwords(Words(src.readme.paragraph.value))
  {
    if ReadmeRuns(src) && src.readme.ReadmeOk? && src.readme.paragraph.Some? then
      Some(ParagraphSummary(src.readme.paragraph.value))
    else None
  }

  function FirstOf<T>(a: Option<T>, b: Option<T>): Option<T>
  {
    if a.Some? then a else b
  }

  // =====================================================================
  // The resolution, field by field
  // =====================================================================

  /** The first source, in order API, version badge, README, that supplies a version. */
  function ResolvedLatest(src: Sources): Option<string>
  {
    FirstOf(ApiLatest(src.api), FirstOf(BadgeLatest(src.versionBadge), ReadmeLatest(src.readme)))
  }

  /** The API's count, else the badge's. */
  function ResolvedDownloads(src: Sources): Option<Number>
  {
    FirstOf(ApiDownloads(src.api), BadgeDownloads(src.downloadsBadge))
  }

  /** The API's summary, else the README's (when that stage runs), else "". */
  function ResolvedSummary(src: Sources): (s: string)
    ensures ApiSummary(src.api) != "" ==> s == ApiSummary(src.api)
    ensures ApiSummary(src.api) == "" && ReadmeSummary(src).Some? ==> s == ReadmeSummary(src).value
    ensures ApiSummary(src.api) == "" && ReadmeSummary(src).None? ==> s == ""
  {
    var s := ApiSummary(src.api);
    if s != "" then s
    else match ReadmeSummary(src)
      case Some(p) => p
      case None => ""
  }

  /**
   * `{ latest: latest || "—", summary, downloads: downloads ?? 0 }`: never an
   * empty version, the placeholder and a zero count only where no source
   * supplied one.
   */
  function ResolveFacts(src: Sources): (f: PackageFacts)
    ensures f.latest != []
    ensures ResolvedLatest(src).None? ==> f.latest == NoVersion
    ensures ResolvedLatest(src).Some? ==> f.latest == ResolvedLatest(src).value
    ensures ResolvedDownloads(src).None? ==> f.downloads == Int(0)
    ensures ResolvedDownloads(src).Some? ==> f.downloads == ResolvedDownloads(src).value
  {
    PackageFacts(ResolvedLatest(src).GetOr(NoVersion), ResolvedSummary(src), ResolvedDownloads(src).GetOr(Int(0)))
  }

  /** The position of an endpoint in the order the resolver tries them. */
  function Rank(e: Endpoint): nat
  {
    match e
    case PackageApi => 0
    case DownloadsBadge => 1
    case VersionBadge => 2
    case RecipeReadme => 3
  }

  /** The endpoints requested: the API always, each fallback only while its slot is empty, in order. */
  function Consulted(src: Sources): (es: seq<Endpoint>)
    ensures |es| >= 1 && es[0] == PackageApi && PackageApi !in es[1..]
    ensures forall i :: 0 < i < |es| ==> Rank(es[i - 1]) < Rank(es[i])
    ensures DownloadsBadge in es <==> ApiDownloads(src.api).None?
    ensures VersionBadge in es <==> ApiLatest(src.api).None?
    ensures RecipeReadme in es <==> ReadmeRuns(src)
  {
    Requests(ApiDownloads(src.api).None?, ApiLatest(src.api).None?, ReadmeRuns(src))
  }

  /** The API, then each fallback whose flag is set, in order. */
  function Requests(downloadsBadge: bool, versionBadge: bool, readme: bool): (es: seq<Endpoint>)
    ensures |es| >= 1 && es[0] == PackageApi && PackageApi !in es[1..]
    ensures forall i :: 0 < i < |es| ==> Rank(es[i - 1]) < Rank(es[i])
    ensures DownloadsBadge in es <==> downloadsBadge
    ensures VersionBadge in es <==> versionBadge
    ensures RecipeReadme in es <==> readme
  {
    var es := [PackageApi] + When(downloadsBadge, DownloadsBadge) + When(versionBadge, VersionBadge) + When(readme, RecipeReadme);
    assert es[1..] == When(downloadsBadge, DownloadsBadge) + When(versionBadge, VersionBadge) + When(readme, RecipeReadme);
    es
  }

  /** `[e]` when `b` holds, else nothing. */
  function When(b: bool, e: Endpoint): (es: seq<Endpoint>)
    ensures forall x :: x in es <==> b && x == e
  {
    if b then [e] else []
  }

  // =====================================================================
  // getBiocondaFacts
  // =====================================================================

  /** The first code text that is a version, scanning in document order and stopping there. */
  method FirstVersionInCodes(codes: seq<string>) returns (latest: Option<string>)
    ensures latest == ReadmeVersion(codes)
  {
    latest := None;
    var i := 0;
    while i < |codes|
      invariant 0 <= i <= |codes|
      invariant latest.None?
      invariant forall j :: 0 <= j < i ==> !IsVersionCode(codes[j])
    {
      var t := Trim(codes[i]);
      if IsVersion(t) {
        ReadmeVersionAt(codes, i);
        latest := Some(t);
        break;
      }
      i := i + 1;
    }
  }

  /**
   * `getBiocondaFacts(pkg)`, with the four responses given. Returns the
   * facts and the endpoints requested, in order.
   */
  method GetBiocondaFacts(src: Sources) returns (facts: PackageFacts, consulted: seq<Endpoint>)
    ensures facts == ResolveFacts(src)
    ensures consulted == Consulted(src)
  {
    var latest: Option<string> := None;
    var summary := "";
    var downloads: Option<Number> := None;

    // 1) The package API.
    consulted := [PackageApi];
    if src.api.ApiOk? {
      var data := src.api;
      if data.latestVersion != "" { latest := Some(data.latestVersion); }
      if data.summary != "" { summary := data.summary; }
      if data.ndownloads.Some? {
        downloads := Some(Int(data.ndownloads.value));
      } else if data.files.Some? {
        var total := FilesTotal(data.files.value);
        if total.Some? { downloads := Some(Int(total.value)); }
      }
    }
    assert latest == ApiLatest(src.api) && downloads == ApiDownloads(src.api);
    assert summary == ApiSummary(src.api);

    // 2) The badges.
    if downloads.None? {
      consulted := consulted + [DownloadsBadge];
      if src.downloadsBadge.TextOk? {
        var n := ParseBadgeCount(src.downloadsBadge.text);
        if n.Some? { downloads := n; }
      }
    }
    assert downloads == ResolvedDownloads(src);
    ghost var d := ApiDownloads(src.api).None?;
    assert consulted == [PackageApi] + When(d, DownloadsBadge);
    if latest.None? {
      consulted := consulted + [VersionBadge];
      if src.versionBadge.TextOk? {
        var m := BadgeVersion(src.versionBadge.text);
        if m.Some? { latest := m; }
      }
    }
    assert latest == FirstOf(ApiLatest(src.api), BadgeLatest(src.versionBadge));
    ghost var v := ApiLatest(src.api).None?;
    assert consulted == [PackageApi] + When(d, DownloadsBadge) + When(v, VersionBadge);

    // 3) The recipe README.
    if latest.None? {
      consulted := consulted + [RecipeReadme];
      if src.readme.ReadmeOk? {
        latest := FirstVersionInCodes(src.readme.codes);
        if summary == "" && src.readme.paragraph.Some? {
          summary := ParagraphSummary(src.readme.paragraph.value);
        }
      }
    }

    assert latest == ResolvedLatest(src) && summary == ResolvedSummary(src);
    assert consulted == Requests(d, v, ReadmeRuns(src));
    facts := PackageFacts(latest.GetOr(NoVersion), summary, downloads.GetOr(Int(0)));
  }

  // =====================================================================
  // Precedence
  // =====================================================================

  /** A version from the API is final: neither the version badge nor the README is requested. */
  lemma {:induction false} ApiVersionIsFinal(src: Sources)
    requires ApiLatest(src.api).Some?
    ensures ResolveFacts(src).latest == src.api.latestVersion
    ensures VersionBadge !in Consulted(src) && RecipeReadme !in Consulted(src)
  {
    assert ResolvedLatest(src) == ApiLatest(src.api);
    assert !ReadmeRuns(src);
  }

  /** A version from the badge is final: the README is not requested. */
  lemma {:induction false} BadgeVersionIsFinal(src: Sources)
    requires ApiLatest(src.api).None? && BadgeLatest(src.versionBadge).Some?
    ensures ResolveFacts(src).latest == BadgeLatest(src.versionBadge).value
    ensures VersionBadge in Consulted(src) && RecipeReadme !in Consulted(src)
  {
    assert ResolvedLatest(src) == BadgeLatest(src.versionBadge);
    assert !ReadmeRuns(src);
  }

  /** The downloads badge is requested exactly when the API left the count empty. */
  lemma {:induction false} DownloadsBadgeOnlyWhenNeeded(src: Sources)
    ensures DownloadsBadge in Consulted(src) <==> ApiDownloads(src.api).None?
    ensures ApiDownloads(src.api).Some? ==> ResolveFacts(src).downloads == ApiDownloads(src.api).value
  {
  }

  /** A numeric `ndownloads` wins over the `files` list. */
  lemma {:induction false} NumericCountWins(v: string, s: string, n: int, files: Option<seq<FileEntry>>, rest: Sources)
    ensures ResolveFacts(rest.(api := ApiOk(v, s, Some(n), files))).downloads == Int(n)
  {
  }

  /**
   * The README's paragraph is the summary only when the README stage runs
   * and the API gave none.
   */
  lemma {:induction false} ReadmeSummaryOnlyAsFallback(src: Sources)
    ensures ResolveFacts(src).summary != ApiSummary(src.api) ==>
              ApiSummary(src.api) == "" && ReadmeRuns(src) && RecipeReadme in Consulted(src)
  {
  }

  /** Each fallback only feeds its own slot: the downloads badge never changes the version or summary. */
  lemma {:induction false} DownloadsBadgeFeedsOnlyDownloads(src: Sources, other: TextResponse)
    ensures ResolveFacts(src.(downloadsBadge := other)).latest == ResolveFacts(src).latest
    ensures ResolveFacts(src.(downloadsBadge := other)).summary == ResolveFacts(src).summary
  {
  }

  /**
   * A NaN count from the downloads badge survives `downloads ?? 0` (which
   * only replaces null) and is shown as "NaN" followed by " downloads".
   */
  lemma {:induction false} NaNBadgeCountIsShown(src: Sources)
    requires ApiDownloads(src.api).None? && BadgeDownloads(src.downloadsBadge) == Some(NaN)
    ensures ResolveFacts(src).downloads == NaN
    ensures FormatCount(ResolveFacts(src).downloads) == "NaN"
  {
    assert ResolveFacts(src).downloads == NaN by {
      assert ResolvedDownloads(src) == Some(NaN);
    }
  }

  /** "v1.2k" is such a badge text. */
  lemma {:induction false} NaNBadgeSample()
    ensures BadgeDownloads(TextOk("v1.2k")) == Some(NaN)
  {
    var token := "v1.2k";
    assert IsDigit(token[1]);
    UnnumberedThousandsIsNaN(token);
  }

  /** With every source failing, the facts are the defaults. */
  lemma {:induction false} AllFailingGivesDefaults()
    ensures ResolveFacts(Sources(ApiFailure, TextFailure, TextFailure, ReadmeFailure)) == PackageFacts(NoVersion, "", Int(0))
    ensures Consulted(Sources(ApiFailure, TextFailure, TextFailure, ReadmeFailure))
            == [PackageApi, DownloadsBadge, VersionBadge, RecipeReadme]
  {
  }

  /** The resolved version is the placeholder or a version some source supplied. */
  lemma {:induction false} LatestIsSuppliedOrPlaceholder(src: Sources)
    ensures var l := ResolvedLatest(src).GetOr(NoVersion);
            l == NoVersion || (src.api.ApiOk? && l == src.api.latestVersion) || IsVersion(l)
  {
    var a, b, c := ApiLatest(src.api), BadgeLatest(src.versionBadge), ReadmeLatest(src.readme);
    if a.Some? {
      assert ResolvedLatest(src) == a;
    } else if b.Some? {
      assert ResolvedLatest(src) == b;
    } else {
      assert ResolvedLatest(src) == c;
    }
  }

  // =====================================================================
  // loadBioconda
  // =====================================================================

  /** One package row: name, "v" + version, bar width, count text and the summary if non-empty. */
  datatype Row = Row(pkg: string, version: string, width: Number, count: string, summary: Option<string>)

  datatype Listing = NoPackages | Rows(rows: seq<Row>)

  /** The download counts of the packages, in order. */
  function ResolvedCounts(sources: seq<Sources>): (ds: seq<Number>)
    ensures |ds| == |sources|
    ensures forall i :: 0 <= i < |sources| ==> ds[i] == ResolveFacts(sources[i]).downloads
  {
    seq(|sources|, i requires 0 <= i < |sources| => ResolveFacts(sources[i]).downloads)
  }

  /**
   * The package list for `pkgs`, the i-th package's sources being
   * `sources[i]`: each row shows that package's resolved facts, with the
   * bars scaled by the largest count.
   */
  function BiocondaListing(pkgs: seq<string>, sources: seq<Sources>): (l: Listing)
    requires |pkgs| == |sources|
    ensures l.NoPackages? <==> pkgs == []
    ensures l.Rows? ==> |l.rows| == |pkgs|
    ensures l.Rows? ==> forall i :: 0 <= i < |pkgs| ==>
              var f := ResolveFacts(sources[i]);
              && l.rows[i].pkg == pkgs[i]
              && l.rows[i].version == "v" + f.latest
              && l.rows[i].width == BarWidths(ResolvedCounts(sources))[i]
              && l.rows[i].count == FormatCount(f.downloads) + " downloads"
              && (l.rows[i].summary.Some? <==> f.summary != "")
              && (l.rows[i].summary.Some? ==> l.rows[i].summary.value == f.summary)
  {
    if pkgs == [] then NoPackages
    else
      var widths := BarWidths(ResolvedCounts(sources));
      Rows(seq(|pkgs|, i requires 0 <= i < |pkgs| =>
        var f := ResolveFacts(sources[i]);
        Row(pkgs[i], "v" + f.latest, widths[i], FormatCount(f.downloads) + " downloads",
            if f.summary != "" then Some(f.summary) else None)))
  }

  /** Every row's bar is 4 to 100 percent wide, unless its count is NaN. */
  lemma {:induction false} ListingWidthsBounded(pkgs: seq<string>, sources: seq<Sources>, i: nat)
    requires |pkgs| == |sources| && i < |pkgs|
    ensures var l := BiocondaListing(pkgs, sources);
            l.Rows? && (l.rows[i].width.NaN? <==> ResolveFacts(sources[i]).downloads.NaN?)
            && (l.rows[i].width.Int? ==> 4 <= l.rows[i].width.value <= 100)
  {
    BarWidthsBounded(ResolvedCounts(sources), i);
  }
}
