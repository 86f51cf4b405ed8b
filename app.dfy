/** The resolution chain of app.py: the local database scan, `check_single_task`, which
    tries the verifiers in a fixed order and stops at the first that confirms the
    reference, and the ordering of a batch of results by id. */
module App {
  import opened PyText
  import opened Parsers
  import opened TitleMatch
  import opened Verifiers
  import opened Refine

  // ---------------------------------------------------------------------------
  // search_local_database
  // ---------------------------------------------------------------------------

  /** A row of the local CSV frame: column name to the cell's `str()`. */
  type Row = map<string, string>

  /** difflib's `ratio()`, 2M/T with T the total length, and 1.0 for two empty strings. */
  function Ratio(m: Matcher, a: string, b: string): (r: real)
    ensures 0.0 <= r
  {
    if |a| + |b| == 0 then 1.0 else (2 * m(a, b)) as real / (|a| + |b|) as real
  }

  /** The score of one database title against the cleaned query: 1.0 when either
      contains the other, otherwise the ratio. */
  function Score(m: Matcher, q: string, d: string): (r: real)
    ensures 0.0 <= r
  {
    if Contains(d, q) || Contains(q, d) then 1.0 else Ratio(m, q, d)
  }

  /** The score of each row: that of its cleaned title column (a row without the
      column is never scored, the scan raises there). */
  function ScoreOf(u: Ucd, m: Matcher, q: string, col: string): Row -> real {
    row => if col in row then Score(m, q, AppCleanTitle(u, row[col])) else 0.0
  }

  /** The loop over the rows from a running best: a row that scores strictly more
      than the best so far replaces it, and a row without the column raises KeyError. */
  function Scan(score: Row -> real, col: string, rows: seq<Row>, best: real, bestRow: Option<Row>)
    : Result<(real, Option<Row>)>
  {
    if rows == [] then Ok((best, bestRow))
    else if col !in rows[0] then Raised(KeyError)
    else if score(rows[0]) > best then Scan(score, col, rows[1..], score(rows[0]), Some(rows[0]))
    else Scan(score, col, rows[1..], best, bestRow)
  }

  /** `search_local_database(df, title_column, query_title, threshold)`: (row, score)
      for the best row when its score reaches the threshold, (None, 0) otherwise, and
      (None, None) without a frame, a column or a query. */
  function LocalSearch(u: Ucd, m: Matcher, df: Option<seq<Row>>, col: string, query: string, threshold: real)
    : (r: Result<(Option<Row>, Option<real>)>)
    ensures df.None? || col == [] || query == [] ==> r == Ok((None, None))
    ensures r.Ok? && r.value.0.Some? ==> r.value.1.Some? && r.value.1.value >= threshold
  {
    if df.None? || col == [] || query == [] then Ok((None, None))
    else Verdict(Scan(ScoreOf(u, m, AppCleanTitle(u, query), col), col, df.value, 0.0, None), threshold)
  }

  /** The answer after the loop: the best row and its score when the score reaches the
      threshold, (None, 0) otherwise; a KeyError from the loop passes through. */
  function Verdict(scan: Result<(real, Option<Row>)>, threshold: real): Result<(Option<Row>, Option<real>)> {
    match scan
    case Raised(x) => Raised(x)
    case Ok((best, row)) => if best >= threshold then Ok((row, Some(best))) else Ok((None, Some(0.0)))
  }

  method SearchLocalDatabase(u: Ucd, m: Matcher, df: Option<seq<Row>>, col: string, query: string, threshold: real)
    returns (r: Result<(Option<Row>, Option<real>)>)
    ensures r == LocalSearch(u, m, df, col, query, threshold)
  {
    if df.None? || col == [] || query == [] {
      return Ok((None, None));
    }
    var rows := df.value;
    var q := AppCleanTitle(u, query);
    ghost var score := ScoreOf(u, m, q, col);
    var best := 0.0;
    var bestRow: Option<Row> := None;
    for i := 0 to |rows|
      invariant Scan(score, col, rows[i..], best, bestRow) == Scan(score, col, rows, 0.0, None)
    {
      assert rows[i..][1..] == rows[i + 1..];
      if col !in rows[i] {
        return Raised(KeyError);
      }
      var d := AppCleanTitle(u, rows[i][col]);
      var s: real;
      if Contains(d, q) || Contains(q, d) {
        s := 1.0;
      } else {
        s := Ratio(m, q, d);
      }
      assert s == score(rows[i]);
      if s > best {
        best := s;
        bestRow := Some(rows[i]);
      }
    }
    if best >= threshold {
      return Ok((bestRow, Some(best)));
    }
    return Ok((None, Some(0.0)));
  }

  /** The scan raises exactly when some row lacks the column. */
  lemma {:induction false} ScanRaisesOnMissingColumn(score: Row -> real, col: string, rows: seq<Row>, best: real, bestRow: Option<Row>)
    ensures Scan(score, col, rows, best, bestRow).Raised? <==> exists j :: 0 <= j < |rows| && col !in rows[j]
  {
    if rows != [] && col in rows[0] {
      if score(rows[0]) > best {
        ScanRaisesOnMissingColumn(score, col, rows[1..], score(rows[0]), Some(rows[0]));
      } else {
        ScanRaisesOnMissingColumn(score, col, rows[1..], best, bestRow);
      }
      assert forall j :: 0 < j < |rows| ==> rows[j] == rows[1..][j - 1];
      assert forall j :: 0 <= j < |rows[1..]| ==> rows[1..][j] == rows[j + 1];
    }
  }

  /** What the scan keeps: a best score no row exceeds; the starting state when no row
      beats it, and otherwise the first row reaching the best score. */
  lemma {:induction false} ScanKeepsFirstBest(score: Row -> real, col: string, rows: seq<Row>, best: real, bestRow: Option<Row>)
    requires Scan(score, col, rows, best, bestRow).Ok?
    ensures var (b, row) := Scan(score, col, rows, best, bestRow).value;
      && best <= b
      && (forall j :: 0 <= j < |rows| ==> score(rows[j]) <= b)
      && (b == best ==> row == bestRow)
      && (b != best ==>
            exists j :: 0 <= j < |rows| && row == Some(rows[j]) && score(rows[j]) == b &&
              forall i :: 0 <= i < j ==> score(rows[i]) < b)
  {
    if rows != [] {
      var s := score(rows[0]);
      var nb := if s > best then s else best;
      var nr := if s > best then Some(rows[0]) else bestRow;
      ScanKeepsFirstBest(score, col, rows[1..], nb, nr);
      var (b, row) := Scan(score, col, rows, best, bestRow).value;
      assert (b, row) == Scan(score, col, rows[1..], nb, nr).value;
      forall j | 0 < j < |rows| ensures score(rows[j]) <= b {
        assert rows[j] == rows[1..][j - 1];
      }
      if b != best && b != nb {
        var j :| 0 <= j < |rows[1..]| && row == Some(rows[1..][j]) && score(rows[1..][j]) == b &&
          forall i :: 0 <= i < j ==> score(rows[1..][i]) < b;
        assert rows[1..][j] == rows[j + 1];
        forall i | 0 < i < j + 1 ensures score(rows[i]) < b {
          assert rows[i] == rows[1..][i - 1];
        }
      }
    }
  }

  /** From the start of the loop, with every row carrying the column: the scan keeps
      a row exactly when some row scores above 0, and then the first highest one. */
  lemma ScanFromStart(score: Row -> real, col: string, rows: seq<Row>)
    requires forall j :: 0 <= j < |rows| ==> col in rows[j]
    ensures Scan(score, col, rows, 0.0, None).Ok?
    ensures var (b, row) := Scan(score, col, rows, 0.0, None).value;
      && (row.Some? <==> b > 0.0)
      && (forall j :: 0 <= j < |rows| ==> score(rows[j]) <= b)
      && (row.Some? ==>
            exists j :: 0 <= j < |rows| && row == Some(rows[j]) && score(rows[j]) == b &&
              forall i :: 0 <= i < j ==> score(rows[i]) < b)
  {
    ScanRaisesOnMissingColumn(score, col, rows, 0.0, None);
    ScanKeepsFirstBest(score, col, rows, 0.0, None);
  }

  /** The verdict of `search_local_database` on `rows` for any score: a row comes back
      exactly when some score beats the initial 0 and reaches the threshold, and it is
      then the first row with the highest score. */
  ghost predicate FirstBestVerdict(score: Row -> real, rows: seq<Row>, threshold: real, r: (Option<Row>, Option<real>)) {
    && (r.0.Some? <==> exists j :: 0 <= j < |rows| && score(rows[j]) > 0.0 && score(rows[j]) >= threshold)
    && (r.0.Some? ==>
          exists j :: 0 <= j < |rows| && r.0 == Some(rows[j]) && r.1 == Some(score(rows[j])) &&
            (forall i :: 0 <= i < |rows| ==> score(rows[i]) <= score(rows[j])) &&
            (forall i :: 0 <= i < j ==> score(rows[i]) < score(rows[j])))
  }

  lemma ScanVerdict(score: Row -> real, col: string, rows: seq<Row>, threshold: real)
    requires forall j :: 0 <= j < |rows| ==> col in rows[j]
    ensures Verdict(Scan(score, col, rows, 0.0, None), threshold).Ok?
    ensures FirstBestVerdict(score, rows, threshold, Verdict(Scan(score, col, rows, 0.0, None), threshold).value)
  {
    ScanFromStart(score, col, rows);
  }

  /** A row comes back exactly when the best score reaches the threshold and beats the
      initial 0; it is then the first row with the highest score. */
  lemma LocalSearchFindsFirstBest(u: Ucd, m: Matcher, rows: seq<Row>, col: string, query: string, threshold: real)
    requires col != [] && query != []
    requires forall j :: 0 <= j < |rows| ==> col in rows[j]
    ensures var r := LocalSearch(u, m, Some(rows), col, query, threshold);
      r.Ok? && FirstBestVerdict(ScoreOf(u, m, AppCleanTitle(u, query), col), rows, threshold, r.value)
  {
    ScanVerdict(ScoreOf(u, m, AppCleanTitle(u, query), col), col, rows, threshold);
  }

  /** A missing title column raises KeyError as soon as there is a row. */
  lemma MissingColumnRaises(u: Ucd, m: Matcher, rows: seq<Row>, col: string, query: string, threshold: real)
    requires col != [] && query != []
    requires exists j :: 0 <= j < |rows| && col !in rows[j]
    ensures LocalSearch(u, m, Some(rows), col, query, threshold) == Raised(KeyError)
  {
    var score := ScoreOf(u, m, AppCleanTitle(u, query), col);
    ScanRaisesOnMissingColumn(score, col, rows, 0.0, None);
    ScanRaisesKeyError(score, col, rows, 0.0, None);
  }

  lemma {:induction false} ScanRaisesKeyError(score: Row -> real, col: string, rows: seq<Row>, best: real, bestRow: Option<Row>)
    ensures Scan(score, col, rows, best, bestRow).Raised? ==> Scan(score, col, rows, best, bestRow).error == KeyError
  {
    if rows != [] && col in rows[0] {
      if score(rows[0]) > best {
        ScanRaisesKeyError(score, col, rows[1..], score(rows[0]), Some(rows[0]));
      } else {
        ScanRaisesKeyError(score, col, rows[1..], best, bestRow);
      }
    }
  }

  /** Two titles that are equal once cleaned always score 1.0. */
  lemma SameTitleScoresOne(m: Matcher, q: string)
    ensures Score(m, q, q) == 1.0
  {
    assert StartsWith(q[0..], q);
  }

  /** With a real matching-block count no score exceeds 1.0. */
  lemma ScoreAtMostOne(m: Matcher, q: string, d: string)
    requires ValidMatcher(m)
    ensures Score(m, q, d) <= 1.0
  {
    if |q| + |d| != 0 {
      assert 2 * m(q, d) <= |q| + |d|;
      DivAtMostOne((2 * m(q, d)) as real, (|q| + |d|) as real);
    }
  }

  lemma DivAtMostOne(x: real, t: real)
    requires 0.0 <= x <= t && 0.0 < t
    ensures x / t <= 1.0
  {
    assert x / t * t == x;
  }

  // ---------------------------------------------------------------------------
  // check_single_task
  // ---------------------------------------------------------------------------

  /** What the task is given besides the record: the local frame and its title column
      ("" when there is none), the two API keys ("" when missing), and what each
      verifier returns for the arguments the task passes it. The Crossref and Scopus
      verifiers can raise (an empty Crossref title list, a Scopus creator made only of spaces, a DOI
      that is not a string), and nothing in `check_single_task` catches it; the Scholar
      searches catch their own exceptions. */
  datatype Services = Services(
    localDf: Option<seq<Row>>,
    targetCol: string,
    scopusKey: string,
    serpapiKey: string,
    /** `search_crossref_by_doi(doi, target_title)`: the URL it returns. */
    byDoi: (Json, Option<string>) -> Result<Option<string>>,
    /** `search_crossref_by_text(query, first_author)`. */
    byText: (string, string) -> Result<Option<string>>,
    /** `search_scopus_by_title(query, scopus_key, author)`. */
    scopus: (string, string) -> Result<Option<string>>,
    /** `search_scholar_by_title(query, serpapi_key, author, raw_text)`: URL and step name. */
    scholar: (string, string, string) -> (Option<string>, string),
    /** `search_scholar_by_ref_text(text, serpapi_key, target_title)`. */
    refText: (string, Json) -> Option<string>,
    /** The HEAD and GET probes of `check_url_availability`. */
    head: string -> Option<int>,
    get: string -> Option<int>)

  /** A truthy URL. */
  predicate Link(url: Option<string>) {
    url.Some? && url.value != []
  }

  /** A verifier that returned a truthy URL. */
  predicate Found(r: Result<Option<string>>) {
    r.Ok? && Link(r.value)
  }

  /** A verifier that returned without a truthy URL. */
  predicate Missed(r: Result<Option<string>>) {
    r.Ok? && !Link(r.value)
  }

  /** The stage that confirmed a reference; `Label` gives its `found_at_step` text. */
  datatype Step = LocalDb | CrossrefDoi | CrossrefSearch | ScopusHit | ScholarHit(mode: string) | Website | WebsiteDead

  function Label(s: Step): string {
    match s
    case LocalDb => "0. Local Database"
    case CrossrefDoi => "1. Crossref (DOI)"
    case CrossrefSearch => "1. Crossref (Search)"
    case ScopusHit => "2. Scopus"
    case ScholarHit(mode) => "5. Google Scholar (" + mode + ")"
    case Website => "6. Website"
    case WebsiteDead => "6. Website (Failed)"
  }

  const LocalThreshold: real := 0.85

  /** The result dictionary of one reference. */
  datatype TaskResult = TaskResult(
    id: nat,
    title: Json,
    text: string,
    parsed: Record,
    sources: map<string, string>,
    foundAtStep: Option<string>,
    suggestion: Option<string>)

  /** A Han ideograph of the CJK Unified Ideographs block (U+4E00 to U+9FFF). */
  predicate HasCjk(s: string) {
    exists i :: 0 <= i < |s| && '\U{4e00}' <= s[i] <= '\U{9fff}'
  }

  /** `title if (title and len(title) > 8) else text[:120]`. */
  function SearchQuery(title: string, text: string): (r: string)
    ensures |title| > 8 ==> r == title
    ensures |title| <= 8 ==> StartsWith(text, r) && |r| <= 120 && (|r| < 120 ==> r == text)
  {
    if |title| > 8 then title else text[..if |text| < 120 then |text| else 120]
  }

  /** `authors.split(';')[0].split(',')[0].strip()`; "" for a falsy authors field, and
      AttributeError for a truthy one that is not a string. */
  function FirstAuthor(u: Ucd, authors: Json): Result<string> {
    if !Truthy(authors) then Ok("")
    else match authors
      case JStr(a) => Ok(Strip(u, BeforeFirst(BeforeFirst(a, ";"), ",")))
      case _ => Raised(AttributeError)
  }

  /** `s.split(c)[0]` holds no `c`. */
  lemma {:induction false} BeforeFirstStops(s: string, c: char)
    ensures c !in BeforeFirst(s, [c])
  {
    if |s| >= 1 && s[..1] != [c] {
      assert s[0] != c;
      BeforeFirstStops(s[1..], c);
    }
  }

  /** The first author is a run of the authors field, without ';', ',' or whitespace at
      either end; a field holding a single name without separators is just stripped. */
  lemma FirstAuthorShape(u: Ucd, a: string)
    requires a != []
    ensures FirstAuthor(u, JStr(a)).Ok?
    ensures var r := FirstAuthor(u, JStr(a)).value;
      && ';' !in r && ',' !in r
      && Contains(a, r)
      && (r == [] || (!u.isSpace(r[0]) && !u.isSpace(r[|r| - 1])))
      && (';' !in a && ',' !in a ==> r == Strip(u, a))
  {
    var y := BeforeFirst(BeforeFirst(a, ";"), ",");
    assert FirstAuthor(u, JStr(a)) == Ok(Strip(u, y));
    FirstAuthorRun(u, a);
    if ';' !in a && ',' !in a {
      NoSeparatorKeepsAll(a, ';');
      NoSeparatorKeepsAll(a, ',');
    }
  }

  /** The stripped first part is a run of the field without either separator. */
  lemma FirstAuthorRun(u: Ucd, a: string)
    ensures var r := Strip(u, BeforeFirst(BeforeFirst(a, ";"), ","));
      ';' !in r && ',' !in r && Contains(a, r)
  {
    var x := BeforeFirst(a, ";");
    var y := BeforeFirst(x, ",");
    BeforeFirstStops(a, ';');
    BeforeFirstStops(x, ',');
    var k := StripRun(u, y);
    var r := Strip(u, y);
    assert x == a[..|x|] && y == x[..|y|];
    forall i | 0 <= i < |r| ensures r[i] != ';' && r[i] != ',' && r[i] == a[k + i] {
      assert r[i] == y[k + i] == x[k + i];
    }
    assert StartsWith(a[k..], r);
  }

  /** `s.strip()` is a run of `s`. */
  lemma StripRun(u: Ucd, s: string) returns (k: nat)
    ensures k + |Strip(u, s)| <= |s| && Strip(u, s) == s[k..k + |Strip(u, s)|]
  {
    var l := LStrip(u, s);
    LStripIsSuffix(u, s);
    k := |s| - |l|;
    assert l == s[k..];
  }

  /** Without the separator, `s.split(c)[0]` is `s`. */
  lemma {:induction false} NoSeparatorKeepsAll(s: string, c: char)
    requires c !in s
    ensures BeforeFirst(s, [c]) == s
  {
    if |s| >= 1 {
      assert s[0] != c;
      assert s[..1] != [c];
      NoSeparatorKeepsAll(s[1..], c);
      assert [s[0]] + s[1..] == s;
    }
  }

  /** The string value of a refined field ("" when it is missing or not a string). */
  function StrOf(j: Json): string {
    if j.JStr? then j.s else ""
  }

  /** What the stages leave in the result: the source found, the step label and the
      suggestion. */
  datatype Outcome = Outcome(found: Option<Step>, link: string, suggestion: Option<string>)

  /** The `sources` dictionary: the reporting step's key and link, as each stage's
      `res.update` writes it. */
  function Sources(o: Outcome): map<string, string> {
    if o.found.None? then map[] else map[SourceKey(o.found.value) := o.link]
  }

  /** Stage 6: the parsed URL, when it starts with "http", is probed and reported live
      or dead; a truthy URL that is not a string has no `startswith`. */
  function DirectLink(sv: Services, url: Json, suggestion: Option<string>): Result<Outcome> {
    if !Truthy(url) then Ok(Outcome(None, "", suggestion))
    else if !url.JStr? then Raised(AttributeError)
    else if !StartsWith(url.s, "http") then Ok(Outcome(None, "", suggestion))
    else if UrlAvailable(AppCopy, url.s, sv.head, sv.get) then Ok(Outcome(Some(Website), url.s, suggestion))
    else Ok(Outcome(Some(WebsiteDead), url.s, suggestion))
  }

  /** Stages 5 and 6: Google Scholar when there is a SerpAPI key, with a suggestion from
      the reference text when the title search finds nothing, then the direct link. */
  function FromScholar(sv: Services, title: Json, text: string, query: string, author: string, url: Json): Result<Outcome> {
    if sv.serpapiKey == [] then DirectLink(sv, url, None)
    else
      var (link, step) := sv.scholar(query, author, text);
      if Link(link) then Ok(Outcome(Some(ScholarHit(step)), link.value, None))
      else
        var s := sv.refText(text, title);
        DirectLink(sv, url, if Link(s) then s else None)
  }

  /** Stages 1 to 6 after the local database: DOI when there is one, the Crossref text
      search always, Scopus when there is a key, then Scholar and the direct link. */
  function FromCrossref(sv: Services, title: Json, text: string, query: string, author: string, doi: Json, url: Json)
    : Result<Outcome>
  {
    match DoiUrl(sv, title, doi)
    case Raised(x) => Raised(x)
    case Ok(byDoi) =>
      if Link(byDoi) then Ok(Outcome(Some(CrossrefDoi), byDoi.value, None))
      else
        match sv.byText(query, author)
        case Raised(x) => Raised(x)
        case Ok(byText) =>
          if Link(byText) then Ok(Outcome(Some(CrossrefSearch), byText.value, None))
          else
            match ScopusUrl(sv, query, author)
            case Raised(x) => Raised(x)
            case Ok(scopus) =>
              if Link(scopus) then Ok(Outcome(Some(ScopusHit), scopus.value, None))
              else FromScholar(sv, title, text, query, author, url)
  }

  /** What the DOI stage returns, or `None` when it does not run. */
  function DoiUrl(sv: Services, title: Json, doi: Json): Result<Option<string>> {
    if Truthy(doi) then sv.byDoi(doi, if Truthy(title) then Some(StrOf(title)) else None) else Ok(None)
  }

  /** What the Scopus stage returns, or `None` when it does not run. */
  function ScopusUrl(sv: Services, query: string, author: string): Result<Option<string>> {
    if sv.scopusKey != [] then sv.scopus(query, author) else Ok(None)
  }

  /** Whether stage 0 finds a row: `search_local_database(local_df, target_col, title,
      threshold=0.85)` returns one. */
  function LocalHit(u: Ucd, m: Matcher, sv: Services, title: Json): Result<bool> {
    match LocalSearch(u, m, sv.localDf, sv.targetCol, StrOf(title), LocalThreshold)
    case Raised(x) => Raised(x)
    case Ok((row, _)) => Ok(row.Some?)
  }

  /** Stage 0, the local database, when the query has a Han character, there is a
      frame and the title is truthy, with `local` its outcome; then the remaining
      stages. */
  function Chain(sv: Services, local: Result<bool>, title: Json, text: string, query: string, author: string, doi: Json, url: Json)
    : Result<Outcome>
  {
    if HasCjk(query) && sv.localDf.Some? && Truthy(title) then
      match local
      case Raised(x) => Raised(x)
      case Ok(hit) =>
        if hit then Ok(Outcome(Some(LocalDb), "Matched", None))
        else FromCrossref(sv, title, text, query, author, doi, url)
    else FromCrossref(sv, title, text, query, author, doi, url)
  }

  /** `ref.get('title', '')`. */
  function TitleOf(ref: Record): Json {
    if "title" in ref then ref["title"] else JStr("")
  }

  /** `ref.get('text', '')`; refinement has already rejected a text that is not a
      string. */
  function TextOf(ref: Record): string {
    StrOf(Get(ref, "text"))
  }

  /** The search query of a refined record. */
  function QueryOf(ref: Record): string {
    SearchQuery(if Truthy(TitleOf(ref)) then StrOf(TitleOf(ref)) else "", TextOf(ref))
  }

  function LabelOf(found: Option<Step>): Option<string> {
    if found.Some? then Some(Label(found.value)) else None
  }

  /** `check_single_task(idx, raw_ref, ...)`. */
  function CheckTask(u: Ucd, m: Matcher, sv: Services, idx: nat, raw: Record): (r: Result<TaskResult>)
    ensures r.Ok? ==> r.value.id == idx && Refined(u, raw) == Ok(r.value.parsed)
  {
    match Refined(u, raw)
    case Raised(x) => Raised(x)
    case Ok(ref) =>
      match FirstAuthor(u, Get(ref, "authors"))
      case Raised(x) => Raised(x)
      case Ok(author) =>
        match Chain(sv, LocalHit(u, m, sv, TitleOf(ref)), TitleOf(ref), TextOf(ref), QueryOf(ref), author, Get(ref, "doi"), Get(ref, "url"))
        case Raised(x) => Raised(x)
        case Ok(o) => Ok(TaskResult(idx, TitleOf(ref), TextOf(ref), ref, Sources(o), LabelOf(o.found), o.suggestion))
  }

  method CheckSingleTask(u: Ucd, m: Matcher, sv: Services, idx: nat, raw: Record) returns (r: Result<TaskResult>)
    ensures r == CheckTask(u, m, sv, idx, raw)
  {
    var refined := RefineParsedData(u, raw);
    if refined.Raised? {
      return Raised(refined.error);
    }
    var ref := refined.value;
    var title := TitleOf(ref);
    var text := TextOf(ref);
    var query := if Truthy(title) && |StrOf(title)| > 8 then StrOf(title) else text[..if |text| < 120 then |text| else 120];
    assert query == QueryOf(ref);
    var doi, parsedUrl := Get(ref, "doi"), Get(ref, "url");
    var authors := Get(ref, "authors");
    var author := "";
    if Truthy(authors) {
      if !authors.JStr? {
        return Raised(AttributeError);
      }
      author := Strip(u, BeforeFirst(BeforeFirst(authors.s, ";"), ","));
    }
    assert FirstAuthor(u, authors) == Ok(author);
    var res := TaskResult(idx, title, text, ref, map[], None, None);
    var o := RunStages(u, m, sv, title, text, query, author, doi, parsedUrl);
    if o.Raised? {
      return Raised(o.error);
    }
    res := res.(sources := Sources(o.value), foundAtStep := LabelOf(o.value.found), suggestion := o.value.suggestion);
    return Ok(res);
  }

  /** The stages of `check_single_task`, each returning as soon as it finds a source. */
  method RunStages(u: Ucd, m: Matcher, sv: Services, title: Json, text: string, query: string, author: string, doi: Json, parsedUrl: Json)
    returns (r: Result<Outcome>)
    ensures r == Chain(sv, LocalHit(u, m, sv, title), title, text, query, author, doi, parsedUrl)
  {
    if HasCjk(query) && sv.localDf.Some? && Truthy(title) {
      var local := SearchLocalDatabase(u, m, sv.localDf, sv.targetCol, StrOf(title), LocalThreshold);
      if local.Raised? {
        return Raised(local.error);
      }
      if local.value.0.Some? {
        return Ok(Outcome(Some(LocalDb), "Matched", None));
      }
    }
    assert Chain(sv, LocalHit(u, m, sv, title), title, text, query, author, doi, parsedUrl) == FromCrossref(sv, title, text, query, author, doi, parsedUrl);
    r := CrossrefStages(sv, title, text, query, author, doi, parsedUrl);
  }

  /** Stages 1 to 6: DOI, the Crossref text search and Scopus, each ending the task with
      its link or its exception, then Scholar and the direct link. */
  method CrossrefStages(sv: Services, title: Json, text: string, query: string, author: string, doi: Json, parsedUrl: Json)
    returns (r: Result<Outcome>)
    ensures r == FromCrossref(sv, title, text, query, author, doi, parsedUrl)
  {
    ghost var rest := FromScholar(sv, title, text, query, author, parsedUrl);
    if Truthy(doi) {
      var byDoi := sv.byDoi(doi, if Truthy(title) then Some(StrOf(title)) else None);
      assert byDoi == DoiUrl(sv, title, doi);
      if byDoi.Raised? {
        return Raised(byDoi.error);
      }
      if Link(byDoi.value) {
        return Ok(Outcome(Some(CrossrefDoi), byDoi.value.value, None));
      }
    }
    assert Missed(DoiUrl(sv, title, doi));

    var byText := sv.byText(query, author);
    if byText.Raised? {
      return Raised(byText.error);
    }
    if Link(byText.value) {
      return Ok(Outcome(Some(CrossrefSearch), byText.value.value, None));
    }
    assert Missed(sv.byText(query, author));

    if sv.scopusKey != [] {
      var scopus := sv.scopus(query, author);
      if scopus.Raised? {
        return Raised(scopus.error);
      }
      if Link(scopus.value) {
        return Ok(Outcome(Some(ScopusHit), scopus.value.value, None));
      }
    }
    assert Missed(ScopusUrl(sv, query, author));
    assert FromCrossref(sv, title, text, query, author, doi, parsedUrl) == rest;
    r := ScholarStages(sv, title, text, query, author, parsedUrl);
  }

  /** Stages 5 and 6: Scholar with its fallback suggestion, then the direct link. */
  method ScholarStages(sv: Services, title: Json, text: string, query: string, author: string, parsedUrl: Json)
    returns (r: Result<Outcome>)
    ensures r == FromScholar(sv, title, text, query, author, parsedUrl)
  {
    var suggestion := None;
    if sv.serpapiKey != [] {
      var url, step := sv.scholar(query, author, text).0, sv.scholar(query, author, text).1;
      if Link(url) {
        return Ok(Outcome(Some(ScholarHit(step)), url.value, None));
      }
      var urlR := sv.refText(text, title);
      if Link(urlR) {
        suggestion := urlR;
      }
    }
    assert FromScholar(sv, title, text, query, author, parsedUrl) == DirectLink(sv, parsedUrl, suggestion);

    if Truthy(parsedUrl) {
      if !parsedUrl.JStr? {
        return Raised(AttributeError);
      }
      if StartsWith(parsedUrl.s, "http") {
        if UrlAvailable(AppCopy, parsedUrl.s, sv.head, sv.get) {
          return Ok(Outcome(Some(Website), parsedUrl.s, suggestion));
        }
        return Ok(Outcome(Some(WebsiteDead), parsedUrl.s, suggestion));
      }
    }
    return Ok(Outcome(None, "", suggestion));
  }

  // ---------------------------------------------------------------------------
  // Properties of the chain
  // ---------------------------------------------------------------------------

  /** The position of a step in the chain; 6 when no step reported anything. */
  function Rank(found: Option<Step>): nat {
    match found
    case None => 6
    case Some(LocalDb) => 0
    case Some(CrossrefDoi) => 1
    case Some(CrossrefSearch) => 2
    case Some(ScopusHit) => 3
    case Some(ScholarHit(_)) => 4
    case Some(_) => 5
  }

  /** The key under which a step records its source. */
  function SourceKey(s: Step): string {
    match s
    case LocalDb => "Local DB"
    case CrossrefDoi => "Crossref"
    case CrossrefSearch => "Crossref"
    case ScopusHit => "Scopus"
    case ScholarHit(_) => "Scholar"
    case Website => "Direct Link"
    case WebsiteDead => "Direct Link (Dead)"
  }


  /** Stage 6 keeps the suggestion it is given, reports only on a parsed URL starting
      with "http", and then always reports, live exactly when the probe accepts it. */
  lemma DirectLinkFacts(sv: Services, url: Json, suggestion: Option<string>)
    requires DirectLink(sv, url, suggestion).Ok?
    ensures var o := DirectLink(sv, url, suggestion).value;
      && o.suggestion == suggestion
      && Rank(o.found) >= 5
      && (o.found.Some? ==>
            url.JStr? && StartsWith(url.s, "http") && o.link == url.s &&
            (o.found == Some(Website) <==> UrlAvailable(AppCopy, url.s, sv.head, sv.get)))
      && (o.found.None? ==> !(url.JStr? && StartsWith(url.s, "http")))
  {
  }

  /** Stage 5: a Scholar hit is reported with its step name; otherwise stage 6 decides,
      with the reference-text suggestion when there is a key. */
  lemma FromScholarFacts(sv: Services, title: Json, text: string, query: string, author: string, url: Json)
    requires FromScholar(sv, title, text, query, author, url).Ok?
    ensures var o := FromScholar(sv, title, text, query, author, url).value;
      var hit := sv.scholar(query, author, text);
      && Rank(o.found) >= 4
      && (Rank(o.found) == 4 ==>
            sv.serpapiKey != [] && Link(hit.0) && o.found == Some(ScholarHit(hit.1)) && o.link == hit.0.value)
      && (Rank(o.found) > 4 ==> DirectLink(sv, url, o.suggestion) == Ok(o))
      && (Rank(o.found) > 4 && sv.serpapiKey != [] ==> !Link(hit.0))
      && (o.suggestion.Some? ==>
            sv.serpapiKey != [] && !Link(hit.0) && o.suggestion == sv.refText(text, title) && Link(o.suggestion))
  {
    var o := FromScholar(sv, title, text, query, author, url).value;
    var hit := sv.scholar(query, author, text);
    if sv.serpapiKey == [] {
      DirectLinkFacts(sv, url, None);
    } else if !Link(hit.0) {
      var s := sv.refText(text, title);
      DirectLinkFacts(sv, url, if Link(s) then s else None);
    }
  }

  /** Stages 1 to 4: DOI when there is one, the text search always, Scopus with a key;
      the first link found is reported, otherwise Scholar and the direct link decide. */
  lemma FromCrossrefFacts(sv: Services, title: Json, text: string, query: string, author: string, doi: Json, url: Json)
    requires FromCrossref(sv, title, text, query, author, doi, url).Ok?
    ensures var o := FromCrossref(sv, title, text, query, author, doi, url).value;
      var byDoi, byText, scopus := DoiUrl(sv, title, doi), sv.byText(query, author), ScopusUrl(sv, query, author);
      && Rank(o.found) >= 1
      && (o.found == Some(CrossrefDoi) ==> Truthy(doi) && Found(byDoi) && o.link == byDoi.value.value)
      && (o.found == Some(CrossrefSearch) ==> Missed(byDoi) && Found(byText) && o.link == byText.value.value)
      && (o.found == Some(ScopusHit) ==> sv.scopusKey != [] && Found(scopus) && o.link == scopus.value.value)
      && (Rank(o.found) > 1 ==> Missed(byDoi))
      && (Rank(o.found) > 2 ==> Missed(byText))
      && (Rank(o.found) > 3 ==> Missed(scopus) && FromScholar(sv, title, text, query, author, url) == Ok(o))
      && (Rank(o.found) <= 3 ==> o.suggestion.None?)
  {
    var byDoi, byText, scopus := DoiUrl(sv, title, doi), sv.byText(query, author), ScopusUrl(sv, query, author);
    var r := FromCrossref(sv, title, text, query, author, doi, url);
    if Found(byDoi) {
      assert r == Ok(Outcome(Some(CrossrefDoi), byDoi.value.value, None));
    } else if Found(byText) {
      assert r == Ok(Outcome(Some(CrossrefSearch), byText.value.value, None));
    } else if Found(scopus) {
      assert r == Ok(Outcome(Some(ScopusHit), scopus.value.value, None));
    } else {
      assert r == FromScholar(sv, title, text, query, author, url);
      FromScholarFacts(sv, title, text, query, author, url);
    }
  }

  /** Stage 0 reports only with a Han character in the query, a frame and a title;
      otherwise the stages from Crossref on decide. */
  lemma ChainFacts(sv: Services, local: Result<bool>, title: Json, text: string, query: string, author: string, doi: Json, url: Json)
    requires Chain(sv, local, title, text, query, author, doi, url).Ok?
    ensures var o := Chain(sv, local, title, text, query, author, doi, url).value;
      && (o.found == Some(LocalDb) ==> HasCjk(query) && sv.localDf.Some? && Truthy(title) && local == Ok(true) && o.suggestion.None?)
      && (Rank(o.found) > 0 ==> FromCrossref(sv, title, text, query, author, doi, url) == Ok(o))
  {
    if !(HasCjk(query) && sv.localDf.Some? && Truthy(title)) || local != Ok(true) {
      assert Chain(sv, local, title, text, query, author, doi, url) == FromCrossref(sv, title, text, query, author, doi, url);
      FromCrossrefFacts(sv, title, text, query, author, doi, url);
    }
  }

  /** Each stage reports only when it ran: the local database needs a Han character in
      the query, a frame and a title; DOI a DOI; Scopus and Scholar their keys. */
  lemma ChainGuards(sv: Services, local: Result<bool>, title: Json, text: string, query: string, author: string, doi: Json, url: Json)
    requires Chain(sv, local, title, text, query, author, doi, url).Ok?
    ensures var o := Chain(sv, local, title, text, query, author, doi, url).value;
      && (o.found == Some(LocalDb) ==> HasCjk(query) && sv.localDf.Some? && Truthy(title))
      && (o.found == Some(CrossrefDoi) ==> Truthy(doi))
      && (o.found == Some(ScopusHit) ==> sv.scopusKey != [])
      && (Rank(o.found) == 4 ==> sv.serpapiKey != [])
  {
    var o := Chain(sv, local, title, text, query, author, doi, url).value;
    ChainFacts(sv, local, title, text, query, author, doi, url);
    if Rank(o.found) > 0 {
      FromCrossrefFacts(sv, title, text, query, author, doi, url);
      if Rank(o.found) > 3 {
        FromScholarFacts(sv, title, text, query, author, url);
      }
    }
  }

  /** Strict priority: the source reported is the link the reporting stage returned,
      and every stage before it that ran found nothing; in particular the Crossref
      text search runs whenever no earlier stage succeeds. */
  lemma ChainPriority(sv: Services, local: Result<bool>, title: Json, text: string, query: string, author: string, doi: Json, url: Json)
    requires Chain(sv, local, title, text, query, author, doi, url).Ok?
    ensures var o := Chain(sv, local, title, text, query, author, doi, url).value;
      var byDoi, byText, scopus, scholar := DoiUrl(sv, title, doi), sv.byText(query, author), ScopusUrl(sv, query, author), sv.scholar(query, author, text);
      && (o.found == Some(CrossrefDoi) ==> Found(byDoi) && o.link == byDoi.value.value)
      && (o.found == Some(CrossrefSearch) ==> Found(byText) && o.link == byText.value.value)
      && (o.found == Some(ScopusHit) ==> Found(scopus) && o.link == scopus.value.value)
      && (Rank(o.found) == 4 ==> Link(scholar.0) && o.found == Some(ScholarHit(scholar.1)) && o.link == scholar.0.value)
      && (Rank(o.found) > 1 ==> Missed(byDoi))
      && (Rank(o.found) > 2 ==> Missed(byText))
      && (Rank(o.found) > 3 ==> Missed(scopus))
      && (Rank(o.found) > 4 && sv.serpapiKey != [] ==> !Link(scholar.0))
  {
    var o := Chain(sv, local, title, text, query, author, doi, url).value;
    ChainFacts(sv, local, title, text, query, author, doi, url);
    if Rank(o.found) > 0 {
      FromCrossrefFacts(sv, title, text, query, author, doi, url);
      if Rank(o.found) > 3 {
        FromScholarFacts(sv, title, text, query, author, url);
      }
    }
  }

  /** Stage 0 ends the chain: it runs, and it raises or finds a row. */
  predicate LocalDecides(sv: Services, local: Result<bool>, title: Json, query: string) {
    HasCjk(query) && sv.localDf.Some? && Truthy(title) && local != Ok(false)
  }

  /** A Crossref or Scopus verifier that runs raises: the DOI lookup, or the text search
      after the DOI stage found nothing, or Scopus after both found nothing. */
  predicate VerifierRaises(sv: Services, title: Json, query: string, author: string, doi: Json) {
    || DoiUrl(sv, title, doi).Raised?
    || (Missed(DoiUrl(sv, title, doi)) && sv.byText(query, author).Raised?)
    || (Missed(DoiUrl(sv, title, doi)) && Missed(sv.byText(query, author)) && ScopusUrl(sv, query, author).Raised?)
  }

  /** Nothing in the chain catches an exception: once stage 0 has let the reference
      through, the first verifier that raises ends the chain with its exception. */
  lemma VerifierExceptionEndsChain(sv: Services, local: Result<bool>, title: Json, text: string, query: string, author: string, doi: Json, url: Json)
    requires !LocalDecides(sv, local, title, query)
    ensures DoiUrl(sv, title, doi).Raised? ==>
      Chain(sv, local, title, text, query, author, doi, url) == Raised(DoiUrl(sv, title, doi).error)
    ensures Missed(DoiUrl(sv, title, doi)) && sv.byText(query, author).Raised? ==>
      Chain(sv, local, title, text, query, author, doi, url) == Raised(sv.byText(query, author).error)
    ensures Missed(DoiUrl(sv, title, doi)) && Missed(sv.byText(query, author)) && ScopusUrl(sv, query, author).Raised? ==>
      Chain(sv, local, title, text, query, author, doi, url) == Raised(ScopusUrl(sv, query, author).error)
  {
    assert Chain(sv, local, title, text, query, author, doi, url) == FromCrossref(sv, title, text, query, author, doi, url);
  }

  /** Conversely, the chain raises only from the local search, a Crossref or Scopus
      verifier, or stage 6 handed a truthy URL that is not a string. */
  lemma ChainRaisesOnlyFrom(sv: Services, local: Result<bool>, title: Json, text: string, query: string, author: string, doi: Json, url: Json)
    requires Chain(sv, local, title, text, query, author, doi, url).Raised?
    ensures || (HasCjk(query) && sv.localDf.Some? && Truthy(title) && local.Raised?)
            || VerifierRaises(sv, title, query, author, doi)
            || (Truthy(url) && !url.JStr?)
  {
    if !LocalDecides(sv, local, title, query) && !VerifierRaises(sv, title, query, author, doi) {
      var byDoi, byText, scopus := DoiUrl(sv, title, doi), sv.byText(query, author), ScopusUrl(sv, query, author);
      assert Chain(sv, local, title, text, query, author, doi, url) == FromCrossref(sv, title, text, query, author, doi, url);
      if Missed(byDoi) && Missed(byText) && Missed(scopus) {
        var hit := sv.scholar(query, author, text);
        if sv.serpapiKey == [] || !Link(hit.0) {
          assert FromCrossref(sv, title, text, query, author, doi, url).Raised?;
        }
      }
    }
  }

  /** An exception from a verifier reaches `check_single_task`'s caller: the task
      raises it instead of producing a result. */
  lemma VerifierExceptionEndsTask(u: Ucd, m: Matcher, sv: Services, idx: nat, raw: Record)
    requires Refined(u, raw).Ok?
    requires FirstAuthor(u, Get(Refined(u, raw).value, "authors")).Ok?
    requires var ref := Refined(u, raw).value;
      !LocalDecides(sv, LocalHit(u, m, sv, TitleOf(ref)), TitleOf(ref), QueryOf(ref))
    requires var ref := Refined(u, raw).value;
      VerifierRaises(sv, TitleOf(ref), QueryOf(ref), FirstAuthor(u, Get(ref, "authors")).value, Get(ref, "doi"))
    ensures CheckTask(u, m, sv, idx, raw).Raised?
  {
    var ref := Refined(u, raw).value;
    var author := FirstAuthor(u, Get(ref, "authors")).value;
    VerifierExceptionEndsChain(sv, LocalHit(u, m, sv, TitleOf(ref)), TitleOf(ref), TextOf(ref), QueryOf(ref), author, Get(ref, "doi"), Get(ref, "url"));
  }

  /** A suggestion is kept only when there is a SerpAPI key and the Scholar title search
      found no link; the reference is then reported by the direct link stage or not at
      all. */
  lemma SuggestionOnlyAfterScholarFails(sv: Services, local: Result<bool>, title: Json, text: string, query: string, author: string, doi: Json, url: Json)
    requires Chain(sv, local, title, text, query, author, doi, url).Ok?
    ensures var o := Chain(sv, local, title, text, query, author, doi, url).value;
      o.suggestion.Some? ==>
        && sv.serpapiKey != []
        && !Link(sv.scholar(query, author, text).0)
        && o.suggestion == sv.refText(text, title) && Link(o.suggestion)
        && Rank(o.found) >= 5
  {
    var o := Chain(sv, local, title, text, query, author, doi, url).value;
    ChainFacts(sv, local, title, text, query, author, doi, url);
    if Rank(o.found) > 0 {
      FromCrossrefFacts(sv, title, text, query, author, doi, url);
      if Rank(o.found) > 3 {
        FromScholarFacts(sv, title, text, query, author, url);
      }
    }
  }

  /** The direct link stage runs on a parsed URL starting with "http" and then always
      reports, live or dead; it reports live only a URL the probe accepts, so never one
      with fewer than three '/'. */
  lemma DirectLinkVerdict(sv: Services, local: Result<bool>, title: Json, text: string, query: string, author: string, doi: Json, url: Json)
    requires Chain(sv, local, title, text, query, author, doi, url).Ok?
    ensures var o := Chain(sv, local, title, text, query, author, doi, url).value;
      && (Rank(o.found) == 5 ==> url.JStr? && StartsWith(url.s, "http"))
      && (o.found == Some(Website) ==>
            UrlAvailable(AppCopy, url.s, sv.head, sv.get) && CountChar(url.s, '/') >= 3 &&
            o.link == url.s)
      && (o.found == Some(WebsiteDead) ==>
            !UrlAvailable(AppCopy, url.s, sv.head, sv.get) && o.link == url.s)
      && (o.found.None? ==> !(url.JStr? && StartsWith(url.s, "http")))
  {
    var o := Chain(sv, local, title, text, query, author, doi, url).value;
    ChainFacts(sv, local, title, text, query, author, doi, url);
    if Rank(o.found) > 0 {
      FromCrossrefFacts(sv, title, text, query, author, doi, url);
      if Rank(o.found) > 3 {
        FromScholarFacts(sv, title, text, query, author, url);
        if Rank(o.found) > 4 {
          DirectLinkFacts(sv, url, o.suggestion);
          if o.found == Some(Website) {
            assert UrlEligible(url.s);
          }
        }
      }
    }
  }

  /** The labels a step can report under; Scholar's carries the tier after its prefix. */
  predicate KnownLabel(s: string) {
    || s in {"0. Local Database", "1. Crossref (DOI)", "1. Crossref (Search)", "2. Scopus", "6. Website", "6. Website (Failed)"}
    || StartsWith(s, "5. Google Scholar (")
  }

  /** What a result records for an outcome: at most one source, under the step that
      found it; the step is one of the fixed labels, and a suggestion comes only with a
      "6." label or with nothing found. */
  predicate ReportShape(sources: map<string, string>, foundAtStep: Option<string>, suggestion: Option<string>) {
    && |sources| <= 1
    && (foundAtStep.None? <==> sources == map[])
    && (foundAtStep.Some? ==> KnownLabel(foundAtStep.value))
    && (suggestion.Some? ==> foundAtStep.None? || foundAtStep.value[0] == '6')
  }

  lemma OutcomeShape(o: Outcome)
    requires o.suggestion.Some? ==> Rank(o.found) >= 5
    ensures ReportShape(Sources(o), LabelOf(o.found), o.suggestion)
  {
    if o.found.Some? {
      assert Sources(o).Keys == {SourceKey(o.found.value)};
    }
  }

  /** A checked reference records at most one source, under one of the fixed labels, and
      a suggestion only when the reference is reported by the direct link or not at all. */
  lemma TaskReport(u: Ucd, m: Matcher, sv: Services, idx: nat, raw: Record)
    requires CheckTask(u, m, sv, idx, raw).Ok?
    ensures var t := CheckTask(u, m, sv, idx, raw).value;
      ReportShape(t.sources, t.foundAtStep, t.suggestion)
  {
    var ref := Refined(u, raw).value;
    var author := FirstAuthor(u, Get(ref, "authors")).value;
    var title, text, query := TitleOf(ref), TextOf(ref), QueryOf(ref);
    var local := LocalHit(u, m, sv, title);
    var o := Chain(sv, local, title, text, query, author, Get(ref, "doi"), Get(ref, "url")).value;
    SuggestionOnlyAfterScholarFails(sv, local, title, text, query, author, Get(ref, "doi"), Get(ref, "url"));
    OutcomeShape(o);
  }

  // ---------------------------------------------------------------------------
  // The batch: sorted(results_buffer, key=lambda x: x['id'])
  // ---------------------------------------------------------------------------

  /** Ordered by `key`. */
  predicate SortedBy<T>(key: T -> int, xs: seq<T>) {
    forall i, j :: 0 <= i < j < |xs| ==> key(xs[i]) <= key(xs[j])
  }

  /** Keys strictly increasing. */
  predicate StrictlyBy<T>(key: T -> int, xs: seq<T>) {
    forall i, j :: 0 <= i < j < |xs| ==> key(xs[i]) < key(xs[j])
  }

  /** `x` goes before the first element whose key is not smaller, so it precedes the
      equal keys that follow it in the input: the sort is stable, as Python's is. */
  function InsertBy<T>(key: T -> int, x: T, xs: seq<T>): (r: seq<T>)
    ensures multiset(r) == multiset(xs) + multiset{x}
  {
    if xs == [] || key(x) <= key(xs[0]) then [x] + xs
    else
      assert xs == [xs[0]] + xs[1..];
      [xs[0]] + InsertBy(key, x, xs[1..])
  }

  /** `sorted(xs, key=key)`. */
  function SortBy<T>(key: T -> int, xs: seq<T>): (r: seq<T>)
    ensures multiset(r) == multiset(xs)
  {
    if xs == [] then [] else
      assert xs == [xs[0]] + xs[1..];
      InsertBy(key, xs[0], SortBy(key, xs[1..]))
  }

  lemma SortedTail<T>(key: T -> int, xs: seq<T>)
    requires xs != [] && SortedBy(key, xs)
    ensures SortedBy(key, xs[1..])
  {
    forall i, j | 0 <= i < j < |xs[1..]| ensures key(xs[1..][i]) <= key(xs[1..][j]) {
      assert xs[1..][i] == xs[i + 1] && xs[1..][j] == xs[j + 1];
    }
  }

  lemma {:induction false} InsertKeepsSorted<T>(key: T -> int, x: T, xs: seq<T>)
    requires SortedBy(key, xs)
    ensures SortedBy(key, InsertBy(key, x, xs))
  {
    if xs != [] && key(x) > key(xs[0]) {
      var t := InsertBy(key, x, xs[1..]);
      SortedTail(key, xs);
      InsertKeepsSorted(key, x, xs[1..]);
      forall k | 0 <= k < |xs[1..]| ensures key(xs[0]) <= key(xs[1..][k]) {
        assert xs[1..][k] == xs[k + 1];
      }
      InsertAbove(key, x, xs[1..], key(xs[0]));
      var r := [xs[0]] + t;
      forall i, j | 0 <= i < j < |r| ensures key(r[i]) <= key(r[j]) {
        assert r[j] == t[j - 1];
        if i > 0 {
          assert r[i] == t[i - 1];
        }
      }
    }
  }

  /** Inserting keeps a lower bound every element already meets. */
  lemma InsertAbove<T>(key: T -> int, x: T, xs: seq<T>, lo: int)
    requires lo <= key(x) && forall k :: 0 <= k < |xs| ==> lo <= key(xs[k])
    ensures forall j :: 0 <= j < |InsertBy(key, x, xs)| ==> lo <= key(InsertBy(key, x, xs)[j])
  {
    var t := InsertBy(key, x, xs);
    forall j | 0 <= j < |t| ensures lo <= key(t[j]) {
      assert t[j] in multiset(xs) + multiset{x};
      if t[j] != x {
        assert t[j] in xs;
      }
    }
  }

  /** The result is ordered by the key and holds the same elements. */
  lemma {:induction false} SortBySorted<T>(key: T -> int, xs: seq<T>)
    ensures SortedBy(key, SortBy(key, xs)) && multiset(SortBy(key, xs)) == multiset(xs)
  {
    if xs != [] {
      SortBySorted(key, xs[1..]);
      InsertKeepsSorted(key, xs[0], SortBy(key, xs[1..]));
    }
  }

  /** A sequence sorted by the key that holds the same elements as one with strictly
      increasing keys is that sequence. */
  lemma {:induction false} SortedPermutationIsUnique<T>(key: T -> int, a: seq<T>, b: seq<T>)
    requires SortedBy(key, a) && StrictlyBy(key, b) && multiset(a) == multiset(b)
    ensures a == b
    decreases |a|
  {
    assert |a| == |multiset(a)| == |b|;
    if a != [] {
      assert a[0] in multiset(b) && b[0] in multiset(a);
      var j :| 0 <= j < |b| && b[j] == a[0];
      var i :| 0 <= i < |a| && a[i] == b[0];
      assert key(a[0]) <= key(a[i]);
      assert j == 0;
      MultisetTail(a, b);
      SortedTail(key, a);
      assert StrictlyBy(key, b[1..]) by {
        forall x, y | 0 <= x < y < |b[1..]| ensures key(b[1..][x]) < key(b[1..][y]) {
          assert b[1..][x] == b[x + 1] && b[1..][y] == b[y + 1];
        }
      }
      SortedPermutationIsUnique(key, a[1..], b[1..]);
    }
  }

  lemma MultisetTail<T>(a: seq<T>, b: seq<T>)
    requires a != [] && b != [] && a[0] == b[0] && multiset(a) == multiset(b)
    ensures multiset(a[1..]) == multiset(b[1..])
  {
    assert a == [a[0]] + a[1..] && b == [b[0]] + b[1..];
    assert multiset(a) == multiset{a[0]} + multiset(a[1..]);
    assert multiset(b) == multiset{b[0]} + multiset(b[1..]);
    assert multiset(a[1..]) == multiset(a) - multiset{a[0]};
    assert multiset(b[1..]) == multiset(b) - multiset{b[0]};
  }

  function IdOf(r: TaskResult): int {
    r.id
  }

  /** The tasks are submitted with ids 1..N and finish in any order; sorting the
      collected results by id gives them back in submission order. */
  lemma BatchInSubmissionOrder(buffer: seq<TaskResult>, tasks: seq<TaskResult>)
    requires forall k :: 0 <= k < |tasks| ==> tasks[k].id == k + 1
    requires multiset(buffer) == multiset(tasks)
    ensures SortBy(IdOf, buffer) == tasks
  {
    SortBySorted(IdOf, buffer);
    assert StrictlyBy(IdOf, tasks);
    SortedPermutationIsUnique(IdOf, SortBy(IdOf, buffer), tasks);
  }
}
