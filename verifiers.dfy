/** The decision logic of the bibliographic verifiers (modules/api_clients.py, and the
    copies in app.py): what each one concludes from the responses a service sends back.
    The responses are inputs, already decoded into the fields the code reads. */
module Verifiers {
  import opened PyText
  import opened Parsers
  import opened TitleMatch
  import opened AuthorMatch
  import opened Retry

  /** Which copy of the code runs: as far as the decisions go, the two differ in
      `_is_match` only. */
  datatype Copy = ModulesCopy | AppCopy

  /** What every verifier consults: the Unicode tables, and its two checks, the title
      match (`_is_match(query, result)`) and the author match
      (`_check_author_match(author, candidates)`, a missing author being ""). The
      verifiers are stated for any checks; `Faithful` says which ones the code uses,
      and `CopyEnv` builds them. */
  datatype Env = Env(u: Ucd, titleOk: (string, string) -> bool, authorOk: (string, seq<Json>) -> Result<bool>)

  /** The checks are those of the given copy, with difflib's matching-block count `m`
      and `str()` of a JSON value `render`. */
  ghost predicate Faithful(e: Env, m: Matcher, render: Json -> string, copy: Copy) {
    && (forall q, r :: e.titleOk(q, r) == (if copy == ModulesCopy then IsMatch(e.u, m, q, r) else IsMatchApp(e.u, m, q, r)))
    && (forall a, cs :: e.authorOk(a, cs) == CheckAuthorMatch(e.u, render, a, cs))
  }

  /** The checks of a copy. */
  function CopyEnv(u: Ucd, m: Matcher, render: Json -> string, copy: Copy): (e: Env)
    ensures Faithful(e, m, render, copy)
  {
    Env(u,
        (q, r) => if copy == ModulesCopy then IsMatch(u, m, q, r) else IsMatchApp(u, m, q, r),
        (a, cs) => CheckAuthorMatch(u, render, a, cs))
  }

  predicate TitleOk(e: Env, query: string, result: string) {
    e.titleOk(query, result)
  }

  function AuthorOk(e: Env, author: string, cands: seq<Json>): Result<bool> {
    e.authorOk(author, cands)
  }

  /** `s.strip(' ,.;)]}>')`. */
  const Trailing: set<char> := {' ', ',', '.', ';', ')', ']', '}', '>'}

  // ---------------------------------------------------------------------------
  // search_crossref_by_doi
  // ---------------------------------------------------------------------------

  /** The `message` of a Crossref work: its `title` list ([] when absent) and its `URL`
      ("" when absent or empty). */
  datatype Work = Work(titles: seq<string>, url: string)

  /** A single GET without retry: an exception, or a status code with the decoded body
      (`None` when `response.json()` raises, which the handler reports as a connection
      error). */
  datatype HttpReply<T> = ConnFailed | Got(code: int, body: Option<T>)

  datatype DoiStatus = DoiOk | EmptyDoi | DoiTitleMismatch | DoiHttp(code: int) | ConnError

  datatype DoiAnswer = DoiAnswer(title: Option<string>, url: Option<string>, status: DoiStatus)

  function CrossrefByDoi(e: Env, doi: string, target: string, reply: HttpReply<Work>): (r: DoiAnswer)
    ensures r.url.Some? ==> r.status == DoiOk
  {
    if doi == [] then DoiAnswer(None, None, EmptyDoi)
    else
      var clean := StripChars(doi, Trailing);
      match reply
      case ConnFailed => DoiAnswer(None, None, ConnError)
      case Got(code, body) =>
        if code != 200 then DoiAnswer(None, None, DoiHttp(code))
        else if body.None? then DoiAnswer(None, None, ConnError)
        else
          var w := body.value;
          var resTitle := if w.titles != [] then w.titles[0] else "";
          if target != [] && !TitleOk(e, target, resTitle) then DoiAnswer(None, None, DoiTitleMismatch)
          else DoiAnswer(Some(resTitle), Some(if w.url != [] then w.url else "https://doi.org/" + clean), DoiOk)
  }

  /** A DOI lookup yields a link exactly when the DOI is given, the service answers 200
      with a readable body, and either no title is expected or the work's first title
      matches it; the link is the work's URL, or else the cleaned DOI under
      https://doi.org/, whose ends carry none of ' ,.;)]}>'. */
  lemma DoiLink(e: Env, doi: string, target: string, reply: HttpReply<Work>)
    ensures var r := CrossrefByDoi(e, doi, target, reply);
      r.url.Some? <==>
        (&& doi != []
         && reply.Got? && reply.code == 200 && reply.body.Some?
         && (target == [] || TitleOk(e, target, if reply.body.value.titles != [] then reply.body.value.titles[0] else "")))
    ensures var r := CrossrefByDoi(e, doi, target, reply);
      r.url.Some? ==>
        var clean := StripChars(doi, Trailing);
        && (reply.body.value.url != [] ==> r.url.value == reply.body.value.url)
        && (reply.body.value.url == [] ==> r.url.value == "https://doi.org/" + clean)
        && (clean == [] || (clean[0] !in Trailing && clean[|clean| - 1] !in Trailing))
  {
    StripCharsEnds(doi, Trailing);
  }

  /** `search_crossref_by_doi` given a record's `doi` value: a falsy value is an empty
      DOI, and a truthy value that is not a string fails on `strip`, before the `try`. */
  function CrossrefByDoiValue(e: Env, doi: Json, target: string, reply: HttpReply<Work>): (r: Result<DoiAnswer>)
    ensures r.Raised? <==> Truthy(doi) && !doi.JStr?
    ensures r.Raised? ==> r.error == AttributeError
    ensures r.Ok? && r.value.url.Some? ==> doi.JStr? && r.value == CrossrefByDoi(e, doi.s, target, reply)
  {
    if !Truthy(doi) then Ok(DoiAnswer(None, None, EmptyDoi))
    else if !doi.JStr? then Raised(AttributeError)
    else Ok(CrossrefByDoi(e, doi.s, target, reply))
  }

  // ---------------------------------------------------------------------------
  // search_crossref_by_text
  // ---------------------------------------------------------------------------

  /** One of the items Crossref returns: its `title` (`None` when the key is absent),
      its `author` list, its `URL` ("" when absent or empty) and its `DOI`. */
  datatype CrossrefItem = CrossrefItem(title: Option<seq<string>>, authors: seq<Json>, url: string, doi: Option<string>)

  /** `item.get('title', [''])[0]`: an empty title list raises IndexError. */
  function ItemTitle(it: CrossrefItem): Result<string> {
    match it.title
    case None => Ok("")
    case Some(ts) => if ts == [] then Raised(IndexError) else Ok(ts[0])
  }

  /** `item.get('URL') or f"https://doi.org/{item.get('DOI')}"`; a missing DOI prints
      as "None". */
  function ItemLink(it: CrossrefItem): string {
    if it.url != [] then it.url
    else "https://doi.org/" + (match it.doi case Some(d) => d case None => "None")
  }

  /** What the item loop decides about one item: `Ok(true)` to return it, `Ok(false)`
      to go on, or the exception that escapes. */
  function ItemVerdict(e: Env, title: string, author: string, it: CrossrefItem): Result<bool> {
    match ItemTitle(it)
    case Raised(x) => Raised(x)
    case Ok(t) =>
      if !TitleOk(e, title, t) then Ok(false)
      else AuthorOk(e, author, it.authors)
  }

  /** The verdict as a function of the item, so that the scan below can be stated once. */
  function VerdictOf(e: Env, title: string, author: string): CrossrefItem -> Result<bool> {
    it => ItemVerdict(e, title, author, it)
  }

  /** The first element the verdict accepts, scanning in order; a rejected element is
      passed over and an exception ends the scan. */
  function FirstAccepted<X>(verdict: X -> Result<bool>, xs: seq<X>): Result<Option<X>> {
    if xs == [] then Ok(None)
    else
      match verdict(xs[0])
      case Raised(x) => Raised(x)
      case Ok(true) => Ok(Some(xs[0]))
      case Ok(false) => FirstAccepted(verdict, xs[1..])
  }

  /** Everything before position `i` was rejected. */
  ghost predicate RejectedBefore<X>(verdict: X -> Result<bool>, xs: seq<X>, i: int)
    requires 0 <= i <= |xs|
  {
    forall j :: 0 <= j < i ==> verdict(xs[j]) == Ok(false)
  }

  /** The scan answers with the first element that is not rejected: `None` when all are
      rejected, that element when it is accepted, its exception when it raises. */
  lemma {:induction false} FirstAcceptedIsFirst<X>(verdict: X -> Result<bool>, xs: seq<X>)
    ensures var r := FirstAccepted(verdict, xs);
      r == Ok(None) <==> RejectedBefore(verdict, xs, |xs|)
    ensures var r := FirstAccepted(verdict, xs);
      r != Ok(None) ==>
        exists i :: 0 <= i < |xs| && RejectedBefore(verdict, xs, i) && verdict(xs[i]) != Ok(false) &&
          (r.Raised? ==> verdict(xs[i]) == Raised(r.error)) &&
          (r.Ok? ==> verdict(xs[i]) == Ok(true) && r.value == Some(xs[i]))
  {
    if xs != [] {
      var r := FirstAccepted(verdict, xs);
      if verdict(xs[0]) == Ok(false) {
        FirstAcceptedIsFirst(verdict, xs[1..]);
        assert r == FirstAccepted(verdict, xs[1..]);
        assert forall j :: 1 <= j < |xs| ==> xs[j] == xs[1..][j - 1];
        if r != Ok(None) {
          var k :| 0 <= k < |xs[1..]| && RejectedBefore(verdict, xs[1..], k) && verdict(xs[1..][k]) != Ok(false) &&
            (r.Raised? ==> verdict(xs[1..][k]) == Raised(r.error)) &&
            (r.Ok? ==> verdict(xs[1..][k]) == Ok(true) && r.value == Some(xs[1..][k]));
          assert RejectedBefore(verdict, xs, k + 1);
        } else {
          assert RejectedBefore(verdict, xs, |xs|);
        }
      } else {
        assert !RejectedBefore(verdict, xs, |xs|);
        assert RejectedBefore(verdict, xs, 0);
      }
    }
  }

  /** Conversely, the first element that is not rejected decides the scan. */
  lemma {:induction false} FirstAcceptedAt<X>(verdict: X -> Result<bool>, xs: seq<X>, i: int)
    requires 0 <= i < |xs| && RejectedBefore(verdict, xs, i) && verdict(xs[i]) != Ok(false)
    ensures FirstAccepted(verdict, xs) ==
      (if verdict(xs[i]).Ok? then Ok(Some(xs[i])) else Raised(verdict(xs[i]).error))
  {
    if i > 0 {
      assert verdict(xs[0]) == Ok(false);
      assert RejectedBefore(verdict, xs[1..], i - 1) by {
        forall j | 0 <= j < i - 1 ensures verdict(xs[1..][j]) == Ok(false) {
          assert xs[1..][j] == xs[j + 1];
        }
      }
      FirstAcceptedAt(verdict, xs[1..], i - 1);
    }
  }

  datatype TextStatus = TextOk | EmptyTitle | MatchFailed | TextFailed(status: Status)

  datatype TextAnswer = TextAnswer(url: Option<string>, status: TextStatus)

  /** What search_crossref_by_text returns, given what the retry loop returned: the link
      of the first item whose title and authors both match. */
  function CrossrefText(e: Env, title: string, author: string, data: Option<seq<CrossrefItem>>, status: Status): Result<TextAnswer> {
    if title == [] then Ok(TextAnswer(None, EmptyTitle))
    else if status == OK && data.Some? && data.value != [] then
      match FirstAccepted(VerdictOf(e, title, author), data.value)
      case Raised(x) => Raised(x)
      case Ok(None) => Ok(TextAnswer(None, MatchFailed))
      case Ok(Some(it)) => Ok(TextAnswer(Some(ItemLink(it)), TextOk))
    else Ok(TextAnswer(None, TextFailed(status)))
  }

  /** search_crossref_by_text: the request with retry, then the item loop. */
  method CrossrefByText(e: Env, title: string, author: string, net: seq<Reply<seq<CrossrefItem>>>)
    returns (r: Result<TextAnswer>)
    ensures var (data, status, _) := Attempts(net, 0); r == CrossrefText(e, title, author, data, status)
  {
    if title == [] {
      return Ok(TextAnswer(None, EmptyTitle));
    }
    var data, status, _ := CallWithRetry(net);
    if status == OK && data.Some? && data.value != [] {
      var items := data.value;
      ghost var v := VerdictOf(e, title, author);
      var i := 0;
      while i < |items|
        invariant i <= |items|
        invariant FirstAccepted(v, items) == FirstAccepted(v, items[i..])
        decreases |items| - i
      {
        assert items[i..][1..] == items[i + 1..];
        var it := items[i];
        var t := ItemTitle(it);
        if t.Raised? {
          return Raised(t.error);
        }
        if TitleOk(e, title, t.value) {
          var ok := AuthorOk(e, author, it.authors);
          if ok.Raised? {
            return Raised(ok.error);
          }
          if ok.value {
            return Ok(TextAnswer(Some(ItemLink(it)), TextOk));
          }
        }
        i := i + 1;
      }
      return Ok(TextAnswer(None, MatchFailed));
    }
    return Ok(TextAnswer(None, TextFailed(status)));
  }

  /** A Crossref search confirms a reference exactly when, among the items returned, the
      first one that does not fail a check passes both; the link is that item's. */
  lemma CrossrefTextConfirms(e: Env, title: string, author: string, items: seq<CrossrefItem>)
    requires title != [] && items != []
    ensures var r := CrossrefText(e, title, author, Some(items), OK);
      r.Ok? && r.value.status == TextOk <==>
        exists i :: 0 <= i < |items| && RejectedBefore(VerdictOf(e, title, author), items, i) &&
          ItemVerdict(e, title, author, items[i]) == Ok(true)
    ensures var r := CrossrefText(e, title, author, Some(items), OK);
      r.Ok? && r.value.status == MatchFailed <==>
        forall i :: 0 <= i < |items| ==> ItemVerdict(e, title, author, items[i]) == Ok(false)
  {
    var v := VerdictOf(e, title, author);
    FirstAcceptedIsFirst(v, items);
    var f := FirstAccepted(v, items);
    forall i | 0 <= i < |items| && RejectedBefore(v, items, i) && v(items[i]) == Ok(true)
      ensures f == Ok(Some(items[i]))
    {
      FirstAcceptedAt(v, items, i);
    }
  }

  /** An item whose title matches but whose authors do not is skipped: the answer is the
      one the remaining items give. */
  lemma SkipsAuthorMismatch(e: Env, title: string, author: string, it: CrossrefItem, rest: seq<CrossrefItem>)
    requires ItemTitle(it).Ok? && TitleOk(e, title, ItemTitle(it).value)
    requires AuthorOk(e, author, it.authors) == Ok(false)
    ensures FirstAccepted(VerdictOf(e, title, author), [it] + rest) == FirstAccepted(VerdictOf(e, title, author), rest)
  {
    assert ([it] + rest)[1..] == rest;
  }

  /** An item with an empty title list stops the search with IndexError. */
  lemma EmptyTitleListRaises(e: Env, title: string, author: string, it: CrossrefItem, rest: seq<CrossrefItem>)
    requires it.title == Some([])
    ensures FirstAccepted(VerdictOf(e, title, author), [it] + rest) == Raised(IndexError)
  {
  }

  // ---------------------------------------------------------------------------
  // search_scopus_by_title
  // ---------------------------------------------------------------------------

  /** The first entry of Scopus' `search-results`: whether it carries an `error` key,
      its `dc:title` and `dc:creator` ("" when absent) and its `prism:url`. */
  datatype ScopusEntry = ScopusEntry(isError: bool, title: string, creator: string, url: Option<string>)

  datatype ScopusStatus = ScopusOk | NoApiKey | NoResults | AuthorMismatch | TitleMismatch | ScopusError

  datatype ScopusAnswer = ScopusAnswer(url: Option<string>, status: ScopusStatus)

  /** With a key, the request succeeded and its first entry is not an error and has a
      matching title: the author check decides. */
  predicate ScopusTitleHit(e: Env, title: string, key: string, data: Option<seq<ScopusEntry>>, status: Status) {
    && key != [] && status == OK && data.Some? && data.value != [] && !data.value[0].isError
    && TitleOk(e, title, data.value[0].title)
  }

  /** Scopus confirms exactly when the first entry's title matches and its creator
      passes the author check; the link is the entry's `prism:url`, or the Scopus home
      page when it has none. An author check that raises (a creator made only of
      spaces) is not caught. */
  function ScopusByTitle(e: Env, title: string, key: string, author: string, data: Option<seq<ScopusEntry>>, status: Status): (r: Result<ScopusAnswer>)
    ensures r.Ok? && r.value.url.Some? <==>
      ScopusTitleHit(e, title, key, data, status) && AuthorOk(e, author, [JStr(data.value[0].creator)]) == Ok(true)
    ensures r.Ok? && r.value.url.Some? ==>
      r.value.status == ScopusOk &&
      r.value.url.value == (if data.value[0].url.Some? then data.value[0].url.value else "https://www.scopus.com")
    ensures r.Raised? <==>
      ScopusTitleHit(e, title, key, data, status) && AuthorOk(e, author, [JStr(data.value[0].creator)]).Raised?
    ensures r.Raised? ==> r.error == AuthorOk(e, author, [JStr(data.value[0].creator)]).error
  {
    if key == [] then Ok(ScopusAnswer(None, NoApiKey))
    else if status == OK && data.Some? then
      var entries := data.value;
      if entries == [] || entries[0].isError then Ok(ScopusAnswer(None, NoResults))
      else
        var hit := entries[0];
        if TitleOk(e, title, hit.title) then
          match AuthorOk(e, author, [JStr(hit.creator)])
          case Raised(x) => Raised(x)
          case Ok(true) => Ok(ScopusAnswer(Some(match hit.url case Some(l) => l case None => "https://www.scopus.com"), ScopusOk))
          case Ok(false) => Ok(ScopusAnswer(None, AuthorMismatch))
        else Ok(ScopusAnswer(None, TitleMismatch))
    else Ok(ScopusAnswer(None, ScopusError))
  }

  /** Only the first entry is looked at: later entries never change the answer. */
  lemma ScopusReadsFirstEntry(e: Env, title: string, key: string, author: string, hit: ScopusEntry, more: seq<ScopusEntry>, status: Status)
    ensures ScopusByTitle(e, title, key, author, Some([hit] + more), status) == ScopusByTitle(e, title, key, author, Some([hit]), status)
  {
  }

  /** Without a key no request is made and nothing is found. */
  lemma ScopusNeedsKey(e: Env, title: string, author: string, data: Option<seq<ScopusEntry>>, status: Status)
    ensures ScopusByTitle(e, title, [], author, data, status) == Ok(ScopusAnswer(None, NoApiKey))
  {
  }

  // ---------------------------------------------------------------------------
  // search_s2_by_title (modules/api_clients.py only)
  // ---------------------------------------------------------------------------

  /** The first paper of a Semantic Scholar search: `title` and `url` (either may be
      missing) and `authors`, objects that carry only `authorId` and `name`. */
  datatype Paper = Paper(title: Option<string>, url: Option<string>, authors: seq<Json>)

  datatype S2Status = S2Ok | S2AuthorMismatch | S2MatchFailed | S2Failed(status: Status)

  datatype S2Answer = S2Answer(url: Option<string>, status: S2Status)

  function S2ByTitle(e: Env, title: string, author: string, data: Option<seq<Paper>>, status: Status): Result<S2Answer> {
    if status == OK && data.Some? && data.value != [] then
      var p := data.value[0];
      var resTitle := match p.title case Some(t) => t case None => "";
      if TitleOk(e, title, resTitle) then
        match AuthorOk(e, author, p.authors)
        case Raised(x) => Raised(x)
        case Ok(true) => Ok(S2Answer(p.url, S2Ok))
        case Ok(false) => Ok(S2Answer(None, S2AuthorMismatch))
      else Ok(S2Answer(None, S2MatchFailed))
    else Ok(S2Answer(None, S2Failed(status)))
  }

  /** Author objects that carry only `name` never match a query with a family name, so
      with such a query Semantic Scholar never confirms a paper. */
  lemma S2NeverConfirmsNamedAuthor(e: Env, m: Matcher, render: Json -> string, title: string, author: string, data: Option<seq<Paper>>, status: Status)
    requires Faithful(e, m, render, ModulesCopy)
    requires e.u.isSpace(' ') && |author| >= 2
    requires var q := ParseQuery(e.u, Strip(e.u, Lower(e.u, author))); q.Some? && q.value.family != []
    requires data.Some? && data.value != []
    requires forall i :: 0 <= i < |data.value[0].authors| ==>
      data.value[0].authors[i].JObj? && NoNameFields(data.value[0].authors[i].members)
    ensures var r := S2ByTitle(e, title, author, data, status);
      r.Ok? && r.value.status != S2Ok && r.value.url == None
  {
    var q := ParseQuery(e.u, Strip(e.u, Lower(e.u, author)));
    var authors := data.value[0].authors;
    NameOnlyListNeverMatches(e.u, render, q.value, authors);
    assert CheckAuthorMatch(e.u, render, author, authors) == Ok(false);
    assert AuthorOk(e, author, authors) == Ok(false);
    S2RejectedAuthors(e, title, author, data, status);
  }

  /** A first paper whose authors fail the check is not confirmed. */
  lemma S2RejectedAuthors(e: Env, title: string, author: string, data: Option<seq<Paper>>, status: Status)
    requires data.Some? && data.value != [] && AuthorOk(e, author, data.value[0].authors) == Ok(false)
    ensures var r := S2ByTitle(e, title, author, data, status);
      r.Ok? && r.value.status != S2Ok && r.value.url == None
  {
  }

  // ---------------------------------------------------------------------------
  // search_openalex_by_title (modules/api_clients.py only)
  // ---------------------------------------------------------------------------

  /** One authorship: `None` when it has no `author` key, else the author's
      `display_name` ("" when absent). */
  datatype Authorship = Authorship(author: Option<string>)

  /** The first work of an OpenAlex search: `title`, `authorships`, `doi` and `id` (""
      when absent or empty). */
  datatype OpenAlexWork = OpenAlexWork(title: Option<string>, authorships: seq<Authorship>, doi: string, id: string)

  /** The display names of the authorships that have an author, in order. */
  function DisplayNames(ships: seq<Authorship>): (r: seq<Json>)
    ensures |r| <= |ships|
    ensures forall k :: 0 <= k < |r| ==> r[k].JStr?
  {
    if ships == [] then []
    else (match ships[0].author case Some(n) => [JStr(n)] case None => []) + DisplayNames(ships[1..])
  }

  /** The loop that collects them. */
  method CollectAuthors(ships: seq<Authorship>) returns (names: seq<Json>)
    ensures names == DisplayNames(ships)
  {
    names := [];
    var i := 0;
    while i < |ships|
      invariant i <= |ships|
      invariant names + DisplayNames(ships[i..]) == DisplayNames(ships)
      decreases |ships| - i
    {
      assert ships[i..][1..] == ships[i + 1..];
      ghost var rest := DisplayNames(ships[i + 1..]);
      if ships[i].author.Some? {
        var x := [JStr(ships[i].author.value)];
        assert DisplayNames(ships[i..]) == x + rest;
        assert (names + x) + rest == names + (x + rest);
        names := names + x;
      } else {
        assert DisplayNames(ships[i..]) == [] + rest;
        assert [] + rest == rest;
      }
      i := i + 1;
    }
    assert ships[i..] == [];
  }

  /** Every collected name comes from an authorship with an author, and every such
      authorship contributes its name. */
  lemma {:induction false} DisplayNamesMembers(ships: seq<Authorship>)
    ensures forall n :: JStr(n) in DisplayNames(ships) <==> Authorship(Some(n)) in ships
  {
    if ships != [] {
      DisplayNamesMembers(ships[1..]);
      assert forall a :: a in ships <==> a == ships[0] || a in ships[1..];
    }
  }

  datatype OpenAlexStatus = AlexOk | NoLink | AlexAuthorMismatch | AlexTitleMismatch | NoResultsFound | AlexFailed(status: Status)

  datatype OpenAlexAnswer = OpenAlexAnswer(url: Option<string>, status: OpenAlexStatus)

  function OpenAlex(e: Env, title: string, author: string, data: Option<seq<OpenAlexWork>>, status: Status): (r: Result<OpenAlexAnswer>)
    ensures r.Ok? && r.value.url.Some? ==> r.value.status == AlexOk && r.value.url.value != []
  {
    if status == OK && data.Some? && data.value != [] then
      var w := data.value[0];
      var resTitle := match w.title case Some(t) => t case None => "";
      if TitleOk(e, title, resTitle) then
        match AuthorOk(e, author, DisplayNames(w.authorships))
        case Raised(x) => Raised(x)
        case Ok(true) =>
          var url := if w.doi != [] then w.doi else w.id;
          if url != [] then Ok(OpenAlexAnswer(Some(url), AlexOk)) else Ok(OpenAlexAnswer(None, NoLink))
        case Ok(false) => Ok(OpenAlexAnswer(None, AlexAuthorMismatch))
      else Ok(OpenAlexAnswer(None, AlexTitleMismatch))
    else if status == OK then Ok(OpenAlexAnswer(None, NoResultsFound))
    else Ok(OpenAlexAnswer(None, AlexFailed(status)))
  }

  /** The link prefers the DOI to the OpenAlex id. */
  lemma OpenAlexPrefersDoi(e: Env, title: string, author: string, data: Option<seq<OpenAlexWork>>, status: Status)
    requires var r := OpenAlex(e, title, author, data, status); r.Ok? && r.value.url.Some?
    ensures data.Some? && data.value != []
    ensures var w := data.value[0]; var r := OpenAlex(e, title, author, data, status);
      r.value.url.value == (if w.doi != [] then w.doi else w.id)
  {
  }

  // ---------------------------------------------------------------------------
  // check_url_availability
  // ---------------------------------------------------------------------------

  /** The filter before any request: the URL starts with "http" and has at least three
      '/', so a bare host such as https://example.org is never probed. */
  predicate UrlEligible(url: string) {
    url != [] && StartsWith(url, "http") && CountChar(url, '/') >= 3
  }

  /** A probe's outcome: the final status code, or `None` when it raises. */
  predicate Reachable(code: Option<int>) {
    code.Some? && 200 <= code.value < 400
  }

  /** modules/api_clients.py probes with HEAD only; app.py retries with GET when HEAD
      answers with a code outside 200-399 (but not when HEAD raises). */
  predicate UrlAvailable(copy: Copy, url: string, head: string -> Option<int>, get: string -> Option<int>) {
    UrlEligible(url) &&
    (Reachable(head(url)) || (copy == AppCopy && head(url).Some? && Reachable(get(url))))
  }

  /** Neither copy ever judges a URL reachable that fails the filter, whatever the
      network says. */
  lemma IneligibleNeverReachable(copy: Copy, url: string, head: string -> Option<int>, get: string -> Option<int>)
    requires !StartsWith(url, "http") || CountChar(url, '/') < 3
    ensures !UrlAvailable(copy, url, head, get)
  {
  }

  /** app.py accepts every URL modules/api_clients.py accepts, and more only through the
      GET fallback. */
  lemma AppProbeIsWeaker(url: string, head: string -> Option<int>, get: string -> Option<int>)
    ensures UrlAvailable(ModulesCopy, url, head, get) ==> UrlAvailable(AppCopy, url, head, get)
    ensures UrlAvailable(AppCopy, url, head, get) && !UrlAvailable(ModulesCopy, url, head, get) ==>
      head(url).Some? && !Reachable(head(url)) && Reachable(get(url))
  {
  }

  /** A bare host such as https://example.org has only the two slashes of the scheme,
      so it is never probed and never judged reachable. */
  lemma BareHostIsNotProbed(copy: Copy, scheme: string, host: string, head: string -> Option<int>, get: string -> Option<int>)
    requires scheme == "http:" || scheme == "https:"
    requires '/' !in host
    ensures !UrlAvailable(copy, scheme + "//" + host, head, get)
  {
    CountCharConcat(scheme + "//", host, '/');
    CountCharConcat(scheme, "//", '/');
    CountCharAbsent(scheme, '/');
    CountCharAbsent(host, '/');
  }
}
