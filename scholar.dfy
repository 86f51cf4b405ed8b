/** The Google Scholar verifier (`search_scholar_by_title` and `search_scholar_by_ref_text`
    in modules/api_clients.py and app.py): an author hint cleaned of "et al.", three
    search tiers, and a hit loop that checks titles and, in the later tiers, authors.
    The search service is an input: `search(q, n)` is the list of organic results for
    query `q` asked with `num = n`, or `None` when the call raises. */
module Scholar {
  import opened PyText
  import opened Parsers
  import opened AuthorMatch
  import opened Verifiers

  /** An organic result: its `title`, its `publication_info.summary` and its `link`,
      each "" when absent (an absent or empty link is falsy alike). */
  datatype Hit = Hit(title: string, summary: string, link: string)

  type Search = (string, nat) -> Option<seq<Hit>>

  // ---------------------------------------------------------------------------
  // The author hint: re.sub(r'(?i)[\(\[]?\bet\.?\s*al\.?[\)\]]?', '', author)
  // ---------------------------------------------------------------------------

  /** Where the et-al pattern matched at `i` ends, if it matches there. Every optional
      part is greedy and no later part can use what an earlier one skipped, so the
      first way through is the only one: an opening bracket followed by a word
      boundary, "et" in either case, an optional '.', whitespace, "al" in either case,
      an optional '.' and an optional closing bracket. */
  function EtAlEnd(u: Ucd, s: string, i: nat): (r: Option<nat>)
    requires i <= |s|
    ensures r.Some? ==> i + 4 <= r.value <= |s|
  {
    var k := if i < |s| && s[i] in {'(', '['} then i + 1 else i;
    if !(k + 1 < |s| && IsBoundary(u, s, k) && s[k] in {'e', 'E'} && s[k + 1] in {'t', 'T'}) then None
    else
      var k1 := if k + 2 < |s| && s[k + 2] == '.' then k + 3 else k + 2;
      var k2 := SkipSpaces(u, s, k1);
      if !(k2 + 1 < |s| && s[k2] in {'a', 'A'} && s[k2 + 1] in {'l', 'L'}) then None
      else
        var k3 := if k2 + 2 < |s| && s[k2 + 2] == '.' then k2 + 3 else k2 + 2;
        Some(if k3 < |s| && s[k3] in {')', ']'} then k3 + 1 else k3)
  }

  /** `re.sub` of the pattern from position `i` on: each match, found left to right
      and never overlapping, is deleted; every other character is kept. */
  function DropEtAl(u: Ucd, s: string, i: nat): (r: string)
    requires i <= |s|
    decreases |s| - i
  {
    if i == |s| then []
    else
      match EtAlEnd(u, s, i)
      case Some(j) => DropEtAl(u, s, j)
      case None => [s[i]] + DropEtAl(u, s, i + 1)
  }

  /** The characters trimmed from both ends of the cleaned author. */
  const Edge: set<char> := {' ', '.', ',', ';', '(', ')', '[', ']'}

  /** `valid_search_author`: the author without "et al.", stripped of whitespace and of
      ' .,;()[]' at both ends, when more than one character is left. */
  function AuthorHint(u: Ucd, author: string): Option<string> {
    if author == [] then None
    else
      var cleaned := StripChars(Strip(u, DropEtAl(u, author, 0)), Edge);
      if |cleaned| > 1 then Some(cleaned) else None
  }

  /** Deleting matches never lengthens the text, and text with no 'e' or 'E' (where
      every match must start) comes back unchanged. */
  lemma {:induction false} DropEtAlKeepsPlainText(u: Ucd, s: string, i: nat)
    requires i <= |s|
    ensures |DropEtAl(u, s, i)| <= |s| - i
    ensures (forall k :: i <= k < |s| ==> s[k] !in {'e', 'E'}) ==> DropEtAl(u, s, i) == s[i..]
    decreases |s| - i
  {
    if i < |s| {
      match EtAlEnd(u, s, i)
      case Some(j) =>
        DropEtAlKeepsPlainText(u, s, j);
        var k := if s[i] in {'(', '['} then i + 1 else i;
        assert s[k] in {'e', 'E'};
      case None =>
        DropEtAlKeepsPlainText(u, s, i + 1);
        assert s[i..] == [s[i]] + s[i + 1..];
    }
  }

  /** A hint is at least two characters long and neither begins nor ends with one of
      ' .,;()[]'; no hint comes from a missing author. */
  lemma AuthorHintShape(u: Ucd, author: string)
    ensures var h := AuthorHint(u, author);
      h.Some? ==> author != [] && |h.value| > 1 && h.value[0] !in Edge && h.value[|h.value| - 1] !in Edge
  {
    if author != [] {
      StripCharsEnds(Strip(u, DropEtAl(u, author, 0)), Edge);
    }
  }

  /** A run of word characters, none of them an opening bracket, that does not begin
      with "e": the pattern matches nowhere inside it, since "et" must follow a word
      boundary. */
  predicate PlainWord(u: Ucd, name: string) {
    && name != [] && name[0] !in {'e', 'E'}
    && forall k :: 0 <= k < |name| ==> u.isWord(name[k]) && name[k] !in {'(', '['}
  }

  lemma NoMatchInWord(u: Ucd, name: string, rest: string)
    requires PlainWord(u, name)
    ensures forall k :: 0 <= k < |name| ==> EtAlEnd(u, name + rest, k) == None
  {
    var s := name + rest;
    forall k | 0 <= k < |name| ensures EtAlEnd(u, s, k) == None {
      assert s[k] == name[k];
      if k > 0 {
        assert s[k - 1] == name[k - 1];
        assert !IsBoundary(u, s, k);
      }
    }
  }

  /** An author written as one word followed by " et al." gives that word as the hint,
      "Smith et al." giving "Smith". */
  lemma EtAlSuffixDropped(u: Ucd, name: string)
    requires u.isSpace(' ') && !u.isWord(' ') && u.isWord('e') && !u.isSpace('a')
    requires PlainWord(u, name) && |name| > 1
    requires !u.isSpace(name[0]) && !u.isSpace(name[|name| - 1]) && name[0] !in Edge && name[|name| - 1] !in Edge
    ensures AuthorHint(u, name + " et al.") == Some(name)
  {
    EtAlSuffixMatch(u, name);
    StripNothing(u, name, " ");
    StripCharsNothing(name, Edge);
  }

  lemma EtAlSuffixMatch(u: Ucd, name: string)
    requires u.isSpace(' ') && !u.isWord(' ') && u.isWord('e') && !u.isSpace('a')
    requires PlainWord(u, name)
    ensures DropEtAl(u, name + " et al.", 0) == name + " "
  {
    var s := name + " et al.";
    var n := |name|;
    NoMatchInWord(u, name, " et al.");
    assert s[n] == ' ' && s[n + 1] == 'e' && s[n + 2] == 't' && s[n + 3] == ' ' && s[n + 4] == 'a' && s[n + 5] == 'l' && s[n + 6] == '.';
    assert EtAlEnd(u, s, n) == None;
    assert IsBoundary(u, s, n + 1);
    assert SkipSpaces(u, s, n + 3) == n + 4;
    assert EtAlEnd(u, s, n + 1) == Some(|s|);
    assert DropEtAl(u, s, n + 1) == [];
    DropEtAlPrefix(u, s, n + 1);
    assert s[..n + 1] == name + " ";
  }

  /** A single plain word is its own hint: the pattern does not match inside a word,
      so "Metalla" stays as it is. */
  lemma PlainWordKept(u: Ucd, name: string)
    requires PlainWord(u, name) && |name| > 1
    requires !u.isSpace(name[0]) && !u.isSpace(name[|name| - 1]) && name[0] !in Edge && name[|name| - 1] !in Edge
    ensures AuthorHint(u, name) == Some(name)
  {
    NoMatchInWord(u, name, []);
    assert name + [] == name;
    DropEtAlKeepsUnmatched(u, name, 0);
    StripNothing(u, name, []);
    StripCharsNothing(name, Edge);
  }

  lemma {:induction false} DropEtAlPrefix(u: Ucd, s: string, j: nat)
    requires j <= |s|
    requires forall k :: 0 <= k < j ==> EtAlEnd(u, s, k) == None
    ensures DropEtAl(u, s, 0) == s[..j] + DropEtAl(u, s, j)
  {
    DropEtAlPrefixFrom(u, s, 0, j);
  }

  lemma {:induction false} DropEtAlPrefixFrom(u: Ucd, s: string, i: nat, j: nat)
    requires i <= j <= |s|
    requires forall k :: i <= k < j ==> EtAlEnd(u, s, k) == None
    ensures DropEtAl(u, s, i) == s[i..j] + DropEtAl(u, s, j)
    decreases j - i
  {
    if i < j {
      DropEtAlPrefixFrom(u, s, i + 1, j);
      assert s[i..j] == [s[i]] + s[i + 1..j];
    }
  }

  /** Where the pattern matches nowhere, nothing is deleted. */
  lemma {:induction false} DropEtAlKeepsUnmatched(u: Ucd, s: string, i: nat)
    requires i <= |s|
    requires forall k :: i <= k < |s| ==> EtAlEnd(u, s, k) == None
    ensures DropEtAl(u, s, i) == s[i..]
    decreases |s| - i
  {
    if i < |s| {
      DropEtAlKeepsUnmatched(u, s, i + 1);
      assert s[i..] == [s[i]] + s[i + 1..];
    }
  }

  // ---------------------------------------------------------------------------
  // _do_search: one query and the loop over its results
  // ---------------------------------------------------------------------------

  datatype Mode = TitleAuthor | TitleOnly | RawText

  /** What a search reports: a hit in a tier (`citationOnly` when the hit had no link,
      the status then carrying " [Citation Only]"), nothing found, an exception, or
      (for the whole verifier) no key, or no match after the last tier. */
  datatype Outcome = Found(mode: Mode, citationOnly: bool) | NoHit | SearchError | NoKey | NoMatch

  const NoLinkMarker: string := "Citation Record (No Direct Link)"

  /** The authors a hit lists: its summary up to the first " - " (all of it when there is
      none), split at ',' and each part stripped. */
  function SummaryAuthors(u: Ucd, summary: string): seq<Json> {
    StrippedNames(u, SplitOn(BeforeFirst(summary, " - "), ','))
  }

  function StrippedNames(u: Ucd, parts: seq<string>): (r: seq<Json>)
    ensures |r| == |parts|
    ensures forall k :: 0 <= k < |r| ==> r[k] == JStr(Strip(u, parts[k]))
  {
    if parts == [] then [] else [JStr(Strip(u, parts[0]))] + StrippedNames(u, parts[1..])
  }

  /** What the loop decides about one hit: its title must match the reference's title,
      and, when an author is required, the authors of its summary must match too. */
  function HitVerdict(e: Env, title: string, required: Option<string>, h: Hit): Result<bool> {
    if !TitleOk(e, title, h.title) then Ok(false)
    else if required.None? then Ok(true)
    else AuthorOk(e, required.value, SummaryAuthors(e.u, h.summary))
  }

  function HitVerdictOf(e: Env, title: string, required: Option<string>): Hit -> Result<bool> {
    h => HitVerdict(e, title, required, h)
  }

  /** The answer for the hit the loop stops at. */
  function Report(h: Hit, mode: Mode): (Option<string>, Outcome) {
    if h.link != [] then (Some(h.link), Found(mode, false)) else (Some(NoLinkMarker), Found(mode, true))
  }

  /** `_do_search(query, mode, required)`. */
  function DoSearch(e: Env, search: Search, title: string, query: string, mode: Mode, required: Option<string>): (Option<string>, Outcome) {
    match search(query, 10)
    case None => (None, SearchError)
    case Some(hits) =>
      match FirstAccepted(HitVerdictOf(e, title, required), hits)
      case Raised(_) => (None, SearchError)
      case Ok(None) => (None, NoHit)
      case Ok(Some(h)) => Report(h, mode)
  }

  /** The hit loop of `_do_search`. */
  method DoSearchLoop(e: Env, search: Search, title: string, query: string, mode: Mode, required: Option<string>)
    returns (link: Option<string>, outcome: Outcome)
    ensures (link, outcome) == DoSearch(e, search, title, query, mode, required)
  {
    var results := search(query, 10);
    if results.None? {
      return None, SearchError;
    }
    var hits := results.value;
    ghost var v := HitVerdictOf(e, title, required);
    var i := 0;
    while i < |hits|
      invariant i <= |hits|
      invariant FirstAccepted(v, hits) == FirstAccepted(v, hits[i..])
      decreases |hits| - i
    {
      assert hits[i..][1..] == hits[i + 1..];
      var h := hits[i];
      if TitleOk(e, title, h.title) {
        if required.Some? {
          var ok := AuthorOk(e, required.value, SummaryAuthors(e.u, h.summary));
          if ok.Raised? {
            return None, SearchError;
          }
          if !ok.value {
            i := i + 1;
            continue;
          }
        }
        if h.link != [] {
          return Some(h.link), Found(mode, false);
        }
        return Some(NoLinkMarker), Found(mode, true);
      }
      i := i + 1;
    }
    return None, NoHit;
  }

  // ---------------------------------------------------------------------------
  // The three tiers
  // ---------------------------------------------------------------------------

  /** `search_scholar_by_title`. A missing key (or, in app.py, a missing SerpAPI
      library) is `key == ""`; a missing raw text is "". */
  function ScholarByTitle(e: Env, search: Search, title: string, key: string, author: string, raw: string): (Option<string>, Outcome) {
    if key == [] then (None, NoKey)
    else
      var hint := AuthorHint(e.u, author);
      var first := if hint.Some? then DoSearch(e, search, title, title + " " + hint.value, TitleAuthor, None) else (None, NoHit);
      if first.0.Some? then first
      else
        var second := DoSearch(e, search, title, title, TitleOnly, hint);
        if second.0.Some? then second
        else if |raw| > 10 then
          var third := DoSearch(e, search, title, raw, RawText, hint);
          if third.0.Some? then third else (None, NoMatch)
        else (None, NoMatch)
  }

  /** The tiers, run one after the other. */
  method SearchScholar(e: Env, search: Search, title: string, key: string, author: string, raw: string)
    returns (link: Option<string>, outcome: Outcome)
    ensures (link, outcome) == ScholarByTitle(e, search, title, key, author, raw)
  {
    if key == [] {
      return None, NoKey;
    }
    var hint := AuthorHint(e.u, author);
    if hint.Some? {
      link, outcome := DoSearchLoop(e, search, title, title + " " + hint.value, TitleAuthor, None);
      if link.Some? {
        return;
      }
    }
    link, outcome := DoSearchLoop(e, search, title, title, TitleOnly, hint);
    if link.Some? {
      return;
    }
    if |raw| > 10 {
      link, outcome := DoSearchLoop(e, search, title, raw, RawText, hint);
      if link.Some? {
        return;
      }
    }
    return None, NoMatch;
  }

  /** A search that finds something reports the tier it found it in, and returns a link
      exactly then. */
  lemma DoSearchReports(e: Env, search: Search, title: string, query: string, mode: Mode, required: Option<string>)
    ensures var (link, outcome) := DoSearch(e, search, title, query, mode, required);
      (link.Some? <==> outcome.Found?) && (outcome.Found? ==> outcome.mode == mode)
      && (outcome.Found? && outcome.citationOnly ==> link.value == NoLinkMarker)
  {
  }

  /** The hit a search returns is the first one its checks do not reject: its title
      matches the reference's, and when an author is required the authors listed in
      its summary match that author. */
  lemma SearchHitPassedChecks(e: Env, search: Search, title: string, query: string, mode: Mode, required: Option<string>)
    ensures var (link, outcome) := DoSearch(e, search, title, query, mode, required);
      outcome.Found? ==>
        search(query, 10).Some? &&
        var hits := search(query, 10).value;
        exists i :: 0 <= i < |hits| && RejectedBefore(HitVerdictOf(e, title, required), hits, i) &&
          TitleOk(e, title, hits[i].title) &&
          (required.Some? ==> AuthorOk(e, required.value, SummaryAuthors(e.u, hits[i].summary)) == Ok(true)) &&
          (link.value == if hits[i].link != [] then hits[i].link else NoLinkMarker)
  {
    var r := search(query, 10);
    if r.Some? {
      var v := HitVerdictOf(e, title, required);
      FirstAcceptedIsFirst(v, r.value);
    }
  }

  /** The tiers run in order: a tier answers only when every tier before it that ran
      found nothing. The title-and-author tier runs only with a hint, the raw-text tier
      only with more than ten characters of raw text, and when no tier finds anything the
      answer is "no match". */
  lemma TiersInOrder(e: Env, search: Search, title: string, key: string, author: string, raw: string)
    ensures var (link, outcome) := ScholarByTitle(e, search, title, key, author, raw);
      var hint := AuthorHint(e.u, author);
      && (link.Some? <==> outcome.Found?)
      && (key == [] <==> outcome == NoKey)
      && (outcome.Found? && outcome.mode == TitleAuthor ==> hint.Some?)
      && (outcome.Found? && outcome.mode != TitleAuthor && hint.Some? ==>
            DoSearch(e, search, title, title + " " + hint.value, TitleAuthor, None).0 == None)
      && (outcome.Found? && outcome.mode == RawText ==>
            |raw| > 10 && DoSearch(e, search, title, title, TitleOnly, hint).0 == None)
      && (outcome.Found? ==>
            (link, outcome) == DoSearch(e, search, title, SearchText(title, hint, raw, outcome.mode), outcome.mode, RequiredAuthor(hint, outcome.mode)))
  {
    if key != [] {
      var hint := AuthorHint(e.u, author);
      if hint.Some? {
        DoSearchReports(e, search, title, title + " " + hint.value, TitleAuthor, None);
      }
      DoSearchReports(e, search, title, title, TitleOnly, hint);
      DoSearchReports(e, search, title, raw, RawText, hint);
    }
  }

  /** The query each tier sends. */
  function SearchText(title: string, hint: Option<string>, raw: string, mode: Mode): string {
    match mode
    case TitleAuthor => if hint.Some? then title + " " + hint.value else title
    case TitleOnly => title
    case RawText => raw
  }

  /** The author each tier requires of a hit: none in the first tier, whose query already
      names the author, and the hint in the others. */
  function RequiredAuthor(hint: Option<string>, mode: Mode): Option<string> {
    if mode == TitleAuthor then None else hint
  }

  // ---------------------------------------------------------------------------
  // search_scholar_by_ref_text
  // ---------------------------------------------------------------------------

  datatype RefOutcome = RefNoKey | RefTitleMismatch | Similar | RefNoResults

  /** One search for the whole reference text with `num = 1`; the first result is
      returned, with its link (possibly none), unless a title is expected and it does
      not match. */
  function ScholarByRefText(e: Env, search: Search, refText: string, key: string, target: string): (r: (Option<string>, RefOutcome))
    ensures r.0.Some? ==> r.1 == Similar
  {
    if key == [] then (None, RefNoKey)
    else
      match search(refText, 1)
      case None => (None, RefNoResults)
      case Some(hits) =>
        if hits == [] then (None, RefNoResults)
        else if target != [] && !TitleOk(e, target, hits[0].title) then (None, RefTitleMismatch)
        else (if hits[0].link != [] then Some(hits[0].link) else None, Similar)
  }

  /** The fallback search accepts its first result exactly when no title is expected or
      the result's title matches it; no other result is looked at. */
  lemma RefTextAcceptsFirstOnly(e: Env, search: Search, refText: string, key: string, target: string)
    requires key != []
    ensures var r := ScholarByRefText(e, search, refText, key, target);
      r.1 == Similar <==>
        (search(refText, 1).Some? && search(refText, 1).value != [] &&
         (target == [] || TitleOk(e, target, search(refText, 1).value[0].title)))
    ensures var r := ScholarByRefText(e, search, refText, key, target);
      r.0.Some? ==> r.0.value == search(refText, 1).value[0].link
  {
  }
}
