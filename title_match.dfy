/** _is_match (modules/api_clients.py; app.py keeps a copy without one guard): do a
    cited title and a title returned by a bibliographic service name the same work?
    Both are normalised with clean_title, stripped of year and preprint-server noise,
    and compared by containment, by difflib's similarity ratio and by shared words. */
module TitleMatch {
  import opened PyText
  import opened Parsers

  // ---------------------------------------------------------------------------
  // difflib.SequenceMatcher
  // ---------------------------------------------------------------------------

  /** The number of characters in SequenceMatcher's matching blocks for (a, b);
      ratio() is 2 * M / (|a| + |b|), and 1.0 when both strings are empty. */
  type Matcher = (string, string) -> nat

  /** What any matching-block count satisfies: blocks are common to both strings and
      a string matches itself completely. */
  ghost predicate ValidMatcher(m: Matcher) {
    && (forall a: string, b: string :: m(a, b) <= |a| && m(a, b) <= |b|)
    && (forall a: string :: m(a, a) == |a|)
  }

  /** `ratio() >= 0.65`, exactly: with T = |a| + |b| the test is 2M/T >= 0.65, that is
      40M >= 13T; for T == 0 the ratio is 1.0, and 40 * 0 >= 0 holds as well. */
  predicate RatioAtLeast065(m: Matcher, a: string, b: string) {
    40 * m(a, b) >= 13 * (|a| + |b|)
  }

  // ---------------------------------------------------------------------------
  // remove_noise: two re.sub calls, then " ".join(text.split())
  // ---------------------------------------------------------------------------

  /** The two patterns: `\b(19|20)\d{2}\b`, and
      `\b(arxiv|biorxiv|available|online|access)\b` with re.IGNORECASE. */
  datatype Pattern = Years | NoiseWords

  const Noise: seq<string> := ["arxiv", "biorxiv", "available", "online", "access"]

  /** `c` matches the lower-case ASCII letter `p` under re.IGNORECASE in a str pattern:
      its simple lower-case mapping is `p` (the ASCII capital, U+0130 for i, U+212A for
      k), or it is one of the extra equivalences of the regex engine (U+0131 for i,
      U+017F for s). */
  predicate FoldsTo(c: char, p: char)
    requires 'a' <= p <= 'z'
  {
    || c == p
    || c as int == p as int - 32
    || (p == 'i' && (c == '\U{0130}' || c == '\U{0131}'))
    || (p == 's' && c == '\U{017F}')
    || (p == 'k' && c == '\U{212A}')
  }

  predicate LowerAsciiWord(w: string) {
    forall k :: 0 <= k < |w| ==> 'a' <= w[k] <= 'z'
  }

  predicate MatchesIgnoringCase(s: string, w: string)
    requires LowerAsciiWord(w)
  {
    |s| == |w| && forall k :: 0 <= k < |w| ==> FoldsTo(s[k], w[k])
  }

  /** The alternation at `i`, tried in order: the length of the first alternative that
      matches and is followed by `\b`, or 0. */
  function AlternativeAt(u: Ucd, s: string, i: nat, alts: seq<string>): (n: nat)
    requires i <= |s|
    requires forall k :: 0 <= k < |alts| ==> LowerAsciiWord(alts[k])
    ensures i + n <= |s|
    ensures n > 0 ==> exists k :: 0 <= k < |alts| && n == |alts[k]|
  {
    if alts == [] then 0
    else
      var w := alts[0];
      if w != [] && i + |w| <= |s| && MatchesIgnoringCase(s[i..i + |w|], w) && IsBoundary(u, s, i + |w|) then |w|
      else AlternativeAt(u, s, i, alts[1..])
  }

  /** A year from 1900 to 2099 as four characters: "19" or "20" and two decimal digits. */
  predicate YearText(u: Ucd, w: string) {
    |w| == 4 && (w[..2] == "19" || w[..2] == "20") && u.isDecimal(w[2]) && u.isDecimal(w[3])
  }

  /** The length of the match starting at `i`, or 0 when there is none. */
  function MatchAt(u: Ucd, p: Pattern, s: string, i: nat): (n: nat)
    requires i <= |s|
    ensures i + n <= |s|
  {
    if !IsBoundary(u, s, i) then 0
    else match p
      case Years => if i + 4 <= |s| && YearText(u, s[i..i + 4]) && IsBoundary(u, s, i + 4) then 4 else 0
      case NoiseWords => AlternativeAt(u, s, i, Noise)
  }

  /** `re.sub(pattern, "", s)` from position `i` on: each match, found left to right
      without overlap on the original string, is deleted; everything else is copied. */
  function SubAll(u: Ucd, p: Pattern, s: string, i: nat): (r: string)
    requires i <= |s|
    ensures |r| <= |s| - i
  {
    Scan(Lengths(u, p, s), s, i)
  }

  /** The length of the match the pattern finds at each position of `s`. */
  function Lengths(u: Ucd, p: Pattern, s: string): nat -> nat {
    (k: nat) => if k <= |s| then MatchAt(u, p, s, k) else 0
  }

  /** The scan of `re.sub` given the match length at each position: a match is
      deleted and the scan resumes after it; otherwise one character is copied. */
  function Scan(n: nat -> nat, s: string, i: nat): (r: string)
    requires i <= |s|
    ensures |r| <= |s| - i
    decreases |s| - i
  {
    if i == |s| then []
    else if n(i) > 0 && i + n(i) <= |s| then Scan(n, s, i + n(i))
    else [s[i]] + Scan(n, s, i + 1)
  }

  /** remove_noise. */
  function RemoveNoise(u: Ucd, text: string): string {
    var noYears := SubAll(u, Years, text, 0);
    JoinWith(" ", SplitWs(u, SubAll(u, NoiseWords, noYears, 0)))
  }

  // ---------------------------------------------------------------------------
  // The decision on cleaned, noise-free titles
  // ---------------------------------------------------------------------------

  const StopWords: set<string> := {"a", "an", "the", "of", "in", "for", "with", "on", "at", "by", "and", "from", "to"}

  /** `set(s.split())`. */
  function Words(u: Ucd, s: string): set<string> {
    set w | w in SplitWs(u, s)
  }

  /** The query's words that are not stop words and do not occur in the result. */
  function Missing(u: Ucd, q: string, r: string): set<string> {
    set w | w in Words(u, q) && w !in StopWords && w !in Words(u, r)
  }

  /** The four acceptance rules, in source order. `len(q) > len(r) * 1.5` and
      `len(q) > len(r) * 0.3` are the exact integer tests 2|q| > 3|r| and 10|q| > 3|r|:
      when the two sides differ they differ by at least 0.1, far more than the rounding
      of the float product, and when 10|q| == 3|r| the product rounds to |q| exactly. */
  predicate Decide(u: Ucd, m: Matcher, q: string, r: string) {
    || (2 * |q| > 3 * |r| && Contains(q, r))
    || RatioAtLeast065(m, q, r)
    || (|Missing(u, q, r)| <= 1 && |Words(u, q)| >= 5)
    || (|Missing(u, q, r)| == 0 && 10 * |q| > 3 * |r|)
  }

  /** modules/api_clients.py `_is_match`: empty inputs and inputs that clean to nothing
      never match; otherwise the noise-free clean titles decide. */
  predicate IsMatch(u: Ucd, m: Matcher, query: string, result: string) {
    if query == [] || result == [] then false
    else
      var cq, cr := CleanTitle(u, query), CleanTitle(u, result);
      if cq == [] || cr == [] then false
      else Decide(u, m, RemoveNoise(u, cq), RemoveNoise(u, cr))
  }

  /** app.py `_is_match`: the same decision on app.py's clean_title, but without the
      guard that rejects titles which clean to nothing. */
  predicate IsMatchApp(u: Ucd, m: Matcher, query: string, result: string) {
    if query == [] || result == [] then false
    else Decide(u, m, RemoveNoise(u, AppCleanTitle(u, query)), RemoveNoise(u, AppCleanTitle(u, result)))
  }

  // ---------------------------------------------------------------------------
  // Properties of the decision
  // ---------------------------------------------------------------------------

  /** Whatever the rest of the rules say, two equal noise-free titles match, because
      their ratio is 1. */
  lemma DecideReflexive(u: Ucd, m: Matcher, q: string)
    requires ValidMatcher(m)
    ensures Decide(u, m, q, q)
  {
    assert m(q, q) == |q|;
  }

  /** A query matches itself once it cleans to something. */
  lemma IsMatchReflexive(u: Ucd, m: Matcher, t: string)
    requires ValidMatcher(m) && CleanTitle(u, t) != []
    ensures IsMatch(u, m, t, t)
  {
    DecideReflexive(u, m, RemoveNoise(u, CleanTitle(u, t)));
  }

  /** The guard: nothing matches an empty title or a title that cleans to nothing, and
      otherwise the result depends only on the two noise-free clean titles. */
  lemma IsMatchGuard(u: Ucd, m: Matcher, query: string, result: string)
    ensures CleanTitle(u, query) == [] || CleanTitle(u, result) == [] ==> !IsMatch(u, m, query, result)
    ensures CleanTitle(u, query) != [] && CleanTitle(u, result) != [] ==>
      (IsMatch(u, m, query, result) <==>
        Decide(u, m, RemoveNoise(u, CleanTitle(u, query)), RemoveNoise(u, CleanTitle(u, result))))
  {
    assert query == [] ==> CleanTitle(u, query) == [];
    assert result == [] ==> CleanTitle(u, result) == [];
  }

  /** A noise-free result that is empty is contained in every query and, against an
      empty query, has ratio 1: a result made only of noise matches everything. */
  lemma DecideEmptyResult(u: Ucd, m: Matcher, q: string)
    ensures Decide(u, m, q, [])
  {
    if q != [] {
      assert StartsWith(q[0..], []);
    }
  }

  /** So a candidate title that cleans to noise alone (such as "Available online")
      matches every query that cleans to something. */
  lemma NoiseOnlyResultMatches(u: Ucd, m: Matcher, query: string, result: string)
    requires CleanTitle(u, query) != [] && CleanTitle(u, result) != []
    requires RemoveNoise(u, CleanTitle(u, result)) == []
    ensures IsMatch(u, m, query, result)
  {
    IsMatchGuard(u, m, query, result);
    DecideEmptyResult(u, m, RemoveNoise(u, CleanTitle(u, query)));
  }

  /** The word rules: a query of five or more distinct words with at most one
      important word missing matches, and so does a query with no important word
      missing that is not much shorter than the result. */
  lemma WordRules(u: Ucd, m: Matcher, q: string, r: string)
    ensures (forall w :: w in SplitWs(u, q) ==> w in StopWords || w in SplitWs(u, r)) && 10 * |q| > 3 * |r|
      ==> Decide(u, m, q, r)
    ensures |Words(u, q)| >= 5 && |Missing(u, q, r)| <= 1 ==> Decide(u, m, q, r)
  {
    if forall w :: w in SplitWs(u, q) ==> w in StopWords || w in SplitWs(u, r) {
      assert Missing(u, q, r) == {};
    }
  }

  // ---------------------------------------------------------------------------
  // On plain cleaned text the two substitutions delete whole words
  // ---------------------------------------------------------------------------

  /** Text the way clean_title leaves ASCII titles: every character is a space (which
      is whitespace, not a word character and not a decimal) or a word character that
      is not whitespace. */
  predicate Plain(u: Ucd, s: string) {
    && u.isSpace(' ') && !u.isWord(' ') && !u.isDecimal(' ')
    && forall k :: 0 <= k < |s| ==> s[k] == ' ' || (u.isWord(s[k]) && !u.isSpace(s[k]))
  }

  /** One of the noise words, in any case the regex engine folds. */
  predicate NoiseToken(w: string) {
    exists k :: 0 <= k < |Noise| && MatchesIgnoringCase(w, Noise[k])
  }

  /** The words a pattern deletes when they stand alone. */
  predicate Deleted(u: Ucd, p: Pattern, w: string) {
    match p
    case Years => YearText(u, w)
    case NoiseWords => NoiseToken(w)
  }

  /** The words of a list that a pattern keeps, in order. */
  function Keep(u: Ucd, p: Pattern, ws: seq<string>): (r: seq<string>)
  {
    if ws == [] then [] else (if Deleted(u, p, ws[0]) then [] else [ws[0]]) + Keep(u, p, ws[1..])
  }

  /** `Keep` keeps exactly the words the pattern does not delete. */
  lemma {:induction false} KeepMembers(u: Ucd, p: Pattern, ws: seq<string>)
    ensures forall w :: w in Keep(u, p, ws) <==> w in ws && !Deleted(u, p, w)
  {
    if ws != [] {
      KeepMembers(u, p, ws[1..]);
      assert forall w :: w in ws <==> w == ws[0] || w in ws[1..];
    }
  }

  /** Whole-word deletion from position `i` on: whitespace is copied, and each maximal
      run of other characters is copied or dropped as a unit. */
  function DropWords(u: Ucd, p: Pattern, s: string, i: nat): (r: string)
    requires i <= |s|
    decreases |s| - i
  {
    if i == |s| then []
    else if u.isSpace(s[i]) then [s[i]] + DropWords(u, p, s, i + 1)
    else
      var w := TakeWord(u, s[i..]);
      (if Deleted(u, p, w) then [] else w) + DropWords(u, p, s, i + |w|)
  }

  /** The word starting at `i` (after a space or at the start of the text) and the
      boundaries around and inside it. */
  lemma WordAt(u: Ucd, s: string, i: nat)
    requires Plain(u, s) && i < |s| && s[i] != ' ' && (i == 0 || s[i - 1] == ' ')
    ensures var w := TakeWord(u, s[i..]);
      && w != [] && i + |w| <= |s| && w == s[i..i + |w|]
      && (forall k :: i <= k < i + |w| ==> s[k] != ' ')
      && (i + |w| == |s| || s[i + |w|] == ' ')
      && IsBoundary(u, s, i) && IsBoundary(u, s, i + |w|)
  {
    var w := TakeWord(u, s[i..]);
    assert forall k :: i <= k < i + |w| ==> s[k] == w[k - i];
    if i + |w| < |s| {
      assert u.isSpace(s[i + |w|]);
    }
  }

  /** A word reaches at least as far as a run of non-space characters from its start. */
  lemma WordCovers(u: Ucd, s: string, i: nat, j: nat)
    requires Plain(u, s) && i < j <= |s|
    requires forall k :: i <= k < j ==> s[k] != ' '
    ensures |TakeWord(u, s[i..])| >= j - i
  {
    var w := TakeWord(u, s[i..]);
    assert |w| == |s[i..]| || u.isSpace(s[i..][|w|]);
  }

  /** No boundary strictly inside a word. */
  lemma NoBoundaryInside(u: Ucd, s: string, k: nat)
    requires Plain(u, s) && 0 < k < |s| && s[k - 1] != ' ' && s[k] != ' '
    ensures !IsBoundary(u, s, k)
  {
  }

  /** A boundary right after a word character is a space. */
  lemma SpaceAtBoundary(u: Ucd, s: string, k: nat)
    requires Plain(u, s) && 0 < k < |s| && s[k - 1] != ' ' && IsBoundary(u, s, k)
    ensures s[k] == ' '
  {
  }

  /** The year pattern at the start of a word matches exactly when the word is a year. */
  lemma YearsAtWord(u: Ucd, s: string, i: nat)
    requires Plain(u, s) && i < |s| && s[i] != ' ' && (i == 0 || s[i - 1] == ' ')
    ensures var w := TakeWord(u, s[i..]);
      MatchAt(u, Years, s, i) == if YearText(u, w) then |w| else 0
  {
    var w := TakeWord(u, s[i..]);
    WordAt(u, s, i);
    if i + 4 <= |s| && YearText(u, s[i..i + 4]) && IsBoundary(u, s, i + 4) {
      var y := s[i..i + 4];
      assert y[0] == s[i] && y[1] == s[i + 1] && y[2] == s[i + 2] && y[3] == s[i + 3];
      assert s[i + 2] != ' ' && s[i + 3] != ' ';
      assert s[i] != ' ' && s[i + 1] != ' ' by {
        assert y[..2] == [y[0], y[1]];
      }
      WordCovers(u, s, i, i + 4);
      if i + 4 < |s| {
        SpaceAtBoundary(u, s, i + 4);
      }
    }
  }

  /** The alternation at the start of a word matches exactly the whole word, when the
      word is one of the alternatives. */
  lemma {:induction false} AlternativesAtWord(u: Ucd, s: string, i: nat, alts: seq<string>)
    requires Plain(u, s) && i < |s| && s[i] != ' ' && (i == 0 || s[i - 1] == ' ')
    requires forall k :: 0 <= k < |alts| ==> LowerAsciiWord(alts[k]) && alts[k] != []
    ensures var w := TakeWord(u, s[i..]);
      AlternativeAt(u, s, i, alts) == if exists k :: 0 <= k < |alts| && MatchesIgnoringCase(w, alts[k]) then |w| else 0
  {
    var w := TakeWord(u, s[i..]);
    if alts != [] {
      var a := alts[0];
      AlternativeMatchesWord(u, s, i, a);
      AlternativesAtWord(u, s, i, alts[1..]);
      if !MatchesIgnoringCase(w, a) {
        assert forall k :: 1 <= k < |alts| ==> alts[k] == alts[1..][k - 1];
      }
    }
  }

  lemma AlternativeMatchesWord(u: Ucd, s: string, i: nat, a: string)
    requires Plain(u, s) && i < |s| && s[i] != ' ' && (i == 0 || s[i - 1] == ' ')
    requires LowerAsciiWord(a) && a != []
    ensures var w := TakeWord(u, s[i..]);
      (i + |a| <= |s| && MatchesIgnoringCase(s[i..i + |a|], a) && IsBoundary(u, s, i + |a|))
        <==> MatchesIgnoringCase(w, a)
  {
    var w := TakeWord(u, s[i..]);
    WordAt(u, s, i);
    if i + |a| <= |s| && MatchesIgnoringCase(s[i..i + |a|], a) && IsBoundary(u, s, i + |a|) {
      forall k | i <= k < i + |a| ensures s[k] != ' ' {
        assert FoldsTo(s[i..i + |a|][k - i], a[k - i]);
      }
      WordCovers(u, s, i, i + |a|);
      if i + |a| < |s| {
        SpaceAtBoundary(u, s, i + |a|);
      }
    }
  }

  /** The pattern at the start of a word deletes exactly the words `Deleted` names. */
  lemma MatchAtWord(u: Ucd, p: Pattern, s: string, i: nat)
    requires Plain(u, s) && i < |s| && s[i] != ' ' && (i == 0 || s[i - 1] == ' ')
    ensures var w := TakeWord(u, s[i..]);
      MatchAt(u, p, s, i) == if Deleted(u, p, w) then |w| else 0
  {
    WordAt(u, s, i);
    match p
    case Years => YearsAtWord(u, s, i);
    case NoiseWords => AlternativesAtWord(u, s, i, Noise);
  }

  /** Neither pattern matches at a space. */
  lemma {:induction false} NoMatchAtSpace(u: Ucd, p: Pattern, s: string, i: nat)
    requires Plain(u, s) && i < |s| && s[i] == ' '
    ensures MatchAt(u, p, s, i) == 0
  {
    if p.NoiseWords? {
      NoAlternativeAtSpace(u, s, i, Noise);
    } else if i + 4 <= |s| {
      assert s[i..i + 4][..2][0] == ' ';
    }
  }

  lemma {:induction false} NoAlternativeAtSpace(u: Ucd, s: string, i: nat, alts: seq<string>)
    requires i < |s| && s[i] == ' '
    requires forall k :: 0 <= k < |alts| ==> LowerAsciiWord(alts[k])
    ensures AlternativeAt(u, s, i, alts) == 0
  {
    if alts != [] {
      var a := alts[0];
      if a != [] && i + |a| <= |s| {
        assert s[i..i + |a|][0] == ' ';
        assert !FoldsTo(' ', a[0]);
      }
      NoAlternativeAtSpace(u, s, i, alts[1..]);
    }
  }

  lemma NoMatchInside(u: Ucd, p: Pattern, s: string, k: nat)
    requires Plain(u, s) && 0 < k < |s| && s[k - 1] != ' ' && s[k] != ' '
    ensures MatchAt(u, p, s, k) == 0
  {
    NoBoundaryInside(u, s, k);
  }

  /** Where nothing matches, the scan copies one character. */
  lemma ScanCopies(n: nat -> nat, s: string, j: nat)
    requires j < |s| && n(j) == 0
    ensures Scan(n, s, j) == [s[j]] + Scan(n, s, j + 1)
  {
  }

  /** A run where nothing matches is copied as it is. */
  lemma {:induction false} ScanCopiesRun(n: nat -> nat, s: string, j: nat, e: nat)
    requires j <= e <= |s|
    requires forall k :: j <= k < e ==> n(k) == 0
    ensures Scan(n, s, j) == s[j..e] + Scan(n, s, e)
    decreases e - j
  {
    if j < e {
      ScanCopiesRun(n, s, j + 1, e);
      ScanCopies(n, s, j);
      ConsSlice(s, j, e, Scan(n, s, e));
    } else {
      assert s[j..e] == [];
    }
  }

  lemma ConsSlice(s: string, i: nat, e: nat, x: string)
    requires i < e <= |s|
    ensures [s[i]] + (s[i + 1..e] + x) == s[i..e] + x
  {
    assert [s[i]] + s[i + 1..e] == s[i..e];
  }

  /** At the start of a word the scan deletes or copies the whole word. */
  lemma SubAllAtWord(u: Ucd, p: Pattern, s: string, i: nat, e: nat)
    requires Plain(u, s) && i < e <= |s| && (i == 0 || s[i - 1] == ' ')
    requires forall k :: i <= k < e ==> s[k] != ' '
    requires MatchAt(u, p, s, i) == 0 || MatchAt(u, p, s, i) == e - i
    ensures SubAll(u, p, s, i) == (if MatchAt(u, p, s, i) > 0 then [] else s[i..e]) + SubAll(u, p, s, e)
  {
    if MatchAt(u, p, s, i) > 0 {
      SubAllDeletesWord(u, p, s, i, e);
      assert [] + SubAll(u, p, s, e) == SubAll(u, p, s, e);
    } else {
      SubAllCopiesWord(u, p, s, i, e);
    }
  }

  lemma SubAllDeletesWord(u: Ucd, p: Pattern, s: string, i: nat, e: nat)
    requires i < e <= |s| && MatchAt(u, p, s, i) == e - i
    ensures SubAll(u, p, s, i) == SubAll(u, p, s, e)
  {
    var n := Lengths(u, p, s);
    assert n(i) == e - i;
  }

  lemma SubAllCopiesWord(u: Ucd, p: Pattern, s: string, i: nat, e: nat)
    requires Plain(u, s) && i < e <= |s|
    requires forall k :: i <= k < e ==> s[k] != ' '
    requires MatchAt(u, p, s, i) == 0
    ensures SubAll(u, p, s, i) == s[i..e] + SubAll(u, p, s, e)
  {
    var n := Lengths(u, p, s);
    forall k | i <= k < e ensures n(k) == 0 {
      if k > i {
        NoMatchInside(u, p, s, k);
      }
    }
    ScanCopiesRun(n, s, i, e);
  }

  /** At a space the scan copies the space. */
  lemma SubAllAtSpace(u: Ucd, p: Pattern, s: string, i: nat)
    requires Plain(u, s) && i < |s| && s[i] == ' '
    ensures SubAll(u, p, s, i) == [s[i]] + SubAll(u, p, s, i + 1)
    ensures DropWords(u, p, s, i) == [s[i]] + DropWords(u, p, s, i + 1)
  {
    NoMatchAtSpace(u, p, s, i);
  }

  /** A word at a word start: the scan and whole-word deletion both drop or copy it. */
  lemma WordStep(u: Ucd, p: Pattern, s: string, i: nat, w: string, j: nat)
    requires Plain(u, s) && i < |s| && s[i] != ' ' && (i == 0 || s[i - 1] == ' ')
    requires w == TakeWord(u, s[i..]) && j == i + |w|
    ensures i < j <= |s| && (j == |s| || s[j] == ' ')
    ensures Deleted(u, p, w) ==> SubAll(u, p, s, i) == SubAll(u, p, s, j) && DropWords(u, p, s, i) == DropWords(u, p, s, j)
    ensures !Deleted(u, p, w) ==> SubAll(u, p, s, i) == w + SubAll(u, p, s, j) && DropWords(u, p, s, i) == w + DropWords(u, p, s, j)
  {
    WordAt(u, s, i);
    MatchAtWord(u, p, s, i);
    SubAllAtWord(u, p, s, i, j);
    assert !u.isSpace(s[i]);
    if Deleted(u, p, w) {
      assert [] + SubAll(u, p, s, j) == SubAll(u, p, s, j);
      DropWordsDropsWord(u, p, s, i, w, j);
    } else {
      assert s[i..j] == w;
      DropWordsKeepsWord(u, p, s, i, w, j);
    }
  }

  lemma DropWordsDropsWord(u: Ucd, p: Pattern, s: string, i: nat, w: string, j: nat)
    requires i < |s| && !u.isSpace(s[i]) && w == TakeWord(u, s[i..]) && j == i + |w|
    requires Deleted(u, p, w)
    ensures DropWords(u, p, s, i) == DropWords(u, p, s, j)
  {
  }

  lemma DropWordsKeepsWord(u: Ucd, p: Pattern, s: string, i: nat, w: string, j: nat)
    requires i < |s| && !u.isSpace(s[i]) && w == TakeWord(u, s[i..]) && j == i + |w|
    requires !Deleted(u, p, w)
    ensures DropWords(u, p, s, i) == w + DropWords(u, p, s, j)
  {
  }

  /** One word of the induction below: if the two agree after the word, they agree
      from its start. */
  lemma SubAllDropWordsStep(u: Ucd, p: Pattern, s: string, i: nat, w: string, j: nat)
    requires Plain(u, s) && i < |s| && s[i] != ' ' && (i == 0 || s[i - 1] == ' ')
    requires w == TakeWord(u, s[i..]) && j == i + |w| && j <= |s|
    requires SubAll(u, p, s, j) == DropWords(u, p, s, j)
    ensures SubAll(u, p, s, i) == DropWords(u, p, s, i)
  {
    WordStep(u, p, s, i, w, j);
  }

  /** Outside words, the regex scan is whole-word deletion. */
  lemma {:induction false} SubAllIsDropWords(u: Ucd, p: Pattern, s: string, i: nat)
    requires Plain(u, s) && i <= |s|
    requires i == 0 || i == |s| || s[i - 1] == ' ' || s[i] == ' '
    ensures SubAll(u, p, s, i) == DropWords(u, p, s, i)
    decreases |s| - i, 1
  {
    if i < |s| {
      if s[i] == ' ' {
        SubAllIsDropWordsAtSpace(u, p, s, i);
      } else {
        SubAllIsDropWordsAtWord(u, p, s, i);
      }
    }
  }

  lemma {:induction false} SubAllIsDropWordsAtSpace(u: Ucd, p: Pattern, s: string, i: nat)
    requires Plain(u, s) && i < |s| && s[i] == ' '
    ensures SubAll(u, p, s, i) == DropWords(u, p, s, i)
    decreases |s| - i, 0
  {
    SubAllIsDropWords(u, p, s, i + 1);
    SubAllDropWordsSpace(u, p, s, i);
  }

  lemma {:induction false} SubAllIsDropWordsAtWord(u: Ucd, p: Pattern, s: string, i: nat)
    requires Plain(u, s) && i < |s| && s[i] != ' ' && (i == 0 || s[i - 1] == ' ')
    ensures SubAll(u, p, s, i) == DropWords(u, p, s, i)
    decreases |s| - i, 0
  {
    var j := WordEnd(u, s, i);
    SubAllIsDropWords(u, p, s, j);
    SubAllDropWordsStep(u, p, s, i, TakeWord(u, s[i..]), j);
  }

  /** Where the word starting at `i` ends. */
  lemma WordEnd(u: Ucd, s: string, i: nat) returns (j: nat)
    requires Plain(u, s) && i < |s| && s[i] != ' ' && (i == 0 || s[i - 1] == ' ')
    ensures j == i + |TakeWord(u, s[i..])| && j <= |s| && (j == |s| || s[j] == ' ')
  {
    WordAt(u, s, i);
    j := i + |TakeWord(u, s[i..])|;
  }

  /** One space of the induction above. */
  lemma SubAllDropWordsSpace(u: Ucd, p: Pattern, s: string, i: nat)
    requires Plain(u, s) && i < |s| && s[i] == ' '
    requires SubAll(u, p, s, i + 1) == DropWords(u, p, s, i + 1)
    ensures SubAll(u, p, s, i) == DropWords(u, p, s, i)
  {
    SubAllAtSpace(u, p, s, i);
  }

  /** Whole-word deletion keeps the text plain. */
  lemma {:induction false} DropWordsPlain(u: Ucd, p: Pattern, s: string, i: nat)
    requires Plain(u, s) && i <= |s|
    ensures Plain(u, DropWords(u, p, s, i))
    decreases |s| - i
  {
    if i < |s| {
      if u.isSpace(s[i]) {
        DropWordsPlain(u, p, s, i + 1);
      } else {
        var w := TakeWord(u, s[i..]);
        DropWordsPlain(u, p, s, i + |w|);
        assert forall k :: 0 <= k < |w| ==> w[k] == s[i + k];
      }
    }
  }

  /** The words left after whole-word deletion are the words the pattern keeps. */
  lemma {:induction false} DropWordsSplit(u: Ucd, p: Pattern, s: string, i: nat)
    requires i <= |s|
    ensures SplitWs(u, DropWords(u, p, s, i)) == Keep(u, p, SplitWs(u, s[i..]))
    decreases |s| - i
  {
    if i < |s| {
      if u.isSpace(s[i]) {
        DropWordsSplit(u, p, s, i + 1);
        DropWordsSplitSpace(u, p, s, i);
      } else {
        var j := i + |TakeWord(u, s[i..])|;
        DropWordsSplit(u, p, s, j);
        DropWordsSplitWord(u, p, s, i, j);
      }
    }
  }

  lemma DropWordsSplitSpace(u: Ucd, p: Pattern, s: string, i: nat)
    requires i < |s| && u.isSpace(s[i])
    requires SplitWs(u, DropWords(u, p, s, i + 1)) == Keep(u, p, SplitWs(u, s[i + 1..]))
    ensures SplitWs(u, DropWords(u, p, s, i)) == Keep(u, p, SplitWs(u, s[i..]))
  {
    SpaceThenSplit(u, s[i], DropWords(u, p, s, i + 1));
    SpaceThenSplit(u, s[i], s[i + 1..]);
    assert s[i..] == [s[i]] + s[i + 1..];
  }

  lemma DropWordsSplitWord(u: Ucd, p: Pattern, s: string, i: nat, j: nat)
    requires i < |s| && !u.isSpace(s[i]) && j == i + |TakeWord(u, s[i..])|
    requires SplitWs(u, DropWords(u, p, s, j)) == Keep(u, p, SplitWs(u, s[j..]))
    ensures SplitWs(u, DropWords(u, p, s, i)) == Keep(u, p, SplitWs(u, s[i..]))
  {
    var w := TakeWord(u, s[i..]);
    var rest := DropWords(u, p, s, j);
    var ws := SplitWs(u, s[j..]);
    SplitAtWord(u, s, i, w, j);
    KeepCons(u, p, w, ws);
    if Deleted(u, p, w) {
      DropWordsDropsWord(u, p, s, i, w, j);
      calc {
        SplitWs(u, DropWords(u, p, s, i));
        SplitWs(u, rest);
        Keep(u, p, ws);
        Keep(u, p, [w] + ws);
        Keep(u, p, SplitWs(u, s[i..]));
      }
    } else {
      DropWordsKeepsWord(u, p, s, i, w, j);
      DropWordsLeadingSpace(u, p, s, j);
      SplitWordThen(u, w, rest);
      calc {
        SplitWs(u, DropWords(u, p, s, i));
        SplitWs(u, w + rest);
        [w] + SplitWs(u, rest);
        [w] + Keep(u, p, ws);
        Keep(u, p, [w] + ws);
        Keep(u, p, SplitWs(u, s[i..]));
      }
    }
  }

  lemma SplitAtWord(u: Ucd, s: string, i: nat, w: string, j: nat)
    requires i < |s| && !u.isSpace(s[i]) && w == TakeWord(u, s[i..]) && j == i + |w|
    ensures SplitWs(u, s[i..]) == [w] + SplitWs(u, s[j..])
  {
    SplitWordStart(u, s[i..]);
    assert s[i..][|w|..] == s[i + |w|..];
  }

  /** Whole-word deletion from a space (or the end) starts with that space. */
  lemma DropWordsLeadingSpace(u: Ucd, p: Pattern, s: string, i: nat)
    requires i <= |s| && (i == |s| || u.isSpace(s[i]))
    ensures var r := DropWords(u, p, s, i); r == [] || u.isSpace(r[0])
  {
  }

  lemma KeepCons(u: Ucd, p: Pattern, w: string, ws: seq<string>)
    ensures Deleted(u, p, w) ==> Keep(u, p, [w] + ws) == Keep(u, p, ws)
    ensures !Deleted(u, p, w) ==> Keep(u, p, [w] + ws) == [w] + Keep(u, p, ws)
  {
    assert ([w] + ws)[1..] == ws;
  }

  /** A word followed by whitespace (or nothing) splits off as the first word. */
  lemma SplitWordThen(u: Ucd, w: string, rest: string)
    requires IsWord(u, w) && (rest == [] || u.isSpace(rest[0]))
    ensures SplitWs(u, w + rest) == [w] + SplitWs(u, rest)
  {
    TakeWordOfWordThenSpace(u, w, rest);
    SplitWordStart(u, w + rest);
    assert (w + rest)[|w|..] == rest;
  }

  lemma SpaceThenSplit(u: Ucd, c: char, s: string)
    requires u.isSpace(c)
    ensures SplitWs(u, [c] + s) == SplitWs(u, s)
  {
    assert ([c] + s)[1..] == s;
    SplitSkipsLeadingSpace(u, s);
    SplitSkipsLeadingSpace(u, [c] + s);
  }

  /** On plain text, remove_noise drops the words that are years from 1900 to 2099 and
      the words arxiv, biorxiv, available, online and access in any case, and joins the
      remaining words with single spaces. */
  lemma RemoveNoiseDropsWords(u: Ucd, t: string)
    requires Plain(u, t)
    ensures RemoveNoise(u, t) == JoinWith(" ", Keep(u, NoiseWords, Keep(u, Years, SplitWs(u, t))))
  {
    var s1 := SubAll(u, Years, t, 0);
    SubAllIsDropWords(u, Years, t, 0);
    DropWordsPlain(u, Years, t, 0);
    SubAllIsDropWords(u, NoiseWords, s1, 0);
    DropWordsSplit(u, NoiseWords, s1, 0);
    DropWordsSplit(u, Years, t, 0);
    assert t[0..] == t && s1[0..] == s1;
  }

  /** A cleaned ASCII title is plain: spaces, lower-case letters and digits. */
  lemma CleanAsciiIsPlain(u: Ucd, text: string)
    requires AsciiExact(u) && IsAscii(text)
    ensures Plain(u, CleanTitle(u, text))
  {
    var r := CleanTitle(u, text);
    CleanTitleAsciiChars(u, text);
    SpaceFacts(u);
    forall k | 0 <= k < |r| ensures r[k] == ' ' || (u.isWord(r[k]) && !u.isSpace(r[k])) {
      assert CleanAscii(r[k]);
    }
  }

  lemma SpaceFacts(u: Ucd)
    requires AsciiExact(u)
    ensures u.isSpace(' ') && !u.isWord(' ') && !u.isDecimal(' ')
  {
  }

  /** So on an ASCII title remove_noise deletes exactly the year words and the noise
      words of the cleaned title, and keeps the rest in order. */
  lemma RemoveNoiseOnAscii(u: Ucd, text: string)
    requires AsciiExact(u) && IsAscii(text)
    ensures var c := CleanTitle(u, text);
      RemoveNoise(u, c) == JoinWith(" ", Keep(u, NoiseWords, Keep(u, Years, SplitWs(u, c))))
  {
    CleanAsciiIsPlain(u, text);
    RemoveNoiseDropsWords(u, CleanTitle(u, text));
  }

  /** A list of words all deleted by the patterns keeps nothing. */
  lemma KeepNothing(u: Ucd, ws: seq<string>)
    requires forall w :: w in ws ==> Deleted(u, Years, w) || Deleted(u, NoiseWords, w)
    ensures Keep(u, NoiseWords, Keep(u, Years, ws)) == []
  {
    var k1 := Keep(u, Years, ws);
    var k2 := Keep(u, NoiseWords, k1);
    KeepMembers(u, Years, ws);
    KeepMembers(u, NoiseWords, k1);
    NoMemberEmpty(k2);
  }

  lemma NoMemberEmpty<T>(s: seq<T>)
    requires forall x :: x !in s
    ensures s == []
  {
    if s != [] {
      HeadIn(s);
      assert false;
    }
  }

  lemma HeadIn<T>(s: seq<T>)
    requires s != []
    ensures s[0] in s
  {
  }

  /** The consequence for _is_match: an ASCII candidate title whose every word is a
      year or a noise word (say "Available online", or "arXiv 2021") matches every
      query that cleans to something. */
  lemma NoiseTitleMatchesEverything(u: Ucd, m: Matcher, query: string, result: string)
    requires AsciiExact(u) && IsAscii(result)
    requires CleanTitle(u, query) != [] && CleanTitle(u, result) != []
    requires forall w :: w in SplitWs(u, CleanTitle(u, result)) ==> YearText(u, w) || NoiseToken(w)
    ensures IsMatch(u, m, query, result)
  {
    var ws := SplitWs(u, CleanTitle(u, result));
    RemoveNoiseOnAscii(u, result);
    KeepNothing(u, ws);
    NoiseOnlyResultMatches(u, m, query, result);
  }

  // ---------------------------------------------------------------------------
  // The two copies of _is_match
  // ---------------------------------------------------------------------------

  /** Where the guard does not fire the two copies agree. */
  lemma IsMatchAppAgrees(u: Ucd, m: Matcher, query: string, result: string)
    requires CleanTitle(u, query) != [] && CleanTitle(u, result) != []
    ensures IsMatchApp(u, m, query, result) <==> IsMatch(u, m, query, result)
  {
    AppCleanTitleIsCleanTitle(u, query);
    AppCleanTitleIsCleanTitle(u, result);
  }

  lemma RemoveNoiseEmpty(u: Ucd)
    ensures RemoveNoise(u, []) == []
  {
    assert SubAll(u, Years, [], 0) == [];
    assert SubAll(u, NoiseWords, [], 0) == [];
    assert SplitWs(u, []) == [];
  }

  /** Where it fires they disagree: two non-empty titles that both clean to nothing
      match in app.py (the ratio of two empty strings is 1.0) and do not match in
      modules/api_clients.py. */
  lemma GuardMissingInApp(u: Ucd, m: Matcher, query: string, result: string)
    requires query != [] && result != []
    requires CleanTitle(u, query) == [] && CleanTitle(u, result) == []
    ensures IsMatchApp(u, m, query, result)
    ensures !IsMatch(u, m, query, result)
  {
    AppCleanTitleIsCleanTitle(u, query);
    AppCleanTitleIsCleanTitle(u, result);
    RemoveNoiseEmpty(u);
    DecideEmptyResult(u, m, []);
  }

  /** For instance "-" (a dash, deleted) and "!" (punctuation, filtered out). */
  lemma DashAndBangCleanToNothing(u: Ucd)
    requires AsciiExact(u)
    ensures CleanTitle(u, "-") == [] && CleanTitle(u, "!") == []
  {
    assert IsAscii("-");
    assert u.nfkc("-") == "-";
    assert IsAscii("!");
    assert u.nfkc("!") == "!";
    assert u.major('!') == AsciiMajor('!') == Punctuation;
    DashCleansToNothing(u);
    BangCleansToNothing(u);
  }

  lemma DashCleansToNothing(u: Ucd)
    requires u.nfkc("-") == "-"
    ensures CleanTitle(u, "-") == []
  {
    DeleteDashes("-");
    assert Without("-", DashSet) == [];
    assert KeepAndLower(u, []) == [];
    assert Squash(u, []) == [];
  }

  lemma BangCleansToNothing(u: Ucd)
    requires u.nfkc("!") == "!" && u.major('!') == Punctuation
    ensures CleanTitle(u, "!") == []
  {
    DeleteDashesNone("!");
    assert KeepAndLower(u, "!") == [];
    assert Squash(u, []) == [];
  }

  lemma DashMatchesBangInApp(u: Ucd, m: Matcher)
    requires AsciiExact(u)
    ensures IsMatchApp(u, m, "-", "!") && !IsMatch(u, m, "-", "!")
  {
    DashAndBangCleanToNothing(u);
    GuardMissingInApp(u, m, "-", "!");
  }
}
