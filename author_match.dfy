/** _check_author_match (modules/api_clients.py, with an identical copy in app.py): does
    a cited author name agree with one of the authors a bibliographic service returned?
    The query is split into a family name and a given-name initial; for a fixed list of
    very common surnames the initials must also agree. */
module AuthorMatch {
  import opened PyText
  import opened Parsers

  /** The surnames for which a family-name match alone is not trusted. */
  const CommonNames: seq<string> :=
    ["wang", "chen", "lee", "li", "zhang", "liu", "lin", "yang", "huang", "wu", "smith", "jones"]

  /** `s.lower()`; the empty string lowers to itself. */
  function Lower(u: Ucd, s: string): string {
    if s == [] then [] else u.lowerText(s)
  }

  /** A parsed author name: a family name, the first letter of the given name if any,
      and (for candidates) the whole lower-cased name searched for the family name. */
  datatype Query = Query(family: string, initial: Option<char>)
  datatype Candidate = Candidate(family: string, initial: Option<char>, full: string)

  // ---------------------------------------------------------------------------
  // Parsing the query
  // ---------------------------------------------------------------------------

  /** Splits the lower-cased, stripped query. "Family, Given" takes the text before the
      first comma as the family and the first character after it as the initial;
      otherwise the last whitespace-separated token is the family and, when there are
      several tokens, the first character of the first one is the initial. None is the
      IndexError `parts[-1]` raises when there is no token at all. */
  function ParseQuery(u: Ucd, s: string): (r: Option<Query>)
  {
    if ',' in s then
      var parts := SplitOn(s, ',');
      var given := if |parts| > 1 then Strip(u, parts[1]) else [];
      Some(Query(Strip(u, parts[0]), if given != [] then Some(given[0]) else None))
    else
      var ws := SplitWs(u, s);
      if ws == [] then None
      // the tokens of str.split() carry no whitespace, so `.strip()` leaves them as they are
      else Some(Query(ws[|ws| - 1], if |ws| > 1 then Some(ws[0][0]) else None))
  }

  /** Parsing fails exactly on an all-whitespace query without a comma. */
  lemma ParseQueryFails(u: Ucd, s: string)
    ensures ParseQuery(u, s).None? <==> ',' !in s && forall k :: 0 <= k < |s| ==> u.isSpace(s[k])
  {
    SplitWsEmpty(u, s);
  }

  /** The comma form: the family is the stripped text before the first comma. */
  lemma {:induction false} CommaFamily(u: Ucd, s: string)
    requires ',' in s
    ensures ParseQuery(u, s).Some?
    ensures ParseQuery(u, s).value.family == Strip(u, BeforeFirst(s, ","))
    ensures ParseQuery(u, s).value.initial.Some? ==> |SplitOn(s, ',')| > 1
  {
    SplitOnFirst(s);
  }

  /** The first piece of `s.split(',')` is the text before the first comma. */
  lemma {:induction false} SplitOnFirst(s: string)
    ensures SplitOn(s, ',')[0] == BeforeFirst(s, ",")
  {
    if s != [] {
      SplitOnFirst(s[1..]);
    }
  }

  // ---------------------------------------------------------------------------
  // Parsing a candidate
  // ---------------------------------------------------------------------------

  /** `obj.get(k1) or obj.get(k2) or ''`. */
  function GetOr(ms: seq<(string, Json)>, k1: string, k2: string): (r: Json)
    ensures Truthy(r) || r == JStr([])
  {
    var v1, v2 := LastValue(ms, k1), LastValue(ms, k2);
    if v1.Some? && Truthy(v1.value) then v1.value
    else if v2.Some? && Truthy(v2.value) then v2.value
    else JStr([])
  }

  /** One author of a service's result. An object contributes its `family` (or
      `surname`) and `given` (or `initials`) fields; anything else is read as a
      "Given Family" string, split on whitespace only when it contains a space. None is
      the IndexError of a string that contains a space but no other character. */
  function ParseCandidate(u: Ucd, render: Json -> string, a: Json): (r: Option<Candidate>)
    ensures r.None? ==> !a.JObj?
  {
    if a.JObj? then
      var family := Lower(u, PyStr(render, GetOr(a.members, "family", "surname")));
      var given := Lower(u, PyStr(render, GetOr(a.members, "given", "initials")));
      Some(Candidate(family, if given != [] then Some(given[0]) else None, Strip(u, given + " " + family)))
    else
      var full := Lower(u, PyStr(render, a));
      if ' ' in full then
        var ws := SplitWs(u, full);
        if ws == [] then None else Some(Candidate(ws[|ws| - 1], Some(ws[0][0]), full))
      else Some(Candidate(full, None, full))
  }

  /** A candidate is the queried person when the family names agree (or the query's
      family occurs in the candidate's full name), unless the surname is a common one,
      both initials are known, and they differ. */
  predicate Accepts(q: Query, c: Candidate) {
    && (q.family == c.family || Contains(c.full, q.family))
    && !(q.family in CommonNames && q.initial.Some? && c.initial.Some? && q.initial != c.initial)
  }

  // ---------------------------------------------------------------------------
  // The scan
  // ---------------------------------------------------------------------------

  /** What looking at one candidate yields: None where parsing it raises, otherwise
      whether it is accepted. */
  function Verdict(u: Ucd, render: Json -> string, q: Query, a: Json): (r: Option<bool>)
    ensures r.None? ==> !a.JObj?
  {
    match ParseCandidate(u, render, a)
    case None => None
    case Some(c) => Some(Accepts(q, c))
  }

  /** The verdicts of a candidate list, in order. */
  function Verdicts(u: Ucd, render: Json -> string, q: Query, cands: seq<Json>): (vs: seq<Option<bool>>)
    ensures |vs| == |cands| && forall i :: 0 <= i < |cands| ==> vs[i] == Verdict(u, render, q, cands[i])
  {
    seq(|cands|, i requires 0 <= i < |cands| => Verdict(u, render, q, cands[i]))
  }

  lemma VerdictsAppend(u: Ucd, render: Json -> string, q: Query, xs: seq<Json>, ys: seq<Json>)
    ensures Verdicts(u, render, q, xs + ys) == Verdicts(u, render, q, xs) + Verdicts(u, render, q, ys)
  {
    var zs := xs + ys;
    var vz, vx, vy := Verdicts(u, render, q, zs), Verdicts(u, render, q, xs), Verdicts(u, render, q, ys);
    forall i | 0 <= i < |zs| ensures vz[i] == (vx + vy)[i] {
      if i < |xs| {
        assert zs[i] == xs[i];
      } else {
        assert zs[i] == ys[i - |xs|];
      }
    }
  }

  /** The loop over the candidates: the first acceptance returns True, a candidate
      that raises ends the scan with that exception, and running off the end is False. */
  function FirstTrue(vs: seq<Option<bool>>): (r: Result<bool>)
    ensures r == Ok(true) ==> exists i :: 0 <= i < |vs| && vs[i] == Some(true)
    ensures r.Raised? ==> exists i :: 0 <= i < |vs| && vs[i] == None
  {
    if vs == [] then Ok(false)
    else if vs[0].None? then Raised(IndexError)
    else if vs[0].value then Ok(true)
    else FirstTrue(vs[1..])
  }

  /** The candidate parses and is accepted. */
  predicate Accepted(u: Ucd, render: Json -> string, q: Query, a: Json) {
    Verdict(u, render, q, a) == Some(true)
  }

  /** The scan of a candidate list for one parsed query. */
  function Scan(u: Ucd, render: Json -> string, q: Query, cands: seq<Json>): Result<bool> {
    FirstTrue(Verdicts(u, render, q, cands))
  }

  /** _check_author_match: a missing or one-character query accepts everything;
      otherwise the query is lower-cased, stripped, parsed and the candidates scanned. */
  function CheckAuthorMatch(u: Ucd, render: Json -> string, query: string, cands: seq<Json>): (r: Result<bool>)
    ensures |query| < 2 ==> r == Ok(true)
    ensures r == Ok(true) && |query| >= 2 ==>
      var q := ParseQuery(u, Strip(u, Lower(u, query)));
      q.Some? && exists i :: 0 <= i < |cands| && Accepted(u, render, q.value, cands[i])
    ensures |query| >= 2 && cands == [] ==> r != Ok(true)
  {
    if |query| < 2 then Ok(true)
    else
      match ParseQuery(u, Strip(u, Lower(u, query)))
      case None => Raised(IndexError)
      case Some(q) => Scan(u, render, q, cands)
  }

  // ---------------------------------------------------------------------------
  // Properties
  // ---------------------------------------------------------------------------

  /** Without an exception, the loop answers whether some verdict is an acceptance. */
  lemma {:induction false} FirstTrueIsExists(vs: seq<Option<bool>>)
    requires forall i :: 0 <= i < |vs| ==> vs[i].Some?
    ensures FirstTrue(vs) == Ok(exists i :: 0 <= i < |vs| && vs[i] == Some(true))
  {
    if vs != [] {
      FirstTrueIsExists(vs[1..]);
      assert forall i :: 1 <= i < |vs| ==> vs[i] == vs[1..][i - 1];
    }
  }

  /** The loop stops at the first acceptance: what follows it, even a verdict that
      raises, is never looked at. */
  lemma {:induction false} FirstTrueStops(xs: seq<Option<bool>>, ys: seq<Option<bool>>)
    requires forall i :: 0 <= i < |xs| ==> xs[i] == Some(false)
    ensures FirstTrue(xs + [Some(true)] + ys) == Ok(true)
  {
    if xs != [] {
      assert (xs + [Some(true)] + ys)[1..] == xs[1..] + [Some(true)] + ys;
      FirstTrueStops(xs[1..], ys);
    }
  }

  /** Every candidate parses: nothing in the list can raise. */
  predicate AllParse(u: Ucd, render: Json -> string, cands: seq<Json>) {
    forall i :: 0 <= i < |cands| ==> ParseCandidate(u, render, cands[i]).Some?
  }

  /** Without an exception, the scan answers whether some candidate is accepted. */
  lemma ScanIsExists(u: Ucd, render: Json -> string, q: Query, cands: seq<Json>)
    requires AllParse(u, render, cands)
    ensures Scan(u, render, q, cands) == Ok(exists i :: 0 <= i < |cands| && Accepted(u, render, q, cands[i]))
  {
    var vs := Verdicts(u, render, q, cands);
    FirstTrueIsExists(vs);
    assert forall i :: 0 <= i < |cands| ==> (vs[i] == Some(true) <==> Accepted(u, render, q, cands[i]));
  }

  /** Without an exception, the order of the candidates does not matter. */
  lemma ScanOrderIrrelevant(u: Ucd, render: Json -> string, q: Query, xs: seq<Json>, ys: seq<Json>)
    requires multiset(xs) == multiset(ys)
    requires AllParse(u, render, xs)
    ensures AllParse(u, render, ys)
    ensures Scan(u, render, q, xs) == Scan(u, render, q, ys)
  {
    forall j | 0 <= j < |ys| ensures ParseCandidate(u, render, ys[j]).Some? {
      assert ys[j] in multiset(xs);
    }
    ScanIsExists(u, render, q, xs);
    ScanIsExists(u, render, q, ys);
    if exists i :: 0 <= i < |xs| && Accepted(u, render, q, xs[i]) {
      var i :| 0 <= i < |xs| && Accepted(u, render, q, xs[i]);
      assert xs[i] in multiset(ys);
    }
    if exists j :: 0 <= j < |ys| && Accepted(u, render, q, ys[j]) {
      var j :| 0 <= j < |ys| && Accepted(u, render, q, ys[j]);
      assert ys[j] in multiset(xs);
    }
  }

  /** An accepted candidate after candidates that parse and are rejected ends the scan
      with True, whatever follows it. */
  lemma ScanStopsAtFirst(u: Ucd, render: Json -> string, q: Query, xs: seq<Json>, a: Json, ys: seq<Json>)
    requires forall i :: 0 <= i < |xs| ==> Verdict(u, render, q, xs[i]) == Some(false)
    requires Accepted(u, render, q, a)
    ensures Scan(u, render, q, xs + [a] + ys) == Ok(true)
  {
    var vx, vy := Verdicts(u, render, q, xs), Verdicts(u, render, q, ys);
    VerdictsAppend(u, render, q, xs, [a]);
    VerdictsAppend(u, render, q, xs + [a], ys);
    assert Verdicts(u, render, q, [a]) == [Some(true)];
    FirstTrueStops(vx, vy);
  }

  /** An author object with none of the four name fields (the shape Semantic Scholar
      returns, which carries only `name`) reads as an empty family and an empty full
      name, so it never matches a query with a non-empty family name. */
  lemma NameOnlyObjectNeverMatches(u: Ucd, render: Json -> string, q: Query, ms: seq<(string, Json)>)
    requires u.isSpace(' ')
    requires LastValue(ms, "family") == None && LastValue(ms, "surname") == None
    requires LastValue(ms, "given") == None && LastValue(ms, "initials") == None
    requires q.family != []
    ensures ParseCandidate(u, render, JObj(ms)) == Some(Candidate([], None, []))
    ensures !Accepted(u, render, q, JObj(ms))
  {
    assert Strip(u, [] + " " + []) == [] by {
      assert [] + " " + [] == " ";
      assert LStrip(u, " ") == LStrip(u, []);
    }
    assert !StartsWith([], q.family);
  }

  /** A list made only of such objects is rejected. */
  lemma NameOnlyListNeverMatches(u: Ucd, render: Json -> string, q: Query, cands: seq<Json>)
    requires u.isSpace(' ') && q.family != []
    requires forall i :: 0 <= i < |cands| ==> cands[i].JObj? && NoNameFields(cands[i].members)
    ensures Scan(u, render, q, cands) == Ok(false)
  {
    forall i | 0 <= i < |cands| ensures ParseCandidate(u, render, cands[i]).Some? && !Accepted(u, render, q, cands[i]) {
      NameOnlyObjectNeverMatches(u, render, q, cands[i].members);
    }
    ScanIsExists(u, render, q, cands);
  }

  predicate NoNameFields(ms: seq<(string, Json)>) {
    && LastValue(ms, "family") == None && LastValue(ms, "surname") == None
    && LastValue(ms, "given") == None && LastValue(ms, "initials") == None
  }

  /** A common surname with a differing initial rejects that candidate, whatever the
      rest of the names say; an uncommon surname needs only the family name. */
  lemma CommonSurnameRule(q: Query, c: Candidate)
    ensures q.family in CommonNames && q.initial.Some? && c.initial.Some? && q.initial != c.initial
      ==> !Accepts(q, c)
    ensures q.family !in CommonNames && q.family == c.family ==> Accepts(q, c)
    ensures (q.initial.None? || c.initial.None?) && q.family == c.family ==> Accepts(q, c)
  {
  }

  /** A query of two or more characters that lower-cases to whitespace raises IndexError,
      whatever the candidates. */
  lemma BlankQueryRaises(u: Ucd, render: Json -> string, query: string, cands: seq<Json>)
    requires |query| >= 2
    requires forall k :: 0 <= k < |Lower(u, query)| ==> u.isSpace(Lower(u, query)[k])
    ensures CheckAuthorMatch(u, render, query, cands) == Raised(IndexError)
  {
    var l := Lower(u, query);
    var t := LStrip(u, l);
    LStripIsSuffix(u, l);
    assert t == [];
    ParseQueryFails(u, []);
  }

  /** The same on ASCII with CPython's tables: "  " (two spaces), a tab and a newline,
      and so on. */
  lemma BlankAsciiQueryRaises(u: Ucd, render: Json -> string, query: string, cands: seq<Json>)
    requires AsciiExact(u) && IsAscii(query) && |query| >= 2
    requires forall k :: 0 <= k < |query| ==> AsciiSpace(query[k])
    ensures CheckAuthorMatch(u, render, query, cands) == Raised(IndexError)
  {
    var l := Lower(u, query);
    assert l == AsciiLowerText(query);
    forall k | 0 <= k < |l| ensures u.isSpace(l[k]) {
      assert l[k] == AsciiLower(query[k]) == query[k];
    }
    BlankQueryRaises(u, render, query, cands);
  }

  // ---------------------------------------------------------------------------
  // The motivating example: "Zhang, X." is not "L. Zhang"
  // ---------------------------------------------------------------------------

  /** The few facts about whitespace the example needs. */
  predicate PlainSpaces(u: Ucd) {
    && u.isSpace(' ')
    && forall c: char :: ('a' <= c <= 'z' || c == ',' || c == '.') ==> !u.isSpace(c)
  }

  lemma AsciiPlainSpaces(u: Ucd)
    requires AsciiExact(u)
    ensures PlainSpaces(u)
  {
  }

  lemma LowerAscii(u: Ucd, s: string)
    requires AsciiExact(u) && IsAscii(s)
    ensures Lower(u, s) == AsciiLowerText(s)
  {
  }

  /** `s.split(',')` of a string without a comma is the string itself. */
  lemma {:induction false} SplitOnNone(s: string, sep: char)
    requires sep !in s
    ensures SplitOn(s, sep) == [s]
  {
    if s != [] {
      SplitOnNone(s[1..], sep);
      assert [s[0]] + s[1..] == s;
    }
  }

  /** `s.split(',')` at the first comma. */
  lemma {:induction false} SplitOnFirstSep(w: string, sep: char, rest: string)
    requires sep !in w
    ensures SplitOn(w + [sep] + rest, sep) == [w] + SplitOn(rest, sep)
  {
    if w == [] {
      assert ([] + [sep] + rest)[1..] == rest;
    } else {
      var s := w + [sep] + rest;
      assert s[0] == w[0] && s[1..] == w[1..] + [sep] + rest;
      SplitOnFirstSep(w[1..], sep, rest);
      var tail := SplitOn(s[1..], sep);
      assert tail == [w[1..]] + SplitOn(rest, sep);
      assert SplitOn(s, sep) == [[w[0]] + tail[0]] + tail[1..];
      assert [w[0]] + w[1..] == w;
    }
  }

  /** Strip leaves a string alone whose ends are not whitespace. */
  lemma StripUnchanged(u: Ucd, s: string)
    requires s != [] && !u.isSpace(s[0]) && !u.isSpace(s[|s| - 1])
    ensures Strip(u, s) == s
  {
  }

  lemma ParseZhang(u: Ucd, i: char)
    requires PlainSpaces(u) && IsAsciiLower(i)
    ensures ParseQuery(u, Strip(u, "zhang, " + [i] + ".")) == Some(Query("zhang", Some(i)))
  {
    var s := "zhang, " + [i] + ".";
    StripUnchanged(u, s);
    var g := " " + [i] + ".";
    assert s == "zhang" + [','] + g;
    SplitOnFirstSep("zhang", ',', g);
    SplitOnNone(g, ',');
    StripUnchanged(u, "zhang");
    assert LStrip(u, g) == g[1..];
    StripUnchanged(u, g[1..]);
  }

  lemma ParseLZhang(u: Ucd, render: Json -> string)
    requires PlainSpaces(u) && Lower(u, "L. Zhang") == "l. zhang"
    ensures ParseCandidate(u, render, JStr("L. Zhang")) == Some(Candidate("zhang", Some('l'), "l. zhang"))
  {
    var full := "l. zhang";
    assert ' ' in full by { assert full[2] == ' '; }
    var ws := ["l.", "zhang"];
    assert IsWord(u, ws[0]) && IsWord(u, ws[1]);
    SplitJoinRoundTrip(u, ws);
    assert JoinWith(" ", ws) == full;
  }

  /** A one-candidate list: the scan is that candidate's verdict. */
  lemma ScanOne(u: Ucd, render: Json -> string, q: Query, a: Json)
    requires ParseCandidate(u, render, a).Some?
    ensures Scan(u, render, q, [a]) == Ok(Accepts(q, ParseCandidate(u, render, a).value))
  {
    var vs := Verdicts(u, render, q, [a]);
    var c := ParseCandidate(u, render, a).value;
    assert Verdict(u, render, q, a) == Some(Accepts(q, c));
    assert vs == [Some(Accepts(q, c))];
    assert vs[1..] == [];
    assert FirstTrue(vs[1..]) == Ok(false);
  }

  lemma ZhangIsCommon(q: Query, c: Candidate, i: char)
    requires q == Query("zhang", Some(i)) && c == Candidate("zhang", Some('l'), "l. zhang")
    ensures Accepts(q, c) == (i == 'l')
  {
    assert CommonNames[4] == "zhang";
  }

  /** A query that lower-cases to "zhang, i." against ["L. Zhang"]. */
  lemma ZhangAgainstLZhang(u: Ucd, render: Json -> string, query: string, i: char)
    requires PlainSpaces(u) && IsAsciiLower(i) && |query| >= 2
    requires Lower(u, query) == "zhang, " + [i] + "."
    requires Lower(u, "L. Zhang") == "l. zhang"
    ensures CheckAuthorMatch(u, render, query, [JStr("L. Zhang")]) == Ok(i == 'l')
  {
    var q := Query("zhang", Some(i));
    ParseZhang(u, i);
    ParseLZhang(u, render);
    ScanOne(u, render, q, JStr("L. Zhang"));
    ZhangIsCommon(q, Candidate("zhang", Some('l'), "l. zhang"), i);
  }

  lemma ExampleSpelling()
    ensures "Zhang, X." == "Zhang, " + ['X'] + "." && AsciiLower('X') == 'x'
    ensures "Zhang, L." == "Zhang, " + ['L'] + "." && AsciiLower('L') == 'l'
  {
  }

  /** A common surname whose initials differ: "Zhang, X." is not "L. Zhang". */
  lemma ZhangXIsNotLZhang(u: Ucd, render: Json -> string)
    requires AsciiExact(u)
    ensures CheckAuthorMatch(u, render, "Zhang, X.", [JStr("L. Zhang")]) == Ok(false)
  {
    AsciiPlainSpaces(u);
    ExampleSpelling();
    LowerZhangComma(u, 'X');
    LowerLZhang(u);
    ZhangAgainstLZhang(u, render, "Zhang, X.", 'x');
  }

  /** ... and with the same initial it is. */
  lemma ZhangLIsLZhang(u: Ucd, render: Json -> string)
    requires AsciiExact(u)
    ensures CheckAuthorMatch(u, render, "Zhang, L.", [JStr("L. Zhang")]) == Ok(true)
  {
    AsciiPlainSpaces(u);
    ExampleSpelling();
    LowerZhangComma(u, 'L');
    LowerLZhang(u);
    ZhangAgainstLZhang(u, render, "Zhang, L.", 'l');
  }

  lemma LowerZhangComma(u: Ucd, c: char)
    requires AsciiExact(u) && IsAsciiUpper(c)
    ensures Lower(u, "Zhang, " + [c] + ".") == "zhang, " + [AsciiLower(c)] + "."
  {
    var s := "Zhang, " + [c] + ".";
    assert IsAscii(s);
    var l := AsciiLowerText(s);
    assert forall k :: 0 <= k < |s| ==> l[k] == AsciiLower(s[k]);
  }

  lemma LowerLZhang(u: Ucd)
    requires AsciiExact(u)
    ensures Lower(u, "L. Zhang") == "l. zhang"
  {
    LZhangText();
  }

  lemma LZhangText()
    ensures IsAscii("L. Zhang") && AsciiLowerText("L. Zhang") == "l. zhang"
  {
    var s := "L. Zhang";
    var l := AsciiLowerText(s);
    assert forall k :: 0 <= k < |s| ==> l[k] == AsciiLower(s[k]);
  }
}
