/** modules/parsers.py: the title normalisers and the loop that turns the reference
    parser's decoded JSON output into flat citation records. */
module Parsers {
  import opened PyText

  // ---------------------------------------------------------------------------
  // Title normalisers
  // ---------------------------------------------------------------------------

  /** The dash list of clean_title, in source order: hyphen-minus, en dash, em dash,
      minus sign, hyphen, and hyphen-minus once more. */
  const ParserDashes: seq<char> := ['-', '\U{2013}', '\U{2014}', '\U{2212}', '\U{2010}', '-']

  /** The characters the dash list names; the repeated hyphen-minus adds nothing. */
  const DashSet: set<char> := {'-', '\U{2013}', '\U{2014}', '\U{2212}', '\U{2010}'}

  /** `s` without the characters of `cs`. */
  function Without(s: string, cs: set<char>): (r: string)
    ensures |r| <= |s|
  {
    if s == [] then [] else (if s[0] in cs then [] else [s[0]]) + Without(s[1..], cs)
  }

  /** `for d in ds: s = s.replace(d, "")`. */
  function DeleteEach(s: string, ds: seq<char>): string
    decreases |ds|
  {
    if ds == [] then s else DeleteEach(DeleteChar(s, ds[0]), ds[1..])
  }

  /** Character classes L, N and Z survive the filter. */
  predicate Kept(u: Ucd, c: char) {
    u.major(c) == Letter || u.major(c) == Number || u.major(c) == Separator
  }

  /** `"".join(ch.lower() for ch in s if unicodedata.category(ch)[0] in ("L", "N", "Z"))`. */
  function KeepAndLower(u: Ucd, s: string): string {
    if s == [] then []
    else (if Kept(u, s[0]) then u.lowerChar(s[0]) else []) + KeepAndLower(u, s[1..])
  }

  /** `re.sub(r"\s+", " ", s).strip()`. */
  function Squash(u: Ucd, s: string): string {
    Strip(u, CollapseWs(u, s))
  }

  /** clean_title. */
  function CleanTitle(u: Ucd, text: string): string {
    if text == [] then []
    else Squash(u, KeepAndLower(u, DeleteEach(u.nfkc(text), ParserDashes)))
  }

  /** Position `i` starts `\d+`: returns the end of the longest digit run from `i`. */
  function DigitRunEnd(u: Ucd, s: string, i: nat): (j: nat)
    requires i <= |s|
    ensures i <= j <= |s|
    ensures forall k :: i <= k < j ==> u.isDecimal(s[k])
    ensures j == |s| || !u.isDecimal(s[j])
    decreases |s| - i
  {
    if i < |s| && u.isDecimal(s[i]) then DigitRunEnd(u, s, i + 1) else i
  }

  /** Backtracking of the greedy `\d+` in `\d+\b`: the largest end in `(i, j]` at a word
      boundary, or `i` when there is none. */
  function BoundaryAtOrBefore(u: Ucd, s: string, i: nat, j: nat): (e: nat)
    requires i <= j <= |s|
    ensures i <= e <= j
    ensures e > i ==> IsBoundary(u, s, e)
    ensures forall k :: e < k <= j ==> !IsBoundary(u, s, k)
    decreases j
  {
    if j <= i then i
    else if IsBoundary(u, s, j) then j
    else BoundaryAtOrBefore(u, s, i, j - 1)
  }

  /** The end of a match of `\b\d+\b` at `i`, or `i` when it does not match there. */
  function StandaloneDigitsAt(u: Ucd, s: string, i: nat): (e: nat)
    requires i < |s|
    ensures i <= e <= |s|
    ensures forall k :: i <= k < e ==> u.isDecimal(s[k])
  {
    if IsBoundary(u, s, i) && u.isDecimal(s[i])
    then BoundaryAtOrBefore(u, s, i, DigitRunEnd(u, s, i))
    else i
  }

  /** `re.sub(r"\b\d+\b", "", s[i..])`, scanning left to right over the original string. */
  function DeleteStandaloneDigitsFrom(u: Ucd, s: string, i: nat): string
    requires i <= |s|
    decreases |s| - i
  {
    if i == |s| then []
    else
      var e := StandaloneDigitsAt(u, s, i);
      if e > i then DeleteStandaloneDigitsFrom(u, s, e)
      else [s[i]] + DeleteStandaloneDigitsFrom(u, s, i + 1)
  }

  function DeleteStandaloneDigits(u: Ucd, s: string): string {
    DeleteStandaloneDigitsFrom(u, s, 0)
  }

  /** clean_title_for_remedial. */
  function CleanTitleForRemedial(u: Ucd, text: string): string {
    if text == [] then []
    else Squash(u, KeepAndLower(u, DeleteStandaloneDigits(u, DeleteEach(u.nfkc(text), ParserDashes))))
  }

  // ---------------------------------------------------------------------------
  // Lemmas about the normalisers
  // ---------------------------------------------------------------------------

  lemma {:induction false} DeleteCharIsWithout(s: string, d: char)
    ensures DeleteChar(s, d) == Without(s, {d})
  {
    if s != [] {
      DeleteCharIsWithout(s[1..], d);
    }
  }

  lemma {:induction false} WithoutTwice(s: string, a: set<char>, b: set<char>)
    ensures Without(Without(s, a), b) == Without(s, a + b)
  {
    if s != [] {
      var rest := Without(s[1..], a);
      WithoutTwice(s[1..], a, b);
      if s[0] in a {
        assert Without(s, a) == rest;
      } else {
        var w := [s[0]] + rest;
        assert Without(s, a) == w;
        assert w[0] == s[0] && w[1..] == rest;
        assert Without(w, b) == (if s[0] in b then [] else [s[0]]) + Without(rest, b);
      }
    }
  }

  /** Deleting the dashes one after the other removes exactly the listed characters,
      so a repeated entry changes nothing. */
  lemma {:induction false} DeleteEachIsWithout(s: string, ds: seq<char>)
    ensures DeleteEach(s, ds) == Without(s, set d | d in ds)
    decreases |ds|
  {
    if ds == [] {
      assert (set d | d in ds) == {};
      WithoutNothing(s);
    } else {
      DeleteCharIsWithout(s, ds[0]);
      DeleteEachIsWithout(DeleteChar(s, ds[0]), ds[1..]);
      WithoutTwice(s, {ds[0]}, set d | d in ds[1..]);
      assert {ds[0]} + (set d | d in ds[1..]) == set d | d in ds;
    }
  }

  /** app.py's copy of clean_title: the same steps with the dash list written once
      each. */
  const AppDashes: seq<char> := ['-', '\U{2013}', '\U{2014}', '\U{2212}', '\U{2010}']

  function AppCleanTitle(u: Ucd, text: string): string {
    if text == [] then []
    else Squash(u, KeepAndLower(u, DeleteEach(u.nfkc(text), AppDashes)))
  }

  /** The two copies of clean_title agree on every input. */
  lemma AppCleanTitleIsCleanTitle(u: Ucd, text: string)
    ensures AppCleanTitle(u, text) == CleanTitle(u, text)
  {
    if text != [] {
      var t := u.nfkc(text);
      DeleteEachIsWithout(t, AppDashes);
      DeleteEachIsWithout(t, ParserDashes);
      assert (set d | d in AppDashes) == DashSet;
      assert (set d | d in ParserDashes) == DashSet;
    }
  }

  /** Deleting the listed dashes one after the other removes exactly the dash characters. */
  lemma DeleteDashes(s: string)
    ensures DeleteEach(s, ParserDashes) == Without(s, DashSet)
  {
    DeleteEachIsWithout(s, ParserDashes);
    assert (set d | d in ParserDashes) == DashSet;
  }

  lemma {:induction false} WithoutMembers(s: string, cs: set<char>)
    ensures forall c :: c in Without(s, cs) <==> c in s && c !in cs
  {
    if s != [] {
      WithoutMembers(s[1..], cs);
      assert s == [s[0]] + s[1..];
    }
  }

  lemma {:induction false} WithoutNothing(s: string)
    ensures Without(s, {}) == s
  {
    if s != [] {
      WithoutNothing(s[1..]);
    }
  }

  lemma {:induction false} CollapseChars(u: Ucd, s: string)
    ensures forall c :: c in CollapseWs(u, s) ==> c == ' ' || c in s
    decreases |s|
  {
    if s != [] {
      if u.isSpace(s[0]) {
        LStripIsSuffix(u, s);
        CollapseChars(u, LStrip(u, s));
        forall c | c in LStrip(u, s) ensures c in s {
          var k :| 0 <= k < |LStrip(u, s)| && LStrip(u, s)[k] == c;
          assert s[|s| - |LStrip(u, s)| + k] == c;
        }
      } else {
        CollapseChars(u, s[1..]);
      }
    }
  }

  lemma SquashChars(u: Ucd, s: string)
    ensures forall c :: c in Squash(u, s) ==> c == ' ' || c in s
  {
    var t := CollapseWs(u, s);
    CollapseChars(u, t) by { CollapseChars(u, s); }
    var l := LStrip(u, t);
    LStripIsSuffix(u, t);
    forall c | c in Squash(u, s) ensures c == ' ' || c in s {
      assert c in RStrip(u, l);
      var k :| 0 <= k < |RStrip(u, l)| && RStrip(u, l)[k] == c;
      assert l[k] == c;
      assert t[|t| - |l| + k] == c;
      CollapseChars(u, s);
    }
  }

  lemma {:induction false} KeepAndLowerChars(u: Ucd, s: string)
    ensures forall d :: d in KeepAndLower(u, s) ==> exists c :: c in s && Kept(u, c) && d in u.lowerChar(c)
  {
    if s != [] {
      KeepAndLowerChars(u, s[1..]);
    }
  }

  /** The normalised title has no whitespace at either end, no two whitespace characters
      in a row, and only plain spaces as whitespace. */
  lemma SquashCanonical(u: Ucd, s: string)
    requires u.isSpace(' ')
    ensures Canonical(u, Squash(u, s))
  {
    CollapseStripIsJoin(u, s);
    JoinWordsCanonical(u, SplitWs(u, s));
  }

  lemma CleanTitleShape(u: Ucd, text: string)
    requires u.isSpace(' ')
    ensures Canonical(u, CleanTitle(u, text))
  {
    if text != [] {
      SquashCanonical(u, KeepAndLower(u, DeleteEach(u.nfkc(text), ParserDashes)));
    }
  }

  lemma CleanTitleForRemedialShape(u: Ucd, text: string)
    requires u.isSpace(' ')
    ensures Canonical(u, CleanTitleForRemedial(u, text))
  {
    if text != [] {
      SquashCanonical(u, KeepAndLower(u, DeleteStandaloneDigits(u, DeleteEach(u.nfkc(text), ParserDashes))));
    }
  }

  /** Every character of the normalised title is a space or comes from lower-casing a
      letter, number or separator of the NFKC form that is not one of the dashes. */
  lemma CleanTitleChars(u: Ucd, text: string)
    ensures forall d :: d in CleanTitle(u, text) ==>
      d == ' ' || exists c :: c in u.nfkc(text) && c !in DashSet && Kept(u, c) && d in u.lowerChar(c)
  {
    if text != [] {
      var t := DeleteEach(u.nfkc(text), ParserDashes);
      DeleteDashes(u.nfkc(text));
      WithoutMembers(u.nfkc(text), DashSet);
      KeepAndLowerChars(u, t);
      SquashChars(u, KeepAndLower(u, t));
    }
  }

  /** What the Unicode database guarantees for the classes the filter looks at. */
  ghost predicate LowerKeepsClasses(u: Ucd) {
    && u.major(' ') == Separator
    && forall c, d :: Kept(u, c) && d in u.lowerChar(c) ==>
         u.major(d) == Letter || u.major(d) == Mark || u.major(d) == Number || u.major(d) == Separator
  }

  /** Punctuation, symbols and control characters (all the dashes among them) never survive. */
  lemma CleanTitleNoPunctuation(u: Ucd, text: string)
    requires LowerKeepsClasses(u)
    ensures forall d :: d in CleanTitle(u, text) ==>
      u.major(d) != Punctuation && u.major(d) != Symbol && u.major(d) != Other
  {
    CleanTitleChars(u, text);
  }

  /** Applied to its own output the normaliser changes nothing when every surviving
      character is its own NFKC form and lower case. */
  lemma CleanTitleOfCanonical(u: Ucd, r: string)
    requires u.isSpace(' ')
    requires r == JoinWith(" ", SplitWs(u, r))
    requires u.nfkc(r) == r
    requires forall k :: 0 <= k < |r| ==> r[k] !in DashSet && Kept(u, r[k]) && u.lowerChar(r[k]) == [r[k]]
    ensures CleanTitle(u, r) == r
  {
    if r != [] {
      DeleteDashes(r);
      WithoutNone(r, DashSet);
      KeepAndLowerSame(u, r);
      CollapseStripIsJoin(u, r);
    }
  }

  lemma {:induction false} WithoutNone(s: string, cs: set<char>)
    requires forall k :: 0 <= k < |s| ==> s[k] !in cs
    ensures Without(s, cs) == s
  {
    if s != [] {
      WithoutNone(s[1..], cs);
    }
  }

  lemma {:induction false} KeepAndLowerSame(u: Ucd, s: string)
    requires forall k :: 0 <= k < |s| ==> Kept(u, s[k]) && u.lowerChar(s[k]) == [s[k]]
    ensures KeepAndLower(u, s) == s
  {
    if s != [] {
      KeepAndLowerSame(u, s[1..]);
    }
  }

  /** A character the normaliser can leave in an ASCII title. */
  predicate CleanAscii(c: char) {
    c == ' ' || IsAsciiLower(c) || IsAsciiDigit(c)
  }

  lemma AsciiKeptLower(u: Ucd, c: char, d: char)
    requires c < '\U{80}'
    requires u.major(c) == AsciiMajor(c) && u.lowerChar(c) == [AsciiLower(c)]
    requires Kept(u, c) && d in u.lowerChar(c)
    ensures CleanAscii(d)
  {
  }

  /** On ASCII text only spaces, lower-case letters and digits remain. */
  lemma CleanTitleAsciiChars(u: Ucd, text: string)
    requires AsciiExact(u)
    requires IsAscii(text)
    ensures forall k :: 0 <= k < |CleanTitle(u, text)| ==> CleanAscii(CleanTitle(u, text)[k])
  {
    var r := CleanTitle(u, text);
    CleanTitleChars(u, text);
    forall k | 0 <= k < |r| ensures CleanAscii(r[k]) {
      var d := r[k];
      assert d in r;
      if d != ' ' {
        var c :| c in u.nfkc(text) && c !in DashSet && Kept(u, c) && d in u.lowerChar(c);
        assert c in text;
        AsciiKeptLower(u, c, d);
      }
    }
  }

  lemma CleanAsciiFixed(u: Ucd, r: string)
    requires AsciiExact(u)
    requires forall k :: 0 <= k < |r| ==> CleanAscii(r[k])
    ensures u.nfkc(r) == r
    ensures forall k :: 0 <= k < |r| ==> r[k] !in DashSet && Kept(u, r[k]) && u.lowerChar(r[k]) == [r[k]]
  {
    assert IsAscii(r);
  }

  /** On ASCII text the normaliser is idempotent. */
  lemma CleanTitleIdempotentOnAscii(u: Ucd, text: string)
    requires AsciiExact(u)
    requires IsAscii(text)
    ensures CleanTitle(u, CleanTitle(u, text)) == CleanTitle(u, text)
  {
    var r := CleanTitle(u, text);
    if text != [] {
      var x := KeepAndLower(u, DeleteEach(u.nfkc(text), ParserDashes));
      assert u.isSpace(' ');
      assert r == Strip(u, CollapseWs(u, x));
      CollapseStripIsJoin(u, x);
      SplitJoinRoundTrip(u, SplitWs(u, x));
      CleanTitleAsciiChars(u, text);
      CleanAsciiFixed(u, r);
      CleanTitleOfCanonical(u, r);
    }
  }

  lemma {:induction false} WithoutAppend(x: string, y: string, cs: set<char>)
    ensures Without(x + y, cs) == Without(x, cs) + Without(y, cs)
  {
    if x != [] {
      WithoutAppend(x[1..], y, cs);
      assert (x + y)[1..] == x[1..] + y;
    } else {
      assert x + y == y;
    }
  }

  lemma WithoutDashBetween(a: string, b: string)
    ensures Without(a + "-" + b, DashSet) == Without(a + b, DashSet)
  {
    var wa := Without(a, DashSet);
    WithoutAppend(a + "-", b, DashSet);
    WithoutAppend(a, "-", DashSet);
    WithoutAppend(a, b, DashSet);
    assert Without("-", DashSet) == [];
    assert wa + [] == wa;
  }

  lemma CleanTitleWithoutDashes(u: Ucd, text: string)
    requires text != []
    ensures CleanTitle(u, text) == Squash(u, KeepAndLower(u, Without(u.nfkc(text), DashSet)))
  {
    DeleteDashes(u.nfkc(text));
  }

  lemma CleanTitleSameWithoutDashes(u: Ucd, x: string, y: string)
    requires x != [] && y != []
    requires u.nfkc(x) == x && u.nfkc(y) == y
    requires Without(x, DashSet) == Without(y, DashSet)
    ensures CleanTitle(u, x) == CleanTitle(u, y)
  {
    CleanTitleWithoutDashes(u, x);
    CleanTitleWithoutDashes(u, y);
  }

  /** A dash inside a word is deleted, not replaced by a space: "Deep-Learning" and
      "DeepLearning" normalise alike. */
  lemma DashJoinsWords(u: Ucd, a: string, b: string)
    requires AsciiExact(u)
    requires IsAscii(a) && IsAscii(b)
    ensures CleanTitle(u, a + "-" + b) == CleanTitle(u, a + b)
  {
    var x, y := a + "-" + b, a + b;
    WithoutDashBetween(a, b);
    assert u.nfkc(x) == x by {
      assert IsAscii(x);
    }
    if y == [] {
      assert Without(x, DashSet) == [];
      CleanTitleWithoutDashes(u, x);
      assert KeepAndLower(u, []) == [];
    } else {
      assert u.nfkc(y) == y by {
        assert IsAscii(y);
      }
      CleanTitleSameWithoutDashes(u, x, y);
    }
  }

  /** The characters of `s` that are not decimal digits. */
  function NonDigits(u: Ucd, s: string): string {
    if s == [] then [] else (if u.isDecimal(s[0]) then [] else [s[0]]) + NonDigits(u, s[1..])
  }

  lemma {:induction false} NonDigitsSkipsDigits(u: Ucd, s: string, i: nat, e: nat)
    requires i <= e <= |s|
    requires forall k :: i <= k < e ==> u.isDecimal(s[k])
    ensures NonDigits(u, s[i..]) == NonDigits(u, s[e..])
    decreases e - i
  {
    if i < e {
      assert s[i..][1..] == s[i + 1..];
      NonDigitsSkipsDigits(u, s, i + 1, e);
    }
  }

  lemma {:induction false} DeleteStandaloneDigitsKeepsOthers(u: Ucd, s: string, i: nat)
    requires i <= |s|
    ensures NonDigits(u, DeleteStandaloneDigitsFrom(u, s, i)) == NonDigits(u, s[i..])
    decreases |s| - i
  {
    if i < |s| {
      var e := StandaloneDigitsAt(u, s, i);
      if e > i {
        DeleteStandaloneDigitsKeepsOthers(u, s, e);
        NonDigitsSkipsDigits(u, s, i, e);
      } else {
        DeleteStandaloneDigitsKeepsOthers(u, s, i + 1);
        assert s[i..][1..] == s[i + 1..];
        var rest := DeleteStandaloneDigitsFrom(u, s, i + 1);
        assert ([s[i]] + rest)[1..] == rest;
      }
    }
  }

  /** `re.sub(r"\b\d+\b", "", s)` deletes decimal digits and nothing else. */
  lemma DeleteStandaloneDigitsOnlyDigits(u: Ucd, s: string)
    ensures NonDigits(u, DeleteStandaloneDigits(u, s)) == NonDigits(u, s)
  {
    DeleteStandaloneDigitsKeepsOthers(u, s, 0);
    assert s[0..] == s;
  }

  /** `s[i..j]` is a whole run of decimal digits: no digit on either side. */
  predicate DigitRun(u: Ucd, s: string, i: int, j: int) {
    && 0 <= i < j <= |s|
    && (forall k :: i <= k < j ==> u.isDecimal(s[k]))
    && (i == 0 || !u.isDecimal(s[i - 1]))
    && (j == |s| || !u.isDecimal(s[j]))
  }

  /** Every decimal digit of `s` is a word character, as in Python's `re`. */
  predicate DigitsAreWord(u: Ucd, s: string) {
    forall k :: 0 <= k < |s| && u.isDecimal(s[k]) ==> u.isWord(s[k])
  }

  /** A run with neither end touching a word character is a match of `\b\d+\b`. */
  lemma IsolatedRunMatches(u: Ucd, s: string, i: nat, j: nat)
    requires DigitsAreWord(u, s) && DigitRun(u, s, i, j)
    requires (i == 0 || !u.isWord(s[i - 1])) && (j == |s| || !u.isWord(s[j]))
    ensures StandaloneDigitsAt(u, s, i) == j
  {
    assert u.isWord(s[i]) && u.isWord(s[j - 1]);
    assert DigitRunEnd(u, s, i) == j by {
      DigitRunEndOfRun(u, s, i, j);
    }
    assert IsBoundary(u, s, j);
  }

  lemma {:induction false} DigitRunEndOfRun(u: Ucd, s: string, i: nat, j: nat)
    requires i <= j <= |s|
    requires forall k :: i <= k < j ==> u.isDecimal(s[k])
    requires j == |s| || !u.isDecimal(s[j])
    ensures DigitRunEnd(u, s, i) == j
    decreases j - i
  {
    if i < j {
      DigitRunEndOfRun(u, s, i + 1, j);
    }
  }

  /** Inside a run, and at a run whose start or end touches a word character, `\b\d+\b`
      does not match. */
  lemma AttachedRunNoMatch(u: Ucd, s: string, i: nat)
    requires DigitsAreWord(u, s) && i < |s|
    requires forall a, b :: DigitRun(u, s, a, b) ==> (a > 0 && u.isWord(s[a - 1])) || (b < |s| && u.isWord(s[b]))
    ensures StandaloneDigitsAt(u, s, i) == i
  {
    if u.isDecimal(s[i]) && IsBoundary(u, s, i) {
      assert i == 0 || !u.isDecimal(s[i - 1]);
      var j := DigitRunEnd(u, s, i);
      assert DigitRun(u, s, i, j);
      assert j < |s| && u.isWord(s[j]);
      forall k | i < k <= j ensures !IsBoundary(u, s, k) {
        assert u.isWord(s[k - 1]);
        if k < j {
          assert u.isWord(s[k]);
        }
      }
    }
  }

  lemma {:induction false} DeleteIsolatedFrom(u: Ucd, s: string, i: nat)
    requires DigitsAreWord(u, s) && i <= |s|
    requires forall a, b :: DigitRun(u, s, a, b) ==> (a == 0 || !u.isWord(s[a - 1])) && (b == |s| || !u.isWord(s[b]))
    requires i == 0 || i == |s| || !u.isDecimal(s[i - 1]) || !u.isDecimal(s[i])
    ensures DeleteStandaloneDigitsFrom(u, s, i) == NonDigits(u, s[i..])
    decreases |s| - i
  {
    if i < |s| {
      assert s[i..][1..] == s[i + 1..];
      if u.isDecimal(s[i]) {
        var j := DigitRunEnd(u, s, i);
        assert DigitRun(u, s, i, j);
        IsolatedRunMatches(u, s, i, j);
        DeleteIsolatedFrom(u, s, j);
        NonDigitsSkipsDigits(u, s, i, j);
      } else {
        DeleteIsolatedFrom(u, s, i + 1);
      }
    }
  }

  /** When no run of digits touches a word character, `re.sub(r"\b\d+\b", "", s)` removes
      every decimal digit: "covid 19" becomes "covid ". */
  lemma DeleteStandaloneDigitsDeletesIsolatedRuns(u: Ucd, s: string)
    requires DigitsAreWord(u, s)
    requires forall a, b :: DigitRun(u, s, a, b) ==> (a == 0 || !u.isWord(s[a - 1])) && (b == |s| || !u.isWord(s[b]))
    ensures DeleteStandaloneDigits(u, s) == NonDigits(u, s)
  {
    DeleteIsolatedFrom(u, s, 0);
    assert s[0..] == s;
  }

  lemma {:induction false} KeepAttachedFrom(u: Ucd, s: string, i: nat)
    requires DigitsAreWord(u, s) && i <= |s|
    requires forall a, b :: DigitRun(u, s, a, b) ==> (a > 0 && u.isWord(s[a - 1])) || (b < |s| && u.isWord(s[b]))
    ensures DeleteStandaloneDigitsFrom(u, s, i) == s[i..]
    decreases |s| - i
  {
    if i < |s| {
      AttachedRunNoMatch(u, s, i);
      KeepAttachedFrom(u, s, i + 1);
      assert s[i..] == [s[i]] + s[i + 1..];
    }
  }

  /** When every run of digits touches a word character at one end, nothing is
      removed: "covid19" and "19th" keep their digits. */
  lemma DeleteStandaloneDigitsKeepsAttachedRuns(u: Ucd, s: string)
    requires DigitsAreWord(u, s)
    requires forall a, b :: DigitRun(u, s, a, b) ==> (a > 0 && u.isWord(s[a - 1])) || (b < |s| && u.isWord(s[b]))
    ensures DeleteStandaloneDigits(u, s) == s
  {
    KeepAttachedFrom(u, s, 0);
    assert s[0..] == s;
  }

  /** The decimal and word classes of CPython on ASCII. */
  lemma AsciiClasses(u: Ucd)
    requires AsciiExact(u)
    ensures forall c: char :: c < '\U{80}' ==> u.isDecimal(c) == IsAsciiDigit(c)
    ensures forall c: char :: c < '\U{80}' ==> u.isWord(c) == AsciiWord(c)
  {
  }

  /** With CPython's tables, "covid19" keeps its digits. */
  lemma CovidNineteenKept(u: Ucd)
    requires AsciiExact(u)
    ensures DeleteStandaloneDigits(u, "covid19") == "covid19"
  {
    var s := "covid19";
    AsciiClasses(u);
    forall k | 0 <= k < |s| ensures s[k] < '\U{80}' && (u.isDecimal(s[k]) <==> 5 <= k) && u.isWord(s[k]) {
      assert IsAsciiDigit(s[k]) <==> 5 <= k;
      assert AsciiWord(s[k]);
    }
    forall a, b | DigitRun(u, s, a, b) ensures a > 0 && u.isWord(s[a - 1]) {
      assert u.isDecimal(s[a]);
      assert a == 5;
    }
    DeleteStandaloneDigitsKeepsAttachedRuns(u, s);
  }

  /** With CPython's tables, "covid 19" loses its digits. */
  lemma CovidSpaceNineteenDropped(u: Ucd)
    requires AsciiExact(u)
    ensures DeleteStandaloneDigits(u, "covid 19") == "covid "
  {
    var t := "covid 19";
    AsciiClasses(u);
    forall k | 0 <= k < |t| ensures t[k] < '\U{80}' && (u.isDecimal(t[k]) <==> 6 <= k) && (u.isWord(t[k]) <==> k != 5) {
      assert IsAsciiDigit(t[k]) <==> 6 <= k;
      assert AsciiWord(t[k]) <==> k != 5;
    }
    forall a, b | DigitRun(u, t, a, b) ensures a == 6 && !u.isWord(t[a - 1]) && b == |t| {
      assert u.isDecimal(t[a]);
    }
    DeleteStandaloneDigitsDeletesIsolatedRuns(u, t);
    NonDigitsSkipsDigits(u, t, 6, 8);
    assert t[8..] == [];
    NonDigitsPrefix(u, t, 6);
    assert t[..6] == "covid ";
  }

  /** `NonDigits` of a digit-free prefix keeps it whole. */
  lemma {:induction false} NonDigitsPrefix(u: Ucd, s: string, n: nat)
    requires n <= |s|
    requires forall k :: 0 <= k < n ==> !u.isDecimal(s[k])
    ensures NonDigits(u, s) == s[..n] + NonDigits(u, s[n..])
  {
    if n > 0 {
      NonDigitsPrefix(u, s[1..], n - 1);
      assert s[1..][n - 1..] == s[n..];
      assert s[..n] == [s[0]] + s[1..][..n - 1];
    }
  }

  lemma {:induction false} DeleteStandaloneDigitsNoDigits(u: Ucd, s: string, i: nat)
    requires i <= |s|
    requires forall k :: i <= k < |s| ==> !u.isDecimal(s[k])
    ensures DeleteStandaloneDigitsFrom(u, s, i) == s[i..]
    decreases |s| - i
  {
    if i < |s| {
      DeleteStandaloneDigitsNoDigits(u, s, i + 1);
      assert s[i..] == [s[i]] + s[i + 1..];
    }
  }

  /** Without decimal digits the remedial normaliser is the plain one. */
  lemma RemedialWithoutDigits(u: Ucd, text: string)
    requires forall k :: 0 <= k < |u.nfkc(text)| ==> !u.isDecimal(u.nfkc(text)[k])
    ensures CleanTitleForRemedial(u, text) == CleanTitle(u, text)
  {
    if text != [] {
      var t := DeleteEach(u.nfkc(text), ParserDashes);
      DeleteDashes(u.nfkc(text));
      WithoutMembers(u.nfkc(text), DashSet);
      forall k | 0 <= k < |t| ensures !u.isDecimal(t[k]) {
        assert t[k] in t;
      }
      DeleteStandaloneDigitsNoDigits(u, t, 0);
      assert t[0..] == t;
    }
  }

  lemma DeleteDashesNone(s: string)
    requires forall k :: 0 <= k < |s| ==> s[k] !in DashSet
    ensures DeleteEach(s, ParserDashes) == s
  {
    DeleteDashes(s);
    WithoutNone(s, DashSet);
  }

  lemma {:induction false} CollapseNoSpace(u: Ucd, s: string)
    requires forall k :: 0 <= k < |s| ==> !u.isSpace(s[k])
    ensures CollapseWs(u, s) == s
  {
    if s != [] {
      CollapseNoSpace(u, s[1..]);
    }
  }

  /** A title without dashes or whitespace that NFKC leaves alone is just filtered and lowered. */
  lemma CleanTitleOfSingleWord(u: Ucd, text: string, lowered: string)
    requires text != [] && u.nfkc(text) == text
    requires forall k :: 0 <= k < |text| ==> text[k] !in DashSet
    requires KeepAndLower(u, text) == lowered
    requires forall k :: 0 <= k < |lowered| ==> !u.isSpace(lowered[k])
    ensures CleanTitle(u, text) == lowered
  {
    DeleteDashesNone(text);
    CollapseNoSpace(u, lowered);
    assert LStrip(u, lowered) == lowered;
  }

  lemma CleanDottedCapitalI(u: Ucd)
    requires u.nfkc("\U{130}") == "\U{130}"
    requires u.major('\U{130}') == Letter && u.lowerChar('\U{130}') == "i\U{307}"
    requires !u.isSpace('i') && !u.isSpace('\U{307}')
    ensures CleanTitle(u, "\U{130}") == "i\U{307}"
  {
    assert KeepAndLower(u, "\U{130}") == "i\U{307}";
    CleanTitleOfSingleWord(u, "\U{130}", "i\U{307}");
  }

  lemma CleanIWithCombiningDot(u: Ucd)
    requires u.nfkc("i\U{307}") == "i\U{307}"
    requires u.major('i') == Letter && u.major('\U{307}') == Mark && u.lowerChar('i') == "i"
    requires !u.isSpace('i')
    ensures CleanTitle(u, "i\U{307}") == "i"
  {
    assert KeepAndLower(u, "\U{307}") == "";
    assert KeepAndLower(u, "i\U{307}") == "i";
    CleanTitleOfSingleWord(u, "i\U{307}", "i");
  }

  /** It is not idempotent in general: "İ".lower() is "i" followed by a combining dot
      (a mark), which the second pass drops. */
  lemma CleanTitleNotIdempotent(u: Ucd)
    requires u.nfkc("\U{130}") == "\U{130}" && u.nfkc("i\U{307}") == "i\U{307}"
    requires u.major('\U{130}') == Letter && u.major('i') == Letter && u.major('\U{307}') == Mark
    requires u.lowerChar('\U{130}') == "i\U{307}" && u.lowerChar('i') == "i"
    requires !u.isSpace('i') && !u.isSpace('\U{307}')
    ensures CleanTitle(u, "\U{130}") == "i\U{307}"
    ensures CleanTitle(u, CleanTitle(u, "\U{130}")) == "i"
  {
    CleanDottedCapitalI(u);
    CleanIWithCombiningDot(u);
  }

  // ---------------------------------------------------------------------------
  // The reference parser's JSON output, flattened into records
  // ---------------------------------------------------------------------------

  /** A decoded JSON value; an object keeps its members in document order, repeated keys included. */
  datatype Json = JNull | JBool(b: bool) | JNum(n: real) | JStr(s: string) | JArr(items: seq<Json>) | JObj(members: seq<(string, Json)>)

  /** A flattened citation record: field name to value. */
  type Record = map<string, Json>

  /** Python truthiness. */
  predicate Truthy(j: Json) {
    match j
    case JNull => false
    case JBool(b) => b
    case JNum(n) => n != 0.0
    case JStr(s) => s != []
    case JArr(xs) => xs != []
    case JObj(ms) => ms != []
  }

  /** `str(v)`: a string is itself; any other value is rendered by `render`. */
  function PyStr(render: Json -> string, j: Json): string {
    if j.JStr? then j.s else render(j)
  }

  /** `obj.get(key)` on the dict `json.loads` builds: the last member with that key wins. */
  function LastValue(ms: seq<(string, Json)>, key: string): (r: Option<Json>)
    ensures r.Some? <==> exists i :: 0 <= i < |ms| && ms[i].0 == key
    ensures r.Some? ==> exists i :: 0 <= i < |ms| && ms[i] == (key, r.value)
  {
    if ms == [] then None
    else if ms[|ms| - 1].0 == key then Some(ms[|ms| - 1].1)
    else LastValue(ms[..|ms| - 1], key)
  }

  /** The keys of that dict, in order of first occurrence, each once. */
  function DictKeys(ms: seq<(string, Json)>): (ks: seq<string>)
    ensures forall k :: k in ks <==> exists i :: 0 <= i < |ms| && ms[i].0 == k
    ensures forall i, j :: 0 <= i < j < |ks| ==> ks[i] != ks[j]
  {
    if ms == [] then []
    else
      var ks := DictKeys(ms[..|ms| - 1]);
      if ms[|ms| - 1].0 in ks then ks else ks + [ms[|ms| - 1].0]
  }

  function ValuesOf(ms: seq<(string, Json)>, ks: seq<string>): (items: seq<(string, Json)>)
    requires forall k :: k in ks ==> LastValue(ms, k).Some?
    ensures |items| == |ks|
    ensures forall i :: 0 <= i < |items| ==> items[i].0 == ks[i] && LastValue(ms, ks[i]) == Some(items[i].1)
  {
    if ks == [] then [] else [(ks[0], LastValue(ms, ks[0]).value)] + ValuesOf(ms, ks[1..])
  }

  /** `item.items()`. */
  function DictItems(ms: seq<(string, Json)>): (items: seq<(string, Json)>)
    ensures |items| == |DictKeys(ms)|
    ensures forall i :: 0 <= i < |items| ==> items[i].0 == DictKeys(ms)[i] && LastValue(ms, items[i].0) == Some(items[i].1)
  {
    ValuesOf(ms, DictKeys(ms))
  }

  function Texts(parts: seq<Json>): (r: seq<string>)
    requires forall k :: 0 <= k < |parts| ==> parts[k].JStr?
    ensures |r| == |parts| && forall k :: 0 <= k < |parts| ==> r[k] == parts[k].s
  {
    if parts == [] then [] else [parts[0].s] + Texts(parts[1..])
  }

  /** The truthy ones of `[a.get("given"), a.get("family")]`. */
  function NameParts(ms: seq<(string, Json)>): seq<Json> {
    var given, family := LastValue(ms, "given"), LastValue(ms, "family");
    (if given.Some? && Truthy(given.value) then [given.value] else [])
      + (if family.Some? && Truthy(family.value) then [family.value] else [])
  }

  /** One entry of an author list: the given name and the family name joined by a space
      for an object, `str(a)` for anything else; None where `" ".join` meets a part that
      is not a string (a TypeError). */
  function AuthorText(render: Json -> string, a: Json): Option<string> {
    if a.JObj? then
      var parts := NameParts(a.members);
      if forall k :: 0 <= k < |parts| ==> parts[k].JStr? then Some(JoinWith(" ", Texts(parts))) else None
    else Some(PyStr(render, a))
  }

  /** The author texts of a list, or None when one of them fails. */
  function AuthorTexts(render: Json -> string, xs: seq<Json>): Option<seq<string>>
    decreases |xs|
  {
    if xs == [] then Some([])
    else
      match AuthorTexts(render, xs[..|xs| - 1])
      case None => None
      case Some(ts) =>
        match AuthorText(render, xs[|xs| - 1])
        case None => None
        case Some(t) => Some(ts + [t])
  }

  /** `authors` built by the loop over an author list, joined by ", ". */
  method JoinAuthors(render: Json -> string, xs: seq<Json>) returns (r: Option<string>)
    ensures r.Some? <==> AuthorTexts(render, xs).Some?
    ensures r.Some? ==> r.value == JoinWith(", ", AuthorTexts(render, xs).value)
  {
    var authors: seq<string> := [];
    for i := 0 to |xs|
      invariant AuthorTexts(render, xs[..i]) == Some(authors)
    {
      assert xs[..i + 1][..i] == xs[..i];
      var t := AuthorText(render, xs[i]);
      if t.None? {
        AuthorTextsFailPersists(render, xs, i + 1);
        return None;
      }
      authors := authors + [t.value];
    }
    assert xs[..|xs|] == xs;
    return Some(JoinWith(", ", authors));
  }

  lemma {:induction false} AuthorTextsFailPersists(render: Json -> string, xs: seq<Json>, i: nat)
    requires i <= |xs|
    requires AuthorTexts(render, xs[..i]).None?
    ensures AuthorTexts(render, xs).None?
    decreases |xs| - i
  {
    if i < |xs| {
      assert xs[..i + 1][..i] == xs[..i];
      AuthorTextsFailPersists(render, xs, i + 1);
    } else {
      assert xs[..i] == xs;
    }
  }

  /** The cleaned form of one member: an author list becomes the string "authors", any
      other list the space-joined `str` of its elements, anything else is kept; None
      when building the author string raises. */
  function CleanEntry(render: Json -> string, key: string, value: Json): Option<(string, Json)> {
    if value.JArr? then
      if key == "author" then
        match AuthorTexts(render, value.items)
        case None => None
        case Some(names) => Some(("authors", JStr(JoinWith(", ", names))))
      else Some((key, JStr(JoinWith(" ", seq(|value.items|, k requires 0 <= k < |value.items| => PyStr(render, value.items[k]))))))
    else Some((key, value))
  }

  /** The record built from the members `items`, in order, or None when one raises. */
  function CleanAll(render: Json -> string, items: seq<(string, Json)>): Option<Record>
    decreases |items|
  {
    if items == [] then Some(map[])
    else
      match CleanAll(render, items[..|items| - 1])
      case None => None
      case Some(rec) =>
        match CleanEntry(render, items[|items| - 1].0, items[|items| - 1].1)
        case None => None
        case Some(e) => Some(rec[e.0 := e.1])
  }

  /** The record for one parsed item: its cleaned members, and "text" set to the input
      line when the item has none. */
  function CleanItem(render: Json -> string, ms: seq<(string, Json)>, line: string): Option<Record> {
    match CleanAll(render, DictItems(ms))
    case None => None
    case Some(rec) => Some(if "text" in rec then rec else rec["text" := JStr(line)])
  }

  lemma {:induction false} CleanAllFailPersists(render: Json -> string, items: seq<(string, Json)>, i: nat)
    requires i <= |items|
    requires CleanAll(render, items[..i]).None?
    ensures CleanAll(render, items).None?
    decreases |items| - i
  {
    if i < |items| {
      assert items[..i + 1][..i] == items[..i];
      CleanAllFailPersists(render, items, i + 1);
    } else {
      assert items[..i] == items;
    }
  }

  /** The loop over `item.items()` that builds `cleaned_item`. */
  method NormalizeItem(render: Json -> string, ms: seq<(string, Json)>, line: string) returns (r: Option<Record>)
    ensures r == CleanItem(render, ms, line)
  {
    var items := DictItems(ms);
    var cleaned: Record := map[];
    for i := 0 to |items|
      invariant CleanAll(render, items[..i]) == Some(cleaned)
    {
      assert items[..i + 1][..i] == items[..i];
      var (key, value) := items[i];
      if value.JArr? {
        if key == "author" {
          var authors := JoinAuthors(render, value.items);
          if authors.None? {
            CleanAllFailPersists(render, items, i + 1);
            return None;
          }
          cleaned := cleaned["authors" := JStr(authors.value)];
        } else {
          cleaned := cleaned[key := JStr(JoinWith(" ", seq(|value.items|, k requires 0 <= k < |value.items| => PyStr(render, value.items[k]))))];
        }
      } else {
        cleaned := cleaned[key := value];
      }
    }
    assert items[..|items|] == items;
    if "text" !in cleaned {
      cleaned := cleaned["text" := JStr(line)];
    }
    return Some(cleaned);
  }

  /** Every member of `items` cleans without raising. */
  predicate EntriesClean(render: Json -> string, items: seq<(string, Json)>) {
    forall j :: 0 <= j < |items| ==> CleanEntry(render, items[j].0, items[j].1).Some?
  }

  /** The field name a member is written under. */
  function Target(key: string, value: Json): string {
    if key == "author" && value.JArr? then "authors" else key
  }

  lemma CleanEntryTarget(render: Json -> string, key: string, value: Json)
    ensures CleanEntry(render, key, value).Some? ==> CleanEntry(render, key, value).value.0 == Target(key, value)
  {
  }

  /** No member after the `i`-th writes the same field. */
  predicate LastWriter(items: seq<(string, Json)>, i: nat)
    requires i < |items|
  {
    forall j :: i < j < |items| ==> Target(items[j].0, items[j].1) != Target(items[i].0, items[i].1)
  }

  /** The record is built exactly when no member raises. */
  lemma {:induction false} CleanAllSucceeds(render: Json -> string, items: seq<(string, Json)>)
    ensures CleanAll(render, items).Some? <==> EntriesClean(render, items)
    decreases |items|
  {
    if items != [] {
      var init := items[..|items| - 1];
      CleanAllSucceeds(render, init);
      assert EntriesClean(render, items) <==>
        EntriesClean(render, init) && CleanEntry(render, items[|items| - 1].0, items[|items| - 1].1).Some?;
    }
  }

  /** Each cleaned member lands under its field name unless a later member writes the same name. */
  lemma {:induction false} CleanAllLastWrite(render: Json -> string, items: seq<(string, Json)>, i: nat)
    requires EntriesClean(render, items)
    requires i < |items| && LastWriter(items, i)
    ensures CleanAll(render, items).Some?
    ensures var e := CleanEntry(render, items[i].0, items[i].1).value;
      e.0 in CleanAll(render, items).value && CleanAll(render, items).value[e.0] == e.1
    decreases |items|
  {
    CleanAllSucceeds(render, items);
    var init := items[..|items| - 1];
    assert EntriesClean(render, init);
    CleanAllSucceeds(render, init);
    var last := |items| - 1;
    CleanEntryTarget(render, items[i].0, items[i].1);
    CleanEntryTarget(render, items[last].0, items[last].1);
    if i < last {
      assert LastWriter(init, i);
      CleanAllLastWrite(render, init, i);
    }
  }

  /** Every field of the record is the target of some member. */
  lemma {:induction false} CleanAllFieldOrigin(render: Json -> string, items: seq<(string, Json)>, key: string)
    requires CleanAll(render, items).Some? && key in CleanAll(render, items).value
    ensures exists j :: 0 <= j < |items| && Target(items[j].0, items[j].1) == key
    decreases |items|
  {
    var init := items[..|items| - 1];
    var last := |items| - 1;
    CleanEntryTarget(render, items[last].0, items[last].1);
    if Target(items[last].0, items[last].1) != key {
      CleanAllFieldOrigin(render, init, key);
      var j :| 0 <= j < |init| && Target(init[j].0, init[j].1) == key;
      assert items[j] == init[j];
    }
  }

  /** A parsed item turns into a record exactly when no member raises; the record has a
      "text" field, and it is the input line when the item has no "text" member. */
  lemma CleanItemText(render: Json -> string, ms: seq<(string, Json)>, line: string)
    ensures CleanItem(render, ms, line).Some? <==> EntriesClean(render, DictItems(ms))
    ensures CleanItem(render, ms, line).Some? ==> "text" in CleanItem(render, ms, line).value
    ensures CleanItem(render, ms, line).Some? && LastValue(ms, "text") == None ==>
      CleanItem(render, ms, line).value["text"] == JStr(line)
  {
    var items := DictItems(ms);
    CleanAllSucceeds(render, items);
    var r := CleanAll(render, items);
    if r.Some? && LastValue(ms, "text") == None && "text" in r.value {
      CleanAllFieldOrigin(render, items, "text");
      assert false;
    }
  }

  lemma KeyIndex(ms: seq<(string, Json)>, key: string) returns (i: nat)
    requires LastValue(ms, key).Some?
    ensures i < |DictItems(ms)| && DictItems(ms)[i] == (key, LastValue(ms, key).value)
  {
    var ks := DictKeys(ms);
    assert key in ks;
    i :| 0 <= i < |ks| && ks[i] == key;
  }

  /** A member whose field name is neither "author" nor "authors" is the only writer of it. */
  lemma OnlyWriter(ms: seq<(string, Json)>, i: nat)
    requires i < |DictItems(ms)|
    requires Target(DictItems(ms)[i].0, DictItems(ms)[i].1) != "authors"
    ensures LastWriter(DictItems(ms), i)
  {
    var items, ks := DictItems(ms), DictKeys(ms);
    forall j | i < j < |items| ensures Target(items[j].0, items[j].1) != Target(items[i].0, items[i].1) {
      assert items[j].0 == ks[j] && ks[j] != ks[i];
    }
  }

  /** An author list is the only writer of "authors" when the item has no "authors" member. */
  lemma AuthorListOnlyWriter(ms: seq<(string, Json)>, i: nat)
    requires i < |DictItems(ms)| && DictItems(ms)[i].0 == "author"
    requires LastValue(ms, "authors") == None
    ensures LastWriter(DictItems(ms), i)
  {
    var items, ks := DictItems(ms), DictKeys(ms);
    assert "authors" !in ks;
    forall j | i < j < |items| ensures Target(items[j].0, items[j].1) != Target(items[i].0, items[i].1) {
      assert items[j].0 == ks[j] && ks[j] != ks[i];
    }
  }

  /** A member that is not a list keeps its value under its own name, unless its name is
      "authors", which an author list may overwrite. */
  lemma CleanItemKeepsScalar(render: Json -> string, ms: seq<(string, Json)>, line: string, key: string, value: Json)
    requires CleanItem(render, ms, line).Some?
    requires LastValue(ms, key) == Some(value) && !value.JArr? && key != "authors"
    ensures key in CleanItem(render, ms, line).value && CleanItem(render, ms, line).value[key] == value
  {
    var items := DictItems(ms);
    CleanAllSucceeds(render, items);
    var i := KeyIndex(ms, key);
    OnlyWriter(ms, i);
    CleanAllLastWrite(render, items, i);
  }

  lemma CleanEntryAuthorList(render: Json -> string, authors: seq<Json>)
    requires CleanEntry(render, "author", JArr(authors)).Some?
    ensures AuthorTexts(render, authors).Some?
    ensures CleanEntry(render, "author", JArr(authors)) == Some(("authors", JStr(JoinWith(", ", AuthorTexts(render, authors).value))))
  {
  }

  /** An author list becomes the ", "-joined author texts under "authors" when the item has
      no "authors" member of its own. */
  lemma CleanItemAuthors(render: Json -> string, ms: seq<(string, Json)>, line: string, authors: seq<Json>)
    requires CleanItem(render, ms, line).Some?
    requires LastValue(ms, "author") == Some(JArr(authors))
    requires LastValue(ms, "authors") == None
    ensures AuthorTexts(render, authors).Some?
    ensures "authors" in CleanItem(render, ms, line).value
    ensures CleanItem(render, ms, line).value["authors"] == JStr(JoinWith(", ", AuthorTexts(render, authors).value))
  {
    var items := DictItems(ms);
    CleanAllSucceeds(render, items);
    var i := KeyIndex(ms, "author");
    AuthorListOnlyWriter(ms, i);
    CleanAllLastWrite(render, items, i);
    CleanEntryAuthorList(render, authors);
  }

  /** An author object reads "given family"; a missing or empty given name is left out. */
  lemma AuthorTextOfObject(render: Json -> string, ms: seq<(string, Json)>, given: string, family: string)
    requires LastValue(ms, "family") == Some(JStr(family)) && family != []
    requires LastValue(ms, "given") == Some(JStr(given))
    ensures AuthorText(render, JObj(ms)) == Some(if given == [] then family else given + " " + family)
  {
    var parts := NameParts(ms);
    if given == [] {
      assert parts == [JStr(family)];
      assert Texts(parts) == [family];
    } else {
      assert parts == [JStr(given), JStr(family)];
      assert Texts(parts) == [given, family];
      assert JoinWith(" ", [family]) == family;
      assert JoinWith(" ", [given, family]) == given + " " + JoinWith(" ", [family]);
    }
  }

  lemma AuthorTextFamilyOnly(render: Json -> string, ms: seq<(string, Json)>, family: string)
    requires LastValue(ms, "family") == Some(JStr(family)) && family != []
    requires LastValue(ms, "given") == None
    ensures AuthorText(render, JObj(ms)) == Some(family)
  {
    assert NameParts(ms) == [JStr(family)];
    assert Texts([JStr(family)]) == [family];
  }

  // ---------------------------------------------------------------------------
  // One input line through the reference parser, and the whole input
  // ---------------------------------------------------------------------------

  /** `re.search(r'[\u4e00-\u9fff]', line)`: the line holds a CJK unified ideograph. */
  predicate HasCjk(line: string) {
    exists k :: 0 <= k < |line| && '\U{4e00}' <= line[k] <= '\U{9fff}'
  }

  /** What running the external parser on one line gives: its standard output, or a
      failure (no temporary file, no executable, a non-zero exit status). */
  datatype ToolRun = ToolFailed | ToolOutput(stdout: string)

  /** The parser and the library calls around it: `run(line, custom)` runs the parser on
      the line, with the custom model when `custom` holds; `decode` is `json.loads`
      (None when it raises); `render` is `str` on non-string JSON values; `customModel`
      says whether the custom model file exists. */
  datatype AnyStyle = AnyStyle(
    run: (string, bool) -> ToolRun,
    decode: string -> Option<Json>,
    render: Json -> string,
    customModel: bool)

  function FirstIndexOf(s: string, c: char): (r: Option<nat>)
    ensures r.Some? ==> r.value < |s| && s[r.value] == c && c !in s[..r.value]
    ensures r.None? ==> c !in s
  {
    if s == [] then None
    else if s[0] == c then Some(0)
    else match FirstIndexOf(s[1..], c)
      case None => None
      case Some(i) => assert s[..i + 1] == [s[0]] + s[1..][..i]; Some(i + 1)
  }

  function LastIndexOf(s: string, c: char): (r: Option<nat>)
    ensures r.Some? ==> r.value < |s| && s[r.value] == c && c !in s[r.value + 1..]
    ensures r.None? ==> c !in s
  {
    if s == [] then None
    else if s[|s| - 1] == c then Some(|s| - 1)
    else match LastIndexOf(s[..|s| - 1], c)
      case None => None
      case Some(i) => assert s[i + 1..] == s[..|s| - 1][i + 1..] + [s[|s| - 1]]; Some(i)
  }

  /** The JSON text taken from the parser's output: the stripped output when it starts
      with "[", else what `re.search(r"\[.*\]", out, re.DOTALL)` finds, the span from the
      first "[" to the last "]" after it; the stripped output when there is none. */
  function JsonSpan(u: Ucd, stdout: string): (r: string)
    ensures var t := Strip(u, stdout);
      r == t || exists i, j :: (0 <= i < j < |t| && r == t[i..j + 1]
        && t[i] == '[' && '[' !in t[..i] && t[j] == ']' && ']' !in t[j + 1..])
  {
    var t := Strip(u, stdout);
    if t != [] && t[0] == '[' then t
    else
      match (FirstIndexOf(t, '['), LastIndexOf(t, ']'))
      case (Some(i), Some(j)) => if i < j then t[i..j + 1] else t
      case _ => t
  }

  /** `for item in data`: a list's elements, an object's keys, a string's characters;
      None (a TypeError) for a number, a boolean or null. */
  function Elements(j: Json): Option<seq<Json>> {
    match j
    case JArr(xs) => Some(xs)
    case JObj(ms) => Some(seq(|DictKeys(ms)|, i requires 0 <= i < |DictKeys(ms)| => JStr(DictKeys(ms)[i])))
    case JStr(s) => Some(seq(|s|, i requires 0 <= i < |s| => JStr([s[i]])))
    case _ => None
  }

  /** The record for one decoded item: None when it is not an object (`item.items()`
      raises) or when cleaning it raises. */
  function ItemResult(render: Json -> string, item: Json, line: string): Option<Record> {
    if item.JObj? then CleanItem(render, item.members, line) else None
  }

  function ItemResults(render: Json -> string, items: seq<Json>, line: string): (rs: seq<Option<Record>>)
    ensures |rs| == |items| && forall k :: 0 <= k < |items| ==> rs[k] == ItemResult(render, items[k], line)
  {
    if items == [] then [] else [ItemResult(render, items[0], line)] + ItemResults(render, items[1..], line)
  }

  /** The values before the first None: the records kept when an item raises. */
  function TakeOk<T>(rs: seq<Option<T>>): (r: seq<T>)
    ensures |r| <= |rs|
  {
    if rs == [] || rs[0].None? then [] else [rs[0].value] + TakeOk(rs[1..])
  }

  /** The records of the items of one line. */
  function ItemsRecords(render: Json -> string, items: seq<Json>, line: string): seq<Record> {
    TakeOk(ItemResults(render, items, line))
  }

  /** The records one input line contributes. */
  function LineRecords(u: Ucd, env: AnyStyle, line: string): seq<Record> {
    var run := env.run(line, HasCjk(line) && env.customModel);
    if run.ToolFailed? then []
    else
      var data := env.decode(JsonSpan(u, run.stdout));
      if data.None? then []
      else
        var items := Elements(data.value);
        if items.None? then [] else ItemsRecords(env.render, items.value, line)
  }

  /** The stripped pieces that are not empty. */
  function StrippedNonEmpty(u: Ucd, pieces: seq<string>): seq<string> {
    if pieces == [] then []
    else (if Strip(u, pieces[0]) == [] then [] else [Strip(u, pieces[0])]) + StrippedNonEmpty(u, pieces[1..])
  }

  /** `[line.strip() for line in raw.split('\n') if line.strip()]`. */
  function InputLines(u: Ucd, raw: string): seq<string> {
    StrippedNonEmpty(u, SplitOn(raw, '\n'))
  }

  /** The records of all lines, in order. */
  function AllRecords(u: Ucd, env: AnyStyle, lines: seq<string>): seq<Record>
    decreases |lines|
  {
    if lines == [] then [] else AllRecords(u, env, lines[..|lines| - 1]) + LineRecords(u, env, lines[|lines| - 1])
  }

  lemma {:induction false} TakeOkAppend<T>(a: seq<Option<T>>, b: seq<Option<T>>)
    requires |TakeOk(a)| == |a|
    ensures TakeOk(a + b) == TakeOk(a) + TakeOk(b)
  {
    if a != [] {
      assert a[0].Some?;
      assert |TakeOk(a[1..])| == |a[1..]|;
      var ab := a + b;
      assert ab[0] == a[0] && ab[1..] == a[1..] + b;
      TakeOkAppend(a[1..], b);
    } else {
      assert a + b == b;
    }
  }

  lemma TakeOkSplit<T>(rs: seq<Option<T>>, j: nat)
    requires j <= |rs| && |TakeOk(rs[..j])| == j
    ensures TakeOk(rs) == TakeOk(rs[..j]) + TakeOk(rs[j..])
  {
    TakeOkAppend(rs[..j], rs[j..]);
    assert rs[..j] + rs[j..] == rs;
  }

  /** The values of a prefix without None. */
  lemma TakeOkStep<T>(rs: seq<Option<T>>, j: nat)
    requires j < |rs| && |TakeOk(rs[..j])| == j
    ensures rs[j].None? ==> TakeOk(rs) == TakeOk(rs[..j])
    ensures rs[j].Some? ==> TakeOk(rs[..j + 1]) == TakeOk(rs[..j]) + [rs[j].value] && |TakeOk(rs[..j + 1])| == j + 1
  {
    TakeOkSplit(rs, j);
    assert rs[..j + 1][..j] == rs[..j];
    assert rs[..j + 1][j..] == [rs[j]];
    TakeOkSplit(rs[..j + 1], j);
  }

  /** The loop over the decoded items of one line. */
  method ParseItems(render: Json -> string, items: seq<Json>, line: string) returns (recs: seq<Record>)
    ensures recs == ItemsRecords(render, items, line)
  {
    ghost var rs := ItemResults(render, items, line);
    recs := [];
    var j := 0;
    while j < |items|
      invariant j <= |items|
      invariant recs == TakeOk(rs[..j]) && |recs| == j
    {
      TakeOkStep(rs, j);
      if !items[j].JObj? {
        return;
      }
      var rec := NormalizeItem(render, items[j].members, line);
      if rec.None? {
        return;
      }
      recs := recs + [rec.value];
      j := j + 1;
    }
    assert rs[..j] == rs;
  }

  lemma {:induction false} TakeOkFrom<T>(rs: seq<Option<T>>, i: nat)
    requires i < |TakeOk(rs)|
    ensures i < |rs| && rs[i] == Some(TakeOk(rs)[i])
  {
    if i > 0 {
      TakeOkFrom(rs[1..], i - 1);
    }
  }

  /** Every record of a line has a "text" field. */
  lemma ItemsRecordsHaveText(render: Json -> string, items: seq<Json>, line: string)
    ensures forall i :: 0 <= i < |ItemsRecords(render, items, line)| ==> "text" in ItemsRecords(render, items, line)[i]
  {
    var rs := ItemResults(render, items, line);
    forall i | 0 <= i < |TakeOk(rs)| ensures "text" in TakeOk(rs)[i] {
      TakeOkFrom(rs, i);
      CleanItemText(render, items[i].members, line);
    }
  }

  lemma {:induction false} SplitOnChars(s: string, sep: char)
    ensures forall k, c :: 0 <= k < |SplitOn(s, sep)| && c in SplitOn(s, sep)[k] ==> c in s
  {
    if s != [] {
      SplitOnChars(s[1..], sep);
      var rest := SplitOn(s[1..], sep);
      forall k, c | 0 <= k < |SplitOn(s, sep)| && c in SplitOn(s, sep)[k] ensures c in s {
        var p := if s[0] == sep then (if k == 0 then [] else rest[k - 1])
                 else (if k == 0 then [s[0]] + rest[0] else rest[k]);
        assert SplitOn(s, sep)[k] == p;
        if c != s[0] {
          assert c in s[1..];
        }
      }
    }
  }

  lemma {:induction false} StrippedNonEmptyOfBlank(u: Ucd, pieces: seq<string>)
    requires forall k, c :: 0 <= k < |pieces| && c in pieces[k] ==> u.isSpace(c)
    ensures StrippedNonEmpty(u, pieces) == []
  {
    if pieces != [] {
      var p := pieces[0];
      forall k | 0 <= k < |p| ensures u.isSpace(p[k]) {
        assert p[k] in pieces[0];
      }
      AllSpaceLStrip(u, p);
      StrippedNonEmptyOfBlank(u, pieces[1..]);
    }
  }

  /** Empty or blank input has no lines. */
  lemma BlankInputHasNoLines(u: Ucd, raw: string)
    requires raw == [] || Strip(u, raw) == []
    ensures InputLines(u, raw) == []
  {
    if raw == [] {
      var pieces := SplitOn(raw, '\n');
      assert pieces == [[]];
      assert Strip(u, pieces[0]) == [] && pieces[1..] == [];
      assert StrippedNonEmpty(u, pieces) == [] + StrippedNonEmpty(u, pieces[1..]);
      return;
    }
    assert LStrip(u, raw) == [];
    SplitOnChars(raw, '\n');
    forall k, c | 0 <= k < |SplitOn(raw, '\n')| && c in SplitOn(raw, '\n')[k] ensures u.isSpace(c) {
      assert c in raw;
      var i :| 0 <= i < |raw| && raw[i] == c;
      assert u.isSpace(raw[i]);
    }
    StrippedNonEmptyOfBlank(u, SplitOn(raw, '\n'));
  }

  /** One line through the parser: run it (with the custom model for a line holding CJK
      characters when the model exists), take the JSON text from its output, decode it
      and flatten its items; a failure at any step leaves the line without records. */
  method ParseLine(u: Ucd, env: AnyStyle, line: string) returns (recs: seq<Record>)
    ensures recs == LineRecords(u, env, line)
    ensures forall k :: 0 <= k < |recs| ==> "text" in recs[k]
  {
    recs := [];
    var run := env.run(line, HasCjk(line) && env.customModel);
    if run.ToolOutput? {
      var data := env.decode(JsonSpan(u, run.stdout));
      if data.Some? {
        var items := Elements(data.value);
        if items.Some? {
          recs := ParseItems(env.render, items.value, line);
          ItemsRecordsHaveText(env.render, items.value, line);
        }
      }
    }
  }

  /** The loop of parse_references_with_anystyle over the input lines. */
  method ParseLines(u: Ucd, env: AnyStyle, lines: seq<string>) returns (rawTexts: seq<Json>, refs: seq<Record>)
    ensures refs == AllRecords(u, env, lines)
    ensures |rawTexts| == |refs|
    ensures forall i :: 0 <= i < |refs| ==> "text" in refs[i] && rawTexts[i] == refs[i]["text"]
  {
    rawTexts, refs := [], [];
    for i := 0 to |lines|
      invariant refs == AllRecords(u, env, lines[..i])
      invariant |rawTexts| == |refs|
      invariant forall k :: 0 <= k < |refs| ==> "text" in refs[k] && rawTexts[k] == refs[k]["text"]
    {
      assert lines[..i + 1][..i] == lines[..i];
      var recs := ParseLine(u, env, lines[i]);
      var texts := seq(|recs|, k requires 0 <= k < |recs| => recs[k]["text"]);
      rawTexts, refs := rawTexts + texts, refs + recs;
    }
    assert lines[..|lines|] == lines;
  }

  /** parse_references_with_anystyle: every non-blank line through the parser, every
      record kept, and its "text" field in the parallel list of raw texts. */
  method ParseReferences(u: Ucd, env: AnyStyle, raw: string) returns (rawTexts: seq<Json>, refs: seq<Record>)
    ensures refs == AllRecords(u, env, InputLines(u, raw))
    ensures |rawTexts| == |refs|
    ensures forall i :: 0 <= i < |refs| ==> "text" in refs[i] && rawTexts[i] == refs[i]["text"]
  {
    if raw == [] || Strip(u, raw) == [] {
      BlankInputHasNoLines(u, raw);
      return [], [];
    }
    rawTexts, refs := ParseLines(u, env, InputLines(u, raw));
  }
}
