/** The parts of Python's `str`, `unicodedata` and `re` behaviour that the citation
    checker relies on.  The Unicode database is not reimplemented: `Ucd` carries the
    library's character functions as values, and `AsciiExact` pins them down on ASCII,
    where CPython's tables are short enough to write out. */
module PyText {

  datatype Option<T> = None | Some(value: T)

  /** The Python exceptions the modelled code can raise by accident. */
  datatype PyError = IndexError | TypeError | AttributeError | KeyError

  /** A value, or the exception that escaped instead. */
  datatype Result<T> = Ok(value: T) | Raised(error: PyError)

  /** The first letter of `unicodedata.category(c)`. */
  datatype Major = Letter | Mark | Number | Punctuation | Symbol | Separator | Other

  /** The Unicode-dependent library functions the source calls. */
  datatype Ucd = Ucd(
    nfkc: string -> string,       // unicodedata.normalize("NFKC", s)
    major: char -> Major,         // unicodedata.category(c)[0]
    lowerChar: char -> string,    // c.lower() for a one-character string (may grow: "İ" -> "i̇")
    lowerText: string -> string,  // s.lower() for a whole string (context-dependent final sigma)
    isSpace: char -> bool,        // str.isspace(), also regex \s, str.split(), str.strip()
    isDecimal: char -> bool,      // regex \d
    isWord: char -> bool)         // regex \w

  // ---------------------------------------------------------------------------
  // ASCII: CPython's tables written out
  // ---------------------------------------------------------------------------

  predicate IsAscii(s: string) {
    forall i :: 0 <= i < |s| ==> s[i] < '\U{80}'
  }

  predicate IsAsciiUpper(c: char) { 'A' <= c <= 'Z' }
  predicate IsAsciiLower(c: char) { 'a' <= c <= 'z' }
  predicate IsAsciiDigit(c: char) { '0' <= c <= '9' }

  /** Category classes of the ASCII range (Cc controls, Zs space, Sm/Sc/Sk symbols, P* punctuation). */
  function AsciiMajor(c: char): Major
    requires c < '\U{80}'
  {
    if IsAsciiUpper(c) || IsAsciiLower(c) then Letter
    else if IsAsciiDigit(c) then Number
    else if c == ' ' then Separator
    else if c < ' ' || c == '\U{7f}' then Other
    else if c in {'$', '+', '<', '=', '>', '^', '`', '|', '~'} then Symbol
    else Punctuation
  }

  function AsciiLower(c: char): char {
    if IsAsciiUpper(c) then (c as int + 32) as char else c
  }

  function AsciiLowerText(s: string): (r: string)
    ensures |r| == |s| && forall i :: 0 <= i < |s| ==> r[i] == AsciiLower(s[i])
  {
    if s == [] then [] else [AsciiLower(s[0])] + AsciiLowerText(s[1..])
  }

  /** `str.isspace()` on ASCII: \t \n \v \f \r, the four separators \x1c-\x1f, and ' '. */
  predicate AsciiSpace(c: char) {
    ('\t' <= c <= '\r') || ('\U{1c}' <= c <= ' ')
  }

  predicate AsciiWord(c: char) {
    IsAsciiUpper(c) || IsAsciiLower(c) || IsAsciiDigit(c) || c == '_'
  }

  /** The oracle agrees with CPython on every ASCII character and ASCII string. */
  ghost predicate AsciiExact(u: Ucd) {
    && (forall c: char :: c < '\U{80}' ==> u.major(c) == AsciiMajor(c))
    && (forall c: char :: c < '\U{80}' ==> u.lowerChar(c) == [AsciiLower(c)])
    && (forall c: char :: c < '\U{80}' ==> u.isSpace(c) == AsciiSpace(c))
    && (forall c: char :: c < '\U{80}' ==> u.isDecimal(c) == IsAsciiDigit(c))
    && (forall c: char :: c < '\U{80}' ==> u.isWord(c) == AsciiWord(c))
    && (forall s: string :: IsAscii(s) ==> u.nfkc(s) == s)
    && (forall s: string :: IsAscii(s) ==> u.lowerText(s) == AsciiLowerText(s))
  }

  // ---------------------------------------------------------------------------
  // Substrings, prefixes, counting
  // ---------------------------------------------------------------------------

  /** Python's `needle in hay`. */
  predicate Contains(hay: string, needle: string) {
    exists i :: 0 <= i <= |hay| && StartsWith(hay[i..], needle)
  }

  predicate StartsWith(s: string, prefix: string) {
    |prefix| <= |s| && s[..|prefix|] == prefix
  }

  /** `s.count(c)` for a one-character `c`. */
  function CountChar(s: string, c: char): nat {
    if s == [] then 0 else (if s[0] == c then 1 else 0) + CountChar(s[1..], c)
  }

  /** Counting distributes over concatenation. */
  lemma {:induction false} CountCharConcat(a: string, b: string, c: char)
    ensures CountChar(a + b, c) == CountChar(a, c) + CountChar(b, c)
  {
    if a == [] {
      assert a + b == b;
    } else {
      assert (a + b)[0] == a[0] && (a + b)[1..] == a[1..] + b;
      CountCharConcat(a[1..], b, c);
    }
  }

  /** A character that does not occur is counted zero times. */
  lemma {:induction false} CountCharAbsent(s: string, c: char)
    requires c !in s
    ensures CountChar(s, c) == 0
  {
    if s != [] {
      forall k | 0 <= k < |s[1..]| ensures s[1..][k] != c {
        assert s[1..][k] == s[k + 1];
      }
      CountCharAbsent(s[1..], c);
    }
  }

  /** `s.replace(d, "")` for a one-character `d`. */
  function DeleteChar(s: string, d: char): (r: string)
    ensures d !in r
    ensures forall c :: c in r <==> c in s && c != d
  {
    if s == [] then [] else (if s[0] == d then [] else [s[0]]) + DeleteChar(s[1..], d)
  }

  /** `s.split(sep)[0]` for a non-empty separator: the text before its first occurrence. */
  function BeforeFirst(s: string, sep: string): (r: string)
    requires sep != []
    ensures StartsWith(s, r)
    decreases |s|
  {
    if |s| < |sep| then s
    else if s[..|sep|] == sep then []
    else [s[0]] + BeforeFirst(s[1..], sep)
  }

  /** `s.split(sep)` for a one-character separator: never empty, empty pieces kept. */
  function SplitOn(s: string, sep: char): (r: seq<string>)
    ensures |r| == CountChar(s, sep) + 1
    ensures forall k :: 0 <= k < |r| ==> sep !in r[k]
  {
    if s == [] then [[]]
    else
      var rest := SplitOn(s[1..], sep);
      if s[0] == sep then [[]] + rest else [[s[0]] + rest[0]] + rest[1..]
  }

  function JoinWith(sep: string, parts: seq<string>): string {
    if parts == [] then []
    else if |parts| == 1 then parts[0]
    else parts[0] + sep + JoinWith(sep, parts[1..])
  }

  // ---------------------------------------------------------------------------
  // Whitespace: strip, split, collapse
  // ---------------------------------------------------------------------------

  /** Drops leading whitespace (`s.lstrip()`). */
  function LStrip(u: Ucd, s: string): (r: string)
    ensures |r| <= |s|
    ensures r == [] || !u.isSpace(r[0])
    ensures forall k :: 0 <= k < |s| - |r| ==> u.isSpace(s[k])
    ensures s != [] && u.isSpace(s[0]) ==> |r| < |s|
  {
    if s != [] && u.isSpace(s[0]) then LStrip(u, s[1..]) else s
  }

  /** Drops trailing whitespace (`s.rstrip()`). */
  function RStrip(u: Ucd, s: string): (r: string)
    ensures |r| <= |s| && r == s[..|r|]
    ensures r == [] || !u.isSpace(r[|r| - 1])
    ensures forall k :: |r| <= k < |s| ==> u.isSpace(s[k])
  {
    if s != [] && u.isSpace(s[|s| - 1]) then RStrip(u, s[..|s| - 1]) else s
  }

  /** `s.strip()`. */
  function Strip(u: Ucd, s: string): string {
    RStrip(u, LStrip(u, s))
  }

  /** `s.lstrip(chars)`. */
  function LStripChars(s: string, chars: set<char>): (r: string)
    ensures |r| <= |s| && r == s[|s| - |r|..]
    ensures r == [] || r[0] !in chars
  {
    if s != [] && s[0] in chars then LStripChars(s[1..], chars) else s
  }

  /** `s.rstrip(chars)`. */
  function RStripChars(s: string, chars: set<char>): (r: string)
    ensures |r| <= |s| && r == s[..|r|]
    ensures r == [] || r[|r| - 1] !in chars
  {
    if s != [] && s[|s| - 1] in chars then RStripChars(s[..|s| - 1], chars) else s
  }

  /** `s.strip(chars)`. */
  function StripChars(s: string, chars: set<char>): string {
    RStripChars(LStripChars(s, chars), chars)
  }

  /** The end of the run of whitespace starting at `k` (`\s*`, greedy). */
  function SkipSpaces(u: Ucd, s: string, k: nat): (r: nat)
    requires k <= |s|
    ensures k <= r <= |s|
    ensures r == |s| || !u.isSpace(s[r])
    decreases |s| - k
  {
    if k < |s| && u.isSpace(s[k]) then SkipSpaces(u, s, k + 1) else k
  }

  /** Text whose ends are not among `chars` is left as it is. */
  lemma StripCharsNothing(s: string, chars: set<char>)
    requires s != [] && s[0] !in chars && s[|s| - 1] !in chars
    ensures StripChars(s, chars) == s
  {
  }

  /** Text whose ends are not spaces is left as it is, and so is it with spaces
      appended. */
  lemma StripNothing(u: Ucd, s: string, pad: string)
    requires s != [] && !u.isSpace(s[0]) && !u.isSpace(s[|s| - 1])
    requires forall k :: 0 <= k < |pad| ==> u.isSpace(pad[k])
    ensures Strip(u, s + pad) == s
  {
    assert LStrip(u, s + pad) == s + pad;
    RStripPad(u, s, pad);
  }

  lemma {:induction false} RStripPad(u: Ucd, s: string, pad: string)
    requires s != [] && !u.isSpace(s[|s| - 1])
    requires forall k :: 0 <= k < |pad| ==> u.isSpace(pad[k])
    ensures RStrip(u, s + pad) == s
    decreases |pad|
  {
    if pad != [] {
      assert (s + pad)[..|s + pad| - 1] == s + pad[..|pad| - 1];
      RStripPad(u, s, pad[..|pad| - 1]);
    } else {
      assert s + pad == s;
    }
  }

  /** Neither end of `s.strip(chars)` is one of `chars`. */
  lemma StripCharsEnds(s: string, chars: set<char>)
    ensures var r := StripChars(s, chars); r == [] || (r[0] !in chars && r[|r| - 1] !in chars)
  {
    var l := LStripChars(s, chars);
    var r := RStripChars(l, chars);
    if r != [] {
      assert r[0] == l[0];
    }
  }

  /** The longest prefix without whitespace. */
  function TakeWord(u: Ucd, s: string): (w: string)
    ensures |w| <= |s| && w == s[..|w|]
    ensures forall k :: 0 <= k < |w| ==> !u.isSpace(w[k])
    ensures |w| == |s| || u.isSpace(s[|w|])
    ensures s != [] && !u.isSpace(s[0]) ==> w != []
  {
    if s == [] || u.isSpace(s[0]) then [] else [s[0]] + TakeWord(u, s[1..])
  }

  /** A non-empty string without whitespace. */
  predicate IsWord(u: Ucd, w: string) {
    w != [] && forall k :: 0 <= k < |w| ==> !u.isSpace(w[k])
  }

  /** `s.split()`: the maximal runs of non-whitespace characters. */
  function SplitWs(u: Ucd, s: string): (ws: seq<string>)
    ensures forall k :: 0 <= k < |ws| ==> IsWord(u, ws[k])
    decreases |s|
  {
    var t := LStrip(u, s);
    if t == [] then []
    else
      var w := TakeWord(u, t);
      [w] + SplitWs(u, t[|w|..])
  }

  /** `re.sub(r"\s+", " ", s)`: every maximal run of whitespace becomes one space. */
  function CollapseWs(u: Ucd, s: string): string
    decreases |s|
  {
    if s == [] then []
    else if u.isSpace(s[0]) then " " + CollapseWs(u, LStrip(u, s))
    else [s[0]] + CollapseWs(u, s[1..])
  }

  /** Words joined by single spaces: what `" ".join(s.split())` and
      `re.sub(r"\s+", " ", s).strip()` both produce. */
  predicate Canonical(u: Ucd, t: string) {
    && (t != [] ==> !u.isSpace(t[0]) && !u.isSpace(t[|t| - 1]))
    && (forall k :: 0 <= k < |t| && u.isSpace(t[k]) ==> t[k] == ' ')
    && (forall k :: 0 <= k < |t| - 1 ==> !(u.isSpace(t[k]) && u.isSpace(t[k + 1])))
  }

  // ---------------------------------------------------------------------------
  // Regex word boundaries
  // ---------------------------------------------------------------------------

  /** `\b` at position `k` of `s`: exactly one of the neighbouring characters is a word character. */
  predicate IsBoundary(u: Ucd, s: string, k: int)
    requires 0 <= k <= |s|
  {
    (0 < k && u.isWord(s[k - 1])) != (k < |s| && u.isWord(s[k]))
  }

  // ---------------------------------------------------------------------------
  // Lemmas: split, join and collapse agree
  // ---------------------------------------------------------------------------

  lemma {:induction false} LStripIsSuffix(u: Ucd, s: string)
    ensures LStrip(u, s) == s[|s| - |LStrip(u, s)|..]
  {
    if s != [] && u.isSpace(s[0]) {
      LStripIsSuffix(u, s[1..]);
    }
  }

  lemma SplitSkipsLeadingSpace(u: Ucd, s: string)
    ensures SplitWs(u, s) == SplitWs(u, LStrip(u, s))
  {
    var t := LStrip(u, s);
    assert LStrip(u, t) == t;
  }

  /** Collapsing a string that starts with a word copies the word and goes on after it. */
  lemma {:induction false} CollapseWordPrefix(u: Ucd, s: string)
    ensures CollapseWs(u, s) == TakeWord(u, s) + CollapseWs(u, s[|TakeWord(u, s)|..])
    decreases |s|
  {
    if s != [] && !u.isSpace(s[0]) {
      CollapseWordPrefix(u, s[1..]);
      assert TakeWord(u, s) == [s[0]] + TakeWord(u, s[1..]);
      assert s[1..][|TakeWord(u, s[1..])|..] == s[|TakeWord(u, s)|..];
    }
  }

  lemma JoinCons(sep: string, w: string, ws: seq<string>)
    requires ws != []
    ensures JoinWith(sep, [w] + ws) == w + sep + JoinWith(sep, ws)
  {
    assert ([w] + ws)[1..] == ws;
  }

  /** One space when `s` ends with whitespace, nothing otherwise. */
  function TrailSpace(u: Ucd, s: string): string {
    if s != [] && u.isSpace(s[|s| - 1]) then " " else ""
  }

  lemma SplitWordStart(u: Ucd, s: string)
    requires s != [] && !u.isSpace(s[0])
    ensures SplitWs(u, s) == [TakeWord(u, s)] + SplitWs(u, s[|TakeWord(u, s)|..])
  {
    assert LStrip(u, s) == s;
  }

  lemma TrailAfterWord(u: Ucd, s: string)
    requires s != [] && !u.isSpace(s[0])
    ensures var rest := s[|TakeWord(u, s)|..];
      TrailSpace(u, s) == (if rest == [] then "" else TrailSpace(u, rest))
  {
    var w := TakeWord(u, s);
    if |w| == |s| {
      assert s[|s| - 1] == w[|w| - 1];
    }
  }

  lemma CollapseSpaceStart(u: Ucd, rest: string)
    requires rest != [] && u.isSpace(rest[0])
    ensures var r2 := LStrip(u, rest);
      && CollapseWs(u, rest) == " " + CollapseWs(u, r2)
      && SplitWs(u, rest) == SplitWs(u, r2)
      && TrailSpace(u, rest) == (if r2 == [] then " " else TrailSpace(u, r2))
  {
    var r2 := LStrip(u, rest);
    SplitSkipsLeadingSpace(u, rest);
    LStripIsSuffix(u, rest);
    if r2 != [] {
      assert rest[|rest| - 1] == r2[|r2| - 1];
    }
  }

  lemma Assoc4(a: string, b: string, c: string, d: string)
    ensures a + (b + (c + d)) == ((a + b) + c) + d
  {
  }

  /** For a string that does not start with whitespace, collapsing is joining its words,
      plus one space when the string ends with whitespace. */
  lemma {:induction false} CollapseIsJoin(u: Ucd, s: string)
    requires s == [] || !u.isSpace(s[0])
    ensures CollapseWs(u, s) == JoinWith(" ", SplitWs(u, s)) + TrailSpace(u, s)
    decreases |s|
  {
    if s != [] {
      var w := TakeWord(u, s);
      var rest := s[|w|..];
      CollapseWordPrefix(u, s);
      SplitWordStart(u, s);
      TrailAfterWord(u, s);
      if rest == [] {
        assert SplitWs(u, s) == [w];
      } else {
        var r2 := LStrip(u, rest);
        CollapseSpaceStart(u, rest);
        if r2 == [] {
          assert SplitWs(u, s) == [w];
        } else {
          CollapseIsJoin(u, r2);
          assert SplitWs(u, r2) != [];
          JoinCons(" ", w, SplitWs(u, r2));
          Assoc4(w, " ", JoinWith(" ", SplitWs(u, r2)), TrailSpace(u, r2));
        }
      }
    }
  }

  lemma {:induction false} JoinWordsEdges(u: Ucd, ws: seq<string>)
    requires forall k :: 0 <= k < |ws| ==> IsWord(u, ws[k])
    ensures var j := JoinWith(" ", ws);
      && (ws == [] <==> j == [])
      && (j != [] ==> !u.isSpace(j[0]) && !u.isSpace(j[|j| - 1]))
  {
    if |ws| > 1 {
      JoinWordsEdges(u, ws[1..]);
    }
  }

  lemma StripAround(u: Ucd, a: string, j: string, b: string)
    requires u.isSpace(' ')
    requires a == "" || a == " "
    requires b == "" || b == " "
    requires j != [] ==> !u.isSpace(j[0]) && !u.isSpace(j[|j| - 1])
    ensures Strip(u, a + (j + b)) == j
  {
    var x := a + (j + b);
    if j == [] {
      assert forall k :: 0 <= k < |x| ==> u.isSpace(x[k]);
      AllSpaceLStrip(u, x);
    } else {
      assert LStrip(u, x) == j + b by {
        if a == " " {
          assert x[1..] == j + b;
        } else {
          assert x == j + b;
        }
      }
      if b == " " {
        assert (j + b)[..|j + b| - 1] == j;
      } else {
        assert j + b == j;
      }
    }
  }

  lemma {:induction false} AllSpaceLStrip(u: Ucd, x: string)
    requires forall k :: 0 <= k < |x| ==> u.isSpace(x[k])
    ensures LStrip(u, x) == []
  {
    if x != [] {
      AllSpaceLStrip(u, x[1..]);
    }
  }

  /** `re.sub(r"\s+", " ", s).strip()` is `" ".join(s.split())`. */
  lemma CollapseStripIsJoin(u: Ucd, s: string)
    requires u.isSpace(' ')
    ensures Strip(u, CollapseWs(u, s)) == JoinWith(" ", SplitWs(u, s))
  {
    var t := LStrip(u, s);
    var j := JoinWith(" ", SplitWs(u, t));
    SplitSkipsLeadingSpace(u, s);
    CollapseIsJoin(u, t);
    JoinWordsEdges(u, SplitWs(u, t));
    if s != [] && u.isSpace(s[0]) {
      assert CollapseWs(u, s) == " " + CollapseWs(u, t);
      StripAround(u, " ", j, TrailSpace(u, t));
    } else {
      assert t == s;
      assert CollapseWs(u, s) == "" + CollapseWs(u, t);
      StripAround(u, "", j, TrailSpace(u, t));
    }
  }

  /** Words joined by single spaces are in canonical form. */
  lemma {:induction false} JoinWordsCanonical(u: Ucd, ws: seq<string>)
    requires u.isSpace(' ')
    requires forall k :: 0 <= k < |ws| ==> IsWord(u, ws[k])
    ensures Canonical(u, JoinWith(" ", ws))
  {
    JoinWordsEdges(u, ws);
    if |ws| > 1 {
      JoinWordsCanonical(u, ws[1..]);
      JoinWordsEdges(u, ws[1..]);
      var w, j := ws[0], JoinWith(" ", ws[1..]);
      JoinCons(" ", w, ws[1..]);
      var t := w + " " + j;
      forall k | 0 <= k < |t| && u.isSpace(t[k]) ensures t[k] == ' ' {
        if k > |w| {
          assert t[k] == j[k - |w| - 1];
        }
      }
      forall k | 0 <= k < |t| - 1 ensures !(u.isSpace(t[k]) && u.isSpace(t[k + 1])) {
        if k > |w| {
          assert t[k] == j[k - |w| - 1] && t[k + 1] == j[k - |w|];
        }
      }
    }
  }

  lemma TakeWordOfWordThenSpace(u: Ucd, w: string, rest: string)
    requires IsWord(u, w)
    requires rest == [] || u.isSpace(rest[0])
    ensures TakeWord(u, w + rest) == w
    decreases |w|
  {
    if |w| > 1 {
      assert (w + rest)[1..] == w[1..] + rest;
      TakeWordOfWordThenSpace(u, w[1..], rest);
    } else {
      assert (w + rest)[1..] == rest;
    }
  }

  /** Splitting words that were joined by single spaces gives the words back. */
  lemma {:induction false} SplitJoinRoundTrip(u: Ucd, ws: seq<string>)
    requires u.isSpace(' ')
    requires forall k :: 0 <= k < |ws| ==> IsWord(u, ws[k])
    ensures SplitWs(u, JoinWith(" ", ws)) == ws
  {
    if |ws| == 1 {
      SplitOneWord(u, ws[0]);
      assert ws == [ws[0]];
    } else if |ws| > 1 {
      var j2 := JoinWith(" ", ws[1..]);
      SplitJoinRoundTrip(u, ws[1..]);
      assert ws == [ws[0]] + ws[1..];
      JoinCons(" ", ws[0], ws[1..]);
      assert JoinWith(" ", ws) == ws[0] + (" " + j2);
      JoinWordsEdges(u, ws[1..]);
      SplitJoinStep(u, ws[0], j2);
    }
  }

  lemma SplitOneWord(u: Ucd, w: string)
    requires u.isSpace(' ') && IsWord(u, w)
    ensures SplitWs(u, JoinWith(" ", [w])) == [w]
  {
    TakeWordOfWordThenSpace(u, w, []);
    assert w + [] == w;
    assert LStrip(u, w) == w;
    assert w[|w|..] == [];
  }

  /** One word of the round trip: the first word comes off, then the rest splits. */
  lemma SplitJoinStep(u: Ucd, w: string, j2: string)
    requires u.isSpace(' ') && IsWord(u, w) && j2 != [] && !u.isSpace(j2[0])
    ensures SplitWs(u, w + (" " + j2)) == [w] + SplitWs(u, j2)
  {
    var j := w + (" " + j2);
    TakeWordOfWordThenSpace(u, w, " " + j2);
    assert j[0] == w[0];
    SplitWsAtWord(u, j);
    assert j[|w|..] == " " + j2;
    assert LStrip(u, " " + j2) == j2 by {
      assert (" " + j2)[1..] == j2;
    }
    SplitSkipsLeadingSpace(u, " " + j2);
  }

  /** Text starting with a word splits into that word and the split of the rest. */
  lemma SplitWsAtWord(u: Ucd, s: string)
    requires s != [] && !u.isSpace(s[0])
    ensures SplitWs(u, s) == [TakeWord(u, s)] + SplitWs(u, s[|TakeWord(u, s)|..])
  {
    assert LStrip(u, s) == s;
  }

  /** `s.split()` is empty exactly for an all-whitespace string. */
  lemma SplitWsEmpty(u: Ucd, s: string)
    ensures SplitWs(u, s) == [] <==> forall k :: 0 <= k < |s| ==> u.isSpace(s[k])
  {
    var t := LStrip(u, s);
    LStripIsSuffix(u, s);
    if t != [] {
      assert t[0] == s[|s| - |t|];
    }
  }
}
