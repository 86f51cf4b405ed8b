/** `refine_parsed_data` (app.py): the clean-up a parsed reference goes through before
    it is checked. It works on a copy of the record (here a map value, so the caller's
    record is untouched by construction): a URL found in the raw text fills a missing
    `url`, four fields lose trailing punctuation, and the title loses a leading year
    and a trailing "arXiv ..." tail. */
module Refine {
  import opened PyText
  import opened Parsers
  import opened TitleMatch
  import opened Verifiers

  // ---------------------------------------------------------------------------
  // re.search(r'(https?://[^\s]+)', raw_text)
  // ---------------------------------------------------------------------------

  /** The end of the run of non-whitespace starting at `k` (`[^\s]+`, greedy). */
  function NonSpaceEnd(u: Ucd, s: string, k: nat): (r: nat)
    requires k <= |s|
    ensures k <= r <= |s|
    ensures forall j :: k <= j < r ==> !u.isSpace(s[j])
    ensures r == |s| || u.isSpace(s[r])
    decreases |s| - k
  {
    if k < |s| && !u.isSpace(s[k]) then NonSpaceEnd(u, s, k + 1) else k
  }

  /** The end of a URL match at `i`: "https://" or "http://" (a failed "https" does not
      leave "http" a way through, since its 's' is not ':'), then at least one
      non-whitespace character, as many as there are. */
  function UrlEnd(u: Ucd, s: string, i: nat): (r: Option<nat>)
    requires i <= |s|
    ensures r.Some? ==> i + 7 < r.value <= |s|
  {
    var k := if StartsWith(s[i..], "https://") then i + 8 else if StartsWith(s[i..], "http://") then i + 7 else i;
    if k == i || k >= |s| || u.isSpace(s[k]) then None else Some(NonSpaceEnd(u, s, k))
  }

  /** The first position from `i` on where a URL matches. */
  function FirstUrlStart(u: Ucd, s: string, i: nat): (r: Option<nat>)
    requires i <= |s|
    ensures r.Some? ==> i <= r.value <= |s| && UrlEnd(u, s, r.value).Some?
    ensures r.Some? ==> forall j :: i <= j < r.value ==> UrlEnd(u, s, j).None?
    ensures r.None? ==> forall j :: i <= j <= |s| ==> UrlEnd(u, s, j).None?
    decreases |s| - i
  {
    if UrlEnd(u, s, i).Some? then Some(i)
    else if i == |s| then None
    else FirstUrlStart(u, s, i + 1)
  }

  /** `re.search(...).group(1)`: the URL that starts at the first position where the
      pattern matches. */
  function FindUrl(u: Ucd, s: string): (r: Option<string>)
    ensures r.Some? <==> exists k :: 0 <= k <= |s| && UrlEnd(u, s, k).Some?
    ensures r.Some? ==>
      exists k :: 0 <= k <= |s| && UrlEnd(u, s, k).Some? && r.value == s[k..UrlEnd(u, s, k).value] &&
        forall j :: 0 <= j < k ==> UrlEnd(u, s, j).None?
  {
    match FirstUrlStart(u, s, 0)
    case Some(k) => Some(s[k..UrlEnd(u, s, k).value])
    case None => None
  }

  // ---------------------------------------------------------------------------
  // re.sub(r'^\s*\d{4}[\.\s]+', '', title)
  // ---------------------------------------------------------------------------

  predicate YearSeparator(u: Ucd, c: char) {
    c == '.' || u.isSpace(c)
  }

  /** The end of the run of '.' and whitespace starting at `k`. */
  function SeparatorEnd(u: Ucd, s: string, k: nat): (r: nat)
    requires k <= |s|
    ensures k <= r <= |s|
    ensures forall j :: k <= j < r ==> YearSeparator(u, s[j])
    ensures r == |s| || !YearSeparator(u, s[r])
    decreases |s| - k
  {
    if k < |s| && YearSeparator(u, s[k]) then SeparatorEnd(u, s, k + 1) else k
  }

  /** The end of the year prefix, if the title has one: whitespace, exactly four decimal
      digits, then at least one '.' or whitespace character, as many as there are. */
  function YearPrefixEnd(u: Ucd, s: string): (r: Option<nat>)
    ensures r.Some? ==> 5 <= r.value <= |s|
  {
    var k := SkipSpaces(u, s, 0);
    if k + 4 < |s| && u.isDecimal(s[k]) && u.isDecimal(s[k + 1]) && u.isDecimal(s[k + 2]) && u.isDecimal(s[k + 3])
       && YearSeparator(u, s[k + 4])
    then Some(SeparatorEnd(u, s, k + 4))
    else None
  }

  function DropYearPrefix(u: Ucd, s: string): string {
    match YearPrefixEnd(u, s)
    case Some(e) => s[e..]
    case None => s
  }

  /** `s` is a year prefix followed by `rest`, with its digits starting at `k`:
      whitespace, four decimal digits, then '.' or whitespace up to `rest`. */
  ghost predicate YearPrefixAt(u: Ucd, s: string, k: nat, rest: string) {
    var e := |s| - |rest|;
    k + 4 < e <= |s| &&
    (forall j :: 0 <= j < k ==> u.isSpace(s[j])) &&
    (forall j :: k <= j < k + 4 ==> u.isDecimal(s[j])) &&
    (forall j :: k + 4 <= j < e ==> YearSeparator(u, s[j]))
  }

  /** The year prefix is cut whole: what remains is a suffix that does not begin with
      '.' or whitespace, and the cut part is whitespace, four digits and separators. */
  lemma YearPrefixCut(u: Ucd, s: string)
    ensures var r := DropYearPrefix(u, s);
      |r| <= |s| && r == s[|s| - |r|..]
    ensures var r := DropYearPrefix(u, s);
      r != s ==> (r == [] || !YearSeparator(u, r[0])) && exists k :: YearPrefixAt(u, s, k, r)
  {
    match YearPrefixEnd(u, s)
    case Some(e) =>
      var k := SkipSpaces(u, s, 0);
      assert e == SeparatorEnd(u, s, k + 4);
      SkipSpacesRun(u, s, 0);
      assert |s| - |s[e..]| == e;
      assert YearPrefixAt(u, s, k, s[e..]);
    case None =>
  }

  /** Every character `SkipSpaces` passes over is whitespace. */
  lemma {:induction false} SkipSpacesRun(u: Ucd, s: string, k: nat)
    requires k <= |s|
    ensures forall j :: k <= j < SkipSpaces(u, s, k) ==> u.isSpace(s[j])
    decreases |s| - k
  {
    if k < |s| && u.isSpace(s[k]) {
      SkipSpacesRun(u, s, k + 1);
    }
  }

  // ---------------------------------------------------------------------------
  // re.sub(r'(?i)\.?\s*arXiv.*$', '', title)
  // ---------------------------------------------------------------------------

  /** The first '\n' at or after `k`, or the end. */
  function LineEnd(s: string, k: nat): (r: nat)
    requires k <= |s|
    ensures k <= r <= |s|
    ensures forall j :: k <= j < r ==> s[j] != '\n'
    ensures r == |s| || s[r] == '\n'
    decreases |s| - k
  {
    if k < |s| && s[k] != '\n' then LineEnd(s, k + 1) else k
  }

  /** The end of an arXiv match at `i`: an optional '.', whitespace, "arxiv" in any case,
      then the rest of the line, which must reach the end of the title or stop at a
      final newline (`.` does not cross a newline and `$` matches only at the end or
      before a final newline). */
  function ArxivAt(u: Ucd, s: string, i: nat): (r: Option<nat>)
    requires i <= |s|
    ensures r.Some? ==> i + 5 <= r.value <= |s| && (r.value == |s| || r.value == |s| - 1)
    ensures r.Some? && r.value < |s| ==> s[r.value] == '\n'
  {
    var k := if i < |s| && s[i] == '.' then i + 1 else i;
    var j := SkipSpaces(u, s, k);
    if j + 5 <= |s| && MatchesIgnoringCase(s[j..j + 5], "arxiv") then
      var n := LineEnd(s, j + 5);
      if n == |s| || n == |s| - 1 then Some(n) else None
    else None
  }

  /** `re.sub` of the arXiv pattern from `i` on. */
  function CutArxivFrom(u: Ucd, s: string, i: nat): string
    requires i <= |s|
    decreases |s| - i
  {
    if i == |s| then []
    else
      match ArxivAt(u, s, i)
      case Some(e) => CutArxivFrom(u, s, e)
      case None => [s[i]] + CutArxivFrom(u, s, i + 1)
  }

  function CutArxiv(u: Ucd, s: string): string {
    CutArxivFrom(u, s, 0)
  }

  /** No arXiv match starts anywhere in `s[i..j]`. */
  predicate NoArxivBetween(u: Ucd, s: string, i: nat, j: nat)
    requires i <= j <= |s|
    decreases j - i
  {
    i == j || (ArxivAt(u, s, i).None? && NoArxivBetween(u, s, i + 1, j))
  }

  lemma {:induction false} NoArxivBetweenAll(u: Ucd, s: string, i: nat, j: nat)
    requires i <= j <= |s|
    requires forall k :: i <= k < j ==> ArxivAt(u, s, k).None?
    ensures NoArxivBetween(u, s, i, j)
    decreases j - i
  {
    if i < j {
      NoArxivBetweenAll(u, s, i + 1, j);
    }
  }

  /** Characters before the first match are kept. */
  lemma {:induction false} CutArxivKeepsPrefix(u: Ucd, s: string, i: nat, j: nat)
    requires i <= j <= |s|
    requires NoArxivBetween(u, s, i, j)
    ensures CutArxivFrom(u, s, i) == s[i..j] + CutArxivFrom(u, s, j)
    decreases j - i
  {
    if i < j {
      var rest := CutArxivFrom(u, s, j);
      CutArxivKeeps(u, s, i);
      CutArxivKeepsPrefix(u, s, i + 1, j);
      assert s[i..j] == [s[i]] + s[i + 1..j];
      assert s[i..j] + rest == [s[i]] + (s[i + 1..j] + rest);
    }
  }

  /** A character where no match starts is kept. */
  lemma CutArxivKeeps(u: Ucd, s: string, i: nat)
    requires i < |s| && ArxivAt(u, s, i).None?
    ensures CutArxivFrom(u, s, i) == [s[i]] + CutArxivFrom(u, s, i + 1)
  {
  }

  /** On a one-line title the tail from the first match on is removed and the rest is
      kept as it is; with no match the title is unchanged. */
  lemma CutArxivOneLine(u: Ucd, s: string, i: nat)
    requires i <= |s| && forall k :: 0 <= k < |s| ==> s[k] != '\n'
    requires forall k :: 0 <= k < i ==> ArxivAt(u, s, k).None?
    requires i == |s| || ArxivAt(u, s, i).Some?
    ensures CutArxiv(u, s) == s[..i]
  {
    NoArxivBetweenAll(u, s, 0, i);
    CutArxivKeepsPrefix(u, s, 0, i);
    if i < |s| {
      var e := ArxivAt(u, s, i).value;
      assert e == |s|;
    }
  }

  // ---------------------------------------------------------------------------
  // The record
  // ---------------------------------------------------------------------------

  /** `item.get(key)`: `None` for a missing key. */
  function Get(item: Record, key: string): Json {
    if key in item then item[key] else JNull
  }

  /** `item.get('text', '').strip()`: a text that is present but not a string (None, a
      number) has no `strip` and raises AttributeError. */
  function RawText(u: Ucd, item: Record): Result<string> {
    if "text" !in item then Ok("")
    else match item["text"]
      case JStr(s) => Ok(Strip(u, s))
      case _ => Raised(AttributeError)
  }

  /** The URL characters trimmed after the search: `strip(' .')`. */
  const UrlEdge: set<char> := {' ', '.'}

  /** A missing or falsy `url` is filled from the first URL in the raw text, if any. */
  function FillUrl(u: Ucd, item: Record, raw: string): (r: Record)
    ensures forall k :: k in item ==> k in r
    ensures forall k :: k in r ==> k in item || k == "url"
    ensures forall k :: k in item && k != "url" ==> r[k] == item[k]
    ensures Truthy(Get(item, "url")) ==> r == item
  {
    if Truthy(Get(item, "url")) then item else SetUrl(item, FindUrl(u, raw))
  }

  /** The URL found in the text, trimmed, becomes the `url` field. */
  function SetUrl(item: Record, found: Option<string>): (r: Record)
    ensures forall k :: k in item ==> k in r
    ensures forall k :: k in r ==> k in item || (k == "url" && found.Some?)
    ensures forall k :: k in item && k != "url" ==> r[k] == item[k]
  {
    match found
    case Some(m) => item["url" := JStr(StripChars(m, UrlEdge))]
    case None => item
  }

  /** The fields stripped of ' ,.;)]}>' when they are non-empty strings. */
  const Cleaned: seq<string> := ["doi", "url", "title", "date"]

  /** A non-empty string loses ' ,.;)]}>' at both ends; any other value stays. */
  function StrippedValue(v: Json): Json {
    if v.JStr? && v.s != [] then JStr(StripChars(v.s, Trailing)) else v
  }

  function StripField(item: Record, key: string): (r: Record)
    ensures r.Keys == item.Keys
    ensures forall k :: k in item && k != key ==> r[k] == item[k]
    ensures key in item ==> r[key] == StrippedValue(item[key])
  {
    if key in item && item[key].JStr? && item[key].s != [] then item[key := JStr(StripChars(item[key].s, Trailing))]
    else item
  }

  /** The loop over `keys`, in order. */
  function StripFields(item: Record, keys: seq<string>): (r: Record)
    ensures r.Keys == item.Keys
    ensures forall k :: k in item && k !in keys ==> r[k] == item[k]
  {
    if keys == [] then item
    else StripFields(StripField(item, keys[0]), keys[1..])
  }

  predicate Distinct(keys: seq<string>) {
    forall a, b :: 0 <= a < b < |keys| ==> keys[a] != keys[b]
  }

  /** Each listed key is stripped once, whatever the others are. */
  lemma {:induction false} StripFieldsValue(item: Record, keys: seq<string>, key: string)
    requires Distinct(keys) && key in item
    ensures StripFields(item, keys)[key] == if key in keys then StrippedValue(item[key]) else item[key]
  {
    if keys != [] {
      var next := StripField(item, keys[0]);
      assert Distinct(keys[1..]) by {
        forall a, b | 0 <= a < b < |keys[1..]| ensures keys[1..][a] != keys[1..][b] {
          assert keys[1..][a] == keys[a + 1] && keys[1..][b] == keys[b + 1];
        }
      }
      StripFieldsValue(next, keys[1..], key);
      if key == keys[0] {
        forall b | 0 <= b < |keys[1..]| ensures keys[1..][b] != key {
          assert keys[1..][b] == keys[b + 1];
        }
      } else {
        assert key in keys <==> key in keys[1..];
      }
    }
  }

  /** A non-empty title loses its year prefix, then its arXiv tail; a title that is
      truthy but not a string makes `re.sub` raise TypeError. */
  function FixTitle(u: Ucd, item: Record): (r: Result<Record>)
    ensures r.Raised? <==> "title" in item && Truthy(item["title"]) && !item["title"].JStr?
    ensures r.Ok? ==> r.value.Keys == item.Keys
    ensures r.Ok? ==> forall k :: k in item && k != "title" ==> r.value[k] == item[k]
  {
    var title := if "title" in item then item["title"] else JStr("");
    if !Truthy(title) then Ok(item)
    else match title
      case JStr(t) => Ok(item["title" := JStr(CutArxiv(u, DropYearPrefix(u, t)))])
      case _ => Raised(TypeError)
  }

  function Refined(u: Ucd, parsed: Record): Result<Record> {
    match RawText(u, parsed)
    case Raised(x) => Raised(x)
    case Ok(raw) => FixTitle(u, StripFields(FillUrl(u, parsed, raw), Cleaned))
  }

  /** The loop over doi, url, title and date. */
  method StripCleaned(item: Record) returns (r: Record)
    ensures r == StripFields(item, Cleaned)
  {
    r := item;
    for i := 0 to |Cleaned|
      invariant StripFields(r, Cleaned[i..]) == StripFields(item, Cleaned)
    {
      assert Cleaned[i..][1..] == Cleaned[i + 1..];
      var key := Cleaned[i];
      if key in r && r[key].JStr? && r[key].s != [] {
        r := r[key := JStr(StripChars(r[key].s, Trailing))];
      }
    }
  }

  /** `refine_parsed_data(parsed_item)`. */
  method RefineParsedData(u: Ucd, parsed: Record) returns (r: Result<Record>)
    ensures r == Refined(u, parsed)
  {
    var item := parsed;
    var raw := RawText(u, item);
    if raw.Raised? {
      return Raised(raw.error);
    }
    if !Truthy(Get(item, "url")) {
      var found := FindUrl(u, raw.value);
      if found.Some? {
        item := item["url" := JStr(StripChars(found.value, UrlEdge))];
      }
    }
    assert item == FillUrl(u, parsed, raw.value);
    item := StripCleaned(item);
    var title := if "title" in item then item["title"] else JStr("");
    if Truthy(title) {
      if !title.JStr? {
        return Raised(TypeError);
      }
      var t := DropYearPrefix(u, title.s);
      t := CutArxiv(u, t);
      item := item["title" := JStr(t)];
    }
    return Ok(item);
  }

  // ---------------------------------------------------------------------------
  // Properties
  // ---------------------------------------------------------------------------

  /** Refinement fails only on a `text` that is not a string, or a truthy `title` that
      is not a string. */
  lemma RefineFailsOnlyOnNonStrings(u: Ucd, parsed: Record)
    ensures Refined(u, parsed).Raised? <==>
      ("text" in parsed && !parsed["text"].JStr?) ||
      (RawText(u, parsed).Ok? && "title" in parsed && Truthy(parsed["title"]) && !parsed["title"].JStr?)
  {
    if RawText(u, parsed).Ok? {
      var raw := RawText(u, parsed).value;
      var f := FillUrl(u, parsed, raw);
      var g := StripFields(f, Cleaned);
      if "title" in parsed {
        CleanedDistinct();
        StripFieldsValue(f, Cleaned, "title");
      }
    }
  }

  lemma CleanedDistinct()
    ensures Distinct(Cleaned)
  {
    assert Cleaned[0] == "doi" && Cleaned[1] == "url" && Cleaned[2] == "title" && Cleaned[3] == "date";
  }

  /** Fields other than doi, url, title and date come through untouched, no field is
      dropped, and the only field that can appear is `url`. */
  lemma RefineKeepsOtherFields(u: Ucd, parsed: Record)
    requires Refined(u, parsed).Ok?
    ensures var r := Refined(u, parsed).value;
      && parsed.Keys <= r.Keys <= parsed.Keys + {"url"}
      && forall k :: k in parsed && k !in Cleaned ==> r[k] == parsed[k]
  {
  }

  /** A record that already has a URL keeps it (only stripped); the raw text is searched
      only when the URL is missing or empty, and then the first URL in it is taken. */
  lemma UrlFromTextOnlyWhenMissing(u: Ucd, parsed: Record)
    requires Refined(u, parsed).Ok?
    ensures var r := Refined(u, parsed).value;
      Truthy(Get(parsed, "url")) ==>
        r["url"] == if parsed["url"].JStr? then JStr(StripChars(parsed["url"].s, Trailing)) else parsed["url"]
    ensures var r := Refined(u, parsed).value; var found := FindUrl(u, RawText(u, parsed).value);
      !Truthy(Get(parsed, "url")) && found.Some? ==>
        r["url"] == JStr(StripChars(StripChars(found.value, UrlEdge), Trailing))
  {
    var raw := RawText(u, parsed).value;
    var f := FillUrl(u, parsed, raw);
    if "url" in f {
      CleanedDistinct();
      StripFieldsValue(f, Cleaned, "url");
    }
  }

  /** After refinement doi, url and date, when they are strings, are empty or neither
      begin nor end with one of ' ,.;)]}>'. */
  lemma StrippedFieldEnds(u: Ucd, parsed: Record, key: string)
    requires Refined(u, parsed).Ok?
    requires key == "doi" || key == "url" || key == "date"
    ensures var r := Refined(u, parsed).value;
      key in r && r[key].JStr? ==>
        r[key].s == [] || (r[key].s[0] !in Trailing && r[key].s[|r[key].s| - 1] !in Trailing)
  {
    var raw := RawText(u, parsed).value;
    var f := FillUrl(u, parsed, raw);
    var g := StripFields(f, Cleaned);
    assert Refined(u, parsed) == FixTitle(u, g);
    var r := Refined(u, parsed).value;
    if key in r {
      assert r[key] == g[key];
      CleanedDistinct();
      StripFieldsValue(f, Cleaned, key);
      assert g[key] == StrippedValue(f[key]);
      if f[key].JStr? && f[key].s != [] {
        StripCharsEnds(f[key].s, Trailing);
      }
    }
  }

  /** The title of a refined record is its stripped title without year prefix and
      arXiv tail. */
  lemma RefinedTitle(u: Ucd, parsed: Record)
    requires Refined(u, parsed).Ok? && "title" in parsed && parsed["title"].JStr? && parsed["title"].s != []
    ensures var t := StripChars(parsed["title"].s, Trailing);
      Refined(u, parsed).value["title"] == if t == [] then JStr([]) else JStr(CutArxiv(u, DropYearPrefix(u, t)))
  {
    var raw := RawText(u, parsed).value;
    var f := FillUrl(u, parsed, raw);
    CleanedDistinct();
    StripFieldsValue(f, Cleaned, "title");
  }
}
