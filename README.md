# Citation resolution core of fake_reference_check, in Dafny

fake_reference_check takes a pasted reference list and does two things. It splits the list
into structured records with the AnyStyle parser. It then checks each record against a
chain of bibliographic sources: a local CSV of known titles, Crossref by DOI, the
Crossref text search, Scopus, Google Scholar through SerpAPI, and finally the record's
own URL. A reference counts as real when one of them confirms it.

This project models the decision logic of that chain and proves properties of it:

- the title normaliser `clean_title`, and `clean_title_for_remedial`;
- the title matcher `_is_match`;
- the author matcher `_check_author_match`;
- the retry loop around each API call;
- the decision each verifier makes on a response it has already decoded;
- the record refinement `refine_parsed_data`;
- the local best-match scan `search_local_database`;
- the resolution chain `check_single_task`;
- the final ordering of a batch by id;
- the per-item cleaning loop of `parse_references_with_anystyle`.

The repository holds two copies of this code. `app.py` is the version the application
runs. `modules/` is an older split version. The copies differ, and each is modelled as
written:

- `app.py`'s `_is_match` lacks the guard that rejects titles which clean to nothing.
- `app.py`'s URL probe falls back from HEAD to GET.
- `app.py`'s Scholar search also needs the SerpAPI library. Its absence is modelled like
  a missing key.

Where the two copies agree, the model states them once and cites the `modules/` lines.
The author matcher, the retry loop and the Crossref and Scopus decisions of `app.py`
(`app.py:248-295`, `app.py:326-388`) are the same code as their `modules/` counterparts.

## Modules

| file | module | what it holds |
|---|---|---|
| `pytext.dfy` | `PyText` | The Python string operations the code relies on: `split`, `strip`, `split(sep)[0]`, `count`, `re.sub(r"\s+", " ", …)`, `\b`. Also `Result`, for the exceptions the code raises by accident. Also `Ucd`, the Unicode tables as parameters. |
| `parsers.dfy` | `Parsers` | `clean_title`, `clean_title_for_remedial` and `app.py`'s `clean_title`; decoded JSON and Python truthiness; the item-cleaning loop and the line loop of `parse_references_with_anystyle`. |
| `title_match.dfy` | `TitleMatch` | The two regexes of `remove_noise`, exact at the character level; the four acceptance rules; both copies of `_is_match`. |
| `author_match.dfy` | `AuthorMatch` | Query parsing, candidate parsing, the common-surname table and the candidate loop. |
| `retry.dfy` | `Retry` | `_call_external_api_with_retry` as a method over a sequence of network replies. |
| `verifiers.dfy` | `Verifiers` | The decisions of the Crossref DOI and text searches, Scopus, Semantic Scholar and OpenAlex; the URL probe. |
| `scholar.dfy` | `Scholar` | The et-al cleaning of the author hint, `_do_search`, the three Scholar tiers and the reference-text fallback. |
| `refine.dfy` | `Refine` | `refine_parsed_data`: the URL regex, the field stripping, the year-prefix and arXiv-tail regexes. |
| `app.dfy` | `App` | `search_local_database`, `check_single_task` with the verifiers as parameters, and the sort of the batch by id. |

## What is a parameter

- **Unicode tables.** The record `PyText.Ucd` stands for the library functions that
  depend on the Unicode tables:
  - `unicodedata.normalize("NFKC", …)`;
  - the first letter of `unicodedata.category`;
  - `lower` per character and per string;
  - `str.isspace` and the regex classes `\s`, `\d` and `\w`.

  The predicate `PyText.AsciiExact` pins these to CPython's behaviour on ASCII.
  Properties that need concrete behaviour assume it.
- **difflib.** `SequenceMatcher` enters as the total size `m(a, b)` of its matching
  blocks. `ratio()` is then `2m/(|a|+|b|)`, and 1.0 for two empty strings.
  `TitleMatch.ValidMatcher` holds what any such count satisfies: it is at most either
  length, and `m(a, a) == |a|`. The float tests are exact integer cross-multiplications:
  - `ratio >= 0.65` is `40m >= 13(|a|+|b|)`;
  - `len(q) > len(r) * 1.5` is `2|q| > 3|r|`;
  - `len(q) > len(r) * 0.3` is `10|q| > 3|r|`.
- **Network, subprocess and SerpAPI.** Network replies are inputs:
  - `Retry.Reply` is an exception, or a status code with a body that decodes or does
    not.
  - Response bodies are typed records holding the fields the code reads.
  - The SerpAPI search, the AnyStyle subprocess, `json.loads`, `str()` of a JSON value
    and the HEAD/GET probes are function-valued parameters.
- **Verifiers seen by the chain.** `check_single_task` receives the verifiers as the
  fields of `App.Services`. The chain is proved for any verifiers. The Crossref and
  Scopus verifiers return a URL or an exception, which the chain passes on; the Scholar
  searches catch their own exceptions and only return a URL.

## Model

| member | source | states |
|---|---|---|
| PyText.CollapseStripIsJoin | modules/parsers.py:195 | `re.sub(r"\s+", " ", s).strip()` equals `" ".join(s.split())`, the form `remove_noise` produces |
| PyText.SplitJoinRoundTrip | modules/api_clients.py:132-148 | splitting words joined by single spaces gives the same words back, so the word sets of `_is_match` are the words `remove_noise` kept |
| PyText.SplitWsEmpty | modules/api_clients.py:62-65 | `s.split()` is empty exactly when `s` is all whitespace |
| PyText.StripCharsEnds | modules/api_clients.py:185 | neither end of `s.strip(chars)` is one of `chars` |
| Parsers.DeleteEachIsWithout | modules/parsers.py:187-189 | deleting the dashes one after the other removes exactly the listed characters; the repeated hyphen-minus adds nothing |
| Parsers.AppCleanTitleIsCleanTitle | app.py:101-111 | `app.py`'s `clean_title`, with its five-entry dash list, equals the `modules/parsers.py` one on every input |
| Parsers.CleanTitleShape | modules/parsers.py:183-195 | the output has no whitespace at either end, no two whitespace characters in a row, and only plain spaces as whitespace |
| Parsers.CleanTitleForRemedialShape | modules/parsers.py:197-210 | the remedial normaliser has the same shape |
| Parsers.CleanTitleChars | modules/parsers.py:186-194 | every output character is a space, or comes from lower-casing an NFKC character that is not a dash and whose category starts with L, N or Z |
| Parsers.CleanTitleNoPunctuation | modules/parsers.py:190-194 | no punctuation, symbol or control character survives (given that lower-casing keeps the major class of L, N and Z characters) |
| Parsers.CleanTitleOfCanonical | modules/parsers.py:183-195 | applied to canonical text whose characters are their own NFKC form and lower case, the normaliser changes nothing |
| Parsers.CleanTitleIdempotentOnAscii | modules/parsers.py:183-195 | on ASCII input, `clean_title(clean_title(x)) == clean_title(x)` |
| Parsers.CleanTitleNotIdempotent | modules/parsers.py:190-195 | with CPython's tables for U+0130 it is not idempotent: "İ" gives "i" plus a combining dot, and a second pass drops the mark |
| Parsers.DashJoinsWords | modules/parsers.py:187-189 | a dash is deleted, not replaced by a space: `a-b` and `ab` normalise alike on ASCII |
| Parsers.DigitRunEnd | modules/parsers.py:204 | the greedy `\d+` at a position ends at the end of the digit run |
| Parsers.BoundaryAtOrBefore | modules/parsers.py:204 | backtracking of `\d+\b`: the largest end at a word boundary, and none after it up to the run's end |
| Parsers.StandaloneDigitsAt | modules/parsers.py:204 | a match of `\b\d+\b` covers only decimal digits |
| Parsers.DeleteStandaloneDigitsOnlyDigits | modules/parsers.py:204 | `re.sub(r"\b\d+\b", "", s)` never deletes a character that is not a decimal digit |
| Parsers.DeleteStandaloneDigitsDeletesIsolatedRuns | modules/parsers.py:204 | when no run of digits touches a word character, every decimal digit is deleted and the rest is kept in order |
| Parsers.DeleteStandaloneDigitsKeepsAttachedRuns | modules/parsers.py:204 | when every run of digits touches a word character at one end, nothing is deleted |
| Parsers.CovidNineteenKept | modules/parsers.py:204 | with CPython's tables, "covid19" keeps its digits |
| Parsers.CovidSpaceNineteenDropped | modules/parsers.py:204 | with CPython's tables, "covid 19" becomes "covid " |
| Parsers.RemedialWithoutDigits | modules/parsers.py:197-210 | without decimal digits the remedial normaliser equals `clean_title` |
| Parsers.LastValue | modules/parsers.py:131-135 | `dict.get` on what `json.loads` built: present exactly when some member has the key, and then the last member with it wins |
| Parsers.DictKeys | modules/parsers.py:135 | the keys of that dict, each once, exactly those of the members |
| Parsers.DictItems | modules/parsers.py:135 | `item.items()`: one pair per key, holding the value `get` returns |
| Parsers.JoinAuthors | modules/parsers.py:137-145 | the author loop succeeds exactly when every entry renders, and returns the entries' texts joined by ", " |
| Parsers.NormalizeItem | modules/parsers.py:133-152 | the loop building `cleaned_item` computes the cleaned record of the item |
| Parsers.CleanAllSucceeds | modules/parsers.py:134-149 | the record is built exactly when no member raises |
| Parsers.CleanAllLastWrite | modules/parsers.py:134-149 | each cleaned member lands under its field name unless a later member writes the same name |
| Parsers.CleanAllFieldOrigin | modules/parsers.py:134-149 | every field of the record is written by some member |
| Parsers.CleanItemText | modules/parsers.py:151-152 | an item becomes a record exactly when no member raises; the record has "text", which is the input line when the item had none |
| Parsers.CleanItemKeepsScalar | modules/parsers.py:148-149 | a member that is not a list keeps its value under its own name (unless it is "authors", which an author list may overwrite) |
| Parsers.CleanItemAuthors | modules/parsers.py:136-145 | an `author` list becomes `authors`, the ", "-joined author texts, when the item has no `authors` member |
| Parsers.AuthorTextOfObject | modules/parsers.py:139-141 | an author object reads "given family"; an empty given name is left out |
| Parsers.AuthorTextFamilyOnly | modules/parsers.py:139-141 | an author object without a given name reads as its family name |
| Parsers.FirstIndexOf | modules/parsers.py:126-129 | the first occurrence of a character, or none |
| Parsers.LastIndexOf | modules/parsers.py:126-129 | the last occurrence of a character, or none |
| Parsers.JsonSpan | modules/parsers.py:123-129 | the JSON text is the stripped output, or the span from its first "[" to its last "]" |
| Parsers.ParseItems | modules/parsers.py:133-155 | the loop over decoded items keeps the records of the items before the first one that raises |
| Parsers.ItemsRecordsHaveText | modules/parsers.py:151-155 | every record of a line has a "text" field |
| Parsers.BlankInputHasNoLines | modules/parsers.py:71-77 | empty or blank input yields no lines |
| Parsers.ParseLine | modules/parsers.py:85-155 | one line runs the parser (with the custom model for a line holding a CJK ideograph), then extraction, decoding and the item loop; every record has "text" |
| Parsers.ParseLines | modules/parsers.py:85-176 | the line loop returns all records in order, with the parallel list of raw texts of equal length holding each record's "text" |
| Parsers.ParseReferences | modules/parsers.py:67-176 | `parse_references_with_anystyle` over the stripped non-blank lines of the input |
| TitleMatch.AlternativeAt | modules/api_clients.py:130 | the alternation tries its words in order; a match has the length of one of them |
| TitleMatch.MatchAt | modules/api_clients.py:128-130 | a match of either pattern fits within the text |
| TitleMatch.SubAll | modules/api_clients.py:128-130 | `re.sub` never lengthens the text |
| TitleMatch.SubAllIsDropWords | modules/api_clients.py:128-130 | on cleaned text each `re.sub` deletes whole space-separated words and copies everything else |
| TitleMatch.DropWordsSplit | modules/api_clients.py:132 | the words left after whole-word deletion are the words the pattern keeps |
| TitleMatch.RemoveNoiseDropsWords | modules/api_clients.py:126-132 | on cleaned text `remove_noise` keeps the words that are neither a year 1900-2099 nor arxiv, biorxiv, available, online or access (in any case), joined by single spaces |
| TitleMatch.RemoveNoiseOnAscii | modules/api_clients.py:126-132 | the same for every ASCII title after `clean_title` |
| TitleMatch.DecideReflexive | modules/api_clients.py:143-144 | two equal noise-free titles match, because their ratio is 1 |
| TitleMatch.IsMatchReflexive | modules/api_clients.py:118-144 | a title that cleans to something matches itself |
| TitleMatch.IsMatchGuard | modules/api_clients.py:119-122 | nothing matches an empty title or one that cleans to nothing; otherwise the four rules decide on the noise-free clean titles |
| TitleMatch.DecideEmptyResult | modules/api_clients.py:139-144 | an empty noise-free result is accepted against every query |
| TitleMatch.NoiseOnlyResultMatches | modules/api_clients.py:134-140 | a candidate whose clean title is all noise matches every query that cleans to something |
| TitleMatch.NoiseTitleMatchesEverything | modules/api_clients.py:118-140 | so an ASCII candidate such as "Available online" or "arXiv 2021" matches every query |
| TitleMatch.WordRules | modules/api_clients.py:147-166 | a query of at least five distinct words missing at most one important word matches, and so does one missing none that is not much shorter |
| TitleMatch.IsMatchAppAgrees | app.py:297-324 | where the guard does not fire, the two copies of `_is_match` agree |
| TitleMatch.GuardMissingInApp | app.py:297-314 | two non-empty titles that both clean to nothing match in `app.py` but not in `modules/api_clients.py` |
| TitleMatch.DashAndBangCleanToNothing | modules/parsers.py:183-195 | "-" and "!" both clean to "" |
| TitleMatch.DashMatchesBangInApp | app.py:297-314 | so `app.py` matches "-" against "!", and `modules/api_clients.py` does not |
| AuthorMatch.ParseQueryFails | modules/api_clients.py:55-67 | parsing the query raises exactly when it has no comma and is all whitespace |
| AuthorMatch.CommaFamily | modules/api_clients.py:55-60 | in the comma form the family is the stripped text before the first comma |
| AuthorMatch.GetOr | modules/api_clients.py:83-84 | `get(k1) or get(k2) or ''` is truthy or "" |
| AuthorMatch.ParseCandidate | modules/api_clients.py:79-96 | only a non-object candidate can raise |
| AuthorMatch.FirstTrue | modules/api_clients.py:76-113 | the loop returns True only for an accepted candidate, and raises only at a candidate that raises |
| AuthorMatch.CheckAuthorMatch | modules/api_clients.py:37-113 | a missing or one-character query accepts; otherwise True means some candidate is accepted; an empty list is never True |
| AuthorMatch.FirstTrueIsExists | modules/api_clients.py:76-113 | without an exception, the loop answers whether some candidate is accepted |
| AuthorMatch.FirstTrueStops | modules/api_clients.py:99-110 | the loop stops at the first acceptance and never looks at what follows |
| AuthorMatch.ScanIsExists | modules/api_clients.py:76-113 | when every candidate parses, the result is whether some candidate is accepted |
| AuthorMatch.ScanOrderIrrelevant | modules/api_clients.py:76-113 | when every candidate parses, the order of the candidates does not matter |
| AuthorMatch.ScanStopsAtFirst | modules/api_clients.py:99-110 | an accepted candidate after rejected ones gives True, whatever follows it |
| AuthorMatch.NameOnlyObjectNeverMatches | modules/api_clients.py:82-86 | an author object with only a `name` (Semantic Scholar's shape) has an empty family and full name, so it never matches a non-empty family |
| AuthorMatch.NameOnlyListNeverMatches | modules/api_clients.py:76-113 | a list of such objects is always rejected |
| AuthorMatch.CommonSurnameRule | modules/api_clients.py:70-110 | a common surname with two known, differing initials is rejected whatever else agrees; an uncommon one needs only the family name |
| AuthorMatch.BlankQueryRaises | modules/api_clients.py:62-65 | a query of two or more characters that lower-cases to whitespace raises IndexError |
| AuthorMatch.BlankAsciiQueryRaises | modules/api_clients.py:62-65 | the same for ASCII whitespace with CPython's tables |
| AuthorMatch.ZhangAgainstLZhang | modules/api_clients.py:37-113 | "zhang, i." against ["L. Zhang"] is True exactly when the initial is "l" |
| AuthorMatch.ZhangXIsNotLZhang | modules/api_clients.py:37-113 | "Zhang, X." against ["L. Zhang"] is False |
| AuthorMatch.ZhangLIsLZhang | modules/api_clients.py:37-113 | "Zhang, L." against ["L. Zhang"] is True |
| Retry.CallWithRetry | modules/api_clients.py:171-179 | the attempt loop returns what the attempt function says |
| Retry.AttemptsFromFirstFinal | modules/api_clients.py:173-179 | at most MAX_RETRIES requests; stops at the first 200 with a body (data, "OK") or 401/403 ("Auth Error (code)"); "Error" after all attempts when no reply was final |
| Retry.DataOnlyWhenOk | modules/api_clients.py:176-179 | data comes back exactly with "OK" |
| Retry.FirstSuccessStops | modules/api_clients.py:176 | a success on the first request returns at once |
| Retry.AuthErrorIsNotRetried | modules/api_clients.py:177 | a 401/403 on the first request is not retried |
| Retry.FailuresExhaustAttempts | modules/api_clients.py:173-179 | a network that keeps failing costs exactly MAX_RETRIES requests and gives "Error" |
| Retry.OnlyFirstAttemptsMatter | modules/api_clients.py:173 | replies after the last attempt change nothing |
| Verifiers.CrossrefByDoi | modules/api_clients.py:183-199 | a URL is returned only with status "OK" |
| Verifiers.DoiLink | modules/api_clients.py:183-199 | a link exactly when the DOI is given, the answer is 200 and readable, and no title is expected or the first title matches; it is the work's URL or `https://doi.org/` plus the DOI stripped of ' ,.;)]}>' |
| Verifiers.FirstAcceptedIsFirst | modules/api_clients.py:210-222 | the item scan answers with the first item that is not rejected, or none when all are |
| Verifiers.FirstAcceptedAt | modules/api_clients.py:210-222 | conversely, the first item that is not rejected decides the scan |
| Verifiers.CrossrefByText | modules/api_clients.py:201-223 | the request with retry, then the item loop, computes the text-search answer |
| Verifiers.CrossrefTextConfirms | modules/api_clients.py:209-222 | the search confirms exactly when the first item that is not rejected passes both the title and the author check |
| Verifiers.SkipsAuthorMismatch | modules/api_clients.py:215-220 | an item whose title matches but whose authors do not is skipped |
| Verifiers.EmptyTitleListRaises | modules/api_clients.py:211 | an item with an empty title list raises IndexError |
| Verifiers.CrossrefByDoiValue | modules/api_clients.py:183-185 | a record's `doi` value raises AttributeError exactly when it is truthy and not a string; a link comes only from a string DOI |
| Verifiers.ScopusByTitle | modules/api_clients.py:227-258 | a link exactly with a key, "OK", a first entry that is not an error, a matching title and a creator that passes the author check; the link is the entry's `prism:url`, else `https://www.scopus.com`; the author check's exception, exactly when it raises, escapes |
| Verifiers.ScopusReadsFirstEntry | modules/api_clients.py:239-243 | entries after the first never change the answer |
| Verifiers.ScopusNeedsKey | modules/api_clients.py:231 | without a key nothing is found |
| Verifiers.S2NeverConfirmsNamedAuthor | modules/api_clients.py:357-373 | with a query author that has a family name, Semantic Scholar never confirms a paper whose authors carry only `name` |
| Verifiers.DisplayNames | modules/api_clients.py:383-386 | the collected names are strings, at most one per authorship |
| Verifiers.CollectAuthors | modules/api_clients.py:383-386 | the loop appending to `res_authors` collects the display names |
| Verifiers.DisplayNamesMembers | modules/api_clients.py:383-386 | a name is collected exactly when some authorship has that author |
| Verifiers.OpenAlex | modules/api_clients.py:375-397 | a URL is returned only with "OK" and is never empty |
| Verifiers.OpenAlexPrefersDoi | modules/api_clients.py:388-392 | the link is the DOI when there is one, else the OpenAlex id |
| Verifiers.IneligibleNeverReachable | modules/api_clients.py:399-405 | a URL not starting with "http" or with fewer than three '/' is never judged reachable, by either copy |
| Verifiers.AppProbeIsWeaker | app.py:445-486 | `app.py` accepts every URL the `modules/` probe accepts, and more only through the GET fallback after HEAD answered outside 200-399 |
| Verifiers.BareHostIsNotProbed | modules/api_clients.py:403-405 | `http(s)://host` is never probed |
| Scholar.EtAlEnd | modules/api_clients.py:311 | a match of the et-al pattern spans at least four characters |
| Scholar.DropEtAlKeepsPlainText | modules/api_clients.py:311 | deleting matches never lengthens the text, and text without 'e'/'E' is unchanged |
| Scholar.DropEtAlKeepsUnmatched | modules/api_clients.py:311 | where the pattern matches nowhere, nothing is deleted |
| Scholar.EtAlSuffixMatch | modules/api_clients.py:311 | "Name et al." loses " et al." and keeps the space before it |
| Scholar.AuthorHintShape | modules/api_clients.py:308-315 | a hint has more than one character and neither end is one of ' .,;()[]' |
| Scholar.EtAlSuffixDropped | modules/api_clients.py:308-315 | "Smith et al." gives the hint "Smith" |
| Scholar.PlainWordKept | modules/api_clients.py:308-315 | a plain word such as "Metalla" is its own hint |
| Scholar.StrippedNames | modules/api_clients.py:286-287 | the authors of a hit are the stripped comma-separated parts of its summary |
| Scholar.DoSearchLoop | modules/api_clients.py:272-303 | the hit loop returns `_do_search`'s answer |
| Scholar.DoSearchReports | modules/api_clients.py:292-301 | a link comes back exactly when a hit is found in that tier; a hit without a link gives the citation-only marker |
| Scholar.SearchHitPassedChecks | modules/api_clients.py:278-290 | the hit returned is the first one whose title matches and, when an author is required, whose summary authors match |
| Scholar.SearchScholar | modules/api_clients.py:263-339 | the tier sequence computes the Scholar answer |
| Scholar.TiersInOrder | modules/api_clients.py:317-339 | the tiers run in order and each answers only when the earlier ones that ran found nothing; title+author needs a hint, raw text needs more than ten characters |
| Scholar.ScholarByRefText | modules/api_clients.py:341-353 | a link is returned only as "similar" |
| Scholar.RefTextAcceptsFirstOnly | modules/api_clients.py:341-353 | the fallback accepts its first result exactly when no title is expected or the result's title matches; the link is that result's |
| Refine.FindUrl | app.py:503 | `re.search(r'(https?://[^\s]+)')` finds a URL exactly when one matches somewhere, and returns the one at the first such position |
| Refine.YearPrefixEnd | app.py:513 | a year prefix spans at least five characters |
| Refine.YearPrefixCut | app.py:513 | the year prefix is cut whole: whitespace, four digits and separators, leaving a rest that does not start with '.' or whitespace |
| Refine.ArxivAt | app.py:514 | an arXiv match runs to the end of the title, or to a final newline |
| Refine.CutArxivOneLine | app.py:514 | on a one-line title, the tail from the first arXiv match is removed and the rest kept |
| Refine.FillUrl | app.py:502-504 | a record with a truthy `url` is unchanged; otherwise only `url` can be added |
| Refine.SetUrl | app.py:503-504 | only `url` changes, and only when a URL was found |
| Refine.StripField | app.py:506-508 | one field is stripped of ' ,.;)]}>' when it is a non-empty string; nothing else changes |
| Refine.StripFields | app.py:506-508 | the loop changes only the listed keys and keeps the key set |
| Refine.StripFieldsValue | app.py:506-508 | each listed key is stripped once, whatever the others are |
| Refine.StripCleaned | app.py:506-508 | the loop over doi, url, title and date |
| Refine.FixTitle | app.py:510-514 | it raises exactly on a truthy non-string title, and otherwise changes only the title |
| Refine.RefineParsedData | app.py:498-516 | the whole refinement computes the refined record |
| Refine.RefineFailsOnlyOnNonStrings | app.py:498-516 | refinement raises exactly on a non-string `text` or a truthy non-string `title` |
| Refine.RefineKeepsOtherFields | app.py:498-516 | no field is dropped, only `url` can appear, and fields other than doi, url, title and date are untouched |
| Refine.UrlFromTextOnlyWhenMissing | app.py:502-504 | an existing URL is kept (only stripped); the raw text is searched only when it is missing or empty |
| Refine.StrippedFieldEnds | app.py:506-508 | after refinement doi, url and date, when they are strings, are empty or free of ' ,.;)]}>' at both ends |
| Refine.RefinedTitle | app.py:506-514 | the refined title is the stripped title without year prefix and arXiv tail |
| App.Ratio | app.py:218 | the ratio is never negative |
| App.Score | app.py:215-218 | a score is never negative |
| App.LocalSearch | app.py:201-226 | (None, None) without a frame, a column or a query; a returned row comes with a score at least the threshold |
| App.SearchLocalDatabase | app.py:201-226 | the loop keeping `best_score` and `best_match_row` computes the local-search answer |
| App.ScanRaisesOnMissingColumn | app.py:210-211 | the scan raises exactly when some row lacks the column |
| App.ScanRaisesKeyError | app.py:211 | and then with KeyError |
| App.ScanKeepsFirstBest | app.py:210-222 | no row exceeds the best score; the first row reaching it is kept (strict `>`) |
| App.ScanFromStart | app.py:206-222 | from 0 and None, a row is kept exactly when some row scores above 0, and it is the first highest |
| App.ScanVerdict | app.py:206-226 | the answer after the loop is the first highest row when it beats 0 and reaches the threshold |
| App.LocalSearchFindsFirstBest | app.py:201-226 | a row comes back exactly when some row scores above 0 and at least the threshold, and it is then the first row with the highest score |
| App.MissingColumnRaises | app.py:210-211 | a missing title column raises KeyError as soon as there is a row |
| App.SameTitleScoresOne | app.py:215-216 | equal clean titles score 1.0 |
| App.ScoreAtMostOne | app.py:215-218 | with a real matching-block count no score exceeds 1.0 |
| App.SearchQuery | app.py:521 | the query is the title when it is longer than 8 characters, else the first 120 characters of the text |
| App.FirstAuthorShape | app.py:525-526 | the first author is a run of the authors field with no ';' or ',' and no whitespace at either end; a single name is just stripped |
| App.CheckTask | app.py:518-582 | the result carries the task's id and the refined record |
| App.CheckSingleTask | app.py:518-582 | `check_single_task` computes the task result, or the exception a refinement step, the author split or a verifier raised |
| App.RunStages | app.py:538-582 | the stages, each returning at its first success and passing on any exception a verifier raises, compute the chain's outcome |
| App.DirectLinkFacts | app.py:575-580 | stage 6 runs only on a URL starting with "http" and then always reports, as "6. Website" exactly when the probe accepts the URL |
| App.FromScholarFacts | app.py:564-573 | a Scholar hit is reported with its step name; otherwise stage 6 decides, with the reference-text suggestion |
| App.FromCrossrefFacts | app.py:545-562 | DOI, text search, Scopus: the first link found is reported, and earlier stages found nothing |
| App.ChainFacts | app.py:538-543 | stage 0 reports only with a Han character in the query, a frame and a title |
| App.ChainGuards | app.py:539-565 | each stage reports only when it ran: local needs CJK, a frame and a title; DOI a DOI; Scopus and Scholar their keys |
| App.ChainPriority | app.py:538-582 | strict priority: the reported link is the reporting stage's, and every earlier stage that ran found nothing; the text search runs whenever nothing earlier succeeded |
| App.SuggestionOnlyAfterScholarFails | app.py:564-573 | a suggestion only with a SerpAPI key after the Scholar title search found no link; the reference is then reported by stage 6 or not at all |
| App.DirectLinkVerdict | app.py:575-580 | "6. Website" only for a URL the probe accepts, hence with at least three '/'; "6. Website (Failed)" otherwise |
| App.CrossrefStages | app.py:544-582 | DOI, text search and Scopus, each ending with its link or its exception, then Scholar and stage 6, compute the outcome after stage 0 |
| App.ScholarStages | app.py:564-582 | Scholar with its fallback suggestion, then the direct link, compute the last stages' outcome |
| App.VerifierExceptionEndsChain | app.py:545-562 | once stage 0 lets the reference through, the first Crossref or Scopus verifier that raises ends the chain with its exception |
| App.ChainRaisesOnlyFrom | app.py:538-582 | the chain raises only from the local search, a Crossref or Scopus verifier, or a truthy URL that is not a string |
| App.VerifierExceptionEndsTask | app.py:518-562 | a verifier exception is not caught in `check_single_task`: the task raises instead of producing a result |
| App.TaskReport | app.py:538-582 | `sources` has at most one entry, empty exactly when `found_at_step` is None; the step is one of the fixed labels; a suggestion comes only with a "6." label or none |
| App.InsertBy | app.py:641 | insertion adds exactly the element |
| App.SortBy | app.py:641 | `sorted` returns the same elements |
| App.SortBySorted | app.py:641 | the result is ordered by the key and is a permutation of the input |
| App.SortedPermutationIsUnique | app.py:641 | a sorted permutation of a sequence with strictly increasing keys is that sequence |
| App.BatchInSubmissionOrder | app.py:629-641 | results with ids 1..N, collected in any completion order, sort back into submission order |

## Left out

- The Streamlit interface and the installation of AnyStyle are not modelled
  (`app.py:38-99`, `app.py:588-690`). This covers the sidebar, progress bars, result
  display, CSV export and the "verified" count. As written, `app.py:671-672` is not even
  well indented.
- Loading key files and `st.secrets`, and loading the CSV with pandas, are configuration
  I/O. A missing key is `""`; a frame is a sequence of rows mapping column names to
  `str()` of the cell.
- HTTP, SerpAPI, TLS and timeouts are not modelled. Responses are typed, already-decoded
  inputs. A body whose JSON shape differs from the one the code reads is not modelled.
- `check_url_availability` beyond its filter is not modelled. The HEAD and GET probes
  are parameters that give the final status code or an exception.
- The AnyStyle subprocess, the temporary file and the custom model's presence are not
  modelled. They are the parameters of `Parsers.AnyStyle`.
- `app.py`'s own `parse_references_with_anystyle` (`app.py:113-185`) is not modelled. It
  adds `authors` to the dict it is iterating over, so an item with an author list raises
  at that point. Only the `modules/parsers.py` loop is modelled.
- `format_name_field`, `get_anystyle_path` and `load_csv_data` are not modelled. They are
  unused or I/O.
- Thread-pool scheduling (`ThreadPoolExecutor`, `as_completed`) is not modelled. The
  collected buffer is any permutation of the results; only the sort is modelled.
- The internals of NFKC, `unicodedata.category`, `lower` and difflib are parameters. See
  "What is a parameter".
- App.Ratio, App.Score: scores are exact rationals, not floats. Python's float rounding
  at the 0.65 and threshold comparisons is not modelled.
- App.CheckTask: the verifiers inside the chain are arbitrary functions in `App.Services`
  rather than the `Verifiers` and `Scholar` definitions. The chain's properties hold for
  any verifiers, including ones that raise. That a particular input makes a particular
  verifier raise is proved in `Verifiers` (Verifiers.EmptyTitleListRaises,
  Verifiers.ScopusByTitle, Verifiers.CrossrefByDoiValue), not for the chain.
- The verifiers' diagnostic status strings are enumerations. The truncated titles they
  print (`res_title[:40]`) are not modelled.
- Exceptions in the verifiers are modelled where the code raises by accident:
  - IndexError from a Crossref item with an empty title list;
  - IndexError from an all-whitespace author query or candidate, such as a Scopus
    `dc:creator` made of whitespace that includes a space;
  - AttributeError from a truthy DOI that is not a string;
  - AttributeError from a non-string `text`, `authors` or URL;
  - TypeError from a non-string title in `re.sub`;
  - KeyError from a missing title column.

  Exceptions of the HTTP library itself are not modelled.
- Parsers.ParseLines: a line whose parser run or decoding fails contributes no records.
  This is the `except` of `modules/parsers.py:157`, which reports the error and goes on;
  the error message is not modelled.

## Where the code and the design disagree

The model follows the code in each case.

- **Idempotence.** The design calls `clean_title` idempotent for all inputs. It is not:
  see Parsers.CleanTitleNotIdempotent. It is idempotent on ASCII: see
  Parsers.CleanTitleIdempotentOnAscii.
- **Dashes.** The design calls the matcher tolerant of dashes. A dash is deleted, not
  replaced by a space, so "Deep-Learning" cleans to "deeplearning" (Parsers.DashJoinsWords).
  "Deep Learning" keeps its space, and the two titles can match only through the ratio
  rule.
- **Batch failures.** The design says no failure of a record aborts the batch. In the code,
  an exception inside `check_single_task` reaches `future.result()` (`app.py:637`). It
  ends the batch there. The model returns it from App.CheckTask as `Raised`; see
  App.VerifierExceptionEndsTask for the verifiers.
- **Direct link probe.** The design falls back to GET when HEAD fails. In `app.py`, GET is
  tried only when HEAD answers with a code outside 200-399. When HEAD raises, the URL is
  judged unreachable.
- **Records without a title.** The design says the database tiers skip a record with no
  title. The code still searches Crossref (and Scopus and Scholar, with keys) with the
  first 120 characters of the text.
- **Suggestions.** The design attaches a suggestion whenever the web search yields an
  unconfirmed candidate. The code fetches one only with a SerpAPI key after the Scholar
  title search found nothing. It takes the first result of a search for the whole
  reference text, accepted when its title matches.

## Findings

| source | as written | input that shows it | evidently intended | confidence | as-written member | corrected member |
|---|---|---|---|---|---|---|
| app.py:297-314 | `_is_match` rejects only empty inputs, then compares the noise-free clean titles, so two titles that both clean to "" have ratio 1.0 and match | `_is_match("-", "!")` is True | the guard of modules/api_clients.py:122: a title that cleans to nothing matches nothing | medium, not executed | TitleMatch.DashMatchesBangInApp | TitleMatch.IsMatchGuard |
