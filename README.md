# ss_scholar in Dafny

This project models `ss_scholar.py`. The script queries Google Scholar and
Semantic Scholar for a topic and turns the result pages into
`ScholarArticle` records. It then compares the first eight titles that
Google Scholar, Semantic Scholar, Microsoft Academic and Scopus return. Each
pair, each triple and the four-way combination gets a Jaccard score. Scores
are summed over the topics and averaged.

The model follows the program's classes, one module each:

- **Wrappers**: `Option`, `Result` and `Outcome` (success, or the exception raised).
- **PyStr**, **PyInt**: the Python string operations the code relies on.
  - PyStr covers `split`, `split()`, `strip`, `join`, `find`, `replace` of one character, `startswith` and `endswith`.
  - PyInt covers `int()` on text and `str()` on an int.
- **Percent**: `urllib.parse.quote` of Python 3.7 and later, with its default `safe='/'`.
  - The text is encoded as UTF-8 (RFC 3629).
  - Unreserved characters (RFC 3986, section 2.3) and `/` are kept.
  - Every other octet is percent-encoded (RFC 3986, section 2.1).
  - A decoder is proved to invert the encoder.
- **Values**: the dynamic values that attribute dictionaries and setters hold (`None`, `int`, `str`).
  - Also Python truthiness, `str()`, the exceptions raised, and `ScholarUtils.ensure_int`.
- **Article**: `ScholarArticle`, an insertion-ordered dictionary from key to (value, label, order).
  - Held as a class whose `attrs` field is a sequence of entries.
  - Includes `as_csv` (a stable sort by order index) and `as_citation`.
- **Links**: the string helpers of `ScholarArticleParser`.
  - Helpers: `_path2url`, `_strip_url_arg`, `_tag_has_class` and `_as_int`.
  - Link rules of `_parse_links`: the citation count, versions count, cluster id and citation-export link.
  - Result-count rule of `_parse_globals`.
- **Query**: `ScholarQuery` and `SearchScholarQuery`.
  - The attribute table and `_parenthesize_phrases`.
  - The setters.
  - `get_url`: the under-constrained check, the per-backend argument dictionaries, the in-place encoding loop and the URL templates.
- **Settings**: `ScholarSettings`.
- **Parser**: `ScholarArticleParser120726`.
  - Each Google Scholar or Semantic Scholar result becomes an article.
  - The article is cleaned.
  - Articles with a title are handed on.
- **Querier**: `ScholarQuerier`.
  - `apply_settings`, `send_query`, `get_citation_data`, `parse`, `add_article` and `clear_articles`.
- **Scoring**: the overlap scoring at the end of `main`.
  - Title gathering and the `check` flag.
  - Truncation to eight titles.
  - The eleven-step `continue` cascade, the shared counter `cnt`, and the final averages.

Where the code works step by step, the model does too:

- The article, query, settings, parser and querier are classes whose methods update their fields.
- Loops are `while`/`for` loops with invariants.

Each method is proved equal to a function of its inputs and old state. The
lemmas then state what the program promises about those functions:

- round trips;
- what a setter changes and what it leaves alone;
- idempotence;
- which articles are handed on;
- bounds on the scores and averages.

The network is a function parameter `fetch` from a URL to the response text,
`None` when the request fails. HTML is represented by records of what the
parser's BeautifulSoup lookups would find: `Page`, `GsChild`, `SsChild`,
`Link`, `Heading`, `SettingsPane`.

Two places where the code does not do what its callers are meant to rely
on; the model follows the code:

- **Exceptions abort parsing.** Malformed markup in one result is meant to
  be skipped without aborting the parse. In the code, some failures raise
  and end the whole parse:
  - a result header without the expected `<a>`;
  - a `Cited by` or `All ...` link whose `.string` is `None`;
  - an `All ...` text with a single word;
  - a Google Scholar `gs_ri` body without `<h3>`.

  These are modelled as `Error` results that stop the dispatch loop.
- **The scoring cascade (ss_scholar.py:1342-1408).** Each average is meant
  to be a mean, in [0, 1], of one combination's Jaccard index over the
  topics counted in `cnt`. The code departs from that in two ways:
  - `GS_SS` and `SS_SCOPUS` are added before the cascade knows whether the
    topic counts, so their averages can exceed 1.
    `Scoring.EarlySumsOverrun` shows an average of 2.0 for `GS_SS`, and
    `Scoring.EarlyScopusSumsOverrun` shows one of 2.0 for `SS_SCOPUS`.
  - Once the cascade stops at an empty set, it also skips the combinations
    that do not involve the empty backend. For example, with MAS empty it
    never scores `GS_SCOPUS`.

## Model

| member | source | states |
|---|---|---|
| Values.EnsureIntAcceptsNumbers | ss_scholar.py:103-107 | `ensure_int` accepts an int and its decimal text alike and returns the number; `None` raises a TypeError, which the helper does not catch |
| PyInt.ParseIntOfIntToString | ss_scholar.py:362-366 | `int(str(n)) == n` for every int, so `_as_int` reads back any count the site prints |
| PyInt.DecimalValueOfNatToString | ss_scholar.py:362-366 | the digits `str(n)` writes denote `n` |
| PyStr.Find | ss_scholar.py:537 | `find` gives -1 exactly when the character is absent, else the index of its first occurrence |
| PyStr.Strip | ss_scholar.py:259 | the result is the stretch of the input that follows its leading white space; everything before and after that stretch is white space, and the result neither starts nor ends with white space |
| PyStr.StripIdempotent | ss_scholar.py:259 | stripping twice is stripping once |
| PyStr.SplitOnce | ss_scholar.py:378 | `split('?', 1)` gives one part exactly when there is no `?`; otherwise the two parts rejoined around the `?` give back the input, and the first part has no `?` |
| PyStr.JoinSplit | ss_scholar.py:381-385 | joining the `&`-split pieces with `&` gives back the text |
| PyStr.SplitJoin | ss_scholar.py:381-385 | splitting a `&`-join of pieces without `&` gives back the pieces |
| PyStr.SplitWsJoin | ss_scholar.py:345-348 | `split()` of space-joined tokens gives back the tokens |
| PyStr.SplitWs | ss_scholar.py:345-348 | `split()` yields only non-empty pieces without white space |
| PyStr.Remove | ss_scholar.py:271 | `replace(',', '')` leaves no comma and keeps text without one unchanged |
| Percent.Utf8Char | ss_scholar.py:692 | a character encodes to one to four UTF-8 bytes, and to the single byte of its code point exactly when it is ASCII |
| Percent.EncodeByte | ss_scholar.py:692 | one octet encodes to safe characters and `%` only |
| Percent.PercentEncode | ss_scholar.py:692 | `quote` output holds only unreserved characters, `/` and `%` |
| Percent.DecodeEncode | ss_scholar.py:692 | percent-decoding the encoding of any bytes gives back those bytes |
| Percent.QuoteRoundTrip | ss_scholar.py:692 | decoding `quote(s)` gives the UTF-8 bytes of `s` |
| Percent.QuoteHasNoDelimiter | ss_scholar.py:692 | `quote(s)` never contains `&`, `=`, `?` or `#`, so an encoded argument cannot break the query component |
| Percent.QuoteKeepsSafeText | ss_scholar.py:692 | text made only of unreserved characters and `/` is left as it is |
| Article.IndexOf | ss_scholar.py:146-148 | the position of a key, or -1 exactly when the key is absent; with unique keys no other position holds it |
| Article.NewAttrsWellFormed | ss_scholar.py:123-143 | a new article's eleven keys are distinct and their order indices are 0..10 in insertion order |
| Article.ScholarArticle.constructor | ss_scholar.py:123-143 | a new article holds the eleven default attributes and no citation data |
| Article.GetSetAttr | ss_scholar.py:145-157 | after setting a key, getting it returns the new value, every other key reads as before, and keys stay distinct; a missing key reads as `None` |
| Article.SetExistingKeepsLabelAndOrder | ss_scholar.py:153-155 | setting an existing key changes only its value: the length, every key, label and order index stay the same |
| Article.SetNewAppends | ss_scholar.py:156-157 | setting a new key appends `[item, key, len(attrs)]` |
| Article.SetKeepsPositional | ss_scholar.py:153-157 | as long as nothing is deleted, the order indices stay exactly 0..len-1 |
| Article.SetAttrTwice | ss_scholar.py:153-157 | setting a key twice is setting it to the second value |
| Article.IndexOfAppend | ss_scholar.py:156-157 | appending a new key keeps keys unique and finds every old key where it was |
| Article.DelAttrRemovesKey | ss_scholar.py:159-161 | after deleting a key it reads as `None`, the length drops by one exactly when it was present, and keys stay distinct |
| Article.DelAttrKeepsOther | ss_scholar.py:159-161 | deleting a key leaves every other key's value unchanged |
| Article.GetDelAttr | ss_scholar.py:145-161 | deleting then getting: the key reads `None`, the others read as before, the length and key uniqueness as above |
| Article.RemoveAtFacts | ss_scholar.py:159-161 | removing one entry shifts the later entries down by one, keeps keys distinct and removes that key |
| Article.RemoveAtKeepsFound | ss_scholar.py:159-161 | after removing one entry, every other key is found one position earlier if it came after it |
| Article.DeleteThenSetCanRepeatOrder | ss_scholar.py:156-161 | deleting a key and then adding a new one gives the new entry the same order index as the last old entry: after a deletion the indices are no longer distinct |
| Article.ScholarArticle.Set | ss_scholar.py:153-157 | `article[key] = item`: the new table is the set-attribute table, the key reads back the item, every other key is unchanged, keys stay distinct |
| Article.ScholarArticle.Delete | ss_scholar.py:159-161 | `del article[key]`: the key then reads `None`, every other key is unchanged, keys stay distinct |
| Article.ScholarArticle.SetCitationData | ss_scholar.py:163-164 | stores the citation export text |
| Article.SortByOrder | ss_scholar.py:180-182 | the sorted entries are ordered by order index, are a permutation of the table, and keep entries of equal order index in their table order (the sort is stable) |
| Article.InsertByOrderStable | ss_scholar.py:180-182 | inserting an entry puts it after every entry of the same order index and keeps those entries in order |
| Article.InsertByOrder | ss_scholar.py:180-182 | inserting into sorted entries keeps them sorted and adds exactly that entry |
| Article.InsertBeforeLast | ss_scholar.py:180-182 | an entry inserted before a larger last entry keeps the result sorted and a permutation |
| Article.SortSortedIsIdentity | ss_scholar.py:180-182 | sorting entries already in order changes nothing (the sort is stable) |
| Article.KeysOf | ss_scholar.py:180-182 | the key list has one key per entry, in the same order |
| Article.ValueTexts | ss_scholar.py:186 | the value texts are `str(value)` of each entry, in order |
| Article.CsvColumnsInOrder | ss_scholar.py:178-187 | for an article without deletions, `as_csv` lists the values in insertion order, with the keys as an optional header line |
| Article.AsCitation | ss_scholar.py:189-195 | `as_citation` is the stored export text, or `''` when there is none |
| Links.Path2Url | ss_scholar.py:368-374 | an `http://` path is returned as is; anything else becomes the site, one `/`, and the path without its leading `/` |
| Links.Path2UrlIdempotent | ss_scholar.py:368-374 | completing an already completed URL changes nothing |
| Links.Path2UrlOfSlashPath | ss_scholar.py:368-374 | a path starting with `/` is appended to the site directly |
| Links.KeepArgs | ss_scholar.py:381-384 | the kept arguments are arguments of the input, none of them starting with `arg=` |
| Links.KeepArgsSnoc | ss_scholar.py:381-384 | the kept arguments are built front to back, one argument at a time |
| Links.KeepArgsIdempotent | ss_scholar.py:381-384 | filtering arguments that already lack the prefix keeps them all, in order |
| Links.KeepArgsHaveNoAmpersand | ss_scholar.py:381-384 | filtering never introduces an `&` |
| Links.StripWithoutQuery | ss_scholar.py:378-380 | `_strip_url_arg` returns a URL without `?` unchanged |
| Links.StrippedQuery | ss_scholar.py:376-385 | a URL with `?` keeps its text before the first `?`, and its arguments are the kept arguments in order (the single empty argument when none is kept) |
| Links.StripRemovesArg | ss_scholar.py:376-385 | after stripping, no argument of the URL starts with `arg=` and the part before `?` is unchanged |
| Links.StripIdempotent | ss_scholar.py:376-385 | stripping the same argument twice is stripping it once |
| Parser.ArticleParser.StripUrlArg | ss_scholar.py:376-385 | the loop of `_strip_url_arg` computes the stripped URL |
| Links.ClassRenderingsAgree | ss_scholar.py:338-349 | a class attribute given as a list and the same names given as one space-separated string match the same classes |
| Links.ClassTextMatchesOnlyTokens | ss_scholar.py:338-349 | a space-separated class string only ever matches a non-empty name without white space |
| Links.IntOrNull | ss_scholar.py:361-366 | `_as_int` gives an int or `None`, never anything else |
| Links.CitedByHasWords | ss_scholar.py:307-309 | a `Cited by` text has a last word, so `split()[-1]` cannot fail |
| Links.CitedByCount | ss_scholar.py:307-309 | the count of `Cited by <n>` is `n` |
| Links.LastCites | ss_scholar.py:322-325 | the cluster id is the value of the last `cites=` argument, and there is none exactly when no argument starts with `cites=` |
| Links.CitationsUrl | ss_scholar.py:316-317 | the citations URL of a `/scholar?cites` link has a query component |
| Links.CitesHrefIsQuery | ss_scholar.py:306 | a `/scholar?cites` link is a path with its `?` at index 8 |
| Links.CitesUrlHasQuery | ss_scholar.py:316-322 | the completed and stripped URL still holds a `?`, so `split('?', 1)[1]` cannot fail |
| Links.CitationsUrlHasNoNum | ss_scholar.py:316-317 | `url_citations` keeps the completed link's path and has no `num=` argument |
| Links.CitesRuleUrl | ss_scholar.py:316-317 | a `/scholar?cites` link with a string sets `url_citations` to the completed URL without `num=` |
| Links.CitesRuleCount | ss_scholar.py:307-309 | a `Cited by` string sets `num_citations` to the int of its last word (or `None`); any other string leaves it alone |
| Links.CitesRuleCluster | ss_scholar.py:322-325 | `cluster_id` becomes the last `cites=` value of the citations URL, or stays as it was when there is none |
| Links.CitesKeysDistinct | ss_scholar.py:308-325 | the three attributes the citations rule writes are distinct keys, so later writes do not undo earlier ones |
| Links.ApplyLinksStops | ss_scholar.py:299-335 | once a link raises, the links after it change nothing |
| Links.ResultsCountOfHeader | ss_scholar.py:261-275 | a header `<word> <count> ...` reports its count, thousands separators removed |
| Links.HeaderWords | ss_scholar.py:265-267 | `split()` of a header of tokens joined by spaces gives those tokens |
| Parser.ArticleParser.ParseClusterIds | ss_scholar.py:322-325 | the `cites=` loop leaves `cluster_id` set to the last `cites=` value, and the table unchanged when there is none |
| Parser.ArticleParser.ParseCitesLink | ss_scholar.py:306-325 | the citations block updates the article as the citations rule says, or raises its error |
| Parser.ArticleParser.ParseClusterLink | ss_scholar.py:327-332 | the versions block sets `num_versions` from the second word of `All ...` and `url_versions` without `num=`, or raises |
| Parser.ArticleParser.ParseLink | ss_scholar.py:300-335 | one link: non-anchors and anchors without `href` are skipped; otherwise the citations, versions and `Import` rules apply in turn |
| Parser.ArticleParser.ParseLinks | ss_scholar.py:299-335 | `_parse_links` applies every link in order and stops at the first exception |
| Parser.ArticleParser.constructor | ss_scholar.py:204-211 | a parser for `gs` or `ss` completes links with that backend's site and has handed on nothing |
| Parser.ArticleParser.ParseTitle | ss_scholar.py:442-452 | the title block sets the title, `url` and (for a PDF) `url_pdf` from the `<h3>` link, falls back to the `<h3>` text, and raises when there is no `<h3>` |
| Parser.ArticleParser.ParseBody | ss_scholar.py:419-467 | a `gs_ri` body sets title, year, links and excerpt in that order |
| Parser.ArticleParser.ParseGsChild | ss_scholar.py:412-467 | one child of a Google Scholar result: text nodes are skipped, `gs_ttss` links are parsed, then a `gs_ri` body |
| Parser.ArticleParser.ParseGsArticle | ss_scholar.py:409-467 | `_gs_parse_article` builds a fresh article from all children, or raises the first exception |
| Parser.ArticleParser.ParseSsChild | ss_scholar.py:395-404 | a `search-result-header` sets title and completed `url` from its link; a missing link or `href` raises |
| Parser.ArticleParser.ParseSsArticle | ss_scholar.py:393-406 | `_ss_parse_article` builds a fresh article from all children, or raises the first exception |
| Parser.ArticleParser.ParseGlobals | ss_scholar.py:261-275 | the announced result count is recorded when the header holds one; a missing tag, a missing second word or a non-number changes nothing |
| Parser.ArticleParser.CleanArticle | ss_scholar.py:252-259 | `_clean_article` strips a truthy title and touches nothing else |
| Parser.ArticleParser.HandOnIfTitled | ss_scholar.py:241-242 | the article is handed on exactly when its title is truthy |
| Parser.ArticleParser.ParseGsResult | ss_scholar.py:238-242 | one Google Scholar result is parsed, cleaned and handed on if titled; an exception hands on nothing |
| Parser.ArticleParser.GsLoopStep | ss_scholar.py:238-242 | one pass of the Google Scholar loop advances the dispatch by one result |
| Parser.ArticleParser.ParseGsResults | ss_scholar.py:238-242 | the Google Scholar loop hands on exactly the dispatched articles, as new valid objects, and ends with the first exception |
| Parser.ArticleParser.RunGsResults | ss_scholar.py:238-242 | the loop itself: handed-on articles and outcome equal the dispatch function's |
| Parser.ArticleParser.ParseSsResult | ss_scholar.py:246-249 | one Semantic Scholar result is parsed, cleaned and handed on if titled; an exception hands on nothing |
| Parser.ArticleParser.SsLoopStep | ss_scholar.py:246-249 | one pass of the Semantic Scholar loop advances the dispatch by one result |
| Parser.ArticleParser.ParseSsResults | ss_scholar.py:245-249 | the Semantic Scholar loop hands on exactly the dispatched articles, as new valid objects, and ends with the first exception |
| Parser.ArticleParser.RunSsResults | ss_scholar.py:245-249 | the loop itself: handed-on articles and outcome equal the dispatch function's |
| Parser.ArticleParser.Parse | ss_scholar.py:226-249 | `parse` reads the result count (Google Scholar only), then hands on the dispatched articles as new valid objects without citation data; the outcome is the first exception, if any |
| Parser.ArticleParser.HandedOnValid | ss_scholar.py:241-242 | articles handed on with presentable attributes are valid articles |
| Parser.HandedAfterSnoc | ss_scholar.py:242 | handing on one more new article extends the handed-on attributes by its own |
| Parser.AttrsOf | ss_scholar.py:242 | the attributes of the handed-on articles, one per article, in order |
| Parser.SetKeepsTextTitle | ss_scholar.py:153-157 | setting any key other than `title` keeps the title, and setting `title` to text keeps it text |
| Parser.CitesRuleKeepsTitle | ss_scholar.py:306-325 | the citations rule never changes the title |
| Parser.ClusterRuleKeepsTitle | ss_scholar.py:327-332 | the versions rule never changes the title |
| Parser.ApplyLinkKeepsTitle | ss_scholar.py:300-335 | one link never changes the title |
| Parser.ApplyLinksKeepTitle | ss_scholar.py:299-335 | `_parse_links` never changes the title |
| Parser.TitleRuleTitle | ss_scholar.py:442-452 | the title block succeeds exactly when there is an `<h3>`; the title is the link's text when the link has an `href`, else the `<h3>` text |
| Parser.BodyRuleTitle | ss_scholar.py:419-467 | after a body, the title is the one its title block set |
| Parser.GsChildRuleTitle | ss_scholar.py:412-467 | a child keeps the title a text or `None`, and a non-body child never changes it |
| Parser.GsChildrenTextTitle | ss_scholar.py:409-467 | every Google Scholar article's title is text or `None` |
| Parser.NewAttrsTextTitle | ss_scholar.py:128 | a new article's title is `None` |
| Parser.GsArticleTextTitle | ss_scholar.py:409-467 | a parsed Google Scholar article has distinct keys and a text or `None` title |
| Parser.SsChildRuleTitle | ss_scholar.py:395-404 | a result header sets the title to its link's text |
| Parser.SsChildrenTextTitle | ss_scholar.py:393-406 | every Semantic Scholar article's title is text or `None` |
| Parser.SsArticleTextTitle | ss_scholar.py:393-406 | a parsed Semantic Scholar article has distinct keys and a text or `None` title |
| Parser.CleanKeepsTitled | ss_scholar.py:252-259 | after cleaning, an article has a truthy title exactly when its title has something besides white space, and that title is then stripped and non-empty |
| Parser.PresentableSnoc | ss_scholar.py:242 | handing on a presentable article keeps every handed-on article presentable |
| Parser.StepFacts | ss_scholar.py:238-242 | one result hands on at most one article, only a presentable one, and nothing once an exception has occurred |
| Parser.GsDispatchFacts | ss_scholar.py:238-242 | every article handed on from Google Scholar results has a non-empty stripped title, and there are at most as many as results |
| Parser.SsDispatchFacts | ss_scholar.py:245-249 | every article handed on from Semantic Scholar results has a non-empty stripped title, and there are at most as many as results |
| Parser.DispatchedFacts | ss_scholar.py:226-249 | `parse` hands on only articles with non-empty stripped titles, at most one per result of the chosen backend |
| Parser.GsDispatchStops | ss_scholar.py:238-242 | an exception in a Google Scholar result ends the parse: later results change nothing |
| Parser.SsDispatchStops | ss_scholar.py:245-249 | an exception in a Semantic Scholar result ends the parse: later results change nothing |
| Parser.GsDispatchSnoc | ss_scholar.py:238-242 | the Google Scholar dispatch handles results one at a time, in order |
| Parser.SsDispatchSnoc | ss_scholar.py:245-249 | the Semantic Scholar dispatch handles results one at a time, in order |
| Parser.GsChildrenStops | ss_scholar.py:412-467 | once a child raises, the later children of that result change nothing |
| Parser.SsChildrenStops | ss_scholar.py:395-406 | once a child raises, the later children of that result change nothing |
| Query.MaxOrder | ss_scholar.py:509 | the largest order index: every entry's order is at most it, and some entry's equals it |
| Query.AddAttributeTypeEffect | ss_scholar.py:500-510 | a new attribute holds its default and label, its order exceeds every other attribute's (0 for the first one), and other attributes are unchanged |
| Query.AddNewAttr | ss_scholar.py:510 | adding a key not yet present appends it, keeps keys unique, and leaves other keys' values unchanged |
| Query.AddExistingAttr | ss_scholar.py:510 | adding a key already present replaces it where it stands, keeps keys unique, and leaves other keys' values unchanged |
| Query.SetKnownAttrEffect | ss_scholar.py:518-521 | `query[key] = item` updates a known key only; an unknown key leaves the table unchanged, and the key set never changes |
| Query.SetKnownAttrOther | ss_scholar.py:518-521 | setting a known key leaves every other key's value unchanged |
| Query.SearchQuery.constructor | ss_scholar.py:474-588 | a new search query has no terms, 8 results per page, whole-article scope, patents and citations included, sort by relevance, and the single attribute `num_results` (label "Results", value 0, order 0) |
| Query.SearchQuery.Set | ss_scholar.py:518-521 | a known key reads back the item, an unknown key changes nothing, other keys are unchanged, keys stay distinct |
| Query.SearchQuery.AddAttribute | ss_scholar.py:500-510 | the new attribute reads its default and every other key reads as before |
| Query.SearchQuery.SetNumPageResults | ss_scholar.py:488-490 | a numeric value is stored as the page size; text that is not a number raises FormatError, and `None` raises TypeError because ensure_int catches only ValueError; nothing changes on an error |
| Query.SearchQuery.SetWords | ss_scholar.py:591-593 | stores the words |
| Query.SearchQuery.SetWordsSome | ss_scholar.py:595-597 | stores the at-least-one words |
| Query.SearchQuery.SetWordsNone | ss_scholar.py:599-601 | stores the none-of words |
| Query.SearchQuery.SetPhrase | ss_scholar.py:603-605 | stores the phrase |
| Query.SearchQuery.SetSortby | ss_scholar.py:607-609 | stores the sort order |
| Query.SearchQuery.SetAe | ss_scholar.py:611-613 | stores the `ae` flag |
| Query.SearchQuery.SetScope | ss_scholar.py:615-620 | stores the title-only flag |
| Query.SearchQuery.SetAuthor | ss_scholar.py:622-624 | stores the author |
| Query.SearchQuery.SetPub | ss_scholar.py:626-628 | stores the publication |
| Query.SearchQuery.SetIncludeCitations | ss_scholar.py:641-642 | stores the include-citations flag |
| Query.SearchQuery.SetIncludePatents | ss_scholar.py:644-645 | stores the include-patents flag |
| Query.SearchQuery.SetTimeframe | ss_scholar.py:630-639 | truthy bounds must be numeric and are stored as ints; falsy bounds are stored as given; on a FormatError (start checked first) the timeframe is unchanged |
| Query.TimeframeBoundSettles | ss_scholar.py:630-639 | an accepted bound is an int or falsy; the decimal text of a nonzero year reads as that year; `None` stays `None` |
| Query.ParenthesizePhrases | ss_scholar.py:523-545 | the loop of `_parenthesize_phrases` computes the parenthesized query |
| Query.QuotePhrase | ss_scholar.py:541-543 | one piece is stripped and quoted when it holds a space after its first character |
| Query.PhraseQuotedIffSpace | ss_scholar.py:541-543 | a stripped piece is wrapped in double quotes exactly when it contains a space |
| Query.PhrasesSnoc | ss_scholar.py:539-544 | the phrases are built one piece at a time, in order |
| Query.ParenthesizeWithoutComma | ss_scholar.py:537-538 | a query without a comma is returned unchanged |
| Query.ParenthesizedHasNoComma | ss_scholar.py:537-545 | the result never contains a comma |
| Query.PhrasesAvoidComma | ss_scholar.py:539-544 | pieces without a comma give phrases without a comma |
| Query.PhraseAvoidsComma | ss_scholar.py:541-543 | a piece without a comma gives a phrase without a comma |
| Query.ParenthesizeIdempotent | ss_scholar.py:523-545 | parenthesizing twice is parenthesizing once |
| Query.ParenthesizeExample | ss_scholar.py:523-536 | the docstring's example: `some words, foo, bar` becomes `"some words" foo bar` |
| Query.ParenthesizePhraseThenWords | ss_scholar.py:523-545 | the example in general: a phrase with an inner space, then two single words, each after `, `, becomes the quoted phrase and the two words, separated by spaces |
| Query.ParenthesizeThree | ss_scholar.py:537-545 | a query of three comma-separated pieces becomes the three pieces' phrases, separated by spaces |
| Query.UnpaddedPhrase | ss_scholar.py:541-543 | a piece without surrounding white space is quoted exactly when it contains a space, and is otherwise kept as it is |
| Query.SearchQuery.ProcessPhrases | ss_scholar.py:662-665 | a truthy at-least-one or none-of list is parenthesized, anything else becomes `''` |
| Query.SearchQuery.ArgsWithKeys | ss_scholar.py:667-682 | the dictionary has exactly the backend's keys, in order |
| Query.GsNamesAvoidAmp | ss_scholar.py:555-568 | no argument name of the Google Scholar template contains `&` |
| Query.GsLiteralsAvoidAmp | ss_scholar.py:555-568 | no literal text of the Google Scholar template contains `&` |
| Query.GsParamsWellFormed | ss_scholar.py:555-568 | every argument of the Google Scholar template is free of `&` outside its holes |
| Query.GsTemplateCovered | ss_scholar.py:555-568 | every `%(key)s` hole of the Google Scholar template names a key of its dictionary |
| Query.GsTemplateWellFormed | ss_scholar.py:555-568 | the Google Scholar template can be split back into its arguments and all its holes are filled |
| Query.SsTemplateWellFormed | ss_scholar.py:569-572 | the Semantic Scholar template can be split back into its arguments and all its holes are filled |
| Query.TemplatesWellFormed | ss_scholar.py:684-689 | both templates are well formed and filled by their own dictionaries |
| Query.ArgKeys | ss_scholar.py:667-682 | the dictionary's keys, one per entry, in order |
| Query.RenderParams | ss_scholar.py:694 | the rendered arguments are `name=value` per template argument, in order |
| Query.LookupQuoteArgs | ss_scholar.py:691-692 | after the encoding loop each key holds `quote(str(value))` of its old value |
| Query.QuoteArgsCons | ss_scholar.py:691-692 | the encoding loop treats the dictionary entry by entry |
| Query.RenderedPartsAvoidAmp | ss_scholar.py:694 | substituting encoded values into `&`-free literals gives an `&`-free argument |
| Query.RenderedQuery | ss_scholar.py:694 | a rendered URL's text before `?` is the template's base, and its `&`-split arguments are the rendered template arguments, one each |
| Query.HoleArgument | ss_scholar.py:694 | an argument that is one hole reads `name=quote(str(value))`, and decoding that value gives the value's UTF-8 bytes |
| Query.RenderHole | ss_scholar.py:694 | one hole renders as the encoded value of its key |
| Query.SearchQuery.EncodeArgs | ss_scholar.py:691-692 | the loop replaces every value, in place, by `quote(str(value))` and keeps the keys |
| Query.SearchQuery.GetUrl | ss_scholar.py:647-694 | a query with no terms raises QueryArgumentError and changes nothing. Otherwise it selects the backend's template, stores the encoded dictionary, and returns the template filled with it. |
| Query.UrlArgumentsRoundTrip | ss_scholar.py:647-694 | for every query with terms, the URL splits back into the template's base and arguments, and each one-hole argument decodes to the UTF-8 bytes of `str` of that dictionary value |
| Settings.CitationFormat | ss_scholar.py:715-721 | a format is accepted exactly when `ensure_int` reads it as an int from 0 to 4; otherwise the result is `ensure_int`'s own error or a FormatError |
| Settings.PerPageResults | ss_scholar.py:723-728 | a numeric page size is accepted and is `min(n, 8)`; a non-numeric one gives `ensure_int`'s error |
| Settings.CitationFormatsAccepted | ss_scholar.py:715-721 | exactly the formats 0..4 are accepted, as ints or as their decimal text; `None` raises a TypeError |
| Settings.ScholarSettings.constructor | ss_scholar.py:710-713 | new settings hold no citation format, 8 results per page, and are not configured |
| Settings.ScholarSettings.SetCitationFormat | ss_scholar.py:715-721 | an accepted format is stored and marks the settings configured; a refused one raises and leaves format and flag unchanged |
| Settings.ScholarSettings.SetPerPageResults | ss_scholar.py:723-728 | a numeric page size is stored clamped to 8 and marks the settings configured; a refused one raises and leaves size and flag unchanged |
| Querier.IntToStringAvoidsAmp | ss_scholar.py:747-756 | a page size or format number never puts an `&` into the settings request |
| Querier.SettingsTailJoin | ss_scholar.py:756 | the fixed end of the settings request is five `&`-separated arguments |
| Querier.ScisfTailJoin | ss_scholar.py:832-834 | the optional `scisf` text adds exactly one argument when a format is chosen |
| Querier.SettingsQueryJoin | ss_scholar.py:747-756 | the settings request's query component is its arguments joined by `&` |
| Querier.SettingsUrlArgs | ss_scholar.py:747-756 | for a form signature without `&`, the settings request splits back into q, scisig, inststart, as_sdt, as_sdtp, num, scis, the optional scisf and the fixed tail |
| Querier.SettingsPathAvoidsQuery | ss_scholar.py:747 | the settings path has no `?` before its query component |
| Querier.SettingsArgsAvoidAmp | ss_scholar.py:747-756 | no argument of the settings request contains `&` |
| Querier.SettingsOutcome | ss_scholar.py:806-843 | configured settings are applied (True) exactly when the pane was fetched, has the form and a `scisig` value, and the settings request succeeds; a `scisig` input without value raises KeyError; every other failure returns False |
| Querier.ScholarQuerier.ApplySettings | ss_scholar.py:793-843 | `None` or unconfigured settings return True without fetching and are not recorded; configured settings are recorded and the outcome is as above |
| Querier.CitationLookup | ss_scholar.py:863-882 | True exactly when the article has a citation link and ends with citation data; existing data is kept and not refetched; without a link nothing changes; otherwise the data is what the fetch returned |
| Querier.CitationLookupStable | ss_scholar.py:863-882 | asking again for an article's citation data changes nothing and gives the same answer |
| Querier.ScholarQuerier.GetCitationData | ss_scholar.py:863-882 | `get_citation_data` returns and stores what the citation lookup says |
| Querier.ScholarQuerier.constructor | ss_scholar.py:773-791 | a new querier for a backend has no articles, no query and no settings |
| Querier.ScholarQuerier.ClearArticles | ss_scholar.py:895-897 | the article list becomes empty |
| Querier.ScholarQuerier.AddArticle | ss_scholar.py:891-893 | the article's citation data is looked up, then the article is appended |
| Querier.ScholarQuerier.AddArticles | ss_scholar.py:770-771 | the handed-on articles are appended in order, each with its citation data looked up |
| Querier.ScholarQuerier.CollectArticles | ss_scholar.py:770-771 | the articles the parser handed on are appended and carry the parsed attributes and their citation data |
| Querier.ScholarQuerier.RecordCount | ss_scholar.py:766-768 | an announced result count is stored in the query's `num_results` attribute when there is a query; nothing else changes |
| Querier.ScholarQuerier.RunParser | ss_scholar.py:884-889 | a fresh parser hands on new, valid articles carrying exactly the dispatched attributes; the count is reported only for Google Scholar |
| Querier.ScholarQuerier.Parse | ss_scholar.py:884-889 | `parse` appends the dispatched articles with their citation data, keeps the older ones, records the result count in the query, and ends with the parser's exception if any |
| Querier.ScholarQuerier.SendQuery | ss_scholar.py:845-861 | clears the articles first. A query with no terms raises QueryArgumentError. A failed fetch leaves no articles. Otherwise the articles are exactly those parsed from the response to the query's URL, and the query's num_results holds the count a Google Scholar page announces. The query's template and encoded arguments are those get_url sets, or unchanged when the query has no terms. |
| Querier.ScholarQuerier.FetchAndParse | ss_scholar.py:853-861 | a failed fetch returns with no articles; otherwise the response is parsed, and the query's num_results holds the count a Google Scholar page announces |
| Scoring.Position | ss_scholar.py:1342-1396 | every combination has one place in the cascade |
| Scoring.PositionOfComboAt | ss_scholar.py:1342-1396 | the place of the combination tried at step i is i |
| Scoring.EntryTitles | ss_scholar.py:1296-1298 | the Scopus titles are at most one per entry |
| Scoring.EntryTitlesMembers | ss_scholar.py:1296-1298 | a title is gathered exactly when some entry carries it as `dc:title` |
| Scoring.GatherTitles | ss_scholar.py:1292-1316 | the gathering loops collect the Scopus titles and set `check` for a missing `search-results`, `entry` or `dc:title`, or a `None` Google Scholar or Semantic Scholar title |
| Scoring.FirstEight | ss_scholar.py:1334-1337 | the truncated list is a prefix of at most eight titles, and a list of at most eight is kept whole |
| Scoring.ElementsSize | ss_scholar.py:1338-1341 | a list's set is no larger than the list and is empty exactly when the list is |
| Scoring.SetsOfSizes | ss_scholar.py:1334-1341 | each of the four sets has at most eight titles and is empty exactly when its list is |
| Scoring.IntersectionMembers | ss_scholar.py:1343 | a title is in the intersection exactly when it is in every set |
| Scoring.UnionMembers | ss_scholar.py:1343 | a title is in the union exactly when it is in some set |
| Scoring.JaccardBounds | ss_scholar.py:1343 | every score lies between 0 and 1 |
| Scoring.JaccardIdentical | ss_scholar.py:1343 | identical non-empty sets score 1 |
| Scoring.JaccardSymmetric | ss_scholar.py:1343 | a pair scores the same in either order |
| Scoring.JaccardOrderFree | ss_scholar.py:1343-1394 | the score of a combination does not depend on the order or repetition of its sets |
| Scoring.Members | ss_scholar.py:1342-1394 | each combination compares two to four sets |
| Scoring.GuardedMembers | ss_scholar.py:1342-1394 | a combination's guard holds exactly when all its sets are non-empty, so its union is non-empty and its division is defined |
| Scoring.Stop | ss_scholar.py:1342-1396 | the step where the cascade stops lies between the start and the end |
| Scoring.StopFirst | ss_scholar.py:1342-1396 | the cascade passes every guard before its stop and fails the guard at its stop |
| Scoring.StopUnique | ss_scholar.py:1342-1396 | the first failing guard is the only possible stop |
| Scoring.StopShape | ss_scholar.py:1342-1396 | the cascade stops at once when the Google Scholar or Semantic Scholar set is empty; after GS_SS when Scopus is empty; after SS_SCOPUS when MAS is empty; otherwise it runs to the end |
| Scoring.Added | ss_scholar.py:1342-1396 | adding the passed scores keeps every key of `sum_score` |
| Scoring.AddedNext | ss_scholar.py:1342-1396 | passing one more guard adds exactly that combination's score |
| Scoring.Cascade | ss_scholar.py:1342-1400 | the cascade keeps every key of `sum_score` |
| Scoring.CascadeShape | ss_scholar.py:1342-1400 | a topic counts exactly when all four sets are non-empty, and then every combination gains its score. An empty GS or SS set adds nothing. An empty Scopus set adds only GS_SS. An empty MAS set adds GS_SS and SS_SCOPUS. |
| Scoring.CascadeAll | ss_scholar.py:1342-1396 | when every guard passes, every combination gains its own score |
| Scoring.CascadeFirst | ss_scholar.py:1342-1351 | when the cascade stops at SS_SCOPUS only GS_SS has gained its score |
| Scoring.CascadeFirstTwo | ss_scholar.py:1342-1356 | when the cascade stops at SCOPUS_MAS only GS_SS and SS_SCOPUS have gained their scores |
| Scoring.Step | ss_scholar.py:1292-1400 | one topic keeps every key of `sum_score` |
| Scoring.StepCounts | ss_scholar.py:1292-1400 | a topic counts exactly when `check` stays 0 and all four title lists are non-empty; a `check`ed topic changes no sum |
| Scoring.StepGain | ss_scholar.py:1342-1400 | a topic raises each sum by between 0 and 1, and a combination after SS_SCOPUS only gains when the topic counts |
| Scoring.Run | ss_scholar.py:1195-1405 | after n topics `sum_score` has all eleven keys and `cnt` is at most n |
| Scoring.RunSums | ss_scholar.py:1195-1405 | every sum stays non-negative, and every combination after SS_SCOPUS sums to at most `cnt` |
| Scoring.RunSumsStep | ss_scholar.py:1206-1405 | one more topic keeps those two bounds |
| Scoring.ZeroSumsAt | ss_scholar.py:1195 | every key of `sum_score` starts at 0.0 |
| Scoring.AverageOf | ss_scholar.py:1407-1408 | averaging fails (division by zero) exactly when `cnt` is 0; otherwise each average times `cnt` is the sum, and a sum between 0 and `cnt` averages to between 0 and 1 |
| Scoring.AverageBounds | ss_scholar.py:1195-1408 | the result is `sum/cnt` per key, fails exactly when no topic counted, and lies in [0, 1] for every combination after SS_SCOPUS |
| Scoring.FullTopicStep | ss_scholar.py:1342-1400 | a topic with the same single title everywhere counts and adds 1 to GS_SS and to SS_SCOPUS |
| Scoring.PartialTopicStep | ss_scholar.py:1342-1346 | a topic with empty MAS and Scopus lists does not count, yet adds 1 to GS_SS |
| Scoring.EarlySumsOverrun | ss_scholar.py:1342-1408 | with one full and one partial topic, the GS_SS average is 2.0: the partial topic's score is added but `cnt` does not include it |
| Scoring.NoMasTopicStep | ss_scholar.py:1342-1400 | a topic with an empty MAS list but Scopus results does not count, yet adds 1 to SS_SCOPUS |
| Scoring.EarlyScopusSumsOverrun | ss_scholar.py:1342-1408 | with one full topic and one without MAS results, the SS_SCOPUS average is 2.0 |
| Scoring.ScoreTopic | ss_scholar.py:1292-1400 | one topic: gather titles, skip a `check`ed topic, else run the cascade on the truncated sets |
| Scoring.RunCascade | ss_scholar.py:1342-1396 | the eleven guarded additions, leaving at the first failing guard, compute the cascade |
| Scoring.TryCombo | ss_scholar.py:1342-1346 | one guarded addition passes exactly when the guard holds, and then adds that combination's score |
| Scoring.Averaged | ss_scholar.py:1407-1408 | the closing loop divides every sum by `cnt`, or fails when `cnt` is 0 |
| Scoring.ScoreTopics | ss_scholar.py:1195-1408 | the topic loop and the averages compute the averaged scores of all topics |

## Left out

- HTTP and cookies are not modelled: `_get_http_response`, `build_opener`, and the cookie jar load in `__init__` and in `save_cookies`.
  - Every request is one function parameter `fetch` that may return `None`.
- BeautifulSoup, the `year_re` regular expression and Selenium are not modelled.
  - A page is given as records of what the lookups would find.
  - Year matches arrive as a list.
  - `getResponseFromGS`, `getResponseFromMAS` and `getResponseFromScopus` enter only through the title lists and the Scopus record of a `Topic`.
- The SKOS/rdflib loaders, `optparse` command line, `txt`/`csv`/`citation_export` printers and `as_txt` are left out; they are files and printing.
- `ScholarUtils.log` and every `print` are left out; they only write to the terminal.
- `_parse_article` (the pre-2012 layout) and `_gs_tag_results_checker`/`_ss_tag_results_checker` are not modelled.
  - The old layout is never called.
  - The checkers select fragments, which the page record already lists.
  - `_tag_has_class` itself is modelled.
- Only the backends `gs` and `ss` are modelled. In the code, any other choice keeps the class's empty `SCHOLAR_QUERY_URL` and empty `urlargs` (ss_scholar.py:553-554, 684-689), so `get_url` yields an empty URL (ss_scholar.py:694). The request for it fails and `_get_http_response` returns `None` (ss_scholar.py:923-941), so `send_query` returns with no articles (ss_scholar.py:858-859).
- Handing on an article is recorded, not called back.
  - `Parser.ArticleParser` lists the handed-on articles.
  - `Querier.ScholarQuerier.Parse` appends them and fetches their citation data after the parse instead of during it.
  - No fetch influences parsing, so the outcome is the same. Only the interleaving of requests is lost.
- Querier.ScholarQuerier.Parse: when the parser raises, the articles handed on before the exception are still appended. The Python exception would propagate past `send_query`; the model returns it as a `Fail` outcome.
- `scisig` is substituted into the settings request as it is, without encoding, as the code does. `Querier.SettingsUrlArgs` requires it to contain no `&`.
- `encode(val)` and `quote` are modelled as in Python 3.7 and later: `str(val)`, then `quote`, which keeps `~` as an unreserved character. For unicode text and for byte strings that are pure ASCII, Python 2's `encode` (ss_scholar.py:57-61) gives the same bytes. (It UTF-8-encodes unicode text and applies `str()` to numbers.) But Python 2's `urllib.quote`, like Python 3 before 3.7, writes `~` as `%7E`. Under those interpreters, arguments that contain `~` are encoded differently from the model.
- `encode(val)` under Python 2: a byte `str` with non-ASCII bytes, such as optparse hands over from the command line, makes `s.encode('utf-8')` raise `UnicodeDecodeError` (ss_scholar.py:57-61). The model has no such failure; its strings are sequences of characters.
- Scoring.Jaccard: scores are exact reals; the floating-point rounding of `len(...)/float(len(...))` is not modelled.
- Scoring.GatherTitles: the MAS title list is not checked for `None`, as in the code. A `None` MAS title is scored as a title.
- Scoring.RunCascade: the eleven unrolled `if`/`continue` blocks run as one loop over the combinations in cascade order. The guard and score of each block are kept.
- The per-level score dictionaries (`top_sum_score` and the others) are never updated by the code and are left out.
- `gs_driver.quit()` and the process exit code of `main` are left out.
- PyInt.ParseInt: only ASCII decimal digits are modelled. Python's `int()` also accepts other Unicode decimal digits.
