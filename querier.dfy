/** `ScholarQuerier`: sends a query to the chosen backend, parses the
    response with a fresh article parser, and collects the articles the
    parser hands on, fetching each one's citation export on the way; it can
    also push a `ScholarSettings` to Google Scholar's settings pane.

    Every HTTP request goes through one function `fetch` from a URL to the
    response text (`None` when the request fails), and the HTML parsing of a
    response is a function from its text to what the parser looks at. */
module Querier {
  import opened Wrappers
  import opened PyStr
  import opened PyInt
  import opened Values
  import opened Article
  import opened Links
  import opened Query
  import opened Settings
  import opened Parser

  /** `GET_SETTINGS_URL`: the settings pane. */
  const GET_SETTINGS_URL: string := GS_SCHOLAR_SITE + "/scholar_settings?" + "sciifh=1&hl=en&as_sdt=0,5"

  /** What `apply_settings` finds in the settings pane: no form with id
      `gs_settings_form`, a form without the hidden `scisig` input, or that
      input together with its `value` attribute, if it has one. */
  datatype SettingsPane = NoForm | NoScisig | Scisig(value: Option<string>)

  /** The `scis` argument: whether a citation export link is wanted. */
  function ScisArg(citform: int): string {
    if citform != 0 then "yes" else "no"
  }

  /** The `scisf` text: `&scisf=<format>` for a chosen format, else empty. */
  function ScisfArg(citform: int): string {
    if citform != 0 then "&" + "scisf=" + IntToString(citform) else ""
  }

  /** The query component of `SET_SETTINGS_URL % urlargs`, one `&` before
      each argument after the first. */
  function SettingsQuery(scisig: string, num: int, citform: int): string {
    "q="
    + "&" + "scisig=" + scisig
    + "&" + "inststart=0"
    + "&" + "as_sdt=1,5"
    + "&" + "as_sdtp="
    + "&" + "num=" + IntToString(num)
    + "&" + "scis=" + ScisArg(citform)
    + (ScisfArg(citform) + SETTINGS_TAIL)
  }

  /** The fixed end of the settings request. */
  const SETTINGS_TAIL: string := "&" + "hl=en" + "&" + "lang=all" + "&" + "instq=" + "&" + "inst=569367360547434339" + "&" + "save="

  /** The arguments in `SETTINGS_TAIL`. */
  const TAIL_ARGS: seq<string> := ["hl=en", "lang=all", "instq=", "inst=569367360547434339", "save="]

  /** `SET_SETTINGS_URL % urlargs`: the request that stores the settings. */
  function SetSettingsUrl(scisig: string, num: int, citform: int): string {
    GS_SCHOLAR_SITE + "/scholar_setprefs" + "?" + SettingsQuery(scisig, num, citform)
  }

  /** The arguments the settings request is meant to carry, one `name=value`
      each: the form's signature, the page size, whether to show a citation
      export link and, for a chosen format, which one. */
  function SettingsArgs(scisig: string, num: int, citform: int): seq<string> {
    ["q=", "scisig=" + scisig, "inststart=0", "as_sdt=1,5", "as_sdtp=",
     "num=" + IntToString(num), "scis=" + ScisArg(citform)]
    + (ScisfArgs(citform) + TAIL_ARGS)
  }

  /** The `scisf` argument, present only for a chosen format. */
  function ScisfArgs(citform: int): seq<string> {
    if citform != 0 then ["scisf=" + IntToString(citform)] else []
  }

  /** The text of an int holds no `&`. */
  lemma IntToStringAvoidsAmp(n: int)
    ensures '&' !in IntToString(n)
  {
    var s := NatToString(if n < 0 then -n else n);
    assert forall i :: 0 <= i < |s| ==> s[i] != '&';
  }

  /** Joining with `&` after a first piece. */
  lemma JoinAmpCons(a: string, rest: seq<string>)
    requires |rest| >= 1
    ensures Join("&", [a] + rest) == a + "&" + Join("&", rest)
  {
    assert ([a] + rest)[1..] == rest;
  }

  /** `&name=value` before `&` and a join is `&` before the longer join. */
  lemma AmpArgJoin(amp: string, name: string, value: string, t: string, rest: seq<string>)
    requires amp == "&" && |rest| >= 1 && t == "&" + Join("&", rest)
    ensures amp + name + value + t == "&" + Join("&", [name + value] + rest)
  {
    JoinAmpCons(name + value, rest);
    AmpRegroup(name, value, Join("&", rest));
  }

  /** The regrouping `AmpArgJoin` needs, on plain strings. */
  lemma AmpRegroup(name: string, value: string, j: string)
    ensures "&" + name + value + ("&" + j) == "&" + (name + value + "&" + j)
  {
  }

  /** `SETTINGS_TAIL` is `&` before the `&`-join of `TAIL_ARGS`. */
  lemma SettingsTailJoin()
    ensures SETTINGS_TAIL == "&" + Join("&", TAIL_ARGS)
  {
    var t := TAIL_ARGS;
    assert Join("&", t[4..]) == "save=";
    JoinAmpCons(t[3], t[4..]);
    assert t[3..] == [t[3]] + t[4..];
    JoinAmpCons(t[2], t[3..]);
    assert t[2..] == [t[2]] + t[3..];
    JoinAmpCons(t[1], t[2..]);
    assert t[1..] == [t[1]] + t[2..];
    JoinAmpCons(t[0], t[1..]);
    assert t == [t[0]] + t[1..];
  }

  /** `&`, one argument and `&` before a join make `&` before the longer join. */
  lemma AmpCons(k: string, rest: seq<string>, t: string)
    requires |rest| >= 1 && t == "&" + Join("&", rest)
    ensures "&" + k + t == "&" + Join("&", [k] + rest)
  {
    JoinAmpCons(k, rest);
  }

  /** The settings template's left-to-right concatenation, regrouped as one
      `&`-prefixed argument after another. */
  lemma SevenRegrouped(q: string, sig: string, v: string, inst: string, sdt: string, sdtp: string,
                       num: string, n: string, scis: string, s: string, x: string)
    ensures q + "&" + sig + v + "&" + inst + "&" + sdt + "&" + sdtp + "&" + num + n + "&" + scis + s + x
      == q + ("&" + (sig + v) + ("&" + inst + ("&" + sdt + ("&" + sdtp + ("&" + (num + n) + ("&" + (scis + s) + x))))))
  {
  }

  /** Seven pieces and then `&` before the join of `rest`, written as the
      settings template writes them, make the `&`-join of all of them. */
  lemma {:induction false} SevenThenJoin(q: string, sig: string, v: string, inst: string, sdt: string, sdtp: string,
                                         num: string, n: string, scis: string, s: string, x: string, rest: seq<string>)
    requires |rest| >= 1 && x == "&" + Join("&", rest)
    ensures q + "&" + sig + v + "&" + inst + "&" + sdt + "&" + sdtp + "&" + num + n + "&" + scis + s + x
      == Join("&", [q, sig + v, inst, sdt, sdtp, num + n, scis + s] + rest)
  {
    SevenRegrouped(q, sig, v, inst, sdt, sdtp, num, n, scis, s, x);
    var r6 := [scis + s] + rest;
    var t6 := "&" + (scis + s) + x;
    AmpCons(scis + s, rest, x);
    var r5 := [num + n] + r6;
    var t5 := "&" + (num + n) + t6;
    AmpCons(num + n, r6, t6);
    var r4 := [sdtp] + r5;
    var t4 := "&" + sdtp + t5;
    AmpCons(sdtp, r5, t5);
    var r3 := [sdt] + r4;
    var t3 := "&" + sdt + t4;
    AmpCons(sdt, r4, t4);
    var r2 := [inst] + r3;
    var t2 := "&" + inst + t3;
    AmpCons(inst, r3, t3);
    var r1 := [sig + v] + r2;
    var t1 := "&" + (sig + v) + t2;
    AmpCons(sig + v, r2, t2);
    JoinAmpCons(q, r1);
    assert q + t1 == q + "&" + Join("&", r1);
    assert [q, sig + v, inst, sdt, sdtp, num + n, scis + s] + rest == [q] + r1;
  }

  /** The `scisf` text and the fixed end are `&` before the `&`-join of
      their arguments. */
  lemma ScisfTailJoin(citform: int)
    ensures ScisfArg(citform) + SETTINGS_TAIL == "&" + Join("&", ScisfArgs(citform) + TAIL_ARGS)
  {
    SettingsTailJoin();
    if citform != 0 {
      AmpArgJoin("&", "scisf=", IntToString(citform), SETTINGS_TAIL, TAIL_ARGS);
    } else {
      assert ScisfArgs(citform) + TAIL_ARGS == TAIL_ARGS;
    }
  }

  /** The query component is the `&`-join of the intended arguments. */
  lemma SettingsQueryJoin(scisig: string, num: int, citform: int)
    ensures SettingsQuery(scisig, num, citform) == Join("&", SettingsArgs(scisig, num, citform))
  {
    ScisfTailJoin(citform);
    SevenThenJoin("q=", "scisig=", scisig, "inststart=0", "as_sdt=1,5", "as_sdtp=", "num=", IntToString(num),
                  "scis=", ScisArg(citform), ScisfArg(citform) + SETTINGS_TAIL, ScisfArgs(citform) + TAIL_ARGS);
  }

  /** The settings request carries exactly the intended arguments: reading
      back its query component gives the form's signature, the page size,
      `scis=yes` precisely when a citation format is chosen, and then
      `scisf` with that format. A signature containing `&` would break the
      request apart, since `apply_settings` does not encode it. */
  lemma SettingsUrlArgs(scisig: string, num: int, citform: int)
    requires '&' !in scisig
    ensures '?' in SetSettingsUrl(scisig, num, citform)
    ensures QueryArgs(SetSettingsUrl(scisig, num, citform)) == SettingsArgs(scisig, num, citform)
  {
    SettingsPathAvoidsQuery();
    SplitOnceAt(GS_SCHOLAR_SITE + "/scholar_setprefs", SettingsQuery(scisig, num, citform));
    SettingsQueryJoin(scisig, num, citform);
    SettingsArgsAvoidAmp(scisig, num, citform);
    SplitJoin(SettingsArgs(scisig, num, citform), '&');
  }

  /** The path of the settings request holds no `?`. */
  lemma SettingsPathAvoidsQuery()
    ensures '?' !in GS_SCHOLAR_SITE + "/scholar_setprefs"
  {
    assert '?' !in GS_SCHOLAR_SITE;
    assert '?' !in "/scholar_setprefs";
  }

  /** No piece holds `&`. */
  predicate NoAmp(parts: seq<string>) {
    forall i :: 0 <= i < |parts| ==> '&' !in parts[i]
  }

  lemma NoAmpAppend(a: seq<string>, b: seq<string>)
    requires NoAmp(a) && NoAmp(b)
    ensures NoAmp(a + b)
  {
    assert forall i :: |a| <= i < |a + b| ==> (a + b)[i] == b[i - |a|];
  }

  lemma NoAmpFive(a: string, b: string, c: string, d: string, e: string)
    requires '&' !in a && '&' !in b && '&' !in c && '&' !in d && '&' !in e
    ensures NoAmp([a, b, c, d, e]) && NoAmp([a, b])
  {
  }

  /** No argument of the settings request holds `&` when the signature
      holds none. */
  lemma SettingsArgsAvoidAmp(scisig: string, num: int, citform: int)
    requires '&' !in scisig
    ensures NoAmp(SettingsArgs(scisig, num, citform))
  {
    IntToStringAvoidsAmp(num);
    IntToStringAvoidsAmp(citform);
    var head := ["q=", "scisig=" + scisig, "inststart=0", "as_sdt=1,5", "as_sdtp=",
                 "num=" + IntToString(num), "scis=" + ScisArg(citform)];
    NoAmpFive(head[0], head[1], head[2], head[3], head[4]);
    NoAmpFive(head[5], head[6], head[6], head[6], head[6]);
    NoAmpAppend([head[0], head[1], head[2], head[3], head[4]], [head[5], head[6]]);
    assert head == [head[0], head[1], head[2], head[3], head[4]] + [head[5], head[6]];
    NoAmpFive("hl=en", "lang=all", "instq=", "inst=569367360547434339", "save=");
    NoAmpAppend(ScisfArgs(citform), TAIL_ARGS);
    NoAmpAppend(head, ScisfArgs(citform) + TAIL_ARGS);
  }

  /** What `apply_settings` returns for configured settings, or the
      `KeyError` it raises when the `scisig` input has no value: it needs the
      settings pane, the form, the input and then a successful settings
      request. */
  function SettingsOutcome(pane: Option<SettingsPane>, num: int, citform: int,
                           fetch: string -> Option<string>): (r: Result<bool, Error>)
    ensures r.Failure? <==> pane == Some(Scisig(None))
    ensures r.Failure? ==> r.error == KeyError
    ensures r == Success(true) <==>
      pane.Some? && pane.value.Scisig? && pane.value.value.Some? &&
      fetch(SetSettingsUrl(pane.value.value.value, num, citform)).Some?
  {
    match pane
    case None => Success(false)
    case Some(NoForm) => Success(false)
    case Some(NoScisig) => Success(false)
    case Some(Scisig(None)) => Failure(KeyError)
    case Some(Scisig(Some(sig))) => Success(fetch(SetSettingsUrl(sig, num, citform)).Some?)
  }

  /** `get_citation_data` on an article whose `url_citation` is `url` and
      whose citation data is `data`: the answer, and the data afterwards. */
  function CitationLookup(url: Value, data: Option<string>,
                          fetch: string -> Option<string>): (r: (bool, Option<string>))
    ensures r.0 <==> !url.Null? && r.1.Some?
    ensures data.Some? ==> r.1 == data
    ensures url.Null? ==> r.1 == data
    ensures !url.Null? && data.None? ==> r.1 == fetch(ToStr(url))
  {
    if url.Null? then (false, data)
    else if data.Some? then (true, data)
    else
      var fetched := fetch(ToStr(url));
      if fetched.None? then (false, data) else (true, fetched)
  }

  /** Asking again for an article's citation data changes nothing and gives
      the same answer: once fetched it is kept, and a failed fetch is
      retried with the same outcome. */
  lemma CitationLookupStable(url: Value, data: Option<string>, fetch: string -> Option<string>)
    ensures CitationLookup(url, CitationLookup(url, data, fetch).1, fetch) == CitationLookup(url, data, fetch)
  {
  }

  /** Articles handed on by a parse of `page`, each with the citation data
      `get_citation_data` left in it. */
  ghost predicate Collected(arts: seq<ScholarArticle>, page: Page, choice: Backend,
                            fetch: string -> Option<string>)
    reads (set a | a in arts)`attrs, (set a | a in arts)`citationData
  {
    && AttrsOf(arts) == Dispatched(SiteOf(choice), page, choice).handled
    && forall k :: 0 <= k < |arts| ==>
         arts[k].Valid() && arts[k].citationData == CitationLookup(arts[k].Get("url_citation"), None, fetch).1
  }

  /** What `parse` ends with: the parser's error, if it stopped on one. */
  function ParseOutcome(page: Page, choice: Backend): Outcome<Error>
  {
    var d := Dispatched(SiteOf(choice), page, choice);
    if d.error.Some? then Fail(d.error.value) else Pass
  }

  /** The query's attributes after `parse`: only a Google Scholar page
      announces a count, and `handle_num_results` stores it as
      `num_results`. */
  function CountRecorded(attrs: Attrs, page: Page, choice: Backend): Attrs
  {
    if choice == GS && ResultsCount(page.header).Some?
    then SetKnownAttr(attrs, "num_results", Int(ResultsCount(page.header).value))
    else attrs
  }

  class ScholarQuerier {
    var articles: seq<ScholarArticle>
    var query: SearchQuery?
    /** The last settings applied, if any. */
    var settings: ScholarSettings?
    const choice: Backend

    ghost predicate Valid()
      reads this, query
    {
      query != null ==> query.Valid()
    }

    /** `ScholarQuerier(choice)`: no articles, no query, no settings. */
    constructor (choice: Backend)
      ensures this.choice == choice
      ensures articles == [] && query == null && settings == null
      ensures Valid()
    {
      this.choice := choice;
      articles := [];
      query := null;
      settings := null;
    }

    /** `clear_articles` */
    method ClearArticles()
      modifies this`articles
      ensures articles == []
    {
      articles := [];
    }

    /** `apply_settings(settings)`: settings that are absent or were never
        set succeed at once and are not recorded; otherwise they are
        recorded and sent, with the outcome `SettingsOutcome` gives for the
        pane `fetch` and `readPane` return. */
    method ApplySettings(s: ScholarSettings?, fetch: string -> Option<string>,
                         readPane: string -> SettingsPane) returns (r: Result<bool, Error>)
      modifies this`settings
      ensures s == null || !s.IsConfigured() ==> r == Success(true) && settings == old(settings)
      ensures s != null && s.IsConfigured() ==>
        && settings == s
        && r == SettingsOutcome(
             if fetch(GET_SETTINGS_URL).Some? then Some(readPane(fetch(GET_SETTINGS_URL).value)) else None,
             s.perPageResults, s.citform, fetch)
    {
      if s == null || !s.IsConfigured() {
        return Success(true);
      }
      settings := s;
      var html := fetch(GET_SETTINGS_URL);
      if html.None? {
        return Success(false);
      }
      var pane := readPane(html.value);
      if pane.NoForm? || pane.NoScisig? {
        return Success(false);
      }
      if pane.value.None? {
        return Failure(KeyError);
      }
      var url := SetSettingsUrl(pane.value.value, s.perPageResults, s.citform);
      html := fetch(url);
      if html.None? {
        return Success(false);
      }
      return Success(true);
    }

    /** `get_citation_data(article)`: only the article's citation data may
        change, as `CitationLookup` says. */
    static method GetCitationData(art: ScholarArticle, fetch: string -> Option<string>) returns (ok: bool)
      modifies art`citationData
      ensures (ok, art.citationData) == CitationLookup(art.Get("url_citation"), old(art.citationData), fetch)
    {
      if art.Get("url_citation").Null? {
        return false;
      }
      if art.citationData.Some? {
        return true;
      }
      var data := fetch(ToStr(art.Get("url_citation")));
      if data.None? {
        return false;
      }
      art.SetCitationData(data);
      return true;
    }

    /** `add_article(art)`: looks up its citation data, then appends it. */
    method AddArticle(art: ScholarArticle, fetch: string -> Option<string>)
      modifies this`articles, art`citationData
      ensures articles == old(articles) + [art]
      ensures art.citationData == CitationLookup(art.Get("url_citation"), old(art.citationData), fetch).1
    {
      var _ := GetCitationData(art, fetch);
      articles := articles + [art];
    }

    /** The `handle_article` callbacks of one parse, in order: each new
        article gets its citation data looked up and is appended. */
    method AddArticles(arts: seq<ScholarArticle>, fetch: string -> Option<string>)
      requires Distinct(arts)
      requires forall k :: 0 <= k < |arts| ==> arts[k].Valid() && arts[k].citationData == None
      modifies this`articles, (set a | a in arts)`citationData
      ensures articles == old(articles) + arts
      ensures forall k :: 0 <= k < |arts| ==>
        arts[k].Valid() && arts[k].citationData == CitationLookup(arts[k].Get("url_citation"), None, fetch).1
    {
      var i := 0;
      while i < |arts|
        invariant 0 <= i <= |arts|
        invariant articles == old(articles) + arts[..i]
        invariant forall k :: 0 <= k < |arts| ==> arts[k].Valid()
        invariant forall k :: 0 <= k < i ==>
          arts[k].citationData == CitationLookup(arts[k].Get("url_citation"), None, fetch).1
        invariant forall k :: i <= k < |arts| ==> arts[k].citationData == None
      {
        AddArticle(arts[i], fetch);
        assert arts[..i + 1] == arts[..i] + [arts[i]];
        i := i + 1;
      }
      assert arts[..i] == arts;
    }

    /** `parse(html, choice)` on a page already read from its HTML: a new
        parser works through it; the count of results it announces is stored
        in the current query, and every article it hands on is added, also
        when parsing stops with an error. */
    method Parse(page: Page, choice: Backend, fetch: string -> Option<string>) returns (r: Outcome<Error>)
      requires Valid()
      modifies this`articles, (if query == null then {} else {query})`attrs
      ensures Valid()
      ensures r == ParseOutcome(page, choice)
      ensures |old(articles)| <= |articles| && articles[..|old(articles)|] == old(articles)
      ensures Collected(articles[|old(articles)|..], page, choice, fetch)
      ensures forall k :: |old(articles)| <= k < |articles| ==> fresh(articles[k])
      ensures query != null ==> query.attrs == CountRecorded(old(query.attrs), page, choice)
    {
      var arts, count;
      arts, count, r := RunParser(page, choice);
      RecordCount(count);
      CollectArticles(arts, page, choice, fetch);
      assert articles[|old(articles)|..] == arts;
    }

    /** The `handle_article` callbacks of one parse, taken in order: the
        articles handed on are added, each with its citation data. */
    method CollectArticles(arts: seq<ScholarArticle>, ghost page: Page, ghost choice: Backend,
                           fetch: string -> Option<string>)
      requires AttrsOf(arts) == Dispatched(SiteOf(choice), page, choice).handled && Distinct(arts)
      requires forall k :: 0 <= k < |arts| ==> arts[k].Valid() && arts[k].citationData == None
      modifies this`articles, (set a | a in arts)`citationData
      ensures articles == old(articles) + arts
      ensures Collected(arts, page, choice, fetch)
    {
      ghost var handed := AttrsOf(arts);
      AddArticles(arts, fetch);
      assert AttrsOf(arts) == handed;
    }

    /** `handle_num_results`: a count announced while a query is current is
        stored as its `num_results`. */
    method RecordCount(count: Option<int>)
      requires Valid()
      modifies (if query == null then {} else {query})`attrs
      ensures Valid()
      ensures query != null ==>
        query.attrs == if count.Some? then SetKnownAttr(old(query.attrs), "num_results", Int(count.value)) else old(query.attrs)
    {
      if count.Some? && query != null {
        query.Set("num_results", Int(count.value));
      }
    }

    /** A new parser (`self.Parser(self, choice)`) run over `page`: the
        articles it hands on and the result count it announces. */
    static method RunParser(page: Page, choice: Backend) returns (arts: seq<ScholarArticle>, count: Option<int>, r: Outcome<Error>)
      ensures AttrsOf(arts) == Dispatched(SiteOf(choice), page, choice).handled && Distinct(arts)
      ensures forall k :: 0 <= k < |arts| ==> fresh(arts[k]) && arts[k].Valid() && arts[k].citationData == None
      ensures count == if choice == GS then ResultsCount(page.header) else None
      ensures r == ParseOutcome(page, choice)
    {
      var parser := new ArticleParser(choice);
      r := parser.Parse(page, choice);
      arts := parser.handled;
      count := parser.numResults;
      assert arts[0..] == arts;
    }

    /** `send_query(query)`: the articles are cleared and the query kept;
        a query without terms raises `QueryArgumentError`; an unanswered
        request leaves no articles; otherwise the response is parsed. */
    method SendQuery(q: SearchQuery, fetch: string -> Option<string>,
                     readPage: string -> Page) returns (r: Outcome<Error>)
      requires q.Valid()
      modifies this`articles, this`query, q`attrs, q`queryTemplate, q`urlargs
      ensures query == q && Valid()
      ensures old(q.NoTerms()) ==> r == Fail(QueryArgumentError) && articles == [] && q.attrs == old(q.attrs)
      ensures !old(q.NoTerms()) ==>
        var url := QueryUrl(choice, old(q.UrlArgs(choice)));
        && (fetch(url).None? ==> r == Pass && articles == [] && q.attrs == old(q.attrs))
        && (fetch(url).Some? ==>
              && Collected(articles, readPage(fetch(url).value), choice, fetch)
              && (forall k :: 0 <= k < |articles| ==> fresh(articles[k]))
              && r == ParseOutcome(readPage(fetch(url).value), choice)
              && q.attrs == CountRecorded(old(q.attrs), readPage(fetch(url).value), choice))
      ensures old(q.NoTerms()) ==> q.queryTemplate == old(q.queryTemplate) && q.urlargs == old(q.urlargs)
      ensures !old(q.NoTerms()) ==>
        q.queryTemplate == Some(TemplateOf(choice)) && q.urlargs == QuoteArgs(old(q.UrlArgs(choice)))
    {
      ghost var noTerms := q.NoTerms();
      ghost var args := q.UrlArgs(choice);
      ghost var attrs0 := q.attrs;
      ClearArticles();
      query := q;
      assert q.NoTerms() == noTerms && q.UrlArgs(choice) == args;
      var url := q.GetUrl(choice);
      if url.Failure? {
        assert noTerms;
        return Fail(url.error);
      }
      assert url.value == QueryUrl(choice, args) && q.attrs == attrs0;
      r := FetchAndParse(url.value, fetch, readPage);
    }

    /** The rest of `send_query` once the URL is built, while no articles
        are held: the page is requested and, if it comes, parsed. */
    method FetchAndParse(url: string, fetch: string -> Option<string>, readPage: string -> Page) returns (r: Outcome<Error>)
      requires Valid() && articles == []
      modifies this`articles, (if query == null then {} else {query})`attrs
      ensures Valid()
      ensures fetch(url).None? ==> r == Pass && articles == [] && (query != null ==> query.attrs == old(query.attrs))
      ensures fetch(url).Some? ==>
        && Collected(articles, readPage(fetch(url).value), choice, fetch)
        && (forall k :: 0 <= k < |articles| ==> fresh(articles[k]))
        && r == ParseOutcome(readPage(fetch(url).value), choice)
        && (query != null ==> query.attrs == CountRecorded(old(query.attrs), readPage(fetch(url).value), choice))
    {
      var html := fetch(url);
      if html.None? {
        return Pass;
      }
      r := Parse(readPage(html.value), choice, fetch);
      assert articles[0..] == articles;
    }
  }
}
