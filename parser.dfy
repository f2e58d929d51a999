/** `ScholarArticleParser` (in its 2012 layout): turns the result fragments
    of a Google Scholar or Semantic Scholar page into `ScholarArticle`s,
    cleans each one and hands on those with a title.

    The HTML tree is not modelled: a page is given as what the parser's
    BeautifulSoup lookups would find in it (the header text of the result
    count, and, per result, the children the parser looks at). */
module Parser {
  import opened Wrappers
  import opened PyStr
  import opened Values
  import opened Article
  import opened Links
  import opened Query
  import opened PyInt

  // ---------------------------------------------------------------------
  // Page fragments

  /** An `<a>` tag: its text (all text nodes joined) and its `href`, if it
      has one. */
  datatype Anchor = Anchor(text: string, href: Option<string>)

  /** The `<h3>` of a Google Scholar result body: its `<a>`, if any, and its
      text once the `[CITATION]` spans are emptied. */
  datatype Heading = Heading(anchor: Option<Anchor>, plainText: string)

  /** One child of a Google Scholar result `div.gs_r`.
      - `isTag`: an element rather than a text node;
      - `ttss`: the links of a nested `div.gs_ttss`, if there is one;
      - `isBody`: a `div` of class `gs_ri`;
      - `heading`: its `<h3>`, if any;
      - `years`: the year matches in its `div.gs_a`, if there is one;
      - `links`: the children of its `div.gs_fl`, if there is one;
      - `excerpt`: the text nodes of its `div.gs_rs`, if there is one. */
  datatype GsChild = GsChild(
    isTag: bool,
    ttss: Option<seq<Link>>,
    isBody: bool,
    heading: Option<Heading>,
    years: Option<seq<string>>,
    links: Option<seq<Link>>,
    excerpt: Option<seq<string>>)

  /** One child of a Semantic Scholar `article.search-result`: whether it is
      a `header` of class `search-result-header`, and the `<a>` reached by
      `tag.div.div.a` (absent when a step of that chain finds nothing). */
  datatype SsChild = SsChild(isResultHeader: bool, anchor: Option<Anchor>)

  /** A results page: the text nodes of `div#gs_ab_md` (absent when there
      is no such tag), and the fragments the result checkers match. */
  datatype Page = Page(header: Option<seq<string>>, gsResults: seq<seq<GsChild>>, ssResults: seq<seq<SsChild>>)

  /** The site a parser completes relative links with. */
  function SiteOf(choice: Backend): string {
    match choice
    case GS => GS_SCHOLAR_SITE
    case SS => SS_SCHOLAR_SITE
  }

  // ---------------------------------------------------------------------
  // What parsing one result does to the article's attributes

  /** The title block of `_gs_parse_article`: the link's text and URL (and
      `url_pdf` for a PDF), or, when the `<h3>` has no usable link, its plain
      text; an `<h3>` that is missing altogether raises. */
  function TitleRule(site: string, a: Attrs, heading: Option<Heading>): Result<Attrs, Error> {
    match heading
    case None => Failure(AttributeError)
    case Some(h) =>
      if h.anchor.None? then Success(SetAttr(a, "title", Str(h.plainText)))
      else
        var a1 := SetAttr(a, "title", Str(h.anchor.value.text));
        match h.anchor.value.href
        case None => Success(SetAttr(a1, "title", Str(h.plainText)))
        case Some(href) =>
          var url := Path2Url(site, href);
          var a2 := SetAttr(a1, "url", Str(url));
          Success(if EndsWith(url, ".pdf") then SetAttr(a2, "url_pdf", Str(url)) else a2)
  }

  /** The year: the first match, or `None` when there is none. */
  function YearRule(a: Attrs, years: Option<seq<string>>): Attrs {
    if years.None? then a
    else SetAttr(a, "year", if |years.value| > 0 then Str(years.value[0]) else Null)
  }

  /** The excerpt: the text nodes joined, with newlines removed. */
  function ExcerptRule(a: Attrs, excerpt: Option<seq<string>>): Attrs {
    if excerpt.None? || |excerpt.value| == 0 then a
    else SetAttr(a, "excerpt", Str(Remove(Join("", excerpt.value), '\n')))
  }

  /** The `gs_ri` body of a result: title, year, links, excerpt. */
  function BodyRule(site: string, a: Attrs, c: GsChild): Result<Attrs, Error> {
    match TitleRule(site, a, c.heading)
    case Failure(e) => Failure(e)
    case Success(a1) =>
      var a2 := YearRule(a1, c.years);
      var r3 := if c.links.Some? then ApplyLinks(site, a2, c.links.value) else Success(a2);
      match r3
      case Failure(e) => Failure(e)
      case Success(a3) => Success(ExcerptRule(a3, c.excerpt))
  }

  /** One iteration of `_gs_parse_article`. (Its `.pdf` test is on the
      tag's markup, which starts with `<`, so it always passes.) */
  function GsChildRule(site: string, a: Attrs, c: GsChild): Result<Attrs, Error> {
    if !c.isTag then Success(a)
    else
      var r1 := if c.ttss.Some? then ApplyLinks(site, a, c.ttss.value) else Success(a);
      match r1
      case Failure(e) => Failure(e)
      case Success(a1) => if c.isBody then BodyRule(site, a1, c) else Success(a1)
  }

  function GsChildren(site: string, a: Attrs, cs: seq<GsChild>): Result<Attrs, Error> {
    if cs == [] then Success(a)
    else
      match GsChildren(site, a, cs[..|cs| - 1])
      case Failure(e) => Failure(e)
      case Success(a1) => GsChildRule(site, a1, cs[|cs| - 1])
  }

  /** The attributes `_gs_parse_article` builds from a fresh article. */
  function GsArticle(site: string, cs: seq<GsChild>): Result<Attrs, Error> {
    GsChildren(site, NewAttrs(), cs)
  }

  /** One iteration of `_ss_parse_article`. */
  function SsChildRule(site: string, a: Attrs, c: SsChild): Result<Attrs, Error> {
    if !c.isResultHeader then Success(a)
    else
      match c.anchor
      case None => Failure(AttributeError)
      case Some(anchor) =>
        var a1 := SetAttr(a, "title", Str(anchor.text));
        match anchor.href
        case None => Failure(KeyError)
        case Some(href) => Success(SetAttr(a1, "url", Str(Path2Url(site, href))))
  }

  function SsChildren(site: string, a: Attrs, cs: seq<SsChild>): Result<Attrs, Error> {
    if cs == [] then Success(a)
    else
      match SsChildren(site, a, cs[..|cs| - 1])
      case Failure(e) => Failure(e)
      case Success(a1) => SsChildRule(site, a1, cs[|cs| - 1])
  }

  /** The attributes `_ss_parse_article` builds from a fresh article. */
  function SsArticle(site: string, cs: seq<SsChild>): Result<Attrs, Error> {
    SsChildren(site, NewAttrs(), cs)
  }

  // ---------------------------------------------------------------------
  // Cleaning and dispatch

  /** `_clean_article`: a truthy title is stripped. */
  function Clean(a: Attrs): Attrs {
    var t := GetAttr(a, "title");
    if t.Str? && t.s != "" then SetAttr(a, "title", Str(Strip(t.s))) else a
  }

  /** The test before `handle_article`: the title is truthy. */
  predicate HasTitle(a: Attrs) {
    Truthy(GetAttr(a, "title"))
  }

  /** The articles handed on so far, and the exception that ended the
      parse, if any. */
  datatype Parsed = Parsed(handled: seq<Attrs>, error: Option<Error>)

  /** One result of the loop in `parse`. */
  function Step(p: Parsed, art: Result<Attrs, Error>): Parsed {
    if p.error.Some? then p
    else
      match art
      case Failure(e) => p.(error := Some(e))
      case Success(a) =>
        var c := Clean(a);
        if HasTitle(c) then p.(handled := p.handled + [c]) else p
  }

  function GsDispatch(site: string, results: seq<seq<GsChild>>): Parsed {
    if results == [] then Parsed([], None)
    else Step(GsDispatch(site, results[..|results| - 1]), GsArticle(site, results[|results| - 1]))
  }

  function SsDispatch(site: string, results: seq<seq<SsChild>>): Parsed {
    if results == [] then Parsed([], None)
    else Step(SsDispatch(site, results[..|results| - 1]), SsArticle(site, results[|results| - 1]))
  }

  /** What `parse(html, choice)` hands on. */
  function Dispatched(site: string, page: Page, choice: Backend): Parsed {
    match choice
    case GS => GsDispatch(site, page.gsResults)
    case SS => SsDispatch(site, page.ssResults)
  }

  // ---------------------------------------------------------------------
  // Properties

  /** Attributes whose keys are distinct and whose title is `None` or a
      string. */
  predicate TextTitle(a: Attrs) {
    UniqueKeys(a) && (GetAttr(a, "title").Null? || GetAttr(a, "title").Str?)
  }

  lemma SetKeepsTextTitle(a: Attrs, key: string, item: Value)
    requires TextTitle(a) && (key == "title" ==> item.Str?)
    ensures TextTitle(SetAttr(a, key, item))
    ensures key != "title" ==> GetAttr(SetAttr(a, key, item), "title") == GetAttr(a, "title")
  {
    GetSetAttr(a, key, item, "title");
  }

  /** A predicate on results: a success whose attributes keep a text
      title equal to `title`. */
  predicate KeepsTitle(r: Result<Attrs, Error>, title: Value) {
    r.Success? ==> TextTitle(r.value) && GetAttr(r.value, "title") == title
  }

  lemma CitesRuleKeepsTitle(site: string, a: Attrs, href: string, str: Option<string>)
    requires TextTitle(a) && StartsWith(href, "/scholar?cites")
    ensures KeepsTitle(CitesRule(site, a, href, str), GetAttr(a, "title"))
  {
    if str.Some? {
      var text := str.value;
      var a1 := a;
      if StartsWith(text, "Cited by") {
        SetKeepsTextTitle(a, "num_citations", CitationCount(text));
        a1 := SetAttr(a, "num_citations", CitationCount(text));
      }
      var url := CitationsUrl(site, href);
      SetKeepsTextTitle(a1, "url_citations", Str(url));
      var a2 := SetAttr(a1, "url_citations", Str(url));
      match LastCites(QueryArgs(url)) {
        case Some(id) => SetKeepsTextTitle(a2, "cluster_id", Str(id));
        case None =>
      }
    }
  }

  lemma ClusterRuleKeepsTitle(site: string, a: Attrs, href: string, str: Option<string>)
    requires TextTitle(a)
    ensures KeepsTitle(ClusterRule(site, a, href, str), GetAttr(a, "title"))
  {
    if str.Some? {
      var text := str.value;
      var words := SplitWs(text);
      if !StartsWith(text, "All ") || |words| >= 2 {
        var a1 := a;
        if StartsWith(text, "All ") {
          SetKeepsTextTitle(a, "num_versions", IntOrNull(words[1]));
          a1 := SetAttr(a, "num_versions", IntOrNull(words[1]));
        }
        SetKeepsTextTitle(a1, "url_versions", Str(StripUrlArg("num", Path2Url(site, href))));
      }
    }
  }

  /** The link rules never touch the title. */
  lemma ApplyLinkKeepsTitle(site: string, a: Attrs, link: Link)
    requires TextTitle(a)
    ensures KeepsTitle(ApplyLink(site, a, link), GetAttr(a, "title"))
  {
    if link.isAnchor && link.href.Some? {
      var href := link.href.value;
      var r1 := if StartsWith(href, "/scholar?cites") then CitesRule(site, a, href, link.str) else Success(a);
      if StartsWith(href, "/scholar?cites") {
        CitesRuleKeepsTitle(site, a, href, link.str);
      }
      if r1.Failure? {
        assert ApplyLink(site, a, link) == Failure(r1.error);
        return;
      }
      var a1 := r1.value;
      var r2 := if StartsWith(href, "/scholar?cluster") then ClusterRule(site, a1, href, link.str) else Success(a1);
      ClusterRuleKeepsTitle(site, a1, href, link.str);
      if r2.Failure? {
        assert ApplyLink(site, a, link) == Failure(r2.error);
        return;
      }
      var a2 := r2.value;
      var a3 := if StartsWith(link.text, "Import") then SetAttr(a2, "url_citation", Str(Path2Url(site, href))) else a2;
      assert ApplyLink(site, a, link) == Success(a3);
      SetKeepsTextTitle(a2, "url_citation", Str(Path2Url(site, href)));
    }
  }

  lemma {:induction false} ApplyLinksKeepTitle(site: string, a: Attrs, links: seq<Link>)
    requires TextTitle(a)
    ensures KeepsTitle(ApplyLinks(site, a, links), GetAttr(a, "title"))
    decreases |links|
  {
    if links != [] {
      ApplyLinksKeepTitle(site, a, links[..|links| - 1]);
      match ApplyLinks(site, a, links[..|links| - 1]) {
        case Failure(_) =>
        case Success(a1) => ApplyLinkKeepsTitle(site, a1, links[|links| - 1]);
      }
    }
  }

  /** The title block always leaves a text title, and it is the link's
      text exactly when the link has an `href`; otherwise the heading's
      plain text. Only a missing `<h3>` raises. */
  lemma TitleRuleTitle(site: string, a: Attrs, heading: Option<Heading>)
    requires TextTitle(a)
    ensures TitleRule(site, a, heading).Success? <==> heading.Some?
    ensures heading.Some? ==>
      var h := heading.value;
      var t := TitleRule(site, a, heading).value;
      TextTitle(t) &&
      GetAttr(t, "title") == Str(if h.anchor.Some? && h.anchor.value.href.Some? then h.anchor.value.text else h.plainText)
  {
    if heading.Some? {
      var h := heading.value;
      if h.anchor.None? {
        SetKeepsTextTitle(a, "title", Str(h.plainText));
        GetSetAttr(a, "title", Str(h.plainText), "title");
      } else {
        var a1 := SetAttr(a, "title", Str(h.anchor.value.text));
        SetKeepsTextTitle(a, "title", Str(h.anchor.value.text));
        GetSetAttr(a, "title", Str(h.anchor.value.text), "title");
        match h.anchor.value.href {
          case None =>
            SetKeepsTextTitle(a1, "title", Str(h.plainText));
            GetSetAttr(a1, "title", Str(h.plainText), "title");
          case Some(href) =>
            var url := Path2Url(site, href);
            var a2 := SetAttr(a1, "url", Str(url));
            SetKeepsTextTitle(a1, "url", Str(url));
            assert GetAttr(a2, "title") == Str(h.anchor.value.text);
            if EndsWith(url, ".pdf") {
              SetKeepsTextTitle(a2, "url_pdf", Str(url));
              assert TitleRule(site, a, heading) == Success(SetAttr(a2, "url_pdf", Str(url)));
            } else {
              assert TitleRule(site, a, heading) == Success(a2);
            }
        }
      }
    }
  }

  /** A `gs_ri` body that parses sets the title as the title block does;
      the year, link and excerpt rules leave it alone. */
  lemma BodyRuleTitle(site: string, a: Attrs, c: GsChild)
    requires TextTitle(a)
    ensures BodyRule(site, a, c).Success? ==>
      c.heading.Some? && KeepsTitle(BodyRule(site, a, c), GetAttr(TitleRule(site, a, c.heading).value, "title"))
  {
    TitleRuleTitle(site, a, c.heading);
    if c.heading.Some? {
      var a1 := TitleRule(site, a, c.heading).value;
      var title := GetAttr(a1, "title");
      var a2 := YearRule(a1, c.years);
      if c.years.Some? {
        SetKeepsTextTitle(a1, "year", if |c.years.value| > 0 then Str(c.years.value[0]) else Null);
      }
      assert KeepsTitle(Success(a2), title);
      if c.links.Some? {
        ApplyLinksKeepTitle(site, a2, c.links.value);
      }
      var r3 := if c.links.Some? then ApplyLinks(site, a2, c.links.value) else Success(a2);
      if r3.Success? {
        var a3 := r3.value;
        if c.excerpt.Some? && |c.excerpt.value| > 0 {
          SetKeepsTextTitle(a3, "excerpt", Str(Remove(Join("", c.excerpt.value), '\n')));
        }
      }
    }
  }

  /** A child that is not a `gs_ri` body never changes the title. */
  lemma GsChildRuleTitle(site: string, a: Attrs, c: GsChild)
    requires TextTitle(a)
    ensures GsChildRule(site, a, c).Success? ==> TextTitle(GsChildRule(site, a, c).value)
    ensures !c.isBody ==> KeepsTitle(GsChildRule(site, a, c), GetAttr(a, "title"))
  {
    if c.isTag {
      if c.ttss.Some? {
        ApplyLinksKeepTitle(site, a, c.ttss.value);
      }
      var r1 := if c.ttss.Some? then ApplyLinks(site, a, c.ttss.value) else Success(a);
      if r1.Success? && c.isBody {
        BodyRuleTitle(site, r1.value, c);
      }
    }
  }

  lemma {:induction false} GsChildrenTextTitle(site: string, a: Attrs, cs: seq<GsChild>)
    requires TextTitle(a)
    ensures GsChildren(site, a, cs).Success? ==> TextTitle(GsChildren(site, a, cs).value)
    decreases |cs|
  {
    if cs != [] {
      GsChildrenTextTitle(site, a, cs[..|cs| - 1]);
      match GsChildren(site, a, cs[..|cs| - 1]) {
        case Failure(_) =>
        case Success(a1) => GsChildRuleTitle(site, a1, cs[|cs| - 1]);
      }
    }
  }

  lemma NewAttrsTextTitle()
    ensures TextTitle(NewAttrs()) && GetAttr(NewAttrs(), "title") == Null
  {
    NewAttrsWellFormed();
  }

  /** A Google Scholar result that parses has distinct keys and a title that
      is `None` or a string. */
  lemma GsArticleTextTitle(site: string, cs: seq<GsChild>)
    ensures GsArticle(site, cs).Success? ==> TextTitle(GsArticle(site, cs).value)
  {
    NewAttrsTextTitle();
    GsChildrenTextTitle(site, NewAttrs(), cs);
  }

  lemma SsChildRuleTitle(site: string, a: Attrs, c: SsChild)
    requires TextTitle(a)
    ensures SsChildRule(site, a, c).Success? ==> TextTitle(SsChildRule(site, a, c).value)
    ensures SsChildRule(site, a, c).Success? && c.isResultHeader ==>
      GetAttr(SsChildRule(site, a, c).value, "title") == Str(c.anchor.value.text)
  {
    if c.isResultHeader && c.anchor.Some? && c.anchor.value.href.Some? {
      var anchor := c.anchor.value;
      var a1 := SetAttr(a, "title", Str(anchor.text));
      SetKeepsTextTitle(a, "title", Str(anchor.text));
      GetSetAttr(a, "title", Str(anchor.text), "title");
      SetKeepsTextTitle(a1, "url", Str(Path2Url(site, anchor.href.value)));
    }
  }

  lemma {:induction false} SsChildrenTextTitle(site: string, a: Attrs, cs: seq<SsChild>)
    requires TextTitle(a)
    ensures SsChildren(site, a, cs).Success? ==> TextTitle(SsChildren(site, a, cs).value)
    decreases |cs|
  {
    if cs != [] {
      SsChildrenTextTitle(site, a, cs[..|cs| - 1]);
      match SsChildren(site, a, cs[..|cs| - 1]) {
        case Failure(_) =>
        case Success(a1) => SsChildRuleTitle(site, a1, cs[|cs| - 1]);
      }
    }
  }

  /** A Semantic Scholar result that parses has distinct keys and a title
      that is `None` or a string. */
  lemma SsArticleTextTitle(site: string, cs: seq<SsChild>)
    ensures SsArticle(site, cs).Success? ==> TextTitle(SsArticle(site, cs).value)
  {
    NewAttrsTextTitle();
    SsChildrenTextTitle(site, NewAttrs(), cs);
  }

  /** An article as it is handed on: distinct keys, and a title that is a
      non-empty string without surrounding white space. */
  predicate Presentable(a: Attrs) {
    UniqueKeys(a) &&
    GetAttr(a, "title").Str? && GetAttr(a, "title").s != "" && Strip(GetAttr(a, "title").s) == GetAttr(a, "title").s
  }

  /** Cleaning keeps an article exactly when its title has something
      besides white space, and what it keeps is presentable. */
  lemma CleanKeepsTitled(a: Attrs)
    requires TextTitle(a)
    ensures HasTitle(Clean(a)) <==> GetAttr(a, "title").Str? && Strip(GetAttr(a, "title").s) != ""
    ensures HasTitle(Clean(a)) ==> Presentable(Clean(a))
  {
    var t := GetAttr(a, "title");
    if t.Str? && t.s != "" {
      var v := Str(Strip(t.s));
      GetSetAttr(a, "title", v, "title");
      assert Clean(a) == SetAttr(a, "title", v);
      assert GetAttr(Clean(a), "title") == v;
      PyStr.StripIdempotent(t.s);
    } else {
      assert Clean(a) == a;
      assert t.Str? ==> Strip(t.s) == "";
    }
  }

  predicate AllPresentable(handled: seq<Attrs>) {
    forall a :: a in handled ==> Presentable(a)
  }

  lemma PresentableSnoc(hs: seq<Attrs>, c: Attrs)
    requires AllPresentable(hs) && Presentable(c)
    ensures AllPresentable(hs + [c])
  {
  }

  lemma StepFacts(p: Parsed, art: Result<Attrs, Error>)
    requires AllPresentable(p.handled)
    requires art.Success? ==> TextTitle(art.value)
    ensures AllPresentable(Step(p, art).handled)
    ensures |p.handled| <= |Step(p, art).handled| <= |p.handled| + 1
    ensures p.error.Some? ==> Step(p, art) == p
  {
    if p.error.None? && art.Success? {
      var c := Clean(art.value);
      CleanKeepsTitled(art.value);
      if HasTitle(c) {
        assert Step(p, art).handled == p.handled + [c];
        PresentableSnoc(p.handled, c);
      } else {
        assert Step(p, art) == p;
      }
    }
  }

  /** Every article a Google Scholar parse hands on is presentable, at
      most one per result, and the first exception ends the parse. */
  lemma {:induction false} GsDispatchFacts(site: string, results: seq<seq<GsChild>>)
    ensures AllPresentable(GsDispatch(site, results).handled)
    ensures |GsDispatch(site, results).handled| <= |results|
    decreases |results|
  {
    if results != [] {
      var init := results[..|results| - 1];
      GsDispatchFacts(site, init);
      GsArticleTextTitle(site, results[|results| - 1]);
      StepFacts(GsDispatch(site, init), GsArticle(site, results[|results| - 1]));
    }
  }

  lemma {:induction false} SsDispatchFacts(site: string, results: seq<seq<SsChild>>)
    ensures AllPresentable(SsDispatch(site, results).handled)
    ensures |SsDispatch(site, results).handled| <= |results|
    decreases |results|
  {
    if results != [] {
      var init := results[..|results| - 1];
      SsDispatchFacts(site, init);
      SsArticleTextTitle(site, results[|results| - 1]);
      StepFacts(SsDispatch(site, init), SsArticle(site, results[|results| - 1]));
    }
  }

  /** Once a result raises, the results after it change nothing. */
  lemma {:induction false} GsDispatchStops(site: string, results: seq<seq<GsChild>>, j: nat)
    requires j <= |results| && GsDispatch(site, results[..j]).error.Some?
    ensures GsDispatch(site, results) == GsDispatch(site, results[..j])
    decreases |results| - j
  {
    if j < |results| {
      var init := results[..|results| - 1];
      assert init[..j] == results[..j];
      GsDispatchStops(site, init, j);
    } else {
      assert results[..j] == results;
    }
  }


  lemma {:induction false} SsDispatchStops(site: string, results: seq<seq<SsChild>>, j: nat)
    requires j <= |results| && SsDispatch(site, results[..j]).error.Some?
    ensures SsDispatch(site, results) == SsDispatch(site, results[..j])
    decreases |results| - j
  {
    if j < |results| {
      var init := results[..|results| - 1];
      assert init[..j] == results[..j];
      SsDispatchStops(site, init, j);
    } else {
      assert results[..j] == results;
    }
  }


  /** One more result: the dispatch so far, stepped by that result. */
  lemma GsDispatchSnoc(site: string, results: seq<seq<GsChild>>, i: nat)
    requires i < |results|
    ensures GsDispatch(site, results[..i + 1]) == Step(GsDispatch(site, results[..i]), GsArticle(site, results[i]))
  {
    assert results[..i + 1][..i] == results[..i];
  }

  lemma SsDispatchSnoc(site: string, results: seq<seq<SsChild>>, i: nat)
    requires i < |results|
    ensures SsDispatch(site, results[..i + 1]) == Step(SsDispatch(site, results[..i]), SsArticle(site, results[i]))
  {
    assert results[..i + 1][..i] == results[..i];
  }

  /** What `parse` hands on, for either back end. */
  lemma DispatchedFacts(site: string, page: Page, choice: Backend)
    ensures AllPresentable(Dispatched(site, page, choice).handled)
    ensures choice == GS ==> |Dispatched(site, page, choice).handled| <= |page.gsResults|
    ensures choice == SS ==> |Dispatched(site, page, choice).handled| <= |page.ssResults|
  {
    match choice {
      case GS => GsDispatchFacts(site, page.gsResults);
      case SS => SsDispatchFacts(site, page.ssResults);
    }
  }

  /** Once a child raises, the children after it change nothing. */
  lemma {:induction false} GsChildrenStops(site: string, a: Attrs, cs: seq<GsChild>, j: nat)
    requires j <= |cs| && GsChildren(site, a, cs[..j]).Failure?
    ensures GsChildren(site, a, cs) == GsChildren(site, a, cs[..j])
    decreases |cs| - j
  {
    if j < |cs| {
      var init := cs[..|cs| - 1];
      assert init[..j] == cs[..j];
      GsChildrenStops(site, a, init, j);
    } else {
      assert cs[..j] == cs;
    }
  }


  lemma {:induction false} SsChildrenStops(site: string, a: Attrs, cs: seq<SsChild>, j: nat)
    requires j <= |cs| && SsChildren(site, a, cs[..j]).Failure?
    ensures SsChildren(site, a, cs) == SsChildren(site, a, cs[..j])
    decreases |cs| - j
  {
    if j < |cs| {
      var init := cs[..|cs| - 1];
      assert init[..j] == cs[..j];
      SsChildrenStops(site, a, init, j);
    } else {
      assert cs[..j] == cs;
    }
  }


  /** The attributes of each article, in order. */
  ghost function AttrsOf(arts: seq<ScholarArticle>): (r: seq<Attrs>)
    reads (set a | a in arts)`attrs
    ensures |r| == |arts| && forall k :: 0 <= k < |arts| ==> r[k] == arts[k].attrs
  {
    if arts == [] then [] else AttrsOf(arts[..|arts| - 1]) + [arts[|arts| - 1].attrs]
  }

  predicate Distinct(arts: seq<ScholarArticle>) {
    forall k, l :: 0 <= k < l < |arts| ==> arts[k] != arts[l]
  }

  /** The articles of `h` after `prefix` are distinct objects carrying the
      attributes `expected` and, as yet, no citation data. */
  ghost predicate HandedAfter(h: seq<ScholarArticle>, prefix: seq<ScholarArticle>, expected: seq<Attrs>)
    reads h
  {
    && |prefix| <= |h| && h[..|prefix|] == prefix
    && AttrsOf(h[|prefix|..]) == expected && Distinct(h[|prefix|..])
    && forall k :: |prefix| <= k < |h| ==> h[k].citationData == None
  }

  /** Handing on one more new article without citation data extends the
      expected attributes by its own. */
  lemma HandedAfterSnoc(h: seq<ScholarArticle>, prefix: seq<ScholarArticle>, expected: seq<Attrs>, a: ScholarArticle)
    requires HandedAfter(h, prefix, expected) && a !in h && a.citationData == None
    ensures HandedAfter(h + [a], prefix, expected + [a.attrs])
  {
    var h' := h + [a];
    assert h'[..|prefix|] == h[..|prefix|];
    assert h'[|prefix|..] == h[|prefix|..] + [a];
    assert AttrsOf(h[|prefix|..] + [a]) == expected + [a.attrs];
    forall k | |prefix| <= k < |h'|
      ensures h'[k].citationData == None
    {
      if k < |h| {
        assert h'[k] == h[k];
      }
    }
  }

  // ---------------------------------------------------------------------
  // The parser object

  /** `ScholarArticleParser120726`. The callbacks `handle_article` and
      `handle_num_results` are modelled by recording what they are given:
      `handled` lists the articles handed on, in order, and `numResults` the
      last count announced. */
  class ArticleParser {
    const site: string
    var article: ScholarArticle?
    var handled: seq<ScholarArticle>
    var numResults: Option<int>

    /** A parser for the given back end: it completes relative links with
        that back end's site. */
    constructor (choice: Backend)
      ensures site == SiteOf(choice)
      ensures article == null && handled == [] && numResults == None
    {
      site := SiteOf(choice);
      article := null;
      handled := [];
      numResults := None;
    }

    /** `_strip_url_arg`: the loop that keeps the query arguments not named
        `arg`. */
    static method StripUrlArg(arg: string, url: string) returns (r: string)
      ensures r == Links.StripUrlArg(arg, url)
    {
      var parts := SplitOnce(url, '?');
      if |parts| != 2 {
        return url;
      }
      var args := Split(parts[1], '&');
      var res: seq<string> := [];
      var i := 0;
      while i < |args|
        invariant 0 <= i <= |args|
        invariant res == KeepArgs(args[..i], arg + "=")
      {
        KeepArgsSnoc(args[..i], args[i], arg + "=");
        assert args[..i + 1] == args[..i] + [args[i]];
        if !StartsWith(args[i], arg + "=") {
          res := res + [args[i]];
        }
        i := i + 1;
      }
      assert args[..|args|] == args;
      return parts[0] + "?" + Join("&", res);
    }

    /** The `cites=` loop of `_parse_links`: every matching argument
        overwrites `cluster_id`, so the last one is kept. */
    method ParseClusterIds(args: seq<string>)
      requires article != null && article.Valid()
      modifies article`attrs
      ensures article.Valid()
      ensures article.attrs == match LastCites(args)
        case Some(id) => SetAttr(old(article.attrs), "cluster_id", Str(id))
        case None => old(article.attrs)
    {
      ghost var a0 := article.attrs;
      var i := 0;
      while i < |args|
        invariant 0 <= i <= |args|
        invariant article.Valid()
        invariant article.attrs == match LastCites(args[..i])
          case Some(id) => SetAttr(a0, "cluster_id", Str(id))
          case None => a0
      {
        assert args[..i + 1][..i] == args[..i];
        if StartsWith(args[i], "cites=") {
          SetAttrTwice(a0, "cluster_id", article.Get("cluster_id"), Str(args[i][6..]));
          if LastCites(args[..i]).Some? {
            SetAttrTwice(a0, "cluster_id", Str(LastCites(args[..i]).value), Str(args[i][6..]));
          }
          article.Set("cluster_id", Str(args[i][6..]));
        }
        i := i + 1;
      }
      assert args[..|args|] == args;
    }

    /** The `/scholar?cites` block of `_parse_links`. */
    method ParseCitesLink(href: string, str: Option<string>) returns (r: Outcome<Error>)
      requires StartsWith(href, "/scholar?cites")
      requires article != null && article.Valid()
      modifies article`attrs
      ensures article.Valid()
      ensures CitesRule(site, old(article.attrs), href, str).Success? ==>
        r == Pass && article.attrs == CitesRule(site, old(article.attrs), href, str).value
      ensures CitesRule(site, old(article.attrs), href, str).Failure? ==>
        r == Fail(CitesRule(site, old(article.attrs), href, str).error)
    {
      if str.None? {
        return Fail(AttributeError);
      }
      ghost var a0 := article.attrs;
      if StartsWith(str.value, "Cited by") {
        article.Set("num_citations", CitationCount(str.value));
      }
      ghost var a1 := article.attrs;
      var url := StripUrlArg("num", Path2Url(site, href));
      assert url == CitationsUrl(site, href);
      article.Set("url_citations", Str(url));
      ghost var a2 := article.attrs;
      ParseClusterIds(QueryArgs(url));
      assert CitesRule(site, a0, href, str) == Success(article.attrs) by {
        assert a1 == if StartsWith(str.value, "Cited by") then SetAttr(a0, "num_citations", CitationCount(str.value)) else a0;
        assert a2 == SetAttr(a1, "url_citations", Str(url));
      }
      return Pass;
    }

    /** The `/scholar?cluster` block of `_parse_links`. */
    method ParseClusterLink(href: string, str: Option<string>) returns (r: Outcome<Error>)
      requires article != null && article.Valid()
      modifies article`attrs
      ensures article.Valid()
      ensures ClusterRule(site, old(article.attrs), href, str).Success? ==>
        r == Pass && article.attrs == ClusterRule(site, old(article.attrs), href, str).value
      ensures ClusterRule(site, old(article.attrs), href, str).Failure? ==>
        r == Fail(ClusterRule(site, old(article.attrs), href, str).error)
    {
      if str.None? {
        return Fail(AttributeError);
      }
      if StartsWith(str.value, "All ") {
        var words := SplitWs(str.value);
        if |words| < 2 {
          return Fail(IndexError);
        }
        article.Set("num_versions", IntOrNull(words[1]));
      }
      var url := StripUrlArg("num", Path2Url(site, href));
      article.Set("url_versions", Str(url));
      return Pass;
    }

    /** One iteration of `_parse_links`. */
    method ParseLink(link: Link) returns (r: Outcome<Error>)
      requires article != null && article.Valid()
      modifies article`attrs
      ensures article.Valid()
      ensures ApplyLink(site, old(article.attrs), link).Success? ==>
        r == Pass && article.attrs == ApplyLink(site, old(article.attrs), link).value
      ensures ApplyLink(site, old(article.attrs), link).Failure? ==>
        r == Fail(ApplyLink(site, old(article.attrs), link).error)
    {
      if !link.isAnchor || link.href.None? {
        return Pass;
      }
      var href := link.href.value;
      if StartsWith(href, "/scholar?cites") {
        r := ParseCitesLink(href, link.str);
        if r.Fail? {
          return;
        }
      }
      if StartsWith(href, "/scholar?cluster") {
        r := ParseClusterLink(href, link.str);
        if r.Fail? {
          return;
        }
      }
      if StartsWith(link.text, "Import") {
        article.Set("url_citation", Str(Path2Url(site, href)));
      }
      return Pass;
    }

    /** `_parse_links`: the links in order; the first exception ends it. */
    method ParseLinks(links: seq<Link>) returns (r: Outcome<Error>)
      requires article != null && article.Valid()
      modifies article`attrs
      ensures article.Valid()
      ensures ApplyLinks(site, old(article.attrs), links).Success? ==>
        r == Pass && article.attrs == ApplyLinks(site, old(article.attrs), links).value
      ensures ApplyLinks(site, old(article.attrs), links).Failure? ==>
        r == Fail(ApplyLinks(site, old(article.attrs), links).error)
    {
      ghost var a0 := article.attrs;
      var i := 0;
      while i < |links|
        invariant 0 <= i <= |links|
        invariant article.Valid()
        invariant ApplyLinks(site, a0, links[..i]) == Success(article.attrs)
      {
        assert links[..i + 1][..i] == links[..i];
        r := ParseLink(links[i]);
        if r.Fail? {
          ApplyLinksStops(site, a0, links, i + 1);
          return;
        }
        i := i + 1;
      }
      assert links[..|links|] == links;
      return Pass;
    }
  
    /** The title block of `_gs_parse_article`, with its `try`/`except`. */
    method ParseTitle(heading: Option<Heading>) returns (r: Outcome<Error>)
      requires article != null && article.Valid()
      modifies article`attrs
      ensures article.Valid()
      ensures TitleRule(site, old(article.attrs), heading).Success? ==>
        r == Pass && article.attrs == TitleRule(site, old(article.attrs), heading).value
      ensures TitleRule(site, old(article.attrs), heading).Failure? ==>
        r == Fail(TitleRule(site, old(article.attrs), heading).error)
    {
      if heading.None? {
        return Fail(AttributeError);
      }
      var h := heading.value;
      if h.anchor.None? {
        article.Set("title", Str(h.plainText));
        return Pass;
      }
      article.Set("title", Str(h.anchor.value.text));
      match h.anchor.value.href {
        case None =>
          article.Set("title", Str(h.plainText));
        case Some(href) =>
          article.Set("url", Str(Path2Url(site, href)));
          var url := article.Get("url");
          if EndsWith(url.s, ".pdf") {
            article.Set("url_pdf", url);
          }
      }
      return Pass;
    }

    /** The `gs_ri` block of `_gs_parse_article`. */
    method ParseBody(c: GsChild) returns (r: Outcome<Error>)
      requires article != null && article.Valid()
      modifies article`attrs
      ensures article.Valid()
      ensures BodyRule(site, old(article.attrs), c).Success? ==>
        r == Pass && article.attrs == BodyRule(site, old(article.attrs), c).value
      ensures BodyRule(site, old(article.attrs), c).Failure? ==>
        r == Fail(BodyRule(site, old(article.attrs), c).error)
    {
      ghost var a0 := article.attrs;
      r := ParseTitle(c.heading);
      if r.Fail? {
        return;
      }
      ghost var a1 := article.attrs;
      assert TitleRule(site, a0, c.heading) == Success(a1);
      if c.years.Some? {
        article.Set("year", if |c.years.value| > 0 then Str(c.years.value[0]) else Null);
      }
      ghost var a2 := article.attrs;
      assert a2 == YearRule(a1, c.years);
      if c.links.Some? {
        r := ParseLinks(c.links.value);
        if r.Fail? {
          assert BodyRule(site, a0, c) == Failure(ApplyLinks(site, a2, c.links.value).error);
          return;
        }
      }
      ghost var a3 := article.attrs;
      assert (if c.links.Some? then ApplyLinks(site, a2, c.links.value) else Success(a2)) == Success(a3);
      if c.excerpt.Some? && |c.excerpt.value| > 0 {
        var raw := Join("", c.excerpt.value);
        raw := Remove(raw, '\n');
        article.Set("excerpt", Str(raw));
      }
      assert article.attrs == ExcerptRule(a3, c.excerpt);
      return Pass;
    }

    /** One iteration of `_gs_parse_article`. */
    method ParseGsChild(c: GsChild) returns (r: Outcome<Error>)
      requires article != null && article.Valid()
      modifies article`attrs
      ensures article.Valid()
      ensures GsChildRule(site, old(article.attrs), c).Success? ==>
        r == Pass && article.attrs == GsChildRule(site, old(article.attrs), c).value
      ensures GsChildRule(site, old(article.attrs), c).Failure? ==>
        r == Fail(GsChildRule(site, old(article.attrs), c).error)
    {
      if !c.isTag {
        return Pass;
      }
      if c.ttss.Some? {
        r := ParseLinks(c.ttss.value);
        if r.Fail? {
          return;
        }
      }
      if c.isBody {
        r := ParseBody(c);
        return;
      }
      return Pass;
    }

    /** `_gs_parse_article`: a new article, completed child by child. */
    method ParseGsArticle(cs: seq<GsChild>) returns (r: Outcome<Error>)
      modifies this`article
      ensures article != null && fresh(article) && article.Valid() && article.citationData == None
      ensures GsArticle(site, cs).Success? ==> r == Pass && article.attrs == GsArticle(site, cs).value
      ensures GsArticle(site, cs).Failure? ==> r == Fail(GsArticle(site, cs).error)
    {
      article := new ScholarArticle();
      var i := 0;
      while i < |cs|
        invariant 0 <= i <= |cs|
        invariant article != null && fresh(article) && article.Valid() && article.citationData == None
        invariant GsChildren(site, NewAttrs(), cs[..i]) == Success(article.attrs)
      {
        assert cs[..i + 1][..i] == cs[..i];
        r := ParseGsChild(cs[i]);
        if r.Fail? {
          GsChildrenStops(site, NewAttrs(), cs, i + 1);
          return;
        }
        i := i + 1;
      }
      assert cs[..|cs|] == cs;
      return Pass;
    }

    /** One iteration of `_ss_parse_article`. */
    method ParseSsChild(c: SsChild) returns (r: Outcome<Error>)
      requires article != null && article.Valid()
      modifies article`attrs
      ensures article.Valid()
      ensures SsChildRule(site, old(article.attrs), c).Success? ==>
        r == Pass && article.attrs == SsChildRule(site, old(article.attrs), c).value
      ensures SsChildRule(site, old(article.attrs), c).Failure? ==>
        r == Fail(SsChildRule(site, old(article.attrs), c).error)
    {
      if !c.isResultHeader {
        return Pass;
      }
      if c.anchor.None? {
        return Fail(AttributeError);
      }
      var atag := c.anchor.value;
      article.Set("title", Str(atag.text));
      if atag.href.None? {
        return Fail(KeyError);
      }
      article.Set("url", Str(Path2Url(site, atag.href.value)));
      return Pass;
    }

    /** `_ss_parse_article`: a new article, completed child by child. */
    method ParseSsArticle(cs: seq<SsChild>) returns (r: Outcome<Error>)
      modifies this`article
      ensures article != null && fresh(article) && article.Valid() && article.citationData == None
      ensures SsArticle(site, cs).Success? ==> r == Pass && article.attrs == SsArticle(site, cs).value
      ensures SsArticle(site, cs).Failure? ==> r == Fail(SsArticle(site, cs).error)
    {
      article := new ScholarArticle();
      var i := 0;
      while i < |cs|
        invariant 0 <= i <= |cs|
        invariant article != null && fresh(article) && article.Valid() && article.citationData == None
        invariant SsChildren(site, NewAttrs(), cs[..i]) == Success(article.attrs)
      {
        assert cs[..i + 1][..i] == cs[..i];
        r := ParseSsChild(cs[i]);
        if r.Fail? {
          SsChildrenStops(site, NewAttrs(), cs, i + 1);
          return;
        }
        i := i + 1;
      }
      assert cs[..|cs|] == cs;
      return Pass;
    }

    /** `_parse_globals`: the count is reported only when the header has one. */
    method ParseGlobals(header: Option<seq<string>>)
      modifies this`numResults
      ensures numResults == if ResultsCount(header).Some? then ResultsCount(header) else old(numResults)
    {
      if header.Some? && |header.value| > 0 {
        var words := SplitWs(header.value[0]);
        if |words| >= 2 {
          var count := Remove(words[1], ',');
          var n := ParseInt(count);
          if n.Some? {
            numResults := n;
          }
        }
      }
    }

    /** The articles handed on after `prefix` are distinct objects carrying
        the attributes `expected` and, as yet, no citation data. */
    ghost predicate HandedOn(prefix: seq<ScholarArticle>, expected: seq<Attrs>)
      reads this, handled
    {
      HandedAfter(handled, prefix, expected)
    }

    /** Articles handed on with presentable attributes are valid. */
    lemma HandedOnValid(prefix: seq<ScholarArticle>, expected: seq<Attrs>)
      requires HandedOn(prefix, expected) && AllPresentable(expected)
      ensures forall k :: |prefix| <= k < |handled| ==> handled[k].Valid()
    {
      forall k | |prefix| <= k < |handled|
        ensures handled[k].Valid()
      {
        assert handled[k] == handled[|prefix|..][k - |prefix|];
        assert handled[k].attrs == expected[k - |prefix|];
        assert Presentable(expected[k - |prefix|]);
      }
    }

    /** `_clean_article`: a truthy title is stripped. */
    method CleanArticle()
      requires article != null && TextTitle(article.attrs)
      modifies article`attrs
      ensures article.attrs == Clean(old(article.attrs)) && article.Valid()
    {
      var t := article.Get("title");
      if Truthy(t) {
        article.Set("title", Str(Strip(t.s)));
      }
    }

    /** The test that ends one iteration of `parse`: an article whose title
        is truthy is handed on. */
    method HandOnIfTitled(ghost prefix: seq<ScholarArticle>, ghost expected: seq<Attrs>)
      requires article != null && article !in handled && HandedOn(prefix, expected)
      requires article.citationData == None
      modifies this`handled
      ensures handled == old(handled) + if HasTitle(article.attrs) then [article] else []
      ensures HandedOn(prefix, expected + if HasTitle(article.attrs) then [article.attrs] else [])
    {
      if Truthy(article.Get("title")) {
        HandedAfterSnoc(handled, prefix, expected, article);
        handled := handled + [article];
      }
    }

    /** One Google Scholar result of `parse`: it is parsed, cleaned and, if
        it has a title, handed on; an exception leaves `handled` as it was. */
    method ParseGsResult(cs: seq<GsChild>, ghost prefix: seq<ScholarArticle>, ghost expected: seq<Attrs>)
      returns (r: Outcome<Error>)
      requires HandedOn(prefix, expected)
      modifies this`article, this`handled
      ensures article != null && fresh(article) && article.citationData == None
      ensures handled == old(handled) || handled == old(handled) + [article]
      ensures GsArticle(site, cs).Failure? ==>
        r == Fail(GsArticle(site, cs).error) && handled == old(handled) && HandedOn(prefix, expected)
      ensures GsArticle(site, cs).Success? ==>
        r == Pass &&
        handled == old(handled) + (if HasTitle(Clean(GsArticle(site, cs).value)) then [article] else []) &&
        HandedOn(prefix, Step(Parsed(expected, None), GsArticle(site, cs)).handled)
    {
      r := ParseGsArticle(cs);
      if r.Fail? {
        return;
      }
      GsArticleTextTitle(site, cs);
      assert article !in handled;
      ghost var before := handled[|prefix|..];
      CleanArticle();
      assert AttrsOf(before) == expected;
      HandOnIfTitled(prefix, expected);
    }

    /** One pass of the Google Scholar loop, with the state of the dispatch
        it advances. */
    method GsLoopStep(results: seq<seq<GsChild>>, i: nat, ghost h0: seq<ScholarArticle>, ghost p: Parsed)
      returns (r: Outcome<Error>, ghost next: Parsed)
      requires i < |results| && p == GsDispatch(site, results[..i])
      requires p.error.None? && HandedOn(h0, p.handled)
      modifies this`article, this`handled
      ensures next == GsDispatch(site, results[..i + 1])
      ensures HandedOn(h0, next.handled)
      ensures r == if next.error.Some? then Fail(next.error.value) else Pass
      ensures handled == old(handled) || (handled == old(handled) + [article] && fresh(article))
    {
      GsDispatchSnoc(site, results, i);
      r := ParseGsResult(results[i], h0, p.handled);
      assert p == Parsed(p.handled, None);
      next := Step(p, GsArticle(site, results[i]));
    }

    /** The Google Scholar loop of `parse`. */
    method ParseGsResults(results: seq<seq<GsChild>>) returns (r: Outcome<Error>)
      modifies this`article, this`handled
      ensures HandedOn(old(handled), GsDispatch(site, results).handled)
      ensures r == if GsDispatch(site, results).error.Some? then Fail(GsDispatch(site, results).error.value) else Pass
      ensures forall k :: |old(handled)| <= k < |handled| ==> fresh(handled[k])
      ensures forall k :: |old(handled)| <= k < |handled| ==> handled[k].Valid()
    {
      ghost var h0 := handled;
      r := RunGsResults(results);
      GsDispatchFacts(site, results);
      HandedOnValid(h0, GsDispatch(site, results).handled);
    }

    /** The loop itself. */
    method RunGsResults(results: seq<seq<GsChild>>) returns (r: Outcome<Error>)
      modifies this`article, this`handled
      ensures HandedOn(old(handled), GsDispatch(site, results).handled)
      ensures r == if GsDispatch(site, results).error.Some? then Fail(GsDispatch(site, results).error.value) else Pass
      ensures forall k :: |old(handled)| <= k < |handled| ==> fresh(handled[k])
    {
      ghost var h0 := handled;
      ghost var p := Parsed([], None);
      r := Pass;
      var i := 0;
      while i < |results| && r.Pass?
        invariant 0 <= i <= |results|
        invariant p == GsDispatch(site, results[..i])
        invariant r == (if p.error.Some? then Fail(p.error.value) else Pass)
        invariant HandedOn(h0, p.handled)
        invariant forall k :: |h0| <= k < |handled| ==> fresh(handled[k])
      {
        ghost var hb := handled;
        r, p := GsLoopStep(results, i, h0, p);
        forall k | |h0| <= k < |handled|
          ensures fresh(handled[k])
        {
          if k < |hb| {
            assert handled[k] == hb[k];
          }
        }
        i := i + 1;
      }
      if r.Fail? {
        GsDispatchStops(site, results, i);
      } else {
        assert results[..i] == results;
      }
    }

    /** One Semantic Scholar result of `parse`: it is parsed, cleaned and, if
        it has a title, handed on; an exception leaves `handled` as it was. */
    method ParseSsResult(cs: seq<SsChild>, ghost prefix: seq<ScholarArticle>, ghost expected: seq<Attrs>)
      returns (r: Outcome<Error>)
      requires HandedOn(prefix, expected)
      modifies this`article, this`handled
      ensures article != null && fresh(article) && article.citationData == None
      ensures handled == old(handled) || handled == old(handled) + [article]
      ensures SsArticle(site, cs).Failure? ==>
        r == Fail(SsArticle(site, cs).error) && handled == old(handled) && HandedOn(prefix, expected)
      ensures SsArticle(site, cs).Success? ==>
        r == Pass &&
        handled == old(handled) + (if HasTitle(Clean(SsArticle(site, cs).value)) then [article] else []) &&
        HandedOn(prefix, Step(Parsed(expected, None), SsArticle(site, cs)).handled)
    {
      r := ParseSsArticle(cs);
      if r.Fail? {
        return;
      }
      SsArticleTextTitle(site, cs);
      assert article !in handled;
      ghost var before := handled[|prefix|..];
      CleanArticle();
      assert AttrsOf(before) == expected;
      HandOnIfTitled(prefix, expected);
    }

    /** One pass of the Semantic Scholar loop, with the state of the dispatch
        it advances. */
    method SsLoopStep(results: seq<seq<SsChild>>, i: nat, ghost h0: seq<ScholarArticle>, ghost p: Parsed)
      returns (r: Outcome<Error>, ghost next: Parsed)
      requires i < |results| && p == SsDispatch(site, results[..i])
      requires p.error.None? && HandedOn(h0, p.handled)
      modifies this`article, this`handled
      ensures next == SsDispatch(site, results[..i + 1])
      ensures HandedOn(h0, next.handled)
      ensures r == if next.error.Some? then Fail(next.error.value) else Pass
      ensures handled == old(handled) || (handled == old(handled) + [article] && fresh(article))
    {
      SsDispatchSnoc(site, results, i);
      r := ParseSsResult(results[i], h0, p.handled);
      assert p == Parsed(p.handled, None);
      next := Step(p, SsArticle(site, results[i]));
    }

    /** The Semantic Scholar loop of `parse`. */
    method ParseSsResults(results: seq<seq<SsChild>>) returns (r: Outcome<Error>)
      modifies this`article, this`handled
      ensures HandedOn(old(handled), SsDispatch(site, results).handled)
      ensures r == if SsDispatch(site, results).error.Some? then Fail(SsDispatch(site, results).error.value) else Pass
      ensures forall k :: |old(handled)| <= k < |handled| ==> fresh(handled[k])
      ensures forall k :: |old(handled)| <= k < |handled| ==> handled[k].Valid()
    {
      ghost var h0 := handled;
      r := RunSsResults(results);
      SsDispatchFacts(site, results);
      HandedOnValid(h0, SsDispatch(site, results).handled);
    }

    /** The loop itself. */
    method RunSsResults(results: seq<seq<SsChild>>) returns (r: Outcome<Error>)
      modifies this`article, this`handled
      ensures HandedOn(old(handled), SsDispatch(site, results).handled)
      ensures r == if SsDispatch(site, results).error.Some? then Fail(SsDispatch(site, results).error.value) else Pass
      ensures forall k :: |old(handled)| <= k < |handled| ==> fresh(handled[k])
    {
      ghost var h0 := handled;
      ghost var p := Parsed([], None);
      r := Pass;
      var i := 0;
      while i < |results| && r.Pass?
        invariant 0 <= i <= |results|
        invariant p == SsDispatch(site, results[..i])
        invariant r == (if p.error.Some? then Fail(p.error.value) else Pass)
        invariant HandedOn(h0, p.handled)
        invariant forall k :: |h0| <= k < |handled| ==> fresh(handled[k])
      {
        ghost var hb := handled;
        r, p := SsLoopStep(results, i, h0, p);
        forall k | |h0| <= k < |handled|
          ensures fresh(handled[k])
        {
          if k < |hb| {
            assert handled[k] == hb[k];
          }
        }
        i := i + 1;
      }
      if r.Fail? {
        SsDispatchStops(site, results, i);
      } else {
        assert results[..i] == results;
      }
    }

    /** `parse(html, choice)`: for Google Scholar the result count first,
        then each result of the chosen back end in turn. */
    method Parse(page: Page, choice: Backend) returns (r: Outcome<Error>)
      modifies this`article, this`handled, this`numResults
      ensures HandedOn(old(handled), Dispatched(site, page, choice).handled)
      ensures r == if Dispatched(site, page, choice).error.Some? then Fail(Dispatched(site, page, choice).error.value) else Pass
      ensures forall k :: |old(handled)| <= k < |handled| ==> fresh(handled[k]) && handled[k].Valid()
      ensures forall k :: |old(handled)| <= k < |handled| ==> handled[k].citationData == None
      ensures numResults == if choice == GS && ResultsCount(page.header).Some? then ResultsCount(page.header) else old(numResults)
    {
      if choice == GS {
        ParseGlobals(page.header);
        r := ParseGsResults(page.gsResults);
      } else {
        r := ParseSsResults(page.ssResults);
      }
    }
  }
}
