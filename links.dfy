/** The string rules of `ScholarArticleParser`: turning a path into an
    absolute URL, removing one argument from a URL's query component
    (section 3.4 of RFC 3986), testing a tag's class attribute, reading the
    citation and version links of a result, and reading the total number of
    results from the page header. */
module Links {
  import opened Wrappers
  import opened PyStr
  import opened PyInt
  import opened Values
  import opened Article

  const GS_SCHOLAR_SITE: string := "http://scholar.google.com"
  const SS_SCHOLAR_SITE: string := "http://semanticscholar.org"

  /** `_path2url`: an `http://` URL is kept; anything else is appended to the
      site, after a `/` that is added only when the path lacks one. */
  function Path2Url(site: string, path: string): (url: string)
    ensures StartsWith(path, "http://") ==> url == path
    ensures StartsWith(site, "http://") ==> StartsWith(url, "http://")
    ensures !StartsWith(path, "http://") ==>
      |url| > |site| && url[..|site|] == site && url[|site|] == '/' &&
      url[|site| + 1..] == (if StartsWith(path, "/") then path[1..] else path)
  {
    if StartsWith(path, "http://") then path
    else
      var p := if StartsWith(path, "/") then path else "/" + path;
      assert (site + p)[..|site|] == site;
      assert (site + p)[|site|..] == p;
      assert p[1..] == (if StartsWith(path, "/") then path[1..] else path);
      site + p
  }

  /** The arguments that do not start with `prefix`, in their order. */
  function KeepArgs(args: seq<string>, prefix: string): (r: seq<string>)
    ensures forall i :: 0 <= i < |r| ==> !StartsWith(r[i], prefix) && r[i] in args
    ensures |r| <= |args|
  {
    if args == [] then []
    else (if StartsWith(args[0], prefix) then [] else [args[0]]) + KeepArgs(args[1..], prefix)
  }

  /** Keeping is done one argument at a time, front to back. */
  lemma {:induction false} KeepArgsSnoc(args: seq<string>, x: string, prefix: string)
    ensures KeepArgs(args + [x], prefix) == KeepArgs(args, prefix) + (if StartsWith(x, prefix) then [] else [x])
    decreases |args|
  {
    if args == [] {
      assert [x][1..] == [];
    } else {
      assert (args + [x])[1..] == args[1..] + [x];
      KeepArgsSnoc(args[1..], x, prefix);
    }
  }

  /** `_strip_url_arg(arg, url)` */
  function StripUrlArg(arg: string, url: string): string {
    var parts := SplitOnce(url, '?');
    if |parts| != 2 then url
    else parts[0] + "?" + Join("&", KeepArgs(Split(parts[1], '&'), arg + "="))
  }

  /** The `name=value` arguments of a URL's query component: what follows the
      first `?`, split at `&`. */
  function QueryArgs(url: string): seq<string>
    requires '?' in url
  {
    Split(SplitOnce(url, '?')[1], '&')
  }

  // ---------------------------------------------------------------------

  /** A URL without `?` is returned unchanged. */
  lemma StripWithoutQuery(arg: string, url: string)
    requires '?' !in url
    ensures StripUrlArg(arg, url) == url
  {
  }

  lemma {:induction false} KeepArgsIdempotent(args: seq<string>, prefix: string)
    requires forall i :: 0 <= i < |args| ==> !StartsWith(args[i], prefix)
    ensures KeepArgs(args, prefix) == args
  {
    if args != [] {
      KeepArgsIdempotent(args[1..], prefix);
      assert args == [args[0]] + args[1..];
    }
  }

  lemma KeepArgsHaveNoAmpersand(args: seq<string>, prefix: string)
    requires forall i :: 0 <= i < |args| ==> '&' !in args[i]
    ensures forall i :: 0 <= i < |KeepArgs(args, prefix)| ==> '&' !in KeepArgs(args, prefix)[i]
  {
  }

  /** The query component of a stripped URL: the kept arguments, or one
      empty argument when none was kept. */
  lemma StrippedQuery(arg: string, url: string)
    requires '?' in url
    ensures var r := StripUrlArg(arg, url);
      var kept := KeepArgs(Split(SplitOnce(url, '?')[1], '&'), arg + "=");
      && '?' in r
      && SplitOnce(r, '?')[0] == SplitOnce(url, '?')[0]
      && QueryArgs(r) == (if kept == [] then [""] else kept)
  {
    var parts := SplitOnce(url, '?');
    var kept := KeepArgs(Split(parts[1], '&'), arg + "=");
    var q := Join("&", kept);
    var r := parts[0] + "?" + q;
    assert r == parts[0] + ['?'] + q;
    SplitOnceAt(parts[0], q);
    KeepArgsHaveNoAmpersand(Split(parts[1], '&'), arg + "=");
    if kept == [] {
      assert q == "";
    } else {
      SplitJoin(kept, '&');
    }
  }

  /** Splitting at the first `?` of `a + "?" + b` gives `a` and `b` when `a`
      has no `?`. */
  lemma SplitOnceAt(a: string, b: string)
    requires '?' !in a
    ensures SplitOnce(a + ['?'] + b, '?') == [a, b]
  {
    var s := a + ['?'] + b;
    var i := Find(s, '?');
    assert s[|a|] == '?';
    assert s[..|a|] == a;
    assert i == |a|;
    assert s[i + 1..] == b;
  }

  /** After stripping, no argument of the query starts with `arg=`; the text
      before the `?` is kept. */
  lemma StripRemovesArg(arg: string, url: string)
    requires '?' in url
    ensures var r := StripUrlArg(arg, url);
      '?' in r &&
      SplitOnce(r, '?')[0] == SplitOnce(url, '?')[0] &&
      forall i :: 0 <= i < |QueryArgs(r)| ==> !StartsWith(QueryArgs(r)[i], arg + "=")
  {
    StrippedQuery(arg, url);
    var kept := KeepArgs(Split(SplitOnce(url, '?')[1], '&'), arg + "=");
    KeptHaveNoPrefix(kept, arg + "=", QueryArgs(StripUrlArg(arg, url)));
  }

  /** The arguments kept, or the single empty argument of an empty query,
      none of which starts with a non-empty prefix. */
  lemma KeptHaveNoPrefix(kept: seq<string>, prefix: string, args: seq<string>)
    requires prefix != [] && forall i :: 0 <= i < |kept| ==> !StartsWith(kept[i], prefix)
    requires args == (if kept == [] then [""] else kept)
    ensures forall i :: 0 <= i < |args| ==> !StartsWith(args[i], prefix)
  {
    if kept == [] {
      assert !StartsWith("", prefix);
    }
  }

  /** Stripping the same argument twice is stripping it once. */
  lemma StripIdempotent(arg: string, url: string)
    ensures StripUrlArg(arg, StripUrlArg(arg, url)) == StripUrlArg(arg, url)
  {
    if '?' in url {
      var r := StripUrlArg(arg, url);
      StrippedQuery(arg, url);
      var parts := SplitOnce(url, '?');
      var kept := KeepArgs(Split(parts[1], '&'), arg + "=");
      var args := QueryArgs(r);
      assert forall i :: 0 <= i < |args| ==> !StartsWith(args[i], arg + "=");
      KeepArgsIdempotent(args, arg + "=");
      if kept == [] {
        assert Join("&", [""]) == "";
      }
    }
  }

  /** A path that is not an `http://` URL becomes one on an `http://` site,
      so a second application changes nothing. */
  lemma Path2UrlIdempotent(site: string, path: string)
    requires StartsWith(site, "http://")
    ensures Path2Url(site, Path2Url(site, path)) == Path2Url(site, path)
  {
  }

  // ---------------------------------------------------------------------
  // Class attributes

  /** What `tag.get('class')` returns: nothing, a list (BeautifulSoup 4) or
      one space-separated string (BeautifulSoup 3). */
  datatype ClassAttr = NoClass | ClassList(names: seq<string>) | ClassText(text: string)

  /** The class names `_tag_has_class` looks through. */
  function ClassNames(attr: ClassAttr): seq<string> {
    match attr
    case NoClass => []
    case ClassList(names) => names
    case ClassText(text) => SplitWs(text)
  }

  /** `_tag_has_class(tag, klass)` */
  predicate TagHasClass(attr: ClassAttr, klass: string) {
    klass in ClassNames(attr)
  }

  /** The two renderings of a class attribute agree: a list of class names and
      the same names joined by single spaces. */
  lemma ClassRenderingsAgree(names: seq<string>, klass: string)
    requires forall i :: 0 <= i < |names| ==> IsToken(names[i])
    ensures TagHasClass(ClassText(Join(" ", names)), klass) <==> TagHasClass(ClassList(names), klass)
  {
    SplitWsJoin(names);
  }

  /** A class string only ever matches a non-empty name without white space. */
  lemma ClassTextMatchesOnlyTokens(text: string, klass: string)
    requires TagHasClass(ClassText(text), klass)
    ensures IsToken(klass)
  {
  }

  // ---------------------------------------------------------------------
  // Link rules of `_parse_links`

  /** A child of the links block: whether it is an `<a>` tag, its `href`,
      its `.string` (absent when the tag has several children) and its whole
      text. */
  datatype Link = Link(isAnchor: bool, href: Option<string>, str: Option<string>, text: string)

  /** The value of the last argument that starts with `cites=`. */
  function LastCites(args: seq<string>): (r: Option<string>)
    ensures r.None? <==> forall i :: 0 <= i < |args| ==> !StartsWith(args[i], "cites=")
    ensures r.Some? ==> exists i :: (0 <= i < |args| && StartsWith(args[i], "cites=") &&
      r.value == args[i][6..] &&
      forall j :: i < j < |args| ==> !StartsWith(args[j], "cites="))
  {
    if args == [] then None
    else
      var last := args[|args| - 1];
      if StartsWith(last, "cites=") then Some(last[6..])
      else
        var r := LastCites(args[..|args| - 1]);
        assert forall i :: 0 <= i < |args| - 1 ==> args[..|args| - 1][i] == args[i];
        r
  }

  lemma SplitWsOfNonBlank(s: string, k: nat)
    requires k < |s| && !IsSpace(s[k])
    ensures |SplitWs(s)| > 0
  {
    LStripRemovesSpace(s);
  }

  /** A "Cited by" text has at least one word. */
  lemma CitedByHasWords(text: string)
    requires StartsWith(text, "Cited by")
    ensures |SplitWs(text)| > 0
  {
    assert text[0] == "Cited by"[0] == 'C';
    SplitWsOfNonBlank(text, 0);
  }

  /** `_as_int` on a word: an `int` value, or `None` when the word is not
      numeric. */
  function IntOrNull(word: string): (v: Value)
    ensures v.Null? || v.Int?
  {
    match ParseInt(word)
    case Some(n) => Int(n)
    case None => Null
  }

  /** The count of a "Cited by" link: its last word as an int. */
  function CitationCount(text: string): Value
    requires StartsWith(text, "Cited by")
  {
    CitedByHasWords(text);
    var words := SplitWs(text);
    IntOrNull(words[|words| - 1])
  }

  /** The citations URL of a link: the absolute URL with `num=` removed. */
  function CitationsUrl(site: string, href: string): (url: string)
    requires StartsWith(href, "/scholar?cites")
    ensures '?' in url
  {
    CitesHrefIsQuery(href);
    CitesUrlHasQuery(site, href);
    StripUrlArg("num", Path2Url(site, href))
  }

  /** A citations link is a Scholar query link. */
  lemma CitesHrefIsQuery(href: string)
    requires StartsWith(href, "/scholar?cites")
    ensures StartsWith(href, "/scholar?")
    ensures href[0] == '/' && href[8] == '?'
  {
    assert href[..9] == href[..14][..9];
    assert href[0] == "/scholar?cites"[0];
    assert href[8] == "/scholar?cites"[8];
  }

  /** The citation rule: `num_citations` from the last word of a "Cited by"
      text, `url_citations` with `num=` removed, `cluster_id` from the last
      `cites=` argument of that URL. */
  function CitesRule(site: string, a: Attrs, href: string, str: Option<string>): Result<Attrs, Error>
    requires StartsWith(href, "/scholar?cites")
  {
    if str.None? then Failure(AttributeError)
    else
      var a1 := if StartsWith(str.value, "Cited by") then SetAttr(a, "num_citations", CitationCount(str.value)) else a;
      var url := CitationsUrl(site, href);
      var a2 := SetAttr(a1, "url_citations", Str(url));
      match LastCites(QueryArgs(url))
      case Some(id) => Success(SetAttr(a2, "cluster_id", Str(id)))
      case None => Success(a2)
  }

  lemma Path2UrlOfSlashPath(site: string, href: string)
    requires |href| > 0 && href[0] == '/'
    ensures Path2Url(site, href) == site + href
  {
    assert !StartsWith(href, "http://") by {
      assert href[0] != "http://"[0];
    }
  }

  /** The URL of a citations link always has a query component. */
  lemma CitesUrlHasQuery(site: string, href: string)
    requires StartsWith(href, "/scholar?")
    ensures '?' in Path2Url(site, href)
    ensures '?' in StripUrlArg("num", Path2Url(site, href))
  {
    assert href[0] == '/' && href[8] == '?';
    Path2UrlOfSlashPath(site, href);
    var u := Path2Url(site, href);
    assert u[|site| + 8] == '?';
    StrippedQuery("num", u);
  }

  /** The versions rule: `num_versions` from the second word of an "All ..."
      text, `url_versions` with `num=` removed. */
  function ClusterRule(site: string, a: Attrs, href: string, str: Option<string>): Result<Attrs, Error> {
    if str.None? then Failure(AttributeError)
    else
      var text := str.value;
      var words := SplitWs(text);
      if StartsWith(text, "All ") && |words| < 2 then Failure(IndexError)
      else
        var a1 := if StartsWith(text, "All ") then SetAttr(a, "num_versions", IntOrNull(words[1])) else a;
        Success(SetAttr(a1, "url_versions", Str(StripUrlArg("num", Path2Url(site, href)))))
  }

  /** One iteration of `_parse_links`. */
  function ApplyLink(site: string, a: Attrs, link: Link): Result<Attrs, Error> {
    if !link.isAnchor || link.href.None? then Success(a)
    else
      var href := link.href.value;
      var r1 := if StartsWith(href, "/scholar?cites") then CitesRule(site, a, href, link.str) else Success(a);
      match r1
      case Failure(e) => Failure(e)
      case Success(a1) =>
        var r2 := if StartsWith(href, "/scholar?cluster") then ClusterRule(site, a1, href, link.str) else Success(a1);
        match r2
        case Failure(e) => Failure(e)
        case Success(a2) =>
          Success(if StartsWith(link.text, "Import") then SetAttr(a2, "url_citation", Str(Path2Url(site, href))) else a2)
  }

  /** `_parse_links` over the whole block; the first exception ends it. */
  function ApplyLinks(site: string, a: Attrs, links: seq<Link>): Result<Attrs, Error>
    decreases |links|
  {
    if links == [] then Success(a)
    else
      match ApplyLinks(site, a, links[..|links| - 1])
      case Failure(e) => Failure(e)
      case Success(a1) => ApplyLink(site, a1, links[|links| - 1])
  }


  /** Once a link raises, the links after it change nothing. */
  lemma {:induction false} ApplyLinksStops(site: string, a: Attrs, links: seq<Link>, j: nat)
    requires j <= |links| && ApplyLinks(site, a, links[..j]).Failure?
    ensures ApplyLinks(site, a, links) == ApplyLinks(site, a, links[..j])
    decreases |links| - j
  {
    if j < |links| {
      var init := links[..|links| - 1];
      assert init[..j] == links[..j];
      ApplyLinksStops(site, a, init, j);
    } else {
      assert links[..j] == links;
    }
  }


  // ---------------------------------------------------------------------
  // Global result count (`_parse_globals`)

  /** The number of results announced in the header text pieces, or `None`
      when there is no header, no second word, or that word (commas removed)
      is not numeric. */
  function ResultsCount(header: Option<seq<string>>): Option<int> {
    if header.None? || |header.value| == 0 then None
    else
      var words := SplitWs(header.value[0]);
      if |words| < 2 then None
      else ParseInt(Remove(words[1], ','))
  }

  /** A header "<word> <count> ..." announces the count, with or without
      thousands separators. */
  lemma ResultsCountOfHeader(w: string, count: string, n: nat, more: seq<string>, rest: seq<string>)
    requires IsToken(w) && IsToken(count)
    requires forall i :: 0 <= i < |more| ==> IsToken(more[i])
    requires Remove(count, ',') == NatToString(n)
    ensures ResultsCount(Some([Join(" ", [w, count] + more)] + rest)) == Some(n)
  {
    var words := [w, count] + more;
    HeaderWords(w, count, more);
    var header := [Join(" ", words)] + rest;
    assert header[0] == Join(" ", words);
    assert SplitWs(header[0])[1] == count;
    ParseIntOfIntToString(n);
  }

  lemma HeaderWords(w: string, count: string, more: seq<string>)
    requires IsToken(w) && IsToken(count)
    requires forall i :: 0 <= i < |more| ==> IsToken(more[i])
    ensures SplitWs(Join(" ", [w, count] + more)) == [w, count] + more
  {
    HeaderShape(w, count, more);
    if more == [] {
      SplitWsCons(w, count);
      SplitWsToken(count);
    } else {
      SplitWsJoin(more);
      SplitWsJoinCons(count, more);
      SplitWsJoinCons(w, [count] + more);
    }
  }

  lemma HeaderShape(w: string, count: string, more: seq<string>)
    ensures [w, count] + more == [w] + ([count] + more)
    ensures more == [] ==> Join(" ", [w, count] + more) == w + (" " + count)
  {
  }

  // ---------------------------------------------------------------------
  // Properties of the link rules

  /** The three attributes the citation rule writes have distinct names. */
  lemma CitesKeysDistinct()
    ensures "url_citations" != "num_citations"
    ensures "url_citations" != "cluster_id" && "num_citations" != "cluster_id"
  {
    assert "url_citations"[0] != "num_citations"[0];
  }

  /** The citations URL keeps the link's path and has no `num=` argument. */
  lemma CitationsUrlHasNoNum(site: string, href: string)
    requires StartsWith(href, "/scholar?cites")
    ensures SplitOnce(CitationsUrl(site, href), '?')[0] == SplitOnce(site + href, '?')[0]
    ensures forall i :: 0 <= i < |QueryArgs(CitationsUrl(site, href))| ==>
      !StartsWith(QueryArgs(CitationsUrl(site, href))[i], "num=")
  {
    CitesHrefIsQuery(href);
    CitesUrlHasQuery(site, href);
    Path2UrlOfSlashPath(site, href);
    var u := Path2Url(site, href);
    assert u == site + href;
    var url := CitationsUrl(site, href);
    assert url == StripUrlArg("num", u);
    StripRemovesArg("num", u);
    NumArgPrefix();
    assert '?' in url;
    assert SplitOnce(url, '?')[0] == SplitOnce(u, '?')[0];
  }

  lemma NumArgPrefix()
    ensures "num" + "=" == "num="
  {
  }

  /** A "Cited by" link stores its citations URL. */
  lemma CitesRuleUrl(site: string, a: Attrs, href: string, text: string)
    requires UniqueKeys(a)
    requires StartsWith(href, "/scholar?cites")
    ensures CitesRule(site, a, href, Some(text)).Success?
    ensures GetAttr(CitesRule(site, a, href, Some(text)).value, "url_citations") == Str(CitationsUrl(site, href))
  {
    var url := CitationsUrl(site, href);
    CitesKeysDistinct();
    var a1 := if StartsWith(text, "Cited by") then SetAttr(a, "num_citations", CitationCount(text)) else a;
    if StartsWith(text, "Cited by") {
      GetSetAttr(a, "num_citations", CitationCount(text), "url_citations");
    }
    var a2 := SetAttr(a1, "url_citations", Str(url));
    GetSetAttr(a1, "url_citations", Str(url), "url_citations");
    match LastCites(QueryArgs(url)) {
      case Some(id) => GetSetAttr(a2, "cluster_id", Str(id), "url_citations");
      case None =>
    }
  }

  /** A "Cited by" text sets `num_citations` to its last word; any other text
      leaves it as it was. */
  lemma CitesRuleCount(site: string, a: Attrs, href: string, text: string)
    requires UniqueKeys(a)
    requires StartsWith(href, "/scholar?cites")
    ensures CitesRule(site, a, href, Some(text)).Success?
    ensures var n := GetAttr(CitesRule(site, a, href, Some(text)).value, "num_citations");
      && (StartsWith(text, "Cited by") ==> n == CitationCount(text))
      && (!StartsWith(text, "Cited by") ==> n == GetAttr(a, "num_citations"))
  {
    var url := CitationsUrl(site, href);
    CitesKeysDistinct();
    var a1 := if StartsWith(text, "Cited by") then SetAttr(a, "num_citations", CitationCount(text)) else a;
    if StartsWith(text, "Cited by") {
      GetSetAttr(a, "num_citations", CitationCount(text), "num_citations");
    }
    var a2 := SetAttr(a1, "url_citations", Str(url));
    GetSetAttr(a1, "url_citations", Str(url), "num_citations");
    match LastCites(QueryArgs(url)) {
      case Some(id) => GetSetAttr(a2, "cluster_id", Str(id), "num_citations");
      case None =>
    }
  }

  /** The cluster id is the value of the URL's last `cites=` argument; a URL
      without one leaves `cluster_id` as it was. */
  lemma CitesRuleCluster(site: string, a: Attrs, href: string, text: string)
    requires UniqueKeys(a)
    requires StartsWith(href, "/scholar?cites")
    ensures CitesRule(site, a, href, Some(text)).Success?
    ensures var c := GetAttr(CitesRule(site, a, href, Some(text)).value, "cluster_id");
      match LastCites(QueryArgs(CitationsUrl(site, href)))
      case Some(id) => c == Str(id)
      case None => c == GetAttr(a, "cluster_id")
  {
    var url := CitationsUrl(site, href);
    CitesKeysDistinct();
    var a1 := if StartsWith(text, "Cited by") then SetAttr(a, "num_citations", CitationCount(text)) else a;
    if StartsWith(text, "Cited by") {
      GetSetAttr(a, "num_citations", CitationCount(text), "cluster_id");
    }
    var a2 := SetAttr(a1, "url_citations", Str(url));
    GetSetAttr(a1, "url_citations", Str(url), "cluster_id");
    match LastCites(QueryArgs(url)) {
      case Some(id) => GetSetAttr(a2, "cluster_id", Str(id), "cluster_id");
      case None =>
    }
  }

  /** "Cited by " is two words, each followed by a space. */
  lemma CitedByText(d: string)
    ensures "Cited by " + d == "Cited" + (" " + ("by" + (" " + d)))
  {
    assert "Cited by " == "Cited" + " " + "by" + " ";
  }

  /** A "Cited by 42" link records 42 citations. */
  lemma CitedByCount(n: nat)
    ensures CitationCount("Cited by " + NatToString(n)) == Int(n)
  {
    var d := NatToString(n);
    assert IsToken(d) by {
      assert forall j :: 0 <= j < |d| ==> IsDigit(d[j]);
    }
    assert IsToken("Cited") && IsToken("by");
    SplitWsThree("Cited", "by", d);
    CitedByText(d);
    ParseIntOfIntToString(n);
  }
}
