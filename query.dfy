/** The query side of the scraper: `ScholarQuery`, which holds the number of
    results to request and a table of per-query result attributes, and
    `SearchScholarQuery`, which renders the terms of an advanced search as a
    Google Scholar or a Semantic Scholar URL whose every argument is
    percent-encoded. */
module Query {
  import opened Wrappers
  import opened PyStr
  import opened PyInt
  import opened Values
  import opened Percent
  import opened Article
  import opened Links

  /** `ScholarConf.MAX_PAGE_RESULTS`: the most results one page holds. */
  const MAX_PAGE_RESULTS: int := 8

  /** The two search engines a querier talks to: `'gs'` and `'ss'`. */
  datatype Backend = GS | SS

  // ---------------------------------------------------------------------
  // Query attributes: `_add_attribute_type`, `__getitem__`, `__setitem__`

  /** The largest order index of a non-empty table. */
  function MaxOrder(a: Attrs): (m: int)
    requires |a| > 0
    ensures forall i :: 0 <= i < |a| ==> a[i].order <= m
    ensures exists i :: 0 <= i < |a| && a[i].order == m
  {
    if |a| == 1 then a[0].order
    else
      var m := MaxOrder(a[..|a| - 1]);
      assert forall i :: 0 <= i < |a| - 1 ==> a[..|a| - 1][i] == a[i];
      if a[|a| - 1].order > m then a[|a| - 1].order else m
  }

  /** `_add_attribute_type(key, label, default_value)`: the first attribute
      gets order 0, every later one one more than the largest order so far;
      a key that is already there is overwritten where it stands. */
  function AddAttributeType(a: Attrs, key: string, caption: string, default: Value): Attrs {
    var e := Entry(key, default, caption, if |a| == 0 then 0 else MaxOrder(a) + 1);
    var i := IndexOf(a, key);
    if i < 0 then a + [e] else a[i := e]
  }

  /** The query's `__setitem__`: only a known key is updated. */
  function SetKnownAttr(a: Attrs, key: string, item: Value): Attrs {
    var i := IndexOf(a, key);
    if i < 0 then a else a[i := a[i].(value := item)]
  }

  /** The new attribute holds its default and label, its order exceeds every
      other attribute's, and the other attributes are unchanged. */
  lemma AddAttributeTypeEffect(a: Attrs, key: string, caption: string, default: Value)
    requires UniqueKeys(a)
    ensures var r := AddAttributeType(a, key, caption, default);
      && UniqueKeys(r)
      && HasKey(r, key)
      && r[IndexOf(r, key)] == Entry(key, default, caption, r[IndexOf(r, key)].order)
      && (forall i :: 0 <= i < |r| && r[i].key != key ==> r[i].order < r[IndexOf(r, key)].order)
      && (forall k :: k != key ==> GetAttr(r, k) == GetAttr(a, k))
      && (a == [] ==> r == [Entry(key, default, caption, 0)])
  {
    var r := AddAttributeType(a, key, caption, default);
    var e := Entry(key, default, caption, if |a| == 0 then 0 else MaxOrder(a) + 1);
    if HasKey(a, key) {
      AddExistingAttr(a, e);
    } else {
      AddNewAttr(a, e);
    }
  }

  lemma AddNewAttr(a: Attrs, e: Entry)
    requires UniqueKeys(a) && !HasKey(a, e.key)
    ensures var r := a + [e];
      && UniqueKeys(r)
      && IndexOf(r, e.key) == |a|
      && (forall k :: k != e.key ==> GetAttr(r, k) == GetAttr(a, k))
  {
    IndexOfAppend(a, e, e.key);
    forall k | k != e.key ensures GetAttr(a + [e], k) == GetAttr(a, k) {
      IndexOfAppend(a, e, k);
    }
  }

  lemma AddExistingAttr(a: Attrs, e: Entry)
    requires UniqueKeys(a) && HasKey(a, e.key)
    ensures var r := a[IndexOf(a, e.key) := e];
      && UniqueKeys(r)
      && IndexOf(r, e.key) == IndexOf(a, e.key)
      && (forall k :: k != e.key ==> GetAttr(r, k) == GetAttr(a, k))
  {
    var r := a[IndexOf(a, e.key) := e];
    IndexOfSameKeys(a, r, e.key);
    forall k | k != e.key ensures GetAttr(r, k) == GetAttr(a, k) {
      IndexOfSameKeys(a, r, k);
    }
  }

  /** An unknown key leaves the table as it is; a known key takes the new
      value and keeps its label and order. */
  lemma SetKnownAttrEffect(a: Attrs, key: string, item: Value)
    requires UniqueKeys(a)
    ensures var r := SetKnownAttr(a, key, item);
      && UniqueKeys(r)
      && KeysOf(r) == KeysOf(a)
      && (!HasKey(a, key) ==> r == a)
      && (HasKey(a, key) ==> GetAttr(r, key) == item)
      && (forall k :: k != key ==> GetAttr(r, k) == GetAttr(a, k))
  {
    var r := SetKnownAttr(a, key, item);
    if HasKey(a, key) {
      IndexOfSameKeys(a, r, key);
      assert KeysOf(r) == KeysOf(a);
      forall k | k != key ensures GetAttr(r, k) == GetAttr(a, k) {
        SetKnownAttrOther(a, key, item, k);
      }
    }
  }

  lemma SetKnownAttrOther(a: Attrs, key: string, item: Value, k: string)
    requires UniqueKeys(a) && HasKey(a, key) && k != key
    ensures GetAttr(SetKnownAttr(a, key, item), k) == GetAttr(a, k)
  {
    IndexOfSameKeys(a, SetKnownAttr(a, key, item), k);
  }

  // ---------------------------------------------------------------------
  // `_parenthesize_phrases`

  /** One comma-separated phrase: stripped, and put in double quotes when it
      contains a space after its first character. */
  function Phrase(p: string): string {
    var s := Strip(p);
    if Find(s, ' ') > 0 then "\"" + s + "\"" else s
  }

  function Phrases(ps: seq<string>): seq<string> {
    if ps == [] then [] else Phrases(ps[..|ps| - 1]) + [Phrase(ps[|ps| - 1])]
  }

  lemma PhrasesSnoc(ps: seq<string>, i: nat)
    requires i < |ps|
    ensures Phrases(ps[..i + 1]) == Phrases(ps[..i]) + [Phrase(ps[i])]
  {
    assert ps[..i + 1][..i] == ps[..i];
  }

  /** What `_parenthesize_phrases` returns. */
  function Parenthesized(query: string): string {
    if Find(query, ',') < 0 then query
    else Join(" ", Phrases(Split(query, ',')))
  }

  /** `_parenthesize_phrases(query)` */
  method ParenthesizePhrases(query: string) returns (r: string)
    ensures r == Parenthesized(query)
  {
    if Find(query, ',') < 0 {
      return query;
    }
    var pieces := Split(query, ',');
    var phrases: seq<string> := [];
    for i := 0 to |pieces|
      invariant phrases == Phrases(pieces[..i])
    {
      var phrase := QuotePhrase(pieces[i]);
      PhrasesSnoc(pieces, i);
      phrases := phrases + [phrase];
    }
    assert pieces[..|pieces|] == pieces;
    r := Join(" ", phrases);
  }

  /** The loop body of `_parenthesize_phrases`: strip one piece and quote it
      when it holds a space after its first character. */
  method QuotePhrase(piece: string) returns (phrase: string)
    ensures phrase == Phrase(piece)
  {
    phrase := Strip(piece);
    if Find(phrase, ' ') > 0 {
      phrase := "\"" + phrase + "\"";
    }
  }

  /** A phrase is quoted exactly when its stripped text contains a space: the
      test `find(' ') > 0` cannot see a space at position 0 after `strip`. */
  lemma PhraseQuotedIffSpace(p: string)
    ensures ' ' in Strip(p) ==> Phrase(p) == "\"" + Strip(p) + "\""
    ensures ' ' !in Strip(p) ==> Phrase(p) == Strip(p)
  {
    var s := Strip(p);
    if ' ' in s {
      assert !IsSpace(s[0]);
    }
  }

  /** The result contains no comma. */
  lemma ParenthesizedHasNoComma(query: string)
    ensures ',' !in Parenthesized(query)
  {
    if Find(query, ',') >= 0 {
      var pieces := Split(query, ',');
      PhrasesAvoidComma(pieces);
      JoinAvoids(" ", Phrases(pieces), ',');
    }
  }

  lemma {:induction false} PhrasesAvoidComma(ps: seq<string>)
    requires forall i :: 0 <= i < |ps| ==> ',' !in ps[i]
    ensures forall i :: 0 <= i < |Phrases(ps)| ==> ',' !in Phrases(ps)[i]
    decreases |ps|
  {
    if ps != [] {
      var init := ps[..|ps| - 1];
      PhrasesAvoidComma(init);
      PhraseAvoidsComma(ps[|ps| - 1]);
      var r := Phrases(ps);
      assert r == Phrases(init) + [Phrase(ps[|ps| - 1])];
      forall i | 0 <= i < |r|
        ensures ',' !in r[i]
      {
        if i < |r| - 1 {
          assert r[i] == Phrases(init)[i];
        }
      }
    }
  }

  lemma PhraseAvoidsComma(p: string)
    requires ',' !in p
    ensures ',' !in Phrase(p)
  {
    var s := Strip(p);
    StripAvoids(p, ',');
    if Find(s, ' ') > 0 {
      var q := "\"" + s + "\"";
      forall i | 0 <= i < |q| ensures q[i] != ',' {
        if 0 < i < |q| - 1 {
          assert q[i] == s[i - 1];
        }
      }
    }
  }

  /** Parenthesizing twice is parenthesizing once. */
  lemma ParenthesizeIdempotent(query: string)
    ensures Parenthesized(Parenthesized(query)) == Parenthesized(query)
  {
    ParenthesizedHasNoComma(query);
  }

  /** A query without commas is passed through unchanged. */
  lemma ParenthesizeWithoutComma(query: string)
    requires ',' !in query
    ensures Parenthesized(query) == query
  {
  }

  /** The example of `_parenthesize_phrases`: "some words, foo, bar" becomes
      `"some words" foo bar`. (The pieces are parameters: applied to a
      literal, the recursive string functions unfold too far.) */
  lemma ParenthesizeExample(p: string, w1: string, w2: string)
    requires p == "some words" && w1 == "foo" && w2 == "bar"
    ensures Parenthesized(p + ", " + w1 + ", " + w2) == "\"some words\" foo bar"
  {
    assert Unpadded(p) && ' ' in p && ',' !in p by { assert p[4] == ' '; }
    assert Unpadded(w1) && ' ' !in w1 && ',' !in w1;
    assert Unpadded(w2) && ' ' !in w2 && ',' !in w2;
    ParenthesizePhraseThenWords(p, w1, w2);
    ExampleText(p, w1, w2);
  }

  lemma ExampleText(p: string, w1: string, w2: string)
    requires p == "some words" && w1 == "foo" && w2 == "bar"
    ensures "\"" + p + "\" " + w1 + " " + w2 == "\"some words\" foo bar"
  {
  }

  /** The example in general: a phrase with an inner space followed by two
      single words, each after ", ", becomes the quoted phrase and the bare
      words, separated by spaces. */
  lemma ParenthesizePhraseThenWords(p: string, w1: string, w2: string)
    requires Unpadded(p) && ' ' in p && ',' !in p
    requires Unpadded(w1) && ' ' !in w1 && ',' !in w1
    requires Unpadded(w2) && ' ' !in w2 && ',' !in w2
    ensures Parenthesized(p + ", " + w1 + ", " + w2) ==
            "\"" + p + "\" " + w1 + " " + w2
  {
    var b, c := " " + w1, " " + w2;
    assert p + ", " + w1 + ", " + w2 == p + [','] + b + [','] + c;
    ParenthesizeThree(p, b, c);
    PhraseThenWords(p, w1, w2);
  }

  /** The three phrases of such a query, joined by spaces. */
  lemma PhraseThenWords(p: string, w1: string, w2: string)
    requires Unpadded(p) && ' ' in p
    requires Unpadded(w1) && ' ' !in w1
    requires Unpadded(w2) && ' ' !in w2
    ensures Phrase(p) + " " + Phrase(" " + w1) + " " + Phrase(" " + w2) ==
            "\"" + p + "\" " + w1 + " " + w2
  {
    UnpaddedPhrase(p);
    WordPhrase(w1);
    WordPhrase(w2);
    QuotedThenWords(p, w1, w2);
  }

  lemma QuotedThenWords(p: string, w1: string, w2: string)
    ensures "\"" + p + "\"" + " " + w1 + " " + w2 == "\"" + p + "\" " + w1 + " " + w2
  {
  }

  /** Neither empty nor starting or ending with white space. */
  predicate Unpadded(s: string) {
    s != [] && !IsSpace(s[0]) && !IsSpace(s[|s| - 1])
  }

  /** `strip` leaves an unpadded phrase alone, so it is quoted exactly when
      it contains a space. */
  lemma UnpaddedPhrase(p: string)
    requires Unpadded(p)
    ensures ' ' in p ==> Phrase(p) == "\"" + p + "\""
    ensures ' ' !in p ==> Phrase(p) == p
  {
    LStripNoLeadingSpace(p);
    RStripNoTrailingSpace(p);
    PhraseQuotedIffSpace(p);
  }

  /** A single word after the space that follows a comma becomes the bare
      word. */
  lemma WordPhrase(w: string)
    requires Unpadded(w) && ' ' !in w
    ensures Phrase(" " + w) == w
  {
    UnpaddedPhrase(w);
    assert (" " + w)[1..] == w;
    LStripNoLeadingSpace(w);
    RStripNoTrailingSpace(w);
  }

  /** Three comma-separated pieces become their phrases, joined by spaces. */
  lemma ParenthesizeThree(a: string, b: string, c: string)
    requires ',' !in a && ',' !in b && ',' !in c
    ensures Parenthesized(a + [','] + b + [','] + c) ==
            Phrase(a) + " " + Phrase(b) + " " + Phrase(c)
  {
    var query := a + [','] + b + [','] + c;
    SplitThree(a, b, c);
    assert Find(query, ',') >= 0 by { assert query[|a|] == ','; }
    assert Parenthesized(query) == Join(" ", Phrases([a, b, c]));
    PhrasesOfThree([a, b, c]);
    JoinThree(" ", Phrase(a), Phrase(b), Phrase(c));
  }

  lemma SplitThree(a: string, b: string, c: string)
    requires ',' !in a && ',' !in b && ',' !in c
    ensures Split(a + [','] + b + [','] + c, ',') == [a, b, c]
  {
    assert a + [','] + b + [','] + c == a + [','] + (b + [','] + c);
    SplitPrefix(a, ',', b + [','] + c);
    SplitPrefix(b, ',', c);
    SplitNoSep(c, ',');
  }

  lemma JoinThree(sep: string, x: string, y: string, z: string)
    ensures Join(sep, [x, y, z]) == x + sep + y + sep + z
  {
    assert [x, y, z][1..] == [y, z];
    assert [y, z][1..] == [z];
    assert Join(sep, [y, z]) == y + sep + z;
    assert x + sep + (y + sep + z) == x + sep + y + sep + z;
  }

  lemma PhrasesOfOne(ps: seq<string>)
    requires |ps| == 1
    ensures Phrases(ps) == [Phrase(ps[0])]
  {
    assert ps[..0] == [];
  }

  lemma PhrasesOfTwo(ps: seq<string>)
    requires |ps| == 2
    ensures Phrases(ps) == [Phrase(ps[0]), Phrase(ps[1])]
  {
    assert Phrases(ps) == Phrases(ps[..1]) + [Phrase(ps[1])];
    PhrasesOfOne(ps[..1]);
    SnocOne(Phrases(ps[..1]), Phrase(ps[0]), Phrase(ps[1]));
  }

  lemma PhrasesOfThree(ps: seq<string>)
    requires |ps| == 3
    ensures Phrases(ps) == [Phrase(ps[0]), Phrase(ps[1]), Phrase(ps[2])]
  {
    assert Phrases(ps) == Phrases(ps[..2]) + [Phrase(ps[2])];
    PhrasesOfTwo(ps[..2]);
    SnocTwo(Phrases(ps[..2]), Phrase(ps[0]), Phrase(ps[1]), Phrase(ps[2]));
  }

  lemma SnocOne(u: seq<string>, x: string, y: string)
    requires u == [x]
    ensures u + [y] == [x, y]
  {
  }

  lemma SnocTwo(u: seq<string>, x: string, y: string, z: string)
    requires u == [x, y]
    ensures u + [z] == [x, y, z]
  {
  }

  // ---------------------------------------------------------------------
  // URL templates

  /** A piece of an argument's value: literal text or a `%(key)s` hole. */
  datatype Part = Lit(text: string) | Hole(key: string)

  /** One `name=value` argument of a URL's query component. */
  datatype Param = Param(name: string, parts: seq<Part>)

  /** A URL: the text before the `?` and the arguments after it. */
  datatype Template = Template(base: string, params: seq<Param>)

  /** `GS_SCHOLAR_QUERY_URL`: the Google Scholar advanced search. */
  const GS_QUERY_TEMPLATE: Template := Template(GS_SCHOLAR_SITE + "/scholar", [
    Param("as_q", [Hole("words")]),
    Param("as_epq", [Hole("phrase")]),
    Param("as_oq", [Hole("words_some")]),
    Param("as_eq", [Hole("words_none")]),
    Param("as_occt", [Hole("scope")]),
    Param("as_sauthors", [Hole("authors")]),
    Param("as_publication", [Hole("pub")]),
    Param("as_ylo", [Hole("ylo")]),
    Param("as_yhi", [Hole("yhi")]),
    Param("as_sdt", [Hole("patents"), Lit("%2C5")]),
    Param("as_vis", [Hole("citations")]),
    Param("btnG", []),
    Param("hl", [Lit("en")]),
    Param("num", [Hole("num")])])

  /** `SS_SCHOLAR_QUERY_URL`: the Semantic Scholar search page. */
  const SS_QUERY_TEMPLATE: Template := Template(SS_SCHOLAR_SITE + "/search", [
    Param("q", [Hole("phrase")]),
    Param("sort", [Hole("sortby")]),
    Param("ae", [Hole("ae")])])

  function TemplateOf(choice: Backend): Template {
    match choice
    case GS => GS_QUERY_TEMPLATE
    case SS => SS_QUERY_TEMPLATE
  }

  /** A template whose text can be split back into its arguments: no `?`
      before the query component, at least one argument, and no `&` in any
      name or literal. */
  predicate WellFormed(t: Template) {
    && '?' !in t.base
    && |t.params| > 0
    && forall i :: 0 <= i < |t.params| ==> ParamWellFormed(t.params[i])
  }

  predicate ParamWellFormed(p: Param) {
    && '&' !in p.name
    && forall j :: 0 <= j < |p.parts| ==> (p.parts[j].Lit? ==> '&' !in p.parts[j].text)
  }

  /** The keys of the URL-argument dictionary, in insertion order. */
  const GS_KEYS: seq<string> := ["words", "words_some", "words_none", "phrase", "scope",
    "authors", "pub", "ylo", "yhi", "patents", "citations", "num"]
  const SS_KEYS: seq<string> := ["phrase", "sortby", "ae"]

  function KeysFor(choice: Backend): seq<string> {
    match choice
    case GS => GS_KEYS
    case SS => SS_KEYS
  }

  /** Every hole of the template names a key of the dictionary. */
  predicate Covers(t: Template, keys: seq<string>) {
    forall i, j :: 0 <= i < |t.params| && 0 <= j < |t.params[i].parts| ==>
      (t.params[i].parts[j].Hole? ==> t.params[i].parts[j].key in keys)
  }

  lemma GsNamesAvoidAmp()
    ensures forall i :: 0 <= i < |GS_QUERY_TEMPLATE.params| ==> '&' !in GS_QUERY_TEMPLATE.params[i].name
  {
    var ps := GS_QUERY_TEMPLATE.params;
    forall i | 0 <= i < |ps|
      ensures '&' !in ps[i].name
    {
      var n := ps[i].name;
      assert forall j :: 0 <= j < |n| ==> n[j] != '&';
    }
  }

  lemma GsLiteralsAvoidAmp()
    ensures forall i, j :: 0 <= i < |GS_QUERY_TEMPLATE.params| && 0 <= j < |GS_QUERY_TEMPLATE.params[i].parts| ==>
      (GS_QUERY_TEMPLATE.params[i].parts[j].Lit? ==> '&' !in GS_QUERY_TEMPLATE.params[i].parts[j].text)
  {
  }

  lemma GsParamsWellFormed()
    ensures forall i :: 0 <= i < |GS_QUERY_TEMPLATE.params| ==> ParamWellFormed(GS_QUERY_TEMPLATE.params[i])
  {
    GsNamesAvoidAmp();
    GsLiteralsAvoidAmp();
  }

  lemma GsTemplateCovered()
    ensures Covers(GS_QUERY_TEMPLATE, GS_KEYS)
  {
  }

  lemma GsTemplateWellFormed()
    ensures WellFormed(GS_QUERY_TEMPLATE)
    ensures Covers(GS_QUERY_TEMPLATE, GS_KEYS)
  {
    assert '?' !in GS_SCHOLAR_SITE + "/scholar";
    GsParamsWellFormed();
    GsTemplateCovered();
  }

  lemma SsTemplateWellFormed()
    ensures WellFormed(SS_QUERY_TEMPLATE)
    ensures Covers(SS_QUERY_TEMPLATE, SS_KEYS)
  {
    var t := SS_QUERY_TEMPLATE;
    assert '?' !in SS_SCHOLAR_SITE + "/search";
    forall i | 0 <= i < |t.params| ensures ParamWellFormed(t.params[i]) {
      assert '&' !in t.params[i].name;
    }
  }

  /** Both templates can be split back into their arguments, and every hole
      names a key of the backend's dictionary. */
  lemma TemplatesWellFormed(choice: Backend)
    ensures WellFormed(TemplateOf(choice))
    ensures Covers(TemplateOf(choice), KeysFor(choice))
  {
    if choice == GS {
      GsTemplateWellFormed();
    } else {
      SsTemplateWellFormed();
    }
  }

  // ---------------------------------------------------------------------
  // URL arguments and rendering

  /** One entry of the URL-argument dictionary. */
  datatype Arg = Arg(key: string, value: Value)
  type Args = seq<Arg>

  function ArgKeys(args: Args): (ks: seq<string>)
    ensures |ks| == |args|
    ensures forall i :: 0 <= i < |args| ==> ks[i] == args[i].key
  {
    if args == [] then [] else [args[0].key] + ArgKeys(args[1..])
  }

  /** `args[key]`, from the first entry with that key. */
  function Lookup(args: Args, key: string): Value {
    if args == [] then Null
    else if args[0].key == key then args[0].value
    else Lookup(args[1..], key)
  }

  /** One pass of the encoding loop: `quote(str(value))`. */
  function QuoteArg(a: Arg): Arg {
    Arg(a.key, Str(Quote(ToStr(a.value))))
  }

  function QuoteArgs(args: Args): Args {
    seq(|args|, i requires 0 <= i < |args| => QuoteArg(args[i]))
  }

  /** `%(key)s` substitution into one argument's value. */
  function RenderParts(parts: seq<Part>, args: Args): string {
    if parts == [] then ""
    else
      (match parts[0]
       case Lit(text) => text
       case Hole(key) => ToStr(Lookup(args, key))) + RenderParts(parts[1..], args)
  }

  function RenderParams(params: seq<Param>, args: Args): (r: seq<string>)
    ensures |r| == |params|
    ensures forall i :: 0 <= i < |params| ==> r[i] == params[i].name + "=" + RenderParts(params[i].parts, args)
  {
    if params == [] then []
    else [params[0].name + "=" + RenderParts(params[0].parts, args)] + RenderParams(params[1..], args)
  }

  /** `TEMPLATE % args` */
  function Render(t: Template, args: Args): string {
    t.base + "?" + Join("&", RenderParams(t.params, args))
  }

  /** The URL `get_url` returns for a backend and an (unencoded) argument
      dictionary. */
  function QueryUrl(choice: Backend, args: Args): string {
    Render(TemplateOf(choice), QuoteArgs(args))
  }

  /** Looking up an encoded dictionary gives the encoded value. */
  lemma {:induction false} LookupQuoteArgs(args: Args, key: string)
    requires key in ArgKeys(args)
    ensures Lookup(QuoteArgs(args), key) == Str(Quote(ToStr(Lookup(args, key))))
    decreases |args|
  {
    QuoteArgsCons(args);
    if args[0].key != key {
      assert ArgKeys(args) == [args[0].key] + ArgKeys(args[1..]);
      LookupQuoteArgs(args[1..], key);
    }
  }

  lemma QuoteArgsCons(args: Args)
    requires args != []
    ensures QuoteArgs(args) == [QuoteArg(args[0])] + QuoteArgs(args[1..])
  {
    assert QuoteArgs(args)[1..] == QuoteArgs(args[1..]);
  }

  /** Every encoded value is free of `&`, so no rendered argument has one. */
  lemma {:induction false} RenderedPartsAvoidAmp(parts: seq<Part>, args: Args)
    requires forall j :: 0 <= j < |parts| ==> (parts[j].Lit? ==> '&' !in parts[j].text)
    requires forall j :: 0 <= j < |parts| ==> (parts[j].Hole? ==> parts[j].key in ArgKeys(args))
    ensures '&' !in RenderParts(parts, QuoteArgs(args))
    decreases |parts|
  {
    if parts != [] {
      RenderedPartsAvoidAmp(parts[1..], args);
      match parts[0] {
        case Lit(_) =>
        case Hole(key) =>
          LookupQuoteArgs(args, key);
          QuoteHasNoDelimiter(ToStr(Lookup(args, key)));
      }
    }
  }

  /** The query component of a rendered URL splits back into exactly the
      template's arguments, in order. */
  lemma RenderedQuery(t: Template, args: Args)
    requires WellFormed(t) && Covers(t, ArgKeys(args))
    ensures var url := Render(t, QuoteArgs(args));
      && '?' in url
      && SplitOnce(url, '?')[0] == t.base
      && QueryArgs(url) == RenderParams(t.params, QuoteArgs(args))
  {
    var ps := RenderParams(t.params, QuoteArgs(args));
    forall i | 0 <= i < |ps| ensures '&' !in ps[i] {
      var p := t.params[i];
      RenderedPartsAvoidAmp(p.parts, args);
      assert ps[i] == p.name + "=" + RenderParts(p.parts, QuoteArgs(args));
    }
    var q := Join("&", ps);
    assert Render(t, QuoteArgs(args)) == t.base + ['?'] + q;
    SplitOnceAt(t.base, q);
    SplitJoin(ps, '&');
  }

  /** An argument made of one hole carries `quote(str(value))`, which
      decodes to the UTF-8 octets of `str(value)`. */
  lemma HoleArgument(t: Template, args: Args, i: int, key: string)
    requires WellFormed(t) && Covers(t, ArgKeys(args))
    requires 0 <= i < |t.params| && t.params[i].parts == [Hole(key)]
    ensures var url := Render(t, QuoteArgs(args));
      var value := Quote(ToStr(Lookup(args, key)));
      && '?' in url
      && |QueryArgs(url)| == |t.params|
      && QueryArgs(url)[i] == t.params[i].name + "=" + value
      && PercentDecode(value) == Some(Utf8(ToStr(Lookup(args, key))))
  {
    RenderedQuery(t, args);
    var qa := QuoteArgs(args);
    var value := Quote(ToStr(Lookup(args, key)));
    assert key in ArgKeys(args) by {
      assert t.params[i].parts[0] == Hole(key);
    }
    RenderHole(args, key);
    QuoteRoundTrip(ToStr(Lookup(args, key)));
  }

  /** A parameter that is a single hole renders as the encoded value. */
  lemma RenderHole(args: Args, key: string)
    requires key in ArgKeys(args)
    ensures RenderParts([Hole(key)], QuoteArgs(args)) == Quote(ToStr(Lookup(args, key)))
  {
    LookupQuoteArgs(args, key);
    var value := Quote(ToStr(Lookup(args, key)));
    assert RenderParts([Hole(key)], QuoteArgs(args)) == value + RenderParts([], QuoteArgs(args));
  }

  // ---------------------------------------------------------------------
  // `SearchScholarQuery`

  /** Python's `x or ''` on an optional string. */
  function OrEmpty(s: Option<string>): string {
    if s.Some? then s.value else ""
  }

  /** A timeframe bound after `set_timeframe`: a truthy bound becomes an int. */
  function TimeframeBound(v: Value): Result<Value, Error> {
    if Truthy(v) then
      match EnsureInt(v, None)
      case Success(n) => Success(Int(n))
      case Failure(e) => Failure(e)
    else Success(v)
  }

  /** The message `set_num_page_results` gives to `ensure_int`. */
  const NUM_RESULTS_MSG: string := "maximum number of results on page must be numeric"

  class SearchQuery {
    var numResults: int
    var attrs: Attrs
    var words: Option<string>
    var wordsSome: Option<string>
    var wordsNone: Option<string>
    var phrase: Option<string>
    var scopeTitle: bool
    var author: Option<string>
    var pub: Option<string>
    var timeframe: (Value, Value)
    var includePatents: bool
    var includeCitations: bool
    var sortby: string
    var ae: bool
    /** `SCHOLAR_QUERY_URL`, the class-level `''` until a URL is built. */
    var queryTemplate: Option<Template>
    /** `urlargs`, the class-level `{}` until a URL is built. */
    var urlargs: Args

    ghost predicate Valid()
      reads this
    {
      UniqueKeys(attrs)
    }

    /** `SearchScholarQuery()`: no terms, 8 results per page, the whole
        article searched, patents and citations included, sorted by
        relevance, and one attribute `num_results` labelled "Results". */
    constructor ()
      ensures Valid()
      ensures numResults == MAX_PAGE_RESULTS
      ensures attrs == [Entry("num_results", Int(0), "Results", 0)]
      ensures words == None && wordsSome == None && wordsNone == None && phrase == None
      ensures author == None && pub == None && timeframe == (Null, Null)
      ensures !scopeTitle && includePatents && includeCitations && !ae
      ensures sortby == "relevance"
      ensures queryTemplate == None && urlargs == []
    {
      numResults := MAX_PAGE_RESULTS;
      attrs := AddAttributeType([], "num_results", "Results", Int(0));
      words := None;
      wordsSome := None;
      wordsNone := None;
      phrase := None;
      scopeTitle := false;
      author := None;
      pub := None;
      timeframe := (Null, Null);
      includePatents := true;
      includeCitations := true;
      sortby := "relevance";
      ae := false;
      queryTemplate := None;
      urlargs := [];
    }

    /** `query[key]`: `None` for an unknown key. */
    function Get(key: string): (v: Value)
      reads this
    {
      GetAttr(attrs, key)
    }

    /** `query[key] = item`: an unknown key is ignored. */
    method Set(key: string, item: Value)
      requires Valid()
      modifies this`attrs
      ensures Valid()
      ensures attrs == SetKnownAttr(old(attrs), key, item)
      ensures KeysOf(attrs) == KeysOf(old(attrs))
      ensures HasKey(old(attrs), key) ==> Get(key) == item
      ensures !HasKey(old(attrs), key) ==> attrs == old(attrs)
      ensures forall k :: k != key ==> Get(k) == old(Get(k))
    {
      SetKnownAttrEffect(attrs, key, item);
      attrs := SetKnownAttr(attrs, key, item);
    }

    /** `_add_attribute_type(key, label, default_value)` */
    method AddAttribute(key: string, caption: string, default: Value)
      requires Valid()
      modifies this`attrs
      ensures Valid()
      ensures attrs == AddAttributeType(old(attrs), key, caption, default)
      ensures Get(key) == default
      ensures forall k :: k != key ==> Get(k) == old(Get(k))
    {
      AddAttributeTypeEffect(attrs, key, caption, default);
      attrs := AddAttributeType(attrs, key, caption, default);
    }

    /** `set_num_page_results`: the count must be numeric; on error nothing
        changes. */
    method SetNumPageResults(v: Value) returns (r: Outcome<Error>)
      modifies this`numResults
      ensures EnsureInt(v, Some(NUM_RESULTS_MSG)).Success? ==>
        r == Pass && numResults == EnsureInt(v, Some(NUM_RESULTS_MSG)).value
      ensures EnsureInt(v, Some(NUM_RESULTS_MSG)).Failure? ==>
        r == Fail(EnsureInt(v, Some(NUM_RESULTS_MSG)).error) && numResults == old(numResults)
    {
      match EnsureInt(v, Some(NUM_RESULTS_MSG)) {
        case Success(n) =>
          numResults := n;
          return Pass;
        case Failure(e) =>
          return Fail(e);
      }
    }

    method SetWords(w: Option<string>)
      modifies this`words
      ensures words == w
    {
      words := w;
    }

    method SetWordsSome(w: Option<string>)
      modifies this`wordsSome
      ensures wordsSome == w
    {
      wordsSome := w;
    }

    method SetWordsNone(w: Option<string>)
      modifies this`wordsNone
      ensures wordsNone == w
    {
      wordsNone := w;
    }

    method SetPhrase(p: Option<string>)
      modifies this`phrase
      ensures phrase == p
    {
      phrase := p;
    }

    method SetSortby(s: string)
      modifies this`sortby
      ensures sortby == s
    {
      sortby := s;
    }

    method SetAe(b: bool)
      modifies this`ae
      ensures ae == b
    {
      ae := b;
    }

    method SetScope(titleOnly: bool)
      modifies this`scopeTitle
      ensures scopeTitle == titleOnly
    {
      scopeTitle := titleOnly;
    }

    method SetAuthor(a: Option<string>)
      modifies this`author
      ensures author == a
    {
      author := a;
    }

    method SetPub(p: Option<string>)
      modifies this`pub
      ensures pub == p
    {
      pub := p;
    }

    method SetIncludeCitations(yes: bool)
      modifies this`includeCitations
      ensures includeCitations == yes
    {
      includeCitations := yes;
    }

    method SetIncludePatents(yes: bool)
      modifies this`includePatents
      ensures includePatents == yes
    {
      includePatents := yes;
    }

    /** `set_timeframe(start, end)`: truthy bounds must be numeric and are
        stored as ints; on error the timeframe is unchanged. */
    method SetTimeframe(start: Value, end: Value) returns (r: Outcome<Error>)
      modifies this`timeframe
      ensures TimeframeBound(start).Failure? ==>
        r == Fail(TimeframeBound(start).error) && timeframe == old(timeframe)
      ensures TimeframeBound(start).Success? && TimeframeBound(end).Failure? ==>
        r == Fail(TimeframeBound(end).error) && timeframe == old(timeframe)
      ensures TimeframeBound(start).Success? && TimeframeBound(end).Success? ==>
        r == Pass && timeframe == (TimeframeBound(start).value, TimeframeBound(end).value)
      ensures r == Pass ==> Settled(timeframe.0) && Settled(timeframe.1)
    {
      var s := start;
      var e := end;
      if Truthy(start) {
        match EnsureInt(start, None) {
          case Failure(err) => return Fail(err);
          case Success(n) => s := Int(n);
        }
      }
      if Truthy(end) {
        match EnsureInt(end, None) {
          case Failure(err) => return Fail(err);
          case Success(n) => e := Int(n);
        }
      }
      timeframe := (s, e);
      return Pass;
    }

    /** `get_url` refuses a query with no term at all. */
    predicate NoTerms()
      reads this`words, this`wordsSome, this`wordsNone, this`phrase, this`author, this`pub, this`timeframe
    {
      && words.None? && wordsSome.None? && wordsNone.None? && phrase.None?
      && author.None? && pub.None? && timeframe.0.Null? && timeframe.1.Null?
    }

    /** `words_some` or `words_none` as `get_url` passes it on: parenthesized
        when truthy, `''` otherwise. */
    static function PhraseList(w: Option<string>): string {
      if w.Some? && w.value != "" then Parenthesized(w.value) else ""
    }

    /** The URL-argument dictionary for a backend, before encoding, given the
        processed `words_some` and `words_none`. */
    function ArgsWith(choice: Backend, some: string, none: string): (args: Args)
      reads this`words, this`wordsSome, this`wordsNone, this`phrase, this`scopeTitle, this`author,
        this`pub, this`timeframe, this`includePatents, this`includeCitations, this`sortby, this`ae,
        this`numResults
    {
      match choice
      case GS =>
        [ Arg("words", Str(OrEmpty(words))),
          Arg("words_some", Str(some)),
          Arg("words_none", Str(none)),
          Arg("phrase", Str(OrEmpty(phrase))),
          Arg("scope", Str(if scopeTitle then "title" else "any")),
          Arg("authors", Str(OrEmpty(author))),
          Arg("pub", Str(OrEmpty(pub))),
          Arg("ylo", if Truthy(timeframe.0) then timeframe.0 else Str("")),
          Arg("yhi", if Truthy(timeframe.1) then timeframe.1 else Str("")),
          Arg("patents", Str(if includePatents then "0" else "1")),
          Arg("citations", Str(if includeCitations then "0" else "1")),
          Arg("num", Int(if numResults != 0 then numResults else MAX_PAGE_RESULTS)) ]
      case SS =>
        // `self.ae or 'false'`: `str(True)` is "True".
        [ Arg("phrase", Str(OrEmpty(phrase))),
          Arg("sortby", Str(sortby)),
          Arg("ae", Str(if ae then "True" else "false")) ]
    }

    /** `_parenthesize_phrases(w) if w else None`, then `or ''`. */
    static method ProcessPhrases(w: Option<string>) returns (r: string)
      ensures r == PhraseList(w)
    {
      r := "";
      if w.Some? && w.value != "" {
        r := ParenthesizePhrases(w.value);
      }
    }

    /** The dictionary has the backend's keys, in order. */
    lemma ArgsWithKeys(choice: Backend, some: string, none: string)
      ensures ArgKeys(ArgsWith(choice, some, none)) == KeysFor(choice)
    {
    }

    /** The URL-argument dictionary `get_url` builds for a backend, before
        encoding. */
    function UrlArgs(choice: Backend): (args: Args)
      reads this`words, this`wordsSome, this`wordsNone, this`phrase, this`scopeTitle, this`author,
        this`pub, this`timeframe, this`includePatents, this`includeCitations, this`sortby, this`ae,
        this`numResults
    {
      ArgsWith(choice, PhraseList(wordsSome), PhraseList(wordsNone))
    }

    /** The loop of `get_url` that replaces every value of `urlargs`, in
        place, by `quote(str(value))`. */
    method EncodeArgs()
      modifies this`urlargs
      ensures urlargs == QuoteArgs(old(urlargs))
    {
      ghost var raw := urlargs;
      for i := 0 to |urlargs|
        invariant |urlargs| == |raw|
        invariant forall j :: 0 <= j < i ==> urlargs[j] == QuoteArg(raw[j])
        invariant forall j :: i <= j < |raw| ==> urlargs[j] == raw[j]
      {
        urlargs := urlargs[i := QuoteArg(urlargs[i])];
      }
    }

    /** `get_url(choice)`: selects the backend's template and dictionary,
        encodes every value in place, and renders the URL; a query without
        terms raises `QueryArgumentError` and changes nothing. */
    method GetUrl(choice: Backend) returns (r: Result<string, Error>)
      modifies this`queryTemplate, this`urlargs
      ensures old(NoTerms()) ==> r == Failure(QueryArgumentError)
      ensures old(NoTerms()) ==> queryTemplate == old(queryTemplate) && urlargs == old(urlargs)
      ensures !old(NoTerms()) ==> queryTemplate == Some(TemplateOf(choice))
      ensures !old(NoTerms()) ==> urlargs == QuoteArgs(old(UrlArgs(choice)))
      ensures !old(NoTerms()) ==> r == Success(QueryUrl(choice, old(UrlArgs(choice))))
    {
      if NoTerms() {
        return Failure(QueryArgumentError);
      }
      var some := ProcessPhrases(wordsSome);
      var none := ProcessPhrases(wordsNone);
      var args := ArgsWith(choice, some, none);
      var template := TemplateOf(choice);
      queryTemplate := Some(template);
      urlargs := args;
      EncodeArgs();
      return Success(Render(template, urlargs));
    }
  }

  /** A bound that `set_timeframe` accepted: an int, or a falsy value it
      left alone. */
  predicate Settled(v: Value) {
    v.Int? || !Truthy(v)
  }

  /** `TimeframeBound` settles every bound it accepts, and reads the decimal
      text of a year as that year. */
  lemma TimeframeBoundSettles(v: Value, year: int)
    ensures TimeframeBound(v).Success? ==> Settled(TimeframeBound(v).value)
    ensures year != 0 ==> TimeframeBound(Str(IntToString(year))) == Success(Int(year))
    ensures TimeframeBound(Null) == Success(Null)
  {
    if year != 0 {
      EnsureIntAcceptsNumbers(year, None);
      assert IntToString(year) != "";
    }
  }

  /** The URL of any query with terms splits back into the template's
      arguments, and each single-valued argument decodes to the text of the
      corresponding dictionary entry. */
  lemma UrlArgumentsRoundTrip(q: SearchQuery, choice: Backend, i: int, key: string)
    requires 0 <= i < |TemplateOf(choice).params| && TemplateOf(choice).params[i].parts == [Hole(key)]
    ensures var url := QueryUrl(choice, q.UrlArgs(choice));
      var value := Quote(ToStr(Lookup(q.UrlArgs(choice), key)));
      && '?' in url
      && SplitOnce(url, '?')[0] == TemplateOf(choice).base
      && |QueryArgs(url)| == |TemplateOf(choice).params|
      && QueryArgs(url)[i] == TemplateOf(choice).params[i].name + "=" + value
      && PercentDecode(value) == Some(Utf8(ToStr(Lookup(q.UrlArgs(choice), key))))
  {
    TemplatesWellFormed(choice);
    q.ArgsWithKeys(choice, SearchQuery.PhraseList(q.wordsSome), SearchQuery.PhraseList(q.wordsNone));
    RenderedQuery(TemplateOf(choice), q.UrlArgs(choice));
    HoleArgument(TemplateOf(choice), q.UrlArgs(choice), i, key);
  }
}
