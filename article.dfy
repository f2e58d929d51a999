/** `ScholarArticle`: a dictionary of attributes, each key holding a triple
    (value, display label, display order). The dictionary keeps insertion
    order, as a Python `dict` does, so it is modelled as a sequence of
    entries with distinct keys. */
module Article {
  import opened Wrappers
  import opened PyStr
  import opened Values

  datatype Entry = Entry(key: string, value: Value, caption: string, order: int)

  type Attrs = seq<Entry>

  predicate UniqueKeys(a: Attrs) {
    forall i, j :: 0 <= i < j < |a| ==> a[i].key != a[j].key
  }

  /** Every entry's order index is its position: what the dictionary looks
      like as long as nothing has been deleted from it. */
  predicate Positional(a: Attrs) {
    forall i :: 0 <= i < |a| ==> a[i].order == i
  }

  predicate HasKey(a: Attrs, key: string) {
    exists i :: 0 <= i < |a| && a[i].key == key
  }

  /** Position of `key`, or -1 when it is absent. */
  function IndexOf(a: Attrs, key: string): (r: int)
    ensures -1 <= r < |a|
    ensures r >= 0 ==> a[r].key == key
    ensures r < 0 <==> !HasKey(a, key)
    ensures UniqueKeys(a) && r >= 0 ==> forall i :: 0 <= i < |a| && i != r ==> a[i].key != key
  {
    if |a| == 0 then -1
    else if a[|a| - 1].key == key then |a| - 1
    else IndexOf(a[..|a| - 1], key)
  }

  /** The attributes of a freshly constructed article (ss_scholar.py:127-139). */
  function NewAttrs(): (a: Attrs)
    ensures |a| == 11
  {
    [ Entry("title", Null, "Title", 0),
      Entry("url", Null, "URL", 1),
      Entry("year", Null, "Year", 2),
      Entry("num_citations", Int(0), "Citations", 3),
      Entry("num_versions", Int(0), "Versions", 4),
      Entry("cluster_id", Null, "Cluster ID", 5),
      Entry("url_pdf", Null, "PDF link", 6),
      Entry("url_citations", Null, "Citations list", 7),
      Entry("url_versions", Null, "Versions list", 8),
      Entry("url_citation", Null, "Citation link", 9),
      Entry("excerpt", Null, "Excerpt", 10) ]
  }

  /** `__getitem__`: the value stored under `key`, or `None`. */
  function GetAttr(a: Attrs, key: string): Value {
    var i := IndexOf(a, key);
    if i < 0 then Null else a[i].value
  }

  /** `__setitem__`: an existing key gets the new value; a new key is
      appended with itself as label and the current length as order. */
  function SetAttr(a: Attrs, key: string, item: Value): Attrs {
    var i := IndexOf(a, key);
    if i < 0 then a + [Entry(key, item, key, |a|)]
    else a[i := a[i].(value := item)]
  }

  /** `__delitem__`: removes the key if present. */
  function DelAttr(a: Attrs, key: string): Attrs {
    var i := IndexOf(a, key);
    if i < 0 then a else a[..i] + a[i + 1..]
  }

  // ---------------------------------------------------------------------
  // The csv rendering: keys sorted by order index with a stable sort.

  predicate SortedByOrder(s: Attrs) {
    forall i, j :: 0 <= i < j < |s| ==> s[i].order <= s[j].order
  }

  /** Inserts `e` after every entry whose order is at most `e`'s. */
  function InsertByOrder(s: Attrs, e: Entry): (r: Attrs)
    requires SortedByOrder(s)
    ensures SortedByOrder(r)
    ensures multiset(r) == multiset(s) + multiset{e}
    ensures |r| == |s| + 1
    ensures forall i :: 0 <= i < |r| ==> r[i] == e || r[i] in s
  {
    if s == [] then [e]
    else if s[|s| - 1].order <= e.order then s + [e]
    else
      var r' := InsertByOrder(s[..|s| - 1], e);
      InsertBeforeLast(s, e, r', r' + [s[|s| - 1]]);
      r' + [s[|s| - 1]]
  }

  /** The recursive case of `InsertByOrder`: `e` goes before the last entry,
      which then stays last. */
  lemma InsertBeforeLast(s: Attrs, e: Entry, r': Attrs, r: Attrs)
    requires SortedByOrder(s) && s != [] && e.order < s[|s| - 1].order
    requires SortedByOrder(r')
    requires multiset(r') == multiset(s[..|s| - 1]) + multiset{e}
    requires |r'| == |s|
    requires forall i :: 0 <= i < |r'| ==> r'[i] == e || r'[i] in s[..|s| - 1]
    requires r == r' + [s[|s| - 1]]
    ensures SortedByOrder(r)
    ensures multiset(r) == multiset(s) + multiset{e}
    ensures forall i :: 0 <= i < |r| ==> r[i] == e || r[i] in s
  {
    var last := s[|s| - 1];
    var init := s[..|s| - 1];
    assert s == init + [last];
    forall i | 0 <= i < |r'|
      ensures r'[i].order <= last.order
    {
      if r'[i] != e {
        var k :| 0 <= k < |init| && init[k] == r'[i];
      }
    }
    forall i | 0 <= i < |r|
      ensures r[i] == e || r[i] in s
    {
      if i < |r'| {
        assert r[i] == r'[i];
      }
    }
  }

  /** The entries of `s` whose order index is `v`, in their order in `s`. */
  function OfOrder(s: Attrs, v: int): Attrs {
    if s == [] then []
    else OfOrder(s[..|s| - 1], v) + (if s[|s| - 1].order == v then [s[|s| - 1]] else [])
  }

  lemma OfOrderSnoc(s: Attrs, x: Entry, v: int)
    ensures OfOrder(s + [x], v) == OfOrder(s, v) + (if x.order == v then [x] else [])
  {
    assert (s + [x])[..|s|] == s;
  }

  /** Inserting `e` puts it after every entry of the same order index, and
      keeps those entries in their order. */
  lemma {:induction false} InsertByOrderStable(s: Attrs, e: Entry)
    requires SortedByOrder(s)
    ensures forall v :: OfOrder(InsertByOrder(s, e), v) == OfOrder(s + [e], v)
  {
    if s == [] {
      assert InsertByOrder(s, e) == s + [e];
    } else if s[|s| - 1].order <= e.order {
      assert InsertByOrder(s, e) == s + [e];
    } else {
      var init := s[..|s| - 1];
      var last := s[|s| - 1];
      var r' := InsertByOrder(init, e);
      assert InsertByOrder(s, e) == r' + [last];
      assert s == init + [last];
      InsertByOrderStable(init, e);
      forall v
        ensures OfOrder(r' + [last], v) == OfOrder(s + [e], v)
      {
        StableStep(init, last, e, r', v);
      }
    }
  }

  /** The recursive case of `InsertByOrderStable`, for one order index:
      `e` and `last` cannot both have order `v`. */
  lemma StableStep(init: Attrs, last: Entry, e: Entry, r': Attrs, v: int)
    requires e.order < last.order
    requires OfOrder(r', v) == OfOrder(init + [e], v)
    ensures OfOrder(r' + [last], v) == OfOrder(init + [last] + [e], v)
  {
    OfOrderSnoc(r', last, v);
    OfOrderSnoc(init, e, v);
    OfOrderSnoc(init, last, v);
    OfOrderSnoc(init + [last], e, v);
    var o := OfOrder(init, v);
    if e.order == v {
      assert OfOrder(r' + [last], v) == OfOrder(r', v) + [];
      assert OfOrder(init + [last], v) == o + [];
    } else {
      assert OfOrder(init + [e], v) == o + [];
      assert OfOrder(init + [last] + [e], v) == OfOrder(init + [last], v) + [];
    }
  }

  /** `sorted(..., key=lambda item: item[2])`, which is stable: entries of
      the same order index keep their relative order. */
  function SortByOrder(a: Attrs): (r: Attrs)
    ensures SortedByOrder(r)
    ensures multiset(r) == multiset(a)
    ensures |r| == |a|
    ensures forall v :: OfOrder(r, v) == OfOrder(a, v)
  {
    if a == [] then []
    else
      var init := a[..|a| - 1];
      assert a == init + [a[|a| - 1]];
      InsertByOrderStable(SortByOrder(init), a[|a| - 1]);
      assert forall v :: OfOrder(SortByOrder(init) + [a[|a| - 1]], v) == OfOrder(a, v) by {
        forall v ensures OfOrder(SortByOrder(init) + [a[|a| - 1]], v) == OfOrder(a, v) {
          OfOrderSnoc(SortByOrder(init), a[|a| - 1], v);
          OfOrderSnoc(init, a[|a| - 1], v);
        }
      }
      InsertByOrder(SortByOrder(init), a[|a| - 1])
  }

  function KeysOf(s: Attrs): (ks: seq<string>)
    ensures |ks| == |s|
    ensures forall i :: 0 <= i < |s| ==> ks[i] == s[i].key
  {
    if s == [] then [] else [s[0].key] + KeysOf(s[1..])
  }

  function ValueTexts(s: Attrs): (vs: seq<string>)
    ensures |vs| == |s|
    ensures forall i :: 0 <= i < |s| ==> vs[i] == ToStr(s[i].value)
  {
    if s == [] then [] else [ToStr(s[0].value)] + ValueTexts(s[1..])
  }

  /** `as_csv(header, sep)`: an optional header line of keys, then the
      values, both in order-index order. */
  function AsCsv(a: Attrs, header: bool, sep: string): string {
    var sorted := SortByOrder(a);
    var line := Join(sep, ValueTexts(sorted));
    if header then Join("\n", [Join(sep, KeysOf(sorted)), line]) else line
  }

  /** `as_citation`: the attached export text, or the empty string. */
  function AsCitation(citationData: Option<string>): (r: string)
    ensures citationData.None? ==> r == ""
    ensures citationData.Some? ==> r == citationData.value
  {
    match citationData
    case None => ""
    case Some(d) => if d == "" then "" else d
  }

  // ---------------------------------------------------------------------
  // Properties

  /** A fresh article's attributes have distinct keys and order indices
      0..10 in insertion order. */
  lemma NewAttrsWellFormed()
    ensures UniqueKeys(NewAttrs()) && Positional(NewAttrs())
  {
    var a := NewAttrs();
    forall i, j | 0 <= i < j < |a| ensures a[i].key != a[j].key {
      assert |a[i].key| != |a[j].key| || a[i].key[|a[i].key| - 1] != a[j].key[|a[j].key| - 1] || a[i].key[0] != a[j].key[0];
    }
  }

  /** After a set, the key holds the new value and no other key changes. */
  lemma {:induction false} GetSetAttr(a: Attrs, key: string, item: Value, other: string)
    requires UniqueKeys(a)
    ensures GetAttr(SetAttr(a, key, item), key) == item
    ensures other != key ==> GetAttr(SetAttr(a, key, item), other) == GetAttr(a, other)
    ensures UniqueKeys(SetAttr(a, key, item))
  {
    var r := SetAttr(a, key, item);
    var i := IndexOf(a, key);
    var j := IndexOf(a, other);
    if i < 0 {
      assert r == a + [Entry(key, item, key, |a|)];
      IndexOfAppend(a, Entry(key, item, key, |a|), key);
      IndexOfAppend(a, Entry(key, item, key, |a|), other);
    } else {
      IndexOfSameKeys(a, r, key);
      IndexOfSameKeys(a, r, other);
    }
  }

  /** A second set of the same key overrides the first. */
  lemma SetAttrTwice(a: Attrs, key: string, v1: Value, v2: Value)
    ensures SetAttr(SetAttr(a, key, v1), key, v2) == SetAttr(a, key, v2)
  {
    var i := IndexOf(a, key);
    var b := SetAttr(a, key, v1);
    if i < 0 {
      assert IndexOf(b, key) == |a|;
    } else {
      IndexOfSameKeys(a, b, key);
    }
  }

  lemma {:induction false} IndexOfAppend(a: Attrs, e: Entry, key: string)
    requires UniqueKeys(a) && !HasKey(a, e.key)
    ensures UniqueKeys(a + [e])
    ensures IndexOf(a + [e], key) == if key == e.key then |a| else IndexOf(a, key)
  {
    assert (a + [e])[..|a|] == a;
  }

  lemma {:induction false} IndexOfSameKeys(a: Attrs, b: Attrs, key: string)
    requires |a| == |b| && forall i :: 0 <= i < |a| ==> a[i].key == b[i].key
    ensures IndexOf(a, key) == IndexOf(b, key)
    ensures UniqueKeys(a) ==> UniqueKeys(b)
    decreases |a|
  {
    if |a| > 0 {
      IndexOfSameKeys(a[..|a| - 1], b[..|b| - 1], key);
    }
  }

  /** Setting an existing key changes only its value, never its label, its
      order index or its position. */
  lemma SetExistingKeepsLabelAndOrder(a: Attrs, key: string, item: Value)
    requires HasKey(a, key)
    ensures |SetAttr(a, key, item)| == |a|
    ensures forall i :: 0 <= i < |a| ==>
      var e := SetAttr(a, key, item)[i];
      e.key == a[i].key && e.caption == a[i].caption && e.order == a[i].order &&
      (e.key != key ==> e.value == a[i].value)
  {
  }

  /** Setting a new key appends `[item, key, len(attrs)]`. */
  lemma SetNewAppends(a: Attrs, key: string, item: Value)
    requires !HasKey(a, key)
    ensures SetAttr(a, key, item) == a + [Entry(key, item, key, |a|)]
  {
  }

  /** Without deletions the order indices stay exactly 0..len-1. */
  lemma SetKeepsPositional(a: Attrs, key: string, item: Value)
    requires Positional(a)
    ensures Positional(SetAttr(a, key, item))
  {
  }

  lemma RemoveAtFacts(a: Attrs, i: nat)
    requires i < |a| && UniqueKeys(a)
    ensures var d := a[..i] + a[i + 1..];
      && |d| == |a| - 1
      && (forall k :: 0 <= k < |d| ==> d[k] == if k < i then a[k] else a[k + 1])
      && UniqueKeys(d)
      && !HasKey(d, a[i].key)
  {
    var d := a[..i] + a[i + 1..];
    assert forall k :: 0 <= k < |d| ==> d[k] == if k < i then a[k] else a[k + 1];
  }

  /** Deleting a key removes its one entry and keeps the keys distinct. */
  lemma DelAttrRemovesKey(a: Attrs, key: string)
    requires UniqueKeys(a)
    ensures GetAttr(DelAttr(a, key), key) == Null
    ensures |DelAttr(a, key)| == if HasKey(a, key) then |a| - 1 else |a|
    ensures UniqueKeys(DelAttr(a, key))
  {
    var i := IndexOf(a, key);
    if i >= 0 {
      RemoveAtFacts(a, i);
    }
  }

  lemma RemoveAtKeepsFound(a: Attrs, i: nat, j: nat)
    requires i < |a| && j < |a| && i != j && UniqueKeys(a)
    ensures IndexOf(a[..i] + a[i + 1..], a[j].key) == if j < i then j else j - 1
  {
    var d := a[..i] + a[i + 1..];
    RemoveAtFacts(a, i);
    var j' := if j < i then j else j - 1;
    assert d[j'] == a[j];
  }

  lemma RemoveAtKeepsMissing(a: Attrs, i: nat, other: string)
    requires i < |a| && !HasKey(a, other)
    ensures !HasKey(a[..i] + a[i + 1..], other)
  {
    var d := a[..i] + a[i + 1..];
    forall k | 0 <= k < |d| ensures d[k].key != other {
      assert d[k] == if k < i then a[k] else a[k + 1];
    }
  }

  /** Deleting a key leaves every other key's value where it was. */
  lemma DelAttrKeepsOther(a: Attrs, key: string, other: string)
    requires UniqueKeys(a) && other != key
    ensures GetAttr(DelAttr(a, key), other) == GetAttr(a, other)
  {
    var i := IndexOf(a, key);
    if i >= 0 {
      var j := IndexOf(a, other);
      if j >= 0 {
        RemoveAtKeepsFound(a, i, j);
        RemoveAtFacts(a, i);
      } else {
        RemoveAtKeepsMissing(a, i, other);
      }
    }
  }

  /** A missing key reads as `None`; deleting a key makes it missing and
      leaves the others as they were. */
  lemma GetDelAttr(a: Attrs, key: string, other: string)
    requires UniqueKeys(a)
    ensures GetAttr(DelAttr(a, key), key) == Null
    ensures other != key ==> GetAttr(DelAttr(a, key), other) == GetAttr(a, other)
    ensures |DelAttr(a, key)| == if HasKey(a, key) then |a| - 1 else |a|
    ensures UniqueKeys(DelAttr(a, key))
  {
    DelAttrRemovesKey(a, key);
    if other != key {
      DelAttrKeepsOther(a, key, other);
    }
  }

  /** Deleting a key and then setting a new one can give two entries the
      same order index: the new key takes `len(attrs)`, which the last older
      entry still holds. */
  lemma DeleteThenSetCanRepeatOrder(a: Attrs, newKey: string, item: Value)
    requires |a| >= 2 && UniqueKeys(a) && Positional(a)
    requires !HasKey(a, newKey)
    ensures var r := SetAttr(DelAttr(a, a[0].key), newKey, item);
      |r| == |a| && r[|r| - 2].order == r[|r| - 1].order == |a| - 1
  {
    var d := DelAttr(a, a[0].key);
    assert IndexOf(a, a[0].key) == 0;
    RemoveAtFacts(a, 0);
    assert !HasKey(d, newKey) by {
      forall k | 0 <= k < |d| ensures d[k].key != newKey {
        assert d[k] == a[k + 1];
      }
    }
    assert d[|d| - 1] == a[|a| - 1];
  }

  /** Sorting an already sorted list changes nothing (the sort is stable). */
  lemma {:induction false} SortSortedIsIdentity(a: Attrs)
    requires SortedByOrder(a)
    ensures SortByOrder(a) == a
  {
    if a != [] {
      SortSortedIsIdentity(a[..|a| - 1]);
      assert a == a[..|a| - 1] + [a[|a| - 1]];
    }
  }

  /** Without deletions, the csv columns come in insertion order, which is
      also order-index order: column `i` is the attribute whose order is `i`. */
  lemma CsvColumnsInOrder(a: Attrs, header: bool, sep: string)
    requires Positional(a)
    ensures SortByOrder(a) == a
    ensures forall i :: 0 <= i < |a| ==> SortByOrder(a)[i].order == i
    ensures AsCsv(a, false, sep) == Join(sep, ValueTexts(a))
    ensures AsCsv(a, true, sep) == Join("\n", [Join(sep, KeysOf(a)), Join(sep, ValueTexts(a))])
  {
    SortSortedIsIdentity(a);
  }

  // ---------------------------------------------------------------------

  class ScholarArticle {
    var attrs: Attrs
    var citationData: Option<string>

    ghost predicate Valid()
      reads this`attrs
    {
      UniqueKeys(attrs)
    }

    constructor ()
      ensures Valid() && Positional(attrs)
      ensures attrs == NewAttrs() && citationData == None
    {
      attrs := NewAttrs();
      citationData := None;
      NewAttrsWellFormed();
    }

    function Get(key: string): Value
      reads this`attrs
    {
      GetAttr(attrs, key)
    }

    function Length(): nat
      reads this`attrs
    {
      |attrs|
    }

    method Set(key: string, item: Value)
      requires Valid()
      modifies this`attrs
      ensures Valid()
      ensures attrs == SetAttr(old(attrs), key, item)
      ensures Get(key) == item
      ensures forall k :: k != key ==> Get(k) == old(Get(k))
    {
      GetSetAttr(attrs, key, item, key);
      forall k | k != key
        ensures GetAttr(SetAttr(attrs, key, item), k) == GetAttr(attrs, k)
      {
        GetSetAttr(attrs, key, item, k);
      }
      attrs := SetAttr(attrs, key, item);
    }

    method Delete(key: string)
      requires Valid()
      modifies this`attrs
      ensures Valid()
      ensures attrs == DelAttr(old(attrs), key)
      ensures Get(key) == Null
      ensures forall k :: k != key ==> Get(k) == old(Get(k))
    {
      GetDelAttr(attrs, key, key);
      forall k | k != key
        ensures GetAttr(DelAttr(attrs, key), k) == GetAttr(attrs, k)
      {
        GetDelAttr(attrs, key, k);
      }
      attrs := DelAttr(attrs, key);
    }

    method SetCitationData(data: Option<string>)
      modifies this`citationData
      ensures citationData == data
    {
      citationData := data;
    }

    function AsCsvText(header: bool, sep: string): string
      reads this
    {
      AsCsv(attrs, header, sep)
    }

    function AsCitationText(): string
      reads this
    {
      AsCitation(citationData)
    }
  }
}
