/** The overlap scoring at the end of `main`: for every topic, the first
    eight titles each backend returned are compared in pairs, in threes and
    all four together, the Jaccard scores are summed per combination, and
    the sums are finally averaged over the topics that were fully scored. */
module Scoring {
  import opened Wrappers
  import opened Values

  /** A title as a result list holds it: `None` where a backend gave none. */
  type Title = Option<string>

  /** An element of Scopus's `entry` list: its `dc:title`, when the key is
      present. */
  datatype ScopusEntry = ScopusEntry(dcTitle: Option<Title>)

  /** The Scopus response, as far as the scoring reads it. */
  datatype ScopusJson =
    | NoSearchResults                       // no `search-results` key
    | NoEntry                               // `search-results` without `entry`
    | Entries(entries: seq<ScopusEntry>)

  /** What the four backends returned for one topic: the Google Scholar,
      Semantic Scholar and Microsoft Academic title lists and the Scopus
      response. */
  datatype Topic = Topic(gs: seq<Title>, ss: seq<Title>, mas: seq<Title>, scopus: ScopusJson)

  /** The four result sets of a topic. */
  datatype Sets = Sets(gs: set<Title>, ss: set<Title>, mas: set<Title>, scopus: set<Title>)

  /** The keys of `sum_score`. */
  datatype Combo =
    | GsSs | SsScopus | ScopusMas | MasGs | GsScopus | SsMas
    | GsSsScopus | SsScopusMas | ScopusMasGs | MasGsSs | GsSsScopusMas

  /** The number of combinations. */
  const COMBOS: nat := 11

  /** The combinations in the order the cascade tries them, which is also
      their order in the `sum_score` literal. */
  const ORDER: seq<Combo> :=
    [GsSs, SsScopus, ScopusMas, MasGs, GsScopus, SsMas, GsSsScopus, SsScopusMas, ScopusMasGs, MasGsSs, GsSsScopusMas]

  /** The combination the cascade tries `i`-th. */
  function ComboAt(i: nat): Combo
    requires i < COMBOS
  {
    ORDER[i]
  }

  /** Where a combination stands in the cascade. */
  function Position(c: Combo): (i: nat)
    ensures i < COMBOS && ComboAt(i) == c
  {
    match c
    case GsSs => 0
    case SsScopus => 1
    case ScopusMas => 2
    case MasGs => 3
    case GsScopus => 4
    case SsMas => 5
    case GsSsScopus => 6
    case SsScopusMas => 7
    case ScopusMasGs => 8
    case MasGsSs => 9
    case GsSsScopusMas => 10
  }

  // ---------------------------------------------------------------------
  // Gathering the titles

  /** The `dc:title` of every entry that has one, in order. */
  function EntryTitles(es: seq<ScopusEntry>): (ts: seq<Title>)
    ensures |ts| <= |es|
  {
    if es == [] then []
    else
      var last := es[|es| - 1];
      EntryTitles(es[..|es| - 1]) + (if last.dcTitle.Some? then [last.dcTitle.value] else [])
  }

  /** Some entry has no `dc:title`. */
  predicate SomeUntitled(es: seq<ScopusEntry>) {
    exists i :: 0 <= i < |es| && es[i].dcTitle.None?
  }

  /** The Scopus titles, and whether reading them set `check`. */
  function ScopusTitles(j: ScopusJson): (seq<Title>, bool) {
    match j
    case Entries(es) => (EntryTitles(es), SomeUntitled(es))
    case _ => ([], true)
  }

  /** The Scopus titles of a topic and its `check` flag: set by a Scopus
      response without results or with an untitled entry, and by a `None`
      among the Google Scholar or Semantic Scholar titles. */
  function Screen(t: Topic): (seq<Title>, bool) {
    (ScopusTitles(t.scopus).0, ScopusTitles(t.scopus).1 || None in t.gs || None in t.ss)
  }

  /** A title is among the Scopus titles exactly when some entry carries it. */
  lemma {:induction false} EntryTitlesMembers(es: seq<ScopusEntry>, t: Title)
    ensures t in EntryTitles(es) <==> exists i :: 0 <= i < |es| && es[i].dcTitle == Some(t)
    decreases |es|
  {
    if es != [] {
      var init := es[..|es| - 1];
      EntryTitlesMembers(init, t);
      if t in EntryTitles(es) {
        if t in EntryTitles(init) {
          var i :| 0 <= i < |init| && init[i].dcTitle == Some(t);
          assert es[i] == init[i];
        } else {
          assert es[|es| - 1].dcTitle == Some(t);
        }
      }
      if exists i :: 0 <= i < |es| && es[i].dcTitle == Some(t) {
        var i :| 0 <= i < |es| && es[i].dcTitle == Some(t);
        if i < |es| - 1 {
          assert init[i] == es[i];
        }
      }
    }
  }

  /** The loops of `main` that gather the Scopus titles and set `check`. */
  method GatherTitles(t: Topic) returns (scopus: seq<Title>, check: bool)
    ensures (scopus, check) == Screen(t)
  {
    check := false;
    scopus := [];
    match t.scopus {
      case NoSearchResults =>
        check := true;
      case NoEntry =>
        check := true;
      case Entries(es) =>
        var i := 0;
        while i < |es|
          invariant 0 <= i <= |es|
          invariant scopus == EntryTitles(es[..i])
          invariant check == SomeUntitled(es[..i])
        {
          assert es[..i + 1][..i] == es[..i];
          if es[i].dcTitle.Some? {
            scopus := scopus + [es[i].dcTitle.value];
          } else {
            check := true;
          }
          i := i + 1;
        }
        assert es[..i] == es;
    }
    var i := 0;
    while i < |t.gs|
      invariant 0 <= i <= |t.gs|
      invariant check == (ScopusTitles(t.scopus).1 || None in t.gs[..i])
    {
      assert t.gs[..i + 1] == t.gs[..i] + [t.gs[i]];
      if t.gs[i].None? {
        check := true;
      }
      i := i + 1;
    }
    assert t.gs[..i] == t.gs;
    i := 0;
    while i < |t.ss|
      invariant 0 <= i <= |t.ss|
      invariant check == (ScopusTitles(t.scopus).1 || None in t.gs || None in t.ss[..i])
    {
      assert t.ss[..i + 1] == t.ss[..i] + [t.ss[i]];
      if t.ss[i].None? {
        check := true;
      }
      i := i + 1;
    }
    assert t.ss[..i] == t.ss;
  }

  // ---------------------------------------------------------------------
  // The result sets

  /** `xs[:8] if len(xs) > 8 else xs` */
  function FirstEight(xs: seq<Title>): (r: seq<Title>)
    ensures r <= xs && |r| <= 8
    ensures |xs| <= 8 ==> r == xs
  {
    if |xs| > 8 then xs[..8] else xs
  }

  /** `set(xs)` */
  function Elements(xs: seq<Title>): set<Title> {
    set x | x in xs
  }

  /** A set made from a list is no larger than the list, and empty only
      when the list is. */
  lemma {:induction false} ElementsSize(xs: seq<Title>)
    ensures |Elements(xs)| <= |xs|
    ensures Elements(xs) == {} <==> xs == []
    decreases |xs|
  {
    if xs != [] {
      var init := xs[..|xs| - 1];
      ElementsSize(init);
      assert Elements(xs) == Elements(init) + {xs[|xs| - 1]};
    }
  }

  /** The four sets of a topic, each from the first eight titles. */
  function SetsOf(t: Topic, scopus: seq<Title>): Sets {
    Sets(Elements(FirstEight(t.gs)), Elements(FirstEight(t.ss)),
         Elements(FirstEight(t.mas)), Elements(FirstEight(scopus)))
  }

  /** Every set of a topic has at most eight titles, and is empty exactly
      when its list is. */
  lemma SetsOfSizes(t: Topic, scopus: seq<Title>)
    ensures var s := SetsOf(t, scopus);
      && |s.gs| <= 8 && |s.ss| <= 8 && |s.mas| <= 8 && |s.scopus| <= 8
      && (s.gs == {} <==> t.gs == []) && (s.ss == {} <==> t.ss == [])
      && (s.mas == {} <==> t.mas == []) && (s.scopus == {} <==> scopus == [])
  {
    ElementsSize(FirstEight(t.gs));
    ElementsSize(FirstEight(t.ss));
    ElementsSize(FirstEight(t.mas));
    ElementsSize(FirstEight(scopus));
  }

  // ---------------------------------------------------------------------
  // Jaccard scores

  /** `set.intersection(*xs)` */
  function Intersection(xs: seq<set<Title>>): set<Title>
    requires |xs| >= 1
    decreases |xs|
  {
    if |xs| == 1 then xs[0] else xs[0] * Intersection(xs[1..])
  }

  /** `set.union(*xs)` */
  function Union(xs: seq<set<Title>>): set<Title>
    requires |xs| >= 1
    decreases |xs|
  {
    if |xs| == 1 then xs[0] else xs[0] + Union(xs[1..])
  }

  /** `len(intersection) / float(len(union))`, as an exact ratio. */
  function Jaccard(xs: seq<set<Title>>): real
    requires |xs| >= 1 && Union(xs) != {}
  {
    |Intersection(xs)| as real / |Union(xs)| as real
  }

  /** The intersection holds what every set holds. */
  lemma {:induction false} IntersectionMembers(xs: seq<set<Title>>, x: Title)
    requires |xs| >= 1
    ensures x in Intersection(xs) <==> forall k :: 0 <= k < |xs| ==> x in xs[k]
    decreases |xs|
  {
    if |xs| > 1 {
      IntersectionMembers(xs[1..], x);
      if forall k :: 1 <= k < |xs| ==> x in xs[k] {
        forall k | 0 <= k < |xs| - 1 ensures x in xs[1..][k] {
          assert xs[1..][k] == xs[k + 1];
        }
      }
      if x in Intersection(xs) {
        forall k | 1 <= k < |xs| ensures x in xs[k] {
          assert xs[k] == xs[1..][k - 1];
        }
      }
    }
  }

  /** The union holds what some set holds. */
  lemma {:induction false} UnionMembers(xs: seq<set<Title>>, x: Title)
    requires |xs| >= 1
    ensures x in Union(xs) <==> exists k :: 0 <= k < |xs| && x in xs[k]
    decreases |xs|
  {
    if |xs| > 1 {
      UnionMembers(xs[1..], x);
      if x in Union(xs[1..]) {
        var k :| 0 <= k < |xs| - 1 && x in xs[1..][k];
        assert x in xs[k + 1];
      }
      if exists k :: 0 <= k < |xs| && x in xs[k] {
        var k :| 0 <= k < |xs| && x in xs[k];
        if k > 0 {
          assert xs[1..][k - 1] == xs[k];
        }
      }
    }
  }

  lemma SubsetSize(a: set<Title>, b: set<Title>)
    requires a <= b
    ensures |a| <= |b|
  {
    assert b == a + (b - a);
  }

  /** Every score lies between 0 and 1. */
  lemma JaccardBounds(xs: seq<set<Title>>)
    requires |xs| >= 1 && Union(xs) != {}
    ensures 0.0 <= Jaccard(xs) <= 1.0
  {
    forall x | x in Intersection(xs) ensures x in Union(xs) {
      IntersectionMembers(xs, x);
      UnionMembers(xs, x);
      assert x in xs[0];
    }
    SubsetSize(Intersection(xs), Union(xs));
    var y :| y in Union(xs);
    assert |Union(xs)| > 0 by {
      assert y in Union(xs);
    }
    RatioBounds(|Intersection(xs)| as real, |Union(xs)| as real);
  }

  lemma RatioBounds(p: real, q: real)
    requires 0.0 <= p <= q && q > 0.0
    ensures 0.0 <= p / q <= 1.0
  {
  }

  /** Identical non-empty sets score 1. */
  lemma JaccardIdentical(xs: seq<set<Title>>, a: set<Title>)
    requires |xs| >= 1 && a != {}
    requires forall k :: 0 <= k < |xs| ==> xs[k] == a
    ensures Union(xs) != {} && Jaccard(xs) == 1.0
  {
    forall x ensures x in Intersection(xs) <==> x in a {
      IntersectionMembers(xs, x);
    }
    forall x ensures x in Union(xs) <==> x in a {
      UnionMembers(xs, x);
    }
    assert Intersection(xs) == a && Union(xs) == a;
    var y :| y in a;
    assert |a| > 0 by {
      assert y in a;
    }
    RatioOfSelf(|a| as real);
    assert Jaccard(xs) == |a| as real / |a| as real;
  }

  lemma RatioOfSelf(n: real)
    requires n > 0.0
    ensures n / n == 1.0
  {
  }

  /** A score depends only on which sets are compared, not on their order
      or repetition. */
  lemma JaccardOrderFree(xs: seq<set<Title>>, ys: seq<set<Title>>)
    requires |xs| >= 1 && |ys| >= 1 && Union(xs) != {}
    requires forall k :: 0 <= k < |xs| ==> xs[k] in ys
    requires forall k :: 0 <= k < |ys| ==> ys[k] in xs
    ensures Union(ys) != {} && Jaccard(xs) == Jaccard(ys)
  {
    forall x ensures x in Intersection(xs) <==> x in Intersection(ys) {
      IntersectionMembers(xs, x);
      IntersectionMembers(ys, x);
      if x in Intersection(xs) {
        forall k | 0 <= k < |ys| ensures x in ys[k] {
          var j :| 0 <= j < |xs| && xs[j] == ys[k];
        }
      }
      if x in Intersection(ys) {
        forall k | 0 <= k < |xs| ensures x in xs[k] {
          var j :| 0 <= j < |ys| && ys[j] == xs[k];
        }
      }
    }
    forall x ensures x in Union(xs) <==> x in Union(ys) {
      UnionMembers(xs, x);
      UnionMembers(ys, x);
      if x in Union(xs) {
        var k :| 0 <= k < |xs| && x in xs[k];
        var j :| 0 <= j < |ys| && ys[j] == xs[k];
      }
      if x in Union(ys) {
        var k :| 0 <= k < |ys| && x in ys[k];
        var j :| 0 <= j < |xs| && xs[j] == ys[k];
      }
    }
    assert Intersection(xs) == Intersection(ys);
    assert Union(xs) == Union(ys);
  }

  /** A pair scores the same in either order. */
  lemma JaccardSymmetric(a: set<Title>, b: set<Title>)
    requires a + b != {}
    ensures Union([a, b]) != {} && Jaccard([a, b]) == Jaccard([b, a])
  {
    JaccardOrderFree([a, b], [b, a]);
  }

  // ---------------------------------------------------------------------
  // The cascade

  /** Each place in the cascade holds a different combination. */
  lemma PositionOfComboAt(i: nat)
    requires i < COMBOS
    ensures Position(ComboAt(i)) == i
  {
  }

  /** The sets each combination compares, in the order the code passes
      them. */
  function Members(c: Combo, s: Sets): (xs: seq<set<Title>>)
    ensures 2 <= |xs| <= 4
  {
    match c
    case GsSs => [s.gs, s.ss]
    case SsScopus => [s.ss, s.scopus]
    case ScopusMas => [s.mas, s.scopus]
    case MasGs => [s.mas, s.gs]
    case GsScopus => [s.scopus, s.gs]
    case SsMas => [s.mas, s.ss]
    case GsSsScopus => [s.ss, s.gs, s.scopus]
    case SsScopusMas => [s.ss, s.mas, s.scopus]
    case ScopusMasGs => [s.mas, s.gs, s.scopus]
    case MasGsSs => [s.mas, s.gs, s.ss]
    case GsSsScopusMas => [s.mas, s.gs, s.ss, s.scopus]
  }

  /** The test in front of each addition, as written. */
  predicate Guarded(c: Combo, s: Sets) {
    match c
    case GsSs => |s.gs| > 0 && |s.ss| > 0
    case SsScopus => |s.scopus| > 0 && |s.ss| > 0
    case ScopusMas => |s.mas| > 0 && |s.scopus| > 0
    case MasGs => |s.gs| > 0 && |s.mas| > 0
    case GsScopus => |s.gs| > 0 && |s.scopus| > 0
    case SsMas => |s.mas| > 0 && |s.ss| > 0
    case GsSsScopus => |s.gs| > 0 && |s.ss| > 0 && |s.scopus| > 0
    case SsScopusMas => |s.mas| > 0 && |s.ss| > 0 && |s.scopus| > 0
    case ScopusMasGs => |s.mas| > 0 && |s.gs| > 0 && |s.scopus| > 0
    case MasGsSs => |s.gs| > 0 && |s.ss| > 0 && |s.mas| > 0
    case GsSsScopusMas => |s.gs| > 0 && |s.ss| > 0 && |s.mas| > 0 && |s.scopus| > 0
  }

  /** Each test checks exactly the sets its score compares, so a score is
      computed only over a non-empty union. */
  lemma GuardedMembers(c: Combo, s: Sets)
    ensures Guarded(c, s) <==> forall k :: 0 <= k < |Members(c, s)| ==> Members(c, s)[k] != {}
    ensures Guarded(c, s) ==> Union(Members(c, s)) != {}
  {
    var xs := Members(c, s);
    assert xs[0] <= Union(xs);
    if forall k :: 0 <= k < |xs| ==> xs[k] != {} {
      assert xs[0] != {} && xs[1] != {};
      assert |xs| > 2 ==> xs[2] != {};
      assert |xs| > 3 ==> xs[3] != {};
    }
  }

  /** `sum_score` holds every combination. */
  predicate Complete(sums: map<Combo, real>) {
    forall c: Combo :: c in sums
  }

  /** The score a combination adds once its test has passed. */
  function Score(c: Combo, s: Sets): real {
    if Guarded(c, s) then
      GuardedMembers(c, s);
      Jaccard(Members(c, s))
    else 0.0
  }

  /** The place of the first combination, from the `i`-th on, whose test
      fails; `COMBOS` when none does. */
  function Stop(s: Sets, i: nat): (k: nat)
    requires i <= COMBOS
    ensures i <= k <= COMBOS
    decreases COMBOS - i
  {
    if i == COMBOS || !Guarded(ComboAt(i), s) then i else Stop(s, i + 1)
  }

  /** The sums with the score of every combination placed before `n` added. */
  function Added(sums: map<Combo, real>, s: Sets, n: nat): (r: map<Combo, real>)
    ensures r.Keys == sums.Keys
  {
    map c | c in sums :: if Position(c) < n then sums[c] + Score(c, s) else sums[c]
  }

  /** Adding the score of the `i`-th combination extends `Added` by one. */
  lemma AddedNext(sums: map<Combo, real>, s: Sets, i: nat, m: map<Combo, real>, v: real)
    requires i < COMBOS && ComboAt(i) in sums
    requires m == Added(sums, s, i) && v == Score(ComboAt(i), s)
    ensures m[ComboAt(i) := m[ComboAt(i)] + v] == Added(sums, s, i + 1)
  {
    PositionOfComboAt(i);
  }

  /** The cascade over one topic's sets: every combination before the first
      failing test adds its score, the failing test ends the topic
      (`continue`), and the flag says whether no test failed. */
  function Cascade(sums: map<Combo, real>, s: Sets): (r: (map<Combo, real>, bool))
    ensures r.0.Keys == sums.Keys
  {
    (Added(sums, s, Stop(s, 0)), Stop(s, 0) == COMBOS)
  }

  /** One topic: a `check`ed topic changes nothing; otherwise the cascade
      runs over its sets, and the topic counts when it ran to its end. */
  function Step(sums: map<Combo, real>, t: Topic): (r: (map<Combo, real>, bool))
    ensures r.0.Keys == sums.Keys
  {
    if Screen(t).1 then (sums, false)
    else Cascade(sums, SetsOf(t, Screen(t).0))
  }

  /** `Stop` is the first failing test: every test before it passes, and
      the one at it, if any, fails. */
  lemma {:induction false} StopFirst(s: Sets, i: nat)
    requires i <= COMBOS
    ensures forall j :: i <= j < Stop(s, i) ==> Guarded(ComboAt(j), s)
    ensures Stop(s, i) < COMBOS ==> !Guarded(ComboAt(Stop(s, i)), s)
    decreases COMBOS - i
  {
    if i < COMBOS && Guarded(ComboAt(i), s) {
      StopFirst(s, i + 1);
    }
  }

  /** Conversely, a place whose earlier tests all pass and whose own test
      fails, or the end, is `Stop`. */
  lemma {:induction false} StopUnique(s: Sets, i: nat, m: nat)
    requires i <= m <= COMBOS
    requires forall j :: i <= j < m ==> Guarded(ComboAt(j), s)
    requires m < COMBOS ==> !Guarded(ComboAt(m), s)
    ensures Stop(s, i) == m
    decreases m - i
  {
    if i < m {
      assert Guarded(ComboAt(i), s);
      StopUnique(s, i + 1, m);
    }
  }

  /** Where the cascade stops for the four sets of a topic: at once without
      Google Scholar or Semantic Scholar results, after `GS_SS` without
      Scopus results, after `SS_SCOPUS` without Microsoft Academic results,
      and otherwise never. */
  lemma StopShape(s: Sets)
    ensures Stop(s, 0) ==
      if s.gs == {} || s.ss == {} then 0
      else if s.scopus == {} then 1
      else if s.mas == {} then 2
      else COMBOS
  {
    if s.gs == {} || s.ss == {} {
      StopUnique(s, 0, 0);
    } else if s.scopus == {} {
      StopUnique(s, 0, 1);
    } else if s.mas == {} {
      StopUnique(s, 0, 2);
    } else {
      forall j | 0 <= j < COMBOS ensures Guarded(ComboAt(j), s) {
      }
      StopUnique(s, 0, COMBOS);
    }
  }

  /** What the cascade does with the four sets of a topic: nothing without
      Google Scholar or Semantic Scholar results; only `GS_SS` without
      Scopus results; `GS_SS` and `SS_SCOPUS` without Microsoft Academic
      results; otherwise every combination, and only then does the topic
      count. */
  lemma CascadeShape(sums: map<Combo, real>, s: Sets)
    requires Complete(sums)
    ensures var r := Cascade(sums, s);
      && (r.1 <==> s.gs != {} && s.ss != {} && s.scopus != {} && s.mas != {})
      && (s.gs == {} || s.ss == {} ==> r.0 == sums)
      && (s.gs != {} && s.ss != {} && s.scopus == {} ==>
            r.0 == sums[GsSs := sums[GsSs] + Jaccard([s.gs, s.ss])])
      && (s.gs != {} && s.ss != {} && s.scopus != {} && s.mas == {} ==>
            r.0 == sums[GsSs := sums[GsSs] + Jaccard([s.gs, s.ss])]
                       [SsScopus := sums[SsScopus] + Jaccard([s.ss, s.scopus])])
      && (r.1 ==> forall c ::
            (Union(Members(c, s)) != {} && r.0[c] == sums[c] + Jaccard(Members(c, s))))
  {
    StopShape(s);
    if s.gs != {} && s.ss != {} && s.scopus != {} && s.mas != {} {
      CascadeAll(sums, s);
    } else if s.gs != {} && s.ss != {} && s.scopus == {} {
      CascadeFirst(sums, s);
    } else if s.gs != {} && s.ss != {} && s.scopus != {} {
      CascadeFirstTwo(sums, s);
    } else {
      assert Cascade(sums, s).0 == sums;
    }
  }

  lemma CascadeAll(sums: map<Combo, real>, s: Sets)
    requires Complete(sums) && Stop(s, 0) == COMBOS
    ensures forall c :: Union(Members(c, s)) != {} && Cascade(sums, s).0[c] == sums[c] + Jaccard(Members(c, s))
  {
    var r := Cascade(sums, s);
    forall c ensures Union(Members(c, s)) != {} && r.0[c] == sums[c] + Jaccard(Members(c, s)) {
      GuardedMembers(c, s);
    }
  }

  lemma CascadeFirst(sums: map<Combo, real>, s: Sets)
    requires Complete(sums) && Stop(s, 0) == 1 && s.gs != {} && s.ss != {}
    ensures Cascade(sums, s).0 == sums[GsSs := sums[GsSs] + Jaccard([s.gs, s.ss])]
  {
    GuardedMembers(GsSs, s);
  }

  lemma CascadeFirstTwo(sums: map<Combo, real>, s: Sets)
    requires Complete(sums) && Stop(s, 0) == 2 && s.gs != {} && s.ss != {} && s.scopus != {}
    ensures Cascade(sums, s).0 == sums[GsSs := sums[GsSs] + Jaccard([s.gs, s.ss])]
                                      [SsScopus := sums[SsScopus] + Jaccard([s.ss, s.scopus])]
  {
    GuardedMembers(GsSs, s);
    GuardedMembers(SsScopus, s);
  }

  /** A topic counts exactly when it is not `check`ed and all four lists
      (Scopus's as gathered) are non-empty; a `check`ed topic leaves the
      sums as they were. */
  lemma StepCounts(sums: map<Combo, real>, t: Topic)
    ensures Step(sums, t).1 <==>
      !Screen(t).1 && t.gs != [] && t.ss != [] && t.mas != [] && Screen(t).0 != []
    ensures Screen(t).1 ==> Step(sums, t).0 == sums
  {
    SetsOfSizes(t, Screen(t).0);
    StopShape(SetsOf(t, Screen(t).0));
  }

  /** One topic adds between 0 and 1 to each sum, and leaves the sums of
      the combinations after the first two alone unless it counts. */
  lemma StepGain(sums: map<Combo, real>, t: Topic, c: Combo)
    requires c in sums
    ensures sums[c] <= Step(sums, t).0[c] <= sums[c] + 1.0
    ensures Position(c) >= 2 && !Step(sums, t).1 ==> Step(sums, t).0[c] == sums[c]
  {
    if !Screen(t).1 {
      var s := SetsOf(t, Screen(t).0);
      StopShape(s);
      if Guarded(c, s) {
        GuardedMembers(c, s);
        JaccardBounds(Members(c, s));
      }
    }
  }

  // ---------------------------------------------------------------------
  // The topic loop and the averages

  /** `sum_score` before the first topic. */
  const ZERO_SUMS: map<Combo, real> :=
    map[GsSs := 0.0, SsScopus := 0.0, ScopusMas := 0.0, MasGs := 0.0, GsScopus := 0.0, SsMas := 0.0,
        GsSsScopus := 0.0, SsScopusMas := 0.0, ScopusMasGs := 0.0, MasGsSs := 0.0, GsSsScopusMas := 0.0]

  /** The sums and `cnt` after the first `n` topics; `sum_score` keeps
      every key. */
  function Run(topics: seq<Topic>, n: nat): (r: (map<Combo, real>, nat))
    requires n <= |topics|
    ensures Complete(r.0) && r.1 <= n
  {
    if n == 0 then
      assert Complete(ZERO_SUMS) by {
        forall c: Combo ensures c in ZERO_SUMS {
          assert c == ComboAt(Position(c));
        }
      }
      (ZERO_SUMS, 0)
    else
      var prev := Run(topics, n - 1);
      var step := Step(prev.0, topics[n - 1]);
      assert forall c: Combo :: c in prev.0.Keys;
      (step.0, if step.1 then prev.1 + 1 else prev.1)
  }

  /** The closing loop of `main`: each sum divided by `cnt`; with no
      counted topic the first division raises. */
  function Average(sums: map<Combo, real>, cnt: nat): Result<map<Combo, real>, Error> {
    if cnt == 0 then Failure(ZeroDivisionError)
    else Success(map c | c in sums :: sums[c] / cnt as real)
  }

  /** Every sum stays non-negative, and the sum of a combination after the
      first two is at most the number of counted topics: those are only
      reached when all four sets are non-empty. */
  lemma {:induction false} RunSums(topics: seq<Topic>, n: nat, c: Combo)
    requires n <= |topics|
    ensures 0.0 <= Run(topics, n).0[c]
    ensures Position(c) >= 2 ==> Run(topics, n).0[c] <= Run(topics, n).1 as real
  {
    if n == 0 {
      ZeroSumsAt(c);
    } else {
      RunSums(topics, n - 1, c);
      RunSumsStep(topics, n, c);
    }
  }

  /** One topic more keeps the bounds of `RunSums`. */
  lemma RunSumsStep(topics: seq<Topic>, n: nat, c: Combo)
    requires 0 < n <= |topics|
    requires 0.0 <= Run(topics, n - 1).0[c]
    requires Position(c) >= 2 ==> Run(topics, n - 1).0[c] <= Run(topics, n - 1).1 as real
    ensures 0.0 <= Run(topics, n).0[c]
    ensures Position(c) >= 2 ==> Run(topics, n).0[c] <= Run(topics, n).1 as real
  {
    StepGain(Run(topics, n - 1).0, topics[n - 1], c);
  }

  lemma ZeroSumsAt(c: Combo)
    ensures c in ZERO_SUMS && ZERO_SUMS[c] == 0.0
  {
    assert c == ComboAt(Position(c));
  }

  /** What the scoring of a whole run of topics ends with. */
  function Totals(topics: seq<Topic>): Result<map<Combo, real>, Error> {
    Average(Run(topics, |topics|).0, Run(topics, |topics|).1)
  }

  /** The averages are the sums divided by `cnt`, which must not be 0; the
      averages of the combinations after the first two lie in [0, 1]. */
  lemma AverageOf(sums: map<Combo, real>, cnt: nat, c: Combo)
    ensures Average(sums, cnt).Failure? <==> cnt == 0
    ensures Average(sums, cnt).Success? && c in sums ==>
      (c in Average(sums, cnt).value && Average(sums, cnt).value[c] * cnt as real == sums[c])
    ensures Average(sums, cnt).Success? && c in sums && 0.0 <= sums[c] <= cnt as real ==>
      0.0 <= Average(sums, cnt).value[c] <= 1.0
  {
    if cnt > 0 && c in sums {
      var k := cnt as real;
      var v := sums[c];
      assert Average(sums, cnt).value[c] == v / k;
      assert v / k * k == v;
      if 0.0 <= v <= k {
        assert v / k <= k / k;
      }
    }
  }

  lemma AverageBounds(topics: seq<Topic>, c: Combo)
    ensures Totals(topics).Failure? <==> Run(topics, |topics|).1 == 0
    ensures Totals(topics).Success? ==>
      (c in Totals(topics).value &&
       Totals(topics).value[c] == Run(topics, |topics|).0[c] / Run(topics, |topics|).1 as real)
    ensures Totals(topics).Success? && Position(c) >= 2 ==> 0.0 <= Totals(topics).value[c] <= 1.0
  {
    var r := Run(topics, |topics|);
    RunSums(topics, |topics|, c);
    AverageOf(r.0, r.1, c);
    assert c in r.0 && Totals(topics) == Average(r.0, r.1);
  }

  /** The first topic of `EarlySumsOverrun`: every backend returns the
      same single title, so the topic counts and `GS_SS` and `SS_SCOPUS`
      each gain 1. */
  lemma FullTopicStep(sums: map<Combo, real>, full: Topic)
    requires Complete(sums)
    requires full == Topic([Some("a")], [Some("a")], [Some("a")], Entries([ScopusEntry(Some(Some("a")))]))
    ensures Step(sums, full).1 && Step(sums, full).0[GsSs] == sums[GsSs] + 1.0
    ensures Step(sums, full).0[SsScopus] == sums[SsScopus] + 1.0
  {
    var a: set<Title> := {Some("a")};
    assert EntryTitles([ScopusEntry(Some(Some("a")))]) == [Some("a")] by {
      assert [ScopusEntry(Some(Some("a")))][..0] == [];
    }
    assert Screen(full) == ([Some("a")], false);
    assert Elements([Some("a")]) == a;
    var s := Sets(a, a, a, a);
    assert SetsOf(full, Screen(full).0) == s;
    CascadeShape(sums, s);
    JaccardIdentical([a, a], a);
    assert Members(GsSs, s) == [a, a];
    assert Members(SsScopus, s) == [a, a];
  }

  /** The second topic of `EarlySumsOverrun`: no Scopus or Microsoft
      Academic results, so the topic does not count, yet `GS_SS` gains 1. */
  lemma PartialTopicStep(sums: map<Combo, real>, partial: Topic)
    requires Complete(sums)
    requires partial == Topic([Some("a")], [Some("a")], [], Entries([]))
    ensures !Step(sums, partial).1 && Step(sums, partial).0[GsSs] == sums[GsSs] + 1.0
  {
    var a: set<Title> := {Some("a")};
    assert Screen(partial) == ([], false);
    assert Elements([Some("a")]) == a;
    assert Elements([]) == {};
    var s := Sets(a, a, {}, {});
    assert SetsOf(partial, Screen(partial).0) == s;
    CascadeShape(sums, s);
    JaccardIdentical([a, a], a);
  }

  /** `GS_SS` is added before a topic is known to count, so its average
      can exceed 1: a topic with identical results everywhere, then one
      without Scopus results, average 2 on `GS_SS`. */
  lemma EarlySumsOverrun()
    ensures var full := Topic([Some("a")], [Some("a")], [Some("a")], Entries([ScopusEntry(Some(Some("a")))]));
      var partial := Topic([Some("a")], [Some("a")], [], Entries([]));
      var r := Totals([full, partial]);
      r.Success? && r.value[GsSs] == 2.0
  {
    var full := Topic([Some("a")], [Some("a")], [Some("a")], Entries([ScopusEntry(Some(Some("a")))]));
    var partial := Topic([Some("a")], [Some("a")], [], Entries([]));
    var topics := [full, partial];
    assert topics[0] == full && topics[1] == partial;
    var after0 := Run(topics, 0);
    assert after0.0[GsSs] == 0.0;
    FullTopicStep(after0.0, full);
    var after1 := Run(topics, 1);
    assert after1.1 == 1 && after1.0[GsSs] == 1.0;
    PartialTopicStep(after1.0, partial);
    var after2 := Run(topics, 2);
    assert after2.1 == 1 && after2.0[GsSs] == 2.0;
    assert Totals(topics) == Average(after2.0, 1);
    AverageOf(after2.0, 1, GsSs);
  }

  /** The second topic of `EarlyScopusSumsOverrun`: Scopus answers but
      Microsoft Academic does not, so the topic does not count, yet
      `SS_SCOPUS` gains 1. */
  lemma NoMasTopicStep(sums: map<Combo, real>, partial: Topic)
    requires Complete(sums)
    requires partial == Topic([Some("a")], [Some("a")], [], Entries([ScopusEntry(Some(Some("a")))]))
    ensures !Step(sums, partial).1 && Step(sums, partial).0[SsScopus] == sums[SsScopus] + 1.0
  {
    var a: set<Title> := {Some("a")};
    assert EntryTitles([ScopusEntry(Some(Some("a")))]) == [Some("a")] by {
      assert [ScopusEntry(Some(Some("a")))][..0] == [];
    }
    assert Screen(partial) == ([Some("a")], false);
    assert Elements([Some("a")]) == a;
    assert Elements([]) == {};
    var s := Sets(a, a, {}, a);
    assert SetsOf(partial, Screen(partial).0) == s;
    CascadeShape(sums, s);
    JaccardIdentical([a, a], a);
  }

  /** `SS_SCOPUS` is likewise added before a topic is known to count: a
      topic with identical results everywhere, then one without Microsoft
      Academic results, average 2 on `SS_SCOPUS`. */
  lemma EarlyScopusSumsOverrun()
    ensures var full := Topic([Some("a")], [Some("a")], [Some("a")], Entries([ScopusEntry(Some(Some("a")))]));
      var partial := Topic([Some("a")], [Some("a")], [], Entries([ScopusEntry(Some(Some("a")))]));
      var r := Totals([full, partial]);
      r.Success? && r.value[SsScopus] == 2.0
  {
    var full := Topic([Some("a")], [Some("a")], [Some("a")], Entries([ScopusEntry(Some(Some("a")))]));
    var partial := Topic([Some("a")], [Some("a")], [], Entries([ScopusEntry(Some(Some("a")))]));
    var topics := [full, partial];
    assert topics[0] == full && topics[1] == partial;
    var after0 := Run(topics, 0);
    assert after0.0[SsScopus] == 0.0;
    FullTopicStep(after0.0, full);
    var after1 := Run(topics, 1);
    assert after1.1 == 1 && after1.0[SsScopus] == 1.0;
    NoMasTopicStep(after1.0, partial);
    var after2 := Run(topics, 2);
    assert after2.1 == 1 && after2.0[SsScopus] == 2.0;
    assert Totals(topics) == Average(after2.0, 1);
    AverageOf(after2.0, 1, SsScopus);
  }

  // ---------------------------------------------------------------------
  // The loops of `main`

  /** One pass of the topic loop once the backends have answered: gather
      the titles, skip a `check`ed topic, then run the cascade on the sets
      of the first eight titles. */
  method ScoreTopic(sums: map<Combo, real>, t: Topic) returns (next: map<Combo, real>, counted: bool)
    requires Complete(sums)
    ensures (next, counted) == Step(sums, t)
  {
    var scopus, check := GatherTitles(t);
    if check {
      return sums, false;
    }
    next, counted := RunCascade(sums, SetsOf(t, scopus));
  }

  /** The eleven guarded additions of `main`, each followed by `continue`
      when its guard fails. */
  method RunCascade(sums: map<Combo, real>, s: Sets) returns (next: map<Combo, real>, counted: bool)
    requires Complete(sums)
    ensures (next, counted) == Cascade(sums, s)
  {
    next := sums;
    for i := 0 to COMBOS
      invariant Stop(s, i) == Stop(s, 0)
      invariant next == Added(sums, s, i)
    {
      var passed;
      next, passed := TryCombo(sums, s, i, next);
      if !passed {
        return next, false;
      }
    }
    counted := true;
  }

  /** One guarded addition of the cascade. */
  method TryCombo(sums: map<Combo, real>, s: Sets, i: nat, prev: map<Combo, real>)
    returns (next: map<Combo, real>, passed: bool)
    requires i < COMBOS && Complete(sums) && prev == Added(sums, s, i)
    ensures passed <==> Guarded(ComboAt(i), s)
    ensures passed ==> next == Added(sums, s, i + 1) && Stop(s, i) == Stop(s, i + 1)
    ensures !passed ==> next == prev && Stop(s, i) == i
  {
    var c := ComboAt(i);
    if !Guarded(c, s) {
      return prev, false;
    }
    GuardedMembers(c, s);
    var score := Jaccard(Members(c, s));
    AddedNext(sums, s, i, prev, score);
    next := prev[c := prev[c] + score];
    passed := true;
  }

  /** The closing loop of `main`, over the keys of `sum_score` in order. */
  method Averaged(sums: map<Combo, real>, cnt: nat) returns (r: Result<map<Combo, real>, Error>)
    requires Complete(sums)
    ensures r == Average(sums, cnt)
  {
    if cnt == 0 {
      return Failure(ZeroDivisionError);
    }
    var avg := sums;
    for i := 0 to COMBOS
      invariant avg.Keys == sums.Keys
      invariant forall c :: c in avg ==> avg[c] == if Position(c) < i then sums[c] / cnt as real else sums[c]
    {
      var c := ComboAt(i);
      PositionOfComboAt(i);
      avg := avg[c := avg[c] / cnt as real];
    }
    ghost var want := Average(sums, cnt).value;
    assert avg.Keys == want.Keys;
    assert forall c :: c in avg ==> avg[c] == want[c];
    assert avg == want;
    return Success(avg);
  }

  /** The scoring part of `main` over the answers for every topic: the
      per-topic loop, then the averages. */
  method ScoreTopics(topics: seq<Topic>) returns (r: Result<map<Combo, real>, Error>)
    ensures r == Totals(topics)
  {
    var sums := ZERO_SUMS;
    var cnt := 0;
    for i := 0 to |topics|
      invariant (sums, cnt) == Run(topics, i)
    {
      var counted;
      sums, counted := ScoreTopic(sums, topics[i]);
      if counted {
        cnt := cnt + 1;
      }
    }
    r := Averaged(sums, cnt);
  }
}
