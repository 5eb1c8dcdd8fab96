/** apply_filter: which articles a filter and a show mode let into the view. */
module Filtering {
  import opened Prelude
  import opened Forest
  import opened Threading
  import opened ViewUpdates
  import opened Descendants
  import opened SortedRanges

  datatype ShowType = ShowArticles | ShowThreads | ShowSubthreads

  /** A filter is any deterministic test; an empty one is recognised as such and lets everything through at first. */
  datatype Filter = Filter(empty: bool, test: Article -> bool)

  const LOWEST_SCORE := -9999

  // ---------------------------------------------------------------- what should be shown

  /** The top of x's thread. */
  ghost function RootOf(h: Graph, x: Mid): Mid
    requires WellThreaded(h) && x in h
    decreases RankOf(ParentsOf(h))[x]
  {
    if h[x].parent.None? then x
    else
      ParentPresent(h, x);
      assert ParentsOf(h)[x] == h[x].parent;
      RootOf(h, h[x].parent.value)
  }

  /** The article of x passes the filter by itself. */
  predicate Passes(h: Graph, filter: Filter, x: Mid) {
    x in h && h[x].article.Some? && (filter.empty || filter.test(h[x].article.value))
  }

  /** The article is not ignored, or the filter asks for it. */
  predicate Kept(h: Graph, filter: Filter, x: Mid) {
    x in h && h[x].article.Some? && (h[x].article.value.score > LOWEST_SCORE || filter.test(h[x].article.value))
  }

  /**
   The set a filter stands for: the passing articles; or the kept articles of every subthread or thread that has a
   passing article.
   */
  ghost predicate Wanted(h: Graph, show: ShowType, filter: Filter, x: Mid)
    requires WellThreaded(h)
  {
    match show
    case ShowArticles => Passes(h, filter, x)
    case ShowSubthreads =>
      Kept(h, filter, x) && exists y :: Passes(h, filter, y) && AncestorOrSelf(ParentsOf(h), y, x)
    case ShowThreads =>
      Kept(h, filter, x) && exists y :: Passes(h, filter, y) && RootOf(h, y) == RootOf(h, x)
  }

  /** A thread is what lies at or below its top. */
  lemma {:induction false} RootAbove(h: Graph, x: Mid)
    requires WellThreaded(h) && x in h
    ensures RootOf(h, x) in h && h[RootOf(h, x)].parent.None? && AncestorOrSelf(ParentsOf(h), RootOf(h, x), x)
    decreases RankOf(ParentsOf(h))[x]
  {
    if h[x].parent.Some? {
      var q := h[x].parent.value;
      ParentPresent(h, x);
      RootAbove(h, q);
      assert Ancestors(ParentsOf(h), x) == [q] + Ancestors(ParentsOf(h), q);
    }
  }

  lemma {:induction false} SameRootBelow(h: Graph, a: Mid, x: Mid)
    requires WellThreaded(h) && x in h && a in h && AncestorOrSelf(ParentsOf(h), a, x)
    ensures RootOf(h, a) == RootOf(h, x)
    decreases RankOf(ParentsOf(h))[x]
  {
    if a != x {
      var q := h[x].parent.value;
      ParentPresent(h, x);
      assert Ancestors(ParentsOf(h), x) == [q] + Ancestors(ParentsOf(h), q);
      SameRootBelow(h, a, q);
    }
  }

  // ---------------------------------------------------------------- the steps of apply_filter

  /** First pass over the candidates. */
  method PassAndFail(h: Graph, candidates: seq<Mid>, filter: Filter, order: Key)
    returns (pass: seq<Mid>, fail: seq<Mid>)
    requires Ascending(candidates, order) && forall x :: x in candidates ==> x in h
    ensures forall x :: x in pass <==> x in candidates && (filter.empty || Passes(h, filter, x))
    ensures forall x :: x in fail <==> x in candidates && h[x].article.Some? && !Passes(h, filter, x)
    ensures Ascending(pass, order) && Ascending(fail, order)
  {
    if filter.empty {
      return candidates, [];
    }
    pass, fail := [], [];
    for i := 0 to |candidates|
      invariant forall x :: x in pass <==> x in candidates[..i] && Passes(h, filter, x)
      invariant forall x :: x in fail <==> x in candidates[..i] && h[x].article.Some? && !Passes(h, filter, x)
      invariant Ascending(pass, order) && Ascending(fail, order)
    {
      var x := candidates[i];
      assert candidates[..i + 1] == candidates[..i] + [x];
      PrefixBelow(candidates, i, order);
      if h[x].article.None? {
        continue;
      } else if filter.test(h[x].article.value) {
        LastAbove(pass, x, order);
        pass := pass + [x];
      } else {
        LastAbove(fail, x, order);
        fail := fail + [x];
      }
    }
    assert candidates[..|candidates|] == candidates;
  }

  lemma PrefixBelow(s: seq<Mid>, i: nat, order: Key)
    requires Ascending(s, order) && i < |s|
    ensures forall x :: x in s[..i] ==> order(x) < order(s[i])
  {
  }

  lemma LastAbove(s: seq<Mid>, x: Mid, order: Key)
    requires Ascending(s, order) && forall y :: y in s ==> order(y) < order(x)
    ensures Ascending(s + [x], order)
  {
    assert forall k :: 0 <= k < |s| ==> s[k] in s;
  }

  /** Replaces each node by the top of its thread, then sorts and drops duplicates. */
  method ThreadTops(h: Graph, pass: seq<Mid>, order: Key) returns (r: seq<Mid>)
    requires WellThreaded(h) && Injective(order) && forall x :: x in pass ==> x in h
    ensures Ascending(r, order) && forall x :: x in r ==> x in h
    ensures forall x :: x in r <==> exists y :: y in pass && RootOf(h, y) == x
  {
    hide Linked, Ancestors;
    var tops := pass;
    for i := 0 to |pass|
      invariant |tops| == |pass|
      invariant forall k :: 0 <= k < i ==> tops[k] == RootOf(h, pass[k])
      invariant forall k :: i <= k < |pass| ==> tops[k] == pass[k]
    {
      assert pass[i] in pass;
      var n := TopOf(h, tops[i]);
      tops := tops[i := n];
    }
    r := InOrder((set x | x in tops), order);
    forall x | x in r ensures x in h && exists y :: y in pass && RootOf(h, y) == x {
      var k :| 0 <= k < |tops| && tops[k] == x;
      assert pass[k] in pass;
      RootAbove(h, pass[k]);
    }
    forall y | y in pass ensures RootOf(h, y) in r {
      var k :| 0 <= k < |pass| && pass[k] == y;
      assert tops[k] in tops;
    }
  }

  method TopOf(h: Graph, x: Mid) returns (n: Mid)
    requires WellThreaded(h) && x in h
    ensures n == RootOf(h, x)
  {
    n := x;
    while h[n].parent.Some?
      invariant n in h && RootOf(h, n) == RootOf(h, x)
      decreases RankOf(ParentsOf(h))[n]
    {
      ParentPresent(h, n);
      assert ParentsOf(h)[n] == h[n].parent;
      n := h[n].parent.value;
    }
  }

  /** Splits the gathered articles into those to keep and those to drop. */
  method KeepOrDrop(h: Graph, d: seq<Mid>, filter: Filter, order: Key) returns (pass: seq<Mid>, fail: seq<Mid>)
    requires Ascending(d, order) && forall x :: x in d ==> x in h && h[x].article.Some?
    ensures forall x :: x in pass <==> x in d && Kept(h, filter, x)
    ensures forall x :: x in fail <==> x in d && !Kept(h, filter, x)
    ensures Ascending(pass, order) && Ascending(fail, order)
  {
    pass, fail := [], [];
    for i := 0 to |d|
      invariant forall x :: x in pass <==> x in d[..i] && Kept(h, filter, x)
      invariant forall x :: x in fail <==> x in d[..i] && !Kept(h, filter, x)
      invariant Ascending(pass, order) && Ascending(fail, order)
    {
      var x := d[i];
      assert d[..i + 1] == d[..i] + [x];
      PrefixBelow(d, i, order);
      if h[x].article.value.score > LOWEST_SCORE || filter.test(h[x].article.value) {
        LastAbove(pass, x, order);
        pass := pass + [x];
      } else {
        LastAbove(fail, x, order);
        fail := fail + [x];
      }
    }
    assert d[..|d|] == d;
  }

  /** The articles at or below the starting points of the show mode. */
  ghost function Gathered(h: Graph, show: ShowType, base: set<Mid>): set<Mid>
    requires WellThreaded(h) && base <= h.Keys
  {
    if show == ShowThreads then BelowAny(h, set x | x in base :: RootOf(h, x)) else BelowAny(h, base)
  }

  /**
   pass and fail are the articles to show and to hide, given these candidates. Only candidates fail by the filter, but
   a thread or subthread also brings in articles that are not candidates, and drops some of them for their score.
   */
  ghost predicate Selected(h: Graph, show: ShowType, filter: Filter, candidates: seq<Mid>, pass: seq<Mid>,
                           fail: seq<Mid>)
    requires WellThreaded(h) && forall x :: x in candidates ==> x in h
  {
    var base := Base(h, filter, Elements(candidates));
    if show == ShowArticles then
      && Elements(pass) == base
      && forall x :: x in fail <==> (x in candidates && h[x].article.Some? && !Passes(h, filter, x))
    else
      && (forall x :: x in pass <==> (x in Gathered(h, show, base) && Kept(h, filter, x)))
      && (forall x :: x in fail <==>
          (x !in pass && (x in Gathered(h, show, base)
                          || (x in candidates && h[x].article.Some? && !Passes(h, filter, x)))))
  }

  /** The articles to add and to remove, for the candidates given. */
  method Select(h: Graph, show: ShowType, filter: Filter, candidates: seq<Mid>, order: Key)
    returns (pass: seq<Mid>, fail: seq<Mid>)
    requires WellThreaded(h) && Injective(order) && Ascending(candidates, order)
    requires forall x :: x in candidates ==> x in h && (filter.empty && show == ShowArticles ==> h[x].article.Some?)
    ensures Ascending(pass, order) && Ascending(fail, order)
    ensures forall x :: x in pass ==> x in h && h[x].article.Some?
    ensures Selected(h, show, filter, candidates, pass, fail)
  {
    hide Linked, Ancestors, Injective, Ascending, BelowAny, Passes, Kept;
    pass, fail := PassAndFail(h, candidates, filter, order);
    ghost var base := Base(h, filter, Elements(candidates));
    assert Elements(pass) == base;
    if show == ShowArticles {
      BaseHasArticles(h, filter, candidates);
      return;
    }
    if show == ShowThreads {
      ghost var before := pass;
      pass := ThreadTops(h, pass, order);
      TopsSet(h, before, pass, base);
    }
    var d := AccumulateAll(h, pass);
    assert d == Gathered(h, show, base);
    GatheredHaveArticles(h, show, base);
    var fail2;
    pass, fail2 := KeepOrDrop(h, InOrder(d, order), filter, order);
    UnionInOrder(fail, fail2, order);
    fail := SetUnion(fail, fail2, order);
    DifferenceInOrder(fail, pass, order);
    fail := SetDifference(fail, pass, order);
  }

  lemma TopsSet(h: Graph, before: seq<Mid>, after: seq<Mid>, base: set<Mid>)
    requires WellThreaded(h) && Elements(before) == base && forall x :: x in before ==> x in h
    requires forall x :: x in after <==> exists y :: y in before && RootOf(h, y) == x
    ensures base <= h.Keys && BelowAny(h, Elements(after)) == Gathered(h, ShowThreads, base)
  {
    assert forall x :: x in before <==> x in base;
    assert Elements(after) == set x | x in base :: RootOf(h, x);
  }

  /** The candidates that pass by themselves; an empty filter takes them as they come. */
  ghost function Base(h: Graph, filter: Filter, candidates: set<Mid>): set<Mid> {
    set x | x in candidates && (filter.empty || Passes(h, filter, x))
  }

  lemma BaseHasArticles(h: Graph, filter: Filter, candidates: seq<Mid>)
    requires forall x :: x in candidates ==> x in h && (filter.empty ==> h[x].article.Some?)
    ensures forall x :: x in Base(h, filter, Elements(candidates)) ==> x in h && h[x].article.Some?
  {
  }

  lemma GatheredHaveArticles(h: Graph, show: ShowType, base: set<Mid>)
    requires WellThreaded(h) && base <= h.Keys
    ensures forall x :: x in Gathered(h, show, base) ==> x in h && h[x].article.Some?
  {
  }

  // ---------------------------------------------------------------- all articles as candidates

  ghost function AllArticles(h: Graph): set<Mid> {
    set x | x in h && h[x].article.Some?
  }

  /** With every article of the group a candidate, what is gathered and kept is what the filter stands for. */
  lemma GatheredIsWanted(h: Graph, show: ShowType, filter: Filter, x: Mid)
    requires WellThreaded(h) && show != ShowArticles
    ensures x in Gathered(h, show, Base(h, filter, AllArticles(h))) && Kept(h, filter, x)
      <==> Wanted(h, show, filter, x)
  {
    var base := Base(h, filter, AllArticles(h));
    assert forall y :: y in base <==> Passes(h, filter, y);
    if show == ShowThreads {
      var tops := set y | y in base :: RootOf(h, y);
      if x in BelowAny(h, tops) {
        var t :| t in tops && AncestorOrSelf(ParentsOf(h), t, x);
        var y :| y in base && RootOf(h, y) == t;
        RootAbove(h, y);
        SameRootBelow(h, t, x);
        SameRootBelow(h, t, y);
        assert Passes(h, filter, y);
      }
      if Wanted(h, show, filter, x) {
        var y :| Passes(h, filter, y) && RootOf(h, y) == RootOf(h, x);
        RootAbove(h, x);
        assert RootOf(h, y) in tops;
      }
    }
  }

  lemma BaseIsGathered(h: Graph, show: ShowType, base: set<Mid>, x: Mid)
    requires WellThreaded(h) && base <= h.Keys && x in base && h[x].article.Some?
    ensures x in Gathered(h, show, base)
  {
    if show == ShowThreads { RootAbove(h, x); }
  }

  /** The article of x passes by itself: there is one, and the filter is empty or lets it through. */
  lemma PassesMeans(h: Graph, filter: Filter, x: Mid)
    ensures Passes(h, filter, x)
      <==> x in h && h[x].article.Some? && (filter.empty || filter.test(h[x].article.value))
    ensures Kept(h, filter, x)
      <==> x in h && h[x].article.Some? && (h[x].article.value.score >= -9998 || filter.test(h[x].article.value))
  {
  }

  /** Two nodes are in one thread when something is at or above both. */
  lemma SameThread(h: Graph, x: Mid, y: Mid)
    requires WellThreaded(h) && x in h && y in h
    ensures RootOf(h, x) == RootOf(h, y)
      <==> exists t :: t in h && AncestorOrSelf(ParentsOf(h), t, x) && AncestorOrSelf(ParentsOf(h), t, y)
  {
    hide Linked;
    RootAbove(h, x);
    RootAbove(h, y);
    if t :| t in h && AncestorOrSelf(ParentsOf(h), t, x) && AncestorOrSelf(ParentsOf(h), t, y) {
      SameRootBelow(h, t, x);
      SameRootBelow(h, t, y);
    }
  }

  /**
   What a filter and a show mode stand for: the passing articles; or of each thread, or subthread, with a passing
   article those that are scored above -9999 or pass themselves.
   */
  lemma WantedMeans(h: Graph, show: ShowType, filter: Filter, x: Mid)
    requires WellThreaded(h)
    ensures show == ShowArticles ==> (Wanted(h, show, filter, x) <==> Passes(h, filter, x))
    ensures show == ShowSubthreads ==>
      (Wanted(h, show, filter, x) <==>
        Kept(h, filter, x) && exists y :: Passes(h, filter, y) && AncestorOrSelf(ParentsOf(h), y, x))
    ensures show == ShowThreads ==>
      (Wanted(h, show, filter, x) <==>
        Kept(h, filter, x) && exists y, t :: (Passes(h, filter, y) && t in h && AncestorOrSelf(ParentsOf(h), t, x)
                                              && AncestorOrSelf(ParentsOf(h), t, y)))
  {
    hide Linked, AncestorOrSelf, RootOf;
    if show == ShowThreads {
      if Wanted(h, show, filter, x) {
        var y :| Passes(h, filter, y) && RootOf(h, y) == RootOf(h, x);
        SameThread(h, x, y);
      }
      if y, t :| Passes(h, filter, y) && t in h && x in h
                 && AncestorOrSelf(ParentsOf(h), t, x) && AncestorOrSelf(ParentsOf(h), t, y) {
        SameThread(h, x, y);
      }
    }
  }

  /** What is gathered: the articles in the thread, or below, of a starting point. */
  lemma GatheredMeans(h: Graph, show: ShowType, base: set<Mid>, x: Mid)
    requires WellThreaded(h) && base <= h.Keys
    ensures x in Gathered(h, show, base) <==>
      && x in h && h[x].article.Some?
      && if show == ShowThreads then
           exists y, t :: (y in base && t in h && AncestorOrSelf(ParentsOf(h), t, x)
                           && AncestorOrSelf(ParentsOf(h), t, y))
         else exists y :: y in base && AncestorOrSelf(ParentsOf(h), y, x)
  {
    hide Linked, AncestorOrSelf, RootOf;
    if show == ShowThreads {
      var tops := set y | y in base :: RootOf(h, y);
      if x in Gathered(h, show, base) {
        var t :| t in tops && AncestorOrSelf(ParentsOf(h), t, x);
        var y :| y in base && RootOf(h, y) == t;
        RootAbove(h, y);
      }
      if y, t :| y in base && t in h && x in h && h[x].article.Some?
                 && AncestorOrSelf(ParentsOf(h), t, x) && AncestorOrSelf(ParentsOf(h), t, y) {
        SameThread(h, x, y);
        RootAbove(h, x);
        assert RootOf(h, y) in tops;
      }
    }
  }

  /**
   What a filter makes of some candidates, told by their articles: shown are those that pass, or what is kept of their
   threads or subthreads; hidden are the candidates that do not pass, and what is not kept, but nothing that is shown.
   */
  lemma SelectedMeans(h: Graph, show: ShowType, filter: Filter, candidates: seq<Mid>, pass: seq<Mid>, fail: seq<Mid>,
                      x: Mid)
    requires WellThreaded(h) && forall y :: y in candidates ==> y in h && h[y].article.Some?
    requires Selected(h, show, filter, candidates, pass, fail)
    ensures show == ShowArticles ==> (x in pass <==> x in candidates && Passes(h, filter, x))
    ensures show == ShowArticles ==> (x in fail <==> x in candidates && !Passes(h, filter, x))
    ensures show != ShowArticles ==>
      (x in pass <==> Kept(h, filter, x)
                      && x in Gathered(h, show, set y | y in candidates && Passes(h, filter, y)))
    ensures show != ShowArticles ==>
      (x in fail <==>
        (!Kept(h, filter, x) && x in Gathered(h, show, set y | y in candidates && Passes(h, filter, y)))
        || (x in candidates && !Passes(h, filter, x)
            && !(Kept(h, filter, x) && x in Gathered(h, show, set y | y in candidates && Passes(h, filter, y)))))
  {
    hide WellThreaded, BelowAny, RootOf;
    assert Base(h, filter, Elements(candidates)) == set y | y in candidates && Passes(h, filter, y);
    assert forall y :: y in pass <==> y in Elements(pass);
  }

  /** Whatever was shown before, showing pass and hiding fail leaves exactly the wanted articles. */
  lemma AllCandidates(h: Graph, show: ShowType, filter: Filter, candidates: seq<Mid>, pass: seq<Mid>, fail: seq<Mid>,
                      shown: set<Mid>)
    requires WellThreaded(h) && shown <= AllArticles(h) && Elements(candidates) == AllArticles(h)
    requires (forall x :: x in candidates ==> x in h) && Selected(h, show, filter, candidates, pass, fail)
    ensures forall x :: x in shown + Elements(pass) - Elements(fail) <==> Wanted(h, show, filter, x)
  {
    var base := Base(h, filter, AllArticles(h));
    forall x ensures x in shown + Elements(pass) - Elements(fail) <==> Wanted(h, show, filter, x) {
      if show != ShowArticles {
        GatheredIsWanted(h, show, filter, x);
        if x in base {
          BaseIsGathered(h, show, base, x);
        }
      }
    }
  }
}
