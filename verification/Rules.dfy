/** apply_rules: which articles the rules take out of the view. */
module Rules {
  import opened Prelude
  import opened Forest
  import opened Threading
  import opened ViewUpdates
  import opened Descendants
  import opened Filtering

  /** What RulesFilter::test_article says of an article; what it notes for later is not modelled. */
  type RuleTest = Article -> bool

  predicate Fails(h: Graph, rules: RuleTest, x: Mid) {
    x in h && h[x].article.Some? && !rules(h[x].article.value)
  }

  /** The articles taken out, for the candidates given: with threads also those in the thread of a failing candidate. */
  ghost function RuledOut(h: Graph, show: ShowType, rules: RuleTest, candidates: set<Mid>): set<Mid>
    requires WellThreaded(h)
  {
    var base := set x | x in candidates && Fails(h, rules, x);
    if show == ShowArticles then base
    else
      BaseIsInGraph(h, rules, candidates);
      set x | x in Gathered(h, show, base) && Fails(h, rules, x)
  }

  lemma BaseIsInGraph(h: Graph, rules: RuleTest, candidates: set<Mid>)
    ensures (set x | x in candidates && Fails(h, rules, x)) <= h.Keys
  {
  }

  /** An article fails where there is one and the rules do not let it through. */
  lemma FailsMeans(h: Graph, rules: RuleTest, x: Mid)
    ensures x in h && h[x].article.Some? ==> (Fails(h, rules, x) <==> !rules(h[x].article.value))
    ensures x !in h || h[x].article.None? ==> !Fails(h, rules, x)
  {
  }

  /** What is taken out: failing candidates, or the failing articles in the threads, or below, of failing candidates. */
  lemma RuledOutMeans(h: Graph, show: ShowType, rules: RuleTest, candidates: set<Mid>, x: Mid)
    requires WellThreaded(h)
    ensures x in RuledOut(h, show, rules, candidates) ==> Fails(h, rules, x)
    ensures Fails(h, rules, x) && x in candidates ==> x in RuledOut(h, show, rules, candidates)
    ensures show == ShowArticles && x in RuledOut(h, show, rules, candidates) ==> x in candidates
    ensures show == ShowSubthreads && x in RuledOut(h, show, rules, candidates) ==>
      exists y :: y in candidates && Fails(h, rules, y) && AncestorOrSelf(ParentsOf(h), y, x)
    ensures show != ShowArticles && Fails(h, rules, x) ==>
      (exists y :: y in candidates && Fails(h, rules, y) && AncestorOrSelf(ParentsOf(h), y, x)) ==>
      x in RuledOut(h, show, rules, candidates)
  {
    BaseIsInGraph(h, rules, candidates);
    var base := set y | y in candidates && Fails(h, rules, y);
    hide Linked, Gathered;
    GatheredMeans(h, show, base, x);
    if Fails(h, rules, x) && x in candidates { BaseIsGathered(h, show, base, x); }
    if Fails(h, rules, x) && show == ShowThreads {
      if y :| y in candidates && Fails(h, rules, y) && AncestorOrSelf(ParentsOf(h), y, x) {
        assert y in base && AncestorOrSelf(ParentsOf(h), y, y);
      }
    }
  }

  /** With all articles as candidates the rules take out exactly those that fail, whatever the show mode is. */
  lemma AllRuledOut(h: Graph, show: ShowType, rules: RuleTest, x: Mid)
    requires WellThreaded(h)
    ensures x in RuledOut(h, show, rules, AllArticles(h)) <==> Fails(h, rules, x)
  {
    var base := set y | y in AllArticles(h) && Fails(h, rules, y);
    if Fails(h, rules, x) {
      BaseIsGathered(h, show, base, x);
    }
  }

  /** a is in the list or above something in it. */
  ghost predicate Above(h: Graph, list: seq<Mid>, a: Mid)
    requires WellThreaded(h)
  {
    a in h && exists x :: x in list && x in h && AncestorOrSelf(ParentsOf(h), a, x)
  }

  /** The ids in the list and ids above them, the tops of their threads included: the upward walks of apply_rules. */
  ghost predicate IsUpward(h: Graph, list: seq<Mid>, up: set<Mid>)
    requires WellThreaded(h)
  {
    (forall x :: x in list ==> x in up && x in h && RootOf(h, x) in up) && forall a :: a in up ==> Above(h, list, a)
  }

  /** Adds to each node all nodes above it. */
  method WithAncestors(h: Graph, list: seq<Mid>) returns (up: set<Mid>)
    requires WellThreaded(h) && forall x :: x in list ==> x in h
    ensures IsUpward(h, list, up)
  {
    hide WellThreaded, Above, AncestorOrSelf, RootOf;
    up := {};
    for i := 0 to |list|
      invariant IsUpward(h, list[..i], up)
    {
      assert list[i] in list;
      var chain := ChainOf(h, list[i]);
      assert list[..i + 1] == list[..i] + [list[i]];
      forall a | a in up + chain ensures Above(h, list[..i + 1], a) {
        AboveNext(h, list[..i], list[i], a);
      }
      up := up + chain;
    }
    assert list[..|list|] == list;
  }

  lemma AboveNext(h: Graph, list: seq<Mid>, x: Mid, a: Mid)
    requires WellThreaded(h) && x in h
    ensures Above(h, list, a) || (a in h && AncestorOrSelf(ParentsOf(h), a, x)) ==> Above(h, list + [x], a)
  {
    hide Linked, Acyclic, AncestorOrSelf;
    if Above(h, list, a) {
      var y :| y in list && y in h && AncestorOrSelf(ParentsOf(h), a, y);
      assert y in list + [x];
    } else {
      assert x in list + [x];
    }
  }

  method ChainOf(h: Graph, x: Mid) returns (chain: set<Mid>)
    requires WellThreaded(h) && x in h
    ensures x in chain && RootOf(h, x) in chain
    ensures forall a :: a in chain ==> a in h && AncestorOrSelf(ParentsOf(h), a, x)
  {
    hide Linked;
    chain := {x};
    var n := x;
    while h[n].parent.Some?
      invariant n in h && n in chain && RootOf(h, n) == RootOf(h, x) && AncestorOrSelf(ParentsOf(h), n, x)
      invariant x in chain && forall a :: a in chain ==> a in h && AncestorOrSelf(ParentsOf(h), a, x)
      decreases RankOf(ParentsOf(h))[n]
    {
      ParentPresent(h, n);
      var q := h[n].parent.value;
      assert Ancestors(ParentsOf(h), n) == [q] + Ancestors(ParentsOf(h), q);
      if n != x { AncestorTransitive(ParentsOf(h), q, n, x); }
      n := q;
      chain := chain + {n};
    }
  }

  /** What is below a node or any above it is what is below the top of its thread. */
  lemma UpwardGathers(h: Graph, list: seq<Mid>, up: set<Mid>)
    requires WellThreaded(h) && IsUpward(h, list, up)
    ensures Elements(list) <= h.Keys && BelowAny(h, up) == Gathered(h, ShowThreads, Elements(list))
  {
    hide Linked, Acyclic, AncestorOrSelf, RootOf, Above;
    var tops := set x | x in Elements(list) :: RootOf(h, x);
    forall y | y in BelowAny(h, up) ensures y in BelowAny(h, tops) {
      var a :| a in up && AncestorOrSelf(ParentsOf(h), a, y);
      var x := TopAbove(h, list, a, y);
      assert RootOf(h, x) in tops;
    }
    forall y | y in BelowAny(h, tops) ensures y in BelowAny(h, up) {
      var t :| t in tops && AncestorOrSelf(ParentsOf(h), t, y);
      assert t in up;
    }
  }

  lemma TopAbove(h: Graph, list: seq<Mid>, a: Mid, y: Mid) returns (x: Mid)
    requires WellThreaded(h) && Above(h, list, a) && y in h && AncestorOrSelf(ParentsOf(h), a, y)
    ensures x in list && x in h && AncestorOrSelf(ParentsOf(h), RootOf(h, x), y)
  {
    hide Linked, Acyclic, AncestorOrSelf, RootOf;
    x :| x in list && x in h && AncestorOrSelf(ParentsOf(h), a, x);
    SameRootBelow(h, a, x);
    SameRootBelow(h, a, y);
    RootAbove(h, y);
  }

  /** The selection of apply_rules. */
  method RuleOut(h: Graph, show: ShowType, rules: RuleTest, candidates: seq<Mid>) returns (out: set<Mid>)
    requires WellThreaded(h) && forall x :: x in candidates ==> x in h
    ensures out == RuledOut(h, show, rules, Elements(candidates))
  {
    hide WellThreaded, BelowAny, RootOf, Gathered, IsUpward, Fails, RuledOut;
    var pass := Failing(h, rules, candidates);
    RuledOutIs(h, show, rules, candidates, pass);
    if show == ShowArticles {
      return set x | x in pass;
    }
    ghost var before := pass;
    if show == ShowThreads {
      var up := WithAncestors(h, pass);
      UpwardGathers(h, before, up);
      pass := ListOf(up);
      UpwardPresent(h, before, up);
    }
    var d := AccumulateAll(h, pass);
    BelowIsGathered(h, show, before);
    out := FailingOf(h, rules, d);
  }

  lemma UpwardPresent(h: Graph, list: seq<Mid>, up: set<Mid>)
    requires WellThreaded(h) && IsUpward(h, list, up)
    ensures up <= h.Keys
  {
  }

  lemma BelowIsGathered(h: Graph, show: ShowType, list: seq<Mid>)
    requires WellThreaded(h) && Elements(list) <= h.Keys
    ensures show != ShowThreads ==> BelowAny(h, Elements(list)) == Gathered(h, show, Elements(list))
  {
    hide BelowAny;
  }

  /** RuledOut, from the failing candidates as a list. */
  lemma RuledOutIs(h: Graph, show: ShowType, rules: RuleTest, candidates: seq<Mid>, pass: seq<Mid>)
    requires WellThreaded(h) && forall x :: x in pass <==> x in candidates && Fails(h, rules, x)
    ensures Elements(pass) <= h.Keys && forall x :: x in pass ==> x in h
    ensures RuledOut(h, show, rules, Elements(candidates)) ==
      if show == ShowArticles then (set x | x in pass)
      else set x | x in Gathered(h, show, Elements(pass)) && Fails(h, rules, x)
  {
    hide WellThreaded, Gathered;
    assert Elements(pass) == set x | x in Elements(candidates) && Fails(h, rules, x);
  }

  method FailingOf(h: Graph, rules: RuleTest, d: set<Mid>) returns (out: set<Mid>)
    ensures out == set x | x in d && Fails(h, rules, x)
  {
    out := set x | x in d && x in h && h[x].article.Some? && !rules(h[x].article.value);
  }

  method Failing(h: Graph, rules: RuleTest, candidates: seq<Mid>) returns (pass: seq<Mid>)
    requires forall x :: x in candidates ==> x in h
    ensures forall x :: x in pass <==> x in candidates && Fails(h, rules, x)
  {
    pass := [];
    for i := 0 to |candidates|
      invariant forall x :: x in pass <==> x in candidates[..i] && Fails(h, rules, x)
    {
      assert candidates[..i + 1] == candidates[..i] + [candidates[i]];
      var article := h[candidates[i]].article;
      if article.Some? && !rules(article.value) {
        pass := pass + [candidates[i]];
      }
    }
    assert candidates[..|candidates|] == candidates;
  }

  /** The elements of the set in some order; what is gathered from them does not depend on it. */
  method ListOf(s: set<Mid>) returns (list: seq<Mid>)
    ensures Elements(list) == s && forall x :: x in list ==> x in s
  {
    list := [];
    var rest := s;
    while rest != {}
      invariant rest <= s && Elements(list) == s - rest
      decreases |rest|
    {
      var x :| x in rest;
      assert Elements(list + [x]) == Elements(list) + {x};
      list, rest := list + [x], rest - {x};
    }
  }
}
