/** accumulate_descendants: the articles at or below a node, gathered depth first with a visited set. */
module Descendants {
  import opened Prelude
  import opened Forest
  import opened Threading
  import opened ViewUpdates

  /** Every node at or below x, with or without an article. */
  ghost function Subtree(h: Graph, x: Mid): set<Mid>
    requires WellThreaded(h)
  {
    set y | y in h && AncestorOrSelf(ParentsOf(h), x, y)
  }

  /** Below a proper ancestor there is a child on the way. */
  lemma {:induction false} ChildOnTheWay(h: Graph, x: Mid, y: Mid) returns (c: Mid)
    requires WellThreaded(h) && x in h && y in h && IsAncestor(ParentsOf(h), x, y)
    ensures c in h && c in h[x].children && AncestorOrSelf(ParentsOf(h), c, y)
    decreases RankOf(ParentsOf(h))[y]
  {
    var p := ParentsOf(h);
    var q := h[y].parent.value;
    ParentPresent(h, y);
    assert Ancestors(p, y) == [q] + Ancestors(p, q);
    if q == x {
      c := y;
    } else {
      c := ChildOnTheWay(h, x, q);
      if c != q { AncestorTransitive(p, c, q, y); }
    }
  }

  lemma ChildBelow(h: Graph, x: Mid, c: Mid)
    requires WellThreaded(h) && x in h && c in h[x].children
    ensures c in h && IsAncestor(ParentsOf(h), x, c)
    ensures Subtree(h, c) < Subtree(h, x) && Below(h, c) <= Below(h, x)
  {
    var p := ParentsOf(h);
    assert OnList(h, x, c) <==> HangsUnder(h, c, x);
    assert Ancestors(p, c)[0] == x;
    forall y | y in h && AncestorOrSelf(p, c, y) ensures AncestorOrSelf(p, x, y) && y != x {
      if y != c { AncestorTransitive(p, x, c, y); }
      NotOwnAncestor(p, y);
    }
    assert x in Subtree(h, x) && x !in Subtree(h, c);
  }

  /** What is below the children listed in kids. */
  ghost function BelowKids(h: Graph, kids: seq<Mid>): set<Mid>
    requires WellThreaded(h)
  {
    set y | y in h && h[y].article.Some? && exists c :: c in kids && AncestorOrSelf(ParentsOf(h), c, y)
  }

  lemma BelowSplits(h: Graph, x: Mid)
    requires WellThreaded(h) && x in h
    ensures Below(h, x) == (if h[x].article.Some? then {x} else {}) + BelowKids(h, h[x].children)
  {
    forall y | y in Below(h, x) && y != x ensures y in BelowKids(h, h[x].children) {
      var c := ChildOnTheWay(h, x, y);
    }
    forall y | y in BelowKids(h, h[x].children) ensures y in Below(h, x) {
      var c :| c in h[x].children && AncestorOrSelf(ParentsOf(h), c, y);
      ChildBelow(h, x, c);
      if c != y { AncestorTransitive(ParentsOf(h), x, c, y); }
    }
  }

  /** Every node in d either has everything below it in d, or is being visited: it is above x. */
  ghost predicate ClosedBut(h: Graph, d: set<Mid>, x: Mid)
    requires WellThreaded(h) && x in h
  {
    forall y :: y in d ==> y in h && (Below(h, y) <= d || IsAncestor(ParentsOf(h), y, x))
  }

  lemma BelowDownward(h: Graph, c: Mid, y: Mid)
    requires WellThreaded(h) && y in Below(h, c) && c in h
    ensures Below(h, y) <= Below(h, c)
  {
    forall z | z in Below(h, y) ensures z in Below(h, c) {
      if c != y && y != z { AncestorTransitive(ParentsOf(h), c, y, z); }
    }
  }

  /** After some children have been visited the next one may be. */
  lemma ClosedForChild(h: Graph, d: set<Mid>, x: Mid, i: nat, d': set<Mid>)
    requires WellThreaded(h) && x in h && i < |h[x].children| && h[x].children[i] in h && ClosedBut(h, d, x)
    requires d <= d' <= d + {x} + BelowKids(h, h[x].children[..i]) && BelowKids(h, h[x].children[..i]) <= d'
    ensures ClosedBut(h, d', h[x].children[i])
  {
    var c := h[x].children[i];
    ChildBelow(h, x, c);
    forall y | y in d' ensures y in h && (Below(h, y) <= d' || IsAncestor(ParentsOf(h), y, c)) {
      if y in d {
        if IsAncestor(ParentsOf(h), y, x) { AncestorTransitive(ParentsOf(h), y, x, c); }
      } else if y != x {
        var b :| b in h[x].children[..i] && AncestorOrSelf(ParentsOf(h), b, y);
        ChildBelow(h, x, b);
        BelowDownward(h, b, y);
        assert Below(h, b) <= BelowKids(h, h[x].children[..i]);
      }
    }
  }

  lemma BelowKidsGrows(h: Graph, kids: seq<Mid>, i: nat)
    requires WellThreaded(h) && i < |kids|
    ensures BelowKids(h, kids[..i + 1]) == BelowKids(h, kids[..i]) + Below(h, kids[i])
  {
    assert kids[..i + 1] == kids[..i] + [kids[i]];
  }

  /**
   Adds to d the articles at or below x. A node with an article that is already in d is not entered again; that cut
   loses nothing.
   */
  method AccumulateDescendants(h: Graph, d: set<Mid>, x: Mid) returns (r: set<Mid>)
    requires WellThreaded(h) && x in h && ClosedBut(h, d, x)
    ensures r == d + Below(h, x)
    decreases Subtree(h, x)
  {
    hide Below, BelowKids, Ancestors, Linked, ClosedBut;
    NotOwnAncestor(ParentsOf(h), x);
    if h[x].article.Some? && x in d {
      VisitedBelow(h, d, x);
      return d;
    }
    r := if h[x].article.Some? then d + {x} else d;
    BelowSplits(h, x);
    BelowKidsNone(h);
    ghost var base := r;
    for i := 0 to |h[x].children|
      invariant r == base + BelowKids(h, h[x].children[..i])
    {
      ChildBelow(h, x, h[x].children[i]);
      ClosedForChild(h, d, x, i, r);
      BelowKidsGrows(h, h[x].children, i);
      r := AccumulateDescendants(h, r, h[x].children[i]);
    }
    assert h[x].children[..|h[x].children|] == h[x].children;
  }

  lemma VisitedBelow(h: Graph, d: set<Mid>, x: Mid)
    requires WellThreaded(h) && x in h && x in d && ClosedBut(h, d, x)
    ensures d == d + Below(h, x)
  {
    NotOwnAncestor(ParentsOf(h), x);
  }

  lemma BelowKidsNone(h: Graph)
    requires WellThreaded(h)
    ensures BelowKids(h, []) == {}
  {
  }

  lemma BelowAnyClosed(h: Graph, s: set<Mid>, x: Mid)
    requires WellThreaded(h) && s <= h.Keys && x in h
    ensures ClosedBut(h, BelowAny(h, s), x)
    ensures BelowAny(h, s + {x}) == BelowAny(h, s) + Below(h, x)
  {
    forall y | y in BelowAny(h, s) ensures Below(h, y) <= BelowAny(h, s) {
      var a :| a in s && AncestorOrSelf(ParentsOf(h), a, y);
      BelowDownward(h, a, y);
    }
  }

  /** The articles at or below any of the nodes in the list. */
  method AccumulateAll(h: Graph, list: seq<Mid>) returns (r: set<Mid>)
    requires WellThreaded(h) && forall x :: x in list ==> x in h
    ensures r == BelowAny(h, Elements(list))
  {
    hide ClosedBut, BelowAny, Below, WellThreaded;
    r := {};
    BelowNone(h);
    assert Elements(list[..0]) == {};
    for i := 0 to |list|
      invariant r == BelowAny(h, Elements(list[..i]))
    {
      assert list[i] in list;
      assert Elements(list[..i + 1]) == Elements(list[..i]) + {list[i]} by {
        assert list[..i + 1] == list[..i] + [list[i]];
      }
      assert Elements(list[..i]) <= h.Keys;
      BelowAnyClosed(h, Elements(list[..i]), list[i]);
      r := AccumulateDescendants(h, r, list[i]);
    }
    assert list[..|list|] == list;
  }

  lemma BelowNone(h: Graph)
    requires WellThreaded(h)
    ensures BelowAny(h, {}) == {}
  {
  }
}
