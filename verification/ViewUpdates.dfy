/** The graph values a filtered view passes through while articles are removed from it or added to it. */
module ViewUpdates {
  import opened Prelude
  import opened Forest
  import opened Threading
  import opened Projection

  /** The tree t shows articles of the thread graph h, with parent links and children lists in agreement. */
  ghost predicate Shows(t: Graph, h: Graph) {
    Linked(t) && forall x :: x in t ==> x in h && h[x].article.Some? && t[x].article == h[x].article
  }

  /** A view: each article shown hangs under its nearest shown ancestor. */
  ghost predicate IsViewOf(t: Graph, h: Graph)
    requires WellThreaded(h)
  {
    Shows(t, h) && ParentsOf(t) == Projected(ParentsOf(h), t.Keys)
  }

  lemma ViewIsForest(t: Graph, h: Graph)
    requires WellThreaded(h) && IsViewOf(t, h)
    ensures WellThreaded(t)
  {
    ProjectedAcyclic(ParentsOf(h), t.Keys);
  }

  // ---------------------------------------------------------------- removing

  /** The list without the ids in gone. */
  function Outside(s: seq<Mid>, gone: set<Mid>): (r: seq<Mid>)
    ensures forall x :: x in r <==> x in s && x !in gone
    ensures Distinct(s) ==> Distinct(r)
  {
    if s == [] then []
    else
      assert Distinct(s) ==> Distinct(s[1..]);
      var t := Outside(s[1..], gone);
      assert s[0] in t ==> s[0] in s[1..];
      if s[0] in gone then t else [s[0]] + t
  }

  /** The lists of the nodes in owners lose the ids in gone. */
  function Prune(g: Graph, owners: set<Mid>, gone: set<Mid>): Graph {
    map x | x in g :: if x in owners then g[x].(children := Outside(g[x].children, gone)) else g[x]
  }

  /**
   The view while the survivors of a removal are being reparented. start is the view before the removal; the nodes in
   done have been looked at.
   */
  ghost predicate Reparenting(start: Graph, gone: set<Mid>, done: set<Mid>, g: Graph)
    requires WellThreaded(start)
  {
    && g.Keys == start.Keys
    && (forall x :: x in g ==> ReparentedNode(start, gone, done, x, g[x]))
    && (forall q :: q in g && q !in gone ==> Distinct(g[q].children))
    && (forall q, x :: q in g && q !in gone ==> (OnList(g, q, x) <==> x !in gone && HangsUnder(g, x, q)))
  }

  ghost predicate ReparentedNode(start: Graph, gone: set<Mid>, done: set<Mid>, x: Mid, n: Node)
    requires WellThreaded(start)
  {
    && x in start
    && n.article == (if x in gone then None else start[x].article)
    && n.parent == (if x in done && x !in gone then Nearest(ParentsOf(start), x, start.Keys - gone)
                    else start[x].parent)
  }

  /** Once the removed articles are off the lists of their parents, reparenting can start. */
  lemma PruneStarts(start: Graph, gone: set<Mid>, owners: set<Mid>)
    requires WellThreaded(start)
    requires forall x :: x in gone && x in start && start[x].parent.Some? ==> start[x].parent.value in owners
    ensures Reparenting(start, gone, {}, Prune(RemoveArticles(start, gone), owners, gone))
  {
    var g := Prune(RemoveArticles(start, gone), owners, gone);
    forall q, x | q in g && q !in gone ensures OnList(g, q, x) <==> x !in gone && HangsUnder(g, x, q) {
      assert OnList(start, q, x) <==> HangsUnder(start, x, q);
    }
  }

  /** A survivor whose parent survives, or that has none, already hangs where it should. */
  lemma SkipSurvivor(start: Graph, gone: set<Mid>, done: set<Mid>, g: Graph, x: Mid)
    requires WellThreaded(start) && Reparenting(start, gone, done, g) && x in g
    requires x in gone || start[x].parent.None? || start[x].parent.value !in gone
    ensures Reparenting(start, gone, done + {x}, g)
  {
    assert ReparentedNode(start, gone, done, x, g[x]);
    if x !in gone && start[x].parent.Some? {
      ParentPresent(start, x);
    }
    forall y | y in g ensures ReparentedNode(start, gone, done + {x}, y, g[y]) {
      assert ReparentedNode(start, gone, done, y, g[y]);
    }
  }

  /** Moves the survivor x, whose parent was removed, under q or to the top. */
  function MoveTo(g: Graph, x: Mid, q: Option<Mid>): Graph
    requires x in g && (q.Some? ==> q.value in g)
  {
    SetParent(if q.Some? then PushChild(g, q.value, x) else g, x, q)
  }

  lemma MoveSurvivor(start: Graph, gone: set<Mid>, done: set<Mid>, g: Graph, x: Mid)
    requires WellThreaded(start) && Reparenting(start, gone, done, g) && x in g
    requires x !in gone && x !in done && start[x].parent.Some? && start[x].parent.value in gone
    ensures var q := Nearest(ParentsOf(start), x, start.Keys - gone);
      (q.Some? ==> q.value in g && q.value !in gone) && Reparenting(start, gone, done + {x}, MoveTo(g, x, q))
  {
    var q := Nearest(ParentsOf(start), x, start.Keys - gone);
    var u := MoveTo(g, x, q);
    assert ReparentedNode(start, gone, done, x, g[x]);
    if q.Some? {
      NotOwnAncestor(ParentsOf(start), x);
      assert OnList(g, q.value, x) <==> x !in gone && HangsUnder(g, x, q.value);
      assert Distinct(u[q.value].children);
    }
    forall y | y in u ensures ReparentedNode(start, gone, done + {x}, y, u[y]) {
      assert ReparentedNode(start, gone, done, y, g[y]);
    }
    forall p, y | p in u && p !in gone ensures OnList(u, p, y) <==> y !in gone && HangsUnder(u, y, p) {
      assert OnList(g, p, y) <==> y !in gone && HangsUnder(g, y, p);
    }
  }

  /** A survivor goes in front of the children that its new parent has, and no other list changes. */
  lemma MovesToFront(g: Graph, x: Mid, q: Option<Mid>)
    requires x in g && (q.Some? ==> q.value in g && q.value != x)
    ensures var u := MoveTo(g, x, q);
      && u.Keys == g.Keys && u[x].parent == q && u[x].article == g[x].article
      && forall y :: y in g ==> u[y].children == if q == Some(y) then [x] + g[y].children else g[y].children
  {
  }

  /** Dropping the removed nodes leaves a forest of the survivors, and a view if the tree was one. */
  lemma EraseLeavesView(h: Graph, start: Graph, gone: set<Mid>, g: Graph)
    requires WellThreaded(h) && Shows(start, h) && WellThreaded(start)
    requires Reparenting(start, gone, start.Keys, g)
    ensures Shows(g - gone, h) && WellThreaded(g - gone)
    ensures ParentsOf(g - gone) == Projected(ParentsOf(start), start.Keys - gone)
    ensures IsViewOf(start, h) ==> IsViewOf(g - gone, h)
  {
    var kept := start.Keys - gone;
    var e := g - gone;
    ErasedNodes(start, gone, g);
    assert ParentsOf(e) == Projected(ParentsOf(start), kept);
    ProjectedAcyclic(ParentsOf(start), kept);
    if IsViewOf(start, h) {
      forall x | x in e ensures e[x].parent == Nearest(ParentsOf(h), x, kept) {
        assert x in ParentsOf(start);
        NearestInView(ParentsOf(h), x, start.Keys, kept);
      }
      assert ParentsOf(e) == Projected(ParentsOf(h), kept);
    }
  }

  lemma ErasedNodes(start: Graph, gone: set<Mid>, g: Graph)
    requires WellThreaded(start) && Reparenting(start, gone, start.Keys, g)
    ensures var e := g - gone;
      Linked(e) && e.Keys == start.Keys - gone
      && forall x :: x in e ==>
        e[x].parent == Nearest(ParentsOf(start), x, start.Keys - gone) && e[x].article == start[x].article
  {
    var e := g - gone;
    forall x | x in e
      ensures e[x].parent == Nearest(ParentsOf(start), x, start.Keys - gone) && e[x].article == start[x].article
    {
      assert ReparentedNode(start, gone, start.Keys, x, g[x]);
    }
    forall q, x ensures OnList(e, q, x) <==> HangsUnder(e, x, q) {
      if q in g && q !in gone {
        assert OnList(g, q, x) <==> x !in gone && HangsUnder(g, x, q);
      }
    }
  }

  // ---------------------------------------------------------------- adding

  function AppendChild(g: Graph, q: Mid, x: Mid): Graph
    requires q in g
  {
    g[q := g[q].(children := g[q].children + [x])]
  }

  function Detach(g: Graph, x: Mid): Graph
    requires x in g && (g[x].parent.Some? ==> g[x].parent.value in g)
  {
    if g[x].parent.Some? then DropChild(g, g[x].parent.value, x) else g
  }

  /** Takes x off its old parent's list, puts it at the end of its new parent's, and repoints it. */
  function Relink(g: Graph, x: Mid, q: Option<Mid>): Graph
    requires x in g && (g[x].parent.Some? ==> g[x].parent.value in g) && (q.Some? ==> q.value in g)
  {
    var d := Detach(g, x);
    SetParent(if q.Some? then AppendChild(d, q.value, x) else d, x, q)
  }

  lemma LinkedParentPresent(g: Graph, x: Mid)
    requires Linked(g) && x in g && g[x].parent.Some?
    ensures g[x].parent.value in g && x in g[g[x].parent.value].children
  {
    assert OnList(g, g[x].parent.value, x) <==> HangsUnder(g, x, g[x].parent.value);
  }

  lemma DetachKeepsLists(g: Graph, x: Mid)
    requires Linked(g) && x in g
    ensures g[x].parent.Some? ==> g[x].parent.value in g
    ensures var u := SetParent(Detach(g, x), x, None);
      Linked(u) && Detach(g, x).Keys == u.Keys == g.Keys && ParentsOf(u) == ParentsOf(g)[x := None]
      && forall y :: y in g ==> u[y].article == g[y].article
  {
    if g[x].parent.Some? { LinkedParentPresent(g, x); }
    var u := SetParent(Detach(g, x), x, None);
    DetachedNodes(g, x);
    hide SetParent, Detach;
    forall p, y ensures OnList(u, p, y) <==> HangsUnder(u, y, p) {
      assert OnList(g, p, y) <==> HangsUnder(g, y, p);
    }
    assert ParentsOf(u) == ParentsOf(g)[x := None];
  }

  /** The nodes after x has been detached and made a root. */
  lemma DetachedNodes(g: Graph, x: Mid)
    requires x in g && (g[x].parent.Some? ==> g[x].parent.value in g)
    ensures var u := SetParent(Detach(g, x), x, None);
      u.Keys == Detach(g, x).Keys == g.Keys
      && forall y :: y in g ==>
        u[y] == g[y].(parent := if y == x then None else g[y].parent,
                      children := if g[x].parent == Some(y) then Without(g[y].children, x) else g[y].children)
  {
    hide Without;
  }

  lemma AppendKeepsLists(g: Graph, x: Mid, q: Mid)
    requires Linked(g) && x in g && g[x].parent.None? && q in g
    ensures var u := SetParent(AppendChild(g, q, x), x, Some(q));
      Linked(u) && u.Keys == g.Keys && ParentsOf(u) == ParentsOf(g)[x := Some(q)]
      && forall y :: y in g ==> u[y].article == g[y].article
  {
    var u := SetParent(AppendChild(g, q, x), x, Some(q));
    assert OnList(g, q, x) <==> HangsUnder(g, x, q);
    assert u[q].children == g[q].children + [x];
    assert Distinct(u[q].children);
    forall p, y ensures OnList(u, p, y) <==> HangsUnder(u, y, p) {
      assert OnList(g, p, y) <==> HangsUnder(g, y, p);
    }
    assert ParentsOf(u) == ParentsOf(g)[x := Some(q)];
  }

  /** Whether the node is made a root before it is appended or not makes no difference in the end. */
  lemma AppendThenSet(d: Graph, x: Mid, q: Mid)
    requires x in d && q in d
    ensures SetParent(AppendChild(SetParent(d, x, None), q, x), x, Some(q))
      == SetParent(AppendChild(d, q, x), x, Some(q))
  {
    var u, w := AppendChild(SetParent(d, x, None), q, x), AppendChild(d, q, x);
    assert forall y :: y in d && y != x ==> u[y] == w[y];
    assert u[x].(parent := Some(q)) == w[x].(parent := Some(q));
  }

  lemma RelinkKeepsLists(g: Graph, x: Mid, q: Option<Mid>)
    requires Linked(g) && x in g && (q.Some? ==> q.value in g)
    ensures g[x].parent.Some? ==> g[x].parent.value in g
    ensures Linked(Relink(g, x, q)) && ParentsOf(Relink(g, x, q)) == ParentsOf(g)[x := q]
    ensures Relink(g, x, q).Keys == g.Keys
    ensures forall y :: y in g ==> Relink(g, x, q)[y].article == g[y].article
  {
    hide Linked, ParentsOf, AppendChild, DropChild;
    DetachKeepsLists(g, x);
    if q.Some? {
      var u := SetParent(Detach(g, x), x, None);
      AppendKeepsLists(u, x, q.value);
      AppendThenSet(Detach(g, x), x, q.value);
    }
  }

  /** A node that is rehung leaves its old parent's list and goes to the end of the new one. */
  lemma RelinksToEnd(g: Graph, x: Mid, q: Mid)
    requires x in g && q in g && q != x && g[x].parent != Some(q) && g[x].parent != Some(x)
    requires g[x].parent.Some? ==> g[x].parent.value in g
    ensures var u := Relink(g, x, Some(q));
      && u.Keys == g.Keys && u[x].parent == Some(q) && u[q].children == g[q].children + [x]
      && (g[x].parent.Some? ==> u[g[x].parent.value].children == Without(g[g[x].parent.value].children, x))
      && forall y :: y in g && y != q && g[x].parent != Some(y) ==> u[y].children == g[y].children
  {
    hide Without;
  }

  /** The view with nodes for the new articles, not yet linked to anything. */
  ghost function Inserted(h: Graph, start: Graph, added: set<Mid>): Graph
    requires added <= h.Keys
  {
    start + map x | x in added :: Node(h[x].article, None, [])
  }

  /**
   The view while new articles are being linked and older ones rehung. start is the view before, added the new
   articles; the nodes in settled hang where they belong, the others where they did before.
   */
  ghost predicate Settling(h: Graph, start: Graph, added: set<Mid>, settled: set<Mid>, g: Graph)
    requires WellThreaded(h)
  {
    && Linked(g)
    && g.Keys == start.Keys + added && g.Keys <= h.Keys
    && (forall x :: x in g ==> h[x].article.Some? && g[x].article == h[x].article)
    && (forall x :: x in g ==> g[x].parent == SettlingParent(h, start, added, settled, x))
  }

  ghost function SettlingParent(h: Graph, start: Graph, added: set<Mid>, settled: set<Mid>, x: Mid): Option<Mid>
    requires WellThreaded(h) && x in h
  {
    if x in settled then Nearest(ParentsOf(h), x, start.Keys + added)
    else if x in start then start[x].parent
    else None
  }

  lemma InsertStarts(h: Graph, start: Graph, added: set<Mid>)
    requires WellThreaded(h) && Shows(start, h)
    requires added !! start.Keys && added <= h.Keys && forall x :: x in added ==> h[x].article.Some?
    ensures Settling(h, start, added, {}, Inserted(h, start, added))
  {
    var g := Inserted(h, start, added);
    forall q, x ensures OnList(g, q, x) <==> HangsUnder(g, x, q) {
      assert OnList(start, q, x) <==> HangsUnder(start, x, q);
    }
  }

  /** A node found hanging where it belongs counts as settled. */
  lemma SettleInPlace(h: Graph, start: Graph, added: set<Mid>, settled: set<Mid>, g: Graph, x: Mid)
    requires WellThreaded(h) && Settling(h, start, added, settled, g) && x in g
    requires g[x].parent == Nearest(ParentsOf(h), x, start.Keys + added)
    ensures Settling(h, start, added, settled + {x}, g)
  {
    hide Linked, Nearest;
    forall y | y in g ensures g[y].parent == SettlingParent(h, start, added, settled + {x}, y) {
      assert g[y].parent == SettlingParent(h, start, added, settled, y);
    }
  }

  lemma SettlingParentStep(h: Graph, start: Graph, added: set<Mid>, settled: set<Mid>, x: Mid, y: Mid)
    requires WellThreaded(h) && x in h && y in h
    ensures SettlingParent(h, start, added, settled + {x}, y) ==
      if x == y then Nearest(ParentsOf(h), x, start.Keys + added) else SettlingParent(h, start, added, settled, y)
  {
  }

  lemma SettlingLinks(h: Graph, start: Graph, added: set<Mid>, settled: set<Mid>, g: Graph, x: Mid)
    requires WellThreaded(h) && Settling(h, start, added, settled, g) && x in g
    ensures g[x].parent.Some? ==> g[x].parent.value in g
    ensures var near := Nearest(ParentsOf(h), x, start.Keys + added); near.Some? ==> near.value in g
  {
    if g[x].parent.Some? { LinkedParentPresent(g, x); }
  }

  /** A node relinked to where it belongs is settled. */
  lemma SettleByMove(h: Graph, start: Graph, added: set<Mid>, settled: set<Mid>, g: Graph, x: Mid, q: Option<Mid>)
    requires WellThreaded(h) && Settling(h, start, added, settled, g) && x in g
    requires q == Nearest(ParentsOf(h), x, start.Keys + added)
    requires (q.Some? ==> q.value in g) && (g[x].parent.Some? ==> g[x].parent.value in g)
    ensures Settling(h, start, added, settled + {x}, Relink(g, x, q))
  {
    hide Linked, Relink, Nearest, ParentsOf, Ancestors, SettlingParent, Acyclic;
    RelinkKeepsLists(g, x, q);
    var u := Relink(g, x, q);
    ParentsPointwise(g, u, x, q);
    forall y | y in u ensures u[y].parent == SettlingParent(h, start, added, settled + {x}, y) {
      SettlingParentStep(h, start, added, settled, x, y);
    }
  }

  lemma ParentsPointwise(g: Graph, u: Graph, x: Mid, q: Option<Mid>)
    requires x in g && ParentsOf(u) == ParentsOf(g)[x := q]
    ensures forall y :: y in u ==> u[y].parent == if y == x then q else if y in g then g[y].parent else None
  {
    assert forall y :: y in u ==> y in ParentsOf(u) && ParentsOf(u)[y] == u[y].parent;
  }

  /** The articles at or below x. */
  ghost function Below(h: Graph, x: Mid): set<Mid>
    requires WellThreaded(h)
  {
    set y | y in h && h[y].article.Some? && AncestorOrSelf(ParentsOf(h), x, y)
  }

  ghost function BelowAny(h: Graph, s: set<Mid>): set<Mid>
    requires WellThreaded(h)
  {
    set y | y in h && h[y].article.Some? && exists x :: x in s && AncestorOrSelf(ParentsOf(h), x, y)
  }

  /** New articles do not matter to a node shown before that is not below one; one that is finds a parent. */
  lemma OldNodeSettles(h: Graph, start: Graph, added: set<Mid>, x: Mid)
    requires WellThreaded(h) && Shows(start, h) && x in start
    ensures x !in BelowAny(h, added) ==>
      Nearest(ParentsOf(h), x, start.Keys + added) == Nearest(ParentsOf(h), x, start.Keys)
    ensures x in BelowAny(h, added) && added <= h.Keys && x !in added ==>
      Nearest(ParentsOf(h), x, start.Keys + added).Some?
  {
    var c := ParentsOf(h);
    if x !in BelowAny(h, added) {
      NearestUnlessBelow(c, x, start.Keys, added);
    } else if x !in added {
      var a :| a in added && AncestorOrSelf(c, a, x);
      NearestIsNearest(c, x, start.Keys + added);
    }
  }

  /** Every node shown that is not below a new article hangs where it belongs. */
  ghost predicate Untouched(h: Graph, start: Graph, added: set<Mid>)
    requires WellThreaded(h)
  {
    forall x :: x in start && x in h && x !in BelowAny(h, added) ==>
      start[x].parent == Nearest(ParentsOf(h), x, start.Keys)
  }

  lemma ViewHangs(h: Graph, g: Graph)
    requires WellThreaded(h) && Shows(g, h)
    ensures IsViewOf(g, h) <==> forall x :: x in g ==> g[x].parent == Nearest(ParentsOf(h), x, g.Keys)
  {
    hide Linked, Nearest;
    var p, q := ParentsOf(g), Projected(ParentsOf(h), g.Keys);
    assert forall x :: x in g ==> p[x] == g[x].parent && q[x] == Nearest(ParentsOf(h), x, g.Keys);
  }

  lemma ViewIsUntouched(h: Graph, start: Graph, added: set<Mid>)
    requires WellThreaded(h) && IsViewOf(start, h)
    ensures Untouched(h, start, added)
  {
    ViewHangs(h, start);
  }

  /**
   When the new articles and everything shown below them are settled, the result is a view exactly when every other
   node hung where it belongs before.
   */
  lemma SettledIsView(h: Graph, start: Graph, added: set<Mid>, settled: set<Mid>, g: Graph)
    requires WellThreaded(h) && Shows(start, h) && Settling(h, start, added, settled, g)
    requires settled == added + (BelowAny(h, added) * start.Keys) && added !! start.Keys
    ensures Shows(g, h) && (IsViewOf(g, h) <==> Untouched(h, start, added))
  {
    hide Linked, Nearest, BelowAny, IsViewOf;
    ViewHangs(h, g);
    forall x | x in g
      ensures g[x].parent == SettlingParent(h, start, added, settled, x)
      ensures x in start && x !in BelowAny(h, added) ==>
        Nearest(ParentsOf(h), x, start.Keys + added) == Nearest(ParentsOf(h), x, start.Keys)
    {
      if x in start { OldNodeSettles(h, start, added, x); }
    }
  }
}
