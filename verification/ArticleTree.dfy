/** MyTree: a filtered, incrementally updated view of a group's threads, on heap nodes of its own. */
module ArticleTree {
  import opened Prelude
  import opened Forest
  import opened Threading
  import opened Projection
  import opened ViewUpdates
  import opened SortedRanges
  import opened Nodes
  import opened Descendants
  import opened Filtering
  import opened Rules

  // ---------------------------------------------------------------- removing articles, phase by phase

  ghost function Ids(s: set<ArticleNode>): set<Mid> {
    set n | n in s :: n.mid
  }

  /** Empties the nodes of the removed articles. owners collects the nodes they hang under. */
  method ClearArticles(nodes: NodeMap, gone: set<Mid>) returns (owners: set<ArticleNode>)
    requires WellKeyed(nodes) && gone <= nodes.Keys
    modifies nodes.Values`article
    ensures WellKeyed(nodes) && View(nodes) == RemoveArticles(old(View(nodes)), gone)
    ensures forall q :: q in owners ==> IsEntry(nodes, q)
    ensures forall x :: x in gone && old(View(nodes))[x].parent.Some? ==>
      old(View(nodes))[x].parent.value in Ids(owners)
  {
    hide View, Mids, WellKeyed, IsEntry, RemoveArticles;
    ghost var start := View(nodes);
    ViewKeys(nodes);
    owners := {};
    var left := gone;
    RemoveNone(start);
    assert gone - left == {};
    while left != {}
      invariant WellKeyed(nodes) && left <= gone
      invariant View(nodes) == RemoveArticles(start, gone - left)
      invariant forall q :: q in owners ==> IsEntry(nodes, q)
      invariant forall x :: x in gone - left && start[x].parent.Some? ==> start[x].parent.value in Ids(owners)
      decreases left
    {
      var m :| m in left;
      KeyedEntry(nodes, m);
      Seen(nodes, nodes[m]);
      RemoveNext(start, gone - left, m);
      WriteArticle(nodes, nodes[m], None);
      ghost var before := Ids(owners);
      if nodes[m].parent != null {
        owners := owners + {nodes[m].parent};
      }
      assert before <= Ids(owners);
      assert gone - (left - {m}) == gone - left + {m};
      left := left - {m};
    }
    assert gone - left == gone;
  }

  lemma RemoveNone(g: Graph)
    ensures RemoveArticles(g, {}) == g
  {
  }

  lemma RemoveNext(g: Graph, mids: set<Mid>, m: Mid)
    requires m in g && m !in mids
    ensures m in RemoveArticles(g, mids) && RemoveArticles(g, mids)[m].parent == g[m].parent
    ensures RemoveArticles(g, mids + {m})
      == RemoveArticles(g, mids)[m := RemoveArticles(g, mids)[m].(article := None)]
  {
  }

  /** Takes the removed nodes off the lists of their parents. */
  method PruneLists(nodes: NodeMap, owners: set<ArticleNode>, gone: set<Mid>)
    requires WellKeyed(nodes) && forall q :: q in owners ==> IsEntry(nodes, q)
    modifies nodes.Values`children
    ensures WellKeyed(nodes) && View(nodes) == Prune(old(View(nodes)), Ids(owners), gone)
  {
    hide View, Mids, WellKeyed, IsEntry, Outside;
    ghost var start := View(nodes);
    var left := owners;
    assert Ids(owners - left) == {};
    while left != {}
      invariant WellKeyed(nodes) && left <= owners
      invariant View(nodes) == Prune(start, Ids(owners - left), gone)
      decreases left
    {
      var q :| q in left;
      assert IsEntry(nodes, q);
      EntryValue(nodes, q);
      KeepChildren(nodes, q, gone);
      PruneMore(start, Ids(owners - left), q.mid, gone);
      assert Ids(owners - left) + {q.mid} == Ids(owners - (left - {q}));
      left := left - {q};
    }
    assert owners - left == owners;
  }

  lemma EntryValue(nodes: NodeMap, n: ArticleNode)
    requires IsEntry(nodes, n)
    ensures n in nodes.Values
  {
  }

  lemma PruneMore(g: Graph, owners: set<Mid>, q: Mid, gone: set<Mid>)
    ensures Prune(Prune(g, owners, gone), {q}, gone) == Prune(g, owners + {q}, gone)
  {
    forall x | x in g ensures Outside(Outside(g[x].children, gone), gone) == Outside(g[x].children, gone) {
      OutsideTwice(g[x].children, gone);
    }
  }

  lemma {:induction false} OutsideTwice(s: seq<Mid>, gone: set<Mid>)
    ensures Outside(Outside(s, gone), gone) == Outside(s, gone)
  {
    if s != [] { OutsideTwice(s[1..], gone); }
  }

  /** The first node at or above n that still has an article, or null. */
  method FirstWithArticle(nodes: NodeMap, n: ArticleNode, ghost start: Graph, ghost gone: set<Mid>,
                          ghost done: set<Mid>)
    returns (r: ArticleNode?)
    requires WellKeyed(nodes) && IsEntry(nodes, n) && WellThreaded(start)
    requires Reparenting(start, gone, done, View(nodes)) && n.mid !in done && n.mid !in gone
    requires forall x :: x in start ==> start[x].article.Some?
    ensures n.mid in start && ParentMid(r) == Nearest(ParentsOf(start), n.mid, start.Keys - gone)
    ensures r != null ==> IsEntry(nodes, r)
  {
    hide View, Mids, Linked, WellKeyed;
    ghost var p, kept := ParentsOf(start), start.Keys - gone;
    Seen(nodes, n);
    assert ReparentedNode(start, gone, done, n.mid, View(nodes)[n.mid]);
    r := n.parent;
    ghost var at := n.mid;
    while r != null && r.article == None
      invariant at in p && p[at] == ParentMid(r) && (r != null ==> IsEntry(nodes, r))
      invariant Nearest(p, n.mid, kept) == Nearest(p, at, kept)
      decreases RankOf(p)[at]
    {
      Seen(nodes, r);
      assert ReparentedNode(start, gone, done, r.mid, View(nodes)[r.mid]);
      at := r.mid;
      r := r.parent;
      assert Nearest(p, n.mid, kept) == Nearest(p, at, kept);
    }
    if r != null {
      Seen(nodes, r);
      assert ReparentedNode(start, gone, done, r.mid, View(nodes)[r.mid]);
    }
  }

  /** The record due for x when its parent is removed. */
  ghost function Orphaned(start: Graph, gone: set<Mid>): map<Mid, Reparent>
    requires WellThreaded(start)
  {
    map x | x in start && x !in gone && start[x].parent.Some? && start[x].parent.value in gone ::
      Reparent(start[x].parent, Nearest(ParentsOf(start), x, start.Keys - gone))
  }

  /** Puts n, whose parent has been removed, in front of q's children, or at the top when there is no q. */
  method MoveUp(nodes: NodeMap, n: ArticleNode, q: ArticleNode?)
    requires WellKeyed(nodes) && IsEntry(nodes, n) && (q != null ==> IsEntry(nodes, q))
    modifies nodes.Values
    ensures View(nodes).Keys == old(View(nodes)).Keys && n.mid in View(nodes) && (q != null ==> q.mid in View(nodes))
    ensures WellKeyed(nodes) && View(nodes) == MoveTo(old(View(nodes)), n.mid, ParentMid(q))
  {
    hide View, Mids, WellKeyed;
    Seen(nodes, n);
    if q != null {
      Seen(nodes, q);
      EntryValue(nodes, q);
      PushFront(nodes, q, n);
    }
    EntryValue(nodes, n);
    WriteParent(nodes, n, q);
  }

  /** Looks at one node after a removal; if its parent was removed, hangs it under the nearest survivor above. */
  method ReparentOne(nodes: NodeMap, n: ArticleNode, ghost start: Graph, ghost gone: set<Mid>, ghost done: set<Mid>)
    returns (r: Option<Reparent>)
    requires WellKeyed(nodes) && IsEntry(nodes, n) && WellThreaded(start)
    requires Reparenting(start, gone, done, View(nodes)) && n.mid !in done
    requires forall x :: x in start ==> start[x].article.Some?
    modifies nodes.Values
    ensures WellKeyed(nodes) && Reparenting(start, gone, done + {n.mid}, View(nodes))
    ensures r == if n.mid in Orphaned(start, gone) then Some(Orphaned(start, gone)[n.mid]) else None
  {
    hide View, Mids, Linked, WellKeyed, Nearest, Reparenting, MoveTo, Ancestors, Acyclic;
    ghost var g := View(nodes);
    Seen(nodes, n);
    ReparentingNode(start, gone, done, g, n.mid);
    if n.parent != null {
      Seen(nodes, n.parent);
      ReparentingNode(start, gone, done, g, n.parent.mid);
    }
    if n.article != None && n.parent != null && n.parent.article == None {
      var oldParent := n.parent.mid;
      var q := FirstWithArticle(nodes, n, start, gone, done);
      MoveSurvivor(start, gone, done, g, n.mid);
      MoveUp(nodes, n, q);
      r := Some(Reparent(Some(oldParent), ParentMid(q)));
    } else {
      SkipSurvivor(start, gone, done, g, n.mid);
      r := None;
    }
  }

  lemma ReparentingNode(start: Graph, gone: set<Mid>, done: set<Mid>, g: Graph, x: Mid)
    requires WellThreaded(start) && Reparenting(start, gone, done, g) && x in g
    requires forall x :: x in start ==> start[x].article.Some?
    ensures x in start && (g[x].article == None <==> x in gone)
    ensures x !in done || x in gone ==> g[x].parent == start[x].parent
  {
    assert ReparentedNode(start, gone, done, x, g[x]);
  }

  /** m cut down to some of its keys. */
  ghost function Part<T>(m: map<Mid, T>, keys: set<Mid>): map<Mid, T> {
    map x | x in m && x in keys :: m[x]
  }

  lemma PartGrows<T>(m: map<Mid, T>, keys: set<Mid>, x: Mid)
    ensures Part(m, keys + {x}) == if x in m then Part(m, keys)[x := m[x]] else Part(m, keys)
  {
  }

  lemma PartWhole<T>(m: map<Mid, T>, keys: set<Mid>)
    requires m.Keys <= keys
    ensures Part(m, keys) == m
  {
  }

  lemma PrefixGrows(order: seq<Mid>, i: nat, key: Key)
    requires Ascending(order, key) && i < |order|
    ensures order[i] !in Elements(order[..i])
    ensures Elements(order[..i + 1]) == Elements(order[..i]) + {order[i]}
  {
    assert order[..i + 1] == order[..i] + [order[i]];
  }

  /** Looks at every node in the order of the map. */
  method ReparentSurvivors(nodes: NodeMap, key: Key, ghost start: Graph, ghost gone: set<Mid>)
    returns (r: map<Mid, Reparent>)
    requires WellKeyed(nodes) && Injective(key) && WellThreaded(start)
    requires Reparenting(start, gone, {}, View(nodes)) && nodes.Keys == start.Keys
    requires forall x :: x in start ==> start[x].article.Some?
    modifies nodes.Values
    ensures WellKeyed(nodes) && Reparenting(start, gone, start.Keys, View(nodes))
    ensures r == Orphaned(start, gone)
  {
    hide View, Mids, WellKeyed, IsEntry, Reparenting, WellThreaded, Orphaned, Part, Ascending, Elements;
    var order := InOrder(nodes.Keys, key);
    r := map[];
    NoElements(order[..0]);
    assert Part(Orphaned(start, gone), {}) == map[] by { PartNothing(Orphaned(start, gone)); }
    for i := 0 to |order|
      invariant WellKeyed(nodes) && Reparenting(start, gone, Elements(order[..i]), View(nodes))
      invariant r == Part(Orphaned(start, gone), Elements(order[..i]))
    {
      assert order[i] in order;
      KeyedEntry(nodes, order[i]);
      PrefixGrows(order, i, key);
      PartGrows(Orphaned(start, gone), Elements(order[..i]), order[i]);
      var one := ReparentOne(nodes, nodes[order[i]], start, gone, Elements(order[..i]));
      if one.Some? {
        r := r[order[i] := one.value];
      }
    }
    assert order[..|order|] == order;
    ElementsOf(order, start.Keys);
    OrphanedInStart(start, gone);
    PartWhole(Orphaned(start, gone), start.Keys);
  }

  lemma PartNothing<T>(m: map<Mid, T>)
    ensures Part(m, {}) == map[]
  {
  }

  lemma NoElements(s: seq<Mid>)
    requires s == []
    ensures Elements(s) == {}
  {
  }

  lemma ElementsOf(s: seq<Mid>, e: set<Mid>)
    requires forall x :: x in s <==> x in e
    ensures Elements(s) == e
  {
  }

  lemma OrphanedInStart(start: Graph, gone: set<Mid>)
    requires WellThreaded(start)
    ensures Orphaned(start, gone).Keys <= start.Keys
  {
  }

  // ---------------------------------------------------------------- adding articles, phase by phase

  /** The tree node of the nearest ancestor of x that the tree shows, or null: follows the canonical parents of x. */
  method FindShownAncestor(h: Graph, nodes: NodeMap, x: Mid) returns (r: ArticleNode?)
    requires WellThreaded(h) && x in h && WellKeyed(nodes)
    ensures ParentMid(r) == Nearest(ParentsOf(h), x, nodes.Keys)
    ensures r != null ==> IsEntry(nodes, r)
  {
    hide View, Mids, Linked;
    ghost var p := ParentsOf(h);
    r := null;
    var at := x;
    while h[at].parent.Some? && r == null
      invariant at in h && (r != null ==> IsEntry(nodes, r))
      invariant r == null ==> Nearest(p, x, nodes.Keys) == Nearest(p, at, nodes.Keys)
      invariant r != null ==> Nearest(p, x, nodes.Keys) == Some(r.mid)
      decreases RankOf(p)[at]
    {
      ParentPresent(h, at);
      var q := h[at].parent.value;
      if q in nodes {
        r := nodes[q];
      }
      at := q;
    }
  }

  /** Hangs the parentless node n at the end of q's children. */
  method HangUnder(nodes: NodeMap, n: ArticleNode, q: ArticleNode)
    requires WellKeyed(nodes) && IsEntry(nodes, n) && IsEntry(nodes, q) && n.parent == null
    modifies nodes.Values
    ensures old(View(nodes)).Keys == nodes.Keys && n.mid in old(View(nodes)) && q.mid in old(View(nodes))
    ensures old(View(nodes))[n.mid].parent.None?
    ensures WellKeyed(nodes) && View(nodes) == Relink(old(View(nodes)), n.mid, Some(q.mid))
  {
    hide View, Mids, WellKeyed, AppendChild;
    ghost var g := View(nodes);
    Seen(nodes, n);
    Seen(nodes, q);
    EntryValue(nodes, n);
    EntryValue(nodes, q);
    SetThenAppend(g, n.mid, q.mid);
    WriteParent(nodes, n, q);
    PushBack(nodes, q, n);
  }

  lemma SetThenAppend(g: Graph, x: Mid, q: Mid)
    requires x in g && q in g
    ensures AppendChild(SetParent(g, x, Some(q)), q, x) == SetParent(AppendChild(g, q, x), x, Some(q))
  {
  }

  /** Takes n off its parent's list, if it has one, and hangs it at the end of q's. */
  method Rehang(nodes: NodeMap, n: ArticleNode, q: ArticleNode)
    requires WellKeyed(nodes) && IsEntry(nodes, n) && IsEntry(nodes, q)
    modifies nodes.Values
    ensures old(View(nodes)).Keys == nodes.Keys && n.mid in old(View(nodes)) && q.mid in old(View(nodes))
    ensures old(View(nodes))[n.mid].parent.Some? ==> old(View(nodes))[n.mid].parent.value in old(View(nodes))
    ensures WellKeyed(nodes) && View(nodes) == Relink(old(View(nodes)), n.mid, Some(q.mid))
  {
    hide View, Mids, WellKeyed, AppendChild, DropChild;
    Seen(nodes, n);
    Seen(nodes, q);
    EntryValue(nodes, n);
    EntryValue(nodes, q);
    var oldParent := n.parent;
    if oldParent != null {
      Seen(nodes, oldParent);
      EntryValue(nodes, oldParent);
      RemoveChild(nodes, oldParent, n);
    }
    PushBack(nodes, q, n);
    WriteParent(nodes, n, q);
  }

  /** The parents due to the nodes in s in a tree that shows the articles in shown. */
  ghost function Due(h: Graph, s: set<Mid>, shown: set<Mid>): map<Mid, Option<Mid>>
    requires WellThreaded(h)
  {
    map x | x in s && x in h :: Nearest(ParentsOf(h), x, shown)
  }

  lemma DueGrows(h: Graph, s: set<Mid>, shown: set<Mid>, x: Mid)
    requires WellThreaded(h) && x in h
    ensures x in ParentsOf(h)
    ensures Due(h, s + {x}, shown) == Due(h, s, shown)[x := Nearest(ParentsOf(h), x, shown)]
  {
  }

  /** Links the new nodes, in order, each to its nearest shown ancestor. */
  method LinkNew(h: Graph, nodes: NodeMap, list: seq<Mid>, ghost start: Graph) returns (added: map<Mid, Option<Mid>>)
    requires WellThreaded(h) && WellKeyed(nodes) && Distinct(list) && forall x :: x in list ==> x in h
    requires nodes.Keys == start.Keys + Elements(list) && start.Keys !! Elements(list)
    requires Settling(h, start, Elements(list), {}, View(nodes))
    modifies nodes.Values
    ensures WellKeyed(nodes) && Settling(h, start, Elements(list), Elements(list), View(nodes))
    ensures added == Due(h, Elements(list), nodes.Keys)
  {
    hide View, Mids, WellKeyed, Linked, Acyclic, Nearest, Settling, IsEntry, Relink, ParentsOf, Due;
    ghost var n := Elements(list);
    added := map[];
    assert list[..0] == [];
    DueNothing(h, nodes.Keys);
    for i := 0 to |list|
      invariant WellKeyed(nodes) && Settling(h, start, n, Elements(list[..i]), View(nodes))
      invariant added == Due(h, Elements(list[..i]), nodes.Keys)
    {
      assert list[i] in list;
      DistinctGrows(list, i);
      ghost var g := View(nodes);
      KeyedEntry(nodes, list[i]);
      Seen(nodes, nodes[list[i]]);
      SettlingNode(h, start, n, Elements(list[..i]), g, list[i]);
      DueGrows(h, Elements(list[..i]), nodes.Keys, list[i]);
      var q := FindShownAncestor(h, nodes, list[i]);
      if q != null {
        HangUnder(nodes, nodes[list[i]], q);
        SettleByMove(h, start, n, Elements(list[..i]), g, list[i], Some(q.mid));
      } else {
        SettleInPlace(h, start, n, Elements(list[..i]), g, list[i]);
      }
      added := added[list[i] := ParentMid(q)];
    }
    assert list[..|list|] == list;
  }

  lemma DueNothing(h: Graph, shown: set<Mid>)
    requires WellThreaded(h)
    ensures Elements<Mid>([]) == {} && Due(h, {}, shown) == map[]
  {
  }

  lemma DistinctGrows(list: seq<Mid>, i: nat)
    requires Distinct(list) && i < |list|
    ensures list[i] !in Elements(list[..i])
    ensures Elements(list[..i + 1]) == Elements(list[..i]) + {list[i]}
  {
    assert list[..i + 1] == list[..i] + [list[i]];
  }

  lemma SettlingNode(h: Graph, start: Graph, added: set<Mid>, settled: set<Mid>, g: Graph, x: Mid)
    requires WellThreaded(h) && Settling(h, start, added, settled, g) && x in g
    ensures x in h && g[x].parent == SettlingParent(h, start, added, settled, x)
    ensures g.Keys == start.Keys + added
  {
  }

  /** The records due to the nodes in s that were shown before and now belong under another parent. */
  ghost function Rehung(h: Graph, start: Graph, added: set<Mid>, s: set<Mid>): map<Mid, Reparent>
    requires WellThreaded(h)
  {
    map x | x in s && x in start && x in h && start[x].parent != Nearest(ParentsOf(h), x, start.Keys + added) ::
      Reparent(start[x].parent, Nearest(ParentsOf(h), x, start.Keys + added))
  }

  ghost function RehungOne(h: Graph, start: Graph, added: set<Mid>, x: Mid): Option<Reparent>
    requires WellThreaded(h) && x in h
  {
    var q := Nearest(ParentsOf(h), x, start.Keys + added);
    if x in start && start[x].parent != q then Some(Reparent(start[x].parent, q)) else None
  }

  lemma RehungGrows(h: Graph, start: Graph, added: set<Mid>, s: set<Mid>, x: Mid)
    requires WellThreaded(h) && x in h
    ensures Rehung(h, start, added, s + {x}) ==
      match RehungOne(h, start, added, x)
      case Some(r) => Rehung(h, start, added, s)[x := r]
      case None => Rehung(h, start, added, s)
  {
  }

  lemma RehungNothing(h: Graph, start: Graph, added: set<Mid>)
    requires WellThreaded(h)
    ensures Elements<Mid>([]) == {} && Rehung(h, start, added, {}) == map[]
  {
  }

  /** What the walk from a node below a new article finds: never null unless the node is already in place. */
  lemma RehangTarget(h: Graph, start: Graph, added: set<Mid>, settled: set<Mid>, g: Graph, x: Mid)
    requires WellThreaded(h) && Shows(start, h) && Settling(h, start, added, settled, g) && x in g
    requires added <= settled && added <= h.Keys && start.Keys !! added && x in BelowAny(h, added)
    requires x in settled ==> x in added
    ensures x in h && x in ParentsOf(h)
    ensures var q := Nearest(ParentsOf(h), x, start.Keys + added);
      && (g[x].parent != q ==> q.Some?)
      && (q.Some? ==> q.value in g)
      && RehungOne(h, start, added, x) == if g[x].parent != q then Some(Reparent(g[x].parent, q)) else None
  {
    SettlingNode(h, start, added, settled, g, x);
    if x !in added {
      OldNodeSettles(h, start, added, x);
    }
  }

  /** Looks again at a node below a new article and moves it under its nearest shown ancestor if that has changed. */
  method RehangOne(h: Graph, nodes: NodeMap, x: Mid, ghost start: Graph, ghost added: set<Mid>, ghost settled: set<Mid>)
    returns (r: Option<Reparent>)
    requires WellThreaded(h) && Shows(start, h) && WellKeyed(nodes)
    requires Settling(h, start, added, settled, View(nodes))
    requires added <= settled && added <= h.Keys && start.Keys !! added && x in BelowAny(h, added)
    requires nodes.Keys == start.Keys + added && x in nodes && x in h
    requires x in settled ==> x in added
    modifies nodes.Values
    ensures WellKeyed(nodes) && Settling(h, start, added, settled + {x}, View(nodes))
    ensures r == RehungOne(h, start, added, x)
  {
    hide View, Mids, WellKeyed, Linked, Acyclic, Nearest, Settling, IsEntry, Relink, RehungOne, BelowAny, Shows,
      WellThreaded, ParentsOf;
    ghost var g := View(nodes);
    KeyedEntry(nodes, x);
    Seen(nodes, nodes[x]);
    RehangTarget(h, start, added, settled, g, x);
    var treeNode := nodes[x];
    var newParent := FindShownAncestor(h, nodes, x);
    if newParent == treeNode.parent {
      SettleInPlace(h, start, added, settled, g, x);
      return None;
    }
    SameParent(nodes, treeNode, newParent);
    var oldParent := treeNode.parent;
    SettlingLinks(h, start, added, settled, g, x);
    Rehang(nodes, treeNode, newParent);
    SettleByMove(h, start, added, settled, g, x, Some(newParent.mid));
    r := Some(Reparent(ParentMid(oldParent), Some(newParent.mid)));
  }

  /** Two parent pointers are equal when the ids they lead to are. */
  lemma SameParent(nodes: NodeMap, n: ArticleNode, q: ArticleNode?)
    requires WellKeyed(nodes) && IsEntry(nodes, n) && (q != null ==> IsEntry(nodes, q))
    ensures n.parent == q <==> ParentMid(n.parent) == ParentMid(q)
  {
  }

  /** Looks again at the nodes in the list. */
  method RehangAll(h: Graph, nodes: NodeMap, list: seq<Mid>, ghost start: Graph, ghost added: set<Mid>)
    returns (r: map<Mid, Reparent>)
    requires WellThreaded(h) && Shows(start, h) && WellKeyed(nodes) && Settling(h, start, added, added, View(nodes))
    requires added <= h.Keys && start.Keys !! added && nodes.Keys == start.Keys + added
    requires Distinct(list) && forall x :: x in list ==> x in nodes && x in h && x in BelowAny(h, added)
    modifies nodes.Values
    ensures WellKeyed(nodes) && Settling(h, start, added, added + Elements(list), View(nodes))
    ensures r == Rehung(h, start, added, Elements(list))
  {
    hide View, Mids, WellKeyed, Linked, Settling, IsEntry, RehungOne, Rehung, BelowAny, Shows, WellThreaded;
    r := map[];
    assert list[..0] == [];
    RehungNothing(h, start, added);
    assert added + {} == added;
    for i := 0 to |list|
      invariant WellKeyed(nodes) && Settling(h, start, added, added + Elements(list[..i]), View(nodes))
      invariant r == Rehung(h, start, added, Elements(list[..i]))
    {
      assert list[i] in list;
      DistinctGrows(list, i);
      RehungGrows(h, start, added, Elements(list[..i]), list[i]);
      assert added + Elements(list[..i]) + {list[i]} == added + Elements(list[..i + 1]);
      var one := RehangOne(h, nodes, list[i], start, added, added + Elements(list[..i]));
      if one.Some? {
        r := r[list[i] := one.value];
      }
    }
    assert list[..|list|] == list;
  }

  /** The ids in both lists: walks the two ordered lists side by side. */
  method InBoth(a: seq<Mid>, b: seq<Mid>, key: Key) returns (r: seq<Mid>)
    requires Injective(key) && Ascending(a, key) && Ascending(b, key)
    ensures Ascending(r, key) && forall x :: x in r <==> x in a && x in b
  {
    hide Injective, Ascending;
    CommonInOrder(a, b, key);
    r := [];
    var i, j := 0, 0;
    while i < |a| && j < |b|
      invariant i <= |a| && j <= |b|
      invariant r + Common(a[i..], b[j..], key) == Common(a, b, key)
    {
      if key(a[i]) < key(b[j]) {
        i := i + 1;
      } else if key(b[j]) < key(a[i]) {
        j := j + 1;
      } else {
        r := r + [a[i]];
        i, j := i + 1, j + 1;
      }
    }
    assert r == Common(a, b, key);
  }

  // ---------------------------------------------------------------- the two updates on bare nodes

  /** Every step of a removal but the last: the removed nodes are empty and nothing that stays leads to them. */
  method UnthreadRemoved(nodes: NodeMap, gone: set<Mid>, key: Key) returns (reparented: map<Mid, Reparent>)
    requires WellKeyed(nodes) && Injective(key) && gone <= nodes.Keys
    requires WellThreaded(View(nodes)) && forall x :: x in View(nodes) ==> View(nodes)[x].article.Some?
    modifies nodes.Values
    ensures WellKeyed(nodes) && Reparenting(old(View(nodes)), gone, nodes.Keys, View(nodes))
    ensures reparented == Orphaned(old(View(nodes)), gone)
  {
    hide View, Mids, WellKeyed, WellThreaded, Reparenting, Orphaned, Prune, RemoveArticles;
    ghost var start := View(nodes);
    ViewKeys(nodes);
    var owners := ClearArticles(nodes, gone);
    PruneLists(nodes, owners, gone);
    PruneStarts(start, gone, Ids(owners));
    reparented := ReparentSurvivors(nodes, key, start, gone);
  }

  lemma BelowAnyShown(h: Graph, s: set<Mid>)
    requires WellThreaded(h)
    ensures BelowAny(h, s) <= h.Keys
    ensures forall x :: x in s && x in h && h[x].article.Some? ==> x in BelowAny(h, s)
  {
  }

  lemma SettlingKeys(h: Graph, start: Graph, added: set<Mid>, settled: set<Mid>, g: Graph)
    requires WellThreaded(h) && Settling(h, start, added, settled, g)
    ensures g.Keys == start.Keys + added && g.Keys <= h.Keys
  {
  }

  /** The ids in the list that are not among the shown ones, in the order of message ids. */
  method NotYetShown(list: seq<Mid>, shown: set<Mid>, midOrder: Key) returns (r: seq<Mid>)
    requires Injective(midOrder)
    ensures Ascending(r, midOrder) && Distinct(r) && Elements(r) == Elements(list) - shown
    ensures forall x :: x in r ==> x in list
  {
    hide Injective;
    var sorted, present := InOrder((set x | x in list), midOrder), InOrder(shown, midOrder);
    DifferenceInOrder(sorted, present, midOrder);
    r := SetDifference(sorted, present, midOrder);
    AscendingDistinct(r, midOrder);
  }

  /**
   Links the new nodes and rehangs what is below them. nodeOrder decides which of the new nodes survive in the list
   of candidates for rehanging; the outcome does not depend on it.
   */
  method ThreadAdded(h: Graph, nodes: NodeMap, list: seq<Mid>, midOrder: Key, nodeOrder: Key, ghost start: Graph)
    returns (added: map<Mid, Option<Mid>>, reparented: map<Mid, Reparent>, ghost looked: set<Mid>)
    requires WellThreaded(h) && WellKeyed(nodes) && Injective(midOrder) && Injective(nodeOrder)
    requires Ascending(list, midOrder) && forall x :: x in list ==> x in h
    requires nodes.Keys == start.Keys + Elements(list) && start.Keys !! Elements(list) && Shows(start, h)
    requires Settling(h, start, Elements(list), {}, View(nodes))
    modifies nodes.Values
    ensures WellKeyed(nodes) && Settling(h, start, Elements(list), Elements(list) + looked, View(nodes))
    ensures BelowAny(h, Elements(list)) * start.Keys <= looked <= BelowAny(h, Elements(list)) * nodes.Keys
    ensures added == Due(h, Elements(list), nodes.Keys)
    ensures reparented == Rehung(h, start, Elements(list), looked)
  {
    hide View, Mids, WellKeyed, WellThreaded, Settling, Shows, BelowAny, Due, Rehung, Injective;
    AscendingDistinct(list, midOrder);
    ghost var n := Elements(list);
    added := LinkNew(h, nodes, list, start);
    var below := AccumulateAll(h, list);
    BelowAnyShown(h, n);
    var descendants := InOrder(below, midOrder);
    DifferenceInAnyOrder(descendants, list, nodeOrder, midOrder);
    descendants := SetDifference(descendants, list, nodeOrder);
    var descend := InBoth(InOrder(nodes.Keys, midOrder), descendants, midOrder);
    AscendingDistinct(descend, midOrder);
    reparented := RehangAll(h, nodes, descend, start, n);
    looked := Elements(descend);
  }

  // ---------------------------------------------------------------- the tree

  class MyTree {
    /** The group's thread graph, which only load_article changes. */
    var headers: Graph
    /** The order of message ids, and the order of the canonical nodes' addresses. */
    const midOrder: Key
    const nodeOrder: Key
    /** The tree's own nodes. */
    var nodes: NodeMap
    /** The records listeners have been sent. */
    var published: seq<Diffs>
    var show: ShowType
    var filter: Filter
    var rules: RuleTest

    /**
     The tree shows articles of the headers, and a listener that started with nothing and applied every record holds
     exactly the tree's parent map.
     */
    ghost predicate Intact()
      reads this, nodes.Values
    {
      && WellThreaded(headers) && Injective(midOrder) && Injective(nodeOrder)
      && WellKeyed(nodes)
      && Shows(View(nodes), headers)
      && Replay(published) == ParentsOf(View(nodes))
    }

    /** Moreover the tree is a view of the headers: everything hangs under its nearest shown ancestor. */
    ghost predicate Valid()
      reads this, nodes.Values
    {
      Intact() && IsViewOf(View(nodes), headers)
    }

    /** A new tree is filled at once: it starts as a view of nothing, and the filter and then the rules are set. */
    constructor (headers: Graph, midOrder: Key, nodeOrder: Key, show: ShowType, filter: Filter, rules: RuleTest)
      requires WellThreaded(headers) && Injective(midOrder) && Injective(nodeOrder)
      ensures Valid() && fresh(nodes.Values) && this.headers == headers
      ensures this.midOrder == midOrder && this.nodeOrder == nodeOrder
      ensures this.show == show && this.filter == filter && this.rules == rules
      ensures forall x :: x in nodes <==> Wanted(headers, show, filter, x) && !Fails(headers, rules, x)
    {
      this.headers, this.midOrder, this.nodeOrder := headers, midOrder, nodeOrder;
      nodes, published := map[], [];
      this.show, this.filter, this.rules := show, filter, rules;
      new;
      hide View, ParentsOf, Projected, Linked, Wanted, Fails;
      EmptyView(nodes);
      EmptyParents();
      NothingProjected(ParentsOf(this.headers));
      NothingLinked();
      assert View(nodes).Keys == {};
      SetFilter(show, filter);
      SetRules(show, rules);
    }

    /**
     load_article has changed the thread graph under the tree, which is not told: it stays a view exactly when the
     nearest shown ancestor of everything it shows is still the same.
     */
    method HeadersChange(h: Graph)
      requires Intact() && WellThreaded(h) && Shows(View(nodes), h)
      modifies `headers
      ensures Intact() && headers == h && View(nodes) == old(View(nodes))
      ensures Valid() <==> Untouched(h, View(nodes), {})
    {
      hide View, Linked, ParentsOf, Nearest;
      headers := h;
      NothingBelowNothing(h, View(nodes));
    }

    /** fire_diffs: a record that says nothing is not sent. */
    method Publish(d: Diffs)
      modifies this`published
      ensures published == old(published) + if d == NO_DIFFS then [] else [d]
    {
      if d != NO_DIFFS {
        published := published + [d];
      }
    }

    /** The records sent when the parent map goes from p to p': one exact record, or none if nothing changed. */
    ghost static function Records(p: Parents, p': Parents): seq<Diffs> {
      if p == p' then [] else [Changes(p, p')]
    }

    static lemma ReplayRecords(log: seq<Diffs>, p: Parents, p': Parents)
      requires Replay(log) == p
      ensures Replay(log + Records(p, p')) == p'
    {
      if p != p' {
        ReplayAppend(log, Changes(p, p'));
        ChangesLeadThere(p, p');
      } else {
        assert log + [] == log;
      }
    }

    /**
     remove_articles: takes the articles out and hangs what was below them under the nearest article left. The tree has
     to be a forest for that; it stays one, and a view if it was one.
     */
    method RemoveArticles(mids: set<Mid>)
      requires Intact() && Acyclic(ParentsOf(View(nodes)))
      modifies `nodes, `published, nodes.Values
      ensures Intact() && Acyclic(ParentsOf(View(nodes))) && (old(Valid()) ==> Valid())
      ensures nodes.Keys == old(nodes.Keys) - mids && nodes.Values <= old(nodes.Values)
      ensures ParentsOf(View(nodes)) == Projected(ParentsOf(old(View(nodes))), nodes.Keys)
      ensures published == old(published) + Records(ParentsOf(old(View(nodes))), ParentsOf(View(nodes)))
    {
      hide View, Mids, WellKeyed, IsViewOf, Shows, Linked, Reparenting, Orphaned, Replay, Changes, ParentsOf, Acyclic,
        Projected;
      ghost var start := View(nodes);
      ShowsForest(start, headers);
      ViewKeys(nodes);
      var gone := mids * nodes.Keys;
      var reparented := UnthreadRemoved(nodes, gone, midOrder);
      ghost var done := View(nodes);
      EraseLeavesView(headers, start, gone, done);
      RemovalRecord(start, gone, done);
      EraseNodes(nodes, gone, headers);
      ReplayRecords(published, ParentsOf(start), ParentsOf(done - gone));
      NoChanges(ParentsOf(start), ParentsOf(done - gone));
      Publish(Diffs(map[], reparented, gone));
      nodes := nodes - gone;
    }

    /** apply_filter: brings the view up to date for the candidates, given in the order of message ids. */
    method ApplyFilter(candidates: seq<Mid>) returns (ghost pass: seq<Mid>, ghost fail: seq<Mid>)
      requires Valid() && Ascending(candidates, midOrder)
      requires forall x :: x in candidates ==>
        x in headers && (filter.empty && show == ShowArticles ==> headers[x].article.Some?)
      modifies this, nodes.Values
      ensures Valid() && headers == old(headers) && show == old(show) && filter == old(filter) && rules == old(rules)
      ensures fresh(nodes.Values - old(nodes.Values))
      ensures nodes.Keys == old(nodes.Keys) + Elements(pass) - Elements(fail)
      ensures Selected(headers, show, filter, candidates, pass, fail)
    {
      hide View, Replay, IsViewOf, WellKeyed, Selected, ParentsOf, Linked, Untouched, Acyclic;
      var add, remove := Select(headers, show, filter, candidates, midOrder);
      AscendingDistinct(add, midOrder);
      ViewIsUntouched(headers, View(nodes), Elements(add) - nodes.Keys);
      AddArticles(add);
      ViewIsForest(View(nodes), headers);
      RemoveArticles(set x | x in remove);
      pass, fail := add, remove;
    }

    /**
     set_filter: after it the tree shows exactly the articles the filter and the show mode stand for, whatever it
     showed before.
     */
    method SetFilter(show: ShowType, filter: Filter)
      requires Valid()
      modifies this, nodes.Values
      ensures Valid() && headers == old(headers) && fresh(nodes.Values - old(nodes.Values))
      ensures this.show == show && this.filter == filter && this.rules == old(this.rules)
      ensures forall x :: x in nodes <==> Wanted(headers, show, filter, x)
    {
      hide View, Replay, WellKeyed, ParentsOf, Wanted, Selected, Linked;
      ViewShows(View(nodes), headers);
      ViewKeys(nodes);
      this.show, this.filter := show, filter;
      var candidates := InOrder((set x | x in headers && headers[x].article.Some?), midOrder);
      ghost var shown := nodes.Keys;
      ghost var pass, fail := ApplyFilter(candidates);
      AllCandidates(headers, show, filter, candidates, pass, fail, shown);
    }

    /** apply_rules: takes out of the view what the rules single out, for the candidates given. */
    method ApplyRules(candidates: seq<Mid>)
      requires Valid() && forall x :: x in candidates ==> x in headers
      modifies `nodes, `published, nodes.Values
      ensures Valid() && nodes.Values <= old(nodes.Values)
      ensures nodes.Keys == old(nodes.Keys) - RuledOut(headers, show, rules, Elements(candidates))
    {
      hide View, Replay, IsViewOf, WellKeyed, ParentsOf, Linked, Acyclic, RuledOut;
      ViewIsForest(View(nodes), headers);
      var mids := RuleOut(headers, show, rules, candidates);
      RemoveArticles(mids);
    }

    /**
     add_articles for the ids of arriving articles: the rules first, then the filter. The rules only take out what is
     shown already, so an arriving article that passes the filter is shown whatever the rules say of it.
     */
    method ArticlesArrive(candidates: seq<Mid>) returns (ghost pass: seq<Mid>, ghost fail: seq<Mid>)
      requires Valid() && Ascending(candidates, midOrder)
      requires forall x :: x in candidates ==>
        x in headers && (filter.empty && show == ShowArticles ==> headers[x].article.Some?)
      modifies this, nodes.Values
      ensures Valid() && headers == old(headers) && show == old(show) && filter == old(filter) && rules == old(rules)
      ensures Selected(headers, show, filter, candidates, pass, fail)
      ensures nodes.Keys == old(nodes.Keys) - RuledOut(headers, show, old(rules), Elements(candidates))
                            + Elements(pass) - Elements(fail)
      ensures show == ShowArticles ==> forall x :: x in candidates && Passes(headers, filter, x) ==> x in nodes
    {
      hide View, Replay, IsViewOf, WellKeyed, ParentsOf, Linked, Acyclic, RuledOut;
      ApplyRules(candidates);
      pass, fail := ApplyFilter(candidates);
      PassingStay(headers, show, filter, candidates, pass, fail);
    }

    /** set_rules: after it the tree shows what it showed before but for the articles that fail the rules. */
    method SetRules(show: ShowType, rules: RuleTest)
      requires Valid()
      modifies this, nodes.Values
      ensures Valid() && headers == old(headers) && filter == old(filter) && nodes.Values <= old(nodes.Values)
      ensures this.show == show && this.rules == rules
      ensures forall x :: x in nodes ==>
        x in old(nodes) && x in headers && headers[x].article.Some? && rules(headers[x].article.value)
      ensures forall x :: x in old(nodes) && x in headers && headers[x].article.Some? ==>
        rules(headers[x].article.value) ==> x in nodes
      ensures forall x :: x in nodes <==> x in old(nodes) && !Fails(headers, rules, x)
    {
      hide View, Replay, WellKeyed, ParentsOf, IsViewOf, Linked, Acyclic, RuledOut, Fails;
      ViewKeys(nodes);
      ShownPass(View(nodes), headers, rules);
      this.show, this.rules := show, rules;
      var candidates := InOrder((set x | x in headers && headers[x].article.Some?), midOrder);
      assert Elements(candidates) == AllArticles(headers);
      forall x ensures x in RuledOut(headers, show, rules, AllArticles(headers)) <==> Fails(headers, rules, x) {
        AllRuledOut(headers, show, rules, x);
      }
      ApplyRules(candidates);
    }

    /** A new tree node for the article of the canonical node x, not yet linked to anything. */
    method InsertNode(x: Mid, article: Article)
      requires WellKeyed(nodes) && x !in nodes
      modifies this`nodes
      ensures WellKeyed(nodes) && View(nodes) == old(View(nodes))[x := Node(Some(article), None, [])]
      ensures nodes.Keys == old(nodes).Keys + {x} && fresh(nodes.Values - old(nodes.Values))
      ensures forall k :: k in old(nodes) ==> nodes[k] == old(nodes)[k]
    {
      var n := new ArticleNode(x);
      n.article := Some(article);
      ghost var before := nodes;
      nodes := nodes[x := n];
      assert forall k :: k in before ==> before[k] in old(nodes.Values);
      hide View, Mids;
      assert WellKeyed(nodes) by {
        forall k | k in nodes && nodes[k].parent != null ensures IsEntry(nodes, nodes[k].parent) {
          assert k in before;
          assert IsEntry(before, before[k].parent);
        }
        forall k, i | k in nodes && 0 <= i < |nodes[k].children| ensures IsEntry(nodes, nodes[k].children[i]) {
          assert k in before;
          assert IsEntry(before, before[k].children[i]);
        }
      }
      assert nodes.Values <= before.Values + {n};
      assert View(before) == old(View(nodes));
      ViewGrows(before, nodes, n);
    }

    /** New tree nodes for all articles in the list. */
    method InsertNodes(list: seq<Mid>)
      requires WellKeyed(nodes) && Distinct(list) && Elements(list) !! nodes.Keys
      requires forall x :: x in list ==> x in headers && headers[x].article.Some?
      modifies this`nodes
      ensures WellKeyed(nodes) && nodes.Keys == old(nodes).Keys + Elements(list)
      ensures View(nodes) == Inserted(headers, old(View(nodes)), Elements(list))
      ensures fresh(nodes.Values - old(nodes.Values))
    {
      hide View, WellKeyed, Inserted;
      ghost var start := View(nodes);
      assert list[..0] == [];
      InsertedNone(headers, start);
      for i := 0 to |list|
        invariant WellKeyed(nodes) && nodes.Keys == old(nodes).Keys + Elements(list[..i])
        invariant Elements(list[..i]) <= headers.Keys && View(nodes) == Inserted(headers, start, Elements(list[..i]))
        invariant fresh(nodes.Values - old(nodes.Values))
      {
        assert list[i] in list;
        DistinctGrows(list, i);
        InsertedMore(headers, start, Elements(list[..i]), list[i]);
        InsertNode(list[i], headers[list[i]].article.value);
      }
      assert list[..|list|] == list;
    }

    /**
     add_articles: shows the articles of the canonical nodes in the list, each under its nearest shown ancestor, and
     moves what is shown below them. Then the tree is a view exactly when every other node shown hung right before.
     */
    method AddArticles(list: seq<Mid>)
      requires Intact() && Distinct(list) && forall x :: x in list ==> x in headers && headers[x].article.Some?
      modifies `nodes, `published, nodes.Values
      ensures Intact() && nodes.Keys == old(nodes.Keys) + Elements(list) && fresh(nodes.Values - old(nodes.Values))
      ensures Valid() <==> Untouched(headers, old(View(nodes)), Elements(list) - old(nodes.Keys))
      ensures published == old(published) + Records(ParentsOf(old(View(nodes))), ParentsOf(View(nodes)))
    {
      hide View, WellKeyed, WellThreaded, IsViewOf, Shows, Settling, Inserted, Replay, Changes, ParentsOf, Due, Rehung,
        BelowAny, Distinct, Injective, Ascending, Records, Untouched;
      ghost var start := View(nodes);
      ViewKeys(nodes);
      var toAdd := NotYetShown(list, nodes.Keys, midOrder);
      ghost var n := Elements(toAdd);
      InsertStarts(headers, start, n);
      InsertNodes(toAdd);
      var added, reparented, looked := ThreadAdded(headers, nodes, toAdd, midOrder, nodeOrder, start);
      ghost var g := View(nodes);
      AdditionSettles(headers, start, n, looked, g);
      ReplayRecords(published, ParentsOf(start), ParentsOf(g));
      RecordOrNone(ParentsOf(start), ParentsOf(g));
      Publish(Diffs(added, reparented, {}));
    }
  }

  lemma ShownPass(t: Graph, h: Graph, rules: RuleTest)
    requires Shows(t, h)
    ensures forall x :: x in t ==>
      x in h && h[x].article.Some? && (!Fails(h, rules, x) <==> rules(h[x].article.value))
  {
  }

  lemma PassingStay(h: Graph, show: ShowType, filter: Filter, candidates: seq<Mid>, pass: seq<Mid>, fail: seq<Mid>)
    requires WellThreaded(h) && forall x :: x in candidates ==> x in h
    requires Selected(h, show, filter, candidates, pass, fail)
    ensures show == ShowArticles ==>
      forall x :: x in candidates && Passes(h, filter, x) ==> x in Elements(pass) && x !in Elements(fail)
  {
    hide WellThreaded;
  }

  lemma NothingBelowNothing(h: Graph, t: Graph)
    requires WellThreaded(h) && Shows(t, h)
    ensures IsViewOf(t, h) <==> Untouched(h, t, {})
  {
    hide Linked, Nearest;
    assert BelowAny(h, {}) == {};
    ViewHangs(h, t);
  }

  lemma ShowsForest(t: Graph, h: Graph)
    requires Shows(t, h)
    ensures Acyclic(ParentsOf(t)) <==> WellThreaded(t)
    ensures forall x :: x in t ==> t[x].article.Some?
  {
  }

  lemma ViewGrows(before: NodeMap, after: NodeMap, n: ArticleNode)
    requires after == before[n.mid := n] && n.mid !in before && n.parent == null && n.children == []
    ensures View(after) == View(before)[n.mid := Node(n.article, None, [])]
  {
  }

  lemma RecordOrNone(p: Parents, p': Parents)
    ensures MyTree.Records(p, p') == if Changes(p, p') == NO_DIFFS then [] else [Changes(p, p')]
  {
    NoChanges(p, p');
  }

  lemma InsertedNone(h: Graph, start: Graph)
    ensures Elements<Mid>([]) == {} && Inserted(h, start, {}) == start
  {
  }

  lemma InsertedMore(h: Graph, start: Graph, s: set<Mid>, x: Mid)
    requires s <= h.Keys && x in h && h[x].article.Some?
    ensures Inserted(h, start, s + {x}) == Inserted(h, start, s)[x := Node(Some(h[x].article.value), None, [])]
  {
  }

  /** The record an addition publishes is exact. */
  lemma AdditionRecord(h: Graph, start: Graph, added: set<Mid>, looked: set<Mid>, g: Graph)
    requires WellThreaded(h) && Settling(h, start, added, added + looked, g)
    requires start.Keys !! added && added <= h.Keys
    ensures Changes(ParentsOf(start), ParentsOf(g)) == Diffs(Due(h, added, g.Keys), Rehung(h, start, added, looked), {})
  {
    hide WellThreaded, Nearest, Changes, Due, Rehung, Linked;
    RecordParts(h, start, added, looked, g);
  }

  /**
   Once all is settled the record is exact, and the tree is a view exactly when the nodes that were not looked at hung
   where they belong.
   */
  lemma AdditionSettles(h: Graph, start: Graph, added: set<Mid>, looked: set<Mid>, g: Graph)
    requires WellThreaded(h) && Shows(start, h) && Settling(h, start, added, added + looked, g)
    requires start.Keys !! added && added <= h.Keys
    requires BelowAny(h, added) * start.Keys <= looked <= BelowAny(h, added) * (start.Keys + added)
    ensures g.Keys == start.Keys + added && Shows(g, h)
    ensures IsViewOf(g, h) <==> Untouched(h, start, added)
    ensures Changes(ParentsOf(start), ParentsOf(g)) == Diffs(Due(h, added, g.Keys), Rehung(h, start, added, looked), {})
  {
    hide WellThreaded, IsViewOf, Settling, BelowAny, Nearest, Changes, Due, Rehung, ParentsOf, Shows, Untouched;
    SettlingKeys(h, start, added, added + looked, g);
    assert added + looked == added + BelowAny(h, added) * start.Keys;
    SettledIsView(h, start, added, added + looked, g);
    AdditionRecord(h, start, added, looked, g);
  }

  lemma RecordParts(h: Graph, start: Graph, added: set<Mid>, looked: set<Mid>, g: Graph)
    requires WellThreaded(h) && g.Keys == start.Keys + added && start.Keys !! added && g.Keys <= h.Keys
    requires forall x :: x in g ==> g[x].parent == SettlingParent(h, start, added, added + looked, x)
    ensures Changes(ParentsOf(start), ParentsOf(g)) == Diffs(Due(h, added, g.Keys), Rehung(h, start, added, looked), {})
  {
    RecordAdded(h, start, added, looked, g);
    RecordReparented(h, start, added, looked, g);
    assert Changes(ParentsOf(start), ParentsOf(g)).removed == {};
    hide Changes, Due, Rehung, ParentsOf;
  }

  lemma RecordAdded(h: Graph, start: Graph, added: set<Mid>, looked: set<Mid>, g: Graph)
    requires WellThreaded(h) && g.Keys == start.Keys + added && start.Keys !! added && g.Keys <= h.Keys
    requires forall x :: x in g ==> g[x].parent == SettlingParent(h, start, added, added + looked, x)
    ensures Changes(ParentsOf(start), ParentsOf(g)).added == Due(h, added, g.Keys)
  {
    hide Nearest, WellThreaded;
  }

  lemma RecordReparented(h: Graph, start: Graph, added: set<Mid>, looked: set<Mid>, g: Graph)
    requires WellThreaded(h) && g.Keys == start.Keys + added && start.Keys !! added && g.Keys <= h.Keys
    requires forall x :: x in g ==> g[x].parent == SettlingParent(h, start, added, added + looked, x)
    ensures Changes(ParentsOf(start), ParentsOf(g)).reparented == Rehung(h, start, added, looked)
  {
    hide Nearest, WellThreaded;
  }

  // Nothing is a view of anything. (One map comprehension per lemma keeps the verifier's empty maps apart.)

  lemma EmptyView(nodes: NodeMap)
    requires nodes == map[]
    ensures WellKeyed(nodes) && View(nodes) == map[]
  {
  }

  lemma EmptyParents()
    ensures ParentsOf(map[]) == map[]
  {
  }

  lemma NothingProjected(c: Parents)
    requires Acyclic(c)
    ensures Projected(c, {}) == map[]
  {
  }

  lemma NothingLinked()
    ensures Linked(map[])
  {
  }

  lemma ViewShows(t: Graph, h: Graph)
    requires WellThreaded(h) && IsViewOf(t, h)
    ensures t.Keys <= AllArticles(h)
  {
  }

  /** The record a removal publishes is exact. */
  lemma RemovalRecord(start: Graph, gone: set<Mid>, done: Graph)
    requires WellThreaded(start) && gone <= start.Keys
    requires Reparenting(start, gone, start.Keys, done)
    ensures Changes(ParentsOf(start), ParentsOf(done - gone)) == Diffs(map[], Orphaned(start, gone), gone)
  {
    hide WellThreaded, IsViewOf, Nearest, ReparentedNode, Changes, Orphaned, Reparenting;
    ParentsAfterRemoval(start, gone, done);
    var p' := ParentsOf(done - gone);
    SurvivorsReparented(start, gone, p');
    NoneAdded(start, gone, p');
    hide ParentsOf;
  }

  lemma ParentsAfterRemoval(start: Graph, gone: set<Mid>, done: Graph)
    requires WellThreaded(start) && gone <= start.Keys && Reparenting(start, gone, start.Keys, done)
    ensures var p' := ParentsOf(done - gone);
      p'.Keys == start.Keys - gone
      && forall x :: x in p' ==> p'[x] == Nearest(ParentsOf(start), x, start.Keys - gone)
  {
    hide Linked, Nearest;
    var p' := ParentsOf(done - gone);
    forall x | x in p' ensures p'[x] == Nearest(ParentsOf(start), x, start.Keys - gone) {
      assert ReparentedNode(start, gone, start.Keys, x, done[x]);
    }
  }

  lemma SurvivorsReparented(start: Graph, gone: set<Mid>, p': Parents)
    requires WellThreaded(start) && p'.Keys == start.Keys - gone
    requires forall x :: x in p' ==> p'[x] == Nearest(ParentsOf(start), x, start.Keys - gone)
    ensures Changes(ParentsOf(start), p').reparented == Orphaned(start, gone)
  {
    forall x | x in p'
      ensures start[x].parent != p'[x] <==> start[x].parent.Some? && start[x].parent.value in gone
    {
      if start[x].parent.Some? { ParentPresent(start, x); }
    }
    hide Nearest, WellThreaded;
  }

  lemma NoneAdded(start: Graph, gone: set<Mid>, p': Parents)
    requires gone <= start.Keys && p'.Keys == start.Keys - gone
    ensures Changes(ParentsOf(start), p').added == map[] && Changes(ParentsOf(start), p').removed == gone
  {
  }

  /** Without the removed nodes the map is still well keyed, because no pointer leads to them any more. */
  lemma EraseNodes(nodes: NodeMap, gone: set<Mid>, h: Graph)
    requires WellKeyed(nodes) && Shows(View(nodes) - gone, h)
    ensures WellKeyed(nodes - gone) && View(nodes - gone) == View(nodes) - gone
  {
    hide WellThreaded;
    var kept, e := nodes - gone, View(nodes) - gone;
    forall m | m in kept && kept[m].parent != null ensures IsEntry(kept, kept[m].parent) {
      assert e[m].parent == Some(kept[m].parent.mid);
      LinkedParentPresent(e, m);
    }
    forall m, i | m in kept && 0 <= i < |kept[m].children| ensures IsEntry(kept, kept[m].children[i]) {
      assert e[m].children[i] == kept[m].children[i].mid;
      assert OnList(e, m, e[m].children[i]) <==> HangsUnder(e, e[m].children[i], m);
    }
  }
}
