/** Tree nodes on the heap, looked up by Message-ID, and the graph value they stand for. */
module Nodes {
  import opened Prelude
  import opened Threading
  import opened ViewUpdates

  class ArticleNode {
    const mid: Mid
    var article: Option<Article>
    var parent: ArticleNode?
    var children: seq<ArticleNode>

    constructor (mid: Mid)
      ensures this.mid == mid && article == None && parent == null && children == []
    {
      this.mid := mid;
      article, parent, children := None, null, [];
    }
  }

  type NodeMap = map<Mid, ArticleNode>

  ghost predicate IsEntry(nodes: NodeMap, n: ArticleNode) {
    n.mid in nodes && nodes[n.mid] == n
  }

  /** Every node is stored under its own id, and pointers lead only to stored nodes. */
  ghost predicate WellKeyed(nodes: NodeMap)
    reads nodes.Values
  {
    && (forall m :: m in nodes ==> nodes[m].mid == m)
    && (forall m :: m in nodes && nodes[m].parent != null ==> IsEntry(nodes, nodes[m].parent))
    && (forall m, i :: m in nodes && 0 <= i < |nodes[m].children| ==> IsEntry(nodes, nodes[m].children[i]))
  }

  function Mids(s: seq<ArticleNode>): (r: seq<Mid>)
    ensures |r| == |s| && forall i :: 0 <= i < |s| ==> r[i] == s[i].mid
  {
    seq(|s|, i requires 0 <= i < |s| => s[i].mid)
  }

  function ParentMid(q: ArticleNode?): Option<Mid> {
    if q == null then None else Some(q.mid)
  }

  /** The graph the heap nodes stand for. */
  ghost function View(nodes: NodeMap): Graph
    reads nodes.Values
  {
    map m | m in nodes :: Node(nodes[m].article, ParentMid(nodes[m].parent), Mids(nodes[m].children))
  }

  lemma ViewKeys(nodes: NodeMap)
    ensures View(nodes).Keys == nodes.Keys
  {
  }

  lemma KeyedEntry(nodes: NodeMap, m: Mid)
    requires WellKeyed(nodes) && m in nodes
    ensures IsEntry(nodes, nodes[m]) && nodes[m].mid == m
  {
  }

  /** What a stored node contributes to the graph. */
  lemma Seen(nodes: NodeMap, n: ArticleNode)
    requires WellKeyed(nodes) && IsEntry(nodes, n)
    ensures View(nodes).Keys == nodes.Keys
    ensures n.mid in View(nodes) && View(nodes)[n.mid].parent == ParentMid(n.parent)
    ensures View(nodes)[n.mid].article == n.article
    ensures View(nodes)[n.mid].children == Mids(n.children)
    ensures n.parent != null ==> IsEntry(nodes, n.parent)
    ensures n.mid in ParentsOf(View(nodes)) && ParentsOf(View(nodes))[n.mid] == ParentMid(n.parent)
  {
  }

  function Remove(s: seq<ArticleNode>, x: ArticleNode): (r: seq<ArticleNode>)
    ensures forall y :: y in r ==> y in s
  {
    if s == [] then [] else (if s[0] == x then [] else [s[0]]) + Remove(s[1..], x)
  }

  lemma MidsPrepend(n: ArticleNode, s: seq<ArticleNode>)
    ensures Mids([n] + s) == [n.mid] + Mids(s)
  {
  }

  /** Removing a pointer from a list of stored nodes removes its id from the list of ids. */
  lemma {:induction false} RemoveMids(nodes: NodeMap, s: seq<ArticleNode>, x: ArticleNode)
    requires IsEntry(nodes, x) && forall i :: 0 <= i < |s| ==> IsEntry(nodes, s[i])
    ensures Mids(Remove(s, x)) == Without(Mids(s), x.mid)
  {
    if s != [] {
      RemoveMids(nodes, s[1..], x);
      assert Mids(s)[1..] == Mids(s[1..]);
      assert IsEntry(nodes, s[0]);
      MidsPrepend(s[0], Remove(s[1..], x));
      hide Mids;
    }
  }

  // ---------------------------------------------------------------- pointer updates, seen as graph updates

  method WriteParent(ghost nodes: NodeMap, n: ArticleNode, q: ArticleNode?)
    requires WellKeyed(nodes) && IsEntry(nodes, n) && (q != null ==> IsEntry(nodes, q))
    modifies n`parent
    ensures WellKeyed(nodes) && View(nodes) == SetParent(old(View(nodes)), n.mid, ParentMid(q))
    ensures n.parent == q
  {
    n.parent := q;
  }

  method WriteArticle(ghost nodes: NodeMap, n: ArticleNode, a: Option<Article>)
    requires WellKeyed(nodes) && IsEntry(nodes, n)
    modifies n`article
    ensures WellKeyed(nodes)
    ensures View(nodes) == old(View(nodes))[n.mid := old(View(nodes))[n.mid].(article := a)]
  {
    n.article := a;
  }

  method PushFront(ghost nodes: NodeMap, q: ArticleNode, n: ArticleNode)
    requires WellKeyed(nodes) && IsEntry(nodes, n) && IsEntry(nodes, q)
    modifies q`children
    ensures WellKeyed(nodes) && View(nodes) == PushChild(old(View(nodes)), q.mid, n.mid)
  {
    assert Mids([n] + q.children) == [n.mid] + Mids(q.children);
    q.children := [n] + q.children;
  }

  method RemoveChild(ghost nodes: NodeMap, q: ArticleNode, n: ArticleNode)
    requires WellKeyed(nodes) && IsEntry(nodes, n) && IsEntry(nodes, q)
    modifies q`children
    ensures WellKeyed(nodes) && View(nodes) == DropChild(old(View(nodes)), q.mid, n.mid)
  {
    assert forall i :: 0 <= i < |q.children| ==> IsEntry(nodes, nodes[q.mid].children[i]);
    RemoveMids(nodes, q.children, n);
    forall i | 0 <= i < |Remove(q.children, n)| ensures IsEntry(nodes, Remove(q.children, n)[i]) {
      assert Remove(q.children, n)[i] in q.children;
    }
    q.children := Remove(q.children, n);
  }

  method PushBack(ghost nodes: NodeMap, q: ArticleNode, n: ArticleNode)
    requires WellKeyed(nodes) && IsEntry(nodes, n) && IsEntry(nodes, q)
    modifies q`children
    ensures WellKeyed(nodes) && View(nodes) == AppendChild(old(View(nodes)), q.mid, n.mid)
  {
    assert Mids(q.children + [n]) == Mids(q.children) + [n.mid];
    q.children := q.children + [n];
  }

  lemma MidsAppend(s: seq<ArticleNode>, n: ArticleNode)
    ensures Mids(s + [n]) == Mids(s) + [n.mid]
  {
  }

  /** The nodes of list whose id is not in gone, copied over one by one. */
  method NodesOutside(list: seq<ArticleNode>, gone: set<Mid>) returns (kids: seq<ArticleNode>)
    ensures Mids(kids) == Outside(Mids(list), gone)
    ensures forall n :: n in kids ==> n in list
  {
    kids := [];
    for k := 0 to |list|
      invariant forall n :: n in kids ==> n in list
      invariant Mids(kids) == Outside(Mids(list[..k]), gone)
    {
      hide Mids, Outside;
      OutsideAppend(Mids(list[..k]), list[k].mid, gone);
      MidsAppend(list[..k], list[k]);
      assert list[..k + 1] == list[..k] + [list[k]];
      if list[k].mid !in gone {
        MidsAppend(kids, list[k]);
        kids := kids + [list[k]];
      }
    }
    assert list[..|list|] == list;
  }

  /** Swaps q's list for the part of it outside gone. */
  method KeepChildren(ghost nodes: NodeMap, q: ArticleNode, gone: set<Mid>)
    requires WellKeyed(nodes) && IsEntry(nodes, q)
    modifies q`children
    ensures WellKeyed(nodes) && View(nodes) == Prune(old(View(nodes)), {q.mid}, gone)
  {
    hide Outside;
    var kids := NodesOutside(q.children, gone);
    assert forall i :: 0 <= i < |q.children| ==> IsEntry(nodes, nodes[q.mid].children[i]);
    forall i | 0 <= i < |kids| ensures IsEntry(nodes, kids[i]) {
      assert kids[i] in q.children;
    }
    q.children := kids;
  }

  lemma {:induction false} OutsideAppend(s: seq<Mid>, x: Mid, gone: set<Mid>)
    ensures Outside(s + [x], gone) == Outside(s, gone) + if x in gone then [] else [x]
  {
    if s != [] {
      OutsideAppend(s[1..], x, gone);
      assert (s + [x])[1..] == s[1..] + [x];
    }
  }
}
