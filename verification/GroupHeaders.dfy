/** The canonical thread graph of a group, as heap nodes that load_article relinks in place. */
module GroupHeaders {
  import opened Prelude
  import opened Forest
  import opened References
  import opened Threading
  import opened ThreadingLaws
  import opened Nodes

  // ---------------------------------------------------------------- following parent pointers

  /** Following parents from x meets target or runs out within fuel + 1 links, loop or no loop. */
  ghost predicate WalkEnds(p: Parents, x: Mid, target: Mid, fuel: nat)
    decreases fuel
  {
    x in p && p[x].Some? && p[x].value != target ==>
      fuel > 0 && p[x].value in p && WalkEnds(p, p[x].value, target, fuel - 1)
  }

  /** Whether following parents from x meets target. */
  ghost predicate Meets(p: Parents, x: Mid, target: Mid, fuel: nat)
    requires WalkEnds(p, x, target, fuel)
    decreases fuel
  {
    x in p && p[x].Some? && (p[x].value == target || Meets(p, p[x].value, target, fuel - 1))
  }

  lemma {:induction false} WalkInForest(p: Parents, x: Mid, target: Mid)
    requires Acyclic(p) && x in p
    ensures WalkEnds(p, x, target, RankOf(p)[x])
    ensures Meets(p, x, target, RankOf(p)[x]) <==> IsAncestor(p, target, x)
    decreases RankOf(p)[x]
  {
    if p[x].Some? && p[x].value != target {
      WalkInForest(p, p[x].value, target);
      MoreFuel(p, p[x].value, target, RankOf(p)[p[x].value], RankOf(p)[x] - 1);
    }
  }

  lemma {:induction false} MoreFuel(p: Parents, x: Mid, target: Mid, fuel: nat, more: nat)
    requires WalkEnds(p, x, target, fuel) && fuel <= more
    ensures WalkEnds(p, x, target, more) && (Meets(p, x, target, more) <==> Meets(p, x, target, fuel))
    decreases fuel
  {
    if x in p && p[x].Some? && p[x].value != target {
      MoreFuel(p, p[x].value, target, fuel - 1, more - 1);
    }
  }

  /**
   Right after the root x has been hung under q the graph may have a loop. The walk from a node at or above q in
   search of q still ends, and it finds q exactly when x lies at or above that node.
   */
  lemma {:induction false} WalkAfterLink(p: Parents, x: Mid, q: Mid, y: Mid)
    requires Acyclic(p) && x in p && q in p && y in p && p[x].None? && AncestorOrSelf(p, y, q)
    ensures WalkEnds(p[x := Some(q)], y, q, RankOf(p)[y])
    ensures Meets(p[x := Some(q)], y, q, RankOf(p)[y]) <==> AncestorOrSelf(p, x, y)
    decreases RankOf(p)[y]
  {
    var p' := p[x := Some(q)];
    if y != x && p[y].Some? {
      var z := p[y].value;
      assert IsAncestor(p, z, y);
      if y != q { AncestorTransitive(p, z, y, q); }
      NotOwnAncestor(p, q);
      WalkAfterLink(p, x, q, z);
      MoreFuel(p', z, q, RankOf(p)[z], RankOf(p)[y] - 1);
    }
  }

  /** find_ancestor: the first node above n whose id is target, or null. */
  method FindAncestor(ghost nodes: NodeMap, n: ArticleNode, target: Mid, ghost fuel: nat) returns (r: ArticleNode?)
    requires WellKeyed(nodes) && IsEntry(nodes, n) && WalkEnds(ParentsOf(View(nodes)), n.mid, target, fuel)
    ensures r != null <==> Meets(ParentsOf(View(nodes)), n.mid, target, fuel)
    ensures r != null ==> IsEntry(nodes, r) && r.mid == target
  {
    ghost var p := ParentsOf(View(nodes));
    ghost var left := fuel;
    ghost var at := n.mid;
    r := n.parent;
    while r != null && r.mid != target
      invariant at in p && p[at] == ParentMid(r) && (r != null ==> IsEntry(nodes, r))
      invariant WalkEnds(p, at, target, left)
      invariant Meets(p, n.mid, target, fuel) <==> Meets(p, at, target, left)
      decreases left
    {
      at, left := r.mid, left - 1;
      r := r.parent;
    }
  }

  lemma LinkedParents(g: Graph, x: Mid, q: Option<Mid>)
    requires x in g
    ensures ParentsOf(SetParent(g, x, q)) == ParentsOf(g)[x := q]
  {
  }

  /** Hangs the root n under p, then walks up from p; if that comes back to p the link is taken back. */
  method LinkUnlessLoop(ghost nodes: NodeMap, n: ArticleNode, p: ArticleNode) returns (linked: bool)
    requires WellKeyed(nodes) && IsEntry(nodes, n) && IsEntry(nodes, p) && n.parent == null
    requires Acyclic(ParentsOf(View(nodes))) && p.mid in ParentsOf(View(nodes)) && n.mid in View(nodes)
    modifies n`parent, p`children
    ensures WellKeyed(nodes)
    ensures linked <==> !AncestorOrSelf(ParentsOf(old(View(nodes))), n.mid, p.mid)
    ensures View(nodes) == if linked then PushChild(SetParent(old(View(nodes)), n.mid, Some(p.mid)), p.mid, n.mid)
                           else old(View(nodes))
  {
    hide View, Ancestors, Acyclic, Mids, WellKeyed, WalkEnds, Meets, IsAncestor, ParentsOf;
    ghost var g := View(nodes);
    ghost var parents := ParentsOf(g);
    Seen(nodes, n);
    WriteParent(nodes, n, p);
    LinkedParents(g, n.mid, Some(p.mid));
    WalkAfterLink(parents, n.mid, p.mid, p.mid);
    var loop := FindAncestor(nodes, p, p.mid, RankOf(parents)[p.mid]);
    if loop != null {
      WriteParent(nodes, n, null);
      assert View(nodes) == g;
    } else {
      PushFront(nodes, p, n);
    }
    linked := loop == null;
  }

  // ---------------------------------------------------------------- the headers of one group

  class GroupHeaders {
    var nodes: NodeMap

    ghost predicate Valid()
      reads this, nodes.Values
    {
      WellKeyed(nodes) && WellThreaded(View(nodes))
    }

    constructor ()
      ensures Valid() && nodes == map[] && View(nodes) == map[]
    {
      nodes := map[];
      new;
      EmptyWellThreaded();
    }

    /** _nodes[m], creating a blank node when there is none. */
    method FindOrCreate(m: Mid) returns (n: ArticleNode)
      requires WellKeyed(nodes)
      modifies this
      ensures WellKeyed(nodes) && IsEntry(nodes, n) && n.mid == m
      ensures View(nodes) == Touch(old(View(nodes)), m)
      ensures fresh(nodes.Values - old(nodes.Values))
      ensures forall k :: k in old(nodes) ==> k in nodes && nodes[k] == old(nodes)[k]
    {
      if m in nodes {
        n := nodes[m];
      } else {
        n := new ArticleNode(m);
        ghost var before := nodes;
        nodes := nodes[m := n];
        assert forall k :: k in before ==> before[k] in old(nodes.Values);
        assert WellKeyed(nodes) by {
          forall k | k in nodes && nodes[k].parent != null ensures IsEntry(nodes, nodes[k].parent) {
            assert k in before;
            assert IsEntry(before, before[k].parent);
          }
          forall k, i | k in nodes && 0 <= i < |nodes[k].children| ensures IsEntry(nodes, nodes[k].children[i]) {
            assert k in before;
            assert IsEntry(before, before[k].children[i]);
          }
        }
        assert nodes.Values <= before.Values + {n};
      }
    }

    /**
     Hangs the root n under the node for tok, making that node if need be. Returns the new parent, or null after
     taking the link back because it had closed a loop.
     */
    method AttachTo(n: ArticleNode, tok: Mid) returns (q: ArticleNode?)
      requires Valid() && IsEntry(nodes, n) && n.parent == null
      modifies this, nodes.Values
      ensures Valid() && fresh(nodes.Values - old(nodes.Values))
      ensures View(nodes) == Attach(old(View(nodes)), n.mid, tok).graph
      ensures q == null <==> Attach(old(View(nodes)), n.mid, tok).Halt?
      ensures q != null ==> IsEntry(nodes, q) && q.mid == Attach(old(View(nodes)), n.mid, tok).node
    {
      hide View, Linked, Ancestors, Acyclic, Mids, WellKeyed, AncestorOrSelf;
      ghost var g := View(nodes);
      Seen(nodes, n);
      AttachKeeps(g, n.mid, tok);
      TouchKeeps(g, tok);
      var p := FindOrCreate(tok);
      Seen(nodes, n);
      var linked := LinkUnlessLoop(nodes, n, p);
      q := if linked then p else null;
    }

    /** One References token. Returns where the walk continues, or null to abandon the header. */
    method FollowToken(node: ArticleNode, tok: Mid, rest: string) returns (next: ArticleNode?)
      requires Valid() && IsEntry(nodes, node)
      modifies this, nodes.Values
      ensures Valid() && fresh(nodes.Values - old(nodes.Values))
      ensures View(nodes) == Step(old(View(nodes)), node.mid, tok, rest).graph
      ensures next == null <==> Step(old(View(nodes)), node.mid, tok, rest).Halt?
      ensures next != null ==> IsEntry(nodes, next) && next.mid == Step(old(View(nodes)), node.mid, tok, rest).node
    {
      hide View, Linked, Ancestors, Acyclic, Mids, Attach, Occurs;
      ghost var g := View(nodes);
      Seen(nodes, node);
      var above := node.parent;
      if above != null && above.mid == tok {
        return above;
      }
      if above == null {
        next := AttachTo(node, tok);
        return;
      }
      WalkInForest(ParentsOf(g), node.mid, tok);
      var tmp := FindAncestor(nodes, node, tok, RankOf(ParentsOf(g))[node.mid]);
      if tmp != null {
        return tmp;
      }
      if Occurs(above.mid, rest) {
        UnlinkKeeps(g, node.mid);
        RemoveChild(nodes, above, node);
        WriteParent(nodes, node, null);
        assert View(nodes) == Unlink(g, node.mid);
        next := AttachTo(node, tok);
        return;
      }
      return node;
    }

    /** load_article: threads one article into the graph by its References header. */
    method LoadArticle(article: Article, references: string)
      requires Valid()
      modifies this, nodes.Values
      ensures Valid() && fresh(nodes.Values - old(nodes.Values))
      ensures View(nodes) == Load(old(View(nodes)), article, references)
    {
      hide View, Linked, Acyclic, Mids, Step, WellKeyed;
      ghost var g := View(nodes);
      PopulateKeeps(g, article);
      var node: ArticleNode := FindOrCreate(article.messageId);
      Seen(nodes, node);
      WriteArticle(nodes, node, Some(article));
      Seen(nodes, node);
      assert View(nodes) == Populate(g, article);
      var refs := references;
      while refs != ""
        invariant Valid() && IsEntry(nodes, node) && node.mid in View(nodes)
        invariant fresh(nodes.Values - old(nodes.Values))
        invariant Thread(View(nodes), node.mid, refs) == Load(g, article, references)
        decreases |refs|
      {
        var (rest, raw) := PopLastToken(refs);
        var tok := Trim(raw);
        if IsEmpty(tok) {
          break;
        }
        StepKeeps(View(nodes), node.mid, tok, rest);
        var next := FollowToken(node, tok, rest);
        if next == null {
          break;
        }
        Seen(nodes, next);
        node, refs := next, rest;
      }
    }

    /** build_references_header: the ancestors of x, oldest first, one space apart; nothing for an unknown id. */
    method BuildReferencesHeader(x: Mid) returns (header: string)
      requires Valid()
      ensures header == Printed(View(nodes), x)
    {
      hide View, Linked, Mids, Acyclic, Ancestors;
      header := "";
      ViewKeys(nodes);
      if x !in nodes {
        return;
      }
      ghost var p := ParentsOf(View(nodes));
      var node: ArticleNode := nodes[x];
      Seen(nodes, node);
      ghost var done: seq<Mid> := [];
      while node.parent != null
        invariant IsEntry(nodes, node) && node.mid in p && p[node.mid] == ParentMid(node.parent)
        invariant Path(p, x) == Path(p, node.mid) + done
        invariant header == (if node.parent != null && done != [] then " " else "") + Join(done)
        decreases RankOf(p)[node.mid]
      {
        ghost var child, was := node, done;
        Seen(nodes, node);
        node := node.parent;
        Seen(nodes, node);
        JoinFront(node.mid, was);
        PathNext(p, child.mid);
        done := [node.mid] + was;
        assert Path(p, node.mid) + [node.mid] + was == Path(p, node.mid) + done;
        hide Path, Join;
        header := node.mid + header;
        if node.parent != null {
          header := " " + header;
        }
      }
      assert Path(p, node.mid) == [];
      assert Path(p, x) == done;
    }

    static lemma PathNext(p: Parents, x: Mid)
      requires Acyclic(p) && x in p && p[x].Some?
      ensures p[x].value in p && Path(p, x) == Path(p, p[x].value) + [p[x].value]
    {
    }

    /** remove_articles: the articles go, the nodes and their threading stay. */
    method RemoveArticlesOf(mids: set<Mid>)
      requires Valid()
      modifies nodes.Values
      ensures Valid() && View(nodes) == RemoveArticles(old(View(nodes)), mids)
    {
      hide View, Linked, Mids, Acyclic, WellKeyed;
      ghost var g := View(nodes);
      RemoveKeeps(g, mids);
      ViewKeys(nodes);
      var left := mids * nodes.Keys;
      while left != {}
        invariant WellKeyed(nodes) && left <= mids * nodes.Keys
        invariant g.Keys == nodes.Keys
        invariant View(nodes) == RemoveArticles(g, mids - left)
        decreases left
      {
        var m :| m in left;
        KeyedEntry(nodes, m);
        WriteArticle(nodes, nodes[m], None);
        left := left - {m};
      }
      assert View(nodes) == RemoveArticles(g, mids);
    }
  }

  /** Writing an identifier in front of a printed list. */
  lemma {:induction false} JoinFront(m: Mid, ids: seq<Mid>)
    ensures Join([m] + ids) == m + (if ids == [] then "" else " " + Join(ids))
  {
    if ids != [] {
      var rest := ids[..|ids| - 1];
      JoinFront(m, rest);
      assert ([m] + ids)[..|ids|] == [m] + rest;
    }
  }
}
