/** Parent maps: which node hangs under which, and when the links form a forest. */
module Forest {
  import opened Prelude

  /** For each node, its parent, or None for a root. */
  type Parents = map<Mid, Option<Mid>>

  /** rank falls along every parent link, so no chain of parents can come back to its start. */
  ghost predicate Ranked(p: Parents, rank: map<Mid, nat>) {
    && p.Keys <= rank.Keys
    && forall x :: x in p && p[x].Some? ==> p[x].value in p && rank[p[x].value] < rank[x]
  }

  ghost predicate Acyclic(p: Parents) {
    exists rank :: Ranked(p, rank)
  }

  ghost function RankOf(p: Parents): (rank: map<Mid, nat>)
    requires Acyclic(p)
    ensures Ranked(p, rank)
  {
    var rank :| Ranked(p, rank); rank
  }

  /** The proper ancestors of x, nearest first. */
  ghost function Ancestors(p: Parents, x: Mid): (a: seq<Mid>)
    requires Acyclic(p) && x in p
    ensures forall i :: 0 <= i < |a| ==> a[i] in p && RankOf(p)[a[i]] < RankOf(p)[x]
    decreases RankOf(p)[x]
  {
    if p[x].None? then [] else [p[x].value] + Ancestors(p, p[x].value)
  }

  ghost predicate IsAncestor(p: Parents, a: Mid, x: Mid)
    requires Acyclic(p) && x in p
  {
    a in Ancestors(p, x)
  }

  ghost predicate AncestorOrSelf(p: Parents, a: Mid, x: Mid)
    requires Acyclic(p) && x in p
  {
    a == x || IsAncestor(p, a, x)
  }

  /** In a forest no node is reached from itself, so "ancestor" is a strict order. */
  lemma NotOwnAncestor(p: Parents, x: Mid)
    requires Acyclic(p) && x in p
    ensures !IsAncestor(p, x, x)
  {
  }

  /** What follows an ancestor in a chain is that ancestor's own chain. */
  lemma {:induction false} ChainSuffix(p: Parents, x: Mid, i: nat)
    requires Acyclic(p) && x in p && i < |Ancestors(p, x)|
    ensures Ancestors(p, x)[i + 1..] == Ancestors(p, Ancestors(p, x)[i])
    decreases i
  {
    if i > 0 {
      ChainSuffix(p, p[x].value, i - 1);
    }
  }

  lemma AncestorTransitive(p: Parents, a: Mid, b: Mid, x: Mid)
    requires Acyclic(p) && x in p && b in p
    requires IsAncestor(p, a, b) && IsAncestor(p, b, x)
    ensures IsAncestor(p, a, x)
  {
    var i :| 0 <= i < |Ancestors(p, x)| && Ancestors(p, x)[i] == b;
    ChainSuffix(p, x, i);
    assert a in Ancestors(p, x)[i + 1..];
  }

  lemma EmptyAcyclic()
    ensures Acyclic(map[])
  {
    var none: map<Mid, nat> := map[];
    assert Ranked(map[], none);
  }

  /** Making x a root, whether it is new or had a parent, keeps a forest. */
  lemma RootAcyclic(p: Parents, x: Mid)
    requires Acyclic(p)
    ensures Acyclic(p[x := None])
  {
    var rank := RankOf(p);
    assert Ranked(p[x := None], if x in rank then rank else rank[x := 0]);
  }

  /** Hanging a root x under q keeps a forest when x is neither q nor above q. */
  lemma LinkAcyclic(p: Parents, x: Mid, q: Mid)
    requires Acyclic(p) && x in p && q in p && p[x].None?
    requires !AncestorOrSelf(p, x, q)
    ensures Acyclic(p[x := Some(q)])
  {
    var rank := RankOf(p);
    var lift := rank[q] + 1;
    var rank' := map y | y in p :: if AncestorOrSelf(p, x, y) then rank[y] + lift else rank[y];
    assert Ranked(p[x := Some(q)], rank');
  }
}
