/** The filtered view of a thread forest, and the change records that describe how one view became another. */
module Projection {
  import opened Prelude
  import opened Forest

  /** The first ancestor of x that is shown. */
  ghost function Nearest(c: Parents, x: Mid, shown: set<Mid>): (r: Option<Mid>)
    requires Acyclic(c) && x in c
    ensures r.Some? ==> r.value in shown && r.value in c && IsAncestor(c, r.value, x)
    decreases RankOf(c)[x]
  {
    if c[x].None? then None
    else if c[x].value in shown then c[x]
    else
      assert Ancestors(c, x) == [c[x].value] + Ancestors(c, c[x].value);
      Nearest(c, c[x].value, shown)
  }

  /** The forest c seen through the articles shown. */
  ghost function Projected(c: Parents, shown: set<Mid>): Parents
    requires Acyclic(c)
  {
    map x | x in shown && x in c :: Nearest(c, x, shown)
  }

  /**
   The nearest shown ancestor is the shown ancestor that every other shown ancestor is above; None means there is
   none.
   */
  lemma {:induction false} NearestIsNearest(c: Parents, x: Mid, shown: set<Mid>)
    requires Acyclic(c) && x in c
    ensures forall b :: b in shown && b in c && IsAncestor(c, b, x) ==>
      var r := Nearest(c, x, shown); r.Some? && (b == r.value || IsAncestor(c, b, r.value))
    decreases RankOf(c)[x]
  {
    if c[x].Some? {
      assert Ancestors(c, x) == [c[x].value] + Ancestors(c, c[x].value);
      if c[x].value !in shown {
        NearestIsNearest(c, c[x].value, shown);
      }
    }
  }

  lemma ProjectedAcyclic(c: Parents, shown: set<Mid>)
    requires Acyclic(c)
    ensures Acyclic(Projected(c, shown))
  {
    assert Ranked(Projected(c, shown), RankOf(c));
  }

  /** Seen through fewer articles, a view of a view is a view of the forest. */
  lemma {:induction false} NearestInView(c: Parents, x: Mid, shown: set<Mid>, fewer: set<Mid>)
    requires Acyclic(c) && x in c && x in shown && fewer <= shown
    ensures Acyclic(Projected(c, shown)) && Nearest(Projected(c, shown), x, fewer) == Nearest(c, x, fewer)
    decreases RankOf(c)[x]
  {
    ProjectedAcyclic(c, shown);
    NearestSkips(c, x, shown, fewer);
    var q := Nearest(c, x, shown);
    if q.Some? && q.value !in fewer {
      NearestInView(c, q.value, shown, fewer);
    }
  }

  lemma {:induction false} NearestSkips(c: Parents, x: Mid, shown: set<Mid>, fewer: set<Mid>)
    requires Acyclic(c) && x in c && fewer <= shown
    ensures var q := Nearest(c, x, shown);
      Nearest(c, x, fewer) == if q.None? || q.value in fewer then q else Nearest(c, q.value, fewer)
    decreases RankOf(c)[x]
  {
    if c[x].Some? && c[x].value !in shown {
      NearestSkips(c, c[x].value, shown, fewer);
    }
  }

  /** New articles matter only to nodes below them. */
  lemma {:induction false} NearestUnlessBelow(c: Parents, x: Mid, shown: set<Mid>, added: set<Mid>)
    requires Acyclic(c) && x in c
    requires forall a :: a in added && a in c ==> !IsAncestor(c, a, x)
    ensures Nearest(c, x, shown + added) == Nearest(c, x, shown)
    decreases RankOf(c)[x]
  {
    if c[x].Some? {
      assert Ancestors(c, x) == [c[x].value] + Ancestors(c, c[x].value);
      if c[x].value !in shown {
        NearestUnlessBelow(c, c[x].value, shown, added);
      }
    }
  }

  // ---------------------------------------------------------------- change records

  datatype Reparent = Reparent(oldParent: Option<Mid>, newParent: Option<Mid>)

  /** ArticleTree::Diffs, without the list of articles whose content changed. */
  datatype Diffs = Diffs(added: map<Mid, Option<Mid>>, reparented: map<Mid, Reparent>, removed: set<Mid>)

  const NO_DIFFS := Diffs(map[], map[], {})

  /** How a listener that keeps a parent map updates it from one record. */
  function ApplyDiffs(p: Parents, d: Diffs): Parents {
    map x | x in p.Keys + d.added.Keys && x !in d.removed ::
      if x in d.reparented then d.reparented[x].newParent
      else if x in d.added then d.added[x]
      else if x in p then p[x] else None
  }

  /** The record that says exactly what differs between two parent maps. */
  ghost function Changes(p: Parents, p': Parents): Diffs {
    Diffs(map x | x in p' && x !in p :: p'[x],
          map x | x in p' && x in p && p[x] != p'[x] :: Reparent(p[x], p'[x]),
          p.Keys - p'.Keys)
  }

  /**
   What the record says of a node: the parent it came under; or its old parent and its new one; or that it is gone.
   */
  lemma ChangesSay(p: Parents, p': Parents, x: Mid)
    ensures var d := Changes(p, p');
      && (x in d.added <==> x in p' && x !in p) && (x in d.removed <==> x in p && x !in p')
      && (x in d.reparented <==> x in p && x in p' && p[x] != p'[x])
      && (x in d.added ==> d.added[x] == p'[x])
      && (x in d.reparented ==> d.reparented[x].oldParent == p[x] && d.reparented[x].newParent == p'[x])
  {
  }

  /** A listener that applies the exact record ends up with the new map. */
  lemma ChangesLeadThere(p: Parents, p': Parents)
    ensures ApplyDiffs(p, Changes(p, p')) == p'
  {
  }

  lemma NoChanges(p: Parents, p': Parents)
    ensures Changes(p, p') == NO_DIFFS <==> p == p'
  {
    ChangesLeadThere(p, p');
    assert ApplyDiffs(p, NO_DIFFS) == p;
  }

  /** What a listener holds after all records so far, starting from nothing. */
  ghost function Replay(log: seq<Diffs>): Parents {
    if log == [] then map[] else ApplyDiffs(Replay(log[..|log| - 1]), log[|log| - 1])
  }

  lemma ReplayAppend(log: seq<Diffs>, d: Diffs)
    ensures Replay(log + [d]) == ApplyDiffs(Replay(log), d)
  {
    assert (log + [d])[..|log|] == log;
  }
}
