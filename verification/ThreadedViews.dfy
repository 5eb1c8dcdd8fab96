/** A view of the thread graph while headers are loaded under it: full headers never spoil it, trimmed ones can. */
module ThreadedViews {
  import opened Prelude
  import opened Forest
  import opened References
  import opened Threading
  import opened ThreadingLaws
  import opened Projection
  import opened ViewUpdates

  // ---------------------------------------------------------------- articles stay

  /** Old nodes keep their articles, and new nodes have none. */
  ghost predicate KeepsArticles(g: Graph, h: Graph) {
    (forall y :: y in g ==> y in h && h[y].article == g[y].article)
    && forall y :: y in h && y !in g ==> h[y].article.None?
  }

  lemma KeepsTransitive(g: Graph, h: Graph, k: Graph)
    requires KeepsArticles(g, h) && KeepsArticles(h, k)
    ensures KeepsArticles(g, k)
  {
  }

  lemma AttachArticles(g: Graph, x: Mid, tok: Mid)
    requires WellThreaded(g) && x in g && g[x].parent.None?
    ensures KeepsArticles(g, Attach(g, x, tok).graph)
  {
    AttachKeeps(g, x, tok);
    TouchKeeps(g, tok);
    hide WellThreaded;
  }

  lemma StepArticles(g: Graph, node: Mid, tok: Mid, rest: string)
    requires WellThreaded(g) && node in g
    ensures KeepsArticles(g, Step(g, node, tok, rest).graph)
  {
    hide WellThreaded, Attach, IsAncestor, Occurs, Without;
    if g[node].parent.None? {
      AttachArticles(g, node, tok);
    } else {
      UnlinkKeeps(g, node);
      AttachArticles(Unlink(g, node), node, tok);
    }
  }

  lemma {:induction false} ThreadArticles(g: Graph, node: Mid, refs: string)
    requires WellThreaded(g) && node in g
    ensures KeepsArticles(g, Thread(g, node, refs))
    decreases |refs|
  {
    if refs != "" {
      var (rest, raw) := PopLastToken(refs);
      var tok := Trim(raw);
      if !IsEmpty(tok) {
        StepKeeps(g, node, tok, rest);
        StepArticles(g, node, tok, rest);
        var s := Step(g, node, tok, rest);
        hide Step, WellThreaded, PopLastToken, Trim;
        if s.Go? {
          ThreadArticles(s.graph, s.node, rest);
          KeepsTransitive(g, s.graph, Thread(s.graph, s.node, rest));
        }
      }
    }
  }

  /**
   Loading puts the article into its own node, be it new, blank or taken, leaves all other articles, and makes nodes
   without articles for ids that are not there.
   */
  lemma LoadPopulates(g: Graph, article: Article, refs: string)
    requires WellThreaded(g)
    ensures var h, m := Load(g, article, refs), article.messageId;
      && m in h && h[m].article == Some(article)
      && (forall y :: y in g && y != m ==> y in h && h[y].article == g[y].article)
      && forall y :: y in h && y !in g && y != m ==> h[y].article.None?
  {
    hide Thread, WellThreaded;
    PopulateKeeps(g, article);
    ThreadArticles(Populate(g, article), article.messageId, refs);
  }

  /** Loading an article changes no other article, so a tree that does not show it still shows what is there. */
  lemma LoadStillShows(g: Graph, article: Article, refs: string, t: Graph)
    requires WellThreaded(g) && Shows(t, g) && article.messageId !in t
    ensures WellThreaded(Load(g, article, refs)) && Shows(t, Load(g, article, refs))
  {
    hide Load, Linked, Acyclic;
    LoadKeeps(g, article, refs);
    LoadPopulates(g, article, refs);
  }

  // ---------------------------------------------------------------- full headers

  /** Where a forest is only extended the nearest shown ancestors stay. */
  lemma {:induction false} NearestExtended(p: Parents, p': Parents, x: Mid, shown: set<Mid>)
    requires Acyclic(p) && Acyclic(p') && x in p
    requires forall z :: z in p ==> z in p' && p'[z] == p[z]
    ensures Nearest(p', x, shown) == Nearest(p, x, shown)
    decreases RankOf(p)[x]
  {
    if p[x].Some? && p[x].value !in shown {
      NearestExtended(p, p', p[x].value, shown);
    }
  }

  lemma ExactExtends(truth: Parents, g: Graph, g': Graph)
    requires ExactBut(truth, g, None) && ExactBut(truth, g', None) && g.Keys <= g'.Keys
    ensures forall z :: z in ParentsOf(g) ==> z in ParentsOf(g') && ParentsOf(g')[z] == ParentsOf(g)[z]
  {
  }

  /**
   When all headers are full, loading one more leaves every view of the graph a view; so does showing the article then,
   since a view is untouched by what it does not show.
   */
  lemma FullHeadersKeepView(truth: Parents, g: Graph, article: Article, t: Graph)
    requires Acyclic(truth) && AllIdsWellFormed(truth) && WellThreaded(g) && ExactBut(truth, g, None)
    requires article.messageId in truth && article.messageId !in t && IsViewOf(t, g)
    ensures var h := Load(g, article, Join(Path(truth, article.messageId)));
      WellThreaded(h) && ExactBut(truth, h, None) && IsViewOf(t, h) && forall added :: Untouched(h, t, added)
  {
    hide AllIdsWellFormed, Acyclic, Linked, ExactBut, Load, Path, Join, Nearest, Untouched;
    var refs := Join(Path(truth, article.messageId));
    var h := Load(g, article, refs);
    LoadExact(truth, g, article);
    LoadStillShows(g, article, refs, t);
    ExactExtends(truth, g, h);
    ViewHangs(g, t);
    ViewHangs(h, t);
    forall x | x in t ensures Nearest(ParentsOf(h), x, t.Keys) == Nearest(ParentsOf(g), x, t.Keys) {
      NearestExtended(ParentsOf(g), ParentsOf(h), x, t.Keys);
    }
    forall added ensures Untouched(h, t, added) { ViewIsUntouched(h, t, added); }
  }

  // ---------------------------------------------------------------- trimmed headers

  /** A root is hung under another root, or a new node. */
  lemma StepUnderRoot(g: Graph, node: Mid, tok: Mid, rest: string)
    requires WellThreaded(g) && node in g && g[node].parent.None? && tok != node
    requires tok in g ==> g[tok].parent.None?
    ensures var s := Step(g, node, tok, rest);
      && s.Go? && s.node == tok && WellThreaded(s.graph) && s.graph.Keys == g.Keys + {tok}
      && forall y :: y in s.graph ==>
        s.graph[y].parent == if y == node then Some(tok) else if y in g then g[y].parent else None
  {
    StepKeeps(g, node, tok, rest);
    TouchKeeps(g, tok);
    assert ParentsOf(Touch(g, tok))[tok].None?;
    AttachParents(g, node, tok);
  }

  lemma ThreadNext(g: Graph, node: Mid, ids: seq<Mid>)
    requires WellThreaded(g) && node in g && AllWellFormed(ids) && ids != []
    ensures var tok, rest := ids[|ids| - 1], Join(ids[..|ids| - 1]);
      var s := Step(g, node, tok, rest);
      && WellThreaded(s.graph) && (s.Go? ==> s.node in s.graph)
      && Thread(g, node, Join(ids)) == if s.Go? then Thread(s.graph, s.node, rest) else s.graph
  {
    hide Step, WellThreaded, Join;
    PopUndoesJoin(ids);
    TrimKeepsId(ids[|ids| - 1]);
    StepKeeps(g, node, ids[|ids| - 1], Join(ids[..|ids| - 1]));
  }

  lemma ThreadDone(g: Graph, node: Mid)
    requires WellThreaded(g) && node in g
    ensures Thread(g, node, Join([])) == g
  {
  }

  /** Loads the article m with the single reference a into a graph of roots that has neither. */
  lemma LoadUnder(g: Graph, article: Article, a: Mid)
    requires WellThreaded(g) && article.messageId !in g && a !in g && a != article.messageId && WellFormed(a)
    ensures var h := Load(g, article, Join([a]));
      && WellThreaded(h) && h.Keys == g.Keys + {a, article.messageId}
      && forall y :: y in h ==>
        h[y].parent == if y == article.messageId then Some(a) else if y in g then g[y].parent else None
  {
    hide WellThreaded, Step, Thread, Join;
    var p := Populate(g, article);
    PopulateKeeps(g, article);
    assert [a][..0] == [];
    ThreadNext(p, article.messageId, [a]);
    StepUnderRoot(p, article.messageId, a, Join([]));
    ThreadDone(Step(p, article.messageId, a, Join([])).graph, a);
  }

  /** Loads an article that refers to two roots, the second below the first. */
  lemma LoadUnderTwo(g: Graph, article: Article, above: Mid, a: Mid)
    requires WellThreaded(g) && article.messageId !in g && a in g && above in g && a != above
    requires g[a].parent.None? && g[above].parent.None? && WellFormed(a) && WellFormed(above)
    ensures var h := Load(g, article, Join([above, a]));
      && WellThreaded(h) && h.Keys == g.Keys + {article.messageId}
      && forall y :: y in h ==>
        h[y].parent == if y == article.messageId then Some(a) else if y == a then Some(above) else g[y].parent
  {
    hide WellThreaded, Step, Thread, Join;
    var p := Populate(g, article);
    PopulateKeeps(g, article);
    assert [above, a][..1] == [above] && [above][..0] == [];
    ThreadNext(p, article.messageId, [above, a]);
    StepUnderRoot(p, article.messageId, a, Join([above]));
    var q := Step(p, article.messageId, a, Join([above])).graph;
    ThreadNext(q, a, [above]);
    StepUnderRoot(q, a, above, Join([]));
    ThreadDone(Step(q, a, above, Join([])).graph, above);
  }

  /** The tree that shows two articles as roots. */
  function TwoRoots(one: Article, two: Article): Graph {
    map[one.messageId := Node(Some(one), None, []), two.messageId := Node(Some(two), None, [])]
  }

  /**
   Trimmed headers spoil a view. The article x came with the reference a only, which is not there, so in the tree x is
   a root beside p. Then an article b comes whose header has p above a: x belongs under p now, but it is not below b,
   and adding b leaves it where it was.
   */
  lemma TrimmedHeaderSpoilsView(g: Graph, one: Article, x: Article, b: Article, a: Mid)
    requires WellThreaded(g) && g == TwoRoots(one, one) && Distinct([one.messageId, x.messageId, b.messageId, a])
    requires WellFormed(one.messageId) && WellFormed(a)
    ensures var before, t := Load(g, x, Join([a])), TwoRoots(one, x);
      && WellThreaded(before) && IsViewOf(t, before)
      && var after := Load(before, b, Join([one.messageId, a]));
      WellThreaded(after) && Shows(t, after) && !Untouched(after, t, {b.messageId})
  {
    hide Load, Join, WellFormed, Acyclic, Linked, IsViewOf, Shows, Untouched, Distinct;
    var p, m, t := one.messageId, x.messageId, TwoRoots(one, x);
    FourIds(p, m, b.messageId, a);
    LoadUnder(g, x, a);
    var before := Load(g, x, Join([a]));
    LoadUnderTwo(before, b, p, a);
    LoadPopulates(g, x, Join([a]));
    LoadPopulates(before, b, Join([p, a]));
    RootsShown(one, x, before);
    RootsShown(one, x, Load(before, b, Join([p, a])));
    RootsNearest(before, t, p, m, a);
    NotBelow(Load(before, b, Join([p, a])), t, p, m, a, b.messageId);
  }

  lemma FourIds(p: Mid, m: Mid, b: Mid, a: Mid)
    requires Distinct([p, m, b, a])
    ensures p != m && p != b && p != a && m != b && m != a && b != a
  {
    var ids := [p, m, b, a];
    assert ids[0] != ids[1] && ids[0] != ids[2] && ids[0] != ids[3];
    assert ids[1] != ids[2] && ids[1] != ids[3] && ids[2] != ids[3];
  }

  lemma RootsShown(one: Article, x: Article, h: Graph)
    requires {one.messageId, x.messageId} <= h.Keys && one.messageId != x.messageId
    requires h[one.messageId].article == Some(one) && h[x.messageId].article == Some(x)
    ensures Shows(TwoRoots(one, x), h)
  {
    var t := TwoRoots(one, x);
    assert forall q :: q in t ==> t[q].children == [] && t[q].parent.None?;
  }

  lemma RootsNearest(h: Graph, t: Graph, p: Mid, m: Mid, a: Mid)
    requires WellThreaded(h) && Shows(t, h) && {p, m, a} <= h.Keys && t.Keys == {p, m} && a !in t
    requires h[p].parent.None? && h[a].parent.None? && h[m].parent == Some(a)
    requires t[p].parent.None? && t[m].parent.None?
    ensures IsViewOf(t, h)
  {
    hide Linked, IsViewOf;
    var c := ParentsOf(h);
    assert Nearest(c, a, t.Keys) == None;
    assert Nearest(c, p, t.Keys) == None && Nearest(c, m, t.Keys) == None;
    ViewHangs(h, t);
  }

  lemma NotBelow(h: Graph, t: Graph, p: Mid, m: Mid, a: Mid, b: Mid)
    requires WellThreaded(h) && {p, m, a} <= h.Keys && t.Keys == {p, m} && a !in t && b !in {p, m, a}
    requires h[p].parent.None? && h[a].parent == Some(p) && h[m].parent == Some(a) && t[m].parent.None?
    ensures !Untouched(h, t, {b})
  {
    hide Linked;
    var c := ParentsOf(h);
    assert Ancestors(c, p) == [] && Ancestors(c, a) == [p] && Ancestors(c, m) == [a, p];
    assert Nearest(c, a, t.Keys) == Some(p) && Nearest(c, m, t.Keys) == Some(p);
    assert m !in BelowAny(h, {b});
  }
}
