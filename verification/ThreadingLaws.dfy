/**
 What holds of the thread graph after any run of headers: it is a forest, it is sound, it does not depend on order.
 */
module ThreadingLaws {
  import opened Prelude
  import opened Forest
  import opened References
  import opened Threading

  datatype Event = Loaded(article: Article, references: string) | Removed(mids: set<Mid>)

  ghost function Apply(g: Graph, e: Event): Graph
    requires WellThreaded(g)
  {
    match e
    case Loaded(article, references) => Load(g, article, references)
    case Removed(mids) => RemoveArticles(g, mids)
  }

  ghost function Run(g: Graph, events: seq<Event>): Graph
    requires WellThreaded(g)
    decreases |events|
  {
    if events == [] then g
    else
      ApplyKeeps(g, events[0]);
      Run(Apply(g, events[0]), events[1..])
  }

  // ---------------------------------------------------------------- the forest invariant

  lemma {:induction false} ThreadKeeps(g: Graph, node: Mid, refs: string)
    requires WellThreaded(g) && node in g
    ensures WellThreaded(Thread(g, node, refs)) && g.Keys <= Thread(g, node, refs).Keys
    decreases |refs|
  {
    if refs != "" {
      var (rest, raw) := PopLastToken(refs);
      var tok := Trim(raw);
      if !IsEmpty(tok) {
        StepKeeps(g, node, tok, rest);
        var s := Step(g, node, tok, rest);
        if s.Go? {
          ThreadKeeps(s.graph, s.node, rest);
        }
      }
    }
  }

  /** load_article keeps the forest for arbitrary References: duplicates, self-references, loops. */
  lemma LoadKeeps(g: Graph, article: Article, refs: string)
    requires WellThreaded(g)
    ensures WellThreaded(Load(g, article, refs))
    ensures g.Keys + {article.messageId} <= Load(g, article, refs).Keys
  {
    PopulateKeeps(g, article);
    ThreadKeeps(Populate(g, article), article.messageId, refs);
  }

  lemma ApplyKeeps(g: Graph, e: Event)
    requires WellThreaded(g)
    ensures WellThreaded(Apply(g, e))
  {
    match e
    case Loaded(article, references) => LoadKeeps(g, article, references);
    case Removed(mids) => RemoveKeeps(g, mids);
  }

  lemma EmptyWellThreaded()
    ensures WellThreaded(map[])
  {
    EmptyAcyclic();
    var none: Graph := map[];
    assert ParentsOf(none) == map[];
  }

  /**
   After any run of headers and removals: a child list holds exactly the nodes that name its owner as parent,
   each once; and no node is its own ancestor.
   */
  lemma {:induction false} AnyRunStaysAForest(g: Graph, events: seq<Event>)
    requires WellThreaded(g)
    ensures WellThreaded(Run(g, events))
    ensures forall x :: x in Run(g, events) ==> !IsAncestor(ParentsOf(Run(g, events)), x, x)
    decreases |events|
  {
    if events == [] {
      forall x | x in g ensures !IsAncestor(ParentsOf(g), x, x) {
        NotOwnAncestor(ParentsOf(g), x);
      }
    } else {
      ApplyKeeps(g, events[0]);
      AnyRunStaysAForest(Apply(g, events[0]), events[1..]);
    }
  }

  // ---------------------------------------------------------------- soundness against a true forest

  /** ids are ancestors of x in the true forest, oldest first: a possibly trimmed References list. */
  ghost predicate OnPath(truth: Parents, x: Mid, ids: seq<Mid>)
    requires Acyclic(truth)
  {
    && AllWellFormed(ids)
    && x in truth
    && (forall i :: 0 <= i < |ids| ==> ids[i] in truth && IsAncestor(truth, ids[i], x))
    && (forall i, j :: 0 <= i < j < |ids| ==> IsAncestor(truth, ids[i], ids[j]))
  }

  /** Every node is a true one and every parent link points to a true proper ancestor. */
  ghost predicate Sound(truth: Parents, g: Graph)
    requires Acyclic(truth)
  {
    forall x :: x in g ==>
      x in truth
      && (g[x].parent.Some? ==> IsAncestor(truth, g[x].parent.value, x) && WellFormed(g[x].parent.value))
  }

  /** No link of g is lost in g', and each one that moved now points to a strictly closer true ancestor. */
  ghost predicate Closer(truth: Parents, g: Graph, g': Graph)
    requires Acyclic(truth)
  {
    forall x :: x in g ==> x in g' && (g[x].parent.Some? ==> LinkCloser(truth, g[x].parent.value, g'[x].parent))
  }

  ghost predicate LinkCloser(truth: Parents, q: Mid, r: Option<Mid>)
    requires Acyclic(truth)
  {
    r.Some? && (r.value == q || (r.value in truth && IsAncestor(truth, q, r.value)))
  }

  lemma CloserTransitive(truth: Parents, g: Graph, h: Graph, k: Graph)
    requires Acyclic(truth) && Closer(truth, g, h) && Closer(truth, h, k)
    ensures Closer(truth, g, k)
  {
    forall x | x in g && g[x].parent.Some? ensures LinkCloser(truth, g[x].parent.value, k[x].parent) {
      var a, b, c := g[x].parent.value, h[x].parent.value, k[x].parent.value;
      if a != b && b != c {
        AncestorTransitive(truth, a, b, c);
      }
    }
  }

  lemma {:induction false} SoundAncestors(truth: Parents, g: Graph, a: Mid, x: Mid)
    requires Acyclic(truth) && Sound(truth, g) && WellThreaded(g) && x in g
    requires IsAncestor(ParentsOf(g), a, x)
    ensures a in truth && IsAncestor(truth, a, x)
    decreases RankOf(ParentsOf(g))[x]
  {
    var q := g[x].parent.value;
    ParentPresent(g, x);
    assert Ancestors(ParentsOf(g), x) == [q] + Ancestors(ParentsOf(g), q);
    if a != q {
      SoundAncestors(truth, g, a, q);
      AncestorTransitive(truth, a, q, x);
    }
  }

  /** Hanging a root under one of its true ancestors never trips the loop check. */
  lemma AttachSound(truth: Parents, g: Graph, x: Mid, tok: Mid)
    requires Acyclic(truth) && Sound(truth, g) && WellThreaded(g)
    requires x in g && g[x].parent.None?
    requires tok in truth && IsAncestor(truth, tok, x) && WellFormed(tok)
    ensures var r := Attach(g, x, tok);
      r.Go? && r.node == tok && Sound(truth, r.graph) && r.graph[x].parent == Some(tok)
      && forall y :: y in g && y != x ==> r.graph[y].parent == g[y].parent
  {
    TouchKeeps(g, tok);
    var t := Touch(g, tok);
    assert Sound(truth, t);
    if AncestorOrSelf(ParentsOf(t), x, tok) {
      if x != tok {
        SoundAncestors(truth, t, x, tok);
        AncestorTransitive(truth, x, tok, x);
      }
      NotOwnAncestor(truth, x);
      assert false;
    }
    AttachKeeps(g, x, tok);
  }

  /** The tokens in front of the last one are above both the node and that token. */
  lemma OnPathTail(truth: Parents, x: Mid, ids: seq<Mid>)
    requires Acyclic(truth) && |ids| > 0 && OnPath(truth, x, ids)
    ensures ids[|ids| - 1] in truth && WellFormed(ids[|ids| - 1]) && IsAncestor(truth, ids[|ids| - 1], x)
    ensures OnPath(truth, x, ids[..|ids| - 1])
    ensures OnPath(truth, ids[|ids| - 1], ids[..|ids| - 1])
  {
  }

  lemma UnlinkSound(truth: Parents, g: Graph, x: Mid)
    requires Acyclic(truth) && Sound(truth, g) && WellThreaded(g) && x in g && g[x].parent.Some?
    ensures g[x].parent.value in g && Sound(truth, Unlink(g, x))
    ensures forall y :: y in g && y != x ==> y in Unlink(g, x) && Unlink(g, x)[y].parent == g[y].parent
  {
    ParentPresent(g, x);
  }

  /** Moving a node under tok when its old parent is above tok is a move to a strictly closer ancestor. */
  lemma FillHole(truth: Parents, g: Graph, x: Mid, tok: Mid)
    requires Acyclic(truth) && Sound(truth, g) && WellThreaded(g) && x in g && g[x].parent.Some?
    requires tok in truth && IsAncestor(truth, tok, x) && WellFormed(tok)
    requires IsAncestor(truth, g[x].parent.value, tok)
    ensures g[x].parent.value in g && WellThreaded(Unlink(g, x))
    ensures var r := Attach(Unlink(g, x), x, tok);
      r.Go? && r.node == tok && Sound(truth, r.graph) && Closer(truth, g, r.graph)
  {
    UnlinkKeeps(g, x);
    UnlinkSound(truth, g, x);
    var u := Unlink(g, x);
    AttachSound(truth, u, x, tok);
    AttachKeeps(u, x, tok);
    var r := Attach(u, x, tok);
    forall y | y in g
      ensures y in r.graph && (g[y].parent.Some? ==> LinkCloser(truth, g[y].parent.value, r.graph[y].parent))
    {
    }
  }

  /**
   One honest token: the walk goes on, at a node all remaining tokens are above, and every moved link moved closer.
   */
  lemma StepSound(truth: Parents, g: Graph, node: Mid, ids: seq<Mid>)
    requires Acyclic(truth) && Sound(truth, g) && WellThreaded(g) && node in g
    requires |ids| > 0 && OnPath(truth, node, ids)
    ensures var rest := ids[..|ids| - 1];
      var r := Step(g, node, ids[|ids| - 1], Join(rest));
      r.Go? && Sound(truth, r.graph) && Closer(truth, g, r.graph) && OnPath(truth, r.node, rest)
  {
    var rest, tok := ids[..|ids| - 1], ids[|ids| - 1];
    OnPathTail(truth, node, ids);
    if g[node].parent.None? {
      AttachSound(truth, g, node, tok);
    } else {
      var above := g[node].parent.value;
      if above != tok && !IsAncestor(ParentsOf(g), tok, node) && Occurs(above, Join(rest)) {
        OccursInJoin(above, rest);
        FillHole(truth, g, node, tok);
      }
    }
  }

  /** True when following refs from node reaches one of the two "munged header" branches. */
  ghost predicate Breaks(g: Graph, node: Mid, refs: string)
    requires WellThreaded(g) && node in g
    decreases |refs|
  {
    if refs == "" then false
    else
      var (rest, raw) := PopLastToken(refs);
      var tok := Trim(raw);
      if IsEmpty(tok) then false
      else
        StepKeeps(g, node, tok, rest);
        match Step(g, node, tok, rest)
        case Halt(_) => true
        case Go(g', node') => Breaks(g', node', rest)
  }

  lemma {:induction false} ThreadSound(truth: Parents, g: Graph, node: Mid, ids: seq<Mid>)
    requires Acyclic(truth) && Sound(truth, g) && WellThreaded(g) && node in g
    requires OnPath(truth, node, ids)
    ensures Sound(truth, Thread(g, node, Join(ids))) && Closer(truth, g, Thread(g, node, Join(ids)))
    ensures !Breaks(g, node, Join(ids))
    decreases |ids|
  {
    if ids != [] {
      var rest, tok := ids[..|ids| - 1], ids[|ids| - 1];
      assert WellFormed(tok);
      PopUndoesJoin(ids);
      TrimKeepsId(tok);
      StepKeeps(g, node, tok, Join(rest));
      StepSound(truth, g, node, ids);
      var s := Step(g, node, tok, Join(rest));
      ThreadSound(truth, s.graph, s.node, rest);
      CloserTransitive(truth, g, s.graph, Thread(s.graph, s.node, Join(rest)));
    }
  }

  // ---------------------------------------------------------------- what one honest header changes

  /** A node under an id that stands earlier in the header has a hole, unless the token is there already. */
  lemma NotAbove(truth: Parents, g: Graph, node: Mid, ids: seq<Mid>)
    requires Acyclic(truth) && Sound(truth, g) && WellThreaded(g) && node in g
    requires |ids| > 0 && OnPath(truth, node, ids)
    requires g[node].parent.Some? && g[node].parent.value in ids[..|ids| - 1]
    ensures var tok := ids[|ids| - 1]; g[node].parent.value != tok && !IsAncestor(ParentsOf(g), tok, node)
  {
    var tok, q := ids[|ids| - 1], g[node].parent.value;
    var i :| 0 <= i < |ids| - 1 && ids[i] == q;
    assert IsAncestor(truth, ids[i], ids[|ids| - 1]);
    NotOwnAncestor(truth, tok);
    if IsAncestor(ParentsOf(g), tok, node) {
      ParentPresent(g, node);
      assert Ancestors(ParentsOf(g), node) == [q] + Ancestors(ParentsOf(g), q);
      SoundAncestors(truth, g, tok, q);
      AncestorTransitive(truth, tok, q, tok);
    }
  }

  /**
   One honest token: a root, and a node under an id that stands earlier in the header, is hung under the token, first
   among its children; a node that is below the token already is left for the token; any other is kept. No other link
   changes.
   */
  lemma StepDecides(truth: Parents, g: Graph, node: Mid, ids: seq<Mid>)
    requires Acyclic(truth) && Sound(truth, g) && WellThreaded(g) && node in g
    requires |ids| > 0 && OnPath(truth, node, ids)
    ensures var tok, q := ids[|ids| - 1], g[node].parent;
      var r := Step(g, node, tok, Join(ids[..|ids| - 1]));
      && r.Go? && WellThreaded(r.graph) && r.node in r.graph
      && (forall y :: y in g && y != node ==> y in r.graph && r.graph[y].parent == g[y].parent)
      && if q.None? || q.value in ids[..|ids| - 1] then
           && r.node == tok && r.graph.Keys == g.Keys + {tok} && r.graph[node].parent == Some(tok)
           && (tok !in g ==> r.graph[tok].parent.None?)
           && r.graph[tok].children == [node] + (if tok in g then g[tok].children else [])
         else r.graph == g && r.node == if q.value == tok || IsAncestor(ParentsOf(g), tok, node) then tok else node
  {
    var tok := ids[|ids| - 1];
    OnPathTail(truth, node, ids);
    StepKeeps(g, node, tok, Join(ids[..|ids| - 1]));
    if g[node].parent.None? {
      AttachSound(truth, g, node, tok);
      AttachParents(g, node, tok);
      AttachFront(g, node, tok);
    } else if g[node].parent.value in ids[..|ids| - 1] {
      DecidesHole(truth, g, node, ids);
    } else if g[node].parent.value != tok && !IsAncestor(ParentsOf(g), tok, node) {
      OccursInJoin(g[node].parent.value, ids[..|ids| - 1]);
    }
  }

  lemma DecidesHole(truth: Parents, g: Graph, node: Mid, ids: seq<Mid>)
    requires Acyclic(truth) && Sound(truth, g) && WellThreaded(g) && node in g
    requires |ids| > 0 && OnPath(truth, node, ids)
    requires g[node].parent.Some? && g[node].parent.value in ids[..|ids| - 1]
    ensures var tok := ids[|ids| - 1];
      var r := Step(g, node, tok, Join(ids[..|ids| - 1]));
      && r.Go? && r.node == tok && r.graph.Keys == g.Keys + {tok} && r.graph[node].parent == Some(tok)
      && (tok !in g ==> r.graph[tok].parent.None?)
      && (forall y :: y in g && y != node ==> r.graph[y].parent == g[y].parent)
      && r.graph[tok].children == [node] + (if tok in g then g[tok].children else [])
  {
    hide Ancestors, Acyclic, Linked, Sound, OnPath;
    var tok, q := ids[|ids| - 1], g[node].parent.value;
    OnPathTail(truth, node, ids);
    NotAbove(truth, g, node, ids);
    SoundLink(truth, g, node, ids);
    OccursInJoin(q, ids[..|ids| - 1]);
    UnlinkKeeps(g, node);
    UnlinkSound(truth, g, node);
    var u := Unlink(g, node);
    AttachSound(truth, u, node, tok);
    AttachParents(u, node, tok);
    AttachFront(u, node, tok);
    UnlinkNodes(g, node);
  }

  lemma SoundLink(truth: Parents, g: Graph, x: Mid, ids: seq<Mid>)
    requires Acyclic(truth) && Sound(truth, g) && x in g && g[x].parent.Some? && ids != [] && OnPath(truth, x, ids)
    ensures WellFormed(g[x].parent.value) && AllWellFormed(ids[..|ids| - 1])
  {
    OnPathTail(truth, x, ids);
  }

  lemma UnlinkNodes(g: Graph, x: Mid)
    requires WellThreaded(g) && x in g && g[x].parent.Some? && g[x].parent.value in g
    ensures var u := Unlink(g, x);
      u.Keys == g.Keys && forall y :: y in g ==>
        (y != x ==> u[y].parent == g[y].parent) && (y != g[x].parent.value ==> u[y].children == g[y].children)
  {
    ParentPresent(g, x);
    hide Linked, Acyclic, Without;
  }

  lemma AttachFront(g: Graph, x: Mid, tok: Mid)
    requires WellThreaded(g) && x in g && g[x].parent.None? && Attach(g, x, tok).Go? && x != tok
    ensures var r := Attach(g, x, tok).graph;
      tok in r && r[tok].children == [x] + (if tok in g then g[tok].children else [])
  {
    TouchKeeps(g, tok);
    hide Linked, Acyclic;
  }

  lemma ThreadStep(truth: Parents, g: Graph, node: Mid, ids: seq<Mid>)
    requires Acyclic(truth) && Sound(truth, g) && WellThreaded(g) && node in g
    requires ids != [] && OnPath(truth, node, ids)
    ensures var rest := ids[..|ids| - 1];
      var r := Step(g, node, ids[|ids| - 1], Join(rest));
      && r.Go? && WellThreaded(r.graph) && r.node in r.graph && Sound(truth, r.graph) && OnPath(truth, r.node, rest)
      && Thread(g, node, Join(ids)) == Thread(r.graph, r.node, Join(rest))
  {
    hide Step, WellThreaded, Join, Sound;
    var tok := ids[|ids| - 1];
    assert WellFormed(tok);
    PopUndoesJoin(ids);
    TrimKeepsId(tok);
    StepKeeps(g, node, tok, Join(ids[..|ids| - 1]));
    StepSound(truth, g, node, ids);
  }

  lemma NotListed(truth: Parents, node: Mid, ids: seq<Mid>)
    requires Acyclic(truth) && OnPath(truth, node, ids)
    ensures node !in ids
  {
    NotOwnAncestor(truth, node);
  }

  /** An honest header changes the parents of the article and of listed ids only, and adds only listed ids. */
  lemma {:induction false} ThreadTouches(truth: Parents, g: Graph, node: Mid, ids: seq<Mid>)
    requires Acyclic(truth) && Sound(truth, g) && WellThreaded(g) && node in g && OnPath(truth, node, ids)
    ensures var h := Thread(g, node, Join(ids));
      && g.Keys <= h.Keys <= g.Keys + Elements(ids)
      && forall y :: y in g && y != node && y !in ids ==> h[y].parent == g[y].parent
    decreases |ids|
  {
    if ids == [] {
      assert Join([]) == "";
    } else {
      hide Step, Sound, OnPath, WellThreaded, Join, Thread, Acyclic;
      var rest, tok := ids[..|ids| - 1], ids[|ids| - 1];
      assert ids == rest + [tok];
      ThreadStep(truth, g, node, ids);
      StepDecides(truth, g, node, ids);
      var r := Step(g, node, tok, Join(rest));
      ThreadTouches(truth, r.graph, r.node, rest);
    }
  }

  /** Where the article hangs after its header has been followed, whatever the graph was before. */
  lemma {:induction false} ThreadParent(truth: Parents, g: Graph, node: Mid, ids: seq<Mid>)
    requires Acyclic(truth) && Sound(truth, g) && WellThreaded(g) && node in g
    requires ids != [] && OnPath(truth, node, ids)
    ensures var h, q := Thread(g, node, Join(ids)), g[node].parent;
      node in h && h[node].parent
        == if q.None? || q.value in ids[..|ids| - 1] then Some(ids[|ids| - 1]) else q
    decreases |ids|
  {
    hide Step, Sound, OnPath, WellThreaded, Join, Thread, Acyclic;
    var rest, tok := ids[..|ids| - 1], ids[|ids| - 1];
    assert ids == rest + [tok];
    ThreadStep(truth, g, node, ids);
    StepDecides(truth, g, node, ids);
    NotListed(truth, node, ids);
    var r := Step(g, node, tok, Join(rest));
    ThreadTouches(truth, r.graph, r.node, rest);
    if r.node == node && rest != [] {
      assert rest == rest[..|rest| - 1] + [rest[|rest| - 1]];
      ThreadParent(truth, g, node, rest);
    } else if r.node == node {
      ThreadNothing(r.graph, node);
    }
  }

  lemma ThreadNothing(g: Graph, node: Mid)
    requires WellThreaded(g) && node in g
    ensures Thread(g, node, Join([])) == g
  {
  }

  /** Each id, from the last on, is new or a root or hangs under an id that stands before it in the list. */
  predicate Chained(g: Graph, node: Mid, ids: seq<Mid>)
    decreases |ids|
  {
    ids == []
    || ((node !in g || g[node].parent.None? || g[node].parent.value in ids)
        && Chained(g, ids[|ids| - 1], ids[..|ids| - 1]))
  }

  /** Each id hangs under the one before it in the list. */
  predicate InChain(h: Graph, node: Mid, ids: seq<Mid>)
    decreases |ids|
  {
    ids == []
    || (node in h && h[node].parent == Some(ids[|ids| - 1]) && InChain(h, ids[|ids| - 1], ids[..|ids| - 1]))
  }

  lemma {:induction false} ChainedStill(g: Graph, g': Graph, node: Mid, ids: seq<Mid>)
    requires Chained(g, node, ids)
    requires forall y :: (y == node || y in ids) && y in g' ==>
      g'[y].parent.None? || (y in g && g'[y].parent == g[y].parent)
    ensures Chained(g', node, ids)
    decreases |ids|
  {
    if ids != [] {
      assert ids == ids[..|ids| - 1] + [ids[|ids| - 1]];
      ChainedStill(g, g', ids[|ids| - 1], ids[..|ids| - 1]);
    }
  }

  /** A header none of whose ids hangs outside it is threaded just as it stands. */
  lemma {:induction false} ThreadChains(truth: Parents, g: Graph, node: Mid, ids: seq<Mid>)
    requires Acyclic(truth) && Sound(truth, g) && WellThreaded(g) && node in g
    requires OnPath(truth, node, ids) && Chained(g, node, ids)
    ensures InChain(Thread(g, node, Join(ids)), node, ids)
    decreases |ids|
  {
    if ids != [] {
      hide Step, Sound, OnPath, WellThreaded, Join, Thread, Acyclic;
      var rest, tok := ids[..|ids| - 1], ids[|ids| - 1];
      assert ids == rest + [tok];
      ThreadStep(truth, g, node, ids);
      StepDecides(truth, g, node, ids);
      NotListed(truth, node, ids);
      ThreadParent(truth, g, node, ids);
      var r := Step(g, node, tok, Join(rest));
      assert r.node == tok;
      ChainedStill(g, r.graph, tok, rest);
      ThreadChains(truth, r.graph, tok, rest);
    }
  }

  /**
   Loading an article with an honest header: its own parent, and that every listed id hangs under the one before it
   when none of them hung outside the list. So a header fills the holes that shorter ones left.
   */
  lemma LoadChains(truth: Parents, g: Graph, article: Article, ids: seq<Mid>)
    requires Acyclic(truth) && Sound(truth, g) && WellThreaded(g) && OnPath(truth, article.messageId, ids)
    ensures var m, h := article.messageId, Load(g, article, Join(ids));
      && m in h && (ids != [] && m !in g ==> h[m].parent == Some(ids[|ids| - 1]))
      && (Chained(g, m, ids) ==> InChain(h, m, ids))
      && (forall y :: y in g && y != m && y !in ids ==> y in h && h[y].parent == g[y].parent)
      && h.Keys <= g.Keys + {m} + Elements(ids)
  {
    hide Thread, WellThreaded, Acyclic, Join, OnPath;
    var m, p := article.messageId, Populate(g, article);
    PopulateKeeps(g, article);
    assert Sound(truth, p) by { PathNode(truth, m, ids); }
    ThreadTouches(truth, p, m, ids);
    if ids != [] { ThreadParent(truth, p, m, ids); }
    if Chained(g, m, ids) {
      ChainedStill(g, p, m, ids);
      ThreadChains(truth, p, m, ids);
    }
  }

  lemma PathNode(truth: Parents, m: Mid, ids: seq<Mid>)
    requires Acyclic(truth) && OnPath(truth, m, ids)
    ensures m in truth
  {
  }

  /**
   A header fills a hole: the last listed id hung under one that stands further up in the list, and now it hangs under
   the one in between.
   */
  lemma LoadFillsHole(truth: Parents, g: Graph, article: Article, ids: seq<Mid>)
    requires Acyclic(truth) && Sound(truth, g) && WellThreaded(g) && OnPath(truth, article.messageId, ids)
    requires article.messageId !in g && |ids| >= 2 && ids[|ids| - 1] in g
    requires var q := g[ids[|ids| - 1]].parent; q.Some? && q.value in ids[..|ids| - 2]
    ensures var h := Load(g, article, Join(ids));
      ids[|ids| - 1] in h && h[ids[|ids| - 1]].parent == Some(ids[|ids| - 2])
  {
    hide Thread, Step, WellThreaded, Acyclic, Join, OnPath;
    var m, p := article.messageId, Populate(g, article);
    var rest, c := ids[..|ids| - 1], ids[|ids| - 1];
    PopulateKeeps(g, article);
    assert Sound(truth, p) by { PathNode(truth, m, ids); }
    ThreadStep(truth, p, m, ids);
    StepDecides(truth, p, m, ids);
    NotListed(truth, m, ids);
    assert c in ids && c != m;
    var r := Step(p, m, c, Join(rest));
    assert rest[..|rest| - 1] == ids[..|ids| - 2];
    ThreadParent(truth, r.graph, c, rest);
  }

  /** The walk ends at an empty token: of a header with two spaces in a row only what comes after them is followed. */
  lemma SpaceEndsHeader(g: Graph, node: Mid, s: string)
    requires WellThreaded(g) && node in g
    ensures Thread(g, node, s + " ") == g
  {
    NothingAfterSpace(s);
  }

  /** A References header that tells the truth, though it may leave ancestors out. */
  ghost predicate Honest(truth: Parents, e: Event)
    requires Acyclic(truth)
  {
    e.Loaded? ==> exists ids :: OnPath(truth, e.article.messageId, ids) && e.references == Join(ids)
  }

  /** Some header of the run reaches a "munged header" branch. */
  ghost predicate RunBreaks(g: Graph, events: seq<Event>)
    requires WellThreaded(g)
    decreases |events|
  {
    if events == [] then false
    else
      ApplyKeeps(g, events[0]);
      EventBreaks(g, events[0]) || RunBreaks(Apply(g, events[0]), events[1..])
  }

  ghost predicate EventBreaks(g: Graph, e: Event)
    requires WellThreaded(g)
  {
    e.Loaded? && (PopulateKeeps(g, e.article); Breaks(Populate(g, e.article), e.article.messageId, e.references))
  }

  lemma ApplySound(truth: Parents, g: Graph, e: Event)
    requires Acyclic(truth) && Sound(truth, g) && WellThreaded(g) && Honest(truth, e)
    ensures Sound(truth, Apply(g, e)) && Closer(truth, g, Apply(g, e)) && !EventBreaks(g, e)
  {
    match e
    case Removed(mids) =>
    case Loaded(article, references) =>
      var ids :| OnPath(truth, article.messageId, ids) && references == Join(ids);
      PopulateKeeps(g, article);
      var p := Populate(g, article);
      assert Sound(truth, p) && Closer(truth, g, p);
      ThreadSound(truth, p, article.messageId, ids);
      CloserTransitive(truth, g, p, Thread(p, article.messageId, references));
  }

  /**
   Honest headers in any order: every link ever made is a true one, no header is taken for a munged one, and along
   the whole run a link only ever moves to a closer true ancestor.
   */
  lemma {:induction false} HonestRunIsSound(truth: Parents, g: Graph, events: seq<Event>)
    requires Acyclic(truth) && Sound(truth, g) && WellThreaded(g)
    requires forall i :: 0 <= i < |events| ==> Honest(truth, events[i])
    ensures Sound(truth, Run(g, events)) && Closer(truth, g, Run(g, events)) && !RunBreaks(g, events)
    decreases |events|
  {
    if events != [] {
      var g' := Apply(g, events[0]);
      ApplyKeeps(g, events[0]);
      ApplySound(truth, g, events[0]);
      HonestRunIsSound(truth, g', events[1..]);
      CloserTransitive(truth, g, g', Run(g', events[1..]));
    }
  }

  // ---------------------------------------------------------------- full headers: order does not matter

  /** The ancestors of x, oldest first. */
  ghost function Path(p: Parents, x: Mid): (ids: seq<Mid>)
    requires Acyclic(p) && x in p
    ensures forall a :: a in ids <==> IsAncestor(p, a, x)
    decreases RankOf(p)[x]
  {
    if p[x].None? then [] else Path(p, p[x].value) + [p[x].value]
  }

  /** What build_references_header writes for x. */
  ghost function Printed(g: Graph, x: Mid): string
    requires WellThreaded(g)
  {
    if x in g then Join(Path(ParentsOf(g), x)) else ""
  }

  /** Header lines that list every ancestor. */
  ghost predicate Complete(truth: Parents, e: Event)
    requires Acyclic(truth)
  {
    e.Loaded? ==> e.article.messageId in truth && e.references == Join(Path(truth, e.article.messageId))
  }

  ghost predicate AllIdsWellFormed(truth: Parents) {
    forall x :: x in truth ==> WellFormed(x)
  }

  /** Every node has exactly its true parent, except perhaps open, whose parent may still be missing. */
  ghost predicate ExactBut(truth: Parents, g: Graph, open: Option<Mid>) {
    forall x :: x in g ==> x in truth && (g[x].parent == truth[x] || (open == Some(x) && g[x].parent.None?))
  }

  lemma PathWellFormed(truth: Parents, x: Mid)
    requires Acyclic(truth) && AllIdsWellFormed(truth) && x in truth
    ensures AllWellFormed(Path(truth, x))
  {
    forall i | 0 <= i < |Path(truth, x)| ensures WellFormed(Path(truth, x)[i]) {
      assert Path(truth, x)[i] in Path(truth, x);
    }
  }

  lemma {:induction false} ThreadExact(truth: Parents, g: Graph, node: Mid)
    requires Acyclic(truth) && AllIdsWellFormed(truth) && WellThreaded(g) && node in g
    requires ExactBut(truth, g, Some(node))
    ensures ExactBut(truth, Thread(g, node, Join(Path(truth, node))), None)
    ensures Thread(g, node, Join(Path(truth, node))).Keys == g.Keys + Elements(Path(truth, node))
    decreases RankOf(truth)[node]
  {
    if truth[node].Some? {
      var q, ids := truth[node].value, Path(truth, node);
      assert ids[..|ids| - 1] == Path(truth, q) && ids[|ids| - 1] == q;
      PathWellFormed(truth, node);
      PopUndoesJoin(ids);
      TrimKeepsId(q);
      StepKeeps(g, node, q, Join(Path(truth, q)));
      StepExact(truth, g, node);
      var s := Step(g, node, q, Join(Path(truth, q)));
      hide Step, ExactBut, WellThreaded, AllIdsWellFormed, Acyclic;
      ThreadExact(truth, s.graph, q);
    }
  }

  lemma StepExact(truth: Parents, g: Graph, node: Mid)
    requires Acyclic(truth) && AllIdsWellFormed(truth) && WellThreaded(g) && node in g
    requires ExactBut(truth, g, Some(node)) && truth[node].Some?
    ensures var q := truth[node].value;
      var s := Step(g, node, q, Join(Path(truth, q)));
      s.Go? && s.node == q && ExactBut(truth, s.graph, Some(q)) && s.graph.Keys == g.Keys + {q}
  {
    var q := truth[node].value;
    if g[node].parent.None? {
      ExactIsSound(truth, g, node);
      hide Sound, Acyclic, AllIdsWellFormed, WellThreaded, Attach, Ancestors, IsAncestor, Path;
      AttachSound(truth, g, node, q);
      AttachParents(g, node, q);
    } else {
      ParentPresent(g, node);
      hide WellThreaded, Acyclic, AllIdsWellFormed, Ancestors, Path;
    }
  }

  lemma ExactIsSound(truth: Parents, g: Graph, node: Mid)
    requires Acyclic(truth) && AllIdsWellFormed(truth) && ExactBut(truth, g, Some(node)) && node in g
    requires truth[node].Some?
    ensures Sound(truth, g)
    ensures truth[node].value in truth && IsAncestor(truth, truth[node].value, node) && WellFormed(truth[node].value)
  {
    forall x | x in g && truth[x].Some? ensures IsAncestor(truth, truth[x].value, x) {
      assert Ancestors(truth, x)[0] == truth[x].value;
    }
  }

  lemma AttachParents(g: Graph, x: Mid, tok: Mid)
    requires WellThreaded(g) && x in g && g[x].parent.None? && Attach(g, x, tok).Go?
    ensures var r := Attach(g, x, tok).graph;
      r.Keys == g.Keys + {tok}
      && forall y :: y in r ==> r[y].parent == if y == x then Some(tok) else if y in g then g[y].parent else None
  {
    AttachKeeps(g, x, tok);
    TouchKeeps(g, tok);
    var r, t := Attach(g, x, tok).graph, Touch(g, tok);
    hide Attach, WellThreaded;
    assert r.Keys == ParentsOf(r).Keys == ParentsOf(t).Keys + {x};
    forall y | y in r ensures r[y].parent == if y == x then Some(tok) else t[y].parent {
      assert ParentsOf(r)[y] == r[y].parent;
    }
  }

  ghost function LoadedIds(events: seq<Event>): set<Mid> {
    set i | 0 <= i < |events| && events[i].Loaded? :: events[i].article.messageId
  }

  /** The ids and all their true ancestors. */
  ghost function UpClosure(truth: Parents, ids: set<Mid>): set<Mid>
    requires Acyclic(truth)
  {
    set x | x in truth && exists m :: m in ids && m in truth && AncestorOrSelf(truth, x, m)
  }

  lemma UpClosureUnion(truth: Parents, a: set<Mid>, b: set<Mid>)
    requires Acyclic(truth)
    ensures UpClosure(truth, a + b) == UpClosure(truth, a) + UpClosure(truth, b)
  {
  }

  lemma UpClosureSingle(truth: Parents, m: Mid)
    requires Acyclic(truth) && m in truth
    ensures UpClosure(truth, {m}) == {m} + Elements(Path(truth, m))
  {
    var p := Path(truth, m);
    forall x | x in p ensures x in truth {
      assert IsAncestor(truth, x, m);
    }
  }

  lemma ApplyExact(truth: Parents, g: Graph, e: Event)
    requires Acyclic(truth) && AllIdsWellFormed(truth) && WellThreaded(g)
    requires ExactBut(truth, g, None) && Complete(truth, e)
    ensures ExactBut(truth, Apply(g, e), None)
    ensures Apply(g, e).Keys == g.Keys + UpClosure(truth, LoadedIds([e]))
  {
    LoadedOne(e);
    match e
    case Removed(mids) =>
      hide LoadedIds, Acyclic, AllIdsWellFormed, WellThreaded;
      assert UpClosure(truth, {}) == {};
    case Loaded(article, references) =>
      hide LoadedIds, ExactBut, UpClosure, AllIdsWellFormed;
      LoadExact(truth, g, article);
  }

  lemma LoadExact(truth: Parents, g: Graph, article: Article)
    requires Acyclic(truth) && AllIdsWellFormed(truth) && WellThreaded(g)
    requires ExactBut(truth, g, None) && article.messageId in truth
    ensures var g' := Load(g, article, Join(Path(truth, article.messageId)));
      ExactBut(truth, g', None) && g'.Keys == g.Keys + UpClosure(truth, {article.messageId})
  {
    hide AllIdsWellFormed, WellThreaded, UpClosure, Path, Join;
    var m := article.messageId;
    PopulateKeeps(g, article);
    ThreadExact(truth, Populate(g, article), m);
    UpClosureSingle(truth, m);
  }

  lemma LoadedOne(e: Event)
    ensures LoadedIds([e]) == if e.Loaded? then {e.article.messageId} else {}
  {
    if e.Loaded? { assert [e][0] == e; }
  }

  lemma {:induction false} CompleteRun(truth: Parents, g: Graph, events: seq<Event>)
    requires Acyclic(truth) && AllIdsWellFormed(truth) && WellThreaded(g) && ExactBut(truth, g, None)
    requires forall i :: 0 <= i < |events| ==> Complete(truth, events[i])
    ensures ExactBut(truth, Run(g, events), None)
    ensures Run(g, events).Keys == g.Keys + UpClosure(truth, LoadedIds(events))
    decreases |events|
  {
    if events != [] {
      var e, rest := events[0], events[1..];
      ApplyKeeps(g, e);
      ApplyExact(truth, g, e);
      CompleteRun(truth, Apply(g, e), rest);
      LoadedIdsSplit(e, rest);
      assert [e] + rest == events;
      UpClosureUnion(truth, LoadedIds([e]), LoadedIds(rest));
    }
  }

  lemma LoadedIdsSplit(e: Event, rest: seq<Event>)
    ensures LoadedIds([e] + rest) == LoadedIds([e]) + LoadedIds(rest)
  {
    var all := [e] + rest;
    forall m | m in LoadedIds([e]) + LoadedIds(rest) ensures m in LoadedIds(all) {
      if m in LoadedIds([e]) {
        assert all[0] == [e][0];
      } else {
        var i :| 0 <= i < |rest| && rest[i].Loaded? && rest[i].article.messageId == m;
        assert all[i + 1] == rest[i];
      }
    }
    forall m | m in LoadedIds(all) ensures m in LoadedIds([e]) + LoadedIds(rest) {
      var i :| 0 <= i < |all| && all[i].Loaded? && all[i].article.messageId == m;
      if i > 0 {
        assert rest[i - 1] == all[i];
      } else {
        assert [e][0] == all[0];
      }
    }
  }

  lemma ExactParents(truth: Parents, g: Graph)
    requires ExactBut(truth, g, None)
    ensures g.Keys <= truth.Keys
    ensures ParentsOf(g) == (map x | x in g.Keys :: truth[x])
  {
  }

  /**
   Full headers thread to the true forest, cut to the loaded articles and their ancestors, in whatever order they
   come.
   */
  lemma OrderDoesNotMatter(truth: Parents, one: seq<Event>, two: seq<Event>)
    requires Acyclic(truth) && AllIdsWellFormed(truth)
    requires forall i :: 0 <= i < |one| ==> Complete(truth, one[i])
    requires forall i :: 0 <= i < |two| ==> Complete(truth, two[i])
    requires LoadedIds(one) == LoadedIds(two)
    ensures WellThreaded(map[])
    ensures ParentsOf(Run(map[], one)) == (map x | x in UpClosure(truth, LoadedIds(one)) :: truth[x])
    ensures ParentsOf(Run(map[], one)) == ParentsOf(Run(map[], two))
  {
    EmptyWellThreaded();
    CompleteRun(truth, map[], one);
    CompleteRun(truth, map[], two);
    ExactParents(truth, Run(map[], one));
    ExactParents(truth, Run(map[], two));
  }

  lemma {:induction false} SamePath(p: Parents, p': Parents, x: Mid)
    requires Acyclic(p) && Acyclic(p') && x in p
    requires forall z :: z in p ==> z in p' && p'[z] == p[z]
    ensures Path(p', x) == Path(p, x)
    decreases RankOf(p)[x]
  {
    if p[x].Some? {
      SamePath(p, p', p[x].value);
    }
  }

  /** Printing undoes loading: the header written for an article is the header it came with. */
  lemma PrintsBackWhatWasLoaded(truth: Parents, events: seq<Event>, k: nat)
    requires Acyclic(truth) && AllIdsWellFormed(truth)
    requires forall i :: 0 <= i < |events| ==> Complete(truth, events[i])
    requires k < |events| && events[k].Loaded?
    ensures WellThreaded(map[]) && WellThreaded(Run(map[], events))
    ensures Printed(Run(map[], events), events[k].article.messageId) == events[k].references
  {
    EmptyWellThreaded();
    AnyRunStaysAForest(map[], events);
    CompleteRun(truth, map[], events);
    var g, m := Run(map[], events), events[k].article.messageId;
    assert AncestorOrSelf(truth, m, m);
    assert m in UpClosure(truth, LoadedIds(events));
    SamePath(ParentsOf(g), truth, m);
  }
}
