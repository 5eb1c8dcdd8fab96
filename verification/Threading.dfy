/**
 The canonical thread graph of a group as a value: what one References token does to it, what one
 header does to it, and what holds after any run of headers.
 */
module Threading {
  import opened Prelude
  import opened Forest
  import opened References

  /** An ArticleNode. article is None for a node known only from someone's References header. */
  datatype Node = Node(article: Option<Article>, parent: Option<Mid>, children: seq<Mid>)

  type Graph = map<Mid, Node>

  const BLANK := Node(None, None, [])

  ghost function ParentsOf(g: Graph): Parents {
    map x | x in g :: g[x].parent
  }

  ghost predicate OnList(g: Graph, q: Mid, x: Mid) {
    q in g && x in g[q].children
  }

  ghost predicate HangsUnder(g: Graph, x: Mid, q: Mid) {
    x in g && g[x].parent == Some(q)
  }

  /** x is on q's list exactly when q is x's parent, and then once. */
  ghost predicate Linked(g: Graph) {
    && (forall q :: q in g ==> Distinct(g[q].children))
    && (forall q, x :: OnList(g, q, x) <==> HangsUnder(g, x, q))
  }

  ghost predicate WellThreaded(g: Graph) {
    Linked(g) && Acyclic(ParentsOf(g))
  }

  // ---------------------------------------------------------------- elementary updates

  /** The list without any occurrence of x, as std::list::remove leaves it. */
  function Without(s: seq<Mid>, x: Mid): (r: seq<Mid>)
    ensures forall y :: y in r <==> y in s && y != x
    ensures Distinct(s) ==> Distinct(r)
  {
    if s == [] then []
    else if s[0] == x then Without(s[1..], x)
    else
      var t := Without(s[1..], x);
      assert Distinct(s) ==> Distinct(s[1..]);
      assert s[0] in t ==> s[0] in s[1..];
      [s[0]] + t
  }

  /** The lookup _nodes[m] that creates a blank node when there is none. */
  function Touch(g: Graph, m: Mid): Graph {
    if m in g then g else g[m := BLANK]
  }

  function SetParent(g: Graph, x: Mid, q: Option<Mid>): Graph
    requires x in g
  {
    g[x := g[x].(parent := q)]
  }

  function PushChild(g: Graph, q: Mid, x: Mid): Graph
    requires q in g
  {
    g[q := g[q].(children := [x] + g[q].children)]
  }

  function DropChild(g: Graph, q: Mid, x: Mid): Graph
    requires q in g
  {
    g[q := g[q].(children := Without(g[q].children, x))]
  }

  /** Takes x off its parent's list and makes it a root. */
  function Unlink(g: Graph, x: Mid): Graph
    requires x in g && g[x].parent.Some? && g[x].parent.value in g
  {
    SetParent(DropChild(g, g[x].parent.value, x), x, None)
  }

  // ---------------------------------------------------------------- one token, one header

  /** Halt: the header is munged and is abandoned. Go: the walk continues from node. */
  datatype StepResult = Halt(graph: Graph) | Go(graph: Graph, node: Mid)

  /** Hangs the root x under tok, unless that would close a loop. */
  ghost function Attach(g: Graph, x: Mid, tok: Mid): StepResult
    requires WellThreaded(g) && x in g && g[x].parent.None?
  {
    TouchKeeps(g, tok);
    var t := Touch(g, tok);
    if AncestorOrSelf(ParentsOf(t), x, tok) then Halt(t)
    else Go(PushChild(SetParent(t, x, Some(tok)), tok, x), tok)
  }

  /** One token of a References header, seen from node; rest is the header text still in front of it. */
  ghost function Step(g: Graph, node: Mid, tok: Mid, rest: string): StepResult
    requires WellThreaded(g) && node in g
  {
    match g[node].parent
    case None => Attach(g, node, tok)
    case Some(above) =>
      if above == tok || IsAncestor(ParentsOf(g), tok, node) then Go(g, tok)
      else if Occurs(above, rest) then
        UnlinkKeeps(g, node);
        Attach(Unlink(g, node), node, tok)
      else Go(g, node)
  }

  /** The rest of a References header, read from the back. */
  ghost function Thread(g: Graph, node: Mid, refs: string): Graph
    requires WellThreaded(g) && node in g
    decreases |refs|
  {
    if refs == "" then g
    else
      var (rest, raw) := PopLastToken(refs);
      var tok := Trim(raw);
      if IsEmpty(tok) then g
      else
        StepKeeps(g, node, tok, rest);
        match Step(g, node, tok, rest)
        case Halt(g') => g'
        case Go(g', node') => Thread(g', node', rest)
  }

  /** The graph with the article's own node in place and populated, before its header is followed. */
  function Populate(g: Graph, article: Article): Graph {
    var t := Touch(g, article.messageId);
    t[article.messageId := t[article.messageId].(article := Some(article))]
  }

  ghost function Load(g: Graph, article: Article, refs: string): Graph
    requires WellThreaded(g)
  {
    PopulateKeeps(g, article);
    Thread(Populate(g, article), article.messageId, refs)
  }

  /** GroupHeaders::remove_articles: the nodes stay, their articles go. */
  function RemoveArticles(g: Graph, mids: set<Mid>): Graph {
    map x | x in g :: if x in mids then g[x].(article := None) else g[x]
  }

  // ---------------------------------------------------------------- the forest invariant

  lemma TouchKeeps(g: Graph, m: Mid)
    requires WellThreaded(g)
    ensures WellThreaded(Touch(g, m))
  {
    var t := Touch(g, m);
    if m !in g {
      RootAcyclic(ParentsOf(g), m);
      assert ParentsOf(t) == ParentsOf(g)[m := None];
      forall q, x ensures OnList(t, q, x) <==> HangsUnder(t, x, q) {
        assert OnList(g, q, x) <==> HangsUnder(g, x, q);
      }
    }
  }

  lemma PopulateKeeps(g: Graph, article: Article)
    requires WellThreaded(g)
    ensures WellThreaded(Populate(g, article))
    ensures ParentsOf(Populate(g, article)) == ParentsOf(Touch(g, article.messageId))
  {
    TouchKeeps(g, article.messageId);
    var t, p := Touch(g, article.messageId), Populate(g, article);
    assert ParentsOf(p) == ParentsOf(t);
    forall q, x ensures OnList(p, q, x) <==> HangsUnder(p, x, q) {
      assert OnList(t, q, x) <==> HangsUnder(t, x, q);
    }
  }

  lemma RemoveKeeps(g: Graph, mids: set<Mid>)
    requires WellThreaded(g)
    ensures WellThreaded(RemoveArticles(g, mids))
    ensures ParentsOf(RemoveArticles(g, mids)) == ParentsOf(g)
  {
    var r := RemoveArticles(g, mids);
    assert ParentsOf(r) == ParentsOf(g);
    forall q, x ensures OnList(r, q, x) <==> HangsUnder(r, x, q) {
      assert OnList(g, q, x) <==> HangsUnder(g, x, q);
    }
  }

  /** Exactly the articles of the ids given are gone, and no node. */
  lemma RemoveClears(g: Graph, mids: set<Mid>)
    ensures var r := RemoveArticles(g, mids);
      r.Keys == g.Keys && forall x :: x in g ==>
        r[x].article == (if x in mids then None else g[x].article)
        && r[x].parent == g[x].parent && r[x].children == g[x].children
  {
  }

  /** In a well-threaded graph parents are nodes, and never the node itself. */
  lemma ParentPresent(g: Graph, x: Mid)
    requires WellThreaded(g) && x in g && g[x].parent.Some?
    ensures g[x].parent.value in g && g[x].parent.value != x
    ensures x in g[g[x].parent.value].children
  {
    assert HangsUnder(g, x, g[x].parent.value);
    assert OnList(g, g[x].parent.value, x);
    assert Ancestors(ParentsOf(g), x)[0] == g[x].parent.value;
    NotOwnAncestor(ParentsOf(g), x);
  }

  lemma UnlinkKeeps(g: Graph, x: Mid)
    requires WellThreaded(g) && x in g && g[x].parent.Some?
    ensures g[x].parent.value in g
    ensures WellThreaded(Unlink(g, x)) && Unlink(g, x)[x].parent.None?
    ensures ParentsOf(Unlink(g, x)) == ParentsOf(g)[x := None]
  {
    ParentPresent(g, x);
    RootAcyclic(ParentsOf(g), x);
    var u := Unlink(g, x);
    assert ParentsOf(u) == ParentsOf(g)[x := None];
    forall q, y ensures OnList(u, q, y) <==> HangsUnder(u, y, q) {
      assert OnList(g, q, y) <==> HangsUnder(g, y, q);
    }
  }

  /** Linking the root x under a different node keeps the two views in step. */
  lemma LinkKeepsLists(g: Graph, x: Mid, q: Mid)
    requires Linked(g) && x in g && q in g && g[x].parent.None?
    ensures Linked(PushChild(SetParent(g, x, Some(q)), q, x))
    ensures ParentsOf(PushChild(SetParent(g, x, Some(q)), q, x)) == ParentsOf(g)[x := Some(q)]
  {
    var u := PushChild(SetParent(g, x, Some(q)), q, x);
    assert OnList(g, q, x) <==> HangsUnder(g, x, q);
    assert u[q].children == [x] + g[q].children;
    assert Distinct(u[q].children);
    forall p, y ensures OnList(u, p, y) <==> HangsUnder(u, y, p) {
      assert OnList(g, p, y) <==> HangsUnder(g, y, p);
    }
    assert ParentsOf(u) == ParentsOf(g)[x := Some(q)];
  }

  lemma AttachKeeps(g: Graph, x: Mid, tok: Mid)
    requires WellThreaded(g) && x in g && g[x].parent.None?
    ensures WellThreaded(Attach(g, x, tok).graph)
    ensures g.Keys <= Attach(g, x, tok).graph.Keys
    ensures Attach(g, x, tok).Go? ==> Attach(g, x, tok).node in Attach(g, x, tok).graph
    ensures Attach(g, x, tok).Go? ==> ParentsOf(Attach(g, x, tok).graph) == ParentsOf(Touch(g, tok))[x := Some(tok)]
  {
    TouchKeeps(g, tok);
    var t := Touch(g, tok);
    if !AncestorOrSelf(ParentsOf(t), x, tok) {
      LinkAcyclic(ParentsOf(t), x, tok);
      LinkKeepsLists(t, x, tok);
    }
  }

  /**
   A root is not hung under itself or a node below it, and then the graph stays as it is; in all other cases it is.
   */
  lemma AttachHalts(g: Graph, x: Mid, tok: Mid)
    requires WellThreaded(g) && x in g && g[x].parent.None?
    ensures Attach(g, x, tok).Halt? <==> tok in g && AncestorOrSelf(ParentsOf(g), x, tok)
    ensures Attach(g, x, tok).Halt? ==> Attach(g, x, tok).graph == g
  {
    TouchKeeps(g, tok);
    if tok !in g {
      assert Ancestors(ParentsOf(Touch(g, tok)), tok) == [];
    }
  }

  /** One token keeps the graph a forest whose two views agree, whatever the token says. */
  lemma StepKeeps(g: Graph, node: Mid, tok: Mid, rest: string)
    requires WellThreaded(g) && node in g
    ensures WellThreaded(Step(g, node, tok, rest).graph)
    ensures g.Keys <= Step(g, node, tok, rest).graph.Keys
    ensures Step(g, node, tok, rest).Go? ==> Step(g, node, tok, rest).node in Step(g, node, tok, rest).graph
  {
    match g[node].parent
    case None => AttachKeeps(g, node, tok);
    case Some(above) =>
      if above == tok || IsAncestor(ParentsOf(g), tok, node) {
      } else if Occurs(above, rest) {
        UnlinkKeeps(g, node);
        AttachKeeps(Unlink(g, node), node, tok);
      }
  }
}
