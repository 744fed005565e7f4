/** Insertion as a function of the arena: the path for a pattern's tokens is
    walked from the root, missing edges are appended as new nodes, and the
    final node receives the pattern and its payload. */
module Inserter {
  import opened LikeNode
  import opened Pattern
  import opened Matcher

  /** `b` is `a` with nodes appended and edges added: every node of `a` keeps
      its rune, its flags, its payload and every edge it had. */
  ghost predicate Grows<M>(a: seq<Node<M>>, b: seq<Node<M>>) {
    |a| <= |b| && forall i :: 0 <= i < |a| ==> NodeGrows(a[i], b[i])
  }

  ghost predicate NodeGrows<M>(x: Node<M>, y: Node<M>) {
    && y.val == x.val && y.wild == x.wild && y.root == x.root
    && y.term == x.term && y.expr == x.expr && y.meta == x.meta
    && (x.wildnode.Some? ==> y.wildnode == x.wildnode)
    && (forall c :: c in x.children ==> c in y.children && y.children[c] == x.children[c])
  }

  /** Node `i` gets a new literal child for rune `c`, appended to the arena. */
  function WithLitChild<M>(nodes: seq<Node<M>>, i: nat, c: char): (r: seq<Node<M>>)
    requires WellFormed(nodes) && i < |nodes| && c !in nodes[i].children
    ensures WellFormed(r) && |r| == |nodes| + 1
    ensures Edge(r, i, Lit(c)) == Some(|nodes|) && r[|nodes|] == LitNode(c)
  {
    var n := nodes[i];
    var r := nodes[i := n.(children := n.children[c := |nodes|])] + [LitNode(c)];
    AppendChildFacts(nodes, i, r);
    r
  }

  /** Node `i` gets a new wildcard child, appended to the arena. */
  function WithWildChild<M>(nodes: seq<Node<M>>, i: nat): (r: seq<Node<M>>)
    requires WellFormed(nodes) && i < |nodes| && nodes[i].wildnode.None?
    ensures WellFormed(r) && |r| == |nodes| + 1
    ensures Edge(r, i, Wild) == Some(|nodes|) && r[|nodes|] == WildNode()
  {
    var r := nodes[i := nodes[i].(wildnode := Some(|nodes|))] + [WildNode()];
    AppendChildFacts(nodes, i, r);
    r
  }

  /** Appending one node below node `i`, which gains the one edge to it and
      nothing else, keeps the arena well formed and grows it. */
  lemma AppendChildFacts<M>(nodes: seq<Node<M>>, i: nat, r: seq<Node<M>>)
    requires WellFormed(nodes) && i < |nodes| && |r| == |nodes| + 1
    requires forall j :: 0 <= j < |nodes| && j != i ==> r[j] == nodes[j]
    requires r[|nodes|] == LitNode(r[|nodes|].val) || r[|nodes|] == WildNode()
    requires r[i] == nodes[i].(children := r[i].children, wildnode := r[i].wildnode)
    requires nodes[i].wildnode.Some? ==> r[i].wildnode == nodes[i].wildnode
    requires r[i].wildnode.Some? && nodes[i].wildnode.None? ==> r[i].wildnode == Some(|nodes|) && r[|nodes|].wild
    requires forall c :: c in nodes[i].children ==> c in r[i].children && r[i].children[c] == nodes[i].children[c]
    requires forall c :: c in r[i].children && c !in nodes[i].children ==>
               r[i].children[c] == |nodes| && r[|nodes|] == LitNode(c)
    ensures WellFormed(r) && Grows(nodes, r)
  {
    AppendChildEdges(nodes, i, r);
    AppendChildWildnodes(nodes, i, r);
    assert r[0].root && !r[0].wild && !r[0].term by {
      if i != 0 { assert r[0] == nodes[0]; }
    }
    forall j | 0 < j < |r| ensures !r[j].root {
      if j != i && j < |nodes| { assert r[j] == nodes[j]; }
    }
    forall j | 0 <= j < |nodes| ensures NodeGrows(nodes[j], r[j]) {
      if j != i { assert r[j] == nodes[j]; }
    }
  }

  lemma AppendChildEdges<M>(nodes: seq<Node<M>>, i: nat, r: seq<Node<M>>)
    requires WellFormed(nodes) && i < |nodes| && |r| == |nodes| + 1
    requires forall j :: 0 <= j < |nodes| && j != i ==> r[j] == nodes[j]
    requires r[|nodes|] == LitNode(r[|nodes|].val) || r[|nodes|] == WildNode()
    requires r[i] == nodes[i].(children := r[i].children, wildnode := r[i].wildnode)
    requires nodes[i].wildnode.Some? ==> r[i].wildnode == nodes[i].wildnode
    requires r[i].wildnode.Some? && nodes[i].wildnode.None? ==> r[i].wildnode == Some(|nodes|) && r[|nodes|].wild
    requires forall c :: c in nodes[i].children ==> c in r[i].children && r[i].children[c] == nodes[i].children[c]
    requires forall c :: c in r[i].children && c !in nodes[i].children ==>
               r[i].children[c] == |nodes| && r[|nodes|] == LitNode(c)
    ensures forall j, c :: 0 <= j < |r| && c in r[j].children ==>
              j < r[j].children[c] < |r| && r[r[j].children[c]].val == c && !r[r[j].children[c]].wild
  {
    forall j, c | 0 <= j < |r| && c in r[j].children
      ensures j < r[j].children[c] < |r| && r[r[j].children[c]].val == c && !r[r[j].children[c]].wild
    {
      if j == |nodes| {
      } else if j == i && c !in nodes[i].children {
      } else {
        assert c in nodes[j].children && r[j].children[c] == nodes[j].children[c];
      }
    }
  }

  lemma AppendChildWildnodes<M>(nodes: seq<Node<M>>, i: nat, r: seq<Node<M>>)
    requires WellFormed(nodes) && i < |nodes| && |r| == |nodes| + 1
    requires forall j :: 0 <= j < |nodes| && j != i ==> r[j] == nodes[j]
    requires r[|nodes|] == LitNode(r[|nodes|].val) || r[|nodes|] == WildNode()
    requires r[i] == nodes[i].(children := r[i].children, wildnode := r[i].wildnode)
    requires nodes[i].wildnode.Some? ==> r[i].wildnode == nodes[i].wildnode
    requires r[i].wildnode.Some? && nodes[i].wildnode.None? ==> r[i].wildnode == Some(|nodes|) && r[|nodes|].wild
    requires forall c :: c in nodes[i].children ==> c in r[i].children && r[i].children[c] == nodes[i].children[c]
    requires forall c :: c in r[i].children && c !in nodes[i].children ==>
               r[i].children[c] == |nodes| && r[|nodes|] == LitNode(c)
    ensures forall j :: 0 <= j < |r| && r[j].wildnode.Some? ==>
              j < r[j].wildnode.value < |r| && r[r[j].wildnode.value].wild
  {
    forall j | 0 <= j < |r| && r[j].wildnode.Some?
      ensures j < r[j].wildnode.value < |r| && r[r[j].wildnode.value].wild
    {
      if j == i && nodes[i].wildnode.None? {
      } else if j < |nodes| {
        assert r[j].wildnode == nodes[j].wildnode;
      }
    }
  }

  /** Follow `toks` from node `i`, reusing existing edges and creating the
      missing ones; the result is the new arena and the node reached. */
  function InsertPath<M>(nodes: seq<Node<M>>, i: nat, toks: seq<Token>): (r: (seq<Node<M>>, nat))
    requires WellFormed(nodes) && i < |nodes|
    ensures WellFormed(r.0) && r.1 < |r.0|
    decreases |toks|
  {
    if toks == [] then (nodes, i)
    else
      match Edge(nodes, i, toks[0])
      case Some(j) => InsertPath(nodes, j, toks[1..])
      case None =>
        var grown := match toks[0]
                     case Lit(c) => WithLitChild(nodes, i, c)
                     case Wild => WithWildChild(nodes, i);
        InsertPath(grown, |nodes|, toks[1..])
  }

  /** Adding a child grows the arena. */
  lemma AddChildGrows<M>(nodes: seq<Node<M>>, i: nat, t: Token)
    requires WellFormed(nodes) && i < |nodes| && Edge(nodes, i, t).None?
    ensures var grown := match t
                         case Lit(c) => WithLitChild(nodes, i, c)
                         case Wild => WithWildChild(nodes, i);
            Grows(nodes, grown)
  {
    match t
    case Lit(c) => AppendChildFacts(nodes, i, WithLitChild(nodes, i, c));
    case Wild => AppendChildFacts(nodes, i, WithWildChild(nodes, i));
  }

  /** Insertion only grows the arena, the path then leads from `i` to the node
      returned, and the nodes it appends are not terminal. */
  lemma {:induction false} InsertPathFacts<M>(nodes: seq<Node<M>>, i: nat, toks: seq<Token>)
    requires WellFormed(nodes) && i < |nodes|
    ensures var r := InsertPath(nodes, i, toks);
            && Grows(nodes, r.0)
            && Walk(r.0, i, toks) == Some(r.1)
            && (forall k :: |nodes| <= k < |r.0| ==> !r.0[k].term)
    decreases |toks|
  {
    if toks == [] {
      assert forall j :: 0 <= j < |nodes| ==> NodeGrows(nodes[j], nodes[j]);
    } else {
      var r := InsertPath(nodes, i, toks);
      match Edge(nodes, i, toks[0])
      case Some(j) =>
        InsertPathFacts(nodes, j, toks[1..]);
        EdgeGrows(nodes, r.0, i, toks[0]);
      case None =>
        var grown := match toks[0]
                     case Lit(c) => WithLitChild(nodes, i, c)
                     case Wild => WithWildChild(nodes, i);
        AddChildGrows(nodes, i, toks[0]);
        InsertPathFacts(grown, |nodes|, toks[1..]);
        GrowsTransitive(nodes, grown, r.0);
        EdgeGrows(grown, r.0, i, toks[0]);
    }
  }

  /** One step of the scan, at position `i` of the pattern. */
  lemma ScanStep(s: string, i: nat, protected: bool)
    requires i < |s|
    ensures Tokens(s[i..], protected) ==
              if s[i] == '[' && !protected && ']' in s[i + 1..] then Tokens(s[i + 1..], true)
              else if s[i] == ']' && protected then Tokens(s[i + 1..], false)
              else if s[i] == '%' && !protected then [Wild] + Tokens(s[i + 1..], protected)
              else [Lit(s[i])] + Tokens(s[i + 1..], protected)
  {
    assert s[i..][0] == s[i] && s[i..][1..] == s[i + 1..];
  }

  /** One wildcard step of the insertion walk: the wildcard child, created
      when missing, becomes the cursor. */
  lemma WildInsertStep<M>(nodes: seq<Node<M>>, i: nat, rest: seq<Token>)
    requires WellFormed(nodes) && i < |nodes|
    ensures var g := if nodes[i].wildnode.None? then WithWildChild(nodes, i) else nodes;
            g[i].wildnode.Some? && InsertPath(g, g[i].wildnode.value, rest) == InsertPath(nodes, i, [Wild] + rest)
  {
    assert ([Wild] + rest)[1..] == rest;
  }

  /** One literal step of the insertion walk: the child for `c`, created when
      missing, becomes the cursor. */
  lemma LitInsertStep<M>(nodes: seq<Node<M>>, i: nat, c: char, rest: seq<Token>)
    requires WellFormed(nodes) && i < |nodes|
    ensures c in nodes[i].children ==>
              InsertPath(nodes, nodes[i].children[c], rest) == InsertPath(nodes, i, [Lit(c)] + rest)
    ensures c !in nodes[i].children ==>
              InsertPath(WithLitChild(nodes, i, c), |nodes|, rest) == InsertPath(nodes, i, [Lit(c)] + rest)
  {
    assert ([Lit(c)] + rest)[1..] == rest;
  }

  /** The arena after saving pattern `like` with payload `meta`: the path of
      `Normalize(like)` is inserted and, unless it is empty, its final node
      becomes terminal with `like` and `meta`. */
  function Save<M>(nodes: seq<Node<M>>, like: string, meta: M): (r: seq<Node<M>>)
    requires WellFormed(nodes)
    ensures WellFormed(r)
  {
    var (grown, end) := InsertPath(nodes, 0, Normalize(like));
    if end == 0 then grown else Stamp(grown, end, like, meta)
  }

  /** Node `e` becomes terminal and stores `like` and `meta`. */
  function Stamp<M>(nodes: seq<Node<M>>, e: nat, like: string, meta: M): (r: seq<Node<M>>)
    requires WellFormed(nodes) && 0 < e < |nodes|
    ensures WellFormed(r) && |r| == |nodes|
    ensures r[e].term && r[e].expr == like && r[e].meta == Some(meta)
    ensures forall j :: 0 <= j < |nodes| && j != e ==> r[j] == nodes[j]
  {
    var r := nodes[e := nodes[e].(term := true, expr := like, meta := Some(meta))];
    assert forall j :: 0 <= j < |r| ==> r[j].children == nodes[j].children && r[j].wildnode == nodes[j].wildnode;
    r
  }

  /** Every terminal node holds a pattern whose path leads to that node. */
  ghost predicate Registered<M>(nodes: seq<Node<M>>) {
    WellFormed(nodes) &&
    forall k :: 0 <= k < |nodes| && nodes[k].term ==> Walk(nodes, 0, Normalize(nodes[k].expr)) == Some(k)
  }

  /** The pattern and payload stored at the end of path `p`, if any. */
  ghost function Payload<M>(nodes: seq<Node<M>>, p: seq<Token>): Option<(string, Option<M>)>
    requires WellFormed(nodes)
  {
    match Walk(nodes, 0, p)
    case Some(k) => if nodes[k].term then Some((nodes[k].expr, nodes[k].meta)) else None
    case None => None
  }

  /** The number of tokens of `toks` that have no edge yet, walking from `i`. */
  function Missing<M>(nodes: seq<Node<M>>, i: nat, toks: seq<Token>): nat
    requires WellFormed(nodes) && i < |nodes|
    decreases |toks|
  {
    if toks == [] then 0
    else match Edge(nodes, i, toks[0])
      case Some(j) => Missing(nodes, j, toks[1..])
      case None => |toks|
  }

  // Lemmas about growth

  lemma GrowsTransitive<M>(a: seq<Node<M>>, b: seq<Node<M>>, c: seq<Node<M>>)
    requires Grows(a, b) && Grows(b, c)
    ensures Grows(a, c)
  {
    forall i | 0 <= i < |a| ensures NodeGrows(a[i], c[i]) {
      assert NodeGrows(a[i], b[i]) && NodeGrows(b[i], c[i]);
    }
  }

  lemma EdgeGrows<M>(a: seq<Node<M>>, b: seq<Node<M>>, i: nat, t: Token)
    requires WellFormed(a) && WellFormed(b) && Grows(a, b) && i < |a|
    ensures Edge(a, i, t).Some? ==> Edge(b, i, t) == Edge(a, i, t)
  {
    assert NodeGrows(a[i], b[i]);
  }

  /** A walk that exists keeps existing, to the same node, as the arena grows. */
  lemma {:induction false} WalkGrows<M>(a: seq<Node<M>>, b: seq<Node<M>>, i: nat, p: seq<Token>, k: nat)
    requires WellFormed(a) && WellFormed(b) && Grows(a, b) && i < |a|
    requires Walk(a, i, p) == Some(k)
    ensures Walk(b, i, p) == Some(k)
    decreases |p|
  {
    if p != [] {
      EdgeGrows(a, b, i, p[0]);
      WalkGrows(a, b, Edge(a, i, p[0]).value, p[1..], k);
    }
  }

  // Insertion reuses what exists and creates only what is missing

  /** Inserting a path that already exists changes nothing. */
  lemma {:induction false} InsertExisting<M>(nodes: seq<Node<M>>, i: nat, toks: seq<Token>, k: nat)
    requires WellFormed(nodes) && i < |nodes| && Walk(nodes, i, toks) == Some(k)
    ensures InsertPath(nodes, i, toks) == (nodes, k)
    decreases |toks|
  {
    if toks != [] {
      InsertExisting(nodes, Edge(nodes, i, toks[0]).value, toks[1..], k);
    }
  }

  /** Insertion appends exactly one node per missing token, and no more. */
  lemma {:induction false} InsertCreatesMissing<M>(nodes: seq<Node<M>>, i: nat, toks: seq<Token>)
    requires WellFormed(nodes) && i < |nodes|
    ensures |InsertPath(nodes, i, toks).0| == |nodes| + Missing(nodes, i, toks)
    decreases |toks|
  {
    if toks != [] {
      match Edge(nodes, i, toks[0])
      case Some(j) => InsertCreatesMissing(nodes, j, toks[1..]);
      case None =>
        var grown := match toks[0]
                     case Lit(c) => WithLitChild(nodes, i, c)
                     case Wild => WithWildChild(nodes, i);
        InsertIntoFresh(grown, |nodes|, toks[1..]);
    }
  }

  /** From a node without edges every token is missing. */
  lemma {:induction false} InsertIntoFresh<M>(nodes: seq<Node<M>>, i: nat, toks: seq<Token>)
    requires WellFormed(nodes) && i < |nodes|
    requires nodes[i].children == map[] && nodes[i].wildnode.None? && i == |nodes| - 1
    ensures |InsertPath(nodes, i, toks).0| == |nodes| + |toks|
    decreases |toks|
  {
    if toks != [] {
      var grown := match toks[0]
                   case Lit(c) => WithLitChild(nodes, i, c)
                   case Wild => WithWildChild(nodes, i);
      InsertIntoFresh(grown, |nodes|, toks[1..]);
    }
  }

  // Insertion keeps the arena a tree

  /** After adding a literal child, old nodes keep their parents and the new
      node's only parent is `i`. */
  lemma WithLitChildLinks<M>(nodes: seq<Node<M>>, i: nat, c: char, p: nat, k: nat)
    requires WellFormed(nodes) && i < |nodes| && c !in nodes[i].children
    requires p <= |nodes| && k <= |nodes|
    ensures IsChild(WithLitChild(nodes, i, c), p, k) <==>
              (if k < |nodes| then p < |nodes| && IsChild(nodes, p, k) else p == i)
  {
    var r := WithLitChild(nodes, i, c);
    if p < |nodes| && k < |nodes| && p == i {
      assert r[p].children == nodes[p].children[c := |nodes|];
    }
  }

  lemma WithLitChildTree<M>(nodes: seq<Node<M>>, i: nat, c: char)
    requires Valid(nodes) && i < |nodes| && c !in nodes[i].children
    ensures Tree(WithLitChild(nodes, i, c))
  {
    var r := WithLitChild(nodes, i, c);
    var n := |nodes|;
    forall p, k | 0 <= p < |r| && 0 <= k < |r|
      ensures IsChild(r, p, k) <==> (if k < n then p < n && IsChild(nodes, p, k) else p == i)
    {
      WithLitChildLinks(nodes, i, c, p, k);
    }
    forall k | 0 < k < |r| ensures HasParent(r, k) {
      if k < n {
        assert HasParent(nodes, k);
        var p :| 0 <= p < k && IsChild(nodes, p, k);
        assert IsChild(r, p, k);
      } else {
        assert IsChild(r, i, k);
      }
    }
  }

  lemma WithWildChildTree<M>(nodes: seq<Node<M>>, i: nat)
    requires Valid(nodes) && i < |nodes| && nodes[i].wildnode.None?
    ensures Tree(WithWildChild(nodes, i))
  {
    var r := WithWildChild(nodes, i);
    var n := |nodes|;
    forall p, k | 0 <= p < |r| && 0 <= k < |r|
      ensures IsChild(r, p, k) <==> (if k < n then p < n && IsChild(nodes, p, k) else p == i)
    {
    }
    forall k | 0 < k < |r| ensures HasParent(r, k) {
      if k < n {
        assert HasParent(nodes, k);
        var p :| 0 <= p < k && IsChild(nodes, p, k);
        assert IsChild(r, p, k);
      } else {
        assert IsChild(r, i, k);
      }
    }
  }

  lemma {:induction false} InsertPathTree<M>(nodes: seq<Node<M>>, i: nat, toks: seq<Token>)
    requires Valid(nodes) && i < |nodes|
    ensures Tree(InsertPath(nodes, i, toks).0)
    decreases |toks|
  {
    if toks != [] {
      match Edge(nodes, i, toks[0])
      case Some(j) => InsertPathTree(nodes, j, toks[1..]);
      case None =>
        match toks[0]
        case Lit(c) =>
          WithLitChildTree(nodes, i, c);
          InsertPathTree(WithLitChild(nodes, i, c), |nodes|, toks[1..]);
        case Wild =>
          WithWildChildTree(nodes, i);
          InsertPathTree(WithWildChild(nodes, i), |nodes|, toks[1..]);
    }
  }

  /** Changing only payloads leaves the ownership tree as it was. */
  lemma PayloadUpdateTree<M>(a: seq<Node<M>>, e: nat, like: string, meta: M)
    requires WellFormed(a) && Tree(a) && 0 < e < |a|
    ensures Tree(Stamp(a, e, like, meta))
  {
    var b := Stamp(a, e, like, meta);
    forall p, k | 0 <= p < |a| && 0 <= k < |a| ensures IsChild(b, p, k) == IsChild(a, p, k) {
    }
    forall k | 0 < k < |a| ensures HasParent(b, k) {
      assert HasParent(a, k);
      var p :| 0 <= p < k && IsChild(a, p, k);
      assert IsChild(b, p, k);
    }
  }

  // What saving does

  /** Saving keeps the structural invariants and the link between every
      terminal node and the path of its pattern. */
  lemma SaveKeepsInvariants<M>(nodes: seq<Node<M>>, like: string, meta: M)
    requires Valid(nodes) && Registered(nodes)
    ensures Valid(Save(nodes, like, meta)) && Registered(Save(nodes, like, meta))
  {
    var (grown, end) := InsertPath(nodes, 0, Normalize(like));
    InsertPathFacts(nodes, 0, Normalize(like));
    var r := Save(nodes, like, meta);
    InsertPathTree(nodes, 0, Normalize(like));
    if end != 0 {
      PayloadUpdateTree(grown, end, like, meta);
    }
    forall k | 0 <= k < |r| && r[k].term ensures Walk(r, 0, Normalize(r[k].expr)) == Some(k) {
      if k == end {
        assert r[k].expr == like;
        if end != 0 {
          StampKeepsWalks(grown, end, like, meta, 0, Normalize(like), end);
        }
      } else {
        assert grown[k].term && k < |nodes|;
        assert NodeGrows(nodes[k], grown[k]);
        WalkGrows(nodes, grown, 0, Normalize(nodes[k].expr), k);
        if end != 0 {
          StampKeepsWalks(grown, end, like, meta, 0, Normalize(nodes[k].expr), k);
        }
      }
    }
  }

  /** Stamping a payload leaves every walk as it was. */
  lemma {:induction false} StampKeepsWalks<M>(nodes: seq<Node<M>>, e: nat, like: string, meta: M,
                                              i: nat, p: seq<Token>, k: nat)
    requires WellFormed(nodes) && 0 < e < |nodes| && i < |nodes|
    requires Walk(nodes, i, p) == Some(k)
    ensures Walk(Stamp(nodes, e, like, meta), i, p) == Some(k)
    decreases |p|
  {
    var r := Stamp(nodes, e, like, meta);
    if p != [] {
      assert r[i].children == nodes[i].children && r[i].wildnode == nodes[i].wildnode;
      StampKeepsWalks(nodes, e, like, meta, Edge(nodes, i, p[0]).value, p[1..], k);
    }
  }

  /** The effect of one save, as the caller observes it.  An empty path leaves
      the trie unchanged.  Otherwise the path of the pattern ends at a
      terminal node other than the root that holds `like` and `meta`; every
      path that existed still leads to the same node; the nodes appended are
      exactly the missing ones; and no other node is terminal unless it was. */
  lemma SaveEffect<M>(nodes: seq<Node<M>>, like: string, meta: M)
    requires Valid(nodes) && Registered(nodes)
    ensures Normalize(like) == [] ==> Save(nodes, like, meta) == nodes
    ensures Normalize(like) != [] ==>
              exists e :: 0 < e < |Save(nodes, like, meta)| &&
                Walk(Save(nodes, like, meta), 0, Normalize(like)) == Some(e) &&
                Save(nodes, like, meta)[e].term && Save(nodes, like, meta)[e].expr == like &&
                Save(nodes, like, meta)[e].meta == Some(meta)
    ensures |Save(nodes, like, meta)| == |nodes| + Missing(nodes, 0, Normalize(like))
    ensures forall p, k :: Walk(nodes, 0, p) == Some(k) ==> Walk(Save(nodes, like, meta), 0, p) == Some(k)
    ensures forall p :: p != Normalize(like) ==> Payload(Save(nodes, like, meta), p) == Payload(nodes, p)
  {
    var toks := Normalize(like);
    var (grown, end) := InsertPath(nodes, 0, toks);
    InsertPathFacts(nodes, 0, toks);
    var r := Save(nodes, like, meta);
    InsertCreatesMissing(nodes, 0, toks);
    SaveKeepsInvariants(nodes, like, meta);
    if end != 0 {
      StampKeepsWalks(grown, end, like, meta, 0, toks, end);
    }
    forall p, k | Walk(nodes, 0, p) == Some(k) ensures Walk(r, 0, p) == Some(k) {
      WalkGrows(nodes, grown, 0, p, k);
      if end != 0 {
        StampKeepsWalks(grown, end, like, meta, 0, p, k);
      }
    }
    forall p | p != toks ensures Payload(r, p) == Payload(nodes, p) {
      PayloadElsewhere(nodes, like, meta, p);
    }
  }

  /** Saving one pattern leaves the payload at every other path alone. */
  lemma PayloadElsewhere<M>(nodes: seq<Node<M>>, like: string, meta: M, p: seq<Token>)
    requires Valid(nodes) && Registered(nodes) && p != Normalize(like)
    ensures Payload(Save(nodes, like, meta), p) == Payload(nodes, p)
  {
    match Walk(nodes, 0, p)
    case Some(k) => PayloadOnOldPath(nodes, like, meta, p, k);
    case None => PayloadOnNewPath(nodes, like, meta, p);
  }

  /** A path that existed before the save keeps its payload. */
  lemma PayloadOnOldPath<M>(nodes: seq<Node<M>>, like: string, meta: M, p: seq<Token>, k: nat)
    requires Valid(nodes) && Registered(nodes) && p != Normalize(like)
    requires Walk(nodes, 0, p) == Some(k)
    ensures Payload(Save(nodes, like, meta), p) == Payload(nodes, p)
  {
    var toks := Normalize(like);
    var (grown, end) := InsertPath(nodes, 0, toks);
    InsertPathFacts(nodes, 0, toks);
    var r := Save(nodes, like, meta);
    SaveKeepsInvariants(nodes, like, meta);
    WalkGrows(nodes, grown, 0, p, k);
    if end != 0 {
      StampKeepsWalks(grown, end, like, meta, 0, toks, end);
      StampKeepsWalks(grown, end, like, meta, 0, p, k);
      if k == end {
        WalkInjective(r, p, toks, k);
      }
    }
    assert NodeGrows(nodes[k], grown[k]);
  }

  /** A path created by the save holds nothing unless it is the pattern's. */
  lemma PayloadOnNewPath<M>(nodes: seq<Node<M>>, like: string, meta: M, p: seq<Token>)
    requires Valid(nodes) && Registered(nodes) && p != Normalize(like)
    requires Walk(nodes, 0, p).None?
    ensures Payload(Save(nodes, like, meta), p).None?
  {
    var toks := Normalize(like);
    var (grown, end) := InsertPath(nodes, 0, toks);
    InsertPathFacts(nodes, 0, toks);
    var r := Save(nodes, like, meta);
    SaveKeepsInvariants(nodes, like, meta);
    if end != 0 {
      StampKeepsWalks(grown, end, like, meta, 0, toks, end);
    }
    match Walk(r, 0, p)
    case None =>
    case Some(k) =>
      if r[k].term {
        if k == end {
          WalkInjective(r, p, toks, k);
        } else {
          assert grown[k].term && k < |nodes|;
          assert NodeGrows(nodes[k], grown[k]);
          var q := Normalize(nodes[k].expr);
          WalkGrows(nodes, grown, 0, q, k);
          if end != 0 {
            StampKeepsWalks(grown, end, like, meta, 0, q, k);
          }
          WalkInjective(r, p, q, k);
          assert false;
        }
      }
  }

  /** Last write wins: saving a pattern over one that has the same path gives
      the trie that saving the second alone gives. */
  lemma SaveOverwrites<M>(nodes: seq<Node<M>>, like1: string, meta1: M, like2: string, meta2: M)
    requires WellFormed(nodes) && Normalize(like1) == Normalize(like2)
    ensures Save(Save(nodes, like1, meta1), like2, meta2) == Save(nodes, like2, meta2)
  {
    var toks := Normalize(like1);
    var (grown, end) := InsertPath(nodes, 0, toks);
    InsertPathFacts(nodes, 0, toks);
    var r1 := Save(nodes, like1, meta1);
    if end != 0 {
      StampKeepsWalks(grown, end, like1, meta1, 0, toks, end);
    }
    InsertExisting(r1, 0, toks, end);
  }

  /** Saving the same pattern and payload twice is saving it once. */
  lemma SaveIdempotent<M>(nodes: seq<Node<M>>, like: string, meta: M)
    requires WellFormed(nodes)
    ensures Save(Save(nodes, like, meta), like, meta) == Save(nodes, like, meta)
  {
    SaveOverwrites(nodes, like, meta, like, meta);
  }

  /** The pattern last saved is what its path now holds. */
  lemma SaveStores<M>(nodes: seq<Node<M>>, like: string, meta: M)
    requires WellFormed(nodes) && Normalize(like) != []
    ensures Payload(Save(nodes, like, meta), Normalize(like)) == Some((like, Some(meta)))
  {
    var toks := Normalize(like);
    var (grown, end) := InsertPath(nodes, 0, toks);
    InsertPathFacts(nodes, 0, toks);
    StampKeepsWalks(grown, end, like, meta, 0, toks, end);
  }

  /** A successful lookup returns a saved pattern whose LIKE meaning matches
      the text, together with the payload stored with it. */
  lemma FoundPatternMatches<M>(nodes: seq<Node<M>>, text: string)
    requires Valid(nodes) && Registered(nodes) && Find(nodes, 0, text).err == Ok
    ensures Matches(Normalize(Find(nodes, 0, text).expr), text)
    ensures Payload(nodes, Normalize(Find(nodes, 0, text).expr)) ==
              Some((Find(nodes, 0, text).expr, Find(nodes, 0, text).meta))
  {
    var k, p := FindSound(nodes, 0, text);
    WalkInjective(nodes, p, Normalize(nodes[k].expr), k);
  }

  /** A text that a stored path matches in a findable way is found. */
  lemma FindsStoredMatch<M>(nodes: seq<Node<M>>, p: seq<Token>, text: string)
    requires WellFormed(nodes) && Payload(nodes, p).Some? && Findable(p, text)
    ensures Find(nodes, 0, text).err == Ok
  {
    FindComplete(nodes, text, p, Walk(nodes, 0, p).value);
  }

  /** Once a pattern is saved, every text it matches in a findable way is
      found, by it or by a pattern tried before it. */
  lemma SaveFindsMatches<M>(nodes: seq<Node<M>>, like: string, meta: M, text: string)
    requires WellFormed(nodes) && Normalize(like) != [] && Findable(Normalize(like), text)
    ensures Find(Save(nodes, like, meta), 0, text).err == Ok
  {
    SaveStores(nodes, like, meta);
    FindsStoredMatch(Save(nodes, like, meta), Normalize(like), text);
  }

  /** In a registered arena, a text that the path of any stored pattern
      matches in a findable way is found. */
  lemma FindsEverySavedMatch<M>(nodes: seq<Node<M>>, text: string)
    requires Registered(nodes)
    ensures forall k :: 0 <= k < |nodes| && nodes[k].term && Findable(Normalize(nodes[k].expr), text) ==>
              Find(nodes, 0, text).err == Ok
  {
    forall k | 0 <= k < |nodes| && nodes[k].term && Findable(Normalize(nodes[k].expr), text) {
      FindComplete(nodes, text, Normalize(nodes[k].expr), k);
    }
  }

  /** A text equal to the literal path of a stored pattern finds that pattern
      and its payload, before any wildcard pattern that could also match. */
  lemma LiteralTextFindsPayload<M>(nodes: seq<Node<M>>, text: string, like: string, meta: Option<M>)
    requires WellFormed(nodes) && Payload(nodes, Lits(text)) == Some((like, meta))
    ensures Find(nodes, 0, text) == Reply(like, meta, Ok)
  {
    LiteralTextFirst(nodes, text, Walk(nodes, 0, Lits(text)).value);
  }

  /** Saving a text in its escaped form makes that text find it, whatever
      wildcard patterns are already stored (as when `test-[%]-post` is found
      for the text `test-%-post` next to the pattern `test-%-post`). */
  lemma EscapedSaveFindsText<M>(nodes: seq<Node<M>>, text: string, meta: M)
    requires WellFormed(nodes) && text != []
    ensures Find(Save(nodes, Escape(text), meta), 0, text) == Reply(Escape(text), Some(meta), Ok)
  {
    EscapeRoundTrip(text);
    SaveStores(nodes, Escape(text), meta);
    LiteralTextFindsPayload(Save(nodes, Escape(text), meta), text, Escape(text), Some(meta));
  }

  /** A plain pattern (no `%`, no `[`) finds itself once saved. */
  lemma PlainSaveFindsText<M>(nodes: seq<Node<M>>, text: string, meta: M)
    requires WellFormed(nodes) && text != [] && '[' !in text && '%' !in text
    ensures Find(Save(nodes, text, meta), 0, text) == Reply(text, Some(meta), Ok)
  {
    PlainPatternIsLiteral(text);
    SaveStores(nodes, text, meta);
    LiteralTextFindsPayload(Save(nodes, text, meta), text, text, Some(meta));
  }
}
