/** The trie node model: nodes live in an append-only arena (a sequence indexed
    by position, the root at index 0), and an edge is the index of the child.
    A child always has a larger index than its parent, which is what makes
    every walk over the arena terminate. */
module LikeNode {

  datatype Option<T> = None | Some(value: T)

  /** One position of a normalised pattern: a literal rune, or a `%` wildcard. */
  datatype Token = Lit(c: char) | Wild

  /** A `likeNode`: `val` is the rune of the edge into the node, `wild` marks a
      node reached through a wildcard edge, `term`/`expr`/`meta` the stored
      pattern, `root` the initial node, `wildnode` and `children` the edges.
      `meta` is `None` where the original holds a nil interface value. */
  datatype Node<M> = Node(
    val: char,
    wild: bool,
    term: bool,
    expr: string,
    meta: Option<M>,
    root: bool,
    wildnode: Option<nat>,
    children: map<char, nat>)

  /** The node that a new trie starts with; alone it is a valid arena. */
  function RootNode<M>(): (r: Node<M>)
    ensures Valid([r])
  {
    Node('\0', false, false, "", None, true, None, map[])
  }

  /** A fresh literal node for rune `r`. */
  function LitNode<M>(r: char): Node<M> {
    Node(r, false, false, "", None, false, None, map[])
  }

  /** A fresh wildcard node. */
  function WildNode<M>(): Node<M> {
    Node('\0', true, false, "", None, false, None, map[])
  }

  /** Shape of the arena: the root comes first, is the only root and is never
      terminal; every edge points forward and stays inside the arena; a literal
      child carries the rune it is keyed by and is not wild; a wildcard child
      is wild. */
  ghost predicate WellFormed<M>(nodes: seq<Node<M>>) {
    && |nodes| > 0
    && nodes[0].root && !nodes[0].wild && !nodes[0].term
    && (forall i :: 0 < i < |nodes| ==> !nodes[i].root)
    && (forall i, c :: 0 <= i < |nodes| && c in nodes[i].children ==>
          && i < nodes[i].children[c] < |nodes|
          && nodes[nodes[i].children[c]].val == c
          && !nodes[nodes[i].children[c]].wild)
    && (forall i :: 0 <= i < |nodes| && nodes[i].wildnode.Some? ==>
          i < nodes[i].wildnode.value < |nodes| && nodes[nodes[i].wildnode.value].wild)
  }

  /** Node `k` hangs off node `p`: as its wildcard child, or as the literal
      child for its own rune. */
  ghost predicate IsChild<M>(nodes: seq<Node<M>>, p: nat, k: nat)
    requires p < |nodes| && k < |nodes|
  {
    || nodes[p].wildnode == Some(k)
    || (nodes[k].val in nodes[p].children && nodes[p].children[nodes[k].val] == k)
  }

  /** Ownership is a tree: no node has two parents, and every node other than
      the root has a parent before it in the arena. */
  ghost predicate Tree<M>(nodes: seq<Node<M>>) {
    && (forall p, q, k ::
          (0 <= p < |nodes| && 0 <= q < |nodes| && 0 <= k < |nodes| &&
           IsChild(nodes, p, k) && IsChild(nodes, q, k)) ==> p == q)
    && (forall k :: 0 < k < |nodes| ==> HasParent(nodes, k))
  }

  ghost predicate HasParent<M>(nodes: seq<Node<M>>, k: nat)
    requires k < |nodes|
  {
    exists p :: 0 <= p < k && IsChild(nodes, p, k)
  }

  ghost predicate Valid<M>(nodes: seq<Node<M>>) {
    WellFormed(nodes) && Tree(nodes)
  }

  /** The node reached from node `i` over the edge for token `t`, if any. */
  function Edge<M>(nodes: seq<Node<M>>, i: nat, t: Token): (r: Option<nat>)
    requires WellFormed(nodes) && i < |nodes|
    ensures r.Some? ==> i < r.value < |nodes|
    ensures r.Some? ==> IsChild(nodes, i, r.value) && nodes[r.value].wild == t.Wild?
  {
    match t
    case Lit(c) => if c in nodes[i].children then Some(nodes[i].children[c]) else None
    case Wild => nodes[i].wildnode
  }

  /** The node reached from node `i` by following the edges for `p`. */
  function Walk<M>(nodes: seq<Node<M>>, i: nat, p: seq<Token>): (r: Option<nat>)
    requires WellFormed(nodes) && i < |nodes|
    ensures r.Some? ==> i <= r.value < |nodes| && (r.value == i <==> p == [])
    decreases |p|
  {
    if p == [] then Some(i)
    else
      match Edge(nodes, i, p[0])
      case None => None
      case Some(j) => Walk(nodes, j, p[1..])
  }

  /** Walking `p + [t]` is walking `p` and then taking the edge for `t`. */
  lemma {:induction false} WalkSnoc<M>(nodes: seq<Node<M>>, i: nat, p: seq<Token>, t: Token)
    requires WellFormed(nodes) && i < |nodes|
    ensures Walk(nodes, i, p + [t]) ==
              match Walk(nodes, i, p)
              case None => None
              case Some(j) => Edge(nodes, j, t)
    decreases |p|
  {
    if p == [] {
      assert ([] + [t])[1..] == [];
    } else {
      assert (p + [t])[0] == p[0];
      assert (p + [t])[1..] == p[1..] + [t];
      match Edge(nodes, i, p[0])
      case None =>
      case Some(j) => WalkSnoc(nodes, j, p[1..], t);
    }
  }

  /** The edge that leads into a node is determined by that node. */
  lemma EdgeDeterminedByTarget<M>(nodes: seq<Node<M>>, a: nat, t: Token, u: Token, k: nat)
    requires WellFormed(nodes) && a < |nodes|
    requires Edge(nodes, a, t) == Some(k) && Edge(nodes, a, u) == Some(k)
    ensures t == u
  {
  }

  /** In a tree, two paths from the root that reach the same node are equal:
      each node has exactly one path. */
  lemma {:induction false} WalkInjective<M>(nodes: seq<Node<M>>, p: seq<Token>, q: seq<Token>, k: nat)
    requires Valid(nodes)
    requires Walk(nodes, 0, p) == Some(k) && Walk(nodes, 0, q) == Some(k)
    ensures p == q
    decreases |p|
  {
    if p == [] || q == [] {
      return;
    }
    var p', t := p[..|p| - 1], p[|p| - 1];
    var q', u := q[..|q| - 1], q[|q| - 1];
    assert p == p' + [t];
    assert q == q' + [u];
    WalkSnoc(nodes, 0, p', t);
    WalkSnoc(nodes, 0, q', u);
    var a := Walk(nodes, 0, p').value;
    var b := Walk(nodes, 0, q').value;
    assert IsChild(nodes, a, k) && IsChild(nodes, b, k);
    assert a == b;
    EdgeDeterminedByTarget(nodes, a, t, u, k);
    WalkInjective(nodes, p', q', a);
  }

  /** Every node other than the root is the wildcard child of its parent
      exactly when it is wild. */
  lemma WildExactlyOnWildnodes<M>(nodes: seq<Node<M>>, k: nat)
    requires Valid(nodes) && 0 < k < |nodes|
    ensures nodes[k].wild <==> exists p :: 0 <= p < k && nodes[p].wildnode == Some(k)
  {
    assert HasParent(nodes, k);
  }
}
