/** The trie container: it owns the arena and offers the two operations,
    saving a pattern with its payload and looking a text up. */
module Trie {
  import opened LikeNode
  import opened Pattern
  import opened Matcher
  import opened Inserter

  /** Extending the scanned window by one rune. */
  lemma CloseStep(runes: string, a: nat, j: nat)
    requires a <= j < |runes|
    ensures (']' in runes[a..j + 1]) == ((']' in runes[a..j]) || runes[j] == ']')
  {
    assert runes[a..j + 1] == runes[a..j] + [runes[j]];
  }

  /** The lookahead of the scan: whether a `]` occurs at or after `from`. */
  method ClosesLater(runes: string, from: nat) returns (found: bool)
    requires from <= |runes|
    ensures found == (']' in runes[from..])
  {
    found := false;
    for j := from to |runes|
      invariant found == (']' in runes[from..j])
    {
      if runes[j] == ']' {
        found := true;
      }
      CloseStep(runes, from, j);
    }
    assert runes[from..|runes|] == runes[from..];
  }

  class LikeTrie<M> {
    var nodes: seq<Node<M>>

    /** The arena is a well-formed tree and every terminal node sits at the
        end of the path of the pattern it stores. */
    ghost predicate Valid()
      reads this
    {
      LikeNode.Valid(nodes) && Registered(nodes)
    }

    /** A trie holding only the root.  The size hint has no effect. */
    constructor (size: int)
      ensures Valid() && nodes == [RootNode()]
    {
      nodes := [RootNode()];
    }

    /** Saves pattern `like` with payload `meta`: the scan-and-insert pass
        over its runes, then the final node is marked unless it is the root. */
    method SaveExpression(like: string, meta: M)
      requires Valid()
      modifies this
      ensures Valid()
      ensures nodes == Save(old(nodes), like, meta)
    {
      var node := InsertPattern(like);
      if node != 0 {
        nodes := Stamp(nodes, node, like, meta);
      }
      SaveKeepsInvariants(old(nodes), like, meta);
    }

    /** The scan-and-insert pass of saving: one scan over the runes with the
        protection flag, moving a cursor from the root, reusing existing
        children and creating the missing ones.  Returns the final cursor. */
    method InsertPattern(like: string) returns (node: nat)
      requires WellFormed(nodes)
      modifies this
      ensures (nodes, node) == InsertPath(old(nodes), 0, Normalize(like))
    {
      var runes := like;
      node := 0;
      var protected := false;
      ghost var target := InsertPath(nodes, 0, Normalize(like));
      for i := 0 to |runes|
        invariant WellFormed(nodes) && node < |nodes|
        invariant InsertPath(nodes, node, Tokens(runes[i..], protected)) == target
      {
        var r := runes[i];
        ScanStep(runes, i, protected);
        ghost var rest := Tokens(runes[i + 1..], protected);
        if r == '[' && !protected {
          protected := ClosesLater(runes, i + 1);
          if protected {
            continue;
          }
        }
        if r == ']' && protected {
          protected := false;
          continue;
        }
        if r == '%' && !protected {
          WildInsertStep(nodes, node, rest);
          if nodes[node].wildnode.None? {
            nodes := WithWildChild(nodes, node);
          }
          node := nodes[node].wildnode.value;
          continue;
        }
        LitInsertStep(nodes, node, r, rest);
        if r in nodes[node].children {
          node := nodes[node].children[r];
        } else {
          var child := |nodes|;
          nodes := WithLitChild(nodes, node, r);
          node := child;
        }
      }
      assert runes[|runes|..] == [];
    }

    /** Looks `text` up: the pattern and payload of the first terminal node
        the search reaches, or not found. */
    method FindExpression(text: string) returns (expr: string, meta: Option<M>, err: Status)
      requires Valid()
      ensures Reply(expr, meta, err) == Find(nodes, 0, text)
      ensures text == [] ==> err == ExpressionNotFound
      ensures err == ExpressionNotFound ==> expr == "" && meta == None
      ensures err == Ok ==> Matches(Normalize(expr), text) && Payload(nodes, Normalize(expr)) == Some((expr, meta))
      ensures forall k :: 0 <= k < |nodes| && nodes[k].term && Findable(Normalize(nodes[k].expr), text) ==> err == Ok
    {
      FindsEverySavedMatch(nodes, text);
      var r := Find(nodes, 0, text);
      if r.err == Ok {
        FoundPatternMatches(nodes, text);
      }
      expr, meta, err := r.expr, r.meta, r.err;
    }
  }
}
