/** The lookup: a read-only, priority-ordered, depth-first backtracking search
    over the arena that returns the first terminal node it reaches. */
module Matcher {
  import opened LikeNode
  import opened Pattern

  datatype Status = Ok | ExpressionNotFound

  /** The three named results of the lookup: pattern, payload and error. */
  datatype Reply<M> = Reply(expr: string, meta: Option<M>, err: Status)

  /** The named results as they stand before any attempt: empty pattern, nil
      payload, not found. */
  function NotFound<M>(): Reply<M> {
    Reply("", None, ExpressionNotFound)
  }

  /** Lookup of `runes` at node `i`.  At a literal node, `runes[0]` is the rune
      already spent on the edge into the node; at the root and at a wildcard
      node nothing of `runes` is spent yet.  A failed attempt leaves its own
      results in place, and a node whose attempts all fail returns those of
      the last attempt made, or the initial ones when none was made.  Every
      recursive call either drops the first rune or moves to a child, whose
      index is larger. */
  function Find<M>(nodes: seq<Node<M>>, i: nat, runes: string): (r: Reply<M>)
    requires WellFormed(nodes) && i < |nodes|
    ensures r.err == ExpressionNotFound ==> r.expr == "" && r.meta == None
    ensures r.err == Ok ==>
              exists k :: i <= k < |nodes| && nodes[k].term && nodes[k].expr == r.expr && nodes[k].meta == r.meta
    decreases |runes|, |nodes| - i
  {
    if |runes| == 0 then NotFound()
    else
      var n, current := nodes[i], runes[0];
      if n.root then
        var r1 := if current in n.children then Find(nodes, n.children[current], runes) else NotFound();
        if r1.err == Ok then r1
        else if n.wildnode.Some? then Find(nodes, n.wildnode.value, runes)
        else r1
      else if |runes| == 1 then
        if n.term then Reply(n.expr, n.meta, Ok)
        else if n.wild && current in n.children && Find(nodes, n.children[current], runes).err == Ok then
          Find(nodes, n.children[current], runes)
        else NotFound()
      else
        var next := runes[1];
        if !n.wild then
          var r1 := if next in n.children then Find(nodes, n.children[next], runes[1..]) else NotFound();
          if r1.err == Ok then r1
          else if n.wildnode.Some? then Find(nodes, n.wildnode.value, runes[1..])
          else r1
        else
          var r1 := if current in n.children then Find(nodes, n.children[current], runes) else NotFound();
          if r1.err == Ok then r1
          else
            var r2 := if next in n.children then Find(nodes, n.children[next], runes[1..]) else r1;
            if r2.err == Ok then r2
            else Find(nodes, i, runes[1..])
  }

  /** An empty text matches nothing. */
  lemma EmptyTextNotFound<M>(nodes: seq<Node<M>>, i: nat)
    requires WellFormed(nodes) && i < |nodes|
    ensures Find(nodes, i, "") == NotFound()
  {
  }

  /** Soundness against LIKE matching: a successful lookup at node `i` ends at
      a terminal node `k` reached from `i` by a path `p` that matches the part
      of `runes` not yet spent (all of it at the root, all but the first rune
      at a literal node, and after a wildcard that is still open at a wildcard
      node). */
  lemma {:induction false} FindSound<M>(nodes: seq<Node<M>>, i: nat, runes: string) returns (k: nat, p: seq<Token>)
    requires WellFormed(nodes) && i < |nodes|
    requires Find(nodes, i, runes).err == Ok
    ensures runes != []
    ensures k < |nodes| && Walk(nodes, i, p) == Some(k) && nodes[k].term
    ensures nodes[k].expr == Find(nodes, i, runes).expr && nodes[k].meta == Find(nodes, i, runes).meta
    ensures nodes[i].root ==> Matches(p, runes)
    ensures !nodes[i].root && !nodes[i].wild ==> Matches(p, runes[1..])
    ensures nodes[i].wild ==> Matches([Wild] + p, runes)
    decreases |runes|, |nodes| - i
  {
    var n, current := nodes[i], runes[0];
    if n.root {
      if current in n.children && Find(nodes, n.children[current], runes).err == Ok {
        var j := n.children[current];
        var p';
        k, p' := FindSound(nodes, j, runes);
        p := [Lit(current)] + p';
        LitStep(nodes, i, current, p');
        assert p[1..] == p';
      } else {
        var j := n.wildnode.value;
        var p';
        k, p' := FindSound(nodes, j, runes);
        p := [Wild] + p';
        assert p[1..] == p';
      }
    } else if |runes| == 1 {
      if n.term {
        k, p := i, [];
        if n.wild {
          assert Matches([Wild], runes[1..]);
        }
      } else {
        var j := n.children[current];
        var p';
        k, p' := FindSound(nodes, j, runes);
        p := [Lit(current)] + p';
        LitStep(nodes, i, current, p');
        WildThenLit(current, p', runes);
      }
    } else {
      var next := runes[1];
      assert runes[1..][0] == next;
      if !n.wild {
        if next in n.children && Find(nodes, n.children[next], runes[1..]).err == Ok {
          var j := n.children[next];
          var p';
          k, p' := FindSound(nodes, j, runes[1..]);
          p := [Lit(next)] + p';
          LitStep(nodes, i, next, p');
          assert runes[1..][1..] == runes[2..];
        } else {
          var j := n.wildnode.value;
          var p';
          k, p' := FindSound(nodes, j, runes[1..]);
          p := [Wild] + p';
          assert p[1..] == p';
        }
      } else if current in n.children && Find(nodes, n.children[current], runes).err == Ok {
        var j := n.children[current];
        var p';
        k, p' := FindSound(nodes, j, runes);
        p := [Lit(current)] + p';
        LitStep(nodes, i, current, p');
        WildThenLit(current, p', runes);
      } else if next in n.children && Find(nodes, n.children[next], runes[1..]).err == Ok {
        var j := n.children[next];
        var p';
        k, p' := FindSound(nodes, j, runes[1..]);
        p := [Lit(next)] + p';
        LitStep(nodes, i, next, p');
        assert runes[1..][1..] == runes[2..];
        assert Matches(p, runes[1..]);
        assert ([Wild] + p)[1..] == p;
      } else {
        k, p := FindSound(nodes, i, runes[1..]);
      }
    }
  }

  /** Taking a literal edge and then walking `p'`. */
  lemma LitStep<M>(nodes: seq<Node<M>>, i: nat, c: char, p': seq<Token>)
    requires WellFormed(nodes) && i < |nodes| && c in nodes[i].children
    ensures Walk(nodes, i, [Lit(c)] + p') == Walk(nodes, nodes[i].children[c], p')
  {
    assert ([Lit(c)] + p')[1..] == p';
  }

  /** A wildcard that takes nothing, before the literal for the first rune. */
  lemma WildThenLit(c: char, p': seq<Token>, runes: string)
    requires runes != [] && runes[0] == c && Matches(p', runes[1..])
    ensures Matches([Wild] + ([Lit(c)] + p'), runes)
  {
    assert ([Wild] + ([Lit(c)] + p'))[1..] == [Lit(c)] + p';
    assert ([Lit(c)] + p')[1..] == p';
  }

  /** Literal edges are tried before wildcard ones: when the text, taken
      literally from node `i` on (its first rune spent on the edge into `i`),
      leads to a terminal node, the lookup returns that node's pattern and
      payload, whatever wildcard paths could also match. */
  lemma {:induction false} LiteralPathFirst<M>(nodes: seq<Node<M>>, i: nat, runes: string, k: nat)
    requires WellFormed(nodes) && 0 < i < |nodes| && !nodes[i].wild
    requires runes != [] && Walk(nodes, i, Lits(runes[1..])) == Some(k) && nodes[k].term
    ensures Find(nodes, i, runes) == Reply(nodes[k].expr, nodes[k].meta, Ok)
    decreases |runes|
  {
    if |runes| > 1 {
      var next := runes[1];
      assert Lits(runes[1..])[0] == Lit(next);
      assert Lits(runes[1..])[1..] == Lits(runes[1..][1..]);
      var j := nodes[i].children[next];
      LiteralPathFirst(nodes, j, runes[1..], k);
    }
  }

  /** The same from the root: a text that is the literal path of a terminal
      node finds that node's pattern and payload. */
  lemma LiteralTextFirst<M>(nodes: seq<Node<M>>, text: string, k: nat)
    requires WellFormed(nodes)
    requires Walk(nodes, 0, Lits(text)) == Some(k) && nodes[k].term
    ensures Find(nodes, 0, text) == Reply(nodes[k].expr, nodes[k].meta, Ok)
  {
    assert text != [];
    var j := nodes[0].children[text[0]];
    assert Lits(text)[0] == Lit(text[0]);
    assert Lits(text)[1..] == Lits(text[1..]);
    LiteralPathFirst(nodes, j, text, k);
  }

  /** A wildcard node that is not terminal and has no literal children finds
      nothing, whatever wildcard child it has: the lookup never tries it. */
  lemma {:induction false} WildDeadEnd<M>(nodes: seq<Node<M>>, i: nat, runes: string)
    requires WellFormed(nodes) && i < |nodes| && nodes[i].wild && !nodes[i].term && nodes[i].children == map[]
    ensures Find(nodes, i, runes) == NotFound()
    decreases |runes|
  {
    if |runes| > 1 {
      WildDeadEnd(nodes, i, runes[1..]);
    }
  }

  // Completeness

  /** A path without two wildcards in a row and without a wildcard at the end. */
  ghost predicate Tame(p: seq<Token>) {
    forall j :: 0 <= j < |p| && p[j].Wild? ==> j + 1 < |p| && p[j + 1].Lit?
  }

  /** The LIKE matches that the lookup is shown to find: a tame path that
      matches the text, or a tame path followed by a final wildcard that
      takes at least one rune. */
  ghost predicate Findable(p: seq<Token>, t: string) {
    (Tame(p) && Matches(p, t)) ||
    (p != [] && p[|p| - 1].Wild? && Tame(p[..|p| - 1]) &&
     exists u, v :: t == u + v && v != [] && Matches(p[..|p| - 1], u))
  }

  /** Path `q` from node `i` ends at the terminal node `k`, through one more
      wildcard edge when `n > 0`. */
  ghost predicate Ends<M>(nodes: seq<Node<M>>, i: nat, q: seq<Token>, n: nat, k: nat)
    requires WellFormed(nodes) && i < |nodes|
  {
    Walk(nodes, i, if n == 0 then q else q + [Wild]) == Some(k) && nodes[k].term
  }

  /** The first edge of such a path. */
  lemma EndsStep<M>(nodes: seq<Node<M>>, i: nat, q: seq<Token>, n: nat, k: nat) returns (j: nat)
    requires WellFormed(nodes) && i < |nodes| && q != [] && Ends(nodes, i, q, n, k)
    ensures Edge(nodes, i, q[0]) == Some(j) && Ends(nodes, j, q[1..], n, k)
  {
    var p := if n == 0 then q else q + [Wild];
    assert p[0] == q[0];
    assert p[1..] == if n == 0 then q[1..] else q[1..] + [Wild];
    j := Edge(nodes, i, q[0]).value;
  }

  /** A path that ends in a wildcard edge alone leads to the wildcard child. */
  lemma EndsAtWildnode<M>(nodes: seq<Node<M>>, i: nat, n: nat, k: nat)
    requires WellFormed(nodes) && i < |nodes| && n > 0 && Ends(nodes, i, [], n, k)
    ensures nodes[i].wildnode == Some(k) && nodes[k].wild && nodes[k].term
  {
    assert [] + [Wild] == [Wild] && [Wild][1..] == [];
  }

  lemma TameTail(q: seq<Token>)
    requires q != [] && Tame(q)
    ensures Tame(q[1..])
  {
    forall j | 0 <= j < |q| - 1 && q[1..][j].Wild? ensures j + 1 < |q| - 1 && q[1..][j + 1].Lit? {
      assert q[j + 1].Wild?;
    }
  }

  /** An open wildcard before a literal needs at least one rune. */
  lemma WildLitNeedsRune(q: seq<Token>, t: string)
    requires q != [] && q[0].Lit? && Matches([Wild] + q, t)
    ensures t != []
  {
    assert ([Wild] + q)[1..] == q;
  }

  /** A terminal wildcard node accepts every non-empty rest of the text. */
  lemma {:induction false} WildTermAcceptsAll<M>(nodes: seq<Node<M>>, k: nat, runes: string)
    requires WellFormed(nodes) && k < |nodes| && nodes[k].wild && nodes[k].term && runes != []
    ensures Find(nodes, k, runes).err == Ok
    decreases |runes|
  {
    if |runes| > 1 {
      WildTermAcceptsAll(nodes, k, runes[1..]);
    }
  }

  /** Matching a path that starts with a literal, after the spent rune. */
  lemma LitMatchStep(q: seq<Token>, runes: string, n: nat)
    requires q != [] && q[0].Lit? && n + 1 <= |runes| && Matches(q, runes[1..|runes| - n])
    ensures n + 1 < |runes| && runes[1] == q[0].c
    ensures Matches(q[1..], runes[1..][1..|runes[1..]| - n])
  {
    assert runes[1..][1..|runes[1..]| - n] == runes[1..|runes| - n][1..];
  }

  /** Matching a path that starts with a wildcard, after the spent rune. */
  lemma WildMatchStep(q: seq<Token>, runes: string, n: nat)
    requires Tame(q) && q != [] && q[0].Wild? && n + 1 <= |runes| && Matches(q, runes[1..|runes| - n])
    ensures n + 1 < |runes| && q[1..] != [] && q[1..][0].Lit? && Tame(q[1..])
    ensures Matches([Wild] + q[1..], runes[1..][..|runes[1..]| - n])
  {
    TameTail(q);
    assert q == [Wild] + q[1..];
    WildLitNeedsRune(q[1..], runes[1..|runes| - n]);
    assert runes[1..][..|runes[1..]| - n] == runes[1..|runes| - n];
  }

  /** A literal node succeeds when the child tried for the next rune, or its
      wildcard child, succeeds on the rest. */
  lemma LitNodeOk<M>(nodes: seq<Node<M>>, i: nat, runes: string, t: Token, j: nat)
    requires WellFormed(nodes) && 0 < i < |nodes| && !nodes[i].wild && |runes| > 1
    requires t == Lit(runes[1]) || t == Wild
    requires Edge(nodes, i, t) == Some(j) && Find(nodes, j, runes[1..]).err == Ok
    ensures Find(nodes, i, runes).err == Ok
  {
  }

  /** A wildcard node succeeds when the child for the first rune succeeds on
      the same runes, or when it succeeds itself on the rest. */
  lemma WildNodeOk<M>(nodes: seq<Node<M>>, i: nat, runes: string, j: nat)
    requires WellFormed(nodes) && i < |nodes| && nodes[i].wild && runes != []
    requires (Edge(nodes, i, Lit(runes[0])) == Some(j) && Find(nodes, j, runes).err == Ok) ||
             (|runes| > 1 && j == i && Find(nodes, i, runes[1..]).err == Ok)
    ensures Find(nodes, i, runes).err == Ok
  {
  }

  /** At a literal node whose rune `runes[0]` is spent: when a tame path `q`
      matches the rest of the text up to its last `n` runes, and those runes
      are left for a final wildcard when `n > 0`, the lookup succeeds. */
  lemma {:induction false} CompleteLit<M>(nodes: seq<Node<M>>, i: nat, runes: string, q: seq<Token>, n: nat, k: nat)
    requires WellFormed(nodes) && 0 < i < |nodes| && !nodes[i].wild
    requires Tame(q) && Ends(nodes, i, q, n, k)
    requires n + 1 <= |runes| && Matches(q, runes[1..|runes| - n])
    ensures Find(nodes, i, runes).err == Ok
    decreases |runes|, |nodes| - i, 1
  {
    if q == [] {
      if n > 0 {
        EndsAtWildnode(nodes, i, n, k);
        WildTermAcceptsAll(nodes, k, runes[1..]);
        LitNodeOk(nodes, i, runes, Wild, k);
      }
    } else if q[0].Lit? {
      CompleteLitByLit(nodes, i, runes, q, n, k);
    } else {
      CompleteLitByWild(nodes, i, runes, q, n, k);
    }
  }

  /** `CompleteLit` when the path goes on with a literal edge. */
  lemma {:induction false} CompleteLitByLit<M>(nodes: seq<Node<M>>, i: nat, runes: string, q: seq<Token>, n: nat, k: nat)
    requires WellFormed(nodes) && 0 < i < |nodes| && !nodes[i].wild
    requires q != [] && q[0].Lit? && Tame(q) && Ends(nodes, i, q, n, k)
    requires n + 1 <= |runes| && Matches(q, runes[1..|runes| - n])
    ensures Find(nodes, i, runes).err == Ok
    decreases |runes|, |nodes| - i, 0
  {
    var j := EndsStep(nodes, i, q, n, k);
    TameTail(q);
    LitMatchStep(q, runes, n);
    CompleteLit(nodes, j, runes[1..], q[1..], n, k);
    LitNodeOk(nodes, i, runes, q[0], j);
  }

  /** `CompleteLit` when the path goes on with a wildcard edge. */
  lemma {:induction false} CompleteLitByWild<M>(nodes: seq<Node<M>>, i: nat, runes: string, q: seq<Token>, n: nat, k: nat)
    requires WellFormed(nodes) && 0 < i < |nodes| && !nodes[i].wild
    requires q != [] && q[0].Wild? && Tame(q) && Ends(nodes, i, q, n, k)
    requires n + 1 <= |runes| && Matches(q, runes[1..|runes| - n])
    ensures Find(nodes, i, runes).err == Ok
    decreases |runes|, |nodes| - i, 0
  {
    var w := EndsStep(nodes, i, q, n, k);
    WildMatchStep(q, runes, n);
    CompleteWild(nodes, w, runes[1..], q[1..], n, k);
    LitNodeOk(nodes, i, runes, Wild, w);
  }

  /** At a wildcard node, nothing of `runes` spent: when the open wildcard
      followed by the tame path `q` matches the text up to its last `n`
      runes, the lookup succeeds. */
  lemma {:induction false} CompleteWild<M>(nodes: seq<Node<M>>, i: nat, runes: string, q: seq<Token>, n: nat, k: nat)
    requires WellFormed(nodes) && i < |nodes| && nodes[i].wild
    requires q != [] && q[0].Lit? && Tame(q) && Ends(nodes, i, q, n, k)
    requires n <= |runes| && Matches([Wild] + q, runes[..|runes| - n])
    ensures Find(nodes, i, runes).err == Ok
    decreases |runes|, |nodes| - i, 1
  {
    var s := runes[..|runes| - n];
    assert ([Wild] + q)[1..] == q;
    if Matches(q, s) {
      var j := EndsStep(nodes, i, q, n, k);
      TameTail(q);
      assert runes[1..|runes| - n] == s[1..];
      CompleteLit(nodes, j, runes, q[1..], n, k);
      WildNodeOk(nodes, i, runes, j);
    } else {
      WildLitNeedsRune(q, s[1..]);
      assert runes[1..][..|runes[1..]| - n] == s[1..];
      CompleteWild(nodes, i, runes[1..], q, n, k);
      WildNodeOk(nodes, i, runes, i);
    }
  }

  /** From the root: a tame path to a terminal node that matches the text up
      to its last `n` runes (left to a final wildcard when `n > 0`) is found. */
  lemma CompleteRoot<M>(nodes: seq<Node<M>>, text: string, p: seq<Token>, n: nat, k: nat)
    requires WellFormed(nodes) && Tame(p) && Ends(nodes, 0, p, n, k)
    requires n <= |text| && Matches(p, text[..|text| - n])
    ensures Find(nodes, 0, text).err == Ok
  {
    var s := text[..|text| - n];
    if p == [] {
      if n == 0 {
        assert false;
      }
      EndsAtWildnode(nodes, 0, n, k);
      WildTermAcceptsAll(nodes, k, text);
    } else if p[0].Lit? {
      var j := EndsStep(nodes, 0, p, n, k);
      TameTail(p);
      assert text[1..|text| - n] == s[1..];
      CompleteLit(nodes, j, text, p[1..], n, k);
    } else {
      var w := EndsStep(nodes, 0, p, n, k);
      TameTail(p);
      assert p == [Wild] + p[1..];
      WildLitNeedsRune(p[1..], s);
      CompleteWild(nodes, w, text, p[1..], n, k);
    }
  }

  /** Completeness: a text that a stored path matches in a findable way is
      found, by that pattern or by one tried before it. */
  lemma FindComplete<M>(nodes: seq<Node<M>>, text: string, p: seq<Token>, k: nat)
    requires WellFormed(nodes) && Walk(nodes, 0, p) == Some(k) && nodes[k].term
    requires Findable(p, text)
    ensures Find(nodes, 0, text).err == Ok
  {
    if Tame(p) && Matches(p, text) {
      assert text[..|text| - 0] == text;
      CompleteRoot(nodes, text, p, 0, k);
    } else {
      var u, v :| text == u + v && v != [] && Matches(p[..|p| - 1], u);
      assert p[..|p| - 1] + [Wild] == p;
      assert text[..|text| - |v|] == u;
      CompleteRoot(nodes, text, p[..|p| - 1], |v|, k);
    }
  }
}
