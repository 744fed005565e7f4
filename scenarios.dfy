/** Concrete arenas built by saving, showing the two pattern shapes that the
    lookup does not find: a wildcard at the end taking no rune, and two
    wildcards in a row. */
module Scenarios {
  import opened LikeNode
  import opened Pattern
  import opened Matcher
  import opened Inserter

  /** A trailing `%` takes at least one rune: after saving `a%` alone, the
      text `a` is not found although `a%` matches it as LIKE, while `ab` is
      found. */
  lemma TrailingWildNeedsRune(meta: int)
    ensures Matches(Normalize("a%"), "a")
    ensures Find(Save([RootNode<int>()], "a%", meta), 0, "a") == NotFound()
    ensures Find(Save([RootNode<int>()], "a%", meta), 0, "ab") == Reply("a%", Some(meta), Ok)
  {
    assert "a%" == "a" + "%";
    LiteralRunScan("a", "%");
    OpeningScan("");
    var toks := [Lit('a'), Wild];
    assert Normalize("a%") == toks;
    assert toks[1..] == [Wild] && [Wild][1..] == [] && "a"[1..] == [];
    var n0 := [RootNode<int>()];
    var n1 := WithLitChild(n0, 0, 'a');
    var n2 := WithWildChild(n1, 1);
    assert InsertPath(n0, 0, toks) == InsertPath(n1, 1, [Wild]);
    assert InsertPath(n1, 1, [Wild]) == InsertPath(n2, 2, []);
    var a := Stamp(n2, 2, "a%", meta);
    assert Save(n0, "a%", meta) == a;
    assert a[0].children == map['a' := 1] && a[0].wildnode.None?;
    assert !a[1].term && !a[1].wild && a[1].children == map[] && a[1].wildnode == Some(2);
    assert "ab"[1..] == "b";
    assert Find(a, 2, "b") == Reply("a%", Some(meta), Ok);
  }

  /** The path of `a%%b`. */
  lemma DoubleWildTokens()
    ensures Normalize("a%%b") == [Lit('a'), Wild, Wild, Lit('b')]
  {
    assert "a%%b" == "a" + "%%b" && "%%b" == "%" + "%b" && "%b" == "%" + "b" && "b" == "b" + "";
    LiteralRunScan("a", "%%b");
    OpeningScan("%b");
    OpeningScan("b");
    LiteralRunScan("b", "");
  }

  /** The arena and cursor after inserting the path of `a%%b` into a new
      trie. */
  lemma DoubleWildPath() returns (g: seq<Node<int>>)
    ensures InsertPath([RootNode<int>()], 0, [Lit('a'), Wild, Wild, Lit('b')]) == (g, 4) && |g| == 5
    ensures g[0].root && g[0].children == map['a' := 1] && g[0].wildnode.None?
    ensures !g[1].root && !g[1].wild && g[1].children == map[] && g[1].wildnode == Some(2)
    ensures g[2].wild && !g[2].term && g[2].children == map[]
  {
    var toks := [Lit('a'), Wild, Wild, Lit('b')];
    assert toks[1..] == [Wild, Wild, Lit('b')] && toks[1..][1..] == [Wild, Lit('b')];
    assert toks[1..][1..][1..] == [Lit('b')] && [Lit('b')][1..] == [];
    var n0 := [RootNode<int>()];
    var n1 := WithLitChild(n0, 0, 'a');
    var n2 := WithWildChild(n1, 1);
    var n3 := WithWildChild(n2, 2);
    g := WithLitChild(n3, 3, 'b');
    assert InsertPath(n0, 0, toks) == InsertPath(n1, 1, toks[1..]);
    assert InsertPath(n1, 1, toks[1..]) == InsertPath(n2, 2, toks[1..][1..]);
    assert InsertPath(n2, 2, toks[1..][1..]) == InsertPath(n3, 3, [Lit('b')]);
    assert InsertPath(n3, 3, [Lit('b')]) == InsertPath(g, 4, []);
  }

  /** The arena after saving `a%%b` alone: a literal `a` under the root, and
      below it a wildcard node without literal children. */
  lemma DoubleWildArena(meta: int) returns (a: seq<Node<int>>)
    ensures a == Save([RootNode<int>()], "a%%b", meta) && |a| == 5
    ensures a[0].root && a[0].children == map['a' := 1] && a[0].wildnode.None?
    ensures !a[1].root && !a[1].wild && a[1].children == map[] && a[1].wildnode == Some(2)
    ensures a[2].wild && !a[2].term && a[2].children == map[]
  {
    DoubleWildTokens();
    var g := DoubleWildPath();
    a := Stamp(g, 4, "a%%b", meta);
  }

  /** `a%%b` matches `axb` as LIKE. */
  lemma DoubleWildMatches()
    ensures Matches([Lit('a'), Wild, Wild, Lit('b')], "axb")
  {
    var toks := [Lit('a'), Wild, Wild, Lit('b')];
    assert toks[1..] == [Wild, Wild, Lit('b')] && toks[1..][1..] == [Wild, Lit('b')];
    assert toks[1..][1..][1..] == [Lit('b')] && [Lit('b')][1..] == [];
    assert "axb"[1..] == "xb" && "xb"[1..] == "b" && "b"[1..] == [];
  }

  /** Two wildcards in a row are never passed: after saving `a%%b` alone, the
      text `axb` is not found although `a%%b` matches it as LIKE, because a
      wildcard node does not try its own wildcard child. */
  lemma DoubleWildNotPassed(meta: int)
    ensures Matches(Normalize("a%%b"), "axb")
    ensures Find(Save([RootNode<int>()], "a%%b", meta), 0, "axb") == NotFound()
  {
    DoubleWildTokens();
    DoubleWildMatches();
    var a := DoubleWildArena(meta);
    assert "axb"[1..] == "xb";
    WildDeadEnd(a, 2, "xb");
  }
}
