/** What a pattern means: the protection scan that turns the characters of a
    LIKE pattern into the tokens of its trie path, the escaping convention that
    the scan implies, and LIKE matching of a token sequence against a text. */
module Pattern {
  import opened LikeNode

  /** The tokens produced by the scan over `s` when the protection flag is
      `protected` on entry.  An unprotected `[` with some `]` anywhere after it
      is dropped and turns protection on; the first `]` while protected is
      dropped and turns it off; an unprotected `%` is a wildcard; every other
      character, including a protected `%`, `[` or `]`, is a literal. */
  function Tokens(s: string, protected: bool): (r: seq<Token>)
    decreases |s|
  {
    if s == [] then []
    else if s[0] == '[' && !protected && ']' in s[1..] then Tokens(s[1..], true)
    else if s[0] == ']' && protected then Tokens(s[1..], false)
    else if s[0] == '%' && !protected then [Wild] + Tokens(s[1..], protected)
    else [Lit(s[0])] + Tokens(s[1..], protected)
  }

  /** The trie path of a pattern: the scan starts unprotected. */
  function Normalize(like: string): seq<Token> {
    Tokens(like, false)
  }

  /** The scan adds at most one edge per character; every literal edge is a
      character of the pattern, and a wildcard edge needs a `%` in it. */
  lemma {:induction false} TokensBounds(s: string, protected: bool)
    ensures |Tokens(s, protected)| <= |s|
    ensures forall j :: 0 <= j < |Tokens(s, protected)| ==>
              (Tokens(s, protected)[j].Lit? ==> Tokens(s, protected)[j].c in s) &&
              (Tokens(s, protected)[j].Wild? ==> '%' in s)
    decreases |s|
  {
    if s != [] {
      TokensBounds(s[1..], s[0] != ']' && (protected || s[0] == '['));
      TokensBounds(s[1..], protected);
      TokensBounds(s[1..], !protected);
      assert forall c :: c in s[1..] ==> c in s;
    }
  }

  /** The path of a text taken literally, one literal edge per character. */
  function Lits(t: string): (r: seq<Token>)
    ensures |r| == |t|
    ensures forall i :: 0 <= i < |t| ==> r[i] == Lit(t[i])
  {
    if t == [] then [] else [Lit(t[0])] + Lits(t[1..])
  }

  /** How a caller writes one character so that it is stored literally:
      `%` as `[%]`, `[` as `[[]`, anything else (`]` included) as itself. */
  function EscapeRune(c: char): string {
    if c == '%' then "[%]" else if c == '[' then "[[]" else [c]
  }

  /** A pattern that matches exactly the text `t`. */
  function Escape(t: string): string {
    if t == [] then [] else EscapeRune(t[0]) + Escape(t[1..])
  }

  /** LIKE matching: `Lit(c)` matches the character `c`, `Wild` matches any
      run of zero or more characters. */
  predicate Matches(p: seq<Token>, t: string)
    decreases |p| + |t|
  {
    if p == [] then t == []
    else match p[0]
      case Lit(c) => t != [] && t[0] == c && Matches(p[1..], t[1..])
      case Wild => Matches(p[1..], t) || (t != [] && Matches(p, t[1..]))
  }

  /** Without any `[`, protection never engages: each `%` is a wildcard and
      every other character is a literal. */
  lemma {:induction false} UnbracketedScan(s: string)
    requires '[' !in s
    ensures |Tokens(s, false)| == |s|
    ensures forall i :: 0 <= i < |s| ==>
              Tokens(s, false)[i] == if s[i] == '%' then Wild else Lit(s[i])
  {
    if s != [] {
      assert '[' !in s[1..];
      UnbracketedScan(s[1..]);
    }
  }

  /** Unprotected, a run without `[` or `%` is stored literally and leaves
      the scan of what follows unprotected. */
  lemma {:induction false} LiteralRunScan(a: string, b: string)
    requires '[' !in a && '%' !in a
    ensures Tokens(a + b, false) == Lits(a) + Tokens(b, false)
  {
    if a == [] {
      assert a + b == b;
    } else {
      assert (a + b)[0] == a[0] && (a + b)[1..] == a[1..] + b;
      assert '[' !in a[1..] && '%' !in a[1..];
      assert Lits(a) == [Lit(a[0])] + Lits(a[1..]);
      LiteralRunScan(a[1..], b);
    }
  }

  /** Protected, every rune up to the first `]` is a literal (a `%` and a
      `[` included); that `]` is dropped and ends the protection. */
  lemma {:induction false} ProtectedRunScan(a: string, b: string)
    requires ']' !in a
    ensures Tokens(a + "]" + b, true) == Lits(a) + Tokens(b, false)
  {
    if a == [] {
      assert a + "]" + b == "]" + b && ("]" + b)[1..] == b;
    } else {
      assert (a + "]" + b)[0] == a[0] && (a + "]" + b)[1..] == a[1..] + "]" + b;
      assert ']' !in a[1..];
      ProtectedRunScan(a[1..], b);
    }
  }

  /** An unprotected `[` is dropped and engages protection exactly when a
      `]` occurs somewhere after it; otherwise it is a literal.  An
      unprotected `%` is a wildcard, and a `]` under protection is dropped
      and ends it. */
  lemma OpeningScan(b: string)
    ensures ']' in b ==> Tokens("[" + b, false) == Tokens(b, true)
    ensures ']' !in b ==> Tokens("[" + b, false) == [Lit('[')] + Tokens(b, false)
    ensures Tokens("%" + b, false) == [Wild] + Tokens(b, false)
    ensures Tokens("]" + b, true) == Tokens(b, false)
  {
    assert ("[" + b)[1..] == b && ("%" + b)[1..] == b && ("]" + b)[1..] == b;
  }

  /** The idiom `[[]%[]]`: a literal `[`, a wildcard, then a literal `]`,
      whatever follows (as in `test-[[]%[]]-post`). */
  lemma BracketIdiomScan(pre: string, post: string)
    requires '[' !in pre && '%' !in pre
    ensures Normalize(pre + "[[]%[]]" + post) == Lits(pre) + [Lit('['), Wild, Lit(']')] + Normalize(post)
  {
    var s1 := "]" + post;
    var s2 := "]" + s1;
    var s3 := "[" + s2;
    var s4 := "%" + s3;
    var s6 := "[" + ("]" + s4);
    assert pre + "[[]%[]]" + post == pre + ("[" + s6);
    assert s6 == "[" + "]" + s4;
    assert s6[1] == ']' && s2[1] == ']';
    calc {
      Normalize(pre + "[[]%[]]" + post);
    == { LiteralRunScan(pre, "[" + s6); }
      Lits(pre) + Tokens("[" + s6, false);
    == { OpeningScan(s6); }
      Lits(pre) + Tokens(s6, true);
    == { ProtectedRunScan("[", s4); }
      Lits(pre) + ([Lit('[')] + Tokens(s4, false));
    == { OpeningScan(s3); }
      Lits(pre) + ([Lit('[')] + ([Wild] + Tokens(s3, false)));
    == { OpeningScan(s2); OpeningScan(s1); }
      Lits(pre) + ([Lit('[')] + ([Wild] + Tokens(s1, false)));
    == { LiteralRunScan("]", post); }
      Lits(pre) + [Lit('['), Wild, Lit(']')] + Normalize(post);
    }
  }

  /** A `[` with no `]` anywhere after it is a literal and leaves what
      follows unprotected (as in `test-[%-noclose`). */
  lemma UnclosedBracketScan(pre: string, post: string)
    requires '[' !in pre && '%' !in pre && ']' !in post
    ensures Normalize(pre + "[" + post) == Lits(pre) + [Lit('[')] + Normalize(post)
  {
    assert pre + "[" + post == pre + ("[" + post);
    LiteralRunScan(pre, "[" + post);
    OpeningScan(post);
  }

  /** A pattern with no `%` and no `[` is its own text, taken literally. */
  lemma PlainPatternIsLiteral(s: string)
    requires '[' !in s && '%' !in s
    ensures Normalize(s) == Lits(s)
  {
    UnbracketedScan(s);
  }

  /** One escaped character scans to one literal and leaves protection off. */
  lemma EscapeRuneScan(c: char, rest: string)
    ensures Tokens(EscapeRune(c) + rest, false) == [Lit(c)] + Tokens(rest, false)
  {
    var s := EscapeRune(c) + rest;
    if c == '%' || c == '[' {
      assert s[0] == '[' && s[2] == ']';
      assert s[1..][1] == ']';
      assert s[1..][1..] == s[2..];
      assert s[2..][1..] == rest;
      assert s[1..][0] == c;
      assert Tokens(s[1..], true) == [Lit(c)] + Tokens(s[2..], true);
    } else {
      assert s[1..] == rest;
    }
  }

  /** Round trip of the escaping convention: the escaped text scans to the
      text itself, taken literally. */
  lemma {:induction false} EscapeRoundTrip(t: string)
    ensures Normalize(Escape(t)) == Lits(t)
  {
    if t != [] {
      EscapeRuneScan(t[0], Escape(t[1..]));
      EscapeRoundTrip(t[1..]);
    }
  }

  /** A literal path matches exactly its own text. */
  lemma {:induction false} LitsMatch(t: string, u: string)
    ensures Matches(Lits(t), u) <==> u == t
  {
    if t != [] {
      assert Lits(t)[1..] == Lits(t[1..]);
      LitsMatch(t[1..], if u == [] then [] else u[1..]);
      if u != [] && u[0] == t[0] && u[1..] == t[1..] {
        assert u == [u[0]] + u[1..];
        assert t == [t[0]] + t[1..];
      }
    }
  }

  /** An escaped text, read as a LIKE pattern, matches that text and nothing
      else. */
  lemma EscapeMatchesExactly(t: string, u: string)
    ensures Matches(Normalize(Escape(t)), u) <==> u == t
  {
    EscapeRoundTrip(t);
    LitsMatch(t, u);
  }
}
