# LikeTrie: a verified model of the sqlike reverse-matching cache

`trie.go` of sqlike keeps a set of SQL `LIKE` patterns in a trie and answers,
for a text, which saved pattern matches it and what payload was saved with
it. A pattern can hold literal runes, `%` wildcards, and bracketed regions.
Inside a region `%` loses its wildcard meaning: a `[` followed later by some
`]` opens the region, and the first `]` after it closes it. This project
models the trie and its three operations in Dafny and proves what they
guarantee.

- `like_node.dfy` (module `LikeNode`): a node of the trie, `likeNode` in the
  source.
  - Nodes live in an append-only arena (`seq<Node<M>>`). The root is at index
    0, and a child always has a larger index than its parent. Each Go pointer
    becomes an index into this arena.
  - `Edge` and `Walk` follow the `children` and `wildnode` links.
  - The structural invariants are `WellFormed` and `Tree`: one parent per
    node, and `wild` set exactly on wildcard children.
- `pattern.dfy` (module `Pattern`): the protection scan of `SaveExpression`
  as the token sequence `Tokens` / `Normalize`.
  - The scan is pinned down by `ProtectedRunScan` (a protected run up to its
    `]`), `EscapeRoundTrip` (an escaped text scans to its own runes) and,
    for the loop itself, by the proof that `Trie.LikeTrie.InsertPattern`
    inserts exactly `Normalize` of its pattern. The single-step lemmas
    (`OpeningScan` and the like) are rewriting helpers for those proofs.
  - It also holds the escaping convention the scan implies (`[%]`, `[[]`).
  - `Matches` is LIKE matching over tokens. It is the reference meaning of a
    stored path.
- `matcher.dfy` (module `Matcher`): `findExpression` as the pure recursive
  function `Find`.
  - Its branches and their order are those of the source.
  - It reproduces the Go named results exactly: a failed attempt leaves its
    own `(expr, meta, err)` behind for the next one.
- `inserter.dfy` (module `Inserter`): saving as a function of the arena.
  - `InsertPath` follows or creates one edge per token.
  - `Save` inserts the path and then marks its last node.
  - The lemmas about `Save` cover reuse, growth, last write wins,
    idempotence, and preserved invariants.
  - Other lemmas connect saving with lookup: soundness against `Matches`,
    completeness for every path the lookup can pass, and literal-first
    priority.
- `like_trie.dfy` (module `Trie`): the `LikeTrie` class, with the arena as
  its field.
  - `SaveExpression` is the imperative scan: a `for` loop over the runes, a
    `protected` flag, and a cursor. It is proved equal to `Save`.
  - The scan loop lives in `InsertPattern`, and the `]` lookahead loop in
    `ClosesLater`. `SaveExpression` calls `InsertPattern`, then marks the
    final node.
  - `FindExpression` is the entry point of lookup.
- `scenarios.dfy` (module `Scenarios`): concrete arenas built by saving
  `a%` and `a%%b`. They show the two pattern shapes the lookup misses.

## Model

| member | source | states |
|---|---|---|
| LikeNode.Node | trie.go:10-19 | a node's fields, one for one; each pointer is an index into the arena and a nil pointer is `None` |
| LikeNode.RootNode | trie.go:111 | the root node alone is a well-formed arena and a tree |
| LikeNode.WildNode | trie.go:142-145 | a fresh wildcard child: wild, without rune, payload or edges (its effect on the arena is stated by `Inserter.WithWildChild`) |
| LikeNode.LitNode | trie.go:154-157 | a fresh literal child carrying its rune, without payload or edges (its effect on the arena is stated by `Inserter.WithLitChild`) |
| LikeNode.Edge | trie.go:17-18 | following the literal child for a rune or the wildcard child leads to a later node, which is a child of its origin and whose `wild` flag says which kind of edge it was |
| LikeNode.Walk | trie.go:17-18 | a path followed from a node ends at that node or a later one, and ends at the same node exactly when the path is empty |
| LikeNode.WalkInjective | trie.go:141-160 | since every created node hangs under exactly one parent, two paths from the root that reach the same node are equal |
| LikeNode.WildExactlyOnWildnodes | trie.go:141-159 | a node is `wild` exactly when it is some node's `wildnode`; literal children are never wild |
| Pattern.Tokens | trie.go:124-161 | the scan of a pattern into the token path the loop inserts, with the protection flag as a parameter; what it means is stated by the scan lemmas below and by `Trie.LikeTrie.InsertPattern` |
| Pattern.Normalize | trie.go:123-124 | a pattern's path is the scan of its runes started unprotected |
| Pattern.TokensBounds | trie.go:124-161 | the scan adds at most one edge per rune; each literal edge is a rune of the pattern, and a wildcard edge needs a `%` in it |
| Pattern.LiteralRunScan | trie.go:151-160 | outside protection, a run with no `[` and no `%` becomes one literal edge per rune, and the scan of the rest is unaffected |
| Pattern.ProtectedRunScan | trie.go:136-139 | under protection, every rune up to the first `]` is a literal, including `%` and `[`; that `]` adds no edge and ends protection |
| Pattern.OpeningScan | trie.go:126-149 | a rewriting helper: one scan step each for an unprotected `[` (dropped exactly when a later `]` exists), an unprotected `%` and a protected `]` |
| Pattern.BracketIdiomScan | trie.go:124-161 | `[[]%[]]` scans to a literal `[`, a wildcard and a literal `]`, between any plain prefix and any suffix |
| Pattern.UnclosedBracketScan | trie.go:126-135 | a `[` with no later `]` is stored as a literal `[` and protection stays off |
| Pattern.UnbracketedScan | trie.go:124-161 | in a pattern without `[`, each `%` is a wildcard and every other rune is a literal, one token per rune |
| Pattern.PlainPatternIsLiteral | trie.go:124-161 | a pattern with no `%` and no `[` is stored as its own runes, taken literally |
| Pattern.EscapeRuneScan | trie.go:126-139 | `[%]` and `[[]` each scan to one literal `%` or `[`, and leave protection off |
| Pattern.EscapeRoundTrip | trie.go:126-139 | escaping every `%` and `[` of a text yields a pattern whose path is exactly that text, taken literally |
| Pattern.LitsMatch | trie.go:151-160 | a path of literal edges matches, as LIKE, its own text and no other |
| Pattern.EscapeMatchesExactly | trie.go:126-139 | an escaped text, read as a pattern, matches that text and nothing else |
| Matcher.Status | trie.go:8 | the error result: `Ok` for nil, or `ExpressionNotFound` |
| Matcher.Reply | trie.go:21 | the three named results of the lookup: pattern, payload, error |
| Matcher.NotFound | trie.go:22-27 | the named results before any attempt: empty pattern, nil payload, not found |
| Matcher.Find | trie.go:21-99 | a failed lookup returns exactly the empty pattern, no payload and not-found; a successful one returns the pattern and payload of a terminal node at or after the start node |
| Matcher.EmptyTextNotFound | trie.go:24-27 | an empty text finds nothing |
| Matcher.FindSound | trie.go:21-99 | a successful lookup ends at a terminal node along a path that, taken as a LIKE pattern, matches the part of the text not yet spent (all of it at the root, all but its first rune at a literal node, and behind a still-open wildcard at a wildcard node) |
| Matcher.LiteralPathFirst | trie.go:64-78 | literal edges are tried before the wildcard child: when the rest of the text, taken literally, leads from a literal node to a terminal node, the lookup returns that node's pattern and payload |
| Matcher.LiteralTextFirst | trie.go:30-44 | from the root: a text whose literal path reaches a terminal node finds that node's pattern and payload, even if wildcard patterns also match it |
| Matcher.WildDeadEnd | trie.go:80-98 | a wildcard node that is not terminal and has no literal children finds nothing, whatever wildcard child hangs below it |
| Matcher.WildTermAcceptsAll | trie.go:49-98 | a terminal wildcard node accepts every non-empty rest of the text |
| Matcher.CompleteLit | trie.go:64-78 | at a literal node: a tame path (no `%%`, no `%` at its end) to a terminal node that matches the rest of the text, optionally followed by a final wildcard that takes at least one rune, makes the lookup succeed |
| Matcher.CompleteWild | trie.go:80-98 | the same at a wildcard node, where the open wildcard may take any number of runes before the path's next literal |
| Matcher.CompleteRoot | trie.go:30-44 | the same from the root, where nothing of the text is spent yet |
| Matcher.FindComplete | trie.go:21-99 | a text that a stored path matches is found whenever the path is tame, or is tame up to a final wildcard that takes at least one rune |
| Inserter.WithLitChild | trie.go:151-159 | adding the missing literal child for a rune appends one node, keeps the arena well formed, and makes the new node the child for that rune |
| Inserter.WithWildChild | trie.go:141-147 | adding the missing wildcard child appends one wild node, keeps the arena well formed, and makes it the `wildnode` |
| Inserter.InsertPath | trie.go:124-161 | inserting a token path keeps the arena well formed and returns a node of the new arena |
| Inserter.InsertPathFacts | trie.go:124-161 | inserting only grows the arena: old nodes keep their fields and links; afterwards the path leads from the start to the returned node, and appended nodes are not terminal |
| Inserter.InsertExisting | trie.go:141-152 | a path that already exists is reused: nothing changes and the cursor ends where the path ends |
| Inserter.InsertCreatesMissing | trie.go:141-160 | insertion appends exactly as many nodes as the path has tokens without an edge yet |
| Inserter.InsertIntoFresh | trie.go:153-159 | from a leaf, every token of the path creates a new node |
| Inserter.WithLitChildTree | trie.go:153-159 | adding a literal child keeps every node under exactly one parent |
| Inserter.WithWildChildTree | trie.go:141-147 | adding a wildcard child keeps every node under exactly one parent |
| Inserter.InsertPathTree | trie.go:124-161 | inserting a path keeps every node under exactly one parent |
| Inserter.Save | trie.go:117-167 | saving keeps the arena well formed |
| Inserter.Stamp | trie.go:162-166 | the final node becomes terminal with the pattern and payload; no other node changes |
| Inserter.PayloadUpdateTree | trie.go:162-166 | marking a node terminal does not change the tree shape |
| Inserter.StampKeepsWalks | trie.go:162-166 | marking a node terminal does not change where any path leads |
| Inserter.SaveKeepsInvariants | trie.go:117-167 | saving keeps the arena a well-formed tree in which every terminal node sits at the end of the path of the pattern it stores |
| Inserter.SaveEffect | trie.go:117-167 | a pattern whose path is empty (as `""` or `[]`) leaves the trie unchanged; otherwise its path ends at a terminal non-root node holding the pattern and payload; the appended nodes are exactly the missing ones; every old path leads where it did; no other path changes what it holds |
| Inserter.PayloadElsewhere | trie.go:162-166 | saving a pattern does not change what any other path holds |
| Inserter.PayloadOnOldPath | trie.go:162-166 | a path that existed before a save of another pattern still holds what it held |
| Inserter.PayloadOnNewPath | trie.go:153-166 | a path created by saving another pattern holds no pattern |
| Inserter.SaveOverwrites | trie.go:162-166 | saving a second pattern with the same path gives the same trie as saving only the second: last write wins |
| Inserter.SaveIdempotent | trie.go:117-167 | saving the same pattern and payload twice equals saving it once |
| Inserter.SaveStores | trie.go:162-166 | after a save, the pattern's path holds that pattern and payload |
| Inserter.FoundPatternMatches | trie.go:49-51 | whatever a lookup finds is a saved pattern whose LIKE meaning matches the text, paired with the payload last saved for that pattern's path |
| Inserter.LiteralTextFindsPayload | trie.go:64-78 | a text equal to the literal path of a stored pattern finds that pattern and its payload |
| Inserter.FindsStoredMatch | trie.go:21-99 | a text that a stored path matches, in one of the shapes above, is found |
| Inserter.SaveFindsMatches | trie.go:117-178 | once a pattern is saved, every text it matches in one of those shapes is found, by it or by a pattern tried before it |
| Inserter.FindsEverySavedMatch | trie.go:21-99 | in a registered arena, every text that the path of some stored pattern matches in one of those shapes is found |
| Inserter.EscapedSaveFindsText | trie.go:117-178 | after saving a text in escaped form (`test-[%]-post`), looking up that text (`test-%-post`) returns the escaped pattern and its payload, whichever wildcard patterns are also stored |
| Inserter.PlainSaveFindsText | trie.go:117-178 | after saving a non-empty pattern with no `%` and no `[`, looking it up returns that pattern and its payload |
| Trie.ClosesLater | trie.go:127-131 | the lookahead reports exactly whether a `]` occurs at or after the given position |
| Trie.LikeTrie.constructor | trie.go:109-114 | a new trie holds only the root and satisfies the invariant; the size argument has no effect |
| Trie.LikeTrie.InsertPattern | trie.go:121-161 | the scan loop over the runes, with its protection flag and cursor, leaves exactly the arena and cursor of inserting the pattern's token path from the root |
| Trie.LikeTrie.SaveExpression | trie.go:117-167 | the new arena is `Save` of the old one; the tree and registration invariant is kept |
| Trie.LikeTrie.FindExpression | trie.go:172-178 | returns the lookup from the root and changes nothing; an empty text and every failure give the empty pattern, no payload and not-found; a success gives a saved pattern that matches the text as LIKE, with the payload last saved for its path; and whenever some saved pattern matches the text in a shape the lookup can pass (no `%%`, and a final `%` taking at least one rune), the lookup succeeds |
| Scenarios.TrailingWildNeedsRune | trie.go:49-63 | after saving only `a%`, the text `ab` finds it and `a` does not, although `a%` matches `a` as LIKE |
| Scenarios.DoubleWildNotPassed | trie.go:80-98 | after saving only `a%%b`, the text `axb` is not found, although `a%%b` matches it as LIKE |

## Left out

- The `sync.RWMutex` of `LikeTrie` (trie.go:103,112,118-119,173-174) is not modelled: it is concurrency plumbing. Saving and lookup are sequential methods; lookup has no `modifies` clause and so cannot change the trie.
- The `size` argument of `NewLikeTrie` is accepted and ignored, like the unimplemented LRU limit behind it.
- The `[]rune` conversions (trie.go:121,176) are not modelled: text is a sequence of characters and no UTF-8 decoding takes place.
- The error value `ExpressionNotFound` is the `Status` constructor of the same name. A nil error is `Ok`.
- `interface{}` payloads become a type parameter `M`. A `nil` payload (not found) is `None`.
- Pointers become arena indices, and `make(map[rune]*likeNode)` is an empty Dafny map. An index could be shared by two parents; `Tree` states that it never is, and every save is proved to keep it.
- Matcher.Find: lookup is proved sound against LIKE matching, and complete except for two pattern shapes where the source itself misses matches. The model follows the source in both. First, a wildcard at the end of a pattern must take at least one rune (`Scenarios.TrailingWildNeedsRune`). Second, a wildcard node never tries its own wildcard child, so a path through `%%` is never passed (trie.go:80-98, `Matcher.WildDeadEnd`, `Scenarios.DoubleWildNotPassed`). `Matcher.FindComplete` covers every other path.
- Inserter.Save: its own contract says only that the arena stays well formed. What saving does is stated by `SaveEffect` and the lemmas after it.
