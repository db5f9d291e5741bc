# Word ladder graph

This project models the word-ladder program in Dafny and proves properties of the model. Words are the vertices of an undirected graph. Two words are linked when one character replacement, insertion or deletion turns one into the other. The program loads a list of words into that graph. It then precomputes all shortest paths with Floyd–Warshall and answers distance and path queries.

The model follows the Java code as written, defects included:

- `isAdjacent` reads past the end of the shorter word when it is a proper prefix of the longer one (CAT, CATS). The model returns an `IndexOutOfBounds` error there, and loading stops at that word.
- `removeAllEdges` removes only the first ceil(n/2) of a node's n edges.
- `removeVertex` never decrements `size`.
- The diagonal of the next-word matrix stays null, so the path from a word to itself is `[]`. The test suite expects `[w]`.
- A word that is not a vertex makes both queries fail with an out-of-range index.

Modules:

- `Outcomes`: `Option`, `Result` and the two failures (`IndexOutOfBounds`, `NullPointer`) that stand for the Java exceptions.
- `Lists`: the `ArrayList` operations used (`indexOf`, `remove(Object)`, `Collections.reverse`).
- `WordProcessor`: `isAdjacent`, proved against a definition of adjacency by replacement or deletion.
- `GraphNode`: all `GraphNode` objects as one arena. Node `h` is the `h`-th node created. Its edge list holds handles, so node identity is kept: a removed vertex's node keeps its stale edges, and a re-added vertex gets a new node.
- `UndirectedGraph`: `Graph` with `adjList` (vertex to node handle), `vertices` and `size`.
- `Adjacencies`: the graph's edges as a boolean matrix over list positions, and when such a matrix is well formed.
- `ShortestPaths`: the matrices of every Floyd–Warshall stage as recursive functions (`Dist`, `Next`) over an adjacency snapshot. It proves that the last stage gives shortest walks and that following the next hops spells one.
- `WordLadder`: `GraphProcessor` with its `vertices` list and its two `array2` matrices, the loading loop, the precomputation loops and the query methods.
- `SampleDictionary`: the seven words the test suite loads (CAT, CHAT, CHEAT, WHAT, WHEAT, BAG, WHO), their adjacencies, and the distances and paths the tests expect, in any order of listing.

## Model

| member | source | states |
|---|---|---|
| Lists.IndexOf | GraphProcessor.java:119 | the position of the first occurrence, and -1 exactly when the element is absent |
| Lists.Remove | GraphNode.java:58-59 | removing an element drops exactly one occurrence when present and changes nothing otherwise; a duplicate-free list stays duplicate-free and loses the element |
| Lists.RemoveFirst | GraphNode.java:58-59 | the occurrence dropped is the first one, and the rest keep their order |
| Lists.IndexOfDistinct | GraphProcessor.java:119 | in a duplicate-free list, the position found for the element at m is m |
| Lists.ReverseReverse | GraphProcessor.java:143-145 | reversing twice gives the list back |
| Lists.Reverse | GraphProcessor.java:143-145 | the reversed list has the same length, with element m at position n-1-m |
| WordProcessor.Mismatches | WordProcessor.java:112-121 | the number of differing positions is at most the word length |
| WordProcessor.MismatchesZero | WordProcessor.java:112-121 | no mismatch exactly when the two words are equal |
| WordProcessor.OneMismatchIsSubstitution | WordProcessor.java:112-123 | exactly one mismatch means the words differ by one replacement |
| WordProcessor.SubstitutionIsOneMismatch | WordProcessor.java:112-123 | words one replacement apart have exactly one mismatch |
| WordProcessor.SecondMismatchRulesOutDeletion | WordProcessor.java:136-141 | once a character has been skipped, a second mismatch rules out every single deletion |
| WordProcessor.IsAdjacent | WordProcessor.java:96-148 | false for equal words, an empty word or lengths more than one apart; an IndexOutOfBounds error exactly on a proper-prefix pair; otherwise true exactly when the words are one replacement, insertion or deletion apart |
| WordProcessor.DeletionScan | WordProcessor.java:127-147 | for lengths differing by one: an error exactly when the shorter word is a prefix of the longer; otherwise true exactly when one deletion from the longer gives the shorter |
| WordProcessor.AdjacentSymmetric | WordProcessor.java:127-129 | adjacency and the failing prefix case do not depend on the order of the two words |
| WordProcessor.LadderExamples | GraphProcessorTest.java:74-87 | CAT-CHAT, CHAT-WHAT, CHAT-CHEAT and WHAT-WHEAT are adjacent; CAT and CATS form the failing prefix case, CAT and CHAT do not |
| GraphNode.NodeArena.NewNode | GraphNode.java:19-22 | a new node gets the next handle, the given vertex and an empty edge list; all other nodes are unchanged |
| GraphNode.NodeArena.AddEdge | GraphNode.java:43-49 | an existing link changes nothing; otherwise each node is appended to the other's list and no other list changes; lists stay duplicate-free and mutual |
| GraphNode.NodeArena.RemoveEdge | GraphNode.java:56-62 | without a link nothing changes; otherwise each node is dropped from the other's list and no other list changes |
| GraphNode.NodeArena.RemoveAllEdges | GraphNode.java:67-71 | as written: of n edges the first ceil(n/2) are removed on both sides and the last floor(n/2) stay |
| GraphNode.NodeArena.RemoveNext | GraphNode.java:68-70 | one round of that loop removes the link to the head of the list, on both sides |
| GraphNode.NodeArena.HasEdge | GraphNode.java:79-81 | membership in the edge list, which by mutuality is membership of this node in the other's list |
| GraphNode.NodeArena.GetEdges | GraphNode.java:88-94 | the neighbours' vertices in edge-list order, one per edge |
| UndirectedGraph.Graph.constructor | Graph.java:16-23 | an empty map, an empty list, size 0 |
| UndirectedGraph.Graph.AddVertex | Graph.java:41-50 | a new vertex gets a fresh node, is appended and counted, and is returned; a present one returns null and changes nothing; the edge relation is unchanged |
| UndirectedGraph.Graph.RemoveVertex | Graph.java:63-72 | a present vertex leaves the map and the list and is returned, size stays, and its edges are cut as RemoveAllEdges cuts them; an absent one returns null and changes nothing |
| UndirectedGraph.Graph.AddEdge | Graph.java:86-92 | true exactly when both vertices are present and distinct; the edge relation gains exactly that pair, in both directions; each node's edge list gains the other's node at its end unless already there, and no other list changes |
| UndirectedGraph.Graph.RemoveEdge | Graph.java:106-112 | true exactly when both vertices are present and distinct; the edge relation loses exactly that pair, in both directions; each node's edge list loses its first entry for the other's node when linked, and no other list changes |
| UndirectedGraph.Graph.IsAdjacent | Graph.java:126-131 | true exactly when the two are distinct present vertices whose nodes are linked; symmetric |
| UndirectedGraph.Graph.GetNeighbors | Graph.java:144-146 | a NullPointer error for a vertex that is not a key; otherwise the vertices of its node's edge list, in order, covering every linked vertex |
| UndirectedGraph.Graph.GetAllVertices | Graph.java:154-156 | the internal list itself: duplicate-free, holding exactly the keys |
| UndirectedGraph.Graph.EdgeSymmetric | GraphNode.java:43-62 | the edge relation is symmetric |
| UndirectedGraph.Graph.AdjacencyOf | GraphProcessor.java:184-199 | the matrix of isAdjacent answers over a list of vertices |
| UndirectedGraph.Graph.AdjacencyWellFormed | Graph.java:86-92 | that matrix is square, symmetric and has no self-loops |
| ShortestPaths.Dist | GraphProcessor.java:184-239 | every stage's distance lies between 0 and MAX_VALUE and is 0 on the diagonal |
| ShortestPaths.Next | GraphProcessor.java:188-193 | a recorded next hop is a vertex position |
| ShortestPaths.DistStep | GraphProcessor.java:216-219 | a stage never increases a distance and bounds it by the two legs through the stage's vertex |
| ShortestPaths.PivotUnchanged | GraphProcessor.java:216 | stage k leaves row k and column k, of both matrices, unchanged |
| ShortestPaths.DistBelowFirstStage | GraphProcessor.java:211-239 | no stage exceeds the set-up distance |
| ShortestPaths.DistSymmetric | GraphProcessor.java:191-219 | every stage of the distance matrix is symmetric, which makes the mirrored write consistent |
| ShortestPaths.DistTriangle | GraphProcessor.java:211-239 | the shortest distance from u to w is at most the distance from u to v plus the distance from v to w |
| ShortestPaths.DistBounded | GraphProcessor.java:217-218 | every finite distance is below the vertex count, so the guarded sum never involves MAX_VALUE |
| ShortestPaths.DistSound | GraphProcessor.java:211-239 | a finite distance at stage k is the length of a walk whose inner vertices are below k |
| ShortestPaths.DistOptimal | GraphProcessor.java:211-239 | no repetition-free walk through inner vertices below k is shorter than the stage-k distance |
| ShortestPaths.DistIsShortest | GraphProcessor.java:211-239 | the last stage is finite exactly for reachable pairs, is at most the length of every walk, and is the length of some walk |
| ShortestPaths.NextSound | GraphProcessor.java:192-224 | a next hop is recorded exactly for distinct pairs at finite distance; it is a neighbour of the start and strictly closer to the goal |
| ShortestPaths.NextOnShortest | GraphProcessor.java:132-137 | in the last stage the next hop is exactly one step closer to the goal |
| ShortestPaths.SuccessorWalk | GraphProcessor.java:132-141 | following the next hops from i reaches j along a walk of exactly the shortest length |
| ShortestPaths.HopPathMeaning | GraphProcessor.java:128-141 | the collected list is empty exactly for the same position twice or an unreachable pair; otherwise it spells the successor walk |
| ShortestPaths.ShortestPathMeaning | GraphProcessor.java:113-148 | the path is empty exactly for the same word twice or an unreachable pair; otherwise it spells a walk from word1 to word2 of the shortest length |
| ShortestPaths.ShortestPathReversed | GraphProcessor.java:119-145 | the path from j to i is the path from i to j reversed |
| WordLadder.Hop | GraphProcessor.java:186-193 | a word is stored exactly for distinct pairs at finite distance |
| WordLadder.InitialMatrices | GraphProcessor.java:181-199 | fresh matrices holding stage 0: 0 on the diagonal, 1 and the other word for linked pairs, MAX_VALUE and null otherwise |
| WordLadder.FillRow | GraphProcessor.java:185-198 | one row of the set-up loop keeps every visited cell at stage 0 and every other next-word cell null |
| WordLadder.FillCell | GraphProcessor.java:186-197 | one cell of the set-up loop and its mirror, with the same guarantee |
| WordLadder.RelaxThrough | GraphProcessor.java:211-239 | from stage k, fresh matrices holding stage k + 1 |
| WordLadder.RelaxRow | GraphProcessor.java:214-234 | one row of a stage computes that row of stage k + 1 |
| WordLadder.RelaxCell | GraphProcessor.java:215-233 | one cell of a stage, the mirrored write included, keeps every computed cell at stage k + 1 |
| WordLadder.AllPairs | GraphProcessor.java:181-239 | fresh matrices holding the last stage over the edges among the listed vertices |
| WordLadder.WithWordsPrefix | GraphProcessor.java:79-88 | a load stopped early lists no more words than the full load |
| WordLadder.WithWordsFacts | Graph.java:41-50 | the vertex list after a load starts with the old list and holds exactly the old and the new words, each once |
| WordLadder.WithWordsKnown | Graph.java:41-50 | words already listed add no vertex |
| WordLadder.RepeatedLoad | GraphProcessor.java:79-91 | loading the same words twice leaves the list as after the first load |
| WordLadder.EdgesAreAdjacency | GraphProcessor.java:79-88 | in a graph whose edges join only adjacent words and that links every adjacent pair, the edges are exactly the adjacent pairs of vertices |
| WordLadder.ScanStop | GraphProcessor.java:81-82 | the position of the first vertex forming the prefix case with the word, or the list length: every earlier vertex is clear of it |
| WordLadder.LinkPair | GraphProcessor.java:82-86 | fails exactly on the prefix case; the edges afterwards are the old ones plus the pair itself exactly when it succeeds and the two words are adjacent |
| WordLadder.LinkWord | GraphProcessor.java:81-87 | the scan stops at ScanStop, and fails exactly when that is before the end; the edges afterwards are the old ones plus the links from the word to the adjacent vertices scanned before the stop; on success a graph complete away from the word becomes complete |
| WordLadder.AddWord | GraphProcessor.java:80-87 | the word is appended unless present; then the scan of LinkWord, with the same exact edges; completeness is kept on success |
| WordLadder.Loaded | GraphProcessor.java:79-88 | the number of words a load adds: all of them when no prefix pair occurs; otherwise n, where the first n - 1 words are clear and the n-th forms a prefix pair |
| WordLadder.LoadedAt | GraphProcessor.java:79-88 | the word count at which the first prefix pair appears is the one Loaded gives |
| WordLadder.LoadedLinkStep | GraphProcessor.java:80-87 | loading one more word adds exactly its links to the adjacent words listed by then |
| WordLadder.LoadNext | GraphProcessor.java:79-88 | one round of the loop keeps the loop's state: the list and exactly the links described so far, and whether a prefix pair stopped it |
| WordLadder.AddWords | GraphProcessor.java:79-88 | success exactly when no loaded word forms a prefix pair with an old or loaded word; the count of added words is Loaded, the list is the old one grown by them, and the edges are the old ones plus exactly LoadLink; completeness is kept on success |
| WordLadder.DistIsLadderLength | GraphProcessor.java:167-170 | over the current vertices, the last-stage distance is MAX_VALUE exactly when no ladder exists, and otherwise the link count of a shortest ladder |
| WordLadder.ShortestPathIsLadder | GraphProcessor.java:113-148 | over the current vertices, the path is empty exactly for the same word twice or no ladder; otherwise it is a ladder no other ladder undercuts |
| WordLadder.FollowHops | GraphProcessor.java:128-141 | the loop collects the words along the next hops from i to j, [] when none is recorded |
| WordLadder.GraphProcessor.constructor | GraphProcessor.java:45-55 | an empty graph, an empty own list, no matrices |
| WordLadder.GraphProcessor.ShortestPathPrecomputation | GraphProcessor.java:177-248 | fresh matrices holding the last stage over the current list and its current edges |
| WordLadder.GraphProcessor.LoadWords | GraphProcessor.java:79-88 | the loading loop on the processor's graph, with the list and exact edges of AddWords, on success and on failure; a list shared with the graph grows with it, and the matrices stay as they were |
| WordLadder.GraphProcessor.FollowGraphList | GraphProcessor.java:79-88 | a list shared with the graph becomes the graph's grown list, an own list stays empty, and the matrices keep their meaning |
| WordLadder.GraphProcessor.ShareGraphList | GraphProcessor.java:89 | from then on the processor's list is the graph's own, and the matrices are unchanged |
| WordLadder.GraphProcessor.PopulateGraph | GraphProcessor.java:71-93 | success exactly when no prefix pair occurs; in both cases the graph holds the words up to Loaded and the old edges plus exactly LoadLink; on success the processor's list is the graph's, holding the old and new words once each, the result is its length, the matrices are current and completeness is kept; an IndexOutOfBounds error otherwise, with the matrices unchanged |
| WordLadder.GraphProcessor.GetShortestDistance | GraphProcessor.java:167-170 | NullPointer before any load; IndexOutOfBounds for an unlisted word; otherwise the last-stage distance, which over current matrices is the shortest ladder's link count or MAX_VALUE |
| WordLadder.GraphProcessor.GetShortestPath | GraphProcessor.java:113-148 | NullPointer before any load; IndexOutOfBounds for an unlisted word; otherwise the path, which over current matrices is [] exactly for the same word twice or no ladder, and else a shortest ladder from word1 to word2 |
| SampleDictionary.AdjacentIsLinked | WordProcessor.java:96-148 | on the seven test words, adjacency holds exactly for CAT-CHAT, CHAT-CHEAT, CHAT-WHAT, CHEAT-WHEAT and WHAT-WHEAT |
| SampleDictionary.FarApartNotAdjacent | WordProcessor.java:96-148 | words of equal length differing at both ends, lengths one apart whose ends rule out every deletion, or lengths further apart, are not adjacent |
| SampleDictionary.NoPrefixCase | GraphProcessorTest.java:60-67 | no two test words form the prefix case, the one condition under which loading them fails |
| SampleDictionary.GraphMatrix | GraphProcessor.java:79-88 | the adjacency of a loaded graph listing only test words holds exactly their adjacencies |
| SampleDictionary.LinkedMatrix | GraphProcessor.java:184-193 | such an adjacency is well formed and its entries are exactly the five links |
| SampleDictionary.DistOne | GraphProcessor.java:211-239 | neighbours are at distance 1 |
| SampleDictionary.DistTwo | GraphProcessor.java:211-239 | distinct non-neighbours with a common neighbour are at distance 2 |
| SampleDictionary.DistThree | GraphProcessor.java:211-239 | distinct non-neighbours without a common neighbour, joined by a three-link walk, are at distance 3 |
| SampleDictionary.Unreachable | GraphProcessor.java:211-239 | the distance out of a set of words closed under links is MAX_VALUE |
| SampleDictionary.TestDistances | GraphProcessorTest.java:96-235 | CHAT-WHAT and CHEAT-CHAT are 1 apart, CHAT-WHEAT 2, and CAT-WHEAT 3 either way |
| SampleDictionary.TestUnreachable | GraphProcessorTest.java:128-295 | CAT-BAG, CAT-WHO, CHEAT-WHO and BAG-WHEAT are MAX_VALUE apart |
| SampleDictionary.OneLinkPath | GraphProcessor.java:113-148 | between words at distance 1 the path is the two words |
| SampleDictionary.TwoLinkPath | GraphProcessor.java:113-148 | between words at distance 2 the path runs through a common neighbour |
| SampleDictionary.ThreeLinkPath | GraphProcessor.java:113-148 | between words at distance 3 the path runs through a neighbour of each end, linked to each other |
| SampleDictionary.TestNeighbourPaths | GraphProcessorTest.java:138-163 | the paths are [CHAT, WHAT] and [CHEAT, CHAT] |
| SampleDictionary.TestPathChatWheat | GraphProcessorTest.java:75-88 | the path from CHAT to WHEAT is [CHAT, WHAT, WHEAT] or [CHAT, CHEAT, WHEAT] |
| SampleDictionary.TestPathCatWheat | GraphProcessorTest.java:167-180 | the path from CAT to WHEAT is [CAT, CHAT, WHAT, WHEAT] or [CAT, CHAT, CHEAT, WHEAT] |
| SampleDictionary.TestPathWheatCat | GraphProcessorTest.java:183-196 | the path from WHEAT to CAT is one of those two read backwards |
| SampleDictionary.TestNoPaths | GraphProcessorTest.java:112-265 | the paths from CAT to BAG or WHO, from CHEAT to WHO and from BAG to WHEAT are empty |

## Left out

- Reading the dictionary file (`getWordStream`, `Files.lines`, trimming and upper-casing) and the `IOException` handling: the words arrive as an already normalised sequence of strings.
- Stream laziness: the stream is a plain loop over that sequence.
- WordProcessor.IsAdjacent: words are sequences of Unicode scalar values, while a Java string is a sequence of UTF-16 code units. A word with a character outside the Basic Multilingual Plane has a different length and different characters in Java, and so it can get a different answer. The model covers words of Basic Multilingual Plane characters only.
- Null vertices: Dafny strings cannot be null, so `addVertex(null)` and `removeVertex(null)` are not modelled.
- Console output, the `toString` methods, `Main` and the `GraphADT` interface, which hold no logic of the graph.
- Java exceptions become `Err` results: `StringIndexOutOfBoundsException` and `ArrayIndexOutOfBoundsException` are `IndexOutOfBounds`, and `NullPointerException` is `NullPointer`. Where the source throws out of `populateGraph`, the model returns the error instead.
- Aliasing: after the first completed load, the processor's `vertices` field is the graph's own list. A flag records this, and the methods that grow the graph's list copy it into the field. No other aliasing occurs.
- WordLadder.GraphProcessor.PopulateGraph: requires that loading all the words would list at most MAX_VALUE vertices (`|WithWords(graph.vertices, words)| <= MaxValue`), because Java arrays and list positions are `int`s. A load stopped early lists no more than that.
- WordLadder.GraphProcessor.LoadWords: the same requirement, for the same reason.
- WordLadder.GraphProcessor.ShortestPathPrecomputation: requires at most MAX_VALUE vertices, for the same reason.
- Integer wrap-around: values are unbounded. A relaxed sum stays below twice the vertex count, so it could wrap only beyond 2^30 vertices, and Java could not allocate matrices that large.
- The graph's node objects: they are handles into one arena rather than heap objects, so Java object identity is modelled by handle equality.
- SampleDictionary.TestPathChatWheat, SampleDictionary.TestPathCatWheat and SampleDictionary.TestPathWheatCat: the tests expect WHAT as the middle word, but CHEAT ties with it, and which of the two the next-word matrix records depends on the order of the words in the test's dictionary file, which is not part of this model. So these lemmas allow either word.
- The test that expects `[w]` for `getShortestPath(w, w)`: the model returns `[]`, as the code does.
