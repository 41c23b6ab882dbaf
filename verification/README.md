# Verified models of the algorithm collection

The repository is a collection of self-contained programs. This project models those whose
correctness takes an argument, each in a module of its own, and proves what they promise for
all inputs, all runs or all interleavings.

- **Expressions.** `Expressions` (grammar, parser, evaluator), `RedundantParens` (what the
  stripper decides, on trees), `ParenStripper` (the program: cursor, ignore array, seen-sets),
  `ParenFrames`, `RunningValues` and `NeededParens` (no pair is left that could go), `Shapes`
  (the same string with other literals), `IntegerValues` (C's rules, section 6.5.5 of ISO/IEC
  9899) and `TruncatingDivision` (what stripping does under them). Together: the output
  means the same, stripping it again changes nothing, and each pair left is needed. The first
  holds for exact division; for C's division the exact condition is proved, with `2*(3/2)` as
  the witness that it is not always met. The last holds for both.
- **Pointers under temporary change.** `MorrisTrees`, `MorrisTraversal`, `ParallelInOrder`
  (threads in tree links), `LoopFinder` (tortoise and hare, and lists closed into rings),
  `FoldPaper` with `FoldExample` (links without direction).
- **Structures that refine simpler ones.** `Heaps`, `RecencyList`, `CacheHistory`,
  `LRUCache`, `KthLargest`,
  `RoutingTrie` and `RoutingTable` (longest-match rule of section 5.2.4.3 of RFC 1812).
- **Optimality and uniqueness.** `Dijkstra`, `PatienceSort`, `Canoes`, `SortAttempt`,
  `Permutations`.
- **Step systems.** `Semaphore` (spurious wakeups as in chapter 3 of POSIX.1-2017 System
  Interfaces), `WorkQueue`, `OrderedLocking` with `Philosophers` and `CopyBuffers`, for any
  number of threads.
- **Round trip.** `SerializeTree`.

`Wrappers`, `Sequences`, `Multisets`, `Counting` and `Unsigned` hold what several modules
share. Programs that update state in place are classes or methods on arrays with loops and
invariants; their contracts tie them to specification functions, and the lemmas are about those.
Ghost parameters (the tree a pointer structure stands for, the list behind a trie) only serve
the proofs.

Where a promise is false of the code as written, the code is kept, and two members give an
input and the exact condition:

- Stripping keeps the value, with C's division: `TruncatingDivision.QuotientChanges`,
  `TruncatingDivision.TruncatingExactly`.
- `same_inorder` leaves the trees as they were: `ParallelInOrder.ThreadStays`,
  `ParallelInOrder.SameInOrder`.
- A get returns what was last inserted, when cached keys are inserted:
  `LRUCache.DuplicateInsertIsStale`, `LRUCache.Cache.InsertThenGet`.
- The philosophers do not deadlock, for a table of any size (the source has five):
  `Philosophers.AloneStarves`, `Philosophers.FedUnlessAlone`.

`dafny verify dfyconfig.toml` checks the whole project.

## Model

| member | source | states |
|---|---|---|
| Expressions.WellFormedIffTokens | recursion_dp/expr_evaluator/solution.c:20-85 | the strings the evaluator reads to the end are exactly the token strings of grammar trees, and the tree is unique |
| Expressions.ParseExprSound | recursion_dp/expr_evaluator/solution.c:20-79 | whatever the descent returns, its tree has exactly the tokens between the two cursor positions |
| Expressions.ParseExprComplete | recursion_dp/expr_evaluator/solution.c:20-79 | after the tokens of a tree the descent continues with that tree as its accumulator |
| Expressions.EvaluateIsTreeValue | recursion_dp/expr_evaluator/solution.c:20-85 | on every string the evaluator with its value accumulators computes the value of the tree the descent reads, and fails exactly where it fails |
| Expressions.EvaluatesBeginning | recursion_dp/expr_evaluator/solution.c:20-85 | what is read is a well-formed beginning that no operator continues; the rest of the string is ignored |
| IntegerValues.EvaluatesByRules | recursion_dp/expr_evaluator/solution.c:20-85 | with C's division the evaluator returns the integer that sums, products and C quotients of the tree give, and nothing once something is divided by zero |
| IntegerValues.ExprIsInt | recursion_dp/expr_evaluator/solution.c:20-60 | so every value on the way is an integer |
| IntegerValues.DivisionIsQuotient | recursion_dp/expr_evaluator/solution.c:57 | a division of integers gives q exactly if the remainder is smaller than the divisor in size, and zero or of the sign of the dividend |
| IntegerValues.QuotientIsUnique | recursion_dp/expr_evaluator/solution.c:57 | there is one such q only |
| IntegerValues.DivisionIsExact | recursion_dp/expr_evaluator/solution.c:57 | the exact division used beside it gives q exactly if q times the divisor is the dividend |
| RedundantParens.StripPreservesMeaning | recursion_dp/redundant_parens/solution.c:120-263 | for every well-formed string the stripped one is well-formed and has the same value, with exact division |
| RedundantParens.StripIdempotent | recursion_dp/redundant_parens/solution.c:120-263 | stripping a stripped string removes nothing: each kept pair is still forced by a neighbour |
| RedundantParens.ExprSeen | recursion_dp/redundant_parens/solution.c:111-118 | the seen-set of a piece is the set of operators its stripped form exposes |
| RedundantParens.ExprGrade | recursion_dp/redundant_parens/solution.c:120-139 | a piece that exposes no sum is a term, one that exposes nothing is a factor |
| RedundantParens.TermGrade | recursion_dp/redundant_parens/solution.c:120-139 | a stripped term that is a product, or stands before * or / or after -, exposes no sum; graded as above |
| RedundantParens.FactorGrade | recursion_dp/redundant_parens/solution.c:120-139 | a stripped factor next to * or / or after - exposes no sum, and after / nothing at all; graded as above |
| RedundantParens.StripExprTokens | recursion_dp/redundant_parens/solution.c:253-260 | dropping the ignored tokens from the input gives the tokens of the stripped tree |
| RedundantParens.StripExprValue | recursion_dp/redundant_parens/solution.c:182-203 | the stripped tree is worth what the original is, level by level, under the stated safety condition |
| RedundantParens.StripExprForced | recursion_dp/redundant_parens/solution.c:205-221 | in the stripped tree every remaining pair is forced by its neighbours and by what it exposes |
| RedundantParens.ForcedExprKept | recursion_dp/redundant_parens/solution.c:120-139 | where every pair is forced, none is dropped |
| NeededParens.EveryPairIsNeeded | recursion_dp/redundant_parens/solution.c:120-139 | no pair too many, for exact and for C's division: for any matching pair left in the output there are literals with which the values with and without it are defined and differ |
| NeededParens.ForcedDiffers | recursion_dp/redundant_parens/solution.c:135-138 | each of the four reasons to keep a pair is real, with either division: for some literals its level changes value without it |
| NeededParens.AfterOperator | recursion_dp/redundant_parens/solution.c:135-138 | a sum after -, * or / needs its parentheses |
| NeededParens.AfterDivision | recursion_dp/redundant_parens/solution.c:138 | a product or quotient after / needs its parentheses |
| NeededParens.BeforeOperator | recursion_dp/redundant_parens/solution.c:136 | a sum before * or / needs its parentheses |
| NeededParens.SamePlace | recursion_dp/redundant_parens/solution.c:128-133 | literals move no token: the pair is at the same two places for all of them |
| RunningValues.NestDiffers | recursion_dp/redundant_parens/solution.c:205-221 | a difference inside nested levels can be made to reach the top |
| RunningValues.RunIsValue | recursion_dp/redundant_parens/solution.c:151-203 | evaluating from left to right with a running sum and a running term gives the value of the tree |
| ParenFrames.LocateExpr | recursion_dp/redundant_parens/solution.c:205-216 | every opening parenthesis is that of a pair at the end of a stack of levels |
| ParenFrames.PairTokens | recursion_dp/redundant_parens/solution.c:213-216 | ignoring the two tokens of a pair is splicing its inside into the level around it |
| TruncatingDivision.TruncatingExactly | recursion_dp/redundant_parens/solution.c:182-203 | with C's truncating /, a shape keeps its value for all literals if and only if no dropped pair after * exposes a quotient |
| TruncatingDivision.TruncatingSufficient | recursion_dp/redundant_parens/solution.c:182-203 | where no quotient is exposed after *, stripping keeps the truncated value too |
| TruncatingDivision.TruncatingNecessary | recursion_dp/redundant_parens/solution.c:182-203 | otherwise some literals of the same shape give a different truncated value |
| TruncatingDivision.SameShapeSameCondition | recursion_dp/redundant_parens/solution.c:120-139 | the condition depends on the shape alone, not on the literals |
| TruncatingDivision.QuotientChanges | recursion_dp/redundant_parens/solution.c:191-197 | 2*(3/2) is stripped to 2*3/2, and C's division makes 2 of the one and 3 of the other |
| Shapes.AttainExpr | recursion_dp/redundant_parens/solution.c:151-203 | every shape attains every natural number, stripped or not |
| TruncatingDivision.DifferExpr | recursion_dp/redundant_parens/solution.c:151-203 | a shape that hides a quotient after * has literals with two different truncated values |
| ParenStripper.ExprAt | recursion_dp/redundant_parens/solution.c:151-153 | expr: consumes what the parser consumes, returns value and seen-set, marks exactly the dropped parentheses |
| ParenStripper.ExprRest | recursion_dp/redundant_parens/solution.c:155-176 | expr_r: the same with the left part as accumulator |
| ParenStripper.TermAt | recursion_dp/redundant_parens/solution.c:178-180 | term: as expr, one level down |
| ParenStripper.TermRest | recursion_dp/redundant_parens/solution.c:182-203 | term_r: the same with the left part as accumulator |
| ParenStripper.FactorAt | recursion_dp/redundant_parens/solution.c:205-233 | factor: literal or parenthesised expression; marks both parentheses or clears the seen-set |
| ParenStripper.StripAndEvaluate | recursion_dp/redundant_parens/solution.c:238-263 | eval_expr on every string with a readable beginning: returns that beginning stripped, the unread rest after it, and the value of the beginning |
| MorrisTraversal.InOrderTraversal | trees_graphs/traversal_without_recursion/solution.c:15-39 | terminates, prints exactly the recursive in-order sequence, and leaves every link as it was |
| MorrisTraversal.PreOrderTraversal | trees_graphs/traversal_without_recursion/solution.c:41-65 | terminates, prints exactly the recursive pre-order sequence, and leaves every link as it was |
| MorrisTraversal.FindPredecessor | trees_graphs/traversal_without_recursion/solution.c:23-27 | the inner loop ends at the rightmost node of the left subtree, threaded or not |
| MorrisTraversal.SetThread | trees_graphs/traversal_without_recursion/solution.c:33-36 | threading the predecessor keeps the invariant of the partly threaded tree |
| MorrisTraversal.ClearThread | trees_graphs/traversal_without_recursion/solution.c:29-32 | removing the thread restores the link and keeps the invariant |
| MorrisTrees.Thread | trees_graphs/traversal_without_recursion/solution.c:33-36 | on link maps: after the thread is set, the left subtree is entered with it |
| MorrisTrees.Unthread | trees_graphs/traversal_without_recursion/solution.c:29-32 | on link maps: coming back through a thread, its removal gives the plain subtree |
| MorrisTrees.Close | trees_graphs/traversal_without_recursion/solution.c:29-32 | a right spine of finished levels closes into one subtree whose thread is the outer one |
| MorrisTrees.Restored | trees_graphs/traversal_without_recursion/solution.c:15-39 | when the walk ends nothing is left to print and the original tree is spanned again |
| MorrisTrees.RestoredIff | trees_graphs/traversal_without_recursion/solution.c:15-39 | at every point of a walk: the original tree is spanned if and only if no thread is pending on the way back to the root |
| MorrisTrees.KeptIff | trees_graphs/traversal_without_recursion/solution.c:15-39 | no link of the tree has changed if and only if the tree is spanned again from its root |
| MorrisTrees.Relink | trees_graphs/traversal_without_recursion/solution.c:29-36 | changing the thread of a spanned subtree changes nothing else in it |
| MorrisTrees.SpansFixesLinks | trees_graphs/traversal_without_recursion/solution.c:15-39 | two link maps that span the same tree agree on every node: restoring the tree restores the links |
| MorrisTrees.Arrive | trees_graphs/traversal_without_recursion/solution.c:18-29 | at every node: whether it is met first or through a thread, and where its left subtree stands |
| ParallelInOrder.NextNode | trees_graphs/parallel_inorder/solution.c:42-76 | one call yields the next in-order node and the state to resume from, or null exactly at the end, with the tree restored |
| MorrisTrees.StopsAt | trees_graphs/parallel_inorder/solution.c:53-75 | just after its node number d, an iteration has all links restored if and only if that node lies on the right spine |
| ParallelInOrder.Compare | trees_graphs/parallel_inorder/solution.c:82-91 | the loop stops at the first position at which one sequence ends or the keys differ |
| ParallelInOrder.SameInOrder | trees_graphs/parallel_inorder/solution.c:78-94 | for two disjoint trees, 1 exactly when the in-order sequences are equal; either way each tree's links are unchanged if and only if it has no key at the first differing position or its node there is on its right spine |
| ParallelInOrder.FirstKeysDiffer | trees_graphs/parallel_inorder/solution.c:78-94 | the tree 2 with left child 1 against the node 9 differs at once, at a node off the right spine of the first tree |
| ParallelInOrder.ThreadStays | trees_graphs/parallel_inorder/solution.c:85-88 | there the call returns 0 with the thread from 1 to 2 still set |
| SortAttempt.Graph.IsSortable | trees_graphs/sort_attempt/solution.cpp:201-203 | true exactly when one and only one ordering of the nodes satisfies all edges |
| SortAttempt.Graph.CycleDetect | trees_graphs/sort_attempt/solution.cpp:101-122 | fails only on a cycle; otherwise extends a post-order closed under edges |
| SortAttempt.Graph.NoCycles | trees_graphs/sort_attempt/solution.cpp:124-140 | true with a topological order in hand, false only on a cyclic graph |
| SortAttempt.Graph.TopsortInternal | trees_graphs/sort_attempt/solution.cpp:142-163 | fails only when the order is not unique; otherwise each finished node has an edge to the one before |
| SortAttempt.Graph.UniqueTopsort | trees_graphs/sort_attempt/solution.cpp:165-183 | on a sortable graph: true exactly when the order is unique |
| SortAttempt.ChainedIsUnique | trees_graphs/sort_attempt/solution.cpp:142-183 | an order in which neighbours are joined by edges is the only one |
| SortAttempt.UnchainedIsNotUnique | trees_graphs/sort_attempt/solution.cpp:142-183 | a node finished without an edge to the last finished one can be exchanged with it |
| SortAttempt.CyclicHasNoOrder | trees_graphs/sort_attempt/solution.cpp:101-140 | a cyclic graph has no topological order |
| SortAttempt.CompleteSorts | trees_graphs/sort_attempt/solution.cpp:142-163 | every closed partial post-order can be completed to a topological order |
| Dijkstra.Graph.Run | DS_Algos/graphs/dijkstra/dijkstra.cpp:119-163 | when no shortest distance plus an outgoing edge reaches UINT_MAX: distance is the minimum path cost, UINT_MAX exactly if unreachable, and prev leads along a shortest simple path |
| Dijkstra.Graph.Round | DS_Algos/graphs/dijkstra/dijkstra.cpp:134-160 | one round takes a nearest unsettled node and keeps the labels right |
| Dijkstra.Graph.RelaxEdges | DS_Algos/graphs/dijkstra/dijkstra.cpp:137-159 | the inner loop relaxes every edge of the node with 32-bit additions |
| Dijkstra.Graph.PrintPath | DS_Algos/graphs/dijkstra/dijkstra.cpp:68-75 | prints src first, curr last, and before each other node the one its prev points to |
| Dijkstra.FinalLabels | DS_Algos/graphs/dijkstra/dijkstra.cpp:119-163 | at the end: distances are minimal, prev is null exactly for the source and unreachable nodes, chains are acyclic and cost the distance |
| Dijkstra.WalksCostAtLeast | DS_Algos/graphs/dijkstra/dijkstra.cpp:134-160 | no walk from the source, cycles included, is cheaper than the label of its end |
| Dijkstra.WalkFollows | DS_Algos/graphs/dijkstra/dijkstra.cpp:155 | the prev chain is the recorded walk |
| Dijkstra.RoundKeepsInv | DS_Algos/graphs/dijkstra/dijkstra.cpp:134-160 | settling the nearest node keeps the labels witnessed and all settled edges relaxed, zero-cost edges included |
| Dijkstra.RelaxKeepsInv | DS_Algos/graphs/dijkstra/dijkstra.cpp:149-158 | relaxing one edge keeps every label witnessed by a simple walk, and does not wrap around |
| Dijkstra.NextDoesNotWrap | DS_Algos/graphs/dijkstra/dijkstra.cpp:140-153 | the sums of a round are a shortest distance plus an edge to a node not nearer, so that condition keeps them below UINT_MAX |
| Dijkstra.NextIsNearest | DS_Algos/graphs/dijkstra/dijkstra.cpp:134-136 | the node taken has its distance, and no node left in the queue is nearer |
| Dijkstra.CheapPathsDoNotOverflow | DS_Algos/graphs/dijkstra/dijkstra.cpp:140-153 | graphs in which no simple path costs UINT_MAX or more are among those the theorem covers |
| Dijkstra.FirstExists | DS_Algos/graphs/dijkstra/dijkstra.cpp:42-50 | the ordered queue has a first element |
| LoopFinder.FindLoopStart | linked_lists/loop/solution.c:19-48 | both pointer phases terminate and the first node on the cycle is returned |
| LoopFinder.Meet | linked_lists/loop/solution.c:27-32 | slow and fast meet, fast having gone twice as far |
| LoopFinder.PosMeet | linked_lists/loop/solution.c:27-32 | they meet after at most as many steps as there are nodes |
| LoopFinder.PosReturns | linked_lists/loop/solution.c:41-45 | from a meeting point, as many steps as the tail is long lead to the loop start |
| LoopFinder.EndlessIsLasso | linked_lists/loop/solution.c:19-48 | any list with no null end among finitely many nodes has the tail-and-cycle form |
| LoopFinder.FindMergeSpot | linked_lists/find_merge_spot/solution.c:49-62 | returns the first common node and restores the null end and all other links |
| LoopFinder.FindLast | linked_lists/find_merge_spot/solution.c:52-55 | the loop finds the last node |
| LoopFinder.LassoOfMerge | linked_lists/find_merge_spot/solution.c:57-58 | closing the first list into a ring turns the second into a tail that enters it at the merge spot |
| RecencyList.RunIsFaithful | misc/lru_cache/solution.cpp:120-149 | over every run that inserts uncached keys: a line holds distinct keys of that line in order of last use, each with the value last stored |
| RecencyList.HitsAndEvictions | misc/lru_cache/solution.cpp:120-149 | over every such run: hits return the last stored value, lines never exceed the associativity, and an insert into a full line evicts the least recently used entry and no other |
| CacheHistory.CachedExactly | misc/lru_cache/solution.cpp:120-149 | over every such run: a key is cached if and only if fewer than assoc other keys of its line were inserted or hit since it was itself, told from the history alone |
| CacheHistory.StaysCached | misc/lru_cache/solution.cpp:120-149 | an operation throws a cached key out if and only if it is an insert into the full line in which that key was used least recently |
| CacheHistory.AllowedIff | misc/lru_cache/solution.cpp:120-149 | that a run inserts only uncached keys is a matter of the history, too |
| CacheHistory.RunIsRanked | misc/lru_cache/solution.cpp:120-149 | a line holds the keys used last, in that order, and all of them while there is room |
| LRUCache.Replay | misc/lru_cache/solution.cpp:176-195 | a cache driven through any history that inserts no cached key: each get is a hit if and only if the history keeps its key cached, and then returns what was last stored; the lines are the recency lists |
| LRUCache.Perform | misc/lru_cache/solution.cpp:181-195 | one more operation keeps that agreement |
| LRUCache.Cache.constructor | misc/lru_cache/solution.cpp:176-180 | blocks/associativity empty lines |
| LRUCache.Cache.InsertKey | misc/lru_cache/solution.cpp:181-184 | the lines change as the recency lists do on an insertion, of a cached key too |
| LRUCache.Cache.GetKey | misc/lru_cache/solution.cpp:185-192 | a hit exactly when the key is cached; the first entry in heap order that has the key is returned and becomes the newest; with distinct keys that is the step of the recency lists |
| LRUCache.Cache.UpdateKey | misc/lru_cache/solution.cpp:193-195 | one entry with the key, if there is any, gets the value and becomes the newest; with distinct keys that is the step of the recency lists |
| LRUCache.CacheLine.FindByKey | misc/lru_cache/solution.cpp:51-60 | the first entry with the key, or the end when there is none |
| LRUCache.CacheLine.FloatUp | misc/lru_cache/solution.cpp:62-69 | the loop computes the recursive sift-up |
| LRUCache.CacheLine.SinkDown | misc/lru_cache/solution.cpp:71-98 | the loop computes the recursive sift-down |
| LRUCache.CacheLine.ExtractMin | misc/lru_cache/solution.cpp:100-104 | removes the root and restores heap order |
| LRUCache.CacheLine.IncreaseKey | misc/lru_cache/solution.cpp:111-114 | renews one timestamp and restores heap order |
| LRUCache.CacheLine.Insert | misc/lru_cache/solution.cpp:120-125 | evicts the oldest of a full line and appends the newest |
| LRUCache.CacheLine.Get | misc/lru_cache/solution.cpp:127-138 | hit exactly on a cached key, which becomes the newest; a miss changes nothing |
| LRUCache.CacheLine.Update | misc/lru_cache/solution.cpp:140-149 | the stored value is replaced and becomes the newest; a miss changes nothing |
| LRUCache.RootIsOldest | misc/lru_cache/solution.cpp:100-104 | the root of the timestamp heap is the least recently used entry |
| LRUCache.Renew | misc/lru_cache/solution.cpp:111-114 | increase_key moves the entry to the end of the recency list and keeps heap order |
| LRUCache.DuplicateInsertIsStale | misc/lru_cache/solution.cpp:120-138 | inserting a cached key with another value: the get that follows hits and returns the old value |
| LRUCache.Cache.InsertThenGet | misc/lru_cache/solution.cpp:120-138 | in a line with distinct keys, the get right after an insert returns the inserted value if and only if the key was not cached, is evicted by this insert, or had that value |
| LRUCache.FirstDuplicate | misc/lru_cache/solution.cpp:120-138 | the same after any history, the condition in terms of what was last stored |
| LRUCache.NewestIsLast | misc/lru_cache/solution.cpp:106-109 | the new entry does not rise in the timestamp heap: it stays last |
| LRUCache.FirstAfterInsert | misc/lru_cache/solution.cpp:51-60 | so the entry found first is an older one with the key, if one survives |
| RecencyList.HitIsRight | misc/lru_cache/solution.cpp:120-138 | on lists: the value of that hit is the inserted one exactly under the stated condition |
| RecencyList.HitIsRightAfterRun | misc/lru_cache/solution.cpp:120-138 | the same after every run |
| Heaps.SiftUpOrders | misc/lru_cache/solution.cpp:62-69 | sift-up restores heap order from one misplaced element and permutes |
| Heaps.SiftDownOrders | misc/lru_cache/solution.cpp:71-98 | sift-down restores heap order from one misplaced element and permutes |
| Heaps.PushOrders | misc/lru_cache/solution.cpp:106-109 | push keeps heap order and adds exactly one element |
| Heaps.PopOrders | misc/lru_cache/solution.cpp:100-104 | pop keeps heap order and removes exactly the root |
| Heaps.RaiseOrders | misc/lru_cache/solution.cpp:111-114 | increasing one key and sifting down keeps heap order |
| Heaps.RootIsLeast | misc/lru_cache/solution.cpp:100-104 | in an ordered heap the root is least |
| KthLargest.Find | arrays_strings/kth_largest_heap/solution.c:72-117 | for k >= 1: the element of rank k in descending order, failing exactly when k exceeds the heap size; the auxiliary heap stays within its k slots |
| KthLargest.MaxHeapInsert | arrays_strings/kth_largest_heap/solution.c:19-31 | appends and sifts up in the array |
| KthLargest.MaxHeapExtract | arrays_strings/kth_largest_heap/solution.c:33-70 | returns the root and restores heap order in the array |
| KthLargest.Found | arrays_strings/kth_largest_heap/solution.c:72-117 | the root of the auxiliary heap is the next element in descending order |
| KthLargest.FrontierCovers | arrays_strings/kth_largest_heap/solution.c:93-106 | every element not taken is below one of the frontier |
| KthLargest.FrontierStep | arrays_strings/kth_largest_heap/solution.c:93-106 | replacing a taken element by its children gives the next frontier |
| KthLargest.FrontOfDescending | arrays_strings/kth_largest_heap/solution.c:72-117 | descending elements that dominate the rest are the front of any descending arrangement |
| KthLargest.KthIsUnique | arrays_strings/kth_largest_heap/solution.c:72-117 | the rank-k element is determined |
| KthLargest.DescendingExists | arrays_strings/kth_largest_heap/solution.c:72-117 | a descending arrangement exists |
| Canoes.MinCanoes | recursion_dp/canoes/solution_iterative.cpp:15-42 | for a non-empty list of any length: the fewest canoes over all pairings, modulo 2^32; UINT_MAX when some kid alone is too heavy; an empty list gives UINT_MAX |
| Canoes.TwoPointers | recursion_dp/canoes/solution_iterative.cpp:26-41 | the two-pointer loop reaches the minimum on a sorted list, with a counter of 32 bits |
| Canoes.GreedyPair | recursion_dp/canoes/solution_iterative.cpp:31-34 | when lightest and heaviest fit together, pairing them is optimal |
| Canoes.GreedyAlone | recursion_dp/canoes/solution_iterative.cpp:35-38 | when nobody fits with the heaviest, leaving him alone is optimal |
| Canoes.PairUp | recursion_dp/canoes/solution_iterative.cpp:31-34 | any pairing can be rearranged so that lightest and heaviest share, with one canoe less for the rest |
| Canoes.CountCanoes | recursion_dp/canoes/solution.c:55-57 | for every list: the same minimum, capped at UINT_MAX, which also answers a kid that is too heavy; the array is left as it was |
| Canoes.CanoesAux | recursion_dp/canoes/solution.c:24-53 | from each position: the fewest canoes for the kids from there on, capped, array restored |
| Canoes.BestRide | recursion_dp/canoes/solution.c:32-45 | the loop over companions finds the best ride for the first kid |
| Canoes.RideWith | recursion_dp/canoes/solution.c:39-44 | swap, recurse, swap back: the rest is solved and the array restored |
| Canoes.BestAnswers | recursion_dp/canoes/solution.c:47-52 | the best shared ride against riding alone, each capped, gives the capped minimum |
| Canoes.TooManyAnswers | recursion_dp/canoes/solution.c:47-50 | where the others take UINT_MAX canoes or more, so do all: giving up is right |
| Canoes.CappedAnswers | recursion_dp/canoes/solution.c:24-53 | the capped minimum is the minimum below UINT_MAX, and UINT_MAX exactly when no smaller number of canoes will do |
| Canoes.FewKids | recursion_dp/canoes/solution.c:24-53 | below UINT_MAX kids the cap loses nothing |
| Canoes.NoBetter | recursion_dp/canoes/solution.c:24-53 | no pairing of the remaining kids beats both choices |
| Canoes.FewestAnswers | recursion_dp/canoes/solution.c:24-53 | the minimum is well defined, UINT_MAX exactly when some kid is too heavy |
| PatienceSort.LongestIncreasingSubsequence.Solve | DS_Algos/LIS/optimized1.cpp:77-89 | for every non-empty array: a non-decreasing subsequence as long as the number of piles, and none is longer |
| PatienceSort.LongestIncreasingSubsequence.FindPile | DS_Algos/LIS/optimized1.cpp:35-49 | binary search: the first pile whose top is larger |
| PatienceSort.LongestIncreasingSubsequence.PatienceSort | DS_Algos/LIS/optimized1.cpp:51-73 | piles built with sorted tops, right back-pointers and ranks |
| PatienceSort.LongestIncreasingSubsequence.Place | DS_Algos/LIS/optimized1.cpp:52-72 | one element placed keeps the invariant |
| PatienceSort.LongestIncreasingSubsequence.FollowBack | DS_Algos/LIS/optimized1.cpp:81-86 | the walk, which overwrites a cell of the last pile, still reads the original trail |
| PatienceSort.NoLonger | DS_Algos/LIS/optimized1.cpp:51-73 | along a non-decreasing subsequence the pile numbers grow, so it is no longer than the piles |
| PatienceSort.TrailPicks | DS_Algos/LIS/optimized1.cpp:81-88 | the trail read backwards is a non-decreasing subsequence with one element per pile |
| PatienceSort.TrailIsLongest | DS_Algos/LIS/optimized1.cpp:77-89 | hence it is a longest one |
| PatienceSort.PutKeepsInv | DS_Algos/LIS/optimized1.cpp:52-72 | pushing an element keeps tops sorted, pointers right and ranks growing |
| PatienceSort.PutRanked | DS_Algos/LIS/optimized1.cpp:35-72 | an element goes on a pile beyond those of all earlier elements that are not larger |
| FoldPaper.Fold | arrays_strings/fold_paper/solution.c:135-181 | for every string of L and R: the numbers walked equal those of the naive model that reverses half the stacks, each of 1..2^N once |
| FoldExample.Example | arrays_strings/fold_paper/solution.c:27-35 | the documented example: left, right, left turns 1 to 8 into 5 4 1 8 7 2 3 6 |
| FoldPaper.MergeStacks | arrays_strings/fold_paper/solution.c:119-133 | links two tops; the asserts never fire |
| FoldPaper.MergeOnto | arrays_strings/fold_paper/solution.c:145-150 | one merge with the new top recorded |
| FoldPaper.FoldHalf | arrays_strings/fold_paper/solution.c:143-154 | one fold: the stacks that stand afterwards are those of the naive fold |
| FoldPaper.FoldStep | arrays_strings/fold_paper/solution.c:142-161 | one round: the half that lies below is kept |
| FoldPaper.Walk | arrays_strings/fold_paper/solution.c:165-178 | the walk through undirected links visits the stack from top to bottom |
| FoldPaper.MergedStack | arrays_strings/fold_paper/solution.c:119-133 | two undirected stacks joined at their tops form the reversed one on the other |
| FoldPaper.MergeStands | arrays_strings/fold_paper/solution.c:145-150 | a merge leaves all other stacks as they were |
| FoldPaper.PairStands | arrays_strings/fold_paper/solution.c:144-154 | after each pair the remaining positions carry the partly folded stacks, and their tops have room |
| Permutations.NextPerm | arrays_strings/next_permutation/solution.cpp:23-44 | the immediate lexicographic successor among arrangements of the same multiset; false, with no change, exactly at the maximum |
| Permutations.ShowAll | arrays_strings/next_permutation/solution.cpp:72-75 | the driver's loop terminates and shows every later arrangement exactly once, in increasing order |
| Permutations.NextBySwap | arrays_strings/next_permutation/solution.cpp:35-41 | partner in front and the rest ascending is the least larger arrangement |
| Permutations.DescendingIsLast | arrays_strings/next_permutation/solution.cpp:29-33 | a descending array is the last arrangement |
| Permutations.NothingBetween | arrays_strings/next_permutation/solution.cpp:23-44 | no arrangement lies strictly between |
| Permutations.NextIsUnique | arrays_strings/next_permutation/solution.cpp:23-44 | the successor is unique |
| Permutations.NextTakesOne | arrays_strings/next_permutation/solution.cpp:72-75 | one call takes exactly its result from those still ahead |
| Permutations.NextSmallest | arrays_strings/next_smallest/solution.c:71-96 | the immediate predecessor; 0, with no change, exactly at the minimum |
| Permutations.Reverse | arrays_strings/next_smallest/solution.c:61-69 | reverses the tail in place |
| Permutations.NextIsUndone | arrays_strings/next_smallest/solution.c:71-96 | the successor relation reversed is the predecessor relation |
| Permutations.UpAndDown | arrays_strings/next_smallest/solution.c:71-96 | next_perm followed by next_smallest restores the array, unless it was the maximum |
| Permutations.DownAndUp | arrays_strings/next_smallest/solution.c:71-96 | next_smallest followed by next_perm restores the array, unless it was the minimum |
| Permutations.SwapThenReverse | arrays_strings/next_smallest/solution.c:92-93 | swap and reverse leave the tail ascending behind the partner |
| RoutingTable.Table.Lookup | knowledge_based/networking/routing/rtable.c:64-80 | the destination of the longest matching prefix among all entries ever written, the latest for equal prefixes; an entry matches if the two addresses, shifted down to its length, are the same number |
| RoutingTable.Table.AddEntry | knowledge_based/networking/routing/rtable.c:32-62 | appends one entry to the list the trie stands for; a length above 32 counts as 32 |
| RoutingTable.Table.SetDefaultGateway | knowledge_based/networking/routing/rtable.c:28-30 | the default is the entry of length zero |
| RoutingTable.Table.constructor | knowledge_based/networking/routing/rtable.c:26 | the table starts with the default ~0 |
| RoutingTable.Descend | knowledge_based/networking/routing/rtable.c:40-47 | the first loop stops at the prefix's node or at the first missing child |
| RoutingTable.Extend | knowledge_based/networking/routing/rtable.c:49-57 | the second loop makes the missing nodes and changes no value |
| RoutingTable.Search | knowledge_based/networking/routing/rtable.c:65-77 | the loop of lookup ends with the deepest node on the path that has a value |
| RoutingTrie.LongestIsBest | knowledge_based/networking/routing/rtable.c:64-80 | the longest prefix with a value gives the best entry of the plain list |
| RoutingTrie.MatchesIff | knowledge_based/networking/routing/rtable.c:40-46 | an entry matches as a number if and only if the address takes its path, bit by bit |
| RoutingTrie.AgreeIff | knowledge_based/networking/routing/rtable.c:33-46 | the first bits under the shifted mask agree if and only if the shifted numbers do |
| RoutingTrie.LastWordIsBest | knowledge_based/networking/routing/rtable.c:70-79 | the last node with a value on the way down is that prefix |
| RoutingTrie.BestIsUnique | knowledge_based/networking/routing/rtable.c:64-80 | the best entry is unique |
| RoutingTrie.StopsAt | knowledge_based/networking/routing/rtable.c:35-38 | the shifted mask reaches the limit exactly at the depth of the prefix |
| RoutingTrie.MaskIs | knowledge_based/networking/routing/rtable.c:33-38 | bit by bit, the shifted mask is 1 << (31 - depth), and 0 at depth 32 |
| RoutingTrie.AgreeingPaths | knowledge_based/networking/routing/rtable.c:40-46 | addresses that agree on their first bits take the same path |
| RoutingTrie.PathsAgree | knowledge_based/networking/routing/rtable.c:40-46 | and conversely |
| RoutingTrie.Grow | knowledge_based/networking/routing/rtable.c:50-54 | a new child keeps the trie linked |
| RoutingTrie.Write | knowledge_based/networking/routing/rtable.c:28-60 | writing a node, marked or already marked, changes exactly the value of its prefix |
| SerializeTree.RoundTrip | trees_graphs/serialize_ntree/solution.cpp:56-109 | for every n-ary tree, NULL included, deserialize(serialize(t)) is t on new nodes, none shared, and the whole text is read |
| SerializeTree.Serialize | trees_graphs/serialize_ntree/solution.cpp:56-81 | the queue-driven loop writes the breadth-first text |
| SerializeTree.TextByLevels | trees_graphs/serialize_ntree/solution.cpp:56-81 | that text is the tree level by level, from left to right: for each node how many children it has and their values |
| SerializeTree.Deserialize | trees_graphs/serialize_ntree/solution.cpp:83-109 | from any text that holds the numbers its counts ask for, negative counts and a rest included: new nodes, none shared, that form the tree it spells; the rest is not read |
| SerializeTree.ReadableIsSpelled | trees_graphs/serialize_ntree/solution.cpp:95-106 | every such text spells a tree for each value waiting in the queue |
| SerializeTree.SpelledIsReadable | trees_graphs/serialize_ntree/solution.cpp:95-106 | and only such texts do |
| SerializeTree.WrittenIsSpelled | trees_graphs/serialize_ntree/solution.cpp:66-78 | what serialize writes for a queue spells that queue, whatever follows |
| SerializeTree.WriteChildren | trees_graphs/serialize_ntree/solution.cpp:72-77 | the values of the children, in order |
| SerializeTree.ReadChildren | trees_graphs/serialize_ntree/solution.cpp:100-105 | as many new children as counted, with the values read |
| SerializeTree.Expand | trees_graphs/serialize_ntree/solution.cpp:96-105 | one round gives the first node its children and queues them |
| SerializeTree.ExpandProgress | trees_graphs/serialize_ntree/solution.cpp:95-106 | the state of the two queues is kept from round to round |
| SerializeTree.TextDecides | trees_graphs/serialize_ntree/solution.cpp:56-81 | no text is a beginning of another, and different trees have different texts |
| SerializeTree.SpellsDecides | trees_graphs/serialize_ntree/solution.cpp:95-106 | a text spells one tree only, for each value in the queue, and leaves one rest |
| Semaphore.WaitsAreCovered | threads/semaphores/semaphore.c:29-43 | in every run, spurious wakeups included, waits never exceed initial value plus posts, both counted by the calls that returned and those past their effect; below 2^64 the counter is the difference |
| Semaphore.QuietCounter | threads/semaphores/semaphore.c:29-43 | where every call has returned or sleeps, and below 2^64: counter plus waits returned is initial value plus posts returned, and a sleeper means that all of it was taken |
| Semaphore.PostAlone | threads/semaphores/semaphore.c:38-43 | a post that nobody disturbs returns with the counter one up and wakes one sleeper, if there is one |
| Semaphore.WaitAlone | threads/semaphores/semaphore.c:29-36 | a wait that nobody disturbs, new or woken, returns with the counter one down, or sleeps where it is zero |
| Semaphore.LeadsOn | threads/semaphores/semaphore.c:29-43 | what a call does by itself prolongs every run that ends where it starts |
| Semaphore.CountsModulo | threads/semaphores/semaphore.c:35-40 | the counter counts modulo 2^64 |
| Semaphore.NoWakeupIsLost | threads/semaphores/semaphore.c:29-43 | while anyone sleeps, counter <= posters yet to signal + woken waiters yet to settle |
| Semaphore.SleepersAreServed | threads/semaphores/semaphore.c:29-43 | with a positive counter and a sleeper, some thread under way can step |
| Semaphore.SomeoneSteps | threads/semaphores/semaphore.c:29-43 | a call under way that does not sleep never leaves the whole system stuck |
| Semaphore.NextKeepsInv | threads/semaphores/semaphore.c:29-43 | every step of every thread keeps the invariant |
| Semaphore.StepShare | threads/semaphores/semaphore.c:31-34 | the counter never gains more than the moving thread's own share |
| Semaphore.SignalKeepsWakeup | threads/semaphores/semaphore.c:42 | a signal hands its share to the sleeper it wakes |
| Semaphore.RunInv | threads/semaphores/semaphore.c:29-43 | the invariant holds in every reachable state |
| WorkQueue.RunInv | threads/work_queue/wqueue_semaphores.c:44-59 | in every reachable state: queue length = semaphore + workers past it that have not dequeued + inserters that have not posted; every job has one place |
| WorkQueue.NeverCrashes | threads/work_queue/wqueue_semaphores.c:46-48 | no worker takes a job from an empty queue |
| WorkQueue.DeliveredOnce | threads/work_queue/wqueue_semaphores.c:44-51 | no job is delivered twice, and only inserted jobs are delivered |
| WorkQueue.NeverLost | threads/work_queue/wqueue_semaphores.c:44-59 | each job handed in is in exactly one place: delivered once, once in the queue, or with exactly one thread |
| WorkQueue.SomeoneSteps | threads/work_queue/wqueue_semaphores.c:44-59 | while a call is under way past the semaphore, or a worker waits and the queue is not empty, some call can go on |
| WorkQueue.StuckMeansDelivered | threads/work_queue/wqueue_semaphores.c:44-59 | where no call can go on, all wait for a job; then the queue is empty and each job handed in was delivered exactly once |
| WorkQueue.LastInFirstOut | threads/work_queue/wqueue_semaphores.c:44-59 | in every run, each job taken is the one put in last of those still there |
| WorkQueue.InsertAlone | threads/work_queue/wqueue_semaphores.c:53-59 | an insert_job that nobody disturbs puts its job in front, posts and returns |
| WorkQueue.GetAlone | threads/work_queue/wqueue_semaphores.c:44-51 | a get_job that nobody disturbs returns the job in front |
| WorkQueue.LeadsOn | threads/work_queue/wqueue_semaphores.c:44-59 | what a call does by itself prolongs every run that ends where it starts |
| WorkQueue.OneCarrier | threads/work_queue/wqueue_semaphores.c:44-59 | a job that a thread carries is carried by no other |
| WorkQueue.QuietSemaphore | threads/work_queue/wqueue_semaphores.c:44-59 | when every call has returned or waits on the semaphore, it counts the queue, which with the deliveries holds all jobs |
| WorkQueue.NextKeepsInv | threads/work_queue/wqueue_semaphores.c:44-59 | every load, store, lock and semaphore step keeps the invariant |
| WorkQueue.KeepsList | threads/work_queue/wqueue_semaphores.c:46-56 | the links from the head on form the abstract queue through both stores of push and pop |
| WorkQueue.KeepsPlace | threads/work_queue/wqueue_semaphores.c:44-59 | only the arrival of a new job changes the number of places of a job |
| WorkQueue.ReadFindsJob | threads/work_queue/wqueue_semaphores.c:46-48 | past the semaphore the head is not null |
| Philosophers.EveryoneEats | threads/philosophers_dinner/solution.c:23-44 | for every N >= 2: every run has at most 5N steps, and one that cannot go on has fed each philosopher exactly once |
| Philosophers.EatsAlone | threads/philosophers_dinner/solution.c:32-38 | at every meal both forks are held by the eater and by nobody else |
| Philosophers.MealsCounted | threads/philosophers_dinner/solution.c:38 | at each point of a run a philosopher has eaten once or not at all, as his place says |
| Philosophers.TableOrdered | threads/philosophers_dinner/solution.c:26-30 | taking the smaller index first orders the forks of every philosopher exactly when N is not 1; the source fixes N = 5 |
| Philosophers.AloneStarves | threads/philosophers_dinner/solution.c:26-35 | with N = 1 the two forks are one and the philosopher blocks on himself |
| Philosophers.FedUnlessAlone | threads/philosophers_dinner/solution.c:23-44 | every run that cannot go on has fed everyone exactly once, if and only if N is not 1 |
| OrderedLocking.NoDeadlock | threads/philosophers_dinner/solution.c:32-41 | with locks taken in index order, unless all are done some thread can move |
| OrderedLocking.WaitsForHolder | threads/philosophers_dinner/solution.c:32-35 | a thread that is not done is held up only by another thread, which holds the lock it needs next |
| OrderedLocking.RunsEnd | threads/philosophers_dinner/solution.c:32-41 | runs are finite, and the stuck states are exactly those where all are done |
| OrderedLocking.Exclusive | threads/philosophers_dinner/solution.c:32-41 | a thread at work holds both locks and no other thread holds either |
| OrderedLocking.WaitsForLarger | threads/philosophers_dinner/solution.c:32-35 | who blocks a thread can move or waits for a larger lock |
| OrderedLocking.RunInv | threads/philosophers_dinner/solution.c:32-41 | owners are right in every reachable state, and each step uses up one of those left |
| CopyBuffers.CopiesAreSequential | threads/copy_buffers/solution.c:28-46 | for any concurrent calls: runs are finite, and a stuck one has made all copies with the buffers as after some sequential order of them |
| CopyBuffers.MovedInv | threads/copy_buffers/solution.c:28-46 | every lock step and every copied byte keeps the invariant |
| CopyBuffers.AgreesBegin | threads/copy_buffers/solution.c:40 | when the second lock is taken, the source is settled and the copy may count as made |
| CopyBuffers.AgreesByte | threads/copy_buffers/solution.c:42 | one byte copied: the others see no change |
| CopyBuffers.ByteByByte | threads/copy_buffers/solution.c:42 | while a copy is under way no step of anyone changes its source, or what it has not reached of its destination |
| CopyBuffers.AgreesEnd | threads/copy_buffers/solution.c:44 | when the second lock is released the copy is complete |
| CopyBuffers.Disjoint | threads/copy_buffers/solution.c:36-40 | two threads at work never write what the other reads or writes |
| CopyBuffers.TasksOrdered | threads/copy_buffers/solution.c:36-37 | min and max order the locks of every call; equal indices take none |

## Left out

- Reading and printing: every `main`, `scanf`, `cin` and `printf`; printed output is a returned sequence.
- Decimal text: expressions and serialised trees are sequences of tokens and numbers, literals are unsigned.
- Widths of `int` arithmetic in the evaluator and the stripper: values are unbounded; truncation toward zero is modelled.
- LRUCache.Replay: histories that insert a cached key, where agreement with the value last stored is false; what the first such insert does is LRUCache.FirstDuplicate.
- LRUCache.Cache.GetKey: the global 64-bit timestamp is unbounded here; wrap-around after 2^64 operations is not modelled.
- Dijkstra.Graph.Run: graphs in which a shortest distance plus an edge that continues it reaches UINT_MAX, where the 32-bit sums lose their meaning, are excluded by its precondition.
- LoopFinder.FindMergeSpot: lists that never meet; the source dereferences null on them.
- FoldPaper.Fold: the width of `1 << N`; command strings are those the source's assert admits.
- SerializeTree.Deserialize: texts that end before the numbers their counts ask for; the source then goes on with a count it never read.
- PatienceSort.LongestIncreasingSubsequence.Solve: an output vector that is not empty on entry; the caller passes an empty one.
- WorkQueue.RunInv: overflow of the POSIX semaphore, and reuse of a freed node's address.
- WorkQueue.NeverCrashes: a `sem_wait` that a signal handler interrupts; the source ignores its result.
- Semaphore.NoWakeupIsLost: fairness; that a thread which can step does step is up to the scheduler.
- `std::sort`, `std::set` and `std::reverse`: their contracts are used, not their internals.
- Allocation failure and freeing of memory.
- Standard sorts, simple dynamic programs, binary-search variants, string utilities and bit tricks: they would only add easy members.
- knowledge_based/linux_internals and the rest of knowledge_based/networking: system calls.
- DS_Algos/BST, DS_Algos/prio_queue, numeric/stream_sum, sorting_searching/2d_binsearch, threads/barriers and the malloc exercise: not modelled.
