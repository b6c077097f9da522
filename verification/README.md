# SS-CE: searches, containers and arithmetic cores

A Dafny model of the core of SS-CE, a C library of search algorithms and the containers they run on,
with proofs of what that code promises.

The stack of layers, from the top:

- `SearchTheory`, `Uninformed`, `BestFirst`: breadth-first, depth-first and best-first graph search.
  `Uninformed` and `BestFirst` hold the C state objects and their `*_step` methods, which work on the
  containers below. Each step is proved to be a step `StepTo` of an abstract machine over (frontier,
  closed keys), and `SearchTheory` proves theorems about whole runs of that machine: breadth-first
  search returns a nearest goal, depth-first search closes exactly what it can reach, best-first search
  always takes a least entry, and all three are sound, complete and terminate.
- `HashSet`, `Dequeue`, `SortedArray`: the containers as classes that update their fields in place, each
  against a ghost map or sequence.
- `HeapSort`, `Merge`, `BinarySearch`: the algorithms under the containers. Heapsort works on addresses
  modulo 2^64, as the C does.

Beside the stack stand three arithmetic cores:

- `XxHash`, the code of the 32-bit xxHash with its shifts and masks, against `XxHashSpec`, the algorithm in
  plain integer arithmetic with its constants written out. `XxHashAnswers` proves known hashes of that
  specification, and `HashDetection` and `XxHashDetection` which changes of a message it must notice.
- `FAlloc`, the per-thread stack allocator.
- `Bitfield`.

`Arithmetic` holds what the bit operators and rotations of C mean on numbers.

How the model is set up:

- An element is `Elem(key, data)`: the key is the rank of the key bytes under `cmp_l`, the data is every
  other byte. `DataType.RankRepresentsOrder` shows that ranks represent every strict weak order on a
  finite set of keys. `HashSet` and the closed sets take equal ranks to be equal keys, so there `cmp_l`
  is a strict total order with `cmp_eq` its equality, and `hash` depends on the key only.
- Whether memory can be had is an input of every operation that allocates: `granted` is the answer to its
  one allocation, and `lasts` says that none of its allocations fails (`DataType.AllocateWhile`). Contracts
  hold for every value of these inputs, and say what is certain when memory lasts.
- The search callbacks are functions of an element. Theorems that need it assume `KeyDetermined`: which
  keys come out, and whether a state is a goal, depends on the key only, while the rest of an element
  (a move history) may vary.
- Methods keep `Valid()`, so a statement about one call is a statement about every run of calls.

## What the code does differently from its documentation

Each of these follows the code; the lemma named says exactly when the two agree.

- `hashset_create` documents shrinking below `shrink_ratio`, but the code compares with `expand`
  (src/structures/HashSet.c:204). `HashSet.ShrinkMatchesDocumentation`: the two agree at every load that a
  table can reach if and only if shrinking is off, or expanding is (the bucket count then never changes),
  or both ratios are equal. `HashSet.ShrinkUndoesExpand` and `HashSet.HashSet.AddThenRemove`: with the
  defaults the next remove gives the table of an expand back if and only if the load was below two elements
  a bucket, which only a table of one bucket can miss while memory lasts; as documented it never would.
- `sorted_array_insert_stable` documents that the new element goes behind its equals, but it goes in
  front of the last of them (src/structures/SortedArray.c:322-323). `SortedArray.InsertStablePlacement`:
  the two agree if and only if that last equal element is the same bytes as the new one.
  `SortedArray.InsertStableWitness` is an input where they do not, and the contract of
  `SortedArray.SortedArray.InsertStable` states the condition on the array before the call.
- The cached child address of heapsort is right if and only if the key offset is 0
  (`HeapSort.CachedFormNeedsOffsetZero`), and heap creation starts inside the array if and only if there
  are two elements or more (`HeapSort.FirstParentInBounds`). `sorted_array_merge`, and with it every batch
  of children in best-first search, is modelled on those inputs.
- `bestfs_create` ignores a failed insert of the initial state (src/ai/search/informed/BestFirst.c:66).
  `BestFirst.ExhaustedIsWrong`: a search can report that nothing is left although a goal is reachable if and
  only if that insert failed and there is such a goal; `BestFirst.LostInitialState` is a case of it.
  `BestFirst.FirstStepExhausted`: a caller sees it, because a -1 comes at the first step if and only if the
  initial state was lost.
- `falloc_malloc_aligned` computes sizes modulo 2^64 (src/memory/FAlloc.c:91, 173, 182). The block it
  returns lies inside the mapping if and only if usage, skipped bytes and size together do not wrap
  (`FAlloc.ThreadLocalStack.MallocAligned`). `FAlloc.OversizedRequest`: with four bytes in use, a request for
  SIZE_MAX bytes returns a pointer and takes one of the four back.
- A sorted array's block holds exactly its gap and its elements, but the code ignores a refused shrinking
  realloc. After a removal from an exact block the fit is exact if and only if the realloc was granted or none
  was needed (`NeedsTrim`; `RemoveRaw`, `Erase`, `Delete`, `Pop`, `Compact` of `SortedArray.SortedArray`).
  `SortedArray.FitLost` is a run after which it is not.

## Model

| member | source | states |
|---|---|---|
| SearchTheory.BfsIsOptimal | src/ai/search/uninformed/BFS.c:61-116 | when the first non-zero return of a run of `bfs_step` is 1, no reachable goal lies fewer expand edges from the initial state than the one returned, duplicate frontier entries or not |
| SearchTheory.DfsExactCoverage | src/ai/search/uninformed/DFS.c:61-116 | from the pop of an unclosed x until the stack is its old rest again, exactly the states that x reaches along paths avoiding the closed ones get closed, and the rest is untouched |
| SearchTheory.ExpandKeepsCover | src/ai/search/uninformed/DFS.c:91-112 | trading the top of the stack for its fresh children neither adds to nor takes from what the closed set plus the stack can cover |
| SearchTheory.StackCover | src/ai/search/uninformed/DFS.c:61-116 | the same coverage for any prefix of the stack, duplicates and closed entries included |
| SearchTheory.GoalIsSound | src/ai/search/uninformed/BFS.c:84-90 | a goal returned at any point of any run, also after earlier goals and failed steps, is reachable by real expand edges and has heuristic 0; for all three searches |
| SearchTheory.ExhaustedMeansNoGoal | src/ai/search/uninformed/DFS.c:61-65 | a run that ends in -1 with nothing but 0 before has closed exactly the reachable keys, and none is a goal; for all three searches |
| SearchTheory.SearchInvStep | src/ai/search/uninformed/BFS.c:61-116 | every step that returns 0 keeps the invariant: frontier reachable, closed keys reachable and no goals, every successor of a closed key closed or waiting |
| SearchTheory.StepDecreases | src/ai/search/informed/BestFirst.c:87-137 | every step that returns 0 lowers (unclosed reachable keys, frontier length) lexicographically, so a search of a finite space ends |
| SearchTheory.NearerIsClosed | src/ai/search/uninformed/BFS.c:61-116 | whatever has a shorter path than the label of the front entry is already closed |
| SearchTheory.BfsInvStep | src/ai/search/uninformed/BFS.c:73-112 | a breadth-first step keeps path-length labels that ascend along the queue, differ by at most one, and bound the depth of every closed key and its successors |
| SearchTheory.BestFirstTakesLeast | src/ai/search/informed/BestFirst.c:36-126 | over every run, failures included, no frontier entry has a smaller key than the popped one, although the array underneath takes its greatest |
| SearchTheory.ChildrenInOrder | src/ai/search/uninformed/DFS.c:91-105 | after an expansion the frontier is the old rest plus exactly the unclosed children: behind it in the order of the expansion (breadth-first), in front of it in the opposite order (depth-first) |
| SearchTheory.LastChildPlace | src/ai/search/uninformed/DFS.c:99 | the last unclosed child is what a depth-first search pops next, and what a breadth-first search pops last |
| SearchTheory.FirstChildPlace | src/ai/search/uninformed/BFS.c:99 | the first unclosed child enters the queue right behind the entries that were there |
| SearchTheory.LastChildFirst | src/ai/search/uninformed/DFS.c:61-116 | everything that the last unclosed child reaches around the closed states is closed before the search pops an earlier child |
| Uninformed.UninformedState.Step | src/ai/search/uninformed/BFS.c:61-116 | the step on the linked list and the hash set is a step of the abstract machine: -1 exactly on an empty frontier, 1 only for the popped state and only if it was not closed. It returns 2 only if an allocation fails; then nothing is closed, and either nothing changed or the popped state is gone and a prefix of its unclosed children was pushed |
| Uninformed.UninformedState.Create | src/ai/search/uninformed/DFS.c:25-59 | a created search starts from exactly the initial state, with nothing closed; NULL comes only from a failed allocation |
| Uninformed.PushChildren | src/ai/search/uninformed/BFS.c:93-105 | the frontier grows by the children that are not closed, in order at the back or reversed at the front, up to the first push that fails, and all of them while memory lasts |
| Uninformed.UninformedState.Search | test/ai_search_uninformed_bfs.c:35-58 | the client loop decides every finite problem while memory lasts: it returns a goal if and only if one is reachable, the nearest with breadth-first search; a verdict reached before memory runs out is true as well |
| BestFirst.BestFirstState.Step | src/ai/search/informed/BestFirst.c:87-137 | the step on the sorted array and the hash set is a step of the abstract machine, with -1 and 1 as above; it returns 2 only if an allocation fails; then nothing is closed, and either nothing changed or the popped state is gone and its children were merged in as a whole or not at all. Only expanding a state with exactly one child is out |
| BestFirst.BestFirstState.Create | src/ai/search/informed/BestFirst.c:44-85 | a created search holds the initial state if its insert was granted and nothing otherwise; NULL comes only from another failed allocation |
| BestFirst.ExhaustedIsWrong | src/ai/search/informed/BestFirst.c:66-90 | from a created search some run of zero returns ends in -1 with a goal reachable, if and only if the initial state was lost and there is a reachable goal |
| BestFirst.FirstStepExhausted | src/ai/search/informed/BestFirst.c:66-90 | a run from a created search that ends in -1 does so at its first step if and only if the initial state was lost |
| BestFirst.RunIsMergeable | src/ai/search/informed/BestFirst.c:104-126 | if no reachable state other than a goal has exactly one child, no run ever merges a batch of one |
| BestFirst.LostInitialState | src/ai/search/informed/BestFirst.c:66 | a problem on which -1 comes back although the initial state is a goal |
| BestFirst.MergeChildren | src/ai/search/informed/BestFirst.c:118-127 | the frontier stays sorted by the reversed order and gains exactly the children as a multiset, or nothing when memory runs out, which is the only failure for batches that fit the address space |
| BestFirst.BestFirstState.Search | test/ai_search_informed_bestfirst.c:35-58 | the client loop decides every finite problem in which no reachable non-goal has exactly one child while memory lasts, unless creation lost the initial state, and then returns -1 |
| HashSet.HashSet.Create | src/structures/HashSet.c:268-298 | an empty table of 256 buckets for size 0 or the invalid size, and ratios 0.5 and 1.0 in place of negative ones |
| HashSet.ThresholdsByCount | src/structures/HashSet.c:192-241 | a table wants to expand if and only if expanding is on and it holds more than expand times its bucket count, and to shrink if and only if shrinking is on, it is above its first size and it holds less than that |
| HashSet.HashSet.Contains | src/structures/HashSet.c:304-310 | true if and only if the map holds the key |
| HashSet.HashSet.Get | src/structures/HashSet.c:312-324 | the stored element of the key; fails and leaves the value alone if and only if there is none |
| HashSet.HashSet.Add | src/structures/HashSet.c:326-362 | the map gains or replaces exactly this key; fails, and changes nothing in the map, if and only if the key is new and its bucket's allocation is refused, so a refused expand is no failure; the table expands on its threshold while memory lasts; less than two elements a bucket (two in a single one) stays the bound |
| HashSet.HashSet.Remove | src/structures/HashSet.c:364-382 | the map loses exactly this key, fails if and only if there was none, whatever the resize does; shrinks on its threshold while memory lasts; the load bound is kept |
| HashSet.HashSet.Shrink | src/structures/HashSet.c:192-230 | resizes only if the code's own threshold asks for it, and then always while memory lasts; contents and min_size * 2^k bucket counts are kept |
| HashSet.HashSet.Expand | src/structures/HashSet.c:232-266 | as for shrinking; when it does not resize the table is untouched, so positions found before stay right |
| HashSet.Relocate | src/structures/HashSet.c:155-190 | every element moves to the bucket its hash names in the new table and nothing else appears there; a failure leaves the old table whole and needs a failed allocation |
| HashSet.FindInBucket | src/structures/HashSet.c:304-324 | searching only the bucket that the hash names decides membership in the map |
| HashSet.InsertKeepsTable | src/structures/HashSet.c:75-114 | inserting at the place the search gives keeps buckets strictly sorted and the table equal to the enlarged map |
| HashSet.ReplaceKeepsTable | src/structures/HashSet.c:334-340 | overwriting the found element is the map update |
| HashSet.RemoveKeepsTable | src/structures/HashSet.c:116-137 | removing the found element is the map removal |
| HashSet.MovedAll | src/structures/HashSet.c:161-181 | when both loops are through, everything in the map has been moved |
| HashSet.LoadsReached | src/structures/HashSet.c:192-266 | under adds and removes with any allocation failures, every length comes up at every bucket count min_size * 2^k, unless expanding is disabled: then the bucket count never leaves min_size |
| HashSet.ShrinkMatchesDocumentation | src/structures/HashSet.c:204 | at every load a table can reach, removes shrink as documented, if and only if shrinking or expanding is disabled or the ratios are equal |
| HashSet.ShrinkUndoesExpand | src/structures/HashSet.c:192-266 | with the default ratios the threshold gives the table of an expand back at once if and only if the load was below two elements a bucket; the documented one never does |
| HashSet.HashSet.AddThenRemove | src/structures/HashSet.c:326-382 | an add that expands and the remove after it leave the old bucket count, while memory lasts, if and only if the load was below two elements a bucket, and so always within the load bound of a table of two buckets or more |
| BinarySearch.FindSlot | src/structures/HashSet.c:49-73 | finds an equal element, or the one place where everything before is less and everything after is greater |
| Dequeue.FreeNodes | src/structures/Dequeue.c:47-53 | frees every node of a list once, and none twice |
| Dequeue.Dequeue.constructor | src/structures/Dequeue.c:72-81 | an empty list |
| Dequeue.Dequeue.PushBack | src/structures/Dequeue.c:87-109 | appends one element and keeps the two chains mirror images of distinct live nodes; a failure changes nothing |
| Dequeue.Dequeue.PushFront | src/structures/Dequeue.c:111-133 | the same at the front |
| Dequeue.Dequeue.PopBack | src/structures/Dequeue.c:135-163 | takes the last element and frees its node; fails if and only if the list is empty |
| Dequeue.Dequeue.PopFront | src/structures/Dequeue.c:165-193 | takes the first element and frees its node; fails if and only if the list is empty |
| Dequeue.Dequeue.PeekBack | src/structures/Dequeue.c:195-203 | the last element |
| Dequeue.Dequeue.PeekFront | src/structures/Dequeue.c:205-213 | the first element |
| Dequeue.Dequeue.Reset | src/structures/Dequeue.c:215-222 | empties the list after freeing each of its nodes exactly once |
| HeapSort.SortHeap | src/structures/Sort.c:8-17 | for every size from two on, a permutation in place whose keys ascend, or descend under the reversed comparison |
| HeapSort.HeapCreate | src/structures/Heap.c:53-60 | a heap and a permutation; the do-while loop stops at index 0 |
| HeapSort.SiftDown | src/structures/Heap.c:22-51 | extends a heap by its root, permutes, touches nothing outside, and never exceeds a common bound |
| HeapSort.GreatestOfThree | src/structures/Heap.c:28-38 | selects by address a greatest of the element and those children that exist |
| HeapSort.CachedAddress | src/structures/Heap.c:18-19 | what the wrapping formula yields for any offset: the address of element 2i+1 plus three times the offset |
| HeapSort.CachedFormNeedsOffsetZero | src/structures/Heap.c:18-27 | the formula addresses the key of element 2i+1 if and only if the offset is 0 |
| HeapSort.LeftChild | src/structures/Heap.c:13-19 | at offset 0 it is the address of element 2i+1 without wrap-around, also when that child does not exist |
| HeapSort.CursorMoves | src/structures/Heap.c:27 | the loop's test on addresses is the test 2i+1 <= end on indices |
| HeapSort.FirstParentInBounds | src/structures/Heap.c:53-57 | the first index is inside the array if and only if there are at least two elements |
| HeapSort.RootIsGreatest | src/structures/Sort.c:11-12 | the root of a heap is a greatest element |
| HeapSort.ElementAddressIsProduct | src/structures/Interface.h:71-72 | element addresses are base plus index times size |
| Merge.MergeInPlace | src/structures/SortedArray.c:176-204 | the backward merge inside the enlarged block reads every destination element before overwriting it and yields the merge of the two inputs |
| Merge.MergedSorted | src/structures/SortedArray.c:183-195 | the merge of sorted inputs is sorted |
| Merge.MergedMultiset | src/structures/SortedArray.c:176-204 | the merge loses and invents nothing |
| Merge.MergedStable | src/structures/SortedArray.c:186-193 | equal keys come out source first, each input in its own order |
| Merge.SortedUnique | src/structures/SortedArray.c:176-204 | a sorted sequence is determined by its elements of each key, so sortedness and stability leave one possible merge |
| SortedArray.FindLast | src/structures/SortedArray.c:80-113 | the forward stable search finds the last of the equal elements, or the place for a missing key |
| SortedArray.InsertStablePlacement | src/structures/SortedArray.c:322-323 | inserting there puts the new element behind its equals if and only if the last of them is identical to it |
| SortedArray.InsertStableWitness | src/structures/SortedArray.c:315-329 | an array and an element for which the documented place is missed |
| SortedArray.SortedArray.InsertStable | src/structures/SortedArray.c:315-329 | inserts in front of the last equal element, if there is one, and stays sorted; the new element is behind its equals if and only if there was none or the last of them is identical to it |
| SortedArray.SortedArray.Insert | src/structures/SortedArray.c:299-313 | the contents gain exactly this element at the returned index, or are unchanged, and the keys still ascend (descend when reversed); it fails if and only if the front gap is of no use and the allocation is refused |
| SortedArray.SortedArray.KeysInOrder | src/structures/SortedArray.c:53-78 | what every operation keeps, said of keys: they ascend, or descend under the reversed comparison |
| SortedArray.SortedArray.InsertRaw | src/structures/SortedArray.c:115-174 | the three branches (first block, front gap, growth at the back) insert at the index; the gap shrinks only in the front branch, which is taken up to the middle and cannot fail |
| SortedArray.WindowOpensInFront | src/structures/SortedArray.c:137-141 | moving the first elements into the gap by memmove and storing at the hole is an insertion into the window that now starts one earlier |
| SortedArray.WindowOpensBehind | src/structures/SortedArray.c:166-169 | moving the last elements back by memmove and storing at the hole is an insertion |
| SortedArray.WindowClosesInFront | src/structures/SortedArray.c:208-215 | the overlapping move of the first elements is a removal from the window that now starts one later |
| SortedArray.WindowClosesBehind | src/structures/SortedArray.c:216-224 | the overlapping move of the last elements is a removal |
| SortedArray.SortedArray.MergeBatch | src/structures/SortedArray.c:331-374 | for batches of two or more, the contents become the stable merge with a sorted arrangement of the batch; a failure changes nothing and needs a failed allocation |
| SortedArray.SortedArray.MergedWithMultiset | src/structures/SortedArray.c:331-374 | so the multiset grows by exactly the batch |
| SortedArray.SortedArray.Erase | src/structures/SortedArray.c:418-426 | removes the element at the index, fails if and only if there is none; an exact block stays exact if and only if nothing is removed, the shrinking realloc is granted, or none is needed |
| SortedArray.SortedArray.Delete | src/structures/SortedArray.c:428-441 | removes one element of the key if and only if there is one, and returns its index; the same exactness |
| SortedArray.SortedArray.RemoveRaw | src/structures/SortedArray.c:206-244 | both branches remove the index; the gap grows exactly when the index is in the first half of more than 128 elements, and vanishes with the last element; the same exactness |
| SortedArray.SortedArray.Get | src/structures/SortedArray.c:286-297 | the element at the index, found through the gap; fails if and only if there is none |
| SortedArray.SortedArray.Pop | src/structures/SortedArray.h:168-183 | takes the last element, whose key is a greatest, or a least when reversed; fails if and only if the array is empty; exact if and only if the realloc is granted or at most one element was there |
| SortedArray.SortedArray.Compact | src/structures/SortedArray.c:466-485 | removes the gap and keeps every element in place; exact if and only if the realloc is granted or there was no gap |
| SortedArray.FitLost | src/structures/SortedArray.c:231-234 | after two inserts and an erase whose realloc is refused, one element sits in a block of two |
| SortedArray.SortedArray.Clear | src/structures/SortedArray.c:458-464 | no elements, no block, no gap |
| SortedArray.SortedArray.constructor | src/structures/SortedArray.c:250-259 | no elements, no block, no gap |
| SortedArray.InsertMultiset | src/structures/SortedArray.c:115-174 | an insertion adds one occurrence of the element |
| SortedArray.RemoveMultiset | src/structures/SortedArray.c:206-244 | a removal takes one occurrence of the element |
| XxHash.EndianAlign | src/math/crypto/HashXX.c:201-232 | for every length and seed the code computes Steps 1 to 7 of "XXH32 Algorithm Description" in the xxHash fast digest algorithm specification, stated in integer arithmetic modulo 2^32 |
| XxHashAnswers.EightZeroBytes | test/math_crypto_hash_xx.c:10-15 | eight zero bytes under seed 0 hash to 3736311059 |
| XxHashAnswers.ThreeBytes | src/math/crypto/HashXX.c:128-133 | the text "abc" hashes to 0x32D153FF: a tail of single bytes |
| XxHashAnswers.WholeText | src/math/crypto/HashXX.c:201-232 | the text "Nobody inspects the spammish repetition" hashes to 0xE2293B2F: two stripes, the convergence, a word and three bytes |
| XxHash.Finalize | src/math/crypto/HashXX.c:128-199 | the switch with its four groups of falling-through cases is Step 5 (words, then bytes) and Step 6 for every remainder |
| XxHash.ReadStripes | src/math/crypto/HashXX.c:207-222 | the do-while loop with its early limit is Step 2 and stops at the last whole stripe |
| XxHash.Accumulate | src/math/crypto/HashXX.c:206-227 | Steps 1 to 3, both branches |
| XxHashDetection.OneWordDetected | src/math/crypto/HashXX.c:111-232 | messages of equal length that differ only inside one four-byte word the code reads never hash equal under one seed |
| XxHashDetection.OneByteDetected | src/math/crypto/HashXX.c:128-232 | nor do messages that differ in a single byte, trailing ones included |
| XxHashDetection.SeedDetected | src/math/crypto/HashXX.c:225-231 | below 16 bytes, no two seeds give a message the same hash |
| XxHashDetection.RoundInjective | src/math/crypto/HashXX.c:111-116 | a round is invertible in the accumulator and injective in the input |
| XxHashDetection.AvalancheInjective | src/math/crypto/HashXX.c:119-126 | the avalanche loses nothing |
| XxHashDetection.TailWordInjective | src/math/crypto/HashXX.c:135-138 | a tail word step is invertible in the accumulator and injective in the word |
| XxHashDetection.TailByteInjective | src/math/crypto/HashXX.c:131-133 | so is a tail byte step |
| XxHashDetection.ConvergeDiffers | src/math/crypto/HashXX.c:224 | a difference in one lane survives the sum of the rotated lanes |
| HashDetection.OneWord | src/math/crypto/HashXX.c:201-232 | a hash of this shape notices every change inside one word it reads whole, whatever its rounds are, if each piece is injective in each argument |
| Arithmetic.BitOperators | src/math/crypto/HashXX.c:119-126 | the bit operators on numbers act on each bit of their arguments |
| Arithmetic.RotlIsSum | src/math/crypto/HashXX.c:109 | the rotation by two shifts and an or is a product modulo 2^32 plus a quotient |
| FAlloc.MaskIsRemainder | src/memory/FAlloc.c:169 | masking with a power of two less one is the remainder, for every power of two |
| FAlloc.AlignUpLeast | src/memory/FAlloc.c:167-172 | the aligned address is the least multiple at or above the end |
| FAlloc.ThreadLocalStack.constructor | src/memory/FAlloc.c:39-50 | an empty stack in 8388608 bytes |
| FAlloc.GrowthEndsBelow | src/memory/FAlloc.c:94-97 | the growth loop, on wrapping arithmetic, ends for every total up to two thirds of the address space |
| FAlloc.GrowsToOne | src/memory/FAlloc.c:94-97 | the size that the growth reaches is one and the same: that of the first round, from one on, with room for the total |
| FAlloc.ThreadLocalStack.Grow | src/memory/FAlloc.c:94-97 | whenever the growth loop ends, it ends at that size, which is less than 1.5 times the total |
| FAlloc.ThreadLocalStack.EnsureSpace | src/memory/FAlloc.c:89-113 | nothing happens while the mapping has room for the wrapped total; otherwise mremap is asked for exactly the grown size: the mapping has that size afterwards, or it refuses (or would have to leave the address space), the call fails and nothing changes |
| FAlloc.NineThenOne | src/memory/FAlloc.c:89-113 | on a new stack of 8 MiB a request of 9 MiB makes room for 12 MiB (`TakeNine`), so that 1 MiB more needs no mremap |
| FAlloc.ThreadLocalStack.AlignOffset | src/memory/FAlloc.c:167-172 | the skipped bytes lead to the least aligned address |
| FAlloc.InsideUnlessWrapped | src/memory/FAlloc.c:173-182 | the block ends inside the mapping if and only if the sum of usage, skipped bytes and size does not wrap |
| FAlloc.ThreadLocalStack.MallocAligned | src/memory/FAlloc.c:164-185 | for every size: a returned block lies inside the mapping if and only if the request does not wrap; then it is aligned, ends at the new end and is behind every live block. Fails exactly when the mapping has to grow and cannot, and then changes nothing |
| FAlloc.OversizedRequest | src/memory/FAlloc.c:187-189 | SIZE_MAX bytes on four in use: a pointer comes back and the usage drops to three |
| FAlloc.ThreadLocalStack.Malloc | src/memory/FAlloc.c:187-189 | the same at the alignment of an int, the new end included |
| FAlloc.ThreadLocalStack.Free | src/memory/FAlloc.c:191-220 | frees the block of the pointer and the younger ones and no other; a foreign pointer changes nothing |
| FAlloc.BlocksDisjoint | src/memory/FAlloc.c:179-184 | no byte belongs to two live blocks |
| FAlloc.BelowBlock | src/memory/FAlloc.c:210-212 | moving the end down to a block leaves exactly the older blocks |
| FAlloc.FinerAlignment | src/memory/FAlloc.c:167-172 | aligning for a divisor never passes the next multiple of the common alignment |
| FAlloc.ThreadLocalStack.Run | src/memory/FAlloc.c:164-220 | any balanced nesting of requests and frees whose peak fits, however long and whichever fail, restores the live blocks and leaves less padding than a common multiple of its alignments |
| FAlloc.PeakOfRepeated | src/memory/FAlloc.c:191-220 | a scope that runs any number of times has the peak of one run |
| Bitfield.Bitfield.ForEach | src/structures/Bitfield.h:178-249 | visits in strictly ascending order, once each, with their bit, exactly the indices outside the set for filter 0, those in the set for filter 1, and every index for any other filter, whatever `dense` says |
| Bitfield.VisitWord | src/structures/Bitfield.h:180-248 | one word, with the skipped full and empty words and the complement for filter 0 |
| Bitfield.EachSet | src/structures/Bitfield.h:147-153 | the loop that strips the lowest set bit visits exactly the set bits of a byte, in order, with the value of the filter |
| Bitfield.EachBit | src/structures/Bitfield.h:155-162 | the shifting loop visits all eight bits one after the other, each with its value |
| Bitfield.ClearLowest | src/structures/Bitfield.h:149-150 | flipping the lowest set bit leaves exactly the higher ones |
| Bitfield.Bitfield.ClearAll | src/structures/Bitfield.h:79-81 | the set becomes empty |
| Bitfield.Bitfield.SetAll | src/structures/Bitfield.h:86-88 | the set holds every index |
| Bitfield.Bitfield.Set | src/structures/Bitfield.h:93-98 | the set gains exactly this index |
| Bitfield.Bitfield.Clear | src/structures/Bitfield.h:103-108 | the set loses exactly this index |
| Bitfield.Bitfield.Toggle | src/structures/Bitfield.h:113-118 | membership of exactly this index is flipped |
| Bitfield.Bitfield.Assign | src/structures/Bitfield.h:123-133 | set or cleared by the value, no other index changes |
| Bitfield.Bitfield.Get | src/structures/Bitfield.h:138-145 | 1 if and only if the index is in the set |
| Bitfield.MaskIsolates | src/structures/Bitfield.h:142-144 | the masked word is non-zero if and only if the bit is set |
| Bitfield.BitOfXor | src/structures/Bitfield.h:117 | bit by bit meaning of the toggle operator |
| DataType.WrapIsRemainder | src/memory/FAlloc.c:91 | size_t and uintptr_t arithmetic is arithmetic modulo 2^64, on negative differences too |
| DataType.RankRepresentsOrder | src/structures/Interface.h:40-62 | every strict weak order on a finite set of keys is the order of integer ranks |

## Left out

- `bfs_step` and `dfs_step` are one method with a policy: the two files differ only in the end of the list that children are pushed to. The temporary that each step takes from the stack allocator is modelled as an allocation that may fail.
- SortedArray.SortedArray.MergeBatch: needs two elements or more and key offset 0, because the heapsort under it reads outside its array for one element and computes wrong child addresses at other offsets. Best-first search is accordingly proved for problems in which no reachable state other than a goal has exactly one child. That a merge succeeds while memory lasts is stated for batches of at most half the address space (`Addressable`).
- FAlloc.ThreadLocalStack.EnsureSpace: assumes that the growth loop ends, and so does every request; `GrowthEndsBelow` shows it for totals up to two thirds of the address space, and beyond that the loop's own sum may wrap for ever. `mremap` in place is an allocation that may fail and never leaves the address space.
- FAlloc.ThreadLocalStack.Run: assumes that the peak use stays within two thirds of the address space, so that no request wraps.
- HeapSort.SortHeap: assumes that the array lies in the lower half of the address space, as user memory does; `SortedCopy` gets memory only there.
- HashSet.HashSet.Add: bucket counts and lengths are unbounded integers, and load ratios are exact rationals in place of `float`.
- A bucket of the hash set and the elements of a batch are sequences; that a bucket's own block is reallocated, and that it may stay too large when a shrinking realloc fails, is not visible.
- Leaks on failure paths (the list of a search whose first push fails, the temporary copy of a merge that cannot grow) and all `destroy` functions.
- `dequeue_pop_*` into a null pointer, which only skips the copy.
- `sorted_array_find`, `hash_size`, `dequeue_size` and `bitfield_size`: accessors that add nothing to the methods above.
- `sorted_array_delete_stable`: its backward walk increments the index.
- `sorted_array_merge_sorted`: with an empty destination it never sets the length.
- `hashset_clear`: after a failed allocation the table is gone.
- The big-endian and the aligned reads of the hash; the model reads bytes in little-endian order, and its words are the integers from 0 to 2^32 - 1.
- `bitfield_init` and `bitfield_update`; a code block that changes the bitfield while it is visited.
- SpookyHash, memory swap, the prime generator and the n-puzzle of the tests.
- `mmap`, jemalloc, thread keys, the Windows and macOS branches, the logger, CPU detection and string output.
