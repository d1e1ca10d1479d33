# Verified core of a directed taint-tracking fuzzer

This project models, in Dafny, the parts of the fuzzer and its runtime where a fast or compact
form must agree with a simple one, and proves that it does. `dafny verify dfyconfig.toml` checks
everything.

| modules | what they model |
|---|---|
| TagTrie, TagPaths, TagMerge, TagInference, TagSets, TagExactness, TagAdds, TagShown, TagFold, TagListed, TagRuns, TagLosses | the taint-label store: a path-compressed binary trie in a vector, mutated in place; a label is a node and denotes the offsets that are 1-runs on its path |
| BitVectors, TwoLevelBitVectors, BVGraphs | the lazily cleared two-level bit vector with its iterator, and the reachability and shortest-path searches over bit-vector graphs |
| AddrHashMap, AddrHashAlone | the concurrent bucket protocol as a state machine over atomic loads, stores and lock operations, and one handle on its own |
| BlockDiff, BlockQueue | the edit-script dynamic programming, the binary heap and the block queue of llvm-diff |
| Common | facts about sets, products and sequences that several modules use |
| SizeClassMap, Addresses, Sorting, LargeMmap, Chunks, Primary64 | the sanitizer allocator: size-class arithmetic for all template parameters, the mmap allocator with its two lookups, the 64-bit primary allocator with per-thread caches and ReleaseToOS |
| ShadowCombine, ShadowRuns, ShadowSplit, ShadowChain, ShadowPass, ShadowLoad | combineShadows as a meaning-preserving code generator, its meaning on every execution path, the blocks it and loadShadow add, and what the wide-compare path of loadShadow computes |
| Coverage, CoverageRaces | the coverage bitmap, one thread at a time and under interleaving |
| OffsetLens, MutInputs, CondStates | the mutable view of an input through offset segments, the merge of offset lists, and the search states of a conditional |

Results where the code does not do what one would expect of it:

- After shape inference, `combine` can drop offsets on a tie of `begin`. `TagSets.TagSet.Combine`
  states exactly what is kept, `TagExactness.ExactIff` exactly when nothing is lost, and
  `TagLosses.CombineCanLose` is a run that loses an offset.
- `combine_n` with inference looks only at the first tainted and the last label, so a group may
  denote offsets of no operand; `TagSets.TagSet.CombineN` states the range it then denotes, and
  `TagLosses.GroupCanInvent` is a run in which it happens.
- A comment in `insert_n_ones` says that a split grouped node keeps its begin; the code sets it to
  the split point. The model follows the code.
- The CHECK in `release` of a lock-free handle of AddrHashMap can fail
  (`AddrHashMap.LockFreeCheckCanFail`); `AddrHashMap.LockFreeCheckIff` says exactly when.
- `runBlockDiff` pops from an empty path if and only if the blocks match instruction by instruction.
  Its only caller enters it after a mismatch at some index, so for a fixed relation this never
  happens (`BlockDiff.DiffBlocks`); only a relation that changes with TentativeValues between the
  two comparisons makes it possible.
- The block queue is a heap only until the block map grows; then a round may take a pair although
  another has fewer unprocessed predecessors (`BlockQueue.QueueGoesStale`).
- The `ClassID(s - 1) == c` CHECK of SizeClassMap::Validate holds only for the parameters that
  `SizeClassMap.PredecessorIff` names.
- `ReleaseToOS` never releases the last run of free chunks (`LastRunStays`).
- The second early exit of `ReleaseToOS` subtracts the wrong way round, so it is taken only if no
  chunk at all was freed since the last release (`NothingNewMeans`).
- Copying a TwoLevelBitVector onto itself clears it, and its CHECK on an index lets size() through.
- `MutInput::push` gives all entries of a segment of odd size the offset of its first byte
  (`MutInputs.MetasTileIff`), and merged offset lists can overlap, which breaks the round trip
  (`CondStates.MergedApartIff`, `MutInputs.WriteThenReadIff`).
- Interleaved `has_new` calls can report a pair twice and overcount density
  (`CoverageRaces.LostUpdate`), but never suppress an unseen pair. `CoverageRaces.WriteForgetsIff`
  says exactly when a write forgets a pair, `CoverageRaces.DensityExactIff` exactly when density
  is overcounted.

## Model

| member | source | states |
|---|---|---|
| TagRuns.Run | runtime/src/tag_set.rs:62-351 | For every run of insert, combine, combine_n without inference and find: the segments read from each label after the last operation are sorted, disjoint, non-empty and cover exactly the set its operation must denote ({o} for insert(o), the exact union for combine); two labels are the same number if and only if they denote the same set, so combine is commutative, associative and idempotent on labels; the run stops early only when the store is full |
| TagRuns.RunAny | runtime/src/tag_set.rs:62-351 | For every run of all operations in any order, shape inference, and-op marks, sign marks and finds at any point included: what is read from a label after the last operation, or by a find on the way, covers exactly one set per label; labels are equal if and only if their sets are; insert denotes its offset; combine and combine_n gather their operands, losing only offsets joined to a shared one, and combine also keeps the operand with the lower label; combine_n groups exactly if the sets of the first tainted and the last operand are single offsets at the right distance; the other operations hand their operand back with its set; the highest segment read has a sign if that label's sign was set, and no segment has one if none was set |
| TagRuns.LoadWord | runtime/src/tag_set.rs:189-267 | Inserting b, b+1, ... for 2, 4 or 8 bytes and combining with inference gives a label of exactly that range, in any state of the store, read back as one segment unless it carries an and-op mark |
| TagPaths.LabelUnique | runtime/src/tag_set.rs:62-133 | Two labels with the same set are the same node, in every state that satisfies the invariant |
| TagPaths.PathUnique | runtime/src/tag_set.rs:62-133 | Two nodes that end at the same offset with the same set are the same node |
| TagPaths.SameBranch | runtime/src/tag_set.rs:62-133 | A node lies below another whenever their sets agree up to where the other ends: the trie never duplicates a branch |
| TagPaths.ParentStep | runtime/src/tag_set.rs:51-60 | The parent of a 1-node is the previous 1-run: it ends lower and denotes what is left of the set |
| TagTrie.LeafKeepsInv | runtime/src/tag_set.rs:51-60 | Hanging a new node keeps the whole invariant and every denoted set |
| TagTrie.SplitKeepsInv | runtime/src/tag_set.rs:62-133 | Splitting a shared node in place keeps the invariant, the end and the set of every older node |
| TagTrie.LeafKeepsPlain | runtime/src/tag_set.rs:93-133 | Without inference every 1-node stays one offset wide when a node is added |
| TagTrie.SplitKeepsPlain | runtime/src/tag_set.rs:93-133 | ... and when a node is split |
| TagTrie.MarksKeepInv | runtime/src/tag_set.rs:141-155 | Sign and and-op marks do not touch the invariant or any set |
| TagSets.TagSet.AttachLeaf | runtime/src/tag_set.rs:51-60 | A new leaf gets the next index, denotes its branch extended by its run, and changes no older label; full store is an explicit outcome |
| TagSets.TagSet.SplitRun | runtime/src/tag_set.rs:62-133 | The split of a run at an inner offset: the new node denotes the upper part, the old node keeps its end and set |
| TagSets.TagSet.InsertZeros | runtime/src/tag_set.rs:62-91 | Ends n offsets further with the same set; adds no label and changes none |
| TagSets.TagSet.InsertOnes | runtime/src/tag_set.rs:93-133 | Denotes the old set plus the next n offsets; adds at most one label, there, and changes older ones only where it cuts them |
| TagSets.TagSet.WalkOnes | runtime/src/tag_set.rs:93-133 | Follows existing runs of ones as long as they fit: the set grows by exactly the offsets passed, and it stops only where a node is missing or longer than what is left |
| TagSets.TagSet.Insert | runtime/src/tag_set.rs:135-139 | The label of offset o denotes {o} |
| TagSets.TagSet.SetSign | runtime/src/tag_set.rs:141-143 | Sets the sign mark of the label and changes no other node |
| TagShown.ReplayedIsCombined | runtime/src/tag_set.rs:282-327 | The walk stacks only segments that a reader of an operand is shown, the highest first, so new labels end there and signs come from there |
| TagAdds.LowKept | runtime/src/tag_set.rs:62-133 | An insertion leaves the segment and the parent of every label that ends below it as they are |
| TagSets.TagSet.CombineAnd | runtime/src/tag_set.rs:153-155 | Sets the and-op mark of the label and changes no other node |
| TagSets.TagSet.Collect | runtime/src/tag_set.rs:282-303 | The two-chain backward walk stops at the common part; its stack holds exactly the segments that the merged label must add to it |
| TagSets.TagSet.AddSegment | runtime/src/tag_set.rs:306-320 | Adds one stacked segment to the current label, with or without a gap, even if the segment was raised by an earlier split |
| TagSets.TagSet.Replay | runtime/src/tag_set.rs:303-327 | Replaying the stack denotes the common part plus all stacked segments |
| TagSets.TagSet.Combine | runtime/src/tag_set.rs:269-328 | Never more than the union; exactly the union without inference; in general exactly the offsets Kept says; no change when an operand is ROOT or both are equal; new labels end only where a segment shown for an operand ends, and older labels change only where a new label cuts them; no sign is lost, signs come only from signed segments of the operands, and the result has the sign of the highest one |
| TagMerge.PlainKept | runtime/src/tag_set.rs:282-303 | Without inference no offset is hidden in the walk |
| TagExactness.ExactIff | runtime/src/tag_set.rs:285-301 | combine denotes the exact union if and only if no visible segment of the higher label ties on begin with a shorter one of the lower label |
| TagLosses.CombineCanLose | runtime/src/tag_set.rs:288-300 | A run from the empty store, inserting 0, 2 and 3 and grouping 2 with 3, after which combining {0,2} and {2,3} gives {0,2} |
| TagLosses.GroupCanInvent | runtime/src/tag_set.rs:235-267 | A run from the empty store in which combine_n of labels b, 0, 0, b+3 with inference denotes b+1 and b+2 too, for every b |
| TagExactness.VisibleHolds | runtime/src/tag_set.rs:330-351 | The segments a reader sees cover every offset of the label |
| TagSets.TagSet.SplitAndOp | runtime/src/tag_set.rs:157-179 | Changes no set; exactly under its guards the offsets above the parent's end become unsigned segments of their own, the last one keeping the label's sign, and labels below stay as they are; otherwise nothing changes |
| TagSets.TagSet.SplitUnits | runtime/src/tag_set.rs:166-174 | Every offset between the parent and the label gets a label of its own |
| TagListed.BrokenListed | runtime/src/tag_set.rs:157-179 | Breaking a marked segment up does not change what find will list |
| TagInference.BreaksIffWidened | runtime/src/tag_set.rs:161-165 | The guard of split_and_op holds exactly of labels whose segment inference widened |
| TagInference.GuardMeansWidened | runtime/src/tag_set.rs:161-165 | When it holds, the segment is all the label denotes |
| TagSets.TagSet.Find | runtime/src/tag_set.rs:330-351 | Terminates although a parent index may exceed the child's, and returns sorted, disjoint, non-empty segments that cover exactly the set: the label's segments from the state before the call, with the widened ones that carry an and-op mark broken into single offsets |
| TagSets.TagSet.InferShape | runtime/src/tag_set.rs:189-212 | Fires exactly under its guard and then denotes exactly the len offsets as one segment; otherwise nothing changes |
| TagSets.TagSet.InferShape2 | runtime/src/tag_set.rs:215-232 | The begin of the label moves down by len - 1 exactly if its own segment is one offset wide, it denotes len offsets in a row, and the walk to the root visits one node for each; otherwise nothing changes, also for len = 0, whose len - 1 wraps |
| TagInference.WidensIff | runtime/src/tag_set.rs:215-232 | That is: exactly if every initial part of the len offsets has a label too |
| TagRuns.InferAndRead | runtime/src/tag_set.rs:215-232 | A label that infer_shape2 widens is then read as one segment of len offsets, unless it carries an and-op mark |
| TagInference.BeginKeepsInv | runtime/src/tag_set.rs:206-206 | Moving a begin to the start of a gap-free set keeps the invariant |
| TagInference.SelfNeverGroups | runtime/src/tag_set.rs:195-197 | A label is never grouped with itself |
| TagSets.TagSet.CombineN | runtime/src/tag_set.rs:235-267 | The range if the group guard fires, otherwise the fold of combine over the operands: exactly what Kept keeps at each step, so the union without inference, and in every store all offsets that no offset shared by two operands is joined to; equal operands give that label and leave the store alone |
| TagFold.FoldGathers | runtime/src/tag_set.rs:261-266 | A complete fold loses only offsets to which an offset shared by two operands is joined |
| TagFold.DisjointGathers | runtime/src/tag_set.rs:261-266 | So disjoint operands give their exact union in every store |
| TagFold.ApartIsKept | runtime/src/tag_set.rs:285-301 | Combining two labels keeps every offset to which no shared one is joined |
| TagSets.TagSet.CombineRest | runtime/src/tag_set.rs:261-266 | The fold of combine over the remaining labels, with the store and the label after each step |
| BitVectors.SetBitInRow | llvm_mode/dfsan_rt/sanitizer_common/sanitizer_bitvector.h:144-157 | Adds one bit although the second-level word may be stale; says whether it was new |
| BitVectors.ClearBitInRow | llvm_mode/dfsan_rt/sanitizer_common/sanitizer_bitvector.h:159-171 | Removes one bit and the first-level bit with the last one |
| BitVectors.TakeFirstInRow | llvm_mode/dfsan_rt/sanitizer_common/sanitizer_bitvector.h:182-195 | Removes the least bit of a row |
| BitVectors.UnionRow | llvm_mode/dfsan_rt/sanitizer_common/sanitizer_bitvector.h:198-211 | Row union over stale words, and whether it added a bit |
| BitVectors.IntersectRow | llvm_mode/dfsan_rt/sanitizer_common/sanitizer_bitvector.h:214-231 | Row intersection, and whether it removed a bit |
| BitVectors.DifferenceRow | llvm_mode/dfsan_rt/sanitizer_common/sanitizer_bitvector.h:234-248 | Row difference, and whether it removed a bit |
| BitVectors.RowsMeet | llvm_mode/dfsan_rt/sanitizer_common/sanitizer_bitvector.h:256-268 | Whether two rows share a bit |
| BitVectors.SplitOfJoin | llvm_mode/dfsan_rt/sanitizer_common/sanitizer_bitvector.h:327-343 | The three index parts are recovered from the joined index |
| BitVectors.JoinOfSplit | llvm_mode/dfsan_rt/sanitizer_common/sanitizer_bitvector.h:327-343 | Joining the three parts of an index gives it back |
| BitVectors.JoinOrder | llvm_mode/dfsan_rt/sanitizer_common/sanitizer_bitvector.h:189-189 | Joined indices keep the lexicographic order of their parts |
| TwoLevelBitVectors.TwoLevelBitVector.Clear | llvm_mode/dfsan_rt/sanitizer_common/sanitizer_bitvector.h:123-126 | The empty set, with every second-level word left as it was |
| TwoLevelBitVectors.TwoLevelBitVector.Empty | llvm_mode/dfsan_rt/sanitizer_common/sanitizer_bitvector.h:136-141 | True exactly for the empty set |
| TwoLevelBitVectors.TwoLevelBitVector.SetBit | llvm_mode/dfsan_rt/sanitizer_common/sanitizer_bitvector.h:144-157 | Adds the element and says whether it was new; the CHECK refuses exactly the indices above size(), and the index size() goes beyond the rows |
| TwoLevelBitVectors.TwoLevelBitVector.ClearBit | llvm_mode/dfsan_rt/sanitizer_common/sanitizer_bitvector.h:159-171 | Removes the element and says whether it was a member, with the same CHECK |
| TwoLevelBitVectors.TwoLevelBitVector.GetBit | llvm_mode/dfsan_rt/sanitizer_common/sanitizer_bitvector.h:173-180 | Membership, with the same CHECK |
| TwoLevelBitVectors.TwoLevelBitVector.GetAndClearFirstOne | llvm_mode/dfsan_rt/sanitizer_common/sanitizer_bitvector.h:182-195 | Removes and returns the minimum |
| TwoLevelBitVectors.TwoLevelBitVector.SetUnion | llvm_mode/dfsan_rt/sanitizer_common/sanitizer_bitvector.h:198-211 | Set union, also with itself; changed exactly if the set changed |
| TwoLevelBitVectors.TwoLevelBitVector.SetIntersection | llvm_mode/dfsan_rt/sanitizer_common/sanitizer_bitvector.h:214-231 | Set intersection, also with itself; changed exactly if the set changed |
| TwoLevelBitVectors.TwoLevelBitVector.SetDifference | llvm_mode/dfsan_rt/sanitizer_common/sanitizer_bitvector.h:234-248 | Set difference, also with itself; changed exactly if the set changed |
| TwoLevelBitVectors.TwoLevelBitVector.CopyFrom | llvm_mode/dfsan_rt/sanitizer_common/sanitizer_bitvector.h:250-253 | A copy of another vector; of itself, the empty set |
| TwoLevelBitVectors.TwoLevelBitVector.IntersectsWith | llvm_mode/dfsan_rt/sanitizer_common/sanitizer_bitvector.h:256-268 | True exactly if the sets share an element |
| TwoLevelBitVectors.Iterator.HasNext | llvm_mode/dfsan_rt/sanitizer_common/sanitizer_bitvector.h:282-287 | True exactly while members remain |
| TwoLevelBitVectors.Iterator.Next | llvm_mode/dfsan_rt/sanitizer_common/sanitizer_bitvector.h:289-316 | Returns the least remaining member and nothing else changes; both CHECKs hold |
| TwoLevelBitVectors.Iterate | llvm_mode/dfsan_rt/sanitizer_common/sanitizer_bitvector.h:270-273 | The documented loop yields every member exactly once in ascending order |
| BVGraphs.EdgeReaches | llvm_mode/dfsan_rt/sanitizer_common/sanitizer_bvgraph.h:44-48 | After addEdge(from, to), z is reachable from a exactly if it was, or a reached from and to reached z |
| BVGraphs.BVGraph.IsReachable | llvm_mode/dfsan_rt/sanitizer_common/sanitizer_bvgraph.h:111-123 | True exactly if some target is in the reflexive-transitive closure of from; terminates |
| BVGraphs.BVGraph.FindPath | llvm_mode/dfsan_rt/sanitizer_common/sanitizer_bvgraph.h:128-142 | A walk from from to a target inside the buffer, or proof that every such walk is longer than the buffer |
| BVGraphs.BVGraph.FindShortestPath | llvm_mode/dfsan_rt/sanitizer_common/sanitizer_bvgraph.h:145-151 | Writes a minimal walk and returns its vertex count; with room for all vertices it is nonzero if and only if a target is reachable |
| BVGraphs.SimpleWalk | llvm_mode/dfsan_rt/sanitizer_common/sanitizer_bvgraph.h:145-151 | Every walk can be shortened to one without repeated vertices |
| BVGraphs.SimpleIsShort | llvm_mode/dfsan_rt/sanitizer_common/sanitizer_bvgraph.h:145-151 | A walk without repeated vertices has at most kSize of them |
| AddrHashMap.StepInv | llvm_mode/dfsan_rt/sanitizer_common/sanitizer_addrhashmap.h:154-331 | Every step of every thread keeps the bucket invariant |
| AddrHashMap.EveryInterleaving | llvm_mode/dfsan_rt/sanitizer_common/sanitizer_addrhashmap.h:154-331 | In every interleaving: no nonzero address is in two live cells; the bucket holds exactly the log of published and removed entries, and every acquire was answered by that log; each handle holds exactly the lock mode its acquire path left; only a lock-free handle can fail a CHECK |
| AddrHashMap.SearchAnswers | llvm_mode/dfsan_rt/sanitizer_common/sanitizer_addrhashmap.h:199-246 | The locked search holds a cell for removal exactly if the address is stored, for creation exactly if it is absent and may be created, retries exactly if a reader's address is stored, and returns without a cell exactly if it is absent otherwise |
| AddrHashMap.OtherAnswers | llvm_mode/dfsan_rt/sanitizer_common/sanitizer_addrhashmap.h:170-197 | A lock-free or read-locked lookup hands out a cell only while it holds the entry of its address |
| AddrHashAlone.HandleAlone | llvm_mode/dfsan_rt/sanitizer_common/sanitizer_addrhashmap.h:155-331 | One handle, while all other threads are idle: acquire ends and answers by the map, release ends, and together they are a lookup, the creation of an absent address with the stored value, or a removal |
| AddrHashAlone.AcquireAlone | llvm_mode/dfsan_rt/sanitizer_common/sanitizer_addrhashmap.h:155-281 | An undisturbed acquire ends with exactly the cell, or without one, that the map calls for |
| AddrHashAlone.ReleaseAlone | llvm_mode/dfsan_rt/sanitizer_common/sanitizer_addrhashmap.h:284-331 | An undisturbed release ends, with the mutex given back and the map changed as its handle says |
| AddrHashMap.EntriesStep | llvm_mode/dfsan_rt/sanitizer_common/sanitizer_addrhashmap.h:284-331 | Only publishing adds an entry and only the store of a remover takes one away, with its value |
| AddrHashMap.PublishIsNew | llvm_mode/dfsan_rt/sanitizer_common/sanitizer_addrhashmap.h:290-296 | A published address was absent |
| AddrHashMap.CompactConserves | llvm_mode/dfsan_rt/sanitizer_common/sanitizer_addrhashmap.h:301-321 | Moving an add cell into a freed cell loses no entry and invents none |
| AddrHashMap.EmbeddedStays | llvm_mode/dfsan_rt/sanitizer_common/sanitizer_addrhashmap.h:297-325 | A step changes the address of an embedded cell if and only if it is the store of a remover of that address |
| AddrHashMap.LockFreeCheckIff | llvm_mode/dfsan_rt/sanitizer_common/sanitizer_addrhashmap.h:326-329 | The CHECK of a lock-free handle would pass at every point of a run if and only if nobody removed its address during the run |
| AddrHashMap.LockFreeCheckCanFail | llvm_mode/dfsan_rt/sanitizer_common/sanitizer_addrhashmap.h:326-329 | A run of two threads where a remover makes the CHECK of a lock-free handle fail |
| AddrHashMap.GrownCapDoubles | llvm_mode/dfsan_rt/sanitizer_common/sanitizer_addrhashmap.h:262-274 | Growing at least doubles the capacity, so the reserved slot exists |
| AddrHashMap.InitCapFits | llvm_mode/dfsan_rt/sanitizer_common/sanitizer_addrhashmap.h:255-258 | The first array has exactly as many cells as its 64 bytes have room for |
| AddrHashMap.GrownCapFits | llvm_mode/dfsan_rt/sanitizer_common/sanitizer_addrhashmap.h:262-271 | A grown array has exactly as many cells as its doubled bytes have room for |
| BlockDiff.BestIsLeast | tools/llvm-diff-parmesan/DifferenceEngine.cpp:544-566 | Taking every diagonal match is optimal: the table entry is at most the cost of any edit script |
| BlockDiff.Neighbours | tools/llvm-diff-parmesan/DifferenceEngine.cpp:531-533 | Neighbouring table entries differ by at most one edit |
| BlockDiff.FirstColumn | tools/llvm-diff-parmesan/DifferenceEngine.cpp:537-542 | The first column deletes everything, optimally |
| BlockDiff.NextRow | tools/llvm-diff-parmesan/DifferenceEngine.cpp:544-569 | One row, computed in the second of two swapped buffers, has in each entry the script and the cost that plain recursion gives |
| BlockDiff.BlockPath | tools/llvm-diff-parmesan/DifferenceEngine.cpp:518-575 | The final path is the script of the plain recursion, ties included: a valid alignment whose matches are all in the relation and whose cost is minimal over all scripts |
| BlockDiff.ScriptIsOptimal | tools/llvm-diff-parmesan/DifferenceEngine.cpp:544-566 | That recursive script is an alignment and no other one is cheaper |
| BlockDiff.DropTrailing | tools/llvm-diff-parmesan/DifferenceEngine.cpp:580-582 | Drops exactly the trailing matches; the two tails have equal length and match pairwise; it runs off the front exactly if the path has only matches |
| BlockDiff.WalkScript | tools/llvm-diff-parmesan/DifferenceEngine.cpp:584-618 | The walk handles the instructions the script names, in order, and the diff gets all of them but the leading matches |
| BlockDiff.Walk | tools/llvm-diff-parmesan/DifferenceEngine.cpp:584-627 | The walk with the tails handles both blocks completely by the script; the diff is what lies between the leading and the trailing matches |
| BlockDiff.TrimsOnce | tools/llvm-diff-parmesan/DifferenceEngine.cpp:584-618 | Which leaves only one possible diff |
| BlockDiff.HandlesIsScript | tools/llvm-diff-parmesan/DifferenceEngine.cpp:584-627 | Every way of handling two blocks is an edit script of twice its unmatched instructions |
| BlockDiff.RunBlockDiff | tools/llvm-diff-parmesan/DifferenceEngine.cpp:518-627 | Handles both blocks by exactly the recursive script, with the least possible number of unmatched instructions, and shows the events without leading and trailing matches; underflows the path if and only if the blocks match instruction by instruction |
| BlockDiff.DiffBlocks | tools/llvm-diff-parmesan/DifferenceEngine.cpp:191-220 | The comparison index by index enters runBlockDiff only after a mismatch, so for a fixed relation it never underflows; either way the least possible number of instructions stays unmatched, none exactly if the blocks match index by index |
| BlockQueue.PriorityQueue.Insert | tools/llvm-diff-parmesan/DifferenceEngine.cpp:47-61 | Conserves the multiset under any comparator and the heap under a fixed weak order |
| BlockQueue.PriorityQueue.RemoveMin | tools/llvm-diff-parmesan/DifferenceEngine.cpp:63-110 | Conserves the multiset under any comparator; under a fixed weak order nothing precedes the result and the heap is kept |
| BlockQueue.PriorityQueue.PickChild | tools/llvm-diff-parmesan/DifferenceEngine.cpp:79-100 | Picks a child that no sibling precedes |
| BlockQueue.PriorityQueue.SinkRoot | tools/llvm-diff-parmesan/DifferenceEngine.cpp:76-106 | Sinking the root restores the heap |
| BlockQueue.RootIsMin | tools/llvm-diff-parmesan/DifferenceEngine.cpp:63-66 | Nothing in a heap precedes its root |
| BlockQueue.Engine.TryUnify | tools/llvm-diff-parmesan/DifferenceEngine.cpp:155-170 | Each left block is unified at most once; a problem, which is logged, exactly if it is unified with another right block |
| BlockQueue.Engine.ProcessQueue | tools/llvm-diff-parmesan/DifferenceEngine.cpp:184-189 | Terminates, empties the queue, and processes every unified pair exactly once, although the comparator changes with the map; every pair is there because an earlier round listed it first for a left block that was free, and everything a round listed is unified or logged |
| BlockQueue.Engine.UnifyAll | tools/llvm-diff-parmesan/DifferenceEngine.cpp:155-170 | Of the pairs a comparison lists, the first one for a free left block enters the map and the queue, and every other partner is logged |
| BlockQueue.Engine.ProcessOne | tools/llvm-diff-parmesan/DifferenceEngine.cpp:184-189 | A round takes the root of the queue, which has the fewest unprocessed predecessors while the queue is a heap under the current map |
| BlockQueue.SorterMeans | tools/llvm-diff-parmesan/DifferenceEngine.cpp:125-145 | The comparator is a weak order by the number of edges from unprocessed predecessors |
| BlockQueue.QueueGoesStale | tools/llvm-diff-parmesan/DifferenceEngine.cpp:137-145 | A run of three unifications after which the queue is no heap under the current map, so that the next round takes a pair another one precedes |
| SizeClassMap.Validate | llvm_mode/dfsan_rt/sanitizer_common/sanitizer_allocator_size_class_map.h:190-210 | For all parameters: the class of a size is in range, holds it, the class below does not, and one byte more than the class needs the next class |
| SizeClassMap.ClassFits | llvm_mode/dfsan_rt/sanitizer_common/sanitizer_allocator_size_class_map.h:150-160 | Size(ClassID(s) - 1) < s <= Size(ClassID(s)) for 1 <= s <= kMaxSize |
| SizeClassMap.ClassOfSize | llvm_mode/dfsan_rt/sanitizer_common/sanitizer_allocator_size_class_map.h:190-196 | ClassID(Size(c)) == c for every class |
| SizeClassMap.FitsUnique | llvm_mode/dfsan_rt/sanitizer_common/sanitizer_allocator_size_class_map.h:150-160 | Only one class fits a size |
| SizeClassMap.SizeIncreases | llvm_mode/dfsan_rt/sanitizer_common/sanitizer_allocator_size_class_map.h:198-199 | Size is strictly increasing |
| SizeClassMap.SizeStep | llvm_mode/dfsan_rt/sanitizer_common/sanitizer_allocator_size_class_map.h:142-148 | Each class is larger than the one before by the unit of its row |
| SizeClassMap.LastClass | llvm_mode/dfsan_rt/sanitizer_common/sanitizer_allocator_size_class_map.h:134-136 | The last class holds exactly kMaxSize |
| SizeClassMap.TooLarge | llvm_mode/dfsan_rt/sanitizer_common/sanitizer_allocator_size_class_map.h:201-201 | Sizes above kMaxSize have class 0 |
| SizeClassMap.PredecessorAt | llvm_mode/dfsan_rt/sanitizer_common/sanitizer_allocator_size_class_map.h:197-197 | ClassID(Size(c) - 1) == c if and only if the class is at least two bytes above the one below |
| SizeClassMap.PredecessorIff | llvm_mode/dfsan_rt/sanitizer_common/sanitizer_allocator_size_class_map.h:197-197 | So that CHECK passes for all classes exactly if kMinSizeLog > 0 and, when there are classes above kMidSize, S < kMidSizeLog |
| SizeClassMap.MaxCachedHint | llvm_mode/dfsan_rt/sanitizer_common/sanitizer_allocator_size_class_map.h:162-166 | 0 for class 0, otherwise at least 1 and the most chunks that neither the hint limit nor the byte budget forbids |
| SizeClassMap.SizesAreCompact | llvm_mode/dfsan_rt/sanitizer_common/sanitizer_allocator_size_class_map.h:142-148 | With steps of at least 16 bytes every size is a multiple of 16 |
| LargeMmap.LargeMmapAllocator.Allocate | llvm_mode/dfsan_rt/sanitizer_common/sanitizer_allocator_secondary.h:33-73 | Dies or returns null under exactly the stated conditions; otherwise an aligned block inside a fresh mapping, one more chunk, all CHECKs hold, older blocks untouched |
| LargeMmap.PowerCheckMeans | llvm_mode/dfsan_rt/sanitizer_common/sanitizer_common.h:450-452 | The bit test accepts zero and exactly the powers of two |
| LargeMmap.LargeMmapAllocator.Register | llvm_mode/dfsan_rt/sanitizer_common/sanitizer_allocator_secondary.h:58-71 | The locked part: push, chunk_idx, statistics |
| LargeMmap.LargeMmapAllocator.Deallocate | llvm_mode/dfsan_rt/sanitizer_common/sanitizer_allocator_secondary.h:93-111 | Swap-remove: chunk_idx stays the inverse of the chunk array, the byte count drops by the mapping, no CHECK fails |
| LargeMmap.LargeMmapAllocator.GetBlockBegin | llvm_mode/dfsan_rt/sanitizer_common/sanitizer_allocator_secondary.h:142-162 | The linear search returns the block whose header-to-end range holds p, or null if there is none; its CHECKs hold |
| LargeMmap.LargeMmapAllocator.GetBlockBeginFastLocked | llvm_mode/dfsan_rt/sanitizer_common/sanitizer_allocator_secondary.h:166-205 | The bisection meets the same specification for every p, sorting lazily and changing nothing else |
| LargeMmap.LargeMmapAllocator.SortChunks | llvm_mode/dfsan_rt/sanitizer_common/sanitizer_allocator_secondary.h:171-180 | The sort permutes the array, renumbers chunk_idx and caches the bounds |
| LargeMmap.LargeMmapAllocator.Bisect | llvm_mode/dfsan_rt/sanitizer_common/sanitizer_allocator_secondary.h:183-204 | The log(n) lower bound finds the nearest header |
| LargeMmap.LargeMmapAllocator.TotalMemoryUsed | llvm_mode/dfsan_rt/sanitizer_common/sanitizer_allocator_secondary.h:113-122 | The rounded sizes of all blocks, at most currently_allocated |
| LargeMmap.LookupUnique | llvm_mode/dfsan_rt/sanitizer_common/sanitizer_allocator_secondary.h:164-166 | The specified answer is unique, so the fast and the linear lookup agree on every pointer after every history |
| LargeMmap.OverflowExact | llvm_mode/dfsan_rt/sanitizer_common/sanitizer_allocator_secondary.h:35-39 | map_size < size holds if and only if the mapping would need 2^64 bytes or more, whichever addition wrapped |
| LargeMmap.UserPointerFits | llvm_mode/dfsan_rt/sanitizer_common/sanitizer_allocator_secondary.h:44-51 | The aligned user pointer stays inside the mapping and is page aligned |
| LargeMmap.TotalFits | llvm_mode/dfsan_rt/sanitizer_common/sanitizer_allocator_secondary.h:65-66 | Disjoint live mappings never sum to 2^64: currently_allocated cannot wrap |
| LargeMmap.OutsideBounds | llvm_mode/dfsan_rt/sanitizer_common/sanitizer_allocator_secondary.h:176-182 | No block holds a pointer outside the cached bounds, although min_mmap_ is a header address and max_mmap_ adds a whole map size to one |
| Addresses.RoundUpExact | llvm_mode/dfsan_rt/sanitizer_common/sanitizer_common.h:464-467 | A 64-bit round-up is exact unless it wraps, and then it is zero |
| Primary64.SizeClassAllocator64.GetFromAllocator | llvm_mode/dfsan_rt/sanitizer_common/sanitizer_allocator_primary64.h:116-133 | Takes n chunks from the tail of the free array, populating it first if needed; dies exactly if the region or its free array is exhausted; conservation kept |
| Primary64.SizeClassAllocator64.ReturnToAllocator | llvm_mode/dfsan_rt/sanitizer_common/sanitizer_allocator_primary64.h:100-114 | Appends the chunks; dies exactly if the free array is full; conservation kept |
| Primary64.SizeClassAllocator64.PopulateFreeArray | llvm_mode/dfsan_rt/sanitizer_common/sanitizer_allocator_primary64.h:397-451 | Appends all chunks the grown mapping has room for, at least as many as requested, and these are the next ones of the region, highest first unless shuffled; dies exactly if CanPopulate fails; conservation kept |
| Primary64.SizeClassAllocator64.EnsureFreeArraySpace | llvm_mode/dfsan_rt/sanitizer_common/sanitizer_allocator_primary64.h:382-394 | Maps the least number of 64 KB units that holds the free array, or fails its CHECK |
| Primary64.SizeClassAllocator64.MapMeta | llvm_mode/dfsan_rt/sanitizer_common/sanitizer_allocator_primary64.h:432-450 | Metadata grows with the chunks; the exhaustion test |
| Primary64.SizeClassAllocator64.Allocate | llvm_mode/dfsan_rt/sanitizer_common/sanitizer_allocator_local_cache.h:45-57 | Hands out the last chunk of the cache, refilled from the tail of the free array if it was empty: one that nobody held, inside the allocated user memory; dies exactly when the refill must populate and cannot |
| Primary64.SizeClassAllocator64.Deallocate | llvm_mode/dfsan_rt/sanitizer_common/sanitizer_allocator_local_cache.h:59-74 | Appends a live chunk to the cache, draining its upper half to the free array first when it is full; counts stay within max_count |
| Primary64.SizeClassAllocator64.Refill | llvm_mode/dfsan_rt/sanitizer_common/sanitizer_allocator_local_cache.h:102-109 | Moves MaxCachedHint chunks into an empty cache |
| Primary64.SizeClassAllocator64.Drain | llvm_mode/dfsan_rt/sanitizer_common/sanitizer_allocator_local_cache.h:111-119 | Moves the last chunks of a cache to the free array, in order |
| Primary64.SizeClassAllocator64.DrainAll | llvm_mode/dfsan_rt/sanitizer_common/sanitizer_allocator_local_cache.h:76-82 | Everything the thread cached goes back |
| Primary64.SizeClassAllocator64.InitCache | llvm_mode/dfsan_rt/sanitizer_common/sanitizer_allocator_local_cache.h:93-100 | Sets max_count once |
| Primary64.ConservedIff | llvm_mode/dfsan_rt/sanitizer_common/sanitizer_allocator_primary64.h:100-133 | Conservation: free array, caches, chunks in transit and user chunks together are each carved chunk exactly once |
| Primary64.OutsideCount | llvm_mode/dfsan_rt/sanitizer_common/sanitizer_allocator_primary64.h:113-132 | The chunks outside the free array; n_allocated - n_freed counts them |
| Primary64.OnlyOnce | llvm_mode/dfsan_rt/sanitizer_common/sanitizer_allocator_local_cache.h:45-57 | A chunk with the user is in no cache, not in the free array, and handed out once |
| Primary64.CarvedAll | llvm_mode/dfsan_rt/sanitizer_common/sanitizer_allocator_primary64.h:420-424 | The fill writes exactly the next total_count chunks, without truncation in a region of at most 2^36 bytes |
| Primary64.RandomShuffle | llvm_mode/dfsan_rt/sanitizer_common/sanitizer_allocator_primary64.h:342-352 | The in-place loop is the recursive shuffle (a drawn element last, the others shuffled before it), a permutation for every generator state, with one draw per element but one |
| Primary64.GrownIsLeast | llvm_mode/dfsan_rt/sanitizer_common/sanitizer_allocator_primary64.h:408-411 | The mapping grows by whole 64 KB steps, and one step less would not cover the need |
| Primary64.CompactRoundTrip | llvm_mode/dfsan_rt/sanitizer_common/sanitizer_allocator_primary64.h:65-70 | Exactly the 16-byte aligned offsets of a region of at most 2^36 bytes survive compaction |
| Primary64.PointerRoundTrip | llvm_mode/dfsan_rt/sanitizer_common/sanitizer_allocator_primary64.h:65-70 | Every 32-bit compact pointer survives expansion |
| Primary64.SizeClassAllocator64.ReleaseToOS | llvm_mode/dfsan_rt/sanitizer_common/sanitizer_allocator_primary64.h:473-504 | Unless its two guards say there is nothing to release, hands back exactly the rounded long maximal runs except the last one, in order and each once, and counts them; every range is granularity aligned, non-inverted and inside chunks that are free now; the CHECKs on sorted gaps hold; the free array keeps its chunks |
| Primary64.SizeClassAllocator64.NothingNewIff | llvm_mode/dfsan_rt/sanitizer_common/sanitizer_allocator_primary64.h:484-486 | The second early exit is taken exactly if the bytes freed since the last release are a multiple of 2^64 or less than a granule below one |
| Primary64.SizeClassAllocator64.NothingNewMeans | llvm_mode/dfsan_rt/sanitizer_common/sanitizer_allocator_primary64.h:484-486 | So, for amounts that fit into a word less a granule, exactly if nothing was freed since, and not, as its comment says, whenever too little was |
| Primary64.SizeClassAllocator64.ReleaseRuns | llvm_mode/dfsan_rt/sanitizer_common/sanitizer_allocator_primary64.h:488-503 | The scan finds exactly the maximal runs, in order |
| Primary64.SizeClassAllocator64.MaybeReleaseChunkRange | llvm_mode/dfsan_rt/sanitizer_common/sanitizer_allocator_primary64.h:453-463 | Rounds a run inwards to whole granules; its CHECK holds |
| Primary64.RunIsSafe | llvm_mode/dfsan_rt/sanitizer_common/sanitizer_allocator_primary64.h:453-463 | Every byte of a released range lies in a chunk of the free array |
| Primary64.FreeDistinct | llvm_mode/dfsan_rt/sanitizer_common/sanitizer_allocator_primary64.h:490-494 | No chunk is twice in the free array, so sorted gaps are at least one chunk |
| Primary64.SizeClassAllocator64.LastRunStays | llvm_mode/dfsan_rt/sanitizer_common/sanitizer_allocator_primary64.h:490-503 | A free array that is one uninterrupted run is never handed back, however long it is |
| Chunks.AllGap | llvm_mode/dfsan_rt/sanitizer_common/sanitizer_allocator_primary64.h:492-494 | Distinct chunks start at least one chunk size apart |
| ShadowPass.DFSanFunction.CombineShadows | llvm_mode/pass/DFSanPass.cc:1193-1267 | Under every assignment of label sets to base shadows the result is the union of the operands; it is available at the insertion point; on every execution path to it, loops included, it carries what the operands carry at that moment; nothing is emitted if the shortcuts, the elements or the cache know a value, and asking again there, for an emitted value in either order, gives the same value without code |
| ShadowPass.DFSanFunction.FromElements | llvm_mode/pass/DFSanPass.cc:1200-1216 | Element inclusion only ever returns an operand that already is the union |
| ShadowPass.DFSanFunction.FindOrEmit | llvm_mode/pass/DFSanPass.cc:1193-1223 | The zero and equality shortcuts, the element tests and the dominance-checked cache |
| ShadowPass.DFSanFunction.Emit | llvm_mode/pass/DFSanPass.cc:1225-1252 | Exactly one union is emitted and recorded, available after the insertion point, in a block that inherits all dominators |
| ShadowPass.DFSanFunction.Record | llvm_mode/pass/DFSanPass.cc:1232-1265 | Cache and element table stay sound |
| ShadowPass.DFSanFunction.CombineOperandShadows | llvm_mode/pass/DFSanPass.cc:1273-1290 | The shadow of an instruction carries the union of all its operands, under every assignment and on every execution path |
| ShadowRuns.UpToDate | llvm_mode/pass/DFSanPass.cc:1221-1223 | A value whose block dominates the current one is up to date however often definitions re-execute |
| ShadowRuns.AllUpToDate | llvm_mode/pass/DFSanPass.cc:1273-1290 | So is every value of an operand list |
| ShadowRuns.UnionAtRunTime | llvm_mode/pass/DFSanPass.cc:1221-1223 | So a cached union found by the dominance test is current |
| ShadowRuns.NotLater | llvm_mode/pass/DFSanPass.cc:1221-1223 | A dominator of a dominator does not execute after it on the way |
| ShadowSplit.SplitExact | llvm_mode/pass/DFSanPass.cc:1235-1251 | The dominator update of the block split is exactly the dominance relation of the new control-flow graph |
| ShadowChain.ChainExact | llvm_mode/pass/DFSanPass.cc:1370-1403 | For any number of compare blocks, the dominator tree loadShadow builds is exactly the dominance relation of the finished Head, Next, Fallback, Tail graph |
| ShadowChain.SubdividedExact | llvm_mode/pass/DFSanPass.cc:1391-1403 | One more compare block between the last one and the tail keeps the dominator sets exact: every other block keeps its dominators, since the fallback leads around the new block |
| ShadowPass.DFSanFunction.LoadShadow | llvm_mode/pass/DFSanPass.cc:1327-1414 | The pass invariant survives the new blocks, what was available stays available, and the loaded shadow is available where the insertion point ends up |
| ShadowPass.DFSanFunction.AddCompares | llvm_mode/pass/DFSanPass.cc:1370-1403 | The split and the loop over the compares give that graph and that tree |
| ShadowCombine.Includes | llvm_mode/pass/DFSanPass.cc:1202-1209 | A value whose elements include the other's is the union |
| ShadowCombine.Counts | llvm_mode/pass/DFSanPass.cc:1210-1216 | A value that has the other as an element is the union |
| ShadowCombine.UnionElements | llvm_mode/pass/DFSanPass.cc:1254-1265 | The recorded elements carry what the new union carries |
| ShadowCombine.SplitDominance | llvm_mode/pass/DFSanPass.cc:1237-1238 | Dominance stays a partial order |
| ShadowLoad.LoadShadow | llvm_mode/pass/DFSanPass.cc:1327-1414 | What the emitted code computes: the wide-compare path is taken exactly for equal labels and then returns what the fallback would, store untouched; otherwise the fallback's contract |
| ShadowLoad.AllEqual | llvm_mode/pass/DFSanPass.cc:1358-1402 | The compare chain reaches the tail exactly if all labels are equal |
| ShadowLoad.RotationTest | llvm_mode/pass/DFSanPass.cc:1358-1368 | A word equals its rotation exactly if its two labels are equal |
| ShadowLoad.SameLabels | llvm_mode/dfsan_rt/dfsan/dfsan.cc:62-66 | Equal labels never trigger grouping and their union is each of them |
| Coverage.GetPath | fuzzer/src/branches.rs:93-123 | The word-skipping scan equals the bytewise scan |
| Coverage.BucketIff | fuzzer/src/branches.rs:24-41 | A count is in bucket k exactly if it lies in the k-th of the documented ranges |
| Coverage.LookupIsMask | fuzzer/src/branches.rs:26-41 | COUNT_LOOKUP has the mask of each count's bucket |
| Coverage.PathIsTrace | fuzzer/src/branches.rs:93-123 | The path lists each edge that ran once, with the bucket of its count |
| Coverage.PathEntries | fuzzer/src/branches.rs:100-106 | The path has exactly the nonzero edges with the ranges their counts lie in |
| Coverage.PlanEntries | fuzzer/src/branches.rs:137-154 | A write is planned exactly for each pair of the path whose bit is still set |
| Coverage.PlanApplied | fuzzer/src/branches.rs:140-184 | Reading and writing without interference clear exactly the bits of the path's pairs |
| Coverage.Merge | fuzzer/src/branches.rs:134-196 | On one map: result, new-edge flag and count in terms of what was seen before |
| Coverage.GlobalBranches.HasNew | fuzzer/src/branches.rs:125-197 | Sequentially: true exactly for traces with an unseen pair of edge and bucket (directed: one whose edge reaches a target); new edge exactly for an edge never seen; the maps record exactly the seen pairs; density is the number of touched edges |
| Coverage.ExactAfter | fuzzer/src/branches.rs:140-184 | Without interference a bit is cleared exactly if its pair was seen |
| Coverage.NewEdgesCount | fuzzer/src/branches.rs:146-164 | Each counted edge is one more touched byte |
| Coverage.TouchedMeansSeen | fuzzer/src/branches.rs:146-148 | A byte differs from 255 exactly if its edge was seen |
| Coverage.MaskClear | fuzzer/src/branches.rs:150-152 | gb_v & !bucket on bytes is removal of the bucket |
| Coverage.MaskTest | fuzzer/src/branches.rs:150-150 | bucket & gb_v > 0 is membership of the bucket |
| CoverageRaces.EveryInterleaving | fuzzer/src/branches.rs:140-184 | In every interleaving of read and write phases a cleared bit was really seen, an unseen pair is always reported, and density is at least the number of touched edges |
| CoverageRaces.WriteForgetsIff | fuzzer/src/branches.rs:178-184 | A write phase forgets no seen pair if and only if no byte it read had another bit cleared since |
| CoverageRaces.QuietRead | fuzzer/src/branches.rs:140-184 | That is so whenever no thread wrote since its read phase |
| CoverageRaces.ExactIfUpToDate | fuzzer/src/branches.rs:140-184 | If it is so for every write phase of a run, the idle map records exactly the seen pairs |
| CoverageRaces.WriteSlack | fuzzer/src/branches.rs:156-184 | A write phase widens the gap between density and the touched edges exactly if it is first to touch a byte that another thread plans to write |
| CoverageRaces.DensityExactIff | fuzzer/src/branches.rs:156-184 | Once all threads are idle, density is the number of touched edges if and only if no such collision happened |
| CoverageRaces.LostUpdate | fuzzer/src/branches.rs:140-184 | Two threads where the second write restores a cleared bit and density counts one edge twice |
| MutInputs.From | fuzzer/src/mut_input/mut_input.rs:40-81 | The value is the bytes of the segments in order, zero beyond the input |
| MutInputs.EntryTiles | fuzzer/src/mut_input/mut_input.rs:71-81 | The entries of one segment have its total size and its sign, and address its bytes one after another exactly if it is 1, 2, 4 or 8 bytes long |
| MutInputs.EntryOf | fuzzer/src/mut_input/mut_input.rs:40-81 | Every entry has the sign of a segment and points at that segment's first byte |
| MutInputs.MutInput.WriteToInput | fuzzer/src/mut_input/mut_input.rs:138-149 | Extends the input to the last end and puts the bytes back; panics exactly if the value is short or a segment does not fit |
| MutInputs.SetBytes | fuzzer/src/mut_input/rw.rs:15-25 | Each segment receives its slice of the bytes; panics exactly if one does not fit |
| MutInputs.ReadThenWrite | fuzzer/src/mut_input/mut_input.rs:40-68 | from then write_to_input gives the input, zero-extended |
| MutInputs.WriteThenReadIff | fuzzer/src/mut_input/mut_input.rs:138-149 | write_to_input then from gives every value back if and only if no two segments overlap |
| MutInputs.Mutate | fuzzer/src/mut_input/mut_input.rs:138-149 | For lists of find's shape: the value comes back and bytes outside the segments are untouched |
| MutInputs.MetasTileIff | fuzzer/src/mut_input/mut_input.rs:71-81 | The entries address each byte of the value once, in order, if and only if every segment is 1, 2, 4 or 8 bytes long; otherwise all entries of a segment point at its first byte |
| OffsetLens.PutGetIff | fuzzer/src/mut_input/rw.rs:15-25 | The law behind it on index lists: every value comes back exactly if no byte is named twice |
| OffsetLens.PutPut | fuzzer/src/mut_input/rw.rs:15-25 | A second write replaces the first |
| OffsetLens.GetPut | fuzzer/src/mut_input/rw.rs:15-25 | Writing back what was read changes nothing |
| OffsetLens.ApartIff | fuzzer/src/mut_input/rw.rs:15-25 | A list names no byte twice exactly if its segments do not overlap |
| CondStates.MergeOffsets | fuzzer/src/mut_input/offsets.rs:3-55 | Every segment comes from an input, every input segment is represented by one at least as long, begins stay increasing, and the second list only supplies what the first has not as long |
| CondStates.MergedCovers | fuzzer/src/mut_input/offsets.rs:3-55 | The merged list covers exactly the union |
| CondStates.MergedApartIff | fuzzer/src/mut_input/offsets.rs:18-40 | Two lists of find's shape merge without overlaps if and only if overlapping segments start together |
| CondStates.IncompatibleLists | fuzzer/src/mut_input/offsets.rs:187-206 | Two such lists that do overlap |
| CondStates.CondStmt.NextState | fuzzer/src/cond_stmt/cond_state.rs:77-104 | Conserves the bytes involved; the states follow in the order of the search, with the lists swapped, merged or kept; the state moves on in at most four calls and then stays |
| CondStates.CondStmt.Stages | fuzzer/src/cond_stmt/cond_state.rs:77-114 | A whole search with optional offsets: first the active ones, then the optional ones, then their merge, which covers every byte involved |
| CondStates.CondStmt.ToOffsetsAll | fuzzer/src/cond_stmt/cond_state.rs:111-114 | The active offsets cover everything |
| CondStates.CondStmt.Run | fuzzer/src/cond_stmt/cond_state.rs:77-134 | In every run the bytes involved stay the same, and Deterministic is reached only when the active offsets cover all of them |

## Left out

- TagRuns.Run: offsets are below MAX_LB, as the walks of combine and find compare begins with it; input files are far smaller. Offsets are unbounded naturals, so a u32 overflow near 2^32 is not modelled.
- TagSets.TagSet.SplitAndOp: the comment above it expects all segments below to become single bytes too; the code leaves the parent's segment as it is, and so does the contract.
- AddrHashMap.EveryInterleaving: AddrHashMap is one bucket under sequential consistency; address 0, which marks an empty cell, and cell types above 48 bytes, whose initial capacity underflows, are outside; a locked section that touches no address is one step.
- TwoLevelBitVectors.TwoLevelBitVector.SetBit: check() uses CHECK_LE, so an index equal to size() passes it and reads out of bounds; the model returns that as an outcome and leaves the vector as it was, where the program's behaviour is undefined. setAll is not modelled. Words are sets of bit positions.
- BVGraphs.EdgeReaches: the graph takes its vectors as the sets that TwoLevelBitVector refines; the other edge operations are left out.
- BlockDiff.RunBlockDiff: like DiffBlocks it uses a fixed match relation; TentativeValues, the unify assertion and the invoke/branch fix-up after the tails are left out.
- BlockQueue.PriorityQueue.RemoveMin: the heap order is claimed for a fixed comparator only; QueueSorter changes with the block map.
- LargeMmap.LargeMmapAllocator.Allocate: mmap returns a fresh, page-aligned, nonzero mapping; the by_size_log histogram is left out.
- Primary64.SizeClassAllocator64.GetFromAllocator: one size class stands for all, which share no state; the process ends at a failed CHECK or Die; the model returns an outcome and promises nothing about the state then.
- LargeMmap.LargeMmapAllocator.SortChunks: SortArray promises a sorted permutation, as InternalSort does; its heap sort is not modelled.
- ShadowPass.DFSanFunction.CombineShadows: the sign marks and shape-inference calls before line 1193 are side effects on the label store that change no set; positions inside a block are not modelled, the pass visits them in order.
- ShadowLoad.LoadShadow: the alloca and constant-object shortcuts of loadShadow are left out; length-label bits are not part of a label here.
- Coverage.GlobalBranches.HasNew: bytes are 8-bit words with their bit operations, and the contracts speak of the sets of bits they refine; has_path_to_target is a set of edges; the percentage shown for density is left out.
- MutInputs.From: segments with end < begin, which panic, are excluded; find never returns them.
- CondStates.MergeOffsets: the three loops are one, with the same push at each iteration.
- dyncfg scoring (floating point, graph library), length labels and their C wrappers, the Pin logger, the SizeClassAllocator32 cache, fork server, executor, command line, random mutation and gradient search, and the rest of the LLVM passes are not modelled.
