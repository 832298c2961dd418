# Space-filling-curve orientation search, bit utilities and SFC tree sort

This project is a Dafny model of four parts of an octree / space-filling-curve
(SFC) library, with proofs about each.

- **Orientation search** (`masado/traversal.py`). The base path of a
  `dim`-cube is the reflected-binary Gray-code flip sequence. The base order
  is its prefix-XOR scan: the order in which the curve visits the sub-regions.
  `traverse` runs a depth-first backtracking search with an explicit stack.
  It enumerates every sequence of in-region displacements that fits the base
  order, and summarises each solution by its set of orientations. An
  orientation is a pair (in-region starting corner, displacement).
  `permute_bits` and `get_permute_reflect` give the hyperoctant symmetry group
  (bit permutations followed by reflections) acting on tasks `(start, axis)`.
  The first step of `solve` tabulates which parent tasks each transformed
  orientation set implements.
- **Bit utilities** (`include/binUtils.h`). `setBit` and `getBit`, and the
  `TallBitMatrix` whose `expandBitstring` scatters the low bits of a vector
  into the places of the first W set bits of a mask (a bit deposit).
- **SFC bucketing and sorting** (`src/SFC_Tree.cpp`).
  - `SFC_bucketing` is an in-place counting sort by child number at one
    level. It moves nodes by following cycles through a small side buffer.
    Ancestors come first, then the children in curve order.
  - `locTreeSort` is the recursive most-significant-digit sort built on it.
  - `treeBFTNextLevel` refines a breadth-first queue of buckets by one level.
- **Tree loop** (`include/sfcTreeLoop.h`). `SFC_TreeLoop` is a depth-first
  traversal turned inside out into a stack of frames, advanced by `step` and
  `next`.

Modules, one per file:

| file | module | what it holds |
|---|---|---|
| bits.dfy | Bits | bit-vectors as naturals: `Pow2`, `Bit`, `Xor`, `And`, `Or`, `Popcount`, and extensionality lemmas |
| wrappers.dfy | Wrappers | `Option` and `Result` |
| positions.dfy | Positions | permutations of `range(n)` and the position of an entry; multisets of a slice with chosen positions left out |
| gray_path.dfy | GrayPath | `generate_base_path`, the base-order scan, `generate_moves` |
| traverser.dfy | Traverser | `traverse`: the stack loop, proved against the recursive search `Explore`, which is itself characterised by `IsSolution` |
| symmetry.dfy | Symmetry | `binary_decompose`, `permute_bits`, `itertools.permutations`, the group of `get_permute_reflect` with its composition, identity and inverses, and the task and orientation actions |
| closure.dfy | Closure | step 1 of `solve` |
| bin_utils.dfy | BinUtils | `setBit`, `getBit`, and class `TallBitMatrix` |
| sfc_bucketing.dfy | SfcBucketing | `SFC_bucketing` on an `array` of tree nodes |
| sfc_tree.dfy | SfcTree | `locTreeSort` on an `array` of tree nodes |
| tree_bft.dfy | TreeBft | `treeBFTNextLevel` |
| tree_loop.dfy | TreeLoop | class `SFCTreeLoop` with its frame stack and a trace of callback events |

Abstractions:

- **Bit strings** are naturals. A Python `int` is unbounded anyway. For the
  C++ unsigned types, `TallBitMatrix` carries the width of B as `width`, and
  a shifted column that leaves the type becomes 0. `expandBitstring` is
  specified as the intended bit deposit; its 32-bit `unsigned int` masks,
  which differ from that only when B is wider than 32 bits, are modelled
  separately (`DepositAsWritten`, see Findings). Other widths are listed
  under Left out.
- **A `TreeNode`** is its level plus the Morton child number of its ancestor
  at each level; `getMortonIndex(lev)` reads that number.
- **The curve tables** `rotations[]` and `HILBERT_TABLE` are given already
  decoded:
  - `rotPerm[r][k]` is the Morton child at curve rank `k` in orientation `r`;
  - `hilbert[r][m]` is the orientation of Morton child `m`.
  `src/SFC_Tree.cpp` subtracts `'0'` from every entry it reads from
  `rot_perm`, while `include/sfcTreeLoop.h` uses the entry as it is. The
  model reads both as the decoded child number; see Left out.
  In `include/sfcTreeLoop.h` the same tables are plain functions.
- **The tree-loop callbacks** are abstracted. `topDownNodes` is a function
  from a subtree to its extant-children mask. Every callback call is
  appended to a ghost event trace.

## Model

| member | source | states |
|---|---|---|
| GrayPath.BasePath | masado/traversal.py:66-71 | the base path of a dim-cube has 2^dim - 1 flips |
| GrayPath.BasePathEntriesAreAxes | masado/traversal.py:66-71 | every flip of the base path is a single bit `1 << k` with k < dim |
| GrayPath.BasePathMiddleAndMirror | masado/traversal.py:66-71 | the middle flip is `1 << (dim-1)` and the path reads the same backwards |
| GrayPath.BasePathIsRuler | masado/traversal.py:66-71 | flip i is `1 << (trailing zeros of i+1)`: the path is the binary ruler sequence, an independent closed form of the recursion |
| GrayPath.XorScanAt | masado/traversal.py:81-82 | entry j of the accumulate scan is the XOR of the first j flips |
| GrayPath.BaseOrderSteps | masado/traversal.py:81-87 | the base order starts at 0, has exactly 2^dim entries (the asserted `num_regions`), each next entry is the previous one XOR the flip, and consecutive entries differ in exactly one bit |
| GrayPath.BaseOrderInCube | masado/traversal.py:81-87 | every corner of the base order lies below 2^dim |
| GrayPath.BaseOrderDistinct | masado/traversal.py:81-87 | the base order visits no corner twice, so it lists all 2^dim corners of the cube |
| GrayPath.BaseOrderHalves | masado/traversal.py:66-82 | the first half of the order is the (dim-1) order, and the second half is that order XOR a fixed corner with the top bit set |
| GrayPath.DescendingAxesSpec | masado/traversal.py:77 | the generator yields exactly the dim-1 axes other than the region's, each once, in strictly descending order |
| GrayPath.GenerateMovesSpec | masado/traversal.py:73-77 | if the two positions agree on the region's displacement bit, the only move is that displacement; otherwise the moves are every other axis, in descending order |
| Traverser.MovesDistinct | masado/traversal.py:73-77 | the moves generated at a node are pairwise different |
| Traverser.GenerateMovesAtMost | masado/traversal.py:153-157 | at most dim frames are pushed per node |
| Traverser.PushMoves | masado/traversal.py:156-157 | pushing the new moves appends one frame (corner, move, depth) per move, in order |
| Traverser.PendingPush | masado/traversal.py:151-157 | the solutions still to be found from the stack after a push are those below the pushed moves, then those of the old stack |
| Traverser.PushStep | masado/traversal.py:151-157 | a push keeps the loop invariant: found solutions plus pending ones are all solutions, and the frames stay sorted by depth below the terminal depth |
| Traverser.TerminalStep | masado/traversal.py:117-147 | at depth 2^dim - 1 a solution is recorded exactly when `pos == (1 << (dim-1)) ^ final_move`, with the final move and position appended; otherwise nothing is recorded |
| Traverser.PopStep | masado/traversal.py:160-168 | popping (pos, m, d) truncates both histories to d and appends m and pos, moves to `pos ^ m ^ base_path[d]` at depth d+1 < 2^dim, and keeps the invariant; the pending work of the stack is the popped child's subtree plus that of the rest |
| Traverser.StepMembers | masado/traversal.py:162-168 | a solution extends the state after move m exactly when it extends the current state and its move at depth d is m |
| Traverser.VisitNode | masado/traversal.py:117-157 | one visit of the loop body keeps the loop invariant (found solutions, statistics, stack and histories) and makes the pending work strictly smaller |
| Traverser.VisitedAll | masado/traversal.py:160-161 | once the stack is empty, the solutions found are all solutions |
| Traverser.Traverse | masado/traversal.py:79-174 | dim 0 is an error (the `1 << -1` of line 90); otherwise the result is the summary of exactly the solutions `Explore` lists, in discovery order |
| Traverser.ExploreMembers | masado/traversal.py:114-168 | a sequence is found below a node exactly when it completes that node's histories by legal moves up to a recorded terminal state |
| Traverser.SolutionsAreValid | masado/traversal.py:117-168 | a sequence is among the solutions exactly when it is a full legal displacement sequence from corner 0 ending at the goal corner |
| Traverser.ExploreDistinct | masado/traversal.py:156-168 | no solution is found twice |
| Traverser.SolutionsCounted | masado/traversal.py:117-147 | the solutions are distinct and exactly the valid sequences, and `num_solutions` counts them |
| Traverser.SummarizeCounts | masado/traversal.py:142-147 | `num_solutions` is the number of recorded solutions, and `ss_repl` holds exactly their orientation sets |
| Traverser.ReplCounts | masado/traversal.py:129-130 | one orientation-set size per solution, in order |
| Traverser.SummarizeMin | masado/traversal.py:129-135 | `min_num_repl` is at most every solution's orientation-set size and attained, and `min_lines` is exactly the increasing list of indices that attain it (None and [] when no solution) |
| Traverser.SummarizeMax | masado/traversal.py:136-140 | the same for `max_num_repl` and `max_lines` |
| Traverser.Dimension2 | masado/traversal.py:52 | for dim 2 there is exactly one solution, moves [1, 2, 2, 1] from corners [0, 0, 0, 3] |
| Symmetry.BinaryDecomposeBits | masado/traversal.py:177-180 | the generator yields bit k of i at position k, stops after the highest set bit, and covers all of i |
| Symmetry.PermuteBitsAtImage | masado/traversal.py:182-183 | bit p[k] of the result is bit k of i |
| Symmetry.PermuteBitsOutside | masado/traversal.py:182-183 | for distinct targets p, no bit is set at a position that is not in p |
| Symmetry.PermuteBitsPopcount | masado/traversal.py:182-183 | for distinct targets p and i < 2^len(p), the popcount is unchanged |
| Symmetry.PermuteBitsBound | masado/traversal.py:182-183 | for a permutation of range(dim) and i < 2^dim, the result is below 2^dim |
| Symmetry.PermuteBitsOfAxis | masado/traversal.py:182-183 | the single bit `1 << k` is sent to `1 << p[k]` |
| Symmetry.PermuteBitsInjective | masado/traversal.py:182-183 | for a permutation of range(dim), distinct inputs below 2^dim give distinct results |
| Symmetry.PermsCount | masado/traversal.py:192 | `itertools.permutations` of n items yields n! tuples |
| Symmetry.PermsArePermutations | masado/traversal.py:192 | every yielded tuple lists each item exactly once |
| Symmetry.GroupCount | masado/traversal.py:191-197 | the generator yields (2^dim)·dim! transformations |
| Symmetry.GroupValid | masado/traversal.py:191-197 | each transformation is a permutation of range(dim) and a flip below 2^dim |
| Symmetry.ApplyTask | masado/traversal.py:198 | the lambda returns a task exactly when the axis index is in range of p; otherwise it raises |
| Symmetry.ApplyTaskInCube | masado/traversal.py:198 | a task of the dim-cube is sent to a task of the dim-cube |
| Symmetry.PermuteBitsXor | masado/traversal.py:182-183 | for distinct targets p, permuting the bits of `a ^ b` gives the XOR of the permuted a and b |
| Symmetry.ComposePermIsPerm | masado/traversal.py:191-198 | two permutations of range(n) compose to a permutation of range(n) that sends k to p2[p1[k]] |
| Symmetry.PermuteBitsCompose | masado/traversal.py:182-183 | permuting by p1 and then by p2 equals permuting once by p2 after p1 |
| Symmetry.PermuteBitsRange | masado/traversal.py:182-183 | `permute_bits(x, range(dim)) == x` for x below 2^dim |
| Symmetry.PermsStartWithInput | masado/traversal.py:192 | `itertools.permutations` yields its input's own order first |
| Symmetry.GroupStartsWithIdentity | masado/traversal.py:191-198 | the first transformation yielded is the identity (range(dim), flip 0) |
| Symmetry.ComposeValid | masado/traversal.py:194-198 | the semidirect-product composition (p2 after p1, f2 ^ permute_bits(f1, p2)) of two transformations of the cube is again one |
| Symmetry.ApplyIdentity | masado/traversal.py:198 | the identity sends every task of the cube to itself |
| Symmetry.ApplyTaskCompose | masado/traversal.py:194-198 | applying g1 and then g2 to a task gives the same task as applying their composition |
| Symmetry.ComposeAssociates | masado/traversal.py:194-198 | composition of transformations of the cube is associative |
| Symmetry.InverseIsPerm | masado/traversal.py:191-192 | the inverse of a permutation of range(n) is one, undoes each entry, and composes with it to range(n) |
| Symmetry.PermuteBitsInverse | masado/traversal.py:182-183 | `permute_bits(permute_bits(x, p), inverse(p)) == x` for x below 2^dim |
| Symmetry.ComposeInverse | masado/traversal.py:194-198 | the inverse transformation (inverse(p), permute_bits(f, inverse(p))) is a transformation of the cube and composes with g to the identity |
| Symmetry.ApplyTaskInverse | masado/traversal.py:198 | applying the inverse transformation after g returns every task of the cube unchanged |
| Symmetry.TaskActionRejectsTopAxis | masado/traversal.py:198 | applied to an orientation along the top axis `1 << (dim-1)`, the lambda as written raises IndexError under every transformation |
| Symmetry.ApplyOrientationMatchesTask | masado/traversal.py:198 | the corrected orientation action agrees with the task action once the axis index hd is written as the bit `1 << hd` |
| Symmetry.ApplyOrientationValid | masado/traversal.py:217 | the corrected action sends orientations of the cube to orientations of the cube |
| Symmetry.ApplyOrientationInjective | masado/traversal.py:217 | the corrected action is one-to-one on orientations of the cube |
| Symmetry.ImageSize | masado/traversal.py:217 | a transformed orientation set has as many elements as the original |
| Closure.Extend | masado/traversal.py:219-222 | insert-or-extend adds exactly the key to the key set |
| Closure.ExtendAddsEdge | masado/traversal.py:219-222 | insert-or-extend is the same as adding one (key, parent) record to the table |
| Closure.AddRefinements | masado/traversal.py:217-222 | the inner loop adds one record per satisfying set, for the transformed set and the transformed parent |
| Closure.Solve | masado/traversal.py:201-222 | it fails exactly when the original task's axis is not below dim; otherwise the table holds exactly the records of every transformation and every satisfying set |
| Closure.SatisfiedParentsMembers | masado/traversal.py:214-222 | every key maps to a non-empty set, and t is a parent of key exactly when some transformation sends some satisfying set to key and the original task to t |
| Closure.SolveAsWrittenFailsInDimension2 | masado/traversal.py:217 | in dim 2 the only satisfying set contains the orientation (0, 2), on which every transformation's lambda, as written, raises |
| BinUtils.SetBitBits | include/binUtils.h:68-72 | setBit sets bit i and leaves every other bit as it was |
| BinUtils.SetBitIdempotent | include/binUtils.h:68-72 | setting a bit twice is the same as setting it once |
| BinUtils.GetBitValue | include/binUtils.h:75-79 | getBit is 0 or 1, and 1 exactly when bit i is set |
| BinUtils.GetSetBit | include/binUtils.h:68-79 | getBit reads 1 at a bit just set and is unchanged at every other bit |
| BinUtils.TallBitMatrix.constructor | include/binUtils.h:88-93 | a matrix of W columns of a `width`-bit type |
| BinUtils.TallBitMatrix.Clear | include/binUtils.h:96 | all W columns are 0 and the nonzero-column count is 0 |
| BinUtils.SetPositionsSpec | include/binUtils.h:103-110 | the places of the set bits of `ones` below the width, strictly increasing, and every set bit below the width among them |
| BinUtils.CountBelowIsPopcount | include/binUtils.h:103-110 | for a mask below 2^width, the number of set places found is its popcount |
| BinUtils.ColumnsFor | include/binUtils.h:103-111 | at most W columns are kept: min(W, number of set places) |
| BinUtils.TallBitMatrix.GenerateColumns | include/binUtils.h:99-113 | columns 0..c-1 are the c lowest set bits of `ones` as single bits, in increasing order, with c = min(W, popcount(ones)) = the nonzero-column count; the remaining columns are 0 |
| BinUtils.TallBitMatrix.ExpandBitstring | include/binUtils.h:116-127 | the result is the XOR of the columns selected by the bits of vec below the nonzero-column count |
| BinUtils.ExpandUnit | include/binUtils.h:121-125 | the single bit k of the vector expands to column k |
| BinUtils.ExpandLinear | include/binUtils.h:121-125 | the expansion is XOR-linear |
| BinUtils.DepositLinear | include/binUtils.h:116-127 | `expandBitstring(a ^ b) == expandBitstring(a) ^ expandBitstring(b)` |
| BinUtils.DepositContribution | include/binUtils.h:119-125 | bit k of vec contributes exactly column k when k is below the nonzero-column count, and nothing otherwise |
| BinUtils.DepositAsWrittenNarrow | include/binUtils.h:116-127 | when every column fits in 32 bits, the source's `unsigned int` masks change nothing: as written equals the bit deposit |
| BinUtils.WideColumnDropped | include/binUtils.h:99-127 | for a 64-bit B, W = 1 and `ones` = 1 << k with 32 <= k < 64, the one generated column is 1 << k and the deposit of 1 is 1 << k, while the as-written expansion is 0 |
| BinUtils.WideColumnGenerated | include/binUtils.h:99-113 | `generateColumns` on a mask with the single bit k below the width makes the single column 1 << k |
| BinUtils.WideColumnMasked | include/binUtils.h:123 | the 32-bit mask clears a single bit at position 32 or above |
| BinUtils.DepositWithinOnes | include/binUtils.h:116-127 | the expansion of a matrix generated from `ones` sets no bit outside `ones` |
| TreeLoop.SFCTreeLoop.constructor | include/sfcTreeLoop.h:157-160 | the stack holds one root frame: pre, rotation 0, no extant children, no parent; no callback has been made |
| TreeLoop.SFCTreeLoop.Reset | include/sfcTreeLoop.h:163-167 | the stack is again the single root frame |
| TreeLoop.SFCTreeLoop.IsFinished | include/sfcTreeLoop.h:243-252 | finished exactly when one frame is left and it is post |
| TreeLoop.SFCTreeLoop.Next | include/sfcTreeLoop.h:222-240 | the new stack and callbacks are those of `NextStack`/`NextEvents`, the stack stays well formed, and the result is the new top's pre flag |
| TreeLoop.SFCTreeLoop.Step | include/sfcTreeLoop.h:176-219 | the new stack and callbacks are those of `StepStack`/`StepEvents`, the stack stays well formed, and the result is the new top's pre flag |
| TreeLoop.SFCTreeLoop.Descend | include/sfcTreeLoop.h:178-216 | the pre branch of step produces exactly `StepStack` and `StepEvents` |
| TreeLoop.SFCTreeLoop.PushChildren | include/sfcTreeLoop.h:189-207 | the reversed child loop appends exactly the extant child frames, and the parent's child count equals the number pushed |
| TreeLoop.ChildrenFrames | include/sfcTreeLoop.h:190-207 | one pre frame is pushed per extant child, each with the stepped frame as parent, no extant children, and the child's Morton path and rotation `hilbert(pRot, rotPerm(pRot, sfc))` |
| TreeLoop.ChildrenOrder | include/sfcTreeLoop.h:190-207 | the children are pushed in strictly decreasing SFC rank, and every extant child is pushed |
| TreeLoop.FirstChildOnTop | include/sfcTreeLoop.h:189-211 | after the push, the top frame is the first extant child in SFC order |
| TreeLoop.StepOnPre | include/sfcTreeLoop.h:178-207 | step on a pre frame marks it post, stores the mask and the count of extant children, and pushes exactly that many pre frames whose parent is the stepped frame |
| TreeLoop.StepCallbacks | include/sfcTreeLoop.h:209-213 | step calls topDownNodes, then bottomUpNodes if no child was pushed and parent2Child for the new top otherwise |
| TreeLoop.NextPops | include/sfcTreeLoop.h:224-237 | next pops exactly one frame from a taller stack, and with one frame it only clears the pre flag; the stack never becomes empty |
| TreeLoop.FinishedIsFinal | include/sfcTreeLoop.h:217-237 | once finished, neither step nor next changes the stack |
| TreeLoop.NextKeepsWellFormed | include/sfcTreeLoop.h:222-240 | next keeps the root at the bottom and every frame's parent below it and post |
| TreeLoop.StepKeepsWellFormed | include/sfcTreeLoop.h:176-219 | step keeps the same shape |
| SfcBucketing.BucketBound | src/SFC_Tree.cpp:197-198 | a node's destination bucket is a Morton child below numChildren, or the ancestors' bucket numChildren |
| SfcBucketing.CountedStep | src/SFC_Tree.cpp:140-146 | counting one more node adds it to the ancestors or to its child's count |
| SfcBucketing.CountBuckets | src/SFC_Tree.cpp:136-146 | counts[b] is the number of nodes of the range in Morton child b at lev, and countAncestors the number coarser than lev |
| SfcBucketing.ScanStep | src/SFC_Tree.cpp:170-177 | one scan step sets the splitter, the moving start and the fixed end of the next child in curve order |
| SfcBucketing.ScanCoversRange | src/SFC_Tree.cpp:170-178 | the ancestors plus all child counts add up to the length of the range, so the last splitter is end |
| SfcBucketing.BucketOffsets | src/SFC_Tree.cpp:157-179 | `outSplitters[0] == begin`, and `outSplitters[k]` for k > 0 is begin plus the ancestors plus the counts of the first k children in curve order |
| SfcBucketing.SplitterSizes | src/SFC_Tree.cpp:169-179 | splitter k+1 is splitter k plus the size of child k (plus the ancestors for k = 0), and every splitter lies in [begin, end] |
| SfcBucketing.FillBuffer | src/SFC_Tree.cpp:184-188 | the first node of every nonempty bucket is copied into the buffer, and those places become holes |
| SfcBucketing.PlaceAndPickUp | src/SFC_Tree.cpp:200-205 | setting the top node down in its bucket's next slot and picking up the node found there keeps the cycle-following invariant and consumes one pending slot |
| SfcBucketing.PlaceAndPop | src/SFC_Tree.cpp:200-207 | setting the top node down in the last slot of its bucket and popping it keeps the invariant and consumes one pending slot |
| SfcBucketing.MoveTop | src/SFC_Tree.cpp:196-207 | one iteration of the movement loop keeps the invariant, and the pending slots strictly decrease, so the loop ends |
| SfcBucketing.MoveOn | src/SFC_Tree.cpp:200-205 | the invariant after a set-down that continues the cycle |
| SfcBucketing.MoveClose | src/SFC_Tree.cpp:200-207 | the invariant after a set-down that closes the cycle |
| SfcBucketing.MovedAll | src/SFC_Tree.cpp:193-208 | when the buffer is empty, the range is a permutation of the original and every bucket region holds only nodes of its bucket |
| SfcBucketing.MoveNodes | src/SFC_Tree.cpp:193-208 | the movement phase permutes the range in place, leaves every other position as it was, and fills each bucket region with that bucket's nodes |
| SfcBucketing.AncestorsFirst | src/SFC_Tree.cpp:158-160 | after bucketing, a node is coarser than lev exactly when it lies in [begin, begin + countAncestors) |
| SfcBucketing.BucketContents | src/SFC_Tree.cpp:170-200 | a non-ancestor node between splitters k and k+1 is in Morton child `rot_perm[k]` |
| SfcBucketing.BucketedWhenMoved | src/SFC_Tree.cpp:169-208 | the moved range with the scanned splitters satisfies the whole bucketing contract |
| SfcBucketing.SFCBucketing | src/SFC_Tree.cpp:114-209 | permutes points[begin..end) in place and leaves the rest as it was; splitters start at begin and end at end, step by each child's size in curve order, and each bucket holds only its child's nodes with the ancestors first |
| Positions.IndexOfPerm | src/SFC_Tree.cpp:70 | in a permutation, the curve rank of `rot_perm[k]` is k |
| SfcTree.KeyOfChild | src/SFC_Tree.cpp:70-83 | a node of the k-th child has rank k at this level, and its remaining key is taken in the child's orientation |
| SfcTree.PiecesSorted | src/SFC_Tree.cpp:64-84 | if the child pieces are in curve order and each piece is sorted below, the whole range is sorted |
| SfcTree.SortChild | src/SFC_Tree.cpp:70-83 | one child range is either left alone (at most the threshold) or sorted recursively; it is permuted within its range and sorted from the next level |
| SfcTree.SortNextChild | src/SFC_Tree.cpp:64-84 | handling child k keeps the invariant of the child loop for k+1 |
| SfcTree.SortChildren | src/SFC_Tree.cpp:53-85 | the child loop permutes [begin, end) only, sorts it at sLev..eLev, and with makeBuckets appends the ending buckets that tile the range |
| SfcTree.AppendEndingBuckets | src/SFC_Tree.cpp:86-103 | one bucket per nonempty child, in curve order, at level sLev+1, with the child's rotation and splitter range; together they tile [begin, end) |
| SfcTree.LocTreeSort | src/SFC_Tree.cpp:26-106 | an empty range is left alone; otherwise the range is permuted in place, nothing outside it moves, no two nodes are out of curve order at the levels sLev..eLev, and with makeBuckets the appended ending buckets tile the range at the ending level, each bucket is one cell there (its nodes at the ending level or deeper share their curve ranks from sLev to the ending level), and its orientation is the one that cell is reached in from pRot |
| SfcTree.CellOfChild | src/SFC_Tree.cpp:86-92 | a node of the k-th child at the ending level has the one rank k there and reaches orientation `HILBERT[pRot][rot_perm[k]]` |
| SfcTree.EndingCells | src/SFC_Tree.cpp:86-103 | at the ending level, each bucket pushed for the k-th child is one cell whose orientation is the one its nodes reach |
| SfcTree.CellsOfChild | src/SFC_Tree.cpp:64-83 | the cells a child's recursion produces from level sLev+1 in the child's orientation are cells from sLev in the parent's |
| SfcTree.CellsFrame | src/SFC_Tree.cpp:64-83 | sorting a later child's range leaves the cells of earlier children as they are |
| SfcTree.ChildCells | src/SFC_Tree.cpp:64-83 | after child k, the buckets appended so far are cells from sLev in orientation pRot |
| TreeBft.ChildBuckets | src/SFC_Tree.cpp:485-493 | numChildren buckets are made for each parent |
| TreeBft.ChildBucketsRefine | src/SFC_Tree.cpp:476-493 | the child buckets are one level down in their curve orientations and partition the parent's range in curve order; an empty parent gives empty children at its beginning |
| TreeBft.RefinedOrdered | src/SFC_Tree.cpp:485-493 | a child further along the curve lies further along the range |
| TreeBft.RefinedCovers | src/SFC_Tree.cpp:485-493 | every position of the parent's range lies in exactly one child bucket |
| TreeBft.RefineBucket | src/SFC_Tree.cpp:476-480 | a nonempty bucket is bucketed at its level and orientation; an empty one is left alone; either way the children partition it and hold their nodes |
| TreeBft.EnqueueChildren | src/SFC_Tree.cpp:483-493 | the children are appended to the back of the queue, in curve order |
| TreeBft.LeadingRun | src/SFC_Tree.cpp:463-469 | the number of front buckets at the starting level: all of them are at that level and the next one is not |
| TreeBft.FlattenAppend | src/SFC_Tree.cpp:492 | appending one more parent's children appends them to the back |
| TreeBft.ProgressStep | src/SFC_Tree.cpp:469-494 | one iteration keeps the loop invariant |
| TreeBft.TreeBFTNextLevel | src/SFC_Tree.cpp:457-495 | an empty queue is left alone; otherwise exactly the leading run at the front level is removed, each is replaced at the back by its children in order, the children partition their parent's range one level down, nodes outside the refined ranges stay put, the array is a permutation of the original, and, when the refined ranges do not overlap, each child bucket holds only its child's nodes |

## Left out

- Integer widths. Python integers are unbounded, and the model's naturals
  match them. For the C++ types, `RankI`, `LevI`, `int` counters and shifts
  are modelled as unbounded naturals. Overflow, and a shift by the full width
  of the type, are not modelled.
- `traverse` output: every `print`, the `__DEBUG__` logging, the
  `save_stuff` dump for dim 4, solution 796, and `__main__`.
- The dim 3, 4 and 5 solution counts mentioned in the comments are not
  computed. Dim 3 already means a search of depth 7. The verifier does not
  evaluate that search on its own, and spelling it out step by step, as
  `Traverser.Dimension2` does for depth 3, would take a long chain of
  assertions. Dim 2 is proved concretely, and the general properties are
  proved for every dim.
- `solve` beyond its first step. The source has a TODO there and returns
  names it never defines, so there is no behaviour to model.
- Symmetry.ApplyOrientation: the orientation action on the displacement is
  `permute_bits` of the displacement bit, without the flip, because a
  reflection does not change which axis a displacement runs along. The
  as-written action is kept as `Symmetry.ApplyTaskToOrientation` (see
  Findings).
- The binUtils functions declared without a body (`isPowerOfTwo`,
  `binLength`, `fastLog2`, `toBin`, `binToDec`,
  `getNextHighestPowerOfTwo`, `getPrevHighestPowerOfTwo`, `lowestOnePos`).
  There is no code to model.
- BinUtils.SetBit: `setBit` updates `val` through a reference. It is
  modelled as a function that returns the new value.
- The contents of `rotations[]`, `HILBERT_TABLE` and `TreeNode`. They are
  not part of this model; the tables are parameters (a `Curve` or a
  `Config`), and the ASCII `- '0'` decoding is assumed already done.
- TreeLoop: `include/sfcTreeLoop.h:194-195` uses `rot_perm[child_sfc]` as
  the child number as it is, without the `- '0'` that
  `src/SFC_Tree.cpp:70,91,172,487` subtracts from the same table. The model
  assumes both read the decoded child number. If the table holds ASCII
  digits, the tree loop as written would index `HILBERT_TABLE` and the
  extant-children mask 48 or more places off; the model does not capture
  that. The table is not part of this model, so which reading is right
  cannot be settled here.
- BinUtils.TallBitMatrix.ExpandBitstring: keeps the low n bits of `vec` for
  every nonzero-column count n. In the source, `(1u << n) - 1u` shifts an
  `unsigned int`, and that shift is undefined in C++ for n of 32 or more.
  The model does not capture that case.
- `distTreeSort` and the rest of `src/SFC_Tree.cpp`. They depend on MPI and
  on floating-point load balancing.
- The FEM files (`refel.h`, `poissonMat.cpp`, `heatVec.h`) and the MPI test
  driver. They are floating-point kernels and MPI code outside this core.
- SfcBucketing.SFCBucketing: the side buffer `unsortedBuffer` is a
  sequence, not a fixed array of numChildren+1 nodes. Its length never
  exceeds the number of buckets, but that bound is not stated.
- SfcTree.LocTreeSort: the contract says that no two nodes of the range are
  out of curve order. A node coarser than the current level has a shorter
  key and compares with neither side. The contract therefore does not claim
  the relative order of ancestors and their descendants inside a child
  range.
- TreeBft.TreeBFTNextLevel: that each child bucket holds only its child's
  nodes is claimed only when the refined ranges of the leading run do not
  overlap. When they overlap, a later bucketing can move nodes of an
  earlier one.
- TreeLoop: the bodies of the four callbacks are not modelled, nor the
  typed `FrameInputs`/`FrameOutputs` buffers, `getSubtreeInfo` and
  `SubtreeInfo`, or the `reserve` call that keeps references valid. A frame
  names its parent by stack position instead of by pointer.
- TreeLoop.SFCTreeLoop.IsPre reads the top frame's flag; its meaning is
  stated through `Next`, `Step` and `IsFinished`.

## Findings

| source | as written | input that shows it | evidently intended | confidence | as-written member | corrected member |
|---|---|---|---|---|---|---|
| include/binUtils.h:119-123 | each selected column is masked with `0u - bool(vec & 1u)`, an `unsigned int`, so for a B wider than 32 bits the columns above bit 31 are dropped | B of 64 bits, W = 1, `ones = 1 << 40`: `generateColumns` makes the column `1 << 40`, and `expandBitstring(1)` returns 0 | `expandBitstring(1)` returns the column `1 << 40`; the mask is meant to be all ones in B | medium, not executed | BinUtils.WideColumnDropped | BinUtils.TallBitMatrix.ExpandBitstring |
| masado/traversal.py:198 | `solve` maps each satisfying set through the task lambda `(f ^ permute_bits(i, p), p[hd])`, so the displacement bit `1 << k` of an orientation is used as the index `p[1 << k]` | dim 2: the only solution uses the orientation (0, 2), and `p[2]` on a permutation of length 2 raises IndexError for every transformation | transform an orientation's displacement by permuting its bit, `permute_bits(1 << k, p) == 1 << p[k]`, which agrees with the task action on axis indices | not executed | Closure.SolveAsWrittenFailsInDimension2 | Symmetry.ApplyOrientationMatchesTask |
