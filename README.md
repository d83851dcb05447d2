# Verified model of TheYorouzoya/algorithms

This project is a Dafny model of a collection of Java algorithm exercises, together with proofs about that model. The exercises cover sorting, selection, dynamic programming, greedy algorithms and graph algorithms. Its deepest part is the shortest-path engine:

- an indexed binary min-heap with decrease-key (`CustomHeap`);
- Dijkstra's algorithm built on that heap;
- Bellman-Ford with Jacobi rounds and negative-cycle detection;
- Johnson's all-pairs algorithm, which combines the two.

Around the engine, the model covers:

- the adjacency-list graph classes and their text parsers;
- two more binary heaps and the two-heap running median;
- union-find, with Kruskal clustering and the Hamming-distance clustering built on it;
- merge sort and inversion counting, quick sort and randomized selection;
- 0/1 knapsack, maximum-weight independent set on a path, and the bit-mask helpers of the TSP solver, with Gosper's hack proved to list every subset of a given size of the cities, once each and in increasing order;
- the job scheduler and its comparator;
- Huffman coding;
- Kosaraju's two passes and the 2-SAT solver built on them;
- the two-sum-in-range counter.

## How the Java is modelled

**Classes.** A Java class whose methods update its fields becomes a Dafny `class` with those fields. Examples are `CustomHeap`, `MaxHeap`, `GenericMinHeap`, `UnionFind`, the graph classes, `QuickSort`, `Dijkstra`, `BellmanFord`, `JohnsonAPSP`, `PrimMST`, `Huffman`, `BigClustering`, `KruskalClustering` and `TwoSAT`.

**Methods and their specification functions.** Each such method carries the loops of the source. It is proved against a pure function of the old state: `SiftDown`, `Partition`, `SortOf`, `Select`, `Best`, `Codes`/`Encoded`, `Leaders`, `Count` and so on. The properties the code promises are then proved as lemmas about that function.

**Pure code.** Code that is pure in Java, such as the comparators, `Merge` of two Huffman trees and `bitIsSet`/`setBitAt`, becomes functions. Huffman trees are values, because nothing changes a tree node once it is built.

**Java integers.** Java's `int` and `long` arithmetic is modelled explicitly in the places listed here (`JavaInt`). Other sums are exact integers, and "## Left out" names each one that can overflow in Java:

- Integer.MAX_VALUE and MIN_VALUE are used as sentinels;
- sums wrap around: the edge relaxations of Dijkstra and Bellman-Ford, Prim's tree-cost sum, Huffman tree weights, the `(int)` casts of TwoSum and the comparator subtraction;
- `%` takes the sign of its dividend.

**Input files.** A file is given as its sequence of lines, or as its whole text. `JavaText` models the two library calls the parsers rely on: `String.split`, which drops trailing empty fields, and `Integer.parseInt`. `JavaText.ParseInt` accepts exactly the decimal texts in the int range.

**Randomness.** The random pivot of RSelect is a parameter: `(int, int) -> int`, giving the index drawn for a range.

**Java collections.** `PriorityQueue`, `TreeMap`, `HashSet` and the two heaps of MedianMaintenance become multisets, maps, sets and sequences.

**Duplicate sources.** Several classes exist in more than one copy in the repository:

- `mergeSort.java` and `Divide-and-Conquer/mergeSort.java`;
- `Literals/DirectedGraph.java` and `Graphs/Literals/DirectedGraph.java`;
- the weighted graphs in `DataStructures` and `Graphs/Literals`.

One module models each such class. Where the copies differ, the module models both variants; the two directed-graph parsers are an example.

**Behaviour of the code as written.** The model follows the code:

- `heapifyDown` in `CustomHeap` and `MaxHeap` never compares a node with a lone left child.
- `CustomHeap.heapifyDown` takes the right child when the two children tie: its test at `Graphs/Literals/CustomHeap.java:111` is the strict `leftChild < rightChild`.
- Johnson's algorithm never copies the Bellman-Ford potentials into `weights`. A model of the code as written sits beside the corrected one; see "## Findings".
- `Dijkstra(WeightedDirectedGraph)`, which JohnsonAPSP calls, is not part of this model: `Graphs/Dijkstra.java` only has a constructor that reads a file. Each Johnson row therefore runs the algorithm of `Graphs/Dijkstra.java:35-56` on the reweighted graph.
- `DataStructures.CustomHeap`, used by PrimMST, is not part of this model. The heap of `Graphs/Literals/CustomHeap.java` stands in for it.

**Modules.** Each Dafny module follows one Java class, or one shared piece of theory:

- `Walks`: walks, their weights and the relaxation rounds;
- `StackSearch`: the stack search that Kosaraju and TwoSAT share;
- `Adjacency`, `JavaInt`, `JavaText` and `Wrappers`.

## Model

| member | source | states |
|---|---|---|
| EdgeComparator.Compare | GreedyAlgorithms/Kruskal/EdgeComparator.java:4-8 | +1, -1 or 0 exactly as A's cost is greater than, less than or equal to B's |
| EdgeComparator.Antisymmetric | GreedyAlgorithms/Kruskal/EdgeComparator.java:5-7 | compare(A, B) == -compare(B, A) |
| EdgeComparator.Transitive | GreedyAlgorithms/Kruskal/EdgeComparator.java:4-8 | A <= B and B <= C give A <= C, so the order is a valid sort order |
| EdgeComparator.CostOnly | GreedyAlgorithms/Kruskal/EdgeComparator.java:5-7 | the result depends on the two costs only, not on the endpoints |
| EdgeComparator.InOrderNonDecreasing | GreedyAlgorithms/Kruskal/EdgeComparator.java:4-8 | in a list sorted by this comparator every later edge costs at least as much as every earlier one |
| JobDifferenceComparator.Compare | GreedyAlgorithms/JobScheduler/JobDifferenceComparator.java:8-17 | -1 exactly when j1's (wrapped int) weight - length is larger, or equal with a larger weight; +1 symmetrically; 0 exactly when both differences and both weights are equal |
| JobDifferenceComparator.Antisymmetric | GreedyAlgorithms/JobScheduler/JobDifferenceComparator.java:12-16 | compare(a, b) == -compare(b, a) |
| JobDifferenceComparator.Transitive | GreedyAlgorithms/JobScheduler/JobDifferenceComparator.java:8-17 | a <= b and b <= c give a <= c, so Collections.sort gets a valid order |
| JobDifferenceComparator.ZeroOnlyWhenEqual | GreedyAlgorithms/JobScheduler/JobDifferenceComparator.java:12-16 | for int weights and lengths, 0 is returned exactly when both jobs have the same weight and length |
| ScheduleJobs.WeightedAppend | GreedyAlgorithms/JobScheduler/ScheduleJobs.java:47-50 | the weighted completion time of a concatenation is the first part's plus the second part's started after the first part's total length |
| ScheduleJobs.AppendJob | GreedyAlgorithms/JobScheduler/ScheduleJobs.java:48-49 | appending job j to list L adds w_j * (length(L) + l_j) |
| ScheduleJobs.Exchange | GreedyAlgorithms/JobScheduler/ScheduleJobs.java:44-52 | swapping two adjacent jobs x, y changes the total by exactly y.weight * x.length - x.weight * y.length, so the result depends only on the order of the list |
| ScheduleJobs.ComputeCompletionTime | GreedyAlgorithms/JobScheduler/ScheduleJobs.java:44-52 | the loop returns the sum over i of weight_i times the completion time of job i (the lengths of jobs 0..i), and 0 for the empty list |
| Adjacency.EntriesUpdate | DataStructures/WeightedDirectedGraph.java:118-120 | replacing one list changes the entry count by the difference of the lengths |
| Adjacency.Blank | DataStructures/WeightedUndirectedGraph.java:23-26 | n lists, every one empty |
| Adjacency.EntriesBlank | DataStructures/WeightedUndirectedGraph.java:18-27 | a fresh graph holds no entries |
| Adjacency.Triple | DataStructures/WeightedUndirectedGraph.java:52-58 | a line read as "a b w" gives exactly three ints, or nothing when a field is missing or does not parse |
| Adjacency.TripleRoundTrip | DataStructures/WeightedUndirectedGraph.java:52-58 | the line "a b w" written for three ints is read back as exactly those ints |
| MergeSort.MergedPermutes | Divide-and-Conquer/mergeSort.java:17-42 | the merge holds exactly the elements of both halves, with their multiplicities |
| MergeSort.MergedSorted | Divide-and-Conquer/mergeSort.java:24-40 | the merge of two sorted lists is sorted |
| MergeSort.MergeSortedCorrect | Divide-and-Conquer/mergeSort.java:44-54 | the recursive sort (split at len / 2, sort both halves, merge) returns a sorted permutation of its input |
| MergeSort.SortedPermutationUnique | Divide-and-Conquer/mergeSort.java:44-54 | two sorted lists with the same elements are equal, so the sort's result is the only possible one |
| MergeSort.Merge | Divide-and-Conquer/mergeSort.java:17-42 | the merge loop, taking the first half's head unless it is strictly greater, returns exactly the merge of the halves: their combined multiset, sorted when both halves are (mergeSort.java:10-35 is the same code) |
| MergeSort.SortArray | Divide-and-Conquer/mergeSort.java:44-54 | returns a sorted permutation of the input, and a list of length at most 1 unchanged; the input is only read (mSort, mergeSort.java:37-61, is the same code) |
| CountInversions.BelowPermutation | Divide-and-Conquer/CountInversions.java:15-17 | how many elements of a list lie below x depends only on the list's multiset |
| CountInversions.InversionsAppend | Divide-and-Conquer/CountInversions.java:94-98 | the inversions of a + b are those of a, those of b and the pairs (x in a, y in b) with x > y |
| CountInversions.SplitCountsCross | Divide-and-Conquer/CountInversions.java:73-77 | for sorted halves, adding the first half's remaining length whenever the second half's head is taken counts exactly the pairs (x in first, y in second) with x > y; ties are taken from the first half and are not counted |
| CountInversions.SortCountsInversions | Divide-and-Conquer/CountInversions.java:94-100 | left count + right count + split count over the sorted halves (split at len / 2) is the number of pairs i < j with A[i] > A[j] |
| CountInversions.CountSplitInversions | Divide-and-Conquer/CountInversions.java:57-86 | the merge loop returns the merge of the halves (their combined multiset, sorted when both are) and the split count, which for sorted halves is the number of cross inversions |
| CountInversions.CountArrayInversions | Divide-and-Conquer/CountInversions.java:88-102 | returns the number of pairs i < j with A[i] > A[j] and a sorted permutation of the input; a list of length at most 1 gives 0 and itself |
| QuickSort.Partition | Divide-and-Conquer/QuickSort.java:68-83 | the partition of [left, right] around s[left] keeps the list's length and puts the pivot at a position between left and right |
| QuickSort.PartitionSplits | Divide-and-Conquer/QuickSort.java:68-83 | after partition, A[p] is the pivot, every entry of [left, p - 1] is below it and every entry of [p + 1, right] is at least the pivot |
| QuickSort.PartitionRearranges | Divide-and-Conquer/QuickSort.java:72-81 | partition only permutes the entries inside [left, right]: the multiset of the range is kept and every entry outside it is unchanged |
| QuickSort.SortOfRearranges | Divide-and-Conquer/QuickSort.java:85-95 | the recursive sort permutes [left, right] and leaves every entry outside it unchanged |
| QuickSort.SortOfSorts | Divide-and-Conquer/QuickSort.java:17-18 | the recursive sort leaves [left, right] sorted ascending |
| QuickSort.SortOfWhole | Divide-and-Conquer/QuickSort.java:85-95 | sorting the whole list gives the same list as merge sort, the unique sorted permutation |
| QuickSort.PairsClosed | Divide-and-Conquer/QuickSort.java:86-90 | the bound on comparisons, Pairs(n), is n(n - 1) / 2 |
| QuickSort.SortOfCount | Divide-and-Conquer/QuickSort.java:86-90 | a range with left >= right adds no comparisons; otherwise the comparisons added lie between right - left and (n choose 2) for the n entries of the range |
| QuickSort.QuickSort.constructor | Divide-and-Conquer/QuickSort.java:66 | comparisons starts at 0 |
| QuickSort.QuickSort.PartitionArray | Divide-and-Conquer/QuickSort.java:68-83 | partitionArray changes the array exactly as Partition says and returns its pivot position |
| QuickSort.QuickSort.SortArray | Divide-and-Conquer/QuickSort.java:85-95 | sortArray leaves the array as SortOf says (sorted range, a permutation of it, nothing outside changed) and adds SortOf's count to comparisons |
| RSelect.Pick | Divide-and-Conquer/RSelect.java:34 | the pivot index lies in [left, right], and is the value drawn whenever the draw is in range |
| RSelect.PartitionSplits | Divide-and-Conquer/RSelect.java:36-58 | after swapping the chosen pivot to left and partitioning, A[p] is the pivot, [left, p - 1] is below it and [p + 1, right] at least it |
| RSelect.PartitionRearranges | Divide-and-Conquer/RSelect.java:37-55 | partition only permutes the entries inside [left, right] |
| RSelect.SelectIndex | Divide-and-Conquer/RSelect.java:61-77 | the returned index lies within the range, and is statistic itself when left <= statistic <= right |
| RSelect.SelectRearranges | Divide-and-Conquer/RSelect.java:61-77 | the search only permutes entries inside [left, right] |
| RSelect.SelectSplits | Divide-and-Conquer/RSelect.java:61-77 | on return every entry of [left, statistic - 1] is at most A[statistic] and every entry of [statistic + 1, right] at least it |
| RSelect.SelectedRank | Divide-and-Conquer/RSelect.java:16-19 | such a split entry is the (statistic - left + 1)-th smallest of the range |
| RSelect.SelectFinds | Divide-and-Conquer/RSelect.java:61-77 | with left <= statistic <= right, the result is statistic and A[statistic] is the element at sorted position statistic of the original range, whatever the random draws |
| RSelect.PartitionArray | Divide-and-Conquer/RSelect.java:32-59 | the swap to left followed by the partition changes the array as Partition says and returns its pivot position |
| RSelect.FindOrderedStatistic | Divide-and-Conquer/RSelect.java:61-77 | findOrderedStatistic changes the array and returns the index exactly as Select says |
| QuickSort.Scan | Divide-and-Conquer/QuickSort.java:70-82 | the scanning loop of partitionArray keeps the list's length and returns a pivot position at least left and below the end of the scan |
| QuickSort.ScanSplits | Divide-and-Conquer/QuickSort.java:72-82 | once the scan ends the pivot stands at the returned position, the entries before it are below it and those after it at least it |
| QuickSort.ScanRearranges | Divide-and-Conquer/QuickSort.java:72-81 | the swaps of the scan only permute the scanned range |
| QuickSort.SortOf | Divide-and-Conquer/QuickSort.java:85-95 | the recursive sort keeps the list's length |
| RSelect.Partition | Divide-and-Conquer/RSelect.java:32-59 | the random pivot swapped to left and the partition keep the list's length and return a position in [left, right] |
| RSelect.Select | Divide-and-Conquer/RSelect.java:61-77 | the recursive search keeps the list's length |
| Knapsack.TableAttained | DynamicProgramming/Knapsack.java:51-60 | every table entry (i, c) is the value of some choice among items 1..i whose weight is at most c |
| Knapsack.TableOptimal | DynamicProgramming/Knapsack.java:51-60 | no choice among items 1..i of weight at most c is worth more than entry (i, c) |
| Knapsack.TableGrows | DynamicProgramming/Knapsack.java:54-57 | knapsack[i][c] >= knapsack[i - 1][c] |
| Knapsack.ProcessSmallKnapsack | DynamicProgramming/Knapsack.java:46-63 | the 2-D table loop, with row 0 all zeros, returns entry (items, capacity) of the recurrence |
| Knapsack.ProcessBigKnapsack | DynamicProgramming/Knapsack.java:65-80 | the rolling-row loop returns the same entry, so both methods agree |
| Knapsack.KnapsackOptimal | DynamicProgramming/Knapsack.java:46-63 | the result is the maximum total value of a subset of the items whose total weight is at most the capacity: no subset beats it and some subset attains it |
| MWISGraph.Picks | DynamicProgramming/MWISGraph.java:52-63 | the array reconstructSolutions builds from vertex i has entries 0..i |
| MWISGraph.PicksIndependent | DynamicProgramming/MWISGraph.java:55-61 | marking vertex i and then skipping i - 1 marks no two adjacent vertices, and never index 0 |
| MWISGraph.PicksValue | DynamicProgramming/MWISGraph.java:35-63 | when the table is the one processGraph fills, the weights of the marked vertices add up to solutions[n] |
| MWISGraph.SolOptimal | DynamicProgramming/MWISGraph.java:39-46 | with non-negative weights, no independent set of vertices 1..n weighs more than solutions[n] |
| MWISGraph.ReconstructionOptimal | DynamicProgramming/MWISGraph.java:35-63 | the reconstructed set is independent and is a maximum-weight independent set of the path |
| MWISGraph.ProcessGraph | DynamicProgramming/MWISGraph.java:35-48 | returns a fresh array of nodes + 1 entries with solutions[0] = 0, solutions[1] = w_1 and solutions[i] = max(solutions[i - 1], solutions[i - 2] + w_i) |
| MWISGraph.ReconstructSolutions | DynamicProgramming/MWISGraph.java:52-63 | the backward walk, which marks i when s[i - 1] < s[i - 2] + w_i (so not on a tie) and marks vertex 1 only when it stops at i == 1, returns exactly Picks |
| TSP.BitIsSet | DynamicProgramming/TSP.java:139-141 | bitIsSet(m, i) holds exactly when bit i (its shift distance masked to five bits, as Java does) of m is 1 |
| TSP.BitMeaning | DynamicProgramming/TSP.java:139-141 | shifting bit b down and masking with 1 tests exactly bit b |
| TSP.SetBitAt | DynamicProgramming/TSP.java:143-145 | setBitAt(m, i) has bit i set and every other bit as in m |
| TSP.BinomialSymmetric | DynamicProgramming/TSP.java:117 | C(n, k) == C(n, n - k), the symmetry computeNumberOfSubsets relies on |
| TSP.BinomialStep | DynamicProgramming/TSP.java:119-121 | C(n, i + 1) * (i + 1) == C(n, i) * (n - i), so every division of the loop is exact |
| TSP.ComputeNumberOfSubsets | DynamicProgramming/TSP.java:116-123 | the loop of min(k, N - k) exact steps returns C(N, k) for 0 <= k <= N, and 1 when k is out of 0..N |
| TSP.Masks | DynamicProgramming/TSP.java:103-108 | the loop stores at most as many masks as it is allowed |
| TSPOrder.MasksIncreasing | DynamicProgramming/TSP.java:103-108 | Gosper's step strictly increases the mask, so the stored masks are in increasing order |
| TSPOrder.MasksBelow | DynamicProgramming/TSP.java:103 | every stored mask is below 1 << bits |
| TSP.Stored | DynamicProgramming/TSP.java:99-110 | the returned array has the computed size and starts with the stored masks; nothing when the loop would write past its end |
| TSPOrder.StoredOrdered | DynamicProgramming/TSP.java:100-108 | the stored masks start at (1 << k) - 1, increase and stay below 1 << (cities - 1) |
| TSP.GosperHack | DynamicProgramming/TSP.java:95-111 | k <= 0 gives the single subset {0}; otherwise an array of computeNumberOfSubsets(cities - 1, k) entries holding the masks from (1 << k) - 1 on while they stay below 1 << (cities - 1), zeros after them, or the out-of-bounds failure when there are more masks than entries |
| TSP.StoreMasks | DynamicProgramming/TSP.java:101-108 | the while loop writes exactly Stored into a zero-filled array, or reports the overflow of the index |
| TSP.Next | DynamicProgramming/TSP.java:105-107 | Gosper's step from a positive mask below 1 << 30 gives a positive mask that fits in an int |
| TSPOrder.NextGreater | DynamicProgramming/TSP.java:105-107 | Gosper's step gives a mask strictly greater than the one it started from |
| TSPOrder.Advance | DynamicProgramming/TSP.java:103-108 | a mask below the limit is stored and the loop goes on from a strictly greater mask |
| TSP.MasksStep | DynamicProgramming/TSP.java:103-108 | a mask below the limit is stored first, then the masks from Gosper's next one |
| TSP.MasksPrefix | DynamicProgramming/TSP.java:103-108 | allowing one more store only extends the stored masks, and changes nothing once the loop has stopped |
| TSP.FirstSubset | DynamicProgramming/TSP.java:100 | (1 << k) - 1 is a positive mask below 1 << 30 |
| TSP.Limit | DynamicProgramming/TSP.java:103 | 1 << bits is at most 1 << 30 |
| TSP.Padded | DynamicProgramming/TSP.java:99 | the returned array has its size, begins with the stored masks and holds zeros after them |
| TSP.FinishSome | DynamicProgramming/TSP.java:103-110 | a loop that stops at a mask past the limit within the array's size returns the stored masks padded with zeros |
| TSP.FinishNone | DynamicProgramming/TSP.java:102-103 | a loop that would store one mask past the array's end fails (an ArrayIndexOutOfBoundsException) |
| TSP.OneShiftedRange | DynamicProgramming/TSP.java:100-103 | `1 << n` for a shift distance of at most 30 is positive and at most `1 << 30`, so neither shift of gosperHack wraps |
| TSPBits.QuotDown | DynamicProgramming/TSP.java:107 | dividing by a single set bit below `1 << 30` is the same as shifting right by that bit's position |
| TSP.RefillIsQuotient | DynamicProgramming/TSP.java:105-107 | for a mask in 1 .. 2^30 - 1 the lowest set bit `c` is nonzero and `((r ^ set) >> 2) / c` is `(r ^ set) >> 2` shifted down by the position of `c` |
| TSP.StoreStep | DynamicProgramming/TSP.java:103-107 | one pass of the loop body keeps the array equal to the masks stored so far followed by zeros, with the index advanced by one |
| TSPSubsets.GosperVal | DynamicProgramming/TSP.java:105-106 | `r = set + c` carries the lowest run of ones one place up: its value is the mask's value plus its lowest set bit |
| TSPSubsets.GosperPop | DynamicProgramming/TSP.java:105-107 | the ones of the mask are exactly those kept in `r` plus those refilled at the bottom |
| TSPSubsets.NextSize | DynamicProgramming/TSP.java:105-107 | Gosper's step keeps the number of bits set, so every stored mask has subsetSize cities |
| TSPSubsets.NextLeast | DynamicProgramming/TSP.java:105-107 | no mask whose value lies strictly between a mask and Gosper's next mask has the same number of bits set, so no subset of that size is skipped |
| TSPWalk.KCount | DynamicProgramming/TSP.java:98 | the reference list of k-subsets of b cities has C(b, k) entries, the size computeNumberOfSubsets gives the array |
| TSPWalk.KSound | DynamicProgramming/TSP.java:100-103 | every mask of the reference list is below `1 << b` and has k bits set |
| TSPWalk.KComplete | DynamicProgramming/TSP.java:100-103 | every mask below `1 << b` with k bits set is in the reference list |
| TSPWalk.KDistinct | DynamicProgramming/TSP.java:100-103 | the reference list holds no mask twice |
| TSPWalk.Step | DynamicProgramming/TSP.java:103-107 | a mask below the limit is stored, and the loop goes on from a mask of greater value with the same number of bits set, with no such mask in between |
| TSPWalk.MasksShape | DynamicProgramming/TSP.java:103-107 | every visited mask has the first mask's number of bits set, at least its value, and a value below the limit |
| TSPWalk.MasksFresh | DynamicProgramming/TSP.java:103-107 | the loop never visits a mask twice |
| TSPWalk.MasksComplete | DynamicProgramming/TSP.java:103-107 | if the loop stops before it runs out of room, it visits every mask of the same number of bits set from its current value up to the limit |
| TSPWalk.IncreasingAll | DynamicProgramming/TSP.java:103-107 | in a list where each mask is below the next, each mask is below every later one |
| TSPWalk.SubsetsCounted | DynamicProgramming/TSP.java:98-108 | from `(1 << k) - 1`, with room for C(bits, k) + 1 stores, the loop visits exactly C(bits, k) masks, and a mask is visited if and only if it is below `1 << bits` and has k bits set |
| TSPWalk.StoredSubsets | DynamicProgramming/TSP.java:98-110 | with C(bits, k) entries the array holds the whole walk: no index past its end and no zeros after the masks |
| TSPWalk.WalkSorted | DynamicProgramming/TSP.java:98-110 | the stored walk has C(bits, k) masks, strictly increasing, and holds a mask if and only if it is below `1 << bits` and has k bits set |
| TSPWalk.GosperHackSubsets | DynamicProgramming/TSP.java:95-110 | for 1 <= subsetSize <= cities - 1 gosperHack returns an array (never the out-of-bounds failure) of C(cities - 1, subsetSize) strictly increasing masks, holding a mask if and only if it is below `1 << (cities - 1)` and has subsetSize bits set; for subsetSize > cities - 1 it returns {0} |
| Median.Min | DataStructures/MedianMaintenance.java:74 | the right heap's peekMin: a key of the heap that no key of it is below |
| Median.Max | DataStructures/MedianMaintenance.java:76 | the left heap's peekMax: a key of the heap that no key of it is above |
| Median.KthIsRank | DataStructures/MedianMaintenance.java:17-27 | the j-th smallest key has exactly j - 1 keys at or below it on one side and the rest at or above it |
| Median.RankUnique | DataStructures/MedianMaintenance.java:17-27 | any key with rank j is the j-th smallest |
| Median.PlaceKeeps | DataStructures/MedianMaintenance.java:82-86 | a key below the right minimum goes left, otherwise right: every left key stays at most every right key, every key is kept and the size gap moves by one |
| Median.BalanceKeeps | DataStructures/MedianMaintenance.java:53-66 | balancing a gap of at most two keeps the heaps separated and their keys, and leaves the sizes at most one apart; a gap of at most one changes nothing |
| Median.MedianRank | DataStructures/MedianMaintenance.java:69-78 | of all keys in the two heaps, the reported median (right minimum when the right heap is larger, else left maximum) has rank |left|, or |left| + 1 |
| Median.StreamRank | DataStructures/MedianMaintenance.java:43-50 | with the two sentinels Integer.MIN_VALUE and Integer.MAX_VALUE removed, the median has rank (k + 1) / 2 among the k keys of the stream |
| Median.Medians | DataStructures/MedianMaintenance.java:94-103 | one median per key of the stream |
| Median.InsertHolds | DataStructures/MedianMaintenance.java:81-89 | placing a key and balancing keeps the heaps separated, balanced and holding exactly the stream plus the sentinels |
| Median.MedianIsLower | DataStructures/MedianMaintenance.java:17-27 | while the heaps hold a non-empty stream, the reported median is its ((k + 1) / 2)-th smallest key |
| Median.MedianMaintenance.constructor | DataStructures/MedianMaintenance.java:43-50 | the left heap holds Integer.MIN_VALUE, the right heap Integer.MAX_VALUE, and no key has been read |
| Median.MedianMaintenance.BalanceHeaps | DataStructures/MedianMaintenance.java:53-66 | the heaps become Balance of the old heaps |
| Median.MedianMaintenance.CurrentMedian | DataStructures/MedianMaintenance.java:69-78 | returns MedianOf the heaps, which is the lower median of the keys read so far |
| Median.MedianMaintenance.InsertAndReturnMedian | DataStructures/MedianMaintenance.java:81-89 | places the key, balances, keeps the invariant with the key appended to the stream, and returns the ((k + 1) / 2)-th smallest key of the k keys read |
| Median.Run | DataStructures/MedianMaintenance.java:94-107 | the main loop's result is (sum of the running medians) % count, with Java's remainder; an empty stream is the division by zero, None |
| Median.KthSmallest | DataStructures/MedianMaintenance.java:17-27 | the j-th smallest key is a key of the multiset |
| Median.MediansAppend | DataStructures/MedianMaintenance.java:98-101 | reading one more key appends the lower median of the keys read so far |
| Median.SumStep | DataStructures/MedianMaintenance.java:99-100 | one more key adds its lower median to the running sum of medians |
| Median.Feed | DataStructures/MedianMaintenance.java:98-101 | one turn of the main loop inserts the next key, keeps the heaps valid over the keys read and adds the new median to the sum |
| DisjointSets.Root | GreedyAlgorithms/Kruskal/UnionFind.java:39-45 | the end of x's parent chain: a node that is its own parent, of strictly larger rank than x unless it is x |
| DisjointSets.CompressPath | GreedyAlgorithms/Kruskal/UnionFind.java:44 | find(x) points exactly the nodes on x's path at x's root and leaves every other parent unchanged |
| DisjointSets.CompressKeeps | GreedyAlgorithms/Kruskal/UnionFind.java:39-45 | path compression keeps the forest ranked and changes neither the root of any node nor the set of roots |
| DisjointSets.LinkRanked | GreedyAlgorithms/Kruskal/UnionFind.java:27-34 | linking two roots keeps the forest ranked, and no rank decreases |
| DisjointSets.LinkKeeps | GreedyAlgorithms/Kruskal/UnionFind.java:27-34 | linking moves every node of the loser's set to the winner's root (the lower-rank root loses; on equal ranks A's root goes under B's) and removes exactly one root |
| DisjointSets.UnionOf | GreedyAlgorithms/Kruskal/UnionFind.java:17-36 | union keeps the forest ranked and the number of nodes |
| DisjointSets.UnionOfMeetsSpec | GreedyAlgorithms/Kruskal/UnionFind.java:17-36 | union returns false and changes no root, rank or set when both nodes share a root; otherwise it returns true, relabels the loser's set, bumps B's root's rank only on a tie, and lowers the number of roots by exactly 1; afterwards find(a) == find(b) |
| DisjointSets.UnionSameSet | GreedyAlgorithms/Kruskal/UnionFind.java:17-36 | after union(a, b), x and y share a set exactly when they did before or one was with a and the other with b |
| DisjointSets.UnionFind.constructor | GreedyAlgorithms/Kruskal/UnionFind.java:6-14 | parent[i] = i and rank[i] = 0 for 0..N, so every node is its own root |
| DisjointSets.UnionFind.Find | GreedyAlgorithms/Kruskal/UnionFind.java:39-45 | returns the node's root and leaves the parents exactly as path compression says, with every node's root and the set of roots unchanged |
| DisjointSets.UnionFind.Union | GreedyAlgorithms/Kruskal/UnionFind.java:17-36 | the arrays and the result are exactly UnionOf, which meets the union specification, and the two nodes end in the same set |
| DisjointSets.UnionFind.Link | GreedyAlgorithms/Kruskal/UnionFind.java:27-34 | the rank comparison and the link, with the loser's set relabelled and one root fewer |
| Kruskal.Cluster | GreedyAlgorithms/Kruskal/KruskalClustering.java:39-51 | the scan of the edge list keeps the forest ranked and uses at most the whole list |
| Kruskal.ClusterKeepsSame | GreedyAlgorithms/Kruskal/KruskalClustering.java:41-42 | nodes in the same set stay in the same set through the scan |
| Kruskal.ClusterJoins | GreedyAlgorithms/Kruskal/KruskalClustering.java:41-47 | after the scan, both endpoints of every edge looked at are in the same set (an edge whose endpoints already share a root is ignored) |
| Kruskal.ClusterCount | GreedyAlgorithms/Kruskal/KruskalClustering.java:42-47 | clusters drops by one per successful union except the one that stops the scan, so clusters minus the number of roots is kept, bar that last union |
| Kruskal.ClusterSpacing | GreedyAlgorithms/Kruskal/KruskalClustering.java:40-50 | the result is -1 when the list runs out without stopping; otherwise it is the cost of the first edge that joins two sets once clusters <= clusterSize, that edge is already unioned, and clusters is then the smaller of its start and clusterSize |
| Kruskal.SpacingIsLargest | GreedyAlgorithms/Kruskal/KruskalClustering.java:57-58 | with the list sorted by EdgeComparator, no edge looked at costs more than the spacing |
| Kruskal.KruskalClustering.constructor | GreedyAlgorithms/Kruskal/KruskalClustering.java:20-23 | clusters starts at the node count and the union-find has one root per node 0..nodes |
| Kruskal.KruskalClustering.Join | GreedyAlgorithms/Kruskal/KruskalClustering.java:42 | one union of an edge's endpoints advances the scan by one edge |
| Kruskal.KruskalClustering.ComputeMaxClusterDistance | GreedyAlgorithms/Kruskal/KruskalClustering.java:39-51 | the union-find, clusters and the returned spacing end exactly as the scan Cluster says |
| DisjointSets.OnPathRoot | GreedyAlgorithms/Kruskal/UnionFind.java:39-45 | every node on x's parent chain has x's root |
| DisjointSets.RedirectRanked | GreedyAlgorithms/Kruskal/UnionFind.java:44 | pointing any nodes straight at their roots keeps the forest ranked |
| DisjointSets.RedirectRoot | GreedyAlgorithms/Kruskal/UnionFind.java:44 | pointing any nodes straight at their roots changes no node's root |
| DisjointSets.RedirectRoots | GreedyAlgorithms/Kruskal/UnionFind.java:44 | pointing any nodes straight at their roots keeps the set of roots |
| DisjointSets.LinkRoot | GreedyAlgorithms/Kruskal/UnionFind.java:27-34 | after linking two roots every node of the losing root's tree has the winning root, and every other node keeps its root |
| HammingClustering.Value | GreedyAlgorithms/Kruskal/BigClustering.java:44 | Integer.parseInt(label, 2) of a label of n bits is below 2^n, so it indexes the table of 2^bits + 1 entries |
| HammingClustering.ValueInjective | GreedyAlgorithms/Kruskal/BigClustering.java:44-49 | two binary labels of one length with the same value are the same label |
| HammingClustering.Diff | GreedyAlgorithms/Kruskal/BigClustering.java:79-81 | exactly the positions where two labels of one length differ |
| HammingClustering.FlipPairDiff | GreedyAlgorithms/Kruskal/BigClustering.java:60-66 | flipping positions a <= b keeps the length and changes exactly {a, b}: distance 1 for a single flip, 2 for a double flip |
| HammingClustering.VariantsCount | GreedyAlgorithms/Kruskal/BigClustering.java:54-67 | the loops produce exactly bits + bits * (bits - 1) / 2 variants, the size of the array |
| HammingClustering.VariantsNear | GreedyAlgorithms/Kruskal/BigClustering.java:59-67 | every variant has the label's length and is at Hamming distance 1 or 2 from it |
| HammingClustering.VariantsDistinct | GreedyAlgorithms/Kruskal/BigClustering.java:59-67 | no two variants are equal |
| HammingClustering.VariantsComplete | GreedyAlgorithms/Kruskal/BigClustering.java:59-67 | every binary label at distance 1 or 2 from the label is one of its variants |
| HammingClustering.LastIndex | GreedyAlgorithms/Kruskal/BigClustering.java:49 | the last index holding a value, or -1 when none does |
| HammingClustering.DuplicatesCount | GreedyAlgorithms/Kruskal/BigClustering.java:45-47 | nodes minus the number of labels whose value was seen before is the number of distinct values |
| HammingClustering.SameValue | GreedyAlgorithms/Kruskal/BigClustering.java:44 | two labels have the same table index exactly when they are the same label |
| HammingClustering.InitialPartition | GreedyAlgorithms/Kruskal/BigClustering.java:30 | a fresh union-find puts every node in a set of its own |
| HammingClustering.PartitionSkip | GreedyAlgorithms/Kruskal/BigClustering.java:45 | a label whose value has not been seen leaves the partition by value intact |
| HammingClustering.PartitionJoin | GreedyAlgorithms/Kruskal/BigClustering.java:45-47 | the union of a repeated label with the last label of its value succeeds and extends the partition by value |
| HammingClustering.PartitionCoarse | GreedyAlgorithms/Kruskal/BigClustering.java:43-50 | after the duplicate loop, labels of one value are in one set |
| HammingClustering.TabledStep | GreedyAlgorithms/Kruskal/BigClustering.java:49 | table[index] = i keeps the table naming the last label of each value |
| HammingClustering.Deduplicate | GreedyAlgorithms/Kruskal/BigClustering.java:43-50 | after the duplicate loop table[v] is the last index with value v, two nodes share a set exactly when their labels have one value, and clusters is nodes minus the duplicates, one less than the number of sets |
| HammingClustering.DeduplicateStep | GreedyAlgorithms/Kruskal/BigClustering.java:44-49 | one turn of the duplicate loop extends the table, the partition and the count by label i |
| HammingClustering.Load | GreedyAlgorithms/Kruskal/BigClustering.java:25-30 | the table filled with -1, a fresh union-find, then the duplicate loop: clusters is the number of distinct labels |
| HammingClustering.NearJoined | GreedyAlgorithms/Kruskal/BigClustering.java:91-95 | once every variant of label i has been looked up, every label at distance at most 2 from it is in i's set |
| HammingClustering.CloseStep | GreedyAlgorithms/Kruskal/BigClustering.java:90-96 | one turn of the outer loop extends the set of labels joined with all their near labels by label i |
| HammingClustering.BigClustering.constructor | GreedyAlgorithms/Kruskal/BigClustering.java:25-50 | two nodes share a set exactly when their labels are equal, and clusters is the number of distinct labels |
| HammingClustering.BigClustering.GenerateLabelVariants | GreedyAlgorithms/Kruskal/BigClustering.java:53-71 | the single flip at i, then the double flips (i, j) for every j > i, for each i in turn: bits + bits * (bits - 1) / 2 strings |
| HammingClustering.BigClustering.DoubleFlips | GreedyAlgorithms/Kruskal/BigClustering.java:63-67 | the inner loop appends the double flips (i, j) for j > i, in order |
| HammingClustering.BigClustering.ProcessLabels | GreedyAlgorithms/Kruskal/BigClustering.java:89-97 | no two nodes are separated, every two labels at distance at most 2 end in one set, and clusters stays one less than the number of sets |
| HammingClustering.BigClustering.JoinVariants | GreedyAlgorithms/Kruskal/BigClustering.java:92-95 | looking up every variant of label i joins i with every node the table holds for them |
| HammingClustering.BigClustering.JoinVariant | GreedyAlgorithms/Kruskal/BigClustering.java:93-94 | one lookup keeps clusters one less than the number of sets (so clusters drops exactly when the union merges), only ever merges sets, and leaves the table's node for the variant in i's set |
| HammingClustering.JoinSets | GreedyAlgorithms/Kruskal/BigClustering.java:94 | set.union(index, i) as the clustering uses it: every set only grows, index and i end up in one set, and a successful union removes exactly one root |
| IndexedHeap.Swapped | Graphs/Literals/CustomHeap.java:127-129 | the keys at a and b exchanged and every other key unchanged |
| IndexedHeap.LoneLeft | Graphs/Literals/CustomHeap.java:87 | the one slot heapifyDown's loop guard never inspects: the last slot when it is a left child with no sibling, else none |
| IndexedHeap.SiftUp | Graphs/Literals/CustomHeap.java:67-83 | bubbling up keeps the number of keys |
| IndexedHeap.SiftDownAsWritten | Graphs/Literals/CustomHeap.java:85-119 | heapifyDown as written keeps the number of keys |
| IndexedHeap.SiftDown | Graphs/Literals/CustomHeap.java:85-119 | heapifyDown with the lone left child compared and swapped keeps the number of keys |
| IndexedHeap.LastToRoot | Graphs/Literals/CustomHeap.java:147-152 | swap(1, last) then remove(last): one key fewer, the last key at the root and the others in place |
| IndexedHeap.RootIsMin | Graphs/Literals/CustomHeap.java:140-143 | in a min-heap the key at index 1 is at most every key |
| IndexedHeap.SwapUpStep | Graphs/Literals/CustomHeap.java:76-80 | swapping a child smaller than its parent moves the only violation one level up |
| IndexedHeap.SiftUpRestores | Graphs/Literals/CustomHeap.java:67-83 | heapifyUp from the one slot out of order restores the heap order |
| IndexedHeap.LowerKeyReady | Graphs/Literals/CustomHeap.java:179-180 | lowering one key of a heap leaves only that slot out of order upward |
| IndexedHeap.SwapDownStep | Graphs/Literals/CustomHeap.java:109-117 | swapping with the smaller child moves the only violation one level down |
| IndexedHeap.SiftDownAsWrittenResult | Graphs/Literals/CustomHeap.java:85-119 | heapifyDown as written restores the heap order except, at most, at a lone left child |
| IndexedHeap.NoRightChildAlmost | Graphs/Literals/CustomHeap.java:87 | when the loop guard fails the only pair that may be out of order is the lone left child |
| IndexedHeap.NoRightChildFull | Graphs/Literals/CustomHeap.java:99-104 | comparing and, if needed, swapping the lone left child completes the heap order |
| IndexedHeap.DownReadyOrdered | Graphs/Literals/CustomHeap.java:109 | a parent at most both children ends the sift with the heap order whole |
| IndexedHeap.SiftDownRestores | Graphs/Literals/CustomHeap.java:85-119 | the repaired sift-down from the one slot out of order restores the full heap order |
| IndexedHeap.SwapDropIsLastToRoot | Graphs/Literals/CustomHeap.java:149-152 | swapping the root with the last slot and dropping it is LastToRoot |
| IndexedHeap.SwappedPerm | Graphs/Literals/CustomHeap.java:121-138 | a swap keeps the multiset of heap keys |
| IndexedHeap.LastToRootPerm | Graphs/Literals/CustomHeap.java:147-152 | removing the root leaves the multiset of keys less the old root |
| IndexedHeap.LastToRootReady | Graphs/Literals/CustomHeap.java:149-153 | after moving the last key to the root only the root may be out of order downward |
| IndexedHeap.LoneLeftChildSkipped | Graphs/Literals/CustomHeap.java:87 | keys [MAX, 1, 2, 10]: extracting the minimum as written leaves [MAX, 10, 2], not a heap, where the repaired sift gives [MAX, 2, 10] |
| IndexedHeap.CustomHeap.SwapKeepsContents | Graphs/Literals/CustomHeap.java:121-138 | swapping two slots and both mappings keeps the node-to-key map |
| IndexedHeap.CustomHeap.DropLastContents | Graphs/Literals/CustomHeap.java:152 | dropping the last slot removes exactly its node from the node-to-key map |
| IndexedHeap.CustomHeap.SetKeyContents | Graphs/Literals/CustomHeap.java:180 | setting the key of slot i changes the key of exactly its node |
| IndexedHeap.CustomHeap.AppendContents | Graphs/Literals/CustomHeap.java:160-165 | appending a slot for a new node adds exactly that node with its key |
| IndexedHeap.CustomHeap.ContentsAt | Graphs/Literals/CustomHeap.java:173 | the node of each slot has that slot's key |
| IndexedHeap.CustomHeap.constructor | Graphs/Literals/CustomHeap.java:19-30 | N + 1 keys of Integer.MAX_VALUE, both mappings the identity on 0..N: every node 1..N at MAX_VALUE |
| IndexedHeap.CustomHeap.Size | Graphs/Literals/CustomHeap.java:32-34 | the number of slots, the unused slot 0 included |
| IndexedHeap.CustomHeap.IsEmpty | Graphs/Literals/CustomHeap.java:36-38 | true exactly when no node is left |
| IndexedHeap.CustomHeap.Swap | Graphs/Literals/CustomHeap.java:121-138 | the keys and both mappings exchanged, so the node-to-key map is unchanged |
| IndexedHeap.CustomHeap.HeapifyUp | Graphs/Literals/CustomHeap.java:67-83 | the keys become SiftUp of the old keys and the node-to-key map is unchanged |
| IndexedHeap.CustomHeap.HeapifyDown | Graphs/Literals/CustomHeap.java:85-119 | the keys become SiftDownAsWritten of the old keys and the node-to-key map is unchanged |
| IndexedHeap.CustomHeap.HeapifyDownRepaired | Graphs/Literals/CustomHeap.java:85-119 | the same with the lone left child handled: the keys become SiftDown of the old keys |
| IndexedHeap.CustomHeap.RootKeyIsMin | Graphs/Literals/CustomHeap.java:140-143 | in a heap, the key at the root is at most every node's key |
| IndexedHeap.CustomHeap.RemoveLast | Graphs/Literals/CustomHeap.java:152 | keys.remove(lastIndex): one slot fewer and its node gone, the mappings unchanged |
| IndexedHeap.CustomHeap.PeekMinNode | Graphs/Literals/CustomHeap.java:140-143 | the node at index 1, whose key is the minimum when the keys are a heap |
| IndexedHeap.CustomHeap.ExtractMinKey | Graphs/Literals/CustomHeap.java:145-156 | returns the root key and removes its node; the keys become SiftDownAsWritten(LastToRoot(old keys), 1), which keeps the order except at a lone left child |
| IndexedHeap.CustomHeap.ExtractMinKeyRepaired | Graphs/Literals/CustomHeap.java:145-156 | the same with the repaired sift-down, which keeps the full heap order, so the result is the minimum |
| IndexedHeap.CustomHeap.PeekNode | Graphs/Literals/CustomHeap.java:171-174 | the key of the given node |
| IndexedHeap.CustomHeap.DecreaseKey | Graphs/Literals/CustomHeap.java:176-183 | a smaller key replaces the node's key and is bubbled up; a key not smaller changes nothing; the heap order is kept |
| IndexedHeap.CustomHeap.InsertNode | Graphs/Literals/CustomHeap.java:158-169 | the node is added with its key, the keys become SiftUp of the extended keys, and the heap order is kept |
| IndexedHeap.CustomHeap.DeleteNode | Graphs/Literals/CustomHeap.java:185-190 | swap with the last slot and drop it: the node is gone and nothing is re-heapified |
| MaxKeyHeap.BubbleUp | DataStructures/MaxHeap.java:54-71 | bubbling up keeps the number of keys |
| MaxKeyHeap.SinkAsWritten | DataStructures/MaxHeap.java:73-108 | heapifyDown as written keeps the number of keys |
| MaxKeyHeap.Sink | DataStructures/MaxHeap.java:73-108 | heapifyDown with the lone left child compared and swapped keeps the number of keys |
| MaxKeyHeap.Parent | DataStructures/MaxHeap.java:27-34 | none (the exception) exactly for positions up to 1; otherwise the slot whose child is pos |
| MaxKeyHeap.LeftChild | DataStructures/MaxHeap.java:36-43 | with the corrected bound: a left child is an existing even slot below pos, and none means pos has no left child |
| MaxKeyHeap.RightChild | DataStructures/MaxHeap.java:45-52 | with the corrected bound: a right child is an existing odd slot below pos, and none means pos has no right child |
| MaxKeyHeap.LeftChildAsWritten | DataStructures/MaxHeap.java:36-43 | leftChild as written: a result is an even position from 2 up to keys.size(), one past the last slot, whose parent is pos; with no result no such position has parent pos |
| MaxKeyHeap.RightChildAsWritten | DataStructures/MaxHeap.java:45-52 | rightChild as written: a result is an odd position from 3 up to keys.size(), whose parent is pos; with no result no such position has parent pos |
| MaxKeyHeap.ChildPastEnd | DataStructures/MaxHeap.java:38-47 | the bounds as written accept a child one past the last slot: leftChild(1) with one key, rightChild(1) with two |
| MaxKeyHeap.ChildrenInLoop | DataStructures/MaxHeap.java:75-94 | while heapifyDown's guard holds both versions of leftChild and rightChild agree, so the catch branches never run |
| MaxKeyHeap.RootIsMax | DataStructures/MaxHeap.java:117-120 | in a max-heap the key at index 1 is at least every key |
| MaxKeyHeap.UpStep | DataStructures/MaxHeap.java:63-68 | swapping a child larger than its parent moves the only violation one level up |
| MaxKeyHeap.BubbleUpRestores | DataStructures/MaxHeap.java:54-71 | heapifyUp from the one slot out of order restores the max order |
| MaxKeyHeap.DownStep | DataStructures/MaxHeap.java:97-106 | swapping with the larger child (the right one on a tie) moves the only violation one level down |
| MaxKeyHeap.DownReadyOrdered | DataStructures/MaxHeap.java:97-98 | a parent at least both children ends the sift with the max order whole |
| MaxKeyHeap.NoRightChildAlmost | DataStructures/MaxHeap.java:75 | when the loop guard fails the only pair that may be out of order is the lone left child |
| MaxKeyHeap.NoRightChildFull | DataStructures/MaxHeap.java:87-93 | comparing and, if needed, swapping the lone left child completes the max order |
| MaxKeyHeap.SinkAsWrittenResult | DataStructures/MaxHeap.java:73-108 | heapifyDown as written restores the max order except, at most, at a lone left child |
| MaxKeyHeap.SinkRestores | DataStructures/MaxHeap.java:73-108 | the repaired sift-down restores the full max order |
| MaxKeyHeap.LastToRootReady | DataStructures/MaxHeap.java:124-129 | after moving the last key to the root only the root may be out of order downward |
| MaxKeyHeap.RootIsLargest | DataStructures/MaxHeap.java:117-120 | in a max-heap no stored key exceeds the root |
| MaxKeyHeap.ExtractOrder | DataStructures/MaxHeap.java:122-133 | extracting as written keeps the order except at a lone left child; the repaired extraction keeps the max order and returns the largest key |
| MaxKeyHeap.AppendReady | DataStructures/MaxHeap.java:137-141 | appending a key to a max-heap leaves only the new slot out of order upward |
| MaxKeyHeap.LoneLeftChildSkipped | DataStructures/MaxHeap.java:75 | keys [0, 10, 9, 1]: extracting the maximum as written leaves [0, 1, 9], not a max-heap, where the repaired sift gives [0, 9, 1] |
| MaxKeyHeap.MaxHeap.constructor | DataStructures/MaxHeap.java:8-11 | the sentinel 0 alone: no keys |
| MaxKeyHeap.MaxHeap.WithCapacity | DataStructures/MaxHeap.java:13-17 | the same for a capacity N; a negative N + 1 is the exception of ArrayList |
| MaxKeyHeap.MaxHeap.Size | DataStructures/MaxHeap.java:19-21 | the number of keys, the sentinel excluded |
| MaxKeyHeap.MaxHeap.IsEmpty | DataStructures/MaxHeap.java:23-25 | true exactly when no key is stored |
| MaxKeyHeap.MaxHeap.Swap | DataStructures/MaxHeap.java:110-115 | the two keys exchanged; the stored multiset is unchanged |
| MaxKeyHeap.MaxHeap.HeapifyUp | DataStructures/MaxHeap.java:54-71 | the keys become BubbleUp of the old keys and the multiset is unchanged |
| MaxKeyHeap.MaxHeap.HeapifyDown | DataStructures/MaxHeap.java:73-108 | the keys become SinkAsWritten of the old keys and the multiset is unchanged |
| MaxKeyHeap.MaxHeap.SinkOnce | DataStructures/MaxHeap.java:76-106 | one turn of the loop: stop with nothing changed when the parent is at least both children, else one swap that leaves the sift's final result unchanged |
| MaxKeyHeap.MaxHeap.HeapifyDownRepaired | DataStructures/MaxHeap.java:73-108 | the same with the lone left child handled: the keys become Sink of the old keys |
| MaxKeyHeap.MaxHeap.RootKeyIsMax | DataStructures/MaxHeap.java:117-120 | in a max-heap the root is at least every stored key |
| MaxKeyHeap.MaxHeap.PeekMax | DataStructures/MaxHeap.java:117-120 | none (Java's index exception) exactly when empty, else the key at index 1, the maximum when the keys are in max order |
| MaxKeyHeap.MaxHeap.RemoveLast | DataStructures/MaxHeap.java:129 | one slot fewer, its key gone from the multiset |
| MaxKeyHeap.MaxHeap.MoveLastToRoot | DataStructures/MaxHeap.java:124-129 | returns the root key, moves the last key to the root and drops the root key from the multiset |
| MaxKeyHeap.MaxHeap.ExtractMaxKey | DataStructures/MaxHeap.java:122-133 | none with nothing changed when empty; else the old root, removed from the multiset, with the keys SinkAsWritten(LastToRoot(old keys), 1); the largest key when the heap was in order |
| MaxKeyHeap.MaxHeap.ExtractMaxKeyRepaired | DataStructures/MaxHeap.java:122-133 | the same with the repaired sift-down, which keeps the max order |
| MaxKeyHeap.MaxHeap.Insert | DataStructures/MaxHeap.java:135-142 | the key is added to the multiset, the keys become BubbleUp of the extended keys, and the max order is kept |
| GenericHeap.GenericMinHeap.Less | DataStructures/GenericMinHeap.java:67-71 | less is a strict comparison of the two keys: when it holds the keys differ and the second is not smaller; when it fails the second is at most the first |
| GenericHeap.SmallerChild | DataStructures/GenericMinHeap.java:43-45 | the smaller of the existing children, the left one on a tie |
| GenericHeap.Sink | DataStructures/GenericMinHeap.java:41-52 | heapifyDown keeps the number of keys |
| GenericHeap.SinkStep | DataStructures/GenericMinHeap.java:47-50 | swapping with a smaller child that is not larger than the parent moves the only violation one level down |
| GenericHeap.SinkRestores | DataStructures/GenericMinHeap.java:41-52 | heapifyDown from the one slot out of order restores the heap order |
| GenericHeap.SinkPerm | DataStructures/GenericMinHeap.java:41-52 | heapifyDown keeps the multiset of keys |
| GenericHeap.SiftUpPerm | DataStructures/GenericMinHeap.java:33-38 | heapifyUp keeps the multiset of keys |
| GenericHeap.AfterExtract | DataStructures/GenericMinHeap.java:57-62 | extractMin's new list has one slot fewer |
| GenericHeap.AfterInsert | DataStructures/GenericMinHeap.java:27-29 | insert's new list has one slot more |
| GenericHeap.ExtractKeepsHeap | DataStructures/GenericMinHeap.java:55-64 | from a heap, extractMin leaves a heap of the other keys, and the key removed is at most every key |
| GenericHeap.InsertKeepsHeap | DataStructures/GenericMinHeap.java:26-30 | inserting into a heap leaves a heap of the keys plus the new one |
| GenericHeap.ConsSorted | DataStructures/GenericMinHeap.java:95-98 | a minimum followed by a sorted rest is sorted |
| GenericHeap.DrainSorted | DataStructures/GenericMinHeap.java:95-98 | extracting until empty yields the keys, as a permutation, in ascending order |
| GenericHeap.ExampleRun | DataStructures/GenericMinHeap.java:86-99 | inserting 4, 9, 12, 11, 20 gives [_, 4, 9, 12, 11, 20] and the extractions print 4, 9, 11, 12, 20 |
| GenericHeap.GenericMinHeap.constructor | DataStructures/GenericMinHeap.java:10-13 | the placeholder slot alone: size 0, no keys; a negative size + 1 is the exception of ArrayList |
| GenericHeap.GenericMinHeap.IsEmpty | DataStructures/GenericMinHeap.java:16-18 | true exactly when no key is stored |
| GenericHeap.GenericMinHeap.Size | DataStructures/GenericMinHeap.java:21-23 | the number of keys |
| GenericHeap.GenericMinHeap.Swap | DataStructures/GenericMinHeap.java:74-78 | the two slots exchanged; the multiset of keys is unchanged |
| GenericHeap.GenericMinHeap.HeapifyUp | DataStructures/GenericMinHeap.java:33-38 | the list becomes SiftUp of the old list and the keys are unchanged |
| GenericHeap.GenericMinHeap.HeapifyDown | DataStructures/GenericMinHeap.java:41-52 | the list becomes Sink of the old list and the keys are unchanged |
| GenericHeap.GenericMinHeap.Insert | DataStructures/GenericMinHeap.java:26-30 | the key is added, size grows by one, and the heap order is kept |
| GenericHeap.GenericMinHeap.ExtractMin | DataStructures/GenericMinHeap.java:55-64 | none with nothing changed when empty (Java's index exception); else the old root, removed from the keys, the first key of the sorted drain, the minimum when the list was a heap, which it stays |
| Dijkstra.ExitArc | Graphs/Dijkstra.java:39-54 | a walk from an explored node to an unexplored one has an arc from an explored node to an unexplored one |
| Dijkstra.DistancesOfBest | Graphs/Dijkstra.java:35-56 | with non-negative weights, the shortest-walk distances satisfy the triangle inequality on every edge |
| Dijkstra.ProposalBound | Graphs/Dijkstra.java:51 | with a non-negative weight, the offer from a node whose value is at least its capped distance is at least the head's capped distance |
| Dijkstra.ExtractedIsExact | Graphs/Dijkstra.java:41-45 | with non-negative weights, a least key extracted from the heap is exactly that node's capped shortest distance |
| Dijkstra.ExitBound | Graphs/Dijkstra.java:48-53 | the exit arc of a shortest walk was relaxed to a key no larger than the walk's weight |
| Dijkstra.PrefixThroughArc | Graphs/Dijkstra.java:48-53 | the prefix of a walk before an arc is a walk to the arc's tail, no heavier than the whole with non-negative weights |
| Dijkstra.ArcWithinWeight | Graphs/Dijkstra.java:48-53 | with non-negative weights, the prefix before an arc plus that arc weighs no more than the walk |
| Dijkstra.WeightAroundArc | Graphs/Dijkstra.java:48-53 | a walk's weight is its prefix, the arc and its suffix |
| Dijkstra.UnreachableOfferWraps | Graphs/Dijkstra.java:42-51 | a node extracted at Integer.MAX_VALUE and offering a weight w in 1..MAX_VALUE computes MIN_VALUE + w - 1, a negative key |
| Dijkstra.RelaxedUpToStep | Graphs/Dijkstra.java:49-52 | one decreaseKey offer extends the relaxed prefix of the edge list |
| Dijkstra.TrackedStep | Graphs/Dijkstra.java:41-46 | one iteration keeps the heap to the unexplored nodes, writes paths once per node, and lists each explored node once |
| Dijkstra.LowerStep | Graphs/Dijkstra.java:41-53 | one iteration keeps every key and every recorded value at or above the true distance |
| Dijkstra.ExactStep | Graphs/Dijkstra.java:41-53 | on the corrected heap one iteration keeps every recorded value exact and the values recorded in order |
| Dijkstra.RelaxedStep | Graphs/Dijkstra.java:48-53 | after an iteration every edge from an explored node to an unexplored one has been relaxed |
| Dijkstra.OrderedStep | Graphs/Dijkstra.java:41-53 | extracting a least key keeps the recorded values non-decreasing and none above a key left in the heap |
| Dijkstra.FirstIsSource | Graphs/Dijkstra.java:37-41 | the first node extracted is the source |
| Dijkstra.TrackedAtEnd | Graphs/Dijkstra.java:39-55 | at the end every node is explored and listed once, paths[0] is -1 and the source has 0 |
| Dijkstra.ExactAtEnd | Graphs/Dijkstra.java:39-55 | at the end of the corrected loop every node holds its exact distance and the order is by distance |
| Dijkstra.Dijkstra.constructor | Graphs/Dijkstra.java:20-30 | every node in the heap at Integer.MAX_VALUE, nothing explored, every entry of paths -1 |
| Dijkstra.Dijkstra.Offer | Graphs/Dijkstra.java:49-52 | an unexplored head's key becomes the Java int sum when that is smaller; nothing else changes |
| Dijkstra.Dijkstra.RelaxEdges | Graphs/Dijkstra.java:48-53 | the edge loop as written keeps the heap's nodes, raises no key and keeps every key a Java int |
| Dijkstra.Dijkstra.OfferRepaired | Graphs/Dijkstra.java:49-52 | the same offer with the sum taken exactly extends the relaxed prefix |
| Dijkstra.Dijkstra.RelaxEdgesRepaired | Graphs/Dijkstra.java:48-53 | every unexplored head ends at most weight + d, and every changed key is one of those offers |
| Dijkstra.Dijkstra.Visit | Graphs/Dijkstra.java:41-53 | the slot-1 node and its key are taken, recorded and marked; its key is the least one when the heap is in order; then its edges are relaxed |
| Dijkstra.Dijkstra.VisitRepaired | Graphs/Dijkstra.java:41-53 | the same on the corrected extraction: the key taken is always a least key |
| Dijkstra.Dijkstra.Start | Graphs/Dijkstra.java:37 | decreaseKey(sourceNode, 0): the source at 0, every other node at Integer.MAX_VALUE |
| Dijkstra.Dijkstra.StartRepaired | Graphs/Dijkstra.java:37 | the same start satisfies the corrected loop's invariant |
| Dijkstra.Dijkstra.StartLoop | Graphs/Dijkstra.java:37-39 | the start satisfies the invariant of the loop as written |
| Dijkstra.Dijkstra.StartLoopRepaired | Graphs/Dijkstra.java:37-39 | the start satisfies the invariant of the corrected loop: no key below the true distance |
| Dijkstra.Dijkstra.Step | Graphs/Dijkstra.java:40-53 | one iteration as written keeps the bookkeeping and every key and entry a Java int |
| Dijkstra.Dijkstra.StepRepaired | Graphs/Dijkstra.java:40-53 | one corrected iteration keeps the bookkeeping, the lower bounds, the exact values and their order |
| Dijkstra.Dijkstra.Run | Graphs/Dijkstra.java:39-54 | the loop as written ends with the heap empty |
| Dijkstra.Dijkstra.RunRepaired | Graphs/Dijkstra.java:39-54 | the corrected loop ends with the heap empty |
| Dijkstra.Dijkstra.ComputeShortestPaths | Graphs/Dijkstra.java:35-56 | as written: every node explored and written exactly once, paths[0] = -1, the source 0, every entry a Java int at most Integer.MAX_VALUE |
| Dijkstra.Dijkstra.ComputeShortestPathsRepaired | Graphs/Dijkstra.java:35-56 | corrected: with non-negative weights each entry is the shortest distance as a Java int (Integer.MAX_VALUE when unreachable), recorded in non-decreasing order |
| BellmanFord.RelaxListInt | Graphs/BellmanFord.java:33-42 | one tail's edge loop keeps the number of entries |
| BellmanFord.RelaxTailsInt | Graphs/BellmanFord.java:32-43 | the loop over tails 1..j keeps the number of entries |
| BellmanFord.RoundInt | Graphs/BellmanFord.java:29-43 | one round keeps the number of entries |
| BellmanFord.InitInt | Graphs/BellmanFord.java:23-26 | nodes + 1 entries |
| BellmanFord.RoundsInt | Graphs/BellmanFord.java:25-48 | paths after k rounds has nodes + 1 entries |
| BellmanFord.RelaxListIntBelow | Graphs/BellmanFord.java:38 | Math.min never raises an entry |
| BellmanFord.RelaxTailsIntBelow | Graphs/BellmanFord.java:32-43 | the tail loop never raises an entry |
| BellmanFord.RoundIntDecreasing | Graphs/BellmanFord.java:28-49 | no round raises an entry |
| BellmanFord.RelaxListIntSource | Graphs/BellmanFord.java:37-38 | an entry a tail's edge loop changes holds the Java int sum paths[tail] + weight of one of its edges into it |
| BellmanFord.Enc | Graphs/BellmanFord.java:25 | distances stored as Java ints, Integer.MAX_VALUE standing for infinity |
| BellmanFord.RelaxListInf | Graphs/BellmanFord.java:37 | a tail at infinity proposes nothing |
| BellmanFord.RelaxListMatch | Graphs/BellmanFord.java:37-38 | while every value and weight is small, one tail's int loop is the distance relaxation, and the values stay small |
| BellmanFord.RelaxTailsMatch | Graphs/BellmanFord.java:32-43 | the same for the tails 1..j |
| BellmanFord.RoundsMatch | Graphs/BellmanFord.java:28-49 | with weights within b and k * b below Integer.MAX_VALUE, the int rounds are the distance rounds Best, bounded by k * b |
| BellmanFord.EncInjective | Graphs/BellmanFord.java:39 | comparing int entries compares the small distances they store |
| BellmanFord.SmallWeaken | Graphs/BellmanFord.java:28-49 | a bound on the values holds for every larger bound |
| BellmanFord.StableMeaning | Graphs/BellmanFord.java:44-46 | when the weights fit, a round that changes nothing holds the shortest distances, and no negative cycle is reachable |
| BellmanFord.UnstableMeaning | Graphs/BellmanFord.java:51 | when the weights fit, a change in round nodes means a negative cycle is reachable from the source |
| BellmanFord.RelaxRound | Graphs/BellmanFord.java:29-43 | one round: nextPaths is the round of paths, and stable is true exactly when it changed nothing |
| BellmanFord.EdgeStep | Graphs/BellmanFord.java:38-41 | relaxing one edge keeps every entry at most the previous round's, and the round stays unchanged exactly when the head keeps its value |
| BellmanFord.RelaxEdge | Graphs/BellmanFord.java:34-41 | one edge: skipped when the tail is at Integer.MAX_VALUE, else Math.min with the Java int sum |
| BellmanFord.RelaxTail | Graphs/BellmanFord.java:33-42 | the edge loop of tail j extends the round by tail j and keeps stable exact |
| BellmanFord.ComputeShortestPath | Graphs/BellmanFord.java:21-52 | Result(false, round i) at the first round i that changes nothing, Result(true, null) after nodes changing rounds; when the weights fit, cycle holds exactly when a negative cycle is reachable, and otherwise paths are the shortest distances |
| Walks.RelaxList | Graphs/BellmanFord.java:33-42 | the distance form of one tail's edge loop keeps the number of entries |
| Walks.RelaxTails | Graphs/BellmanFord.java:32-43 | the distance form of the loop over tails 1..j keeps the number of entries |
| Walks.Round | Graphs/BellmanFord.java:29-43 | one Jacobi round on distances keeps the number of entries |
| Walks.Init | Graphs/BellmanFord.java:25-26 | infinity everywhere but 0 at the source, for nodes + 1 entries |
| Walks.Best | Graphs/BellmanFord.java:28-49 | k rounds on distances keep the number of entries |
| Walks.WeightConcat | Graphs/BellmanFord.java:38 | the weight of two walks joined is the sum of their weights |
| Walks.WalkExtend | Graphs/BellmanFord.java:38 | a walk followed by an edge out of its end is a walk, heavier by the edge's weight |
| Walks.WalkConcat | Graphs/BellmanFord.java:28-49 | walks meeting end to start join into a walk of the summed weight |
| Walks.WalkSplit | Graphs/BellmanFord.java:28-49 | a walk splits at any vertex into two walks whose weights add up |
| Walks.RepeatWalk | Graphs/BellmanFord.java:51 | going t times round a negative cycle is a closed walk of weight at most -t |
| Walks.WeightNonNegative | Graphs/Dijkstra.java:48-53 | with non-negative weights every walk weighs at least 0 |
| Walks.WeightBounded | Graphs/BellmanFord.java:38 | a walk of m edges with weights within b weighs between -m * b and m * b |
| Walks.RelaxListBounds | Graphs/BellmanFord.java:38 | after a tail's edges are relaxed each head is at most its old value and at most every offer received |
| Walks.RelaxListSource | Graphs/BellmanFord.java:38 | a head's new value is its old one or one of the offers it received |
| Walks.RelaxTailsBounds | Graphs/BellmanFord.java:32-43 | after tails 1..j, each vertex is at most its old value and every offer over an edge from those tails |
| Walks.RelaxTailsSource | Graphs/BellmanFord.java:32-43 | a vertex changed by tails 1..j holds the offer of one edge into it |
| Walks.RoundBounds | Graphs/BellmanFord.java:29-43 | after a round each vertex is at most its old value and at most the old value of every tail plus the edge weight |
| Walks.RoundSource | Graphs/BellmanFord.java:29-43 | a value a round changes comes from one edge into it |
| Walks.BestDecreasing | Graphs/BellmanFord.java:28-49 | no round raises a distance |
| Walks.BestDecreasingFrom | Graphs/BellmanFord.java:28-49 | a later round is everywhere at most an earlier one |
| Walks.BestWitness | Graphs/BellmanFord.java:28-49 | a finite value after k rounds is the weight of a walk from the source with at most k edges |
| Walks.BestLowerBound | Graphs/BellmanFord.java:28-49 | after k rounds each value is at most the weight of every walk from the source with at most k edges |
| Walks.StableForever | Graphs/BellmanFord.java:44-46 | once a round changes nothing, every later round is the same |
| Walks.StableIsShortest | Graphs/BellmanFord.java:44-46 | a round that changes nothing holds the least walk weights from the source |
| Walks.BestBounded | Graphs/BellmanFord.java:28-49 | with weights within b, every finite value after k rounds lies between -k * b and k * b |
| Walks.DistinctBound | Graphs/BellmanFord.java:28 | distinct vertices from 1..n number at most n |
| Walks.Pigeonhole | Graphs/BellmanFord.java:28 | more than n vertices from 1..n repeat a vertex |
| Walks.CycleInLongWalk | Graphs/BellmanFord.java:28 | a walk of more than n edges contains a closed walk whose removal leaves a shorter walk between the same ends |
| Walks.UnstableWitness | Graphs/BellmanFord.java:51 | a change in round k + 1 >= n means a negative cycle is reachable from the source |
| Walks.NegativeCycleUnstable | Graphs/BellmanFord.java:51 | a reachable negative cycle makes every round change something |
| Walks.NoWalkFromZero | Graphs/BellmanFord.java:32 | the edges of vertex 0 are never relaxed, so no walk leaves it |
| Walks.SourceZeroStable | Graphs/BellmanFord.java:26-32 | from source 0 the first round changes nothing and no negative cycle is reachable |
| Walks.CycleIff | Graphs/BellmanFord.java:44-51 | round n changes something exactly when a negative cycle is reachable from the source |
| Walks.NonNegativeShortest | Graphs/Dijkstra.java:35-56 | with non-negative weights round n is stable and gives the shortest distances, 0 at the source |
| Walks.PrefixWalk | Graphs/BellmanFord.java:28-49 | the first i edges of a walk are a walk from its start to its i-th vertex |
| Walks.SuffixWalk | Graphs/BellmanFord.java:28-49 | the edges of a walk from the i-th on are a walk from its i-th vertex to its end |
| Walks.VertsInRange | Graphs/BellmanFord.java:28 | every vertex of a walk from a vertex of 1..n lies in 1..n |
| Johnson.SourceEdges | Graphs/JohnsonAPSP.java:31-33 | the virtual source's list holds one edge per vertex 1..n |
| Johnson.Augmented | Graphs/JohnsonAPSP.java:30-36 | the graph of computeWeights: the original lists at 1..n, the virtual source's edges at n + 1, heads within 1..n |
| Johnson.AugmentedWithin | Graphs/JohnsonAPSP.java:30-36 | adding 0-weight edges keeps every weight within the original bound |
| Johnson.AugmentedFits | Graphs/JohnsonAPSP.java:38-39 | bounded weights make the augmented graph small enough for Bellman-Ford's sums to stay in int range |
| Johnson.LiftWalk | Graphs/JohnsonAPSP.java:30-36 | every walk of the original graph is a walk of the augmented one |
| Johnson.LowerCycle | Graphs/JohnsonAPSP.java:30-36 | a closed walk of the augmented graph is one of the original graph, since no edge enters the virtual source |
| Johnson.AugmentedCycle | Graphs/JohnsonAPSP.java:38-60 | a negative cycle is reachable from the virtual source exactly when the original graph has one |
| Johnson.ReachableCycleIsCycle | Graphs/JohnsonAPSP.java:58 | a negative cycle reachable from a vertex is a negative cycle of the graph |
| Johnson.NoCycleShortest | Graphs/BellmanFord.java:28-51 | without a reachable negative cycle, n rounds of Bellman-Ford hold the shortest distances |
| Johnson.ShortestUnique | Graphs/JohnsonAPSP.java:64-67 | two tables of shortest distances from one source are equal |
| Johnson.ShortestTriangle | Graphs/JohnsonAPSP.java:48 | shortest distances satisfy the triangle inequality over every edge |
| Johnson.SourceReachesAll | Graphs/JohnsonAPSP.java:31-33 | every vertex is reached from the virtual source at a distance of at most 0 |
| Johnson.Neg | Graphs/JohnsonAPSP.java:76 | negated potentials, entry by entry |
| Johnson.Reweighted | Graphs/JohnsonAPSP.java:43-54 | the reweighted graph has the same vertices and list lengths as the original |
| Johnson.ReweightWalk | Graphs/JohnsonAPSP.java:48 | reweighting a walk keeps its length |
| Johnson.WeightTelescopes | Graphs/JohnsonAPSP.java:48 | a reweighted walk from s to t weighs its original weight plus h[s] - h[t] |
| Johnson.WalkReweighted | Graphs/JohnsonAPSP.java:43-54 | every walk of the graph is, reweighted, a walk of the reweighted graph with weight shifted by h[s] - h[t] |
| Johnson.WalkRestored | Graphs/JohnsonAPSP.java:43-54 | every walk of the reweighted graph comes from a walk of the original graph, weight shifted back |
| Johnson.Restore | Graphs/JohnsonAPSP.java:76 | each restored distance is the reweighted distance plus h[t] - h[s] |
| Johnson.RestoredLower | Graphs/JohnsonAPSP.java:76 | the restored distances are at most the weight of every walk of the original graph |
| Johnson.ShortestLower | Graphs/JohnsonAPSP.java:64-67 | a shortest distance is at most the weight of every walk to its vertex |
| Johnson.ShiftLe | Graphs/JohnsonAPSP.java:76 | adding the same amount to both sides keeps a distance comparison |
| Johnson.RestoredAttained | Graphs/JohnsonAPSP.java:76 | each finite restored distance is the weight of a walk of the original graph |
| Johnson.ShortestRestored | Graphs/JohnsonAPSP.java:43-81 | shortest distances of the reweighted graph, restored, are the shortest distances of the original graph |
| Johnson.Potentials | Graphs/JohnsonAPSP.java:38-40 | the corrected potentials have an entry for each of 0..n |
| Johnson.PotentialValues | Graphs/JohnsonAPSP.java:38-40 | without a negative cycle each potential is the virtual source's finite distance, between -(n + 1) b and 0 |
| Johnson.PotentialsFeasible | Graphs/JohnsonAPSP.java:48 | with the Bellman-Ford potentials every reweighted edge is non-negative |
| Johnson.ProcessedEntry | Graphs/JohnsonAPSP.java:75-77 | Integer.MAX_VALUE stays; any other entry d becomes r with r + h[s] - h[t] == d |
| Johnson.EntryRestored | Graphs/JohnsonAPSP.java:75-77 | processing the int-stored reweighted distance gives the int-stored original distance when the bounds hold |
| Johnson.RestoredIsBest | Graphs/JohnsonAPSP.java:43-81 | without a negative cycle, the original distances are the restored distances of the reweighted graph |
| Johnson.BoundSum | Graphs/JohnsonAPSP.java:76 | the sum bounds EntryRestored needs follow from the weight bound |
| Johnson.JohnsonEntry | Graphs/JohnsonAPSP.java:56-81 | in the corrected algorithm each processed entry is the original shortest distance as a Java int |
| Johnson.ProcessedBefore | Graphs/JohnsonAPSP.java:73-80 | the matrix partway through the scan stays n + 1 by n + 1 |
| Johnson.Processed | Graphs/JohnsonAPSP.java:71-81 | the processed matrix stays n + 1 by n + 1 |
| Johnson.ProcessNothing | Graphs/JohnsonAPSP.java:73 | before the scan starts nothing is processed |
| Johnson.ProcessMatrix | Graphs/JohnsonAPSP.java:72-80 | the source-order scan gives Processed, and shortest becomes the least of its old value and every processed entry of 1..n x 1..n |
| Johnson.ScanStart | Graphs/JohnsonAPSP.java:73 | the scan invariant holds at row 1 |
| Johnson.ScanEnd | Graphs/JohnsonAPSP.java:73-80 | the scan invariant after row n is the result ProcessMatrix promises |
| Johnson.ScanRow | Graphs/JohnsonAPSP.java:74-79 | a processed row carries the scan invariant to the next row |
| Johnson.RowBefore | Graphs/JohnsonAPSP.java:74-79 | the row partway through: entries before dst processed, the rest untouched |
| Johnson.ProcessRowAt | Graphs/JohnsonAPSP.java:74-79 | a row is processed entry by entry, with the least entry tracked |
| Johnson.ProcessEntryAt | Graphs/JohnsonAPSP.java:75-78 | one entry is processed and compared against shortest |
| Johnson.DijkstraRow | Graphs/JohnsonAPSP.java:65-66 | the as-written Dijkstra returns a row that is -1 at 0, 0 at the source and int-valued |
| Johnson.DijkstraRowRepaired | Graphs/JohnsonAPSP.java:65-66 | the corrected Dijkstra returns the exact shortest distances on a non-negative graph |
| Johnson.ZeroWeightsKeepNegativeEdge | Graphs/JohnsonAPSP.java:62 | with the never-assigned zero weights the reweighted sample graph is the original, negative edge included, and the walk 1 -> 2 -> 3 of weight 0 beats the edge 1 -> 3 of weight 1 |
| Johnson.ZeroReweightIsIdentity | Graphs/JohnsonAPSP.java:48 | reweighting with zeros changes no edge |
| Johnson.SampleBounded | Graphs/JohnsonAPSP.java:48 | the sample graph has a negative edge and small weights |
| Johnson.SampleZeroWalk | Graphs/JohnsonAPSP.java:64-67 | the sample's true distance from 1 to 3 is at most 0 |
| Johnson.JohnsonAPSP.constructor | Graphs/JohnsonAPSP.java:19-27 | shortest is Integer.MAX_VALUE, weights and paths zero-filled of size nodes + 1 |
| Johnson.JohnsonAPSP.ComputeWeights | Graphs/JohnsonAPSP.java:29-41 | the cycle flag is set exactly when a negative cycle exists; otherwise the result holds the virtual source's Bellman-Ford distances |
| Johnson.JohnsonAPSP.GenerateReweightedGraph | Graphs/JohnsonAPSP.java:43-54 | the new graph is the reweighted graph, edge by edge |
| Johnson.JohnsonAPSP.ComputeAllPaths | Graphs/JohnsonAPSP.java:56-69 | as written: false exactly on a negative cycle, weights untouched, each row from Dijkstra on the original weights |
| Johnson.JohnsonAPSP.ComputeAllPathsRepaired | Graphs/JohnsonAPSP.java:56-69 | corrected: weights become the potentials, the reweighted graph is non-negative and every row is its exact distances |
| Johnson.JohnsonAPSP.ProcessPaths | Graphs/JohnsonAPSP.java:71-81 | paths becomes Processed and shortest the least of its old value and every processed entry |
| Johnson.JohnsonAPSP.AllPairsRepaired | Graphs/JohnsonAPSP.java:56-81 | corrected computeAllPaths then processPaths: every entry is the original graph's shortest distance as a Java int |
| Prim.CostStep | GreedyAlgorithms/PrimMST.java:33 | treeCost += key on a Java int keeps treeCost equal to the running sum of the keys, wrapped to an int |
| Prim.SumAppend | GreedyAlgorithms/PrimMST.java:33 | adding a key adds it to the running sum |
| Prim.TrackedStep | GreedyAlgorithms/PrimMST.java:31-35 | taking a node out of the heap and marking it keeps the order and key records consistent with the heap |
| Prim.RelaxedStep | GreedyAlgorithms/PrimMST.java:37-42 | after a node's edges are offered, every edge from a marked node to an unmarked one bounds its head's key |
| Prim.AttainedStep | GreedyAlgorithms/PrimMST.java:37-42 | every finite key stays the weight of an edge into its node from a marked node |
| Prim.ParentKept | GreedyAlgorithms/PrimMST.java:31-35 | a node's attaching edge stays valid as more nodes are taken |
| Prim.ParentNew | GreedyAlgorithms/PrimMST.java:31-33 | the node taken next with a finite key is attached by an edge of that weight from a node taken before |
| Prim.ParentsStep | GreedyAlgorithms/PrimMST.java:31-42 | one iteration keeps every taken finite key the weight of an attaching edge |
| Prim.LightestStep | GreedyAlgorithms/PrimMST.java:31-42 | taking a least key keeps every taken key at most every edge across its cut |
| Prim.FiniteStep | GreedyAlgorithms/PrimMST.java:31-33 | on a connected graph with weights below Integer.MAX_VALUE the least key is finite |
| Prim.FirstIsSource | GreedyAlgorithms/PrimMST.java:26-31 | the first node taken by a least key is the source |
| Prim.TrackedBound | GreedyAlgorithms/PrimMST.java:29 | no more than N nodes are taken |
| Prim.StateStep | GreedyAlgorithms/PrimMST.java:29-43 | one iteration of the as-written loop keeps its invariant |
| Prim.StateRepairedStep | GreedyAlgorithms/PrimMST.java:29-43 | one iteration of the corrected loop keeps its invariant, including the cut property |
| Prim.TrackedAtEnd | GreedyAlgorithms/PrimMST.java:29 | when the heap is empty every node is marked and taken once, the source first with key 0 |
| Prim.PrimMST.constructor | GreedyAlgorithms/PrimMST.java:16-21 | a heap of N nodes all at Integer.MAX_VALUE and an unmarked array of N + 1 entries |
| Prim.PrimMST.Offer | GreedyAlgorithms/PrimMST.java:38-41 | an unmarked head's key is lowered to the edge weight if that is smaller; heap order is kept |
| Prim.PrimMST.RelaxEdges | GreedyAlgorithms/PrimMST.java:37-42 | every unmarked neighbour's key becomes the least of its old key and its edge weights |
| Prim.PrimMST.Visit | GreedyAlgorithms/PrimMST.java:31-42 | as written: the slot-1 node leaves with its key, is marked and its edges are offered; least only while the heap is fully ordered |
| Prim.PrimMST.VisitRepaired | GreedyAlgorithms/PrimMST.java:31-42 | with the corrected extraction the node leaving has the least key and the heap stays ordered |
| Prim.PrimMST.Start | GreedyAlgorithms/PrimMST.java:26-27 | the source's key is 0, treeCost 0, and both loop invariants hold |
| Prim.PrimMST.Step | GreedyAlgorithms/PrimMST.java:30-42 | one iteration of the as-written loop keeps the invariant and takes one node |
| Prim.PrimMST.StepRepaired | GreedyAlgorithms/PrimMST.java:30-42 | one iteration of the corrected loop keeps the invariant and takes one node |
| Prim.PrimMST.Run | GreedyAlgorithms/PrimMST.java:29-43 | the as-written loop ends with an empty heap and its invariant |
| Prim.PrimMST.RunRepaired | GreedyAlgorithms/PrimMST.java:29-43 | the corrected loop ends with an empty heap and its invariant |
| Prim.PrimMST.ComputeMSTCost | GreedyAlgorithms/PrimMST.java:24-45 | as written: every node is taken once, the source first at 0, each later finite key the weight of an attaching edge, and the cost their sum wrapped to an int |
| Prim.PrimMST.ComputeMSTCostRepaired | GreedyAlgorithms/PrimMST.java:24-45 | corrected: in addition each key is the lightest edge across its cut and, on a connected graph, finite |
| Directed.Empty | Literals/DirectedGraph.java:19-26 | N lists, each empty |
| Directed.TotalUpdate | Literals/DirectedGraph.java:78-81 | replacing one list changes the entry count by the difference in length |
| Directed.TotalEmpty | Literals/DirectedGraph.java:19-26 | the empty graph has no entries |
| Directed.AppendEach | Literals/DirectedGraph.java:92-95 | the inner loop of reverseGraph keeps the number of lists |
| Directed.RevRows | Literals/DirectedGraph.java:91-96 | the reversed lists after rows 0..i-1 keep the number of lists |
| Directed.Reversed | Literals/DirectedGraph.java:89-98 | reverseGraph's lists, as many as the original's |
| Directed.AppendEachCount | Literals/DirectedGraph.java:92-95 | appending u for each entry of a row adds u to list v once per occurrence of v in the row |
| Directed.AppendEachTotal | Literals/DirectedGraph.java:92-95 | the inner loop adds one entry per entry of the row |
| Directed.RevRowsCount | Literals/DirectedGraph.java:91-96 | after rows below i, list v holds u as often as u's list holds v, for each u < i |
| Directed.ReversedCount | Literals/DirectedGraph.java:89-98 | in the reverse, v's list holds u exactly as often as u's list holds v in the original |
| Directed.RevRowsHeads | Literals/DirectedGraph.java:93 | every entry of a reversed list is a vertex |
| Directed.RevRowsTotal | Literals/DirectedGraph.java:94 | the reverse has as many entries as the rows it came from |
| Directed.ReverseTwice | Literals/DirectedGraph.java:89-98 | reversing twice gives every list back as a multiset |
| Directed.ScanAllAppend | Literals/DirectedGraph.java:58-67 | scanning a + b is scanning a and then b |
| Directed.ScanAllFailed | Literals/DirectedGraph.java:58-67 | once the scan throws, it stays thrown |
| Directed.ScanWord | Literals/DirectedGraph.java:58-67 | characters other than ' ' and '\n' are gathered into the pending text |
| Directed.ScanNumber | Literals/DirectedGraph.java:59-61 | a number followed by ' ' goes into slot k of node and k advances |
| Directed.ScanEdge | Literals/DirectedGraph.java:59-66 | the text "a b \n" appends b to a's list and leaves the pair in node |
| Directed.AddEdges | Literals/DirectedGraph.java:64 | appending heads to tails keeps the number of lists |
| Directed.ScanEdges | Literals/DirectedGraph.java:58-67 | edge lines are added in order and the last pair stays in node |
| Directed.TextGraphOfEdges | Literals/DirectedGraph.java:58-68 | a file of edge lines gives every edge in order and the last one a second time |
| Directed.TextGraphOfEmpty | Literals/DirectedGraph.java:56-68 | an empty file still adds 0 -> 0, and throws when N is 0 |
| Directed.ScanAllNext | Literals/DirectedGraph.java:58 | scanning one more character is one more step |
| Directed.ScanFails | Literals/DirectedGraph.java:58-67 | a failure in a prefix fails the whole text |
| Directed.AddLinesTotal | Graphs/Literals/DirectedGraph.java:31-35 | reading lines keeps the number of lists and adds one entry per line |
| Directed.AddLinesFails | Graphs/Literals/DirectedGraph.java:31-35 | a line that throws fails the whole file |
| Directed.LineEdgeRoundTrip | Graphs/Literals/DirectedGraph.java:32-33 | the line "a b" is read back as the edge (a, b) |
| Directed.SplitPair | Graphs/Literals/DirectedGraph.java:32 | splitting "a b" at whitespace gives the two numbers' texts |
| Directed.FieldsOtherSeparators | Graphs/Literals/DirectedGraph.java:32 | with ' ' the only whitespace present, splitting at all whitespace is splitting at ' ' |
| Directed.SplitOtherSeparators | Graphs/Literals/DirectedGraph.java:32 | the same for split's trailing-field rule |
| Directed.JoinChars | Graphs/Literals/DirectedGraph.java:32 | clean pieces joined with ' ' hold no other whitespace |
| Directed.DirectedGraph.constructor | Literals/DirectedGraph.java:19-26 | N vertices, no edges counted, N empty lists |
| Directed.DirectedGraph.GetEdges | Literals/DirectedGraph.java:74-76 | the list stored for the vertex |
| Directed.DirectedGraph.AddEdge | Literals/DirectedGraph.java:78-81 | node2 appended to node1's list, one more edge counted, nothing else changed |
| Directed.DirectedGraph.ReverseGraph | Literals/DirectedGraph.java:89-98 | a fresh graph with the reversed lists and as many edges counted as the original has entries |
| Directed.DirectedGraph.AppendRow | Literals/DirectedGraph.java:92-95 | u appended to the list of each head of the row, one edge counted per entry |
| Directed.DirectedGraph.FromText | Literals/DirectedGraph.java:28-69 | throws exactly when the text scan does; otherwise the graph of the text, N vertices, edge counter 0 |
| Directed.DirectedGraph.ScanText | Literals/DirectedGraph.java:56-67 | the character loop agrees with the scan of the whole text, failing exactly where it fails |
| Directed.DirectedGraph.Advance | Literals/DirectedGraph.java:58-67 | one pass of the loop is one scan step, with the pending text's start kept |
| Directed.DirectedGraph.ScanChar | Literals/DirectedGraph.java:59-66 | one character mirrors one scan step, failing exactly where it fails |
| Directed.DirectedGraph.ReadLine | Graphs/Literals/DirectedGraph.java:32-34 | the line's head is appended to its tail's list and the counter rises by two; false exactly when Java throws |
| Directed.DirectedGraph.FromLines | Graphs/Literals/DirectedGraph.java:22-44 | throws exactly when a line does; otherwise the graph of the lines with twice their number counted |
| WeightedDirected.ParsePairs | DataStructures/WeightedDirectedGraph.java:67-69 | a parsed field list has one edge per field |
| WeightedDirected.PairsFail | DataStructures/WeightedDirectedGraph.java:67-69 | a field that throws fails the whole line |
| WeightedDirected.PairsStep | DataStructures/WeightedDirectedGraph.java:67-69 | parsing one more field appends its edge, or fails |
| WeightedDirected.AppendStep | DataStructures/WeightedDirectedGraph.java:70 | adding the edges of a line one at a time appends them all to the base vertex's list |
| WeightedDirected.AddLineEntries | DataStructures/WeightedDirectedGraph.java:59-72 | a line adds exactly its edges and keeps the number of lists |
| WeightedDirected.AddLinesKeepsLength | DataStructures/WeightedDirectedGraph.java:59-73 | reading lines keeps the number of lists and never removes an entry |
| WeightedDirected.AddLinesFails | DataStructures/WeightedDirectedGraph.java:59-73 | a line that throws fails the whole file |
| WeightedDirected.PairRoundTrip | DataStructures/WeightedDirectedGraph.java:68-69 | the field "v,w" is read back as Edge(v, w) |
| WeightedDirected.PairTexts | DataStructures/WeightedDirectedGraph.java:61 | one field text per edge |
| WeightedDirected.PairTextClean | DataStructures/WeightedDirectedGraph.java:61 | a field text holds no tab and is not empty |
| WeightedDirected.PairsOf | DataStructures/WeightedDirectedGraph.java:67-69 | fields that each parse to an edge parse to the list of those edges |
| WeightedDirected.PairsRoundTrip | DataStructures/WeightedDirectedGraph.java:67-69 | the fields written for a list of edges are read back as that list |
| WeightedDirected.AdjacencyPieces | DataStructures/WeightedDirectedGraph.java:61 | the tab-separated pieces of a line are the base vertex and the edge fields, each clean and non-empty |
| WeightedDirected.PairTextsAt | DataStructures/WeightedDirectedGraph.java:61 | the k-th field text is the text of the k-th edge |
| WeightedDirected.AdjacencyRoundTrip | DataStructures/WeightedDirectedGraph.java:61-69 | the line written for vertex b with edges es is read back as (b, es) |
| WeightedDirected.AddTriplesEntries | DataStructures/WeightedDirectedGraph.java:98-104 | each "t h w" line adds exactly one entry, keeping the number of lists |
| WeightedDirected.EdgeFileCounts | DataStructures/WeightedDirectedGraph.java:84-104 | nodes and edges are the header's, there are nodes + 1 lists, and one entry per edge line: the edge count is not checked |
| WeightedDirected.TripleLineAdds | DataStructures/WeightedDirectedGraph.java:99-103 | the line "t h w" appends Edge(h, w) to t's list |
| WeightedDirected.AddTriplesFails | DataStructures/WeightedDirectedGraph.java:98-104 | an edge line that throws fails the whole file |
| WeightedDirected.WeightedDirectedGraph.constructor | DataStructures/WeightedDirectedGraph.java:30-40 | N vertices, no edges counted, N + 1 empty lists |
| WeightedDirected.WeightedDirectedGraph.GetEdgeList | DataStructures/WeightedDirectedGraph.java:114-116 | the list stored for the vertex |
| WeightedDirected.WeightedDirectedGraph.AddEdgeList | DataStructures/WeightedDirectedGraph.java:118-120 | one vertex's list is replaced and nothing else changes |
| WeightedDirected.WeightedDirectedGraph.ReadAdjacencyLine | DataStructures/WeightedDirectedGraph.java:59-72 | false exactly when Java throws; otherwise the line's edges appended and counted |
| WeightedDirected.WeightedDirectedGraph.ReadFields | DataStructures/WeightedDirectedGraph.java:67-72 | the fields' edges appended to b's list, one counted each; false exactly when a field or the lookup throws |
| WeightedDirected.WeightedDirectedGraph.ReadAdjacencyLines | DataStructures/WeightedDirectedGraph.java:42-77 | false exactly when a line throws; otherwise the lines' edges appended and counted |
| WeightedDirected.WeightedDirectedGraph.ReadEdgeLine | DataStructures/WeightedDirectedGraph.java:99-103 | false exactly when Java throws; otherwise Edge(h, w) appended to t's list, counters untouched |
| WeightedDirected.WeightedDirectedGraph.ReadEdgeLines | DataStructures/WeightedDirectedGraph.java:98-104 | false exactly when a line throws; otherwise the lists of all edge lines |
| WeightedDirected.WeightedDirectedGraph.FromEdgeFile | DataStructures/WeightedDirectedGraph.java:79-109 | fails exactly when the header or an edge line throws; otherwise the header's counts and the lists of the edge lines |
| WeightedUndirected.Link | DataStructures/WeightedUndirectedGraph.java:60-66 | both appends succeed exactly when both ends have a list |
| WeightedUndirected.CountAfterLink | DataStructures/WeightedUndirectedGraph.java:60-66 | linking raises the count of an entry by one for each of the two new entries it equals |
| WeightedUndirected.LinkSymmetric | DataStructures/WeightedUndirectedGraph.java:60-66 | linking an edge keeps every entry matched by its mirror entry, self-loops included |
| WeightedUndirected.LinkClosed | DataStructures/WeightedUndirectedGraph.java:60-66 | linking keeps every head inside the lists |
| WeightedUndirected.LinkEntries | DataStructures/WeightedUndirectedGraph.java:60-66 | linking adds exactly two entries and keeps the number of lists |
| WeightedUndirected.SelfLoop | DataStructures/WeightedUndirectedGraph.java:60-66 | the line "a a w" puts two entries Edge(a, w) into a's list |
| WeightedUndirected.BlankSymmetric | DataStructures/WeightedUndirectedGraph.java:44-48 | blank lists are symmetric and closed |
| WeightedUndirected.AddAllSymmetric | DataStructures/WeightedUndirectedGraph.java:51-67 | reading edge lines keeps the lists symmetric and closed and adds two entries per line |
| WeightedUndirected.UndirectedFileShape | DataStructures/WeightedUndirectedGraph.java:36-67 | both counters are the first header field, there are n + 1 symmetric lists and two entries per edge line |
| WeightedUndirected.EdgeLineAdds | DataStructures/WeightedUndirectedGraph.java:52-66 | the line "a b w" links a and b with weight w |
| WeightedUndirected.FileOutcome | DataStructures/WeightedUndirectedGraph.java:36-67 | with a well-formed header the file's outcome is that of its edge lines on n + 1 blank lists |
| WeightedUndirected.AddAllFails | DataStructures/WeightedUndirectedGraph.java:51-67 | an edge line that throws fails the whole file |
| WeightedUndirected.WeightedUndirectedGraph.constructor | DataStructures/WeightedUndirectedGraph.java:18-27 | N vertices, no edges counted, N + 1 empty lists |
| WeightedUndirected.WeightedUndirectedGraph.GetEdgeList | DataStructures/WeightedUndirectedGraph.java:82-84 | the list stored for the vertex |
| WeightedUndirected.WeightedUndirectedGraph.ReadEdgeLine | DataStructures/WeightedUndirectedGraph.java:52-66 | false exactly when Java throws; otherwise the edge appended at both ends |
| WeightedUndirected.WeightedUndirectedGraph.ReadEdgeLines | DataStructures/WeightedUndirectedGraph.java:51-67 | false exactly when a line throws; otherwise the lists of all edge lines |
| WeightedUndirected.WeightedUndirectedGraph.FromFile | DataStructures/WeightedUndirectedGraph.java:29-72 | fails exactly when the file is empty or a line throws; otherwise the counts and lists of UndirectedFile |
| JavaText.Fields | Graphs/Literals/DirectedGraph.java:32 | the pieces between separators, empty ones included, at least one |
| JavaText.DropTrailingEmptyMeaning | Graphs/Literals/DirectedGraph.java:32 | split drops only empty trailing pieces, keeps a prefix and does not end with an empty piece |
| JavaText.SingleField | Graphs/Literals/DirectedGraph.java:32 | there is one piece exactly when no separator occurs, and then it is the whole string |
| JavaText.FieldsJoin | Graphs/Literals/DirectedGraph.java:32 | joining the pieces with the separator gives the string back |
| JavaText.JoinCons | Graphs/Literals/DirectedGraph.java:32 | a character before the first piece comes first in the joined string |
| JavaText.FieldsClean | Graphs/Literals/DirectedGraph.java:32 | no piece holds a separator |
| JavaText.SplitClean | Graphs/Literals/DirectedGraph.java:32 | no piece of split holds a separator; a string without one splits to itself; otherwise trailing empty pieces are dropped |
| JavaText.AllDigitsAt | Graphs/Literals/DirectedGraph.java:33 | every character of a digit string is a digit |
| JavaText.ParseInt | Graphs/Literals/DirectedGraph.java:33 | Integer.parseInt succeeds only with a value in int range |
| JavaText.Digits | Graphs/Literals/DirectedGraph.java:33 | the decimal digits of a number: at least one, all digits |
| JavaText.DigitsValueOf | Graphs/Literals/DirectedGraph.java:33 | the digits of n have the value n |
| JavaText.ParseIntToString | Graphs/Literals/DirectedGraph.java:33 | parseInt reads back every int toString writes |
| JavaText.ParseNegative | Graphs/Literals/DirectedGraph.java:33 | '-' followed by digits reads as the negated value when it fits |
| JavaText.ParseUnsigned | Graphs/Literals/DirectedGraph.java:33 | digits alone read as their value when it fits |
| JavaText.ParseFields | Graphs/Literals/WeightedUndirectedGraph.java:33-34 | the first k fields read as ints in order, or None exactly when one is missing or malformed |
| JavaText.FieldsOfJoin | Graphs/Literals/WeightedDirectedGraph.java:61 | the pieces of a joined string are the pieces joined, when none holds the separator |
| JavaText.FieldsAfterClean | Graphs/Literals/WeightedDirectedGraph.java:61 | a clean prefix followed by the separator is the first piece |
| JavaText.SplitJoin | Graphs/Literals/WeightedDirectedGraph.java:61 | split reads back the pieces joined, as long as the last one is not empty |
| JavaText.IntToStringClean | Graphs/Literals/WeightedDirectedGraph.java:61 | the text of an int holds no separator other than digits and '-', and is not empty |
| JavaInt.Wrap | GreedyAlgorithms/PrimMST.java:33 | the int the exact value becomes: in range, congruent modulo 2^32, the value itself when it fits |
| JavaInt.Plus | Graphs/Dijkstra.java:51 | Java's int sum: in range, and the exact sum when that fits |
| JavaInt.Rem | DataStructures/MedianMaintenance.java:107 | Java's % for a positive divisor: the truncated remainder, with the sign of the dividend |
| JavaInt.WrapAdd | GreedyAlgorithms/PrimMST.java:33 | x += d on an int: wrapping before or after the addition gives the same int |
| JavaInt.ModShift | GreedyAlgorithms/PrimMST.java:33 | adding a multiple of 2^32 keeps the residue |
| JavaInt.WrapLong | DSAApplications/TwoSum.java:71-72 | the long the exact value becomes: in long range, congruent modulo 2^64, the value itself when it fits |
| JavaInt.WrapShift | DSAApplications/TwoSum.java:80 | adding a multiple of 2^32 does not change the wrapped int |
| JavaInt.WrapOfLong | DSAApplications/TwoSum.java:80 | casting the wrapped long to int is wrapping the exact value |
| StackSearch.Range | Graphs/Kosaraju.java:36 | lo, lo + 1, ..., hi - 1 in order |
| StackSearch.Backwards | Graphs/Kosaraju.java:48-51 | the sequence read from the end: what popping the push-ordered finStack yields |
| StackSearch.BackwardsPerm | Graphs/Kosaraju.java:48-51 | emptying finStack writes exactly the vertices pushed, as a multiset |
| StackSearch.Assoc | Graphs/Kosaraju.java:48-51 | the concatenation of recorded blocks does not depend on grouping |
| StackSearch.DistinctCount | Graphs/Kosaraju.java:42-44 | a vertex recorded at most once occurs once in the multiset of records, or not at all |
| StackSearch.DistinctPerm | Graphs/Kosaraju.java:36-53 | two duplicate-free lists of the same vertices are permutations of each other |
| StackSearch.RangeDistinct | Graphs/Kosaraju.java:36 | lo..hi - 1 is duplicate-free and holds exactly those vertices |
| StackSearch.UnexploredMark | Graphs/Kosaraju.java:43 | marking an unexplored vertex lowers the unexplored count by one |
| StackSearch.Explore | Graphs/Kosaraju.java:39-47 | the stack search from a stack keeps the size of explored |
| StackSearch.ExploreMarks | Graphs/Kosaraju.java:39-47 | the search records distinct vertices, each unexplored before, and marks exactly those in addition |
| StackSearch.ExploreClosed | Graphs/Kosaraju.java:39-47 | after the search every stacked vertex is explored and so is every head of a recorded vertex |
| StackSearch.ExploreFrom | Graphs/Kosaraju.java:39-47 | with stack and heads in lo..N - 1 the search records only such vertices |
| StackSearch.Searches | Graphs/Kosaraju.java:64-81 | one search per unexplored start, taken from the top of the list down, keeping the size of explored |
| StackSearch.Sizes | Graphs/Kosaraju.java:66-72 | the number of vertices each search explores |
| StackSearch.Unmarked | Graphs/Kosaraju.java:34 | a fresh boolean array: nothing explored |
| StackSearch.FinishOrderPerm | Graphs/Kosaraju.java:48-51 | the written order holds exactly the vertices of the searches |
| StackSearch.TotalSizes | Graphs/Kosaraju.java:66-72 | the sizes add up to the number of vertices the searches explore |
| StackSearch.SearchesMarks | Graphs/Kosaraju.java:36-53 | a pass records distinct vertices unexplored before, marks exactly those and explores every start |
| StackSearch.MarksJoin | Graphs/Kosaraju.java:36-53 | two searches one after the other record and mark as one search |
| StackSearch.SearchesFrom | Graphs/Kosaraju.java:36-53 | starts and heads in lo..N - 1 keep the pass within lo..N - 1 |
| StackSearch.PassCovers | Graphs/Kosaraju.java:36-53 | a pass whose starts are lo..N - 1 records each of them once |
| StackSearch.StartsCover | Graphs/Kosaraju.java:64-65 | a start list that permutes lo..N - 1 lies in that range and holds all of it |
| StackSearch.MembersCover | Graphs/Kosaraju.java:64-81 | vertices explored from every start of such a list are exactly lo..N - 1 |
| StackSearch.FirstOrderPerm | Graphs/Kosaraju.java:28-55 | the first pass writes a permutation of lo..N - 1 |
| StackSearch.PushEdges | Graphs/Kosaraju.java:86-90 | the list pushed in order on top of the stack |
| StackSearch.Search | Graphs/Kosaraju.java:39-47 | the search loop on the explored array gives the marks and the records of Explore |
| StackSearch.Drain | Graphs/Kosaraju.java:48-51 | the records written backwards at time..; nothing else in the array changes |
| StackSearch.FirstPass | Graphs/Kosaraju.java:28-55 | a fresh array of N entries: 0 below lo, then FirstOrder, a permutation of lo..N - 1 |
| StackSearch.Round | Graphs/Kosaraju.java:37-52 | one turn of the first pass keeps its invariant |
| StackSearch.PassStep | Graphs/Kosaraju.java:37-51 | a search from an unexplored vertex adds its records backwards to what is written |
| StackSearch.SkipStep | Graphs/Kosaraju.java:37 | an explored vertex starts no search |
| StackSearch.Emit | Graphs/Kosaraju.java:48-51 | writing a search's records advances currentTime and extends what is written |
| StackSearch.WriteStep | Graphs/Kosaraju.java:50 | a block written after the written prefix extends it |
| StackSearch.FirstPassEnd | Graphs/Kosaraju.java:54 | at the end the array is zeros below lo and the first order after |
| StackSearch.SearchStep | Graphs/Kosaraju.java:64-81 | a pass starting with a search from an unexplored start is that search followed by the rest |
| Kosaraju.Poll | Graphs/Kosaraju.java:77 | one copy of a smallest size removed: one fewer, a sub-multiset, and nothing kept below what was removed |
| Kosaraju.SubsetFull | Graphs/Kosaraju.java:76-79 | a sub-multiset as large as the whole is the whole |
| Kosaraju.LargestTop | Graphs/Kosaraju.java:58 | offering first and polling when more than five are held keeps exactly the five largest sizes |
| Kosaraju.PollTop | Graphs/Kosaraju.java:76-79 | the overflowing step of LargestTop keeps the five largest |
| Kosaraju.LeadersLast | Graphs/Kosaraju.java:76-79 | as written the queue holds the five largest sizes but the last, plus the last size |
| Kosaraju.LeadersSize | Graphs/Kosaraju.java:76-79 | as written the queue ends with up to six sizes, not five |
| Kosaraju.NeverDropsTop | Graphs/Kosaraju.java:76-79 | as written the queue still holds the five largest sizes of the stream: each poll removes the smallest of six sizes, so none of the five largest is lost |
| Kosaraju.SixLeaders | Graphs/Kosaraju.java:76-79 | on sizes 2, 3, 4, 5, 6, 7, 1 the queue as written holds six sizes including 1 and not 2; the five largest hold neither |
| Kosaraju.AboveOne | Graphs/Kosaraju.java:76-79 | every size of 2..7 is above 1 |
| Kosaraju.MinIsNew | Graphs/Kosaraju.java:77 | a size offered below all kept is the one polled next |
| Kosaraju.TwoDropped | Graphs/Kosaraju.java:76-79 | the five largest of 2..7 leave out 2, and 1 is not among them |
| Kosaraju.SecondPass | Graphs/Kosaraju.java:57-84 | the queue as written after offering the size of every search, from the last finishing time down to index 1 |
| Kosaraju.Turn | Graphs/Kosaraju.java:65-80 | one turn of secondPass's loop keeps its invariant |
| Kosaraju.ReversedFromOne | Graphs/Kosaraju.java:98-99 | with no edge out of vertex 0, the reversed graph has no edge into it |
| Kosaraju.SizesCover | Graphs/Kosaraju.java:64-81 | with vertex 0 unused the second pass explores each of 1..N - 1 once: the sizes add up to N - 1 |
| Kosaraju.FinishingTimes | Graphs/Kosaraju.java:98-99 | the array main hands to the second pass has one entry per vertex, each a vertex number 0..N-1: 0, then the finish order of the first pass over the reversed graph |
| Kosaraju.TopComponents | Graphs/Kosaraju.java:97-101 | reverse, first pass, second pass: the component sizes are those the second pass finds from the reversed graph's finish order, the queue as written holds up to six of them, and the sizes add up to N - 1 when vertex 0 is unused |
| Kosaraju.SecondPassRepaired | Graphs/Kosaraju.java:57-84 | corrected secondPass, offering before polling: the queue holds exactly the five largest search sizes (all of them when there are fewer) |
| Kosaraju.TurnRepaired | Graphs/Kosaraju.java:65-80 | one turn of the corrected loop: the queue stays the five largest sizes offered so far |
| Kosaraju.TopComponentsRepaired | Graphs/Kosaraju.java:97-101 | reverse, first pass, corrected second pass: the sizes are those of the second pass over the reversed graph's finish order, the queue holds the five largest of them, and they add up to N - 1 when vertex 0 is unused |
| TwoSat.EvenTest | DynamicProgramming/TwoSAT.java:61 | Java's symbol % 2 == 0 holds exactly for the even values, negative ones included |
| TwoSat.Negate | DynamicProgramming/TwoSAT.java:60-63 | negate moves a vertex by one to the other member of its pair 2k, 2k + 1: the parity flips and the halved value stays |
| TwoSat.NegatePairs | DynamicProgramming/TwoSAT.java:60-63 | negate is an involution without fixed points that keeps each pair 2k, 2k + 1 |
| TwoSat.Vertex | DynamicProgramming/TwoSAT.java:41-45 | the vertex read for a symbol is an int; it is odd exactly when the doubled symbol is negative, and negative only when the doubling wraps to Integer.MIN_VALUE, where it is Integer.MIN_VALUE + 1 |
| TwoSat.VertexOfSymbol | DynamicProgramming/TwoSAT.java:41-45 | below 2^30 in absolute value the wrapped doubling and Math.abs give the intended vertex 2k or 2 abs(k) + 1 |
| TwoSat.NegateLiteral | DynamicProgramming/TwoSAT.java:60-63 | negate maps the vertex of k to the vertex of -k |
| TwoSat.LiteralRange | DynamicProgramming/TwoSAT.java:23-45 | distinct literals get distinct vertices, and the literals of symbols 1..n get exactly the vertices 2..2n + 1 |
| TwoSat.ClauseLine | DynamicProgramming/TwoSAT.java:37-45 | a clause line is read exactly when its first two fields parse as ints |
| TwoSat.ClauseRoundTrip | DynamicProgramming/TwoSAT.java:37-45 | the line "a b" is read back as the vertices of a and b |
| TwoSat.Clauses | DynamicProgramming/TwoSAT.java:36-54 | the clause lines read in order, one clause per line, each within the lists |
| TwoSat.Accepted | DynamicProgramming/TwoSAT.java:37-51 | a clause is accepted only when its vertices and their negations are list indices |
| TwoSat.Append | DynamicProgramming/TwoSAT.java:47-51 | list.add keeps the number of lists |
| TwoSat.Outgoing | DynamicProgramming/TwoSAT.java:47-48 | the outgoing lists of the clauses, one per vertex |
| TwoSat.Incoming | DynamicProgramming/TwoSAT.java:50-51 | the incoming lists of the clauses, one per vertex |
| TwoSat.ClauseStep | DynamicProgramming/TwoSAT.java:47-53 | reading one more clause appends to four lists and adds two to the wrapped edge count |
| TwoSat.AppendCount | DynamicProgramming/TwoSAT.java:47-51 | list.add(y) on x's list adds one y to that list and changes no other count |
| TwoSat.OutgoingCount | DynamicProgramming/TwoSAT.java:47-48 | u's outgoing list holds v once per implication u -> v of the clauses |
| TwoSat.IncomingCount | DynamicProgramming/TwoSAT.java:50-51 | v's incoming list holds u once per implication u -> v: the incoming lists are the outgoing ones reversed |
| TwoSat.Contraposition | DynamicProgramming/TwoSAT.java:47-48 | u -> v is implied as often as not v -> not u |
| TwoSat.OutgoingTotal | DynamicProgramming/TwoSAT.java:47-53 | the outgoing lists hold two entries per clause, as edges counts |
| TwoSat.NegateInUse | DynamicProgramming/TwoSAT.java:60-63 | negate keeps a vertex of 2..nodes - 1 in that range |
| TwoSat.AppendHeads | DynamicProgramming/TwoSAT.java:47-51 | appending a head within lo..bound - 1 keeps every head in that range |
| TwoSat.HeadsInUse | DynamicProgramming/TwoSAT.java:47-51 | clauses of symbols 1..n give heads within 2..nodes - 1 in both list arrays |
| TwoSat.PassGraph | DynamicProgramming/TwoSAT.java:67-96 | the lists 0..nodes - 1 the passes read have heads within 2..nodes - 1 |
| TwoSat.HeadsPrefix | DynamicProgramming/TwoSAT.java:67-96 | a prefix of lists with heads in 2..nodes - 1 is a graph on 0..nodes - 1 |
| TwoSat.LeaderTable | DynamicProgramming/TwoSAT.java:97-108 | one leader entry per vertex |
| TwoSat.Assign | DynamicProgramming/TwoSAT.java:108 | giving a leader to the vertices of a search keeps the table's size |
| TwoSat.AssignAt | DynamicProgramming/TwoSAT.java:108 | an assigned vertex gets the leader, every other keeps its entry |
| TwoSat.MembersSplit | DynamicProgramming/TwoSAT.java:100-113 | the vertices of the searches are those before k, of k, and after k |
| TwoSat.MembersLast | DynamicProgramming/TwoSAT.java:100-113 | the vertices of the searches are those of all but the last, then the last's |
| TwoSat.LeaderOf | DynamicProgramming/TwoSAT.java:100-113 | a vertex no search explored keeps leader 0; one explored by a search has that search's start as leader |
| TwoSat.DistinctFront | DynamicProgramming/TwoSAT.java:106 | a prefix of a duplicate-free list is duplicate-free |
| TwoSat.DistinctApart | DynamicProgramming/TwoSAT.java:106 | in a duplicate-free concatenation no vertex lies in both parts |
| TwoSat.MembersIn | DynamicProgramming/TwoSAT.java:100-113 | a vertex of one search is a vertex of the pass |
| TwoSat.SeparatedMeaning | DynamicProgramming/TwoSAT.java:117-121 | the check passes exactly when no search holds both vertices of a symbol |
| TwoSat.SecondCovers | DynamicProgramming/TwoSAT.java:100-113 | the second pass explores every vertex 2..N - 1 exactly once and each search starts with its leader |
| TwoSat.RangeWithin | DynamicProgramming/TwoSAT.java:71 | a permutation of lo..hi - 1 lies within that range |
| TwoSat.WithinJoin | DynamicProgramming/TwoSAT.java:71 | two lists within a range join into one |
| TwoSat.CoveredRange | DynamicProgramming/TwoSAT.java:71 | a permutation of lo..hi - 1 holds every vertex of it |
| TwoSat.PairLeaders | DynamicProgramming/TwoSAT.java:117-121 | two explored vertices share a leader exactly when one search holds both |
| TwoSat.TreeOf | DynamicProgramming/TwoSAT.java:100-113 | an explored vertex belongs to some search |
| TwoSat.OneTree | DynamicProgramming/TwoSAT.java:100-113 | with no vertex explored twice, a vertex belongs to one search only |
| TwoSat.LeadersDiffer | DynamicProgramming/TwoSAT.java:100-113 | different searches have different leaders |
| TwoSat.SearchesLeaders | DynamicProgramming/TwoSAT.java:100-113 | every search is non-empty and starts with its start vertex |
| TwoSat.OrderWithin | DynamicProgramming/TwoSAT.java:65-92 | the first pass's array has nodes entries, 0 at 0 and 1, and a permutation of 2..N - 1 after |
| TwoSat.VerdictMeaning | DynamicProgramming/TwoSAT.java:130-136 | main reports feasible exactly when no search of the second pass holds both vertices 2k and 2k + 1 of a symbol |
| TwoSat.InstanceRead | DynamicProgramming/TwoSAT.java:21-24 | a file whose first line is a number n describes an instance of the wrapped 2n + 2 vertices |
| TwoSat.Read | DynamicProgramming/TwoSAT.java:36-54 | the instance exists exactly when the clause lines read, with nodes and those clauses |
| TwoSat.TwoSAT.constructor | DynamicProgramming/TwoSAT.java:21-34 | nodes is the wrapped 2n + 2, with nodes + 1 empty lists each way, no clause and no edge |
| TwoSat.TwoSAT.ReadClause | DynamicProgramming/TwoSAT.java:37-53 | false exactly when the line throws and then nothing changes; otherwise the clause is added |
| TwoSat.TwoSAT.AddClause | DynamicProgramming/TwoSAT.java:47-53 | the four appends and edges += 2 add exactly one clause |
| TwoSat.TwoSAT.Load | DynamicProgramming/TwoSAT.java:14-58 | fails exactly when TwoSAT(filename) throws; otherwise the object of the file's instance |
| TwoSat.TwoSAT.Build | DynamicProgramming/TwoSAT.java:22-54 | once n is read, fails exactly when a clause line throws; otherwise the object of the instance |
| TwoSat.TwoSAT.ReadClauses | DynamicProgramming/TwoSAT.java:36-54 | false exactly when a line throws; otherwise the clauses of all lines |
| TwoSat.TwoSAT.ReadLine | DynamicProgramming/TwoSAT.java:37-53 | one line read, or the whole file fails |
| TwoSat.TwoSAT.Reverse | DynamicProgramming/TwoSAT.java:81 | the incoming lists 0..nodes - 1 form a graph with heads from 2 |
| TwoSat.TwoSAT.Forward | DynamicProgramming/TwoSAT.java:109 | the outgoing lists 0..nodes - 1 form a graph with heads from 2 |
| TwoSat.TwoSAT.FirstPass | DynamicProgramming/TwoSAT.java:65-92 | a fresh array: 0 at 0 and 1, then the first pass's order of 2..N - 1 on the incoming lists |
| TwoSat.TwoSAT.SecondPass | DynamicProgramming/TwoSAT.java:94-122 | true exactly when no symbol's vertex has the same leader as its negation's in the second pass |
| TwoSat.TwoZeros | DynamicProgramming/TwoSAT.java:66-67 | an array starting 0, 0 is [0, 0] followed by the rest |
| TwoSat.LeaderSearch | DynamicProgramming/TwoSAT.java:104-111 | the search loop marks and finds as Explore, and gives exactly the found vertices the start as leader |
| TwoSat.Expand | DynamicProgramming/TwoSAT.java:105-110 | one turn of the search loop keeps its invariant and the stack or the unexplored count shrinks |
| TwoSat.AssignLast | DynamicProgramming/TwoSAT.java:108 | assigning one more vertex is one more update of the table |
| TwoSat.Leaders | DynamicProgramming/TwoSAT.java:94-113 | a fresh leader table that is the second pass's, vertex by vertex |
| TwoSat.Visit | DynamicProgramming/TwoSAT.java:100-112 | one turn of secondPass's for loop keeps its invariant |
| TwoSat.TreesAssoc | DynamicProgramming/TwoSAT.java:100-112 | searches done plus one plus those pending do not depend on grouping |
| TwoSat.Check | DynamicProgramming/TwoSAT.java:117-121 | true exactly when every pair 2k, 2k + 1 below nodes has different leaders |
| TwoSat.Solve | DynamicProgramming/TwoSAT.java:130-136 | fails exactly when the file throws; otherwise main's verdict on the instance |
| TwoSat.ClausesNext | DynamicProgramming/TwoSAT.java:36-54 | the clauses of the first i lines grow by one line at a time |
| TwoSat.ClausesFail | DynamicProgramming/TwoSAT.java:36-54 | a line that throws fails the whole file |
| HuffmanTree.Symbol | GreedyAlgorithms/Huffman/Tree.java:22-47 | a symbol tree is a single well-formed leaf whose only leaf is (ID, weight) and which has no internal node |
| HuffmanTree.Merge | GreedyAlgorithms/Huffman/Tree.java:30-53 | the merged tree is an internal node with ID -1 over the two roots; its leaves are the left leaves then the right leaves, its leaf total is the sum and it has one more internal node |
| HuffmanTree.WeightIsSum | GreedyAlgorithms/Huffman/Tree.java:51-56 | every node's weight is the 32-bit wrapped sum of the weights of the leaves below it |
| HuffmanTree.Weight | GreedyAlgorithms/Huffman/Tree.java:56 | the weight of a well-formed tree is an int, the 32-bit wrapped sum of its leaf weights |
| HuffmanTree.LeavesAndMerges | GreedyAlgorithms/Huffman/Tree.java:40-53 | a tree built by merges has one more leaf than internal nodes |
| HuffmanTree.CompareTo | GreedyAlgorithms/Huffman/Tree.java:59-64 | compareTo is -1, 0 or +1 exactly when the first weight is less than, equal to or greater than the second |
| HuffmanTree.CompareOrder | GreedyAlgorithms/Huffman/Tree.java:59-64 | compareTo is antisymmetric and transitive, so it is a valid ordering of trees |
| HuffmanTree.Codes | GreedyAlgorithms/Huffman/Tree.java:67-77 | the codes a traversal assigns: at least one (ID, code) pair per tree |
| HuffmanTree.CodesExtend | GreedyAlgorithms/Huffman/Tree.java:67-77 | every code assigned below a node starts with that node's current code |
| HuffmanTree.CodesPrefixFree | GreedyAlgorithms/Huffman/Tree.java:67-77 | no assigned code is a prefix of another: the code is prefix-free |
| HuffmanTree.Apart | GreedyAlgorithms/Huffman/Tree.java:74-76 | codes continuing a common prefix with different bits are not prefixes of one another |
| HuffmanTree.CodesDepths | GreedyAlgorithms/Huffman/Tree.java:67-77 | each code's length is the depth of its leaf |
| HuffmanTree.CodesLeaves | GreedyAlgorithms/Huffman/Tree.java:68-71 | the codes are assigned one per leaf, in leaf order, to each leaf's ID |
| HuffmanTree.Encoded | GreedyAlgorithms/Huffman/Tree.java:70 | writing a list of codes into the list at their IDs keeps its length |
| HuffmanTree.EncodedAppend | GreedyAlgorithms/Huffman/Tree.java:74-76 | writing the left codes then the right codes is writing their concatenation |
| HuffmanTree.IdsCons | GreedyAlgorithms/Huffman/Tree.java:70 | the IDs of a list of codes are its head's ID and its tail's, and distinct IDs stay distinct in the tail |
| HuffmanTree.EncodedMeaning | GreedyAlgorithms/Huffman/Tree.java:70-88 | with distinct IDs every leaf's entry holds its code and every other entry is unchanged |
| HuffmanTree.SameFirsts | GreedyAlgorithms/Huffman/Tree.java:70 | two code lists with the same IDs position by position have the same ID sets, distinctness and bounds |
| HuffmanTree.SidesFit | GreedyAlgorithms/Huffman/Tree.java:74-76 | if the IDs below a node fit the list, so do those below each child |
| HuffmanTree.IdsBelowSplit | GreedyAlgorithms/Huffman/Tree.java:74-76 | the IDs of a concatenation fit exactly when those of both halves fit |
| HuffmanTree.GenerateEncodes | GreedyAlgorithms/Huffman/Tree.java:67-77 | the list afterwards is the old list with every leaf's code written at its ID |
| HuffmanTree.Blank | GreedyAlgorithms/Huffman/Tree.java:82-85 | the initial list has the given length and every entry empty |
| HuffmanTree.GetEncodingList | GreedyAlgorithms/Huffman/Tree.java:80-91 | a fresh list of nodes + 1 entries: the empty list with every leaf's code written at its ID |
| HuffmanTree.EncodingList | GreedyAlgorithms/Huffman/Tree.java:80-91 | every leaf's ID holds its code and every index of no leaf holds the empty string |
| HuffmanTree.SingleSymbol | GreedyAlgorithms/Huffman/Tree.java:68-88 | a tree of one symbol encodes that symbol as the empty string |
| Huffman.ForestAppend | GreedyAlgorithms/Huffman/Huffman.java:47-48 | the leaves and the weight total of two lists of trees side by side are those of each list added up |
| Huffman.ForestRemove | GreedyAlgorithms/Huffman/Huffman.java:53-54 | removing one tree from the queue removes exactly its leaves and its weight from the queue's totals |
| Huffman.ForestSingle | GreedyAlgorithms/Huffman/Huffman.java:62 | a queue of one tree has that tree's leaves and weight |
| Huffman.ForestAdd | GreedyAlgorithms/Huffman/Huffman.java:48-58 | adding a tree to the queue adds its leaves and its weight |
| Huffman.LightestExists | GreedyAlgorithms/Huffman/Huffman.java:53 | a non-empty queue has a tree that no other tree compares below |
| Huffman.Poll | GreedyAlgorithms/Huffman/Huffman.java:53-62 | poll returns a lightest tree of the queue and leaves the others, one fewer, all well formed |
| Huffman.SymbolsOf | GreedyAlgorithms/Huffman/Huffman.java:30-39 | the weight lines parse exactly when every line is an int, and then give one symbol tree per line with IDs 1, 2, ... and the parsed weights |
| Huffman.Input | GreedyAlgorithms/Huffman/Huffman.java:26-42 | an empty file gives symbolCount 0 and no symbols; otherwise the file loads exactly when the first line and every weight line parse, and then symbolCount is the first line and the symbols those of the remaining lines |
| Huffman.InputNumbered | GreedyAlgorithms/Huffman/Huffman.java:30-38 | the loaded symbols are single leaves numbered 1, 2, ... in line order |
| Huffman.SymbolLeaves | GreedyAlgorithms/Huffman/Huffman.java:38 | the leaves of the numbered symbols are (k + 1, weight of line k) in order |
| Huffman.SymbolIds | GreedyAlgorithms/Huffman/Huffman.java:30-38 | the IDs the counter hands out for n lines are exactly 1..n |
| Huffman.AtMostOnce | GreedyAlgorithms/Huffman/Huffman.java:30-38 | leaves with pairwise distinct IDs each occur at most once |
| Huffman.TwoPositions | GreedyAlgorithms/Huffman/Huffman.java:30-38 | a leaf at two positions of a list occurs twice in its multiset |
| Huffman.SameIds | GreedyAlgorithms/Huffman/Huffman.java:30-38 | any rearrangement of leaves numbered 1..n has distinct IDs, and they are 1..n |
| Huffman.TreeIds | GreedyAlgorithms/Huffman/Huffman.java:62-69 | a tree holding exactly the loaded symbols' leaves assigns codes to distinct IDs, 1..n |
| Huffman.Encodings | GreedyAlgorithms/Huffman/Huffman.java:67-69 | for the final tree and at least as many slots as symbols: codes go to IDs 1..n, fit the list, are prefix-free, each symbol's entry holds its code and every other entry is empty |
| Huffman.Huffman.constructor | GreedyAlgorithms/Huffman/Huffman.java:16-26 | no symbols and symbolCount 0 |
| Huffman.Huffman.Load | GreedyAlgorithms/Huffman/Huffman.java:20-43 | the constructor on the file's lines succeeds exactly when the input parses, and then holds symbolCount and the symbols of Input |
| Huffman.Huffman.ReadSymbols | GreedyAlgorithms/Huffman/Huffman.java:37-39 | succeeds exactly when every line parses, then holds those symbols; symbolCount is unchanged |
| Huffman.Huffman.ProcessSymbols | GreedyAlgorithms/Huffman/Huffman.java:45-63 | no symbols gives null; otherwise one well-formed tree whose leaves are exactly the symbols, whose weight is the wrapped total, built by exactly n - 1 merges |
| Huffman.Combine | GreedyAlgorithms/Huffman/Huffman.java:51-59 | one round of the loop: one tree fewer, the same leaves and the same total weight |
| Huffman.MergeKeeps | GreedyAlgorithms/Huffman/Huffman.java:53-58 | polling two trees and adding their merge keeps the queue's leaves and total weight |
| Huffman.ForestGrow | GreedyAlgorithms/Huffman/Huffman.java:48-58 | adding a well-formed tree keeps the queue well formed |
| TwoSum.SumOf | DSAApplications/TwoSum.java:80 | (int) (number + key) is an int, the 32-bit wrap of the exact sum |
| TwoSum.SumsWithAdd | DSAApplications/TwoSum.java:79-82 | adding one more key adds exactly its sum with the number to the set of sums |
| TwoSum.SumsAdd | DSAApplications/TwoSum.java:66-87 | processing one more distinct number adds exactly the sums of its window to the HashSet |
| TwoSum.KeysAdd | DSAApplications/TwoSum.java:49-51 | the TreeMap's keys after one more value are the earlier keys plus that value |
| TwoSum.ExactWindow | DSAApplications/TwoSum.java:71-80 | for a value of magnitude at most 2^62, a key is in subMap(leftRange - x, rightRange - x) exactly when x + key lies in [leftRange, rightRange], the cast then keeps the sum, and the bounds are ordered exactly when the range is |
| TwoSum.ExactSums | DSAApplications/TwoSum.java:57-89 | for values of magnitude at most 2^62 the HashSet collects exactly the targets of the range that are the sum of two input values |
| TwoSum.ExactSum | DSAApplications/TwoSum.java:79-81 | every sum added to the HashSet is a target in range that is a sum of two input values |
| TwoSum.ExactTarget | DSAApplications/TwoSum.java:66-87 | every target in range that is a sum of two input values is added to the HashSet |
| TwoSum.CountMeaning | DSAApplications/TwoSum.java:57-89 | the count fails (subMap throws) exactly for an inverted range over a non-empty input; otherwise it is the number of targets in range that are sums of two input values |
| TwoSum.CountOfKeys | DSAApplications/TwoSum.java:47-88 | the count depends only on the set of distinct values read |
| TwoSum.ReturnTreeMap | DSAApplications/TwoSum.java:47-53 | the map's keys are the distinct values and every flag is false |
| TwoSum.AddSums | DSAApplications/TwoSum.java:79-82 | the HashSet afterwards is the old set plus the wrapped sums of the number with every key |
| TwoSum.CountTwoSumsInRange | DSAApplications/TwoSum.java:57-89 | the result is Count: the size of the HashSet of wrapped sums, or failure where subMap throws |
| TwoSum.Step | DSAApplications/TwoSum.java:66-87 | one round of the loop succeeds exactly when the window bounds are ordered, and then marks the number done and adds the sums of its window |
| TwoSum.Visit | DSAApplications/TwoSum.java:71-85 | processing an unmarked number adds the wrapped sums of the number with every key of its window |

## Left out

- **File and console I/O.** Excluded: reading files (`loadFile`, `loadIntegerArrayFromFile`, `loadJobsFromFile`, the readers in the constructors), `writeIntegerArrayToFile`, every `main` method's printing, every `print*` method, and the `System.currentTimeMillis` timing. A file a parser reads is given as its lines or its text.
- TwoSum.CountTwoSumsInRange: the values are given as a sequence of longs. `loadFile`'s `Long.parseLong` of each line is not modelled.
- **Floating-point code.** `TSPApprox.java`, the float dynamic program of `TSP.java` (`shortestTour`, `computeNextSubProblems`, `computeDistances`, `distance`) and `JobRatioComparator` work on `float`/`double` and `Math.hypot`. They are not part of this model.
- **KargerMinCut.** `Graphs/KargerMinCut.java` is randomized and its contraction step is empty, so it is not part of this model.
- **Edge and Job holders.** The `Edge` and `Job` holder classes become datatype fields with no contracts of their own.
- RSelect.FindOrderedStatistic: `ThreadLocalRandom.nextInt` is replaced by the `draw` parameter, so the expected running time is not modelled.
- **Java library tie-breaking.** How `PriorityQueue` orders equal elements is Java's choice. Huffman.Poll returns some lightest tree, and the Kosaraju queue is a multiset.
- **Runtime exceptions.** Calls that would throw are excluded by `requires`, except where the exception decides a result: an empty Huffman file, a failing `parseInt`, a `subMap` with inverted bounds in TwoSum, and array overflow in `gosperHack`. The excluded calls are:
  - `extractMinKey`/`peekMinNode` on an empty `CustomHeap`;
  - `decreaseKey`/`deleteNode` of an absent node;
  - vertices outside 0..N in the graph methods.

  Vertex 0 as an edge head, and node 0 of `CustomHeap`, do not throw in Java. They are excluded all the same; the lines for BellmanFord.ComputeShortestPath, Dijkstra.Dijkstra.ComputeShortestPaths, Prim.PrimMST.ComputeMSTCost and IndexedHeap.CustomHeap.DecreaseKey below say what Java does with them.
- ScheduleJobs.ComputeCompletionTime: the long accumulators are exact. The 64-bit wrap-around is not modelled, because it needs sums above 2^63.
- Median.Run: the long `medianSum` and the int `count` are exact. They could only wrap after more than 2^31 keys.
- Knapsack.ProcessSmallKnapsack: item weights must be non-negative, and value sums are exact. The same holds for Knapsack.ProcessBigKnapsack.
- MWISGraph.ProcessGraph: requires at least one vertex. With none, `solutions[1]` is out of bounds in the source.
- MWISGraph.ProcessGraph: the sum `solutions[i - 2] + pathGraph.get(i - 1)` (MWISGraph.java:45) is an exact integer. Java's int sum wraps once the weights add up past Integer.MAX_VALUE.
- MWISGraph.ReconstructSolutions: the same sum in the test at MWISGraph.java:56 is an exact integer, with no int wrap-around.
- TSP.ComputeNumberOfSubsets: the product `subsets * (N - i)` is an exact integer. In Java it overflows for large N, for example N = 30 and k = 15.
- TSP.GosperHack: requires at most 31 cities and a subset size of at most 30, so that every shift stays within an int. With 32 cities or more, `1 << (cities - 1)` wraps in Java and the loop is not modelled.
- TSP.GosperHack: because TSP.ComputeNumberOfSubsets is exact, the model returns Some where Java throws in one case of its domain, 31 cities with subset size 15. There computeNumberOfSubsets(30, 15) wraps: C(30, 14) * 16 = 2326762800 becomes -1968204496, and dividing by 15 gives -131213633 (TSP.java:120). Java then throws NegativeArraySizeException at `new int[subsetCount]` (TSP.java:98-99). For every other N <= 30 and subset size 1..30 the int loop gives C(N, k) exactly, or 1 when the size exceeds N.
- Prim.PrimMST.ComputeMSTCostRepaired: the result is not proved to be the cost of a minimum spanning tree. What is proved is the cut property of every key taken and that every key is finite on a connected graph.
- Kosaraju.TopComponents: requires that no edge leaves vertex 0. An edge from 0 to another vertex v lets the search from v in `firstPass` reach 0, so N vertices are written from index 1 and `finishingTimes` overflows. That ArrayIndexOutOfBoundsException is not modelled as an error result. The requirement also excludes a harmless input: a graph whose only edges out of 0 are self-loops 0 -> 0. Their reverse is again 0 -> 0, and the searches of `firstPass` start from N - 1 down to 1, so none reaches vertex 0 and nothing is written out of bounds. An empty edge file produces exactly that self-loop (Directed.TextGraphOfEmpty), so main on an empty edge file is not covered. The same holds for Kosaraju.TopComponentsRepaired.
- StackSearch.FirstPass: the passes record vertices in reverse discovery order, not in depth-first finishing order. So neither Kosaraju nor the 2-SAT solver is proved to compute strongly connected components or satisfiability; the model states what the passes compute.
- TwoSat.Solve: the passes require Usable: an even vertex count of at least 2, with every literal of every clause within the symbols 1..n. Some inputs outside Usable make the source index outside its lists, for example a literal n + 1, whose negation is vertex 2n + 3 of lists 0..2n + 2; these are not modelled as errors. Usable also excludes inputs the source handles without an exception, and Solve promises nothing for them: a first line of -1, which gives 0 vertices, so every loop of the passes runs zero times and main prints true; and clauses that use symbol 0, such as the lines "1" and "0 0", whose vertices 0 and 1 no search of either pass starts from or reaches, so main prints true.
- HammingClustering.BigClustering.ProcessLabels: `bruteForce` is not modelled. Proved: labels within Hamming distance two end in the same set. The converse, that nodes in one set are linked by a chain of close labels, is not proved.
- Huffman.Huffman.ProcessSymbols: the resulting code is not proved optimal. The ID counter's wrap-around after 2^31 symbols is not modelled.
- Huffman.Encodings: the final `getEncodingList(symbolCount)` call is covered only when symbolCount is at least the number of weight lines. With fewer, `encodes.set` throws, and that is not modelled.
- TwoSum.CountMeaning: the count is related to the exact sums only for values of magnitude at most 2^62. Beyond that the long differences wrap; the model still computes them as Java does.
- GenericHeap.GenericMinHeap.Insert: keys are ints compared as `Integer.compareTo` compares them, not arbitrary `Comparable`s.
- IndexedHeap.CustomHeap.HeapifyDown: `parent`, `leftChild` and `rightChild` are inlined as index arithmetic. Within the loop guard, their ArithmeticException can only be raised for index 0, where the sift stops, as in the source.
- Dijkstra.Dijkstra.ComputeShortestPaths: requires every edge head to lie in 1..n (Walks.HeadsIn). Java accepts head 0 without an exception: node 0 is never marked, so its offer reaches `decreaseKey(0, k)`, which only overwrites the unused key of slot 0 (see IndexedHeap.CustomHeap.DecreaseKey), and `paths[0]` stays -1. The model does not cover these graphs. The same holds for Dijkstra.Dijkstra.ComputeShortestPathsRepaired and for Prim.PrimMST.ComputeMSTCost, whose offers (PrimMST.java:38-40) go to slot 0 in the same way.
- IndexedHeap.CustomHeap.DecreaseKey: requires a node that is in the heap, which excludes node 0. Java does not throw for node 0: the constructor maps node 0 to slot 0 in both maps (CustomHeap.java:25-29), so `decreaseKey(0, k)` overwrites slot 0's key when k is smaller, and `heapifyUp(0)` does nothing. No heap operation reads slot 0, so nothing else changes.
- Dijkstra.Dijkstra.ComputeShortestPathsRepaired: besides the sift-down repair, the offer `weight + currentDistance` is an exact sum. The model of the code as written, Dijkstra.Dijkstra.ComputeShortestPaths, wraps it as Java does.
- Johnson.ProcessedEntry: the sums of `generateReweightedGraph` and `processPaths` are exact. The corrected path bounds them so that they fit an int.
- BellmanFord.ComputeShortestPath: requires every edge head to lie in 1..nodes (Walks.HeadsIn). Java accepts head 0 and relaxes into `paths[0]` like any vertex, but never relaxes vertex 0's own list, because tails run from 1 (BellmanFord.java:32). So entry 0 can still change in round nodes. With nodes = 1, source 1 and the single edge 1 -> 0 of weight 5, round 1 changes `paths[0]`, the loop ends, and Java reports a negative cycle and returns null, though the graph has no cycle. The model promises nothing for such graphs, and neither do the Johnson members built on it.
- BellmanFord.ComputeShortestPath: the int computation agrees with the walk-based relaxation Best only while no sum can leave the int range (Fits). Outside it, the result is the wrapped computation as written, with no meaning proved.
- JavaText.ParseInt: only ASCII digits and an optional leading sign are accepted, so the non-ASCII digits `Integer.parseInt` also accepts are not modelled.
- WeightedDirected.WeightedDirectedGraph.ReadAdjacencyLines: when a line fails to parse, the edges the source had already added from that line are not modelled. The whole load fails.
- **Printing.** `printGraph`, `printSubproblems` and the other printing methods are not modelled.
- QuickSort.QuickSort.SortArray: the counter update `comparisons += right - left` (QuickSort.java:90) is an exact integer. The int field `comparisons` would wrap in Java past Integer.MAX_VALUE comparisons.

## Findings

| source | as written | input that shows it | evidently intended | confidence | as-written member | corrected member |
|---|---|---|---|---|---|---|
| Graphs/Literals/CustomHeap.java:87 | `heapifyDown` loops only while `2 * index + 1 < keys.size()`. A node whose only child is a left child is never compared with it, so the branch at lines 101-104 is unreachable. | Keys [MAX, 1, 2, 10]: `extractMinKey` leaves [MAX, 10, 2], which is not a heap. In Dijkstra this means a node can be extracted before a smaller key; a hand trace with N = 4, source 1 and edges 1->2 (1), 1->3 (10), 1->4 (2), 4->3 (1) reports 10 for node 3, whose distance is 3. | The sift-down also swaps with a smaller lone left child and keeps the full heap order. | not executed; proved for the heap input, the Dijkstra trace by hand | IndexedHeap.LoneLeftChildSkipped | IndexedHeap.CustomHeap.HeapifyDownRepaired |
| DataStructures/MaxHeap.java:75 | The same loop guard in the max-heap's `heapifyDown`. | Keys [0, 10, 9, 1]: `extractMaxKey` leaves [0, 1, 9], which is not a max-heap. | The sift-down also compares a lone left child and keeps the max order. | not executed | MaxKeyHeap.LoneLeftChildSkipped | MaxKeyHeap.SinkRestores |
| Graphs/JohnsonAPSP.java:15, 26, 62 | `weights` is allocated and passed to `generateReweightedGraph`, but it is never assigned from the Bellman-Ford result. The reweighting is the identity, and Dijkstra runs on negative edges. | Edges 1->2 (2), 1->3 (1), 2->3 (-2): the reweighted graph is the original, which keeps the negative edge. The walk 1->2->3 weighs 0, below the edge 1->3 of weight 1, at which Dijkstra settles node 3 (hand trace). | `weights` holds the Bellman-Ford distances from the virtual source, so every reweighted edge is non-negative and every entry is the shortest distance. | not executed | Johnson.ZeroWeightsKeepNegativeEdge | Johnson.JohnsonAPSP.AllPairsRepaired |
| Graphs/Kosaraju.java:76-79 | The queue is polled when it holds more than five sizes, and only then is the new size offered. It ends holding a sixth size, which may be smaller than the five largest; none of the five largest is lost (Kosaraju.NeverDropsTop). | Component sizes 2, 3, 4, 5, 6, 7, 1 in that order: the queue ends with {1, 3, 4, 5, 6, 7}. | Offer first, then poll, keeping exactly the five largest sizes. | not executed | Kosaraju.SixLeaders | Kosaraju.TopComponentsRepaired |
| Graphs/Dijkstra.java:51 | `edge.weight() + currentDistance` is an int sum. A node the source does not reach leaves the heap at Integer.MAX_VALUE, so its offers wrap to a negative key. | N = 3, source 1, the single edge 3->2 of weight 5: node 3 is extracted at MAX_VALUE and offers a sum that wraps to -2147483644. | Unreachable nodes keep their distance and offer nothing: skip them, or add without wrap-around. The comment at Dijkstra.java:34 says an unreachable node's length is -1. The constructor does write -1 (line 28), but every node is extracted and overwritten at line 45, so the code reports Integer.MAX_VALUE; the corrected member keeps that value. | not executed; the sum is proved, the trace on the heap by hand | Dijkstra.UnreachableOfferWraps | Dijkstra.Dijkstra.ComputeShortestPathsRepaired |
| DataStructures/MaxHeap.java:38, 47 | `leftChild` throws only when `2 * pos > keys.size()`, and `rightChild` only when `2 * pos + 1 > keys.size()`. Both accept an index one past the last slot. | One key: `leftChild(1)` returns 2, the size of the list. Two keys: `rightChild(1)` returns 3. | Throw when the child index reaches `keys.size()`. The guard of `heapifyDown` keeps both calls in range, so the bug is latent. | not executed | MaxKeyHeap.ChildPastEnd | MaxKeyHeap.ChildrenInLoop |
