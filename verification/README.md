# A verified model of the algorithms in this repository

The repository collects small C programs. This project models the parts of it that compute something
hard to get right, in Dafny, and proves what they promise:

- **algolib**: five sorts, a linked list with a queue and a set on top, a directed graph, and the
  breadth-first and depth-first searches of that graph.
- **tdune/glSDL.c**: how a long image is chopped into tiles, packed into power-of-two textures and drawn
  from there again.
- **cserver**: the list of connected clients, shared by the threads of a chat server.
- **tdune/map.c**: the terrain generator that walks over the map.

The code that works in place is modelled in place: lists are linked nodes, sorts work on arrays, the graph
and its vertex records are objects whose fields the searches write. Each method is proved against a
specification on plain sequences, sets and integers, and the laws are lemmas about that specification.

| files | model |
|---|---|
| `Ordering` | three-way comparisons, stable sorts, and why a stable sort is unique |
| `InsertionSort`, `HoarePartition`, `PartitionExchanges`, `QuickSort`, `QuickSortEnding`, `MergeSort`, `CountingSort`, `RadixSort`, `SortsAgree` | the sorts of algolib |
| `LinkedList`, `Queue`, `MatchSet` | list.c (of algolib and of cserver), queue.c, set.c |
| `Digraph`, `GraphRows`, `Graph` | paths; what a graph denotes and what its calls do; the graph as objects |
| `BfsTheory`, `Bfs`, `DfsTheory`, `DfsOrder`, `Dfs` | the two searches: their invariants on values, the exact order of the second, and the searches themselves |
| `Chop`, `Upload`, `Blit`, `BlitDown`, `BlitSurface`, `Arithmetic` | image tiling |
| `ClientList`, `ClientRegistry` | the client list of the chat server, and what every interleaving of its threads makes of it |
| `TerrainWalk`, `TerrainTarget`, `Terrain` | the terrain generator: its walk, what target it can meet, and the painting itself |
| `Wrappers` | optional values |

## Results where the code does not do what it seems to

- **Quicksort can fail to make progress, and to end.** When the pivot is drawn from the last slot and is strictly
  the largest element, the partition returns the whole range and the left call gets the caller's own range.
  `HoarePartition.PartitionSplits` says that this happens exactly then. `QuickSort.RunOf` is the run that a stream
  of draws produces, with the places of those draws. The sort performs it (`QuickSort.QkSort`) and ends within a
  given patience if and only if the run, followed as far as one likes, has no more such draws than that
  (`QuickSort.FinishesIff`). It never ends if and only if it comes to a call on a range with its strict maximum in the
  last slot, from which on every pivot is drawn from that slot (`QuickSortEnding.NeverEndsIff`). So two ascending
  elements are never sorted when every draw hits the last slot, and always otherwise (`QuickSort.PairEndsIff`), which
  is when three values drawn for a pivot have two even ones among them (`QuickSort.PairEndsOnDraws`).
- **Merge sort is not stable but the opposite.** Ties are taken from the right run at every level, so elements
  that tie end up in exactly the reverse of their order (`SortsAgree.MergeSortReversesTies`). The result is the
  stable sort if and only if every class of ties reads the same backwards (`SortsAgree.MergeSortStableIff`), and two
  different elements that tie do not (`SortsAgree.MergeSortUnstable`).
- **Vertically tiled images are drawn wrongly in some cases.** The blit computes a tile's texture and column as
  if tiles could straddle texture borders. A part of an image is drawn right if and only if the tile width
  divides the texture size, or the part begins in the first texture and the gaps that the textures before its
  last one leave at their right edge do not add up to a tile (`BlitDown.DownExactIff`). All parts are drawn right
  if and only if there is one texture or no gap (`BlitDown.AllExactIff`). Otherwise the first tile of the second
  texture, drawn on its own, shows texels that were never uploaded (`BlitDown.SeamUndefined`). A whole image is
  drawn right whenever its best size is within the limit (`BlitDown.FittingWholeExact`), but not one of 100 by
  1500 with textures limited to 256 (`BlitDown.TallChopped`, `BlitDown.TallWrong`).
- **The terrain generator hardly ever paints as much as it is asked for.** Every visit of its walker uses up the
  counter of painted cells too: n visits paint at most target + 5 - n cells (`TerrainTarget.VisitsUseUp`). There are
  a map, a start and draws by which a target is met if and only if it is at most 28 and not 1
  (`TerrainTarget.CanBeMetIff`); the maps of the game ask for 102 and more. Nor is the walk a
  random one. Whatever is drawn, the last look of a visit is one column to the left, so the walker marches off the
  map, and at most six cells are painted for each column up to the one right of its start
  (`TerrainWalk.MarchesLeft`, `TerrainWalk.PaintedByColumns`). On an n by n map that is at most
  6 * (n + 1) cells, which on 256 by 256 is less than a twentieth of what is asked for (`TerrainWalk.FallsShort`).
- **The terrain generator is safe on square maps only.** Rows are allocated by the width but selected by the
  height. On any other map there is a start from which the very first look is outside (`TerrainWalk.LooksSafeIff`).
- **A chat client can be dropped for another one, and its record freed under it.** A leaving thread removes its
  own record if and only if no newer live client has the same id (`ClientRegistry.LeavesExactlyIff`). Otherwise it
  drops and frees the record of that client, whose thread goes on using it. Over a whole run no thread loses its
  record if and only if none leaves in that situation (`ClientRegistry.SafeRunIff`), and then no bug is reported
  (`ClientRegistry.NeverOvertakenNoBug`). A thread that leaves on a freed record reads some id or other there. A
  bug report is possible if and only if a thread can come to that (`ClientRegistry.BugPossibleIff`).

## Model

| member | source | states |
|---|---|---|
| `Ordering.SortedClassesUnique` | algolib/include/sort.h:4-15 | Two sorted sequences whose ties stand in the same order are equal, so a sorting result is fixed by its order and its treatment of ties |
| `Ordering.StableSortUnique` | algolib/source/issort.c:19-33 | There is only one stable sort of an input, and it is a permutation of it |
| `InsertionSort.Insert` | algolib/source/issort.c:21-31 | The inner loop stops behind the last element that is not larger, shifts the larger ones up by one and puts the key in the gap |
| `InsertionSort.Inserted` | algolib/source/issort.c:19-33 | Putting the key behind everything that is not larger extends a stable sort by one element |
| `InsertionSort.Issort` | algolib/source/issort.c:6-39 | The array becomes the stable sort of what it held, for every total preorder |
| `Ordering.FilterPicks` | algolib/source/set.c:105-121 | A filter takes exactly the elements that pass the test, at ascending positions: what the stable sorts and the set operations are stated with |
| `Ordering.ReadsBackwards` | algolib/source/mgsort.c:53-67 | A reversed sequence has its elements at the mirrored positions |
| `HoarePartition.DrawnFacts` | algolib/source/qksort.c:37-39 | A draw lies in the range and differs from its start plus the value by whole ranges |
| `HoarePartition.PivotIsMiddle` | algolib/source/qksort.c:37-41 | Of the three values, each modulo the length of the range, the pivot comes from one with two not above it and two not below it |
| `HoarePartition.PivotIndex` | algolib/source/qksort.c:37-41 | The pivot index is the middle one of three draws, each a value of the generator reduced to the range, obtained by the insertion sort; exactly three values are drawn |
| `HoarePartition.ScanDown` | algolib/source/qksort.c:48-52 | The downward scan stops at the first element not above the pivot and never leaves the range |
| `HoarePartition.ScanUp` | algolib/source/qksort.c:54-58 | The upward scan stops at the first element not below the pivot and never leaves the range |
| `HoarePartition.LastRound` | algolib/source/qksort.c:46-79 | When the scans have met, the two sides are bounded by the pivot, and the right side is empty exactly when the pivot came from the last slot and is strictly the largest |
| `HoarePartition.PartitionSplits` | algolib/source/qksort.c:43-79 | The partition only permutes its range; all of the left side is at most the pivot and all of the right side at least; the right side is empty exactly for a strict maximum in the last slot, and then nothing has moved |
| `HoarePartition.Split` | algolib/source/qksort.c:43-79 | The loop performs that partition in place, its scans never leaving the range |
| `HoarePartition.Partition` | algolib/source/qksort.c:17-81 | The same for a pivot drawn at random, with exactly three draws |
| `PartitionExchanges.PartitionExchanges` | algolib/source/qksort.c:43-79 | The elements not below the pivot, from the left, and those not above it, from the right, change places in pairs until the scans meet, and nothing else moves; the index returned is where the downward scan stops |
| `PartitionExchanges.OutcomeUnique` | algolib/source/qksort.c:43-79 | That settles the partition: only one arrangement and one index are like this |
| `QuickSort.BothDone` | algolib/source/qksort.c:93-97 | Sorting the two sides of a partition one after the other sorts and permutes the range |
| `QuickSort.RunGood` | algolib/source/qksort.c:83-103 | For every stream of draws: a run permutes its range; the draws that it counts as making no progress are such draws, in order, each at a whole number of pivot draws; a run that ends leaves the range sorted, after one partition for each element but one and one more for each such draw |
| `QuickSort.QkSort` | algolib/source/qksort.c:83-103 | Performs the run of its stream of draws, up to the given number of draws without progress |
| `QuickSort.ArrangedMeans` | algolib/source/qksort.c:83-103 | Element by element: nothing outside the range changes, the elements are the same, and the range is in order |
| `QuickSort.MorePatience` | algolib/source/qksort.c:83-103 | A run that ends is the same however long one watches it, and one that does not only shows more draws without progress |
| `QuickSort.FinishesIff` | algolib/source/qksort.c:83-103 | The sort ends within its patience if and only if its run never has more draws without progress than that |
| `QuickSort.FewStallsEnd` | algolib/source/qksort.c:83-103 | In particular it ends if the stream has no more places than that at which some part of some arrangement of the range could make no progress |
| `QuickSort.NeverFinishes` | algolib/source/qksort.c:90-97 | With the strict maximum in the last slot and every draw from there, it ends for no patience |
| `QuickSort.PairEndsIff` | algolib/source/qksort.c:90-97 | On two ascending elements it ends if and only if not every draw hits the last slot |
| `QuickSort.PairEndsOnDraws` | algolib/source/qksort.c:37-97 | In terms of the values drawn: it ends if and only if some pivot draw has at least two even values |
| `QuickSortEnding.EndsStep` | algolib/source/qksort.c:90-97 | The sort ends exactly when its left call does and then, on what that leaves, its right call |
| `QuickSortEnding.NeverEndsIff` | algolib/source/qksort.c:83-103 | For every range and stream, the sort does not end if and only if it makes a call on a range with the strict maximum in the last slot, from which on every pivot is drawn from that slot |
| `MergeSort.MergedClass` | algolib/source/mgsort.c:53-67 | In a merge the elements that tie come from the right run first |
| `MergeSort.MergedSorted` | algolib/source/mgsort.c:23-69 | The merge of two sorted runs is sorted |
| `MergeSort.FillBuffer` | algolib/source/mgsort.c:16-69 | The merging loops fill the buffer with the merge of the two runs |
| `MergeSort.Merge` | algolib/source/mgsort.c:6-77 | The merge replaces exactly the two runs |
| `MergeSort.MergedRuns` | algolib/source/mgsort.c:84-97 | Merging the stable sorts of two reversed runs gives the stable sort of both together reversed |
| `MergeSort.MgSort` | algolib/source/mgsort.c:79-101 | The range becomes the stable sort of itself read backwards, and the rest is untouched |
| `SortsAgree.MergeSortReversesTies` | algolib/source/mgsort.c:23-101 | That result is exactly the sorted permutation in which ties stand in the reverse of their input order, and it is unique |
| `SortsAgree.MergeSortStableIff` | algolib/source/mgsort.c:23-101 | It is the stable sort exactly when every class of ties of the input reads the same backwards |
| `SortsAgree.MergeSortUnstable` | algolib/source/mgsort.c:53-67 | Two different elements that tie change places, and that is not the stable sort |
| `CountingSort.SlotsDistinct` | algolib/source/ctsort.c:28-33 | No two elements are given the same slot |
| `CountingSort.SlotInRange` | algolib/source/ctsort.c:28-33 | Every slot lies inside the array |
| `CountingSort.CountKeys` | algolib/source/ctsort.c:19-23 | The counters hold how often each key occurs |
| `CountingSort.Accumulate` | algolib/source/ctsort.c:25-26 | The sums hold, for each key, one past the last slot of that key |
| `CountingSort.WriteNext` | algolib/source/ctsort.c:28-33 | The next element goes to a slot that no element before it went to, so what was written stays |
| `CountingSort.Place` | algolib/source/ctsort.c:28-33 | The backward loop writes its elements to the slots that are theirs, each slot once, in bounds, and leaves the stable sort by key |
| `CountingSort.BucketsAreStableSort` | algolib/source/ctsort.c:19-35 | The buckets one after the other are the stable sort by key |
| `CountingSort.CtSort` | algolib/source/ctsort.c:6-42 | On values in [0, k) the array becomes its stable sort, that is, ascending with the same elements; the elements, last to first, are written to slots that are all different and each keeps what was written to it |
| `RadixSort.DigitsLexicographic` | algolib/source/rxsort.c:32-36 | Comparing by n + 1 digits is comparing by the digit n first and by the n lower ones second |
| `RadixSort.StablePasses` | algolib/source/rxsort.c:27-54 | A stable pass by a second key over something stably sorted by a first key sorts stably by both |
| `RadixSort.RxSort` | algolib/source/rxsort.c:9-61 | On non-negative input the array becomes stably ordered by the value modulo k to the power p |
| `Arithmetic.PowSum` | algolib/source/rxsort.c:32-36 | Powers are repeated products |
| `RadixSort.OrderedByRemainder` | algolib/source/rxsort.c:27-54 | Element by element: ascending remainders modulo k to the power p, elements with the same remainder in their old order, and the same elements |
| `RadixSort.SortedBelowPower` | algolib/source/rxsort.c:27-54 | When all values are below k to the power p, that is the full stable sort: the same elements, ascending |
| `SortsAgree.SortsAgreeOnSmallInts` | algolib/source/ctsort.c:19-35 | On integers in [0, min(k, base^p)) whatever the five sorts may leave is the same array |
| `SortsAgree.RunAll` | algolib/include/sort.h:4-15 | Five equal arrays of integers in [0, min(k, base^p)) are equal again after each has gone through another of the five sorts, if the quicksort ends |
| `LinkedList.List.InsNext` | algolib/source/list.c:38-71 | Refines insertion behind an element of a sequence; the nodes stay acyclic, the size is the length and the tail is the last node or null |
| `LinkedList.List.RemNext` | algolib/source/list.c:73-111 | Refines removal behind an element, refused exactly when there is none, with the same invariant |
| `LinkedList.List.Destroy` | algolib/source/list.c:17-36 | Every element is destroyed once, in order, and the list is empty |
| `Queue.Enqueue` | algolib/source/queue.c:6-10 | Appends at the end |
| `Queue.Dequeue` | algolib/source/queue.c:12-16 | Takes the first element, refused exactly on an empty queue |
| `Queue.Run` | algolib/source/queue.c:6-16 | Over every sequence of calls, what was there and what was put in is what was taken out and what is left, in this order, and as many are taken out as are served |
| `Queue.LastStep` | algolib/source/queue.c:6-10 | What is put in by a sequence of calls, and how many removals it has |
| `Queue.Refused` | algolib/source/queue.c:12-16 | The number of refused removals is exactly the greatest excess, at any moment, of removals over what was there and what was put in |
| `MatchSet.SetAlgebra` | algolib/source/set.c:49-153 | Union, intersection and difference of duplicate-free sets are duplicate-free, hold the right members up to matching, and their sizes add up |
| `MatchSet.PickedMembers` | algolib/source/set.c:49-153 | Element by element and in order: the intersection has the members of the first set that match one of the second, the difference the others, and the union puts those of the second that match none of the first behind all of the first |
| `MatchSet.IsMember` | algolib/source/set.c:155-168 | True exactly when some member matches |
| `MatchSet.Insert` | algolib/source/set.c:17-24 | Appends unless a member matches, and keeps the set duplicate-free |
| `MatchSet.Remove` | algolib/source/set.c:26-47 | Removes the one matching member and nothing else, refused exactly when there is none |
| `MatchSet.Union` | algolib/source/set.c:49-95 | Leaves the first set followed by the unmatched members of the second |
| `MatchSet.Intersection` | algolib/source/set.c:97-124 | Leaves the members of the first set that match one of the second, in order |
| `MatchSet.Difference` | algolib/source/set.c:126-153 | Leaves the members of the first set that match none of the second, in order |
| `MatchSet.IsSubset` | algolib/source/set.c:170-186 | True exactly when every member of the first set matches one of the second, member by member and up to matching; the size test refuses nothing else |
| `MatchSet.IsEqual` | algolib/source/set.c:188-195 | True exactly when both inclusions hold, although only sizes and one inclusion are looked at |
| `GraphRows.VertexInsertion` | algolib/source/graph.c:51-84 | A vertex is refused exactly when one that matches it is stored; otherwise it comes last, without edges |
| `GraphRows.EdgeInsertion` | algolib/source/graph.c:86-125 | An edge is inserted exactly when both vertices are stored and it is not there; it comes last out of its vertex, and nothing else changes |
| `GraphRows.EdgeRemoval` | algolib/source/graph.c:176-198 | An edge is removed exactly when it is there, and nothing else changes |
| `GraphRows.VertexRemoval` | algolib/source/graph.c:127-174 | A vertex is removed exactly when it is stored without edges and no edge leads to it; the others keep their order |
| `GraphRows.CallKeeps` | algolib/source/graph.c:51-198 | Every call keeps vertices unmatched, adjacent sets duplicate-free and edges between stored vertices; it moves the vertex and edge counts by one exactly when it succeeds; a refused call changes nothing |
| `GraphRows.EveryRunCounts` | algolib/source/graph.c:51-198 | Over every sequence of calls the graph stays well formed, and the vertex and edge counts move by the insertions that succeed less the removals that do |
| `GraphRows.LastCall` | algolib/source/graph.c:51-198 | The calls of a sequence are performed from the first to the last |
| `GraphRows.EdgeCountIs` | algolib/source/graph.c:120-122 | The edge count is the number of pairs of vertices with an edge from one to the other |
| `GraphRows.InsertionUndone` | algolib/source/graph.c:86-198 | Removing the edge or vertex just inserted restores the graph |
| `GraphRows.RemovableIffIsolated` | algolib/source/graph.c:127-174 | A vertex can be removed exactly when it is stored and no edge leads to it or away from it |
| `GraphRows.VertexRemoved` | algolib/source/graph.c:127-174 | A vertex without edges into it can be dropped and every edge still leads to a stored vertex |
| `GraphRows.ResolvedWellFormed` | algolib/source/graph.c:200-224 | In a well-formed graph every edge target is found |
| `Graph.Graph.InsVertex` | algolib/source/graph.c:51-84 | Performs the call on the objects, with the counters; refused exactly when a stored vertex matches, and otherwise the old lists are followed by a new one for the vertex, without edges |
| `Graph.Graph.InsEdge` | algolib/source/graph.c:86-125 | Performs the call on the objects; refused when either vertex is missing or the edge is there, and then nothing changes |
| `Graph.Graph.RemVertex` | algolib/source/graph.c:127-174 | Performs the call on the objects; hands out the stored vertex; refused when there are edges in or out, and then nothing changes |
| `Graph.Graph.FindIsolated` | algolib/source/graph.c:137-162 | The one walk finds out whether the vertex is there and has no edge in or out |
| `Graph.Graph.RemEdge` | algolib/source/graph.c:176-198 | Performs the call on the objects and hands out the removed member |
| `Graph.Graph.GetAdjList` | algolib/source/graph.c:200-224 | Finds the list of the matching vertex, refused exactly when there is none |
| `Graph.Graph.IsAdjacent` | algolib/source/graph.c:226-249 | True exactly when the first vertex is stored and has an edge to the second |
| `Graph.Target` | algolib/source/dfs.c:21-26 | The lookup of an edge target in a traversal never fails and yields the stored vertex |
| `Digraph.DistanceSteps` | algolib/source/bfs.c:86-92 | The distance is 0 at the start only, elsewhere one more than that of some predecessor, and along an edge at most one more |
| `BfsTheory.DiscoverInv` | algolib/source/bfs.c:86-100 | Discovering a vertex keeps the invariant: queued hop counts do not fall and differ by at most one, each is the length of a path, finished edges are relaxed |
| `BfsTheory.FinishInv` | algolib/source/bfs.c:104-108 | So does finishing the head of the queue |
| `BfsTheory.EmptyQueueShortest` | algolib/source/bfs.c:68-117 | When the queue is empty every hop count is a shortest path length, or -1 for unreachable vertices |
| `BfsTheory.EmptyQueueColors` | algolib/source/bfs.c:68-117 | And the vertices with a hop count are finished, the others never met |
| `Bfs.Visit` | algolib/source/bfs.c:77-100 | One edge: the lookup succeeds and the records and the queue follow the invariant |
| `Bfs.Search` | algolib/source/bfs.c:68-117 | The loop ends with an empty queue and keeps the invariant |
| `Bfs.Bfs` | algolib/source/bfs.c:8-147 | Refused exactly when no stored vertex matches the start; otherwise each record holds the shortest path length or -1, and the list holds the records at the positions that can be reached, each once, in ascending order of position |
| `DfsTheory.DiscoverInv` | algolib/source/dfs.c:16-16 | Opening a vertex keeps the invariant of the search |
| `DfsTheory.FinishInv` | algolib/source/dfs.c:37-40 | Closing a vertex and putting it in front of the list keeps it |
| `DfsTheory.AllFinished` | algolib/source/dfs.c:46-82 | When all is finished the list is a reverse finishing order: each vertex once; every edge leads forward or lies on a cycle; a component stands, by one of its vertices, before everything it reaches but is not reached from |
| `DfsTheory.TopologicalIffAcyclic` | algolib/source/dfs.c:46-82 | The list is a topological order exactly when the graph has no cycle |
| `DfsOrder.ListedIff` | algolib/source/dfs.c:7-44 | A search from some starts lists exactly the vertices to which a path leads that avoids the vertices met before |
| `DfsOrder.ListedRoot` | algolib/source/dfs.c:16-40 | A start stands in front of what is listed from its own edges |
| `DfsOrder.ListedMore` | algolib/source/dfs.c:18-35 | What a later start finds is found without what has been listed, and is listed in front of it |
| `DfsOrder.EarlierStartsLast` | algolib/source/dfs.c:18-35 | What can be reached from the first of the starts comes behind everything that cannot |
| `DfsOrder.EarlierRootsLast` | algolib/source/dfs.c:59-78 | In the search of a whole graph, what can be reached from the first n stored vertices comes behind everything that cannot |
| `Dfs.DfsMain` | algolib/source/dfs.c:7-44 | The recursion terminates on every graph, never fails, finishes the vertex it was given and puts in front of the list exactly what a search from there lists |
| `Dfs.Dfs` | algolib/source/dfs.c:46-82 | The search returns 0 on every graph, cyclic or not, and lists the stored vertices in reverse finishing order, namely the one of a search that takes stored vertices and edges in their order |
| `Chop.SizeFits` | tdune/glSDL.c:205-207 | A size is enough for r rows exactly when the rows fit one below the other and the long side divided by r, rounded down, fits |
| `Chop.Pow2Iff` | tdune/glSDL.c:225-225 | The sizes that are tried are the powers of two, so doubling leads from each to the next |
| `Chop.LeastBelowDouble` | tdune/glSDL.c:225-225 | The least power of two that is large enough is 1 or less than double of what is needed |
| `Chop.GreedyStops` | tdune/glSDL.c:197-215 | When one more row is no improvement, no larger number of rows is, although the division rounds down |
| `Chop.SearchRows` | tdune/glSDL.c:197-215 | The greedy search finds the minimum of max(vw / r, r * vh) over all row counts |
| `Chop.NextPow2` | tdune/glSDL.c:225-225 | The least power of two that is large enough, within the limit: a power of two less than double of what is needed, or 1 |
| `Chop.ChopBounds` | tdune/glSDL.c:226-237 | The tiles cover the long side, fit their textures, and no tile or texture is empty |
| `Chop.TwoTextures` | tdune/glSDL.c:226-237 | When the best size fits the limit, two textures are enough |
| `Chop.ChoppedUnique` | tdune/glSDL.c:168-270 | Size and limit leave nothing open about the chopping |
| `Chop.CalcChop` | tdune/glSDL.c:168-270 | Texture size, tiles per texture, number of textures and tile mode as just said, for every surface whose shorter side fits: the texture size is a power of two, at least the best size as far as the limit allows and less than double of that; at most two textures when the best size fits; nothing is set otherwise |
| `Upload.UploadAcross` | tdune/glSDL.c:1528-1555 | The loop copies exactly the tiles of its texture, in order, each to its slot, the last one clipped |
| `Upload.UploadDown` | tdune/glSDL.c:1556-1584 | The same for a surface cut from top to bottom |
| `Upload.UploadTexture` | tdune/glSDL.c:1508-1591 | Uploads at least one tile into each texture and records its name |
| `Upload.UploadSurface` | tdune/glSDL.c:1593-1663 | Uploads every tile exactly once, unless all textures are there |
| `Upload.SurfacePartition` | tdune/glSDL.c:1527-1584 | Every point of the surface is read by exactly one of the copies, and no other point is |
| `Upload.StripInTexture` | tdune/glSDL.c:1527-1584 | Every copy lands inside its texture |
| `Upload.StripsDoNotOverlap` | tdune/glSDL.c:1527-1584 | No two copies overlap in a texture |
| `Upload.FirstStrip` | tdune/glSDL.c:1528-1584 | The first copy goes from the corner of the surface to the corner of the first texture |
| `Upload.PackedInOrder` | tdune/glSDL.c:1528-1584 | Each copy goes right behind the one before if it still fits there, else to the start of the next texture, and takes the next part of the surface |
| `Upload.EveryTextureUsed` | tdune/glSDL.c:1656-1658 | Every texture gets at least one copy |
| `Upload.UploadRoundTrip` | tdune/glSDL.c:1527-1584 | After the upload each point of the surface is found in its texel |
| `Blit.BlitSingle` | tdune/glSDL.c:925-949 | One quad, or none while the texture is missing |
| `Blit.SingleExact` | tdune/glSDL.c:925-949 | That quad shows the rectangle point for point and nothing else |
| `Blit.BlitHorizontal` | tdune/glSDL.c:951-1020 | The loop draws the quads of the tiles under the rectangle, in order, up to the first missing texture |
| `Blit.TilePoint` | tdune/glSDL.c:951-1020 | A screen point is covered by the quad of its own tile only, and shows the texel it was uploaded to |
| `Blit.TileQuadsExact` | tdune/glSDL.c:951-1020 | Those quads abut, cover the destination once, and show every point of the rectangle where it belongs |
| `Blit.UploadThenBlit` | tdune/glSDL.c:951-1020 | Upload followed by an exact blit puts source pixel (sx, sy) at (dx + sx - srcx, dy + sy - srcy) and touches nothing else |
| `BlitDown.BlitVertical` | tdune/glSDL.c:1022-1095 | The loop draws the quads that its texture and column arithmetic gives, up to the first missing texture |
| `BlitDown.TextureRight` | tdune/glSDL.c:1030-1031 | The computed texture of a tile is the one it was uploaded to as long as the gaps of the textures before do not add up to a tile |
| `BlitDown.TextureWrong` | tdune/glSDL.c:1052-1054 | From then on the first tile of a texture is looked for in an earlier texture |
| `BlitDown.OneQuad` | tdune/glSDL.c:1041-1095 | Right or wrong, the quads abut and cover every point of the destination once |
| `BlitDown.ReadAt` | tdune/glSDL.c:1041-1095 | Right or wrong, which texel is read at each point of the destination: texture, column and row |
| `BlitDown.DownExactIff` | tdune/glSDL.c:1022-1095 | The blit of a part of a vertically tiled surface is exact if and only if the part is empty, there is no gap, or it begins in the first texture and the gaps it passes do not add up to a tile |
| `BlitDown.AllExactIff` | tdune/glSDL.c:1022-1095 | It is exact for all parts of the surface if and only if there is one texture or the tile width divides the texture size |
| `BlitDown.WholeExactIff` | tdune/glSDL.c:1022-1095 | A whole surface is drawn right if and only if the gaps of all its textures but the last do not add up to a tile |
| `BlitDown.FittingWholeExact` | tdune/glSDL.c:1022-1095 | So a whole surface is drawn right whenever its best size is within the limit |
| `BlitDown.TallChopped` | tdune/glSDL.c:168-270 | A surface of 100 by 1500 with textures limited to 256 is chopped into tiles of 100 by 256, two to a texture, in three textures |
| `BlitDown.TallWrong` | tdune/glSDL.c:1022-1095 | Drawn as a whole it is wrong: its tile 4 is looked for in texture 1 instead of 2 |
| `BlitDown.SeamUndefined` | tdune/glSDL.c:1029-1065 | Otherwise the first point of the first tile of the second texture, drawn on its own, shows a texel that was never uploaded |
| `BlitSurface.CulledShows` | tdune/glSDL.c:1107-1124 | The early return drops nothing that could be seen |
| `BlitSurface.CulledIffApart` | tdune/glSDL.c:1107-1124 | The early return is taken exactly when rectangle and destination do not even touch at their edges |
| `BlitSurface.BlitGL` | tdune/glSDL.c:1097-1197 | Uploads unless all is there and draws: every point of the destination shows what it should, exactly unless the rectangle is one of those that the vertical blit gets wrong |
| `ClientList.FindNextClientId` | cserver/client.c:6-32 | Finds the node before the first client with the id, null when that is the first of all; -1 exactly when there is none |
| `ClientList.Register` | cserver/tcp.c:161-163 | The locked section puts the record in front |
| `ClientList.Deregister` | cserver/tcp.c:201-212 | The locked section drops and frees the first record with the id that the thread reads in its own; the report that a found client cannot be removed never happens |
| `ClientList.DropsFirstOf` | cserver/client.c:6-32 | The record that is dropped is the first one with the id, when there is one, and the others keep their order |
| `ClientRegistry.AdvanceOrderly` | cserver/tcp.c:149-216 | No record in the list has been freed, whatever the threads do, so the search through the list reads live memory only |
| `ClientRegistry.NewestFirst` | cserver/tcp.c:161-163 | The live threads stand in the reverse of the order in which they have registered |
| `ClientRegistry.DroppedOrReported` | cserver/tcp.c:149-216 | Over every interleaving each thread that leaves has one record dropped and freed or reports one bug |
| `ClientRegistry.LeavesExactlyIff` | cserver/tcp.c:201-212 | While the registry is exactly the live clients, a leaving thread keeps it so if and only if no newer live client has the same id |
| `ClientRegistry.LeavesSafelyIff` | cserver/tcp.c:207-210 | Otherwise, and only then, it frees the record of a live thread |
| `ClientRegistry.ExactRunIff` | cserver/tcp.c:149-216 | Over every interleaving: the registry is at all times exactly the live clients, newest first, if and only if no thread leaves while a newer client with the same id is live |
| `ClientRegistry.SafeRunIff` | cserver/tcp.c:149-216 | Over every interleaving: no live thread's record is ever freed under the same condition, and only then |
| `ClientRegistry.NamesakeDropped` | cserver/tcp.c:201-212 | The shortest failing run: of two clients with one id the first to leave drops and frees the record of the other |
| `ClientRegistry.DistinctIdsExact` | cserver/tcp.c:149-216 | In particular when live ids are pairwise distinct: the registry holds exactly the records of threads between their two sections, each once |
| `ClientRegistry.NoBug` | cserver/tcp.c:202-211 | Over every interleaving in which no thread leaves on a freed record, and whatever the ids, each id is registered as often as there are live threads with it, the size is the number of live threads and no bug is reported |
| `ClientRegistry.NeverOvertakenNoBug` | cserver/tcp.c:202-211 | That is so when no thread leaves while a newer client with the same id is live |
| `ClientRegistry.BugPossibleIff` | cserver/tcp.c:202-211 | For some content of freed memory a bug is reported if and only if, for some, a thread leaves on a freed record |
| `ClientRegistry.Serve` | cserver/tcp.c:149-216 | The list operations in the order of any schedule, and for any content of freed memory, leave the list and report the bugs that the state machine says, none unless a thread leaves on a freed record |
| `TerrainWalk.LooksSafeIff` | tdune/map.c:337-349 | The bounds test keeps every look inside the allocation exactly when the map is square; otherwise some start inside it leads to a first look outside |
| `TerrainWalk.Ring` | tdune/map.c:288-289 | The eight directions lead once around a cell, each to a cell adjacent to the one before, the first to the left of the second |
| `TerrainWalk.Directions` | tdune/map.c:323-338 | Which directions a visit takes one after the other, for each first one |
| `TerrainWalk.AroundIs` | tdune/map.c:323-338 | Which cells a visit looks at, for each first direction |
| `TerrainWalk.TrailIs` | tdune/map.c:318-362 | A cell is within reach of a walk when it is within reach of one of its visits, each of which begins one column to the left of the one before |
| `TerrainWalk.UpsCounts` | tdune/map.c:318-362 | How many rows the walker has gone up: the number of visits that began with direction 2 or 3 |
| `TerrainWalk.TargetIs` | tdune/map.c:294-294 | The target is the percentage of the cells, rounded down |
| `TerrainWalk.VisitFacts` | tdune/map.c:323-338 | The eight looks of a visit fall on at most six neighbours, and the last one on the column to the left |
| `Terrain.Look` | tdune/map.c:344-355 | A look paints the cell exactly when it is plain ground on the map without a structure, changes nothing else, and never reads off the map |
| `Terrain.Visit` | tdune/map.c:323-362 | A visit paints exactly the free cells among its neighbours, counts them, and moves the walker one column to the left |
| `Terrain.GenerateTerrain` | tdune/map.c:285-366 | For every stream of draws the walk ends, and exactly the cells within reach of as many visits as it takes to use up the target change, if they were plain ground without a structure, in nothing but their terrain; a target above 28 is used up before as many cells are painted |
| `TerrainWalk.PaintedAtMost` | tdune/map.c:318-365 | At most four cells more than asked for are painted |
| `TerrainWalk.MarchesLeft` | tdune/map.c:318-365 | Whatever the draws, the walker stands n columns left of its start after n visits |
| `TerrainWalk.TrailBounds` | tdune/map.c:318-365 | So no cell further right than the column next to the start is ever within reach |
| `TerrainWalk.PastTheEdge` | tdune/map.c:318-365 | Once the walker has passed the left edge it paints nothing more |
| `TerrainWalk.PaintedByColumns` | tdune/map.c:318-365 | At most six cells are painted for each column up to the one right of the start |
| `TerrainWalk.FallsShort` | tdune/map.c:293-365 | On an n by n map at most 6 * (n + 1) cells are painted, fewer than asked for whenever that is more; on 256 by 256 at sixty percent fewer than 1543 of 39321 |
| `TerrainTarget.VisitsUseUp` | tdune/map.c:318-365 | A walk of n visits paints at most target + 5 - n cells, and at most six sevenths of target + 5 |
| `TerrainTarget.MetIsSmall` | tdune/map.c:318-365 | When as many cells are painted as asked for, whatever the map, the start and the draws, no more than 28 are asked for, and not one |
| `TerrainTarget.CanBeMetIff` | tdune/map.c:293-365 | A target is met on some map, from some start and with some draws if and only if it is at most 28 and not 1 |

## Left out

- Memory: `malloc` always succeeds, so the return codes that only report its failure are dropped; `free` and the `destroy` callbacks are not modelled except for what `list_destroy` hands to the callback. In `ClientRegistry` a read from a freed record yields an arbitrary number; that it could also stop the program is not modelled, nor what the service loop does with such a record.
- Elements: a generic element type replaces byte copies by element size.
- Integers are unbounded: overflow in sums, products and counters is not modelled.
- Comparison functions are total preorders and, in sets and graphs, two elements match when they have the same immutable key, which is any equivalence that does not change while they are stored.
- Sets inside the graph, and the list of adjacency lists, are sequence fields that the methods reassign; the linked form of both is modelled once, in `LinkedList` and `MatchSet`.
- RadixSort.RxSort: takes the power as an exact integer, where the source goes through floating point, and requires non-negative values, for which alone the source indexes its counters in bounds.
- QuickSort.QkSort: takes an allowance of draws without progress and gives up when it is used up, where the source would go on; for which allowances the two agree is what `QuickSort.FinishesIff` says. The random numbers are an arbitrary stream.
- Texture coordinates are whole pixels; the source has floating-point fractions of the texture size. Coordinates beyond a texture wrap around, which is OpenGL's default and what the source leaves in place.
- OpenGL and SDL calls are writes to and reads from model textures; pixel formats, colour keys, alpha, video modes, format conversion, partial updates, logical scaling, surfaces too large in both directions and surfaces of size zero are not modelled.
- Upload.UploadSurface: leaves out the test for a texture size above the limit, which `Chop.CalcChop` shows never to happen, and the unloading after partial updates.
- Sockets, the service loop and its messages, and the creation of threads: only the two locked sections are modelled, each as one step. The mutex is one that is initialised once; the source initialises it again for every connection.
- Terrain.GenerateTerrain: starts from any cell of the map, where the source first draws a start cell, and requires a square map, on which alone the source stays inside its allocation; the percentage is not negative.
- Map files, statistics and the placing of structures; LCD plugins, scripts, web pages, kernel modules and patches elsewhere in the repository.
- algolib/main/grafuri, which only calls the graph functions and prints.
