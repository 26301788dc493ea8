# Verified model of the algorithm collection `misc`

This project models, in Dafny, the algorithmic core of the `misc` repository: a collection of
small, self-contained programs on graphs, memory allocators, process schedulers, string routines,
parsers and grammar tools, sorting, checksums, image boundary tracing, an LCD driver, a matrix
runtime, a symbol table, binary trees and combinatorics.  Every core file becomes one Dafny module:

| module | file | what it models |
|---|---|---|
| `Banker` | banker.dfy | the banker's algorithm for deadlock avoidance (os/banker.cpp) |
| `BoundaryTracing` | boundary_tracing.dfy | start-pixel search and 8-neighbour boundary tracing (tests/boundary_tracing.cpp) |
| `BuddyAlloc` | buddy_alloc.dfy | the buddy allocator's tree of power-of-two blocks (os/mem/mem2.cpp) |
| `Comb` | comb.dfy | counting permutations of a multiset (tests/comb.cpp) |
| `Crc` | crc.dfy | the bitwise 32-bit CRC (boost/crc.cpp) |
| `Cyk` | cyk.dfy | the CYK parser for grammars in Chomsky normal form (parser/grammars/cyk.cpp) |
| `Dataflow` | dataflow.dfy | backward (liveness) and forward dataflow analysis (parser/grammars/dataflow.cpp) |
| `DijkEdges` | dijk_edges.dfy | Dijkstra over an edge list (algos/dijk.java) |
| `ExprParser` | expr_parser.dfy | the lexer and recursive-descent expression calculator (parser/grammars/expr_parser.c) |
| `GraphAlgos` | graph_algos.dfy | Dijkstra and Bellman-Ford over a weight matrix (libs/graph_algos.h) |
| `GraphConts` | graph_conts.dfy | the adjacency-matrix graph container (libs/graph_conts.h) |
| `GraphEngine` | graph_engine.dfy | the Java graph with vertices, edges and shortest paths (graphs/Graph.java) |
| `Lcd` | lcd.dfy | the HD44780-style LCD driver in 4-bit mode (hdl/tools/lcd.c) |
| `LL1Grammar` | ll1.dfy | FIRST, FOLLOW and the LL(1) table (parser/grammars/ll1.cpp) |
| `MaxSubvec` | maxsubvec.dfy | maximum-sum subvector (geo/maxsubvec.cpp) |
| `NfaToDfa` | nfa_to_dfa.dfy | subset construction from an NFA to a DFA (parser/grammars/nfa_to_dfa.cpp) |
| `Runtime` | runtime.dfy | the matrix runtime: submatrix, determinant, product, power, transpose (parser/6-arrays/runtime.cpp) |
| `RvString` | rv_string.dfy | the freestanding string and number conversion routines (os/cpp_rv/string.h) |
| `Sched` | sched.dfy | the process schedulers (os/sched.cpp) |
| `SegAlloc` | seg_alloc.dfy | first-, best- and worst-fit segment allocation (os/mem/mem.cpp) |
| `Sorts` | sorts.dfy | the hand-written sorting algorithms (cpp/sort.cpp) |
| `StrAlgos` | str_algos.dfy | prefix-function (Knuth-Morris-Pratt) pattern search (libs/str_algos.h) |
| `SymTab` | symtab.dfy | the scoped symbol table (parser/6-arrays/sym.h) |
| `TreeAlgos` | tree_algos.dfy | binary search tree insertion, parents, heights, balances, traversal (libs/tree_algos.h) |
| `Wrappers` | wrappers.dfy | `Option` and `Result` |

Operations that change state step by step are methods over arrays or over classes:
`BoundaryTracing.Image`, `BuddyAlloc.Segment`, `Cyk.CykTable`, `ExprParser.Calc`,
`GraphConts.AdjacencyMatrix`, `GraphEngine.Vertex` and `GraphEngine.Graph`, `Lcd.Display`,
`LL1Grammar.LL1`, the four scheduler classes of `Sched`, `SegAlloc.VariSeg`, `SymTab.SymTab` and
`TreeAlgos.NodePool`.  Each method is proved against a specification function, and the properties
the programs promise are proved about those functions.  Those properties are shortest distances,
derivations, least fixed points, sortedness and permutation, and round trips.  Where the source has
a defect, the model keeps the code as written next to the evidently intended code.  A `fixed` flag
or a separate member selects between them, and "## Findings" lists each defect.

## Model

| member | source | states |
|---|---|---|
| Banker.Needed | os/banker.cpp:31-34 | the needed matrix has the shape of the maximum matrix and holds max_alloc minus cur_alloc entry by entry |
| Banker.AvailAfter | os/banker.cpp:59-63 | the available vector after a sequence of terminations keeps its length (each termination adds the process's column of cur_alloc) |
| Banker.DistinctBelow | os/banker.cpp:70-74 | a repeat-free termination sequence of process indices has at most num_procs entries, and exactly num_procs only when every process occurs |
| Banker.SafeStep | os/banker.cpp:49-63 | appending a process whose need fits what is available after the earlier terminations keeps the termination sequence safe |
| Banker.ProgressStep | os/banker.cpp:59-66 | letting a running process whose need fits terminate, and releasing its column, keeps the loop invariant |
| Banker.CanAlloc | os/banker.cpp:49-57 | the inner resource loop answers true exactly when every needed amount of the process fits the available amount |
| Banker.Visit | os/banker.cpp:45-66 | one process of a pass: it terminates exactly when it has not yet terminated and its need fits; then its resources are released and it is appended, otherwise nothing changes |
| Banker.Pass | os/banker.cpp:41-67 | a pass keeps the invariant, only appends to the termination sequence, and terminates nothing exactly when every still-running process is stuck |
| Banker.BankerAlgo | os/banker.cpp:28-75 | the termination sequence is safe and repeat-free; a deadlock is reported exactly when some process never terminates, and then every remaining process is stuck |
| BoundaryTracing.IndexBound | tests/boundary_tracing.cpp:50-51 | the row-major index y * width + x of an in-range pixel lies inside the buffer |
| BoundaryTracing.IndexInjective | tests/boundary_tracing.cpp:50-51 | distinct in-range pixels have distinct indices |
| BoundaryTracing.Poke | tests/boundary_tracing.cpp:56-60 | a write keeps the buffer size |
| BoundaryTracing.PeekPoke | tests/boundary_tracing.cpp:48-60 | a written pixel reads back at its own in-range position, and every other pixel reads as before; out of range nothing changes and reads give the zero pixel |
| BoundaryTracing.Image.constructor | tests/boundary_tracing.cpp:16-20 | a w x h image with every pixel unset |
| BoundaryTracing.Image.SetPixel | tests/boundary_tracing.cpp:56-60 | the buffer becomes the write of the pixel, which changes nothing for a position outside the image |
| BoundaryTracing.Image.SetImage | tests/boundary_tracing.cpp:63-72 | every in-range pixel (x, y) becomes src[y * width + x] |
| BoundaryTracing.FirstSetFrom | tests/boundary_tracing.cpp:110-125 | the first set pixel at or after (x, y) in row-major order: it is set, nothing before it from (x, y) on is set, and none is found only when no later pixel is set |
| BoundaryTracing.ScanIsSetPixel | tests/boundary_tracing.cpp:110-125 | the search as written finds a start exactly when some pixel is set, and the start is a set pixel |
| BoundaryTracing.StartMovesDown | tests/boundary_tracing.cpp:112-123 | as written, the `break` leaves only the inner loop, so in a 2 x 2 image with all pixels set the start becomes (0, 1) instead of the first set pixel (0, 0) |
| BoundaryTracing.FindStartAsWritten | tests/boundary_tracing.cpp:106-125 | the start search as written computes the row-by-row scan |
| BoundaryTracing.FindStart | tests/boundary_tracing.cpp:106-125 | with both loops left at the first set pixel, a start is found exactly when some pixel is set, and it is the first set pixel in row-major order |
| BoundaryTracing.NextDirs | tests/boundary_tracing.cpp:140-258 | get_next_dir offers seven candidates for each of the eight directions and none otherwise |
| BoundaryTracing.NextDirsClockwise | tests/boundary_tracing.cpp:140-258 | coming from a neighbour, the candidates are the seven other neighbours in clockwise order after it |
| BoundaryTracing.NextDirsOther | tests/boundary_tracing.cpp:255-257 | a direction that is not one of the eight neighbours gives no candidate |
| BoundaryTracing.Probe | tests/boundary_tracing.cpp:262-272 | a found direction lands on a set pixel |
| BoundaryTracing.ProbeFirst | tests/boundary_tracing.cpp:262-272 | a hit is the first set candidate in order; a miss means no candidate is set, and the last candidate tried stays in next_dir |
| BoundaryTracing.ProbeResult | tests/boundary_tracing.cpp:262-272 | the probe stops at the first set candidate, or keeps the last one tried when all miss |
| BoundaryTracing.StepOnSetPixel | tests/boundary_tracing.cpp:274-283 | with the flag cleared before each probe, a step lands on a set pixel |
| BoundaryTracing.TrailOnSetPixels | tests/boundary_tracing.cpp:260-292 | with the flag cleared before each probe, every position the trace marks is a set pixel |
| BoundaryTracing.StickyFlagMarksUnsetPixel | tests/boundary_tracing.cpp:137-274 | as written has_next_dir is never reset, so in a 2 x 2 image whose top row is set the trace steps from (1, 0) onto the unset pixel (0, 1) and marks it |
| BoundaryTracing.TopRowTrail | tests/boundary_tracing.cpp:260-292 | the as-written trace of that example visits (1, 0), (0, 1) and then the start (0, 0) |
| BoundaryTracing.ProbeNeighbours | tests/boundary_tracing.cpp:262-272 | the probe loop computes the probe of the candidates, flag and next direction included |
| BoundaryTracing.Mark | tests/boundary_tracing.cpp:282 | marking adds exactly the one position to the marked pixels |
| BoundaryTracing.TracePass | tests/boundary_tracing.cpp:262-280 | one pass up to the marking is one tracer step |
| BoundaryTracing.TraceIter | tests/boundary_tracing.cpp:260-292 | one pass marks the new position and stops exactly when no direction is found or the start is reached; what is left to mark is the rest of the walk |
| BoundaryTracing.TraceLoop | tests/boundary_tracing.cpp:260-292 | the loop marks exactly the walk from the loop variables, for at most fuel passes |
| BoundaryTracing.TraceFrom | tests/boundary_tracing.cpp:130-294 | the boundary has the image's size and marks exactly the start and the trail from it |
| BoundaryTracing.TraceBoundary | tests/boundary_tracing.cpp:100-295 | corrected: no set pixel gives an empty boundary; otherwise the first set pixel is marked and every marked pixel is a set pixel of the image |
| BoundaryTracing.TraceBoundaryAsWritten | tests/boundary_tracing.cpp:100-295 | as written: no set pixel gives an empty boundary; otherwise the start is a set pixel and the marked pixels are exactly the start and the trail with the flag never cleared |
| BuddyAlloc.Log2 | os/mem/mem2.cpp:15-24 | the position of the highest set bit: 2^r <= n < 2^(r+1) |
| BuddyAlloc.TopBit | os/mem/mem2.cpp:17-24 | below 2^(b+1), bit b is set exactly when n reaches 2^b, so the downward scan stops at the highest set bit |
| BuddyAlloc.CeilPow2Least | os/mem/mem2.cpp:12-31 | for 0 < num <= 2^63, nextpow2(num) is a power of two, at least num and below 2 * num |
| BuddyAlloc.CeilPow2Wraps | os/mem/mem2.cpp:26-30 | above 2^63 the doubled power does not fit in size_t and nextpow2 yields 0 |
| BuddyAlloc.NextPow2 | os/mem/mem2.cpp:12-31 | the bit scan and the shifts compute CeilPow2(num) |
| BuddyAlloc.AllocatedBound | os/mem/mem2.cpp:142-165 | the blocks in use fit inside the node, and when no node is overfilled the requested units fit inside the blocks |
| BuddyAlloc.Blocks | os/mem/mem2.cpp:142-165 | definition: get_allocated's first component, the level size of a node in use, otherwise the sum over its present children; its bound is AllocatedBound |
| BuddyAlloc.Requested | os/mem/mem2.cpp:142-165 | definition: get_allocated's second component, the used size of a node in use, otherwise the sum over its present children; its bound is AllocatedBound |
| BuddyAlloc.AllocNode | os/mem/mem2.cpp:84-118 | the node keeps its size and position; a failed descent leaves the children it created behind |
| BuddyAlloc.AllocNodeShape | os/mem/mem2.cpp:99-114 | children are the two halves of their parent and a node in use is never split, before and after an allocation |
| BuddyAlloc.AllocNodeBlocks | os/mem/mem2.cpp:84-165 | a successful allocation adds one block of allocsize units to the allocated total; a failed one adds none |
| BuddyAlloc.AllocNodeRequested | os/mem/mem2.cpp:92-165 | a successful allocation records the requested units; a failed one records none |
| BuddyAlloc.AllocNodePlaced | os/mem/mem2.cpp:92-114 | a block handed out lies inside the node the search started from; a failure returns position 0 |
| BuddyAlloc.AllocNodeFits | os/mem/mem2.cpp:92-97 | when the rounded size covers the request, no node is filled beyond its size |
| BuddyAlloc.DeallocNodeKeeps | os/mem/mem2.cpp:121-139 | a release that does not dereference a null child keeps the tree well shaped and never adds to the blocks in use |
| BuddyAlloc.DeallocChild | os/mem/mem2.cpp:123-136 | definition: one turn of dealloc_node's child loop: no result when the child is null (the dereference at :125), the child kept when its lin_pos differs, the recursive release when it is not in use, no child once it is reset |
| BuddyAlloc.DeallocNode | os/mem/mem2.cpp:121-139 | definition: dealloc_node as written, both children in turn, with no result as soon as a step dereferences a null child; DeallocNodeKeeps and FreeFirstBlockCrashes are about it |
| BuddyAlloc.Release | os/mem/mem2.cpp:63-70 | definition: deallocate as written: a root in use at linpos is emptied, otherwise DeallocNode runs; ReleaseKeeps is about it |
| BuddyAlloc.ReleaseKeeps | os/mem/mem2.cpp:63-70 | deallocate, when it does not crash, keeps the tree well shaped, keeps the root's size and never adds to the blocks in use |
| BuddyAlloc.DeallocFixedKeeps | os/mem/mem2.cpp:121-139 | dealloc_node with the missing null check keeps the shape, the size and the position, never adds blocks and never overfills a node |
| BuddyAlloc.DeallocNodeFixed | os/mem/mem2.cpp:121-139 | definition: dealloc_node with a null test on each child, absent children skipped, the rest as written; DeallocFixedKeeps is about it |
| BuddyAlloc.DeallocateFixed | os/mem/mem2.cpp:63-70 | definition: deallocate over DeallocNodeFixed; FreeFirstBlockFixed is about it |
| BuddyAlloc.FirstAllocation | os/mem/mem2.cpp:84-118 | 500 units in a 1024-unit segment take a 512-unit block at position 0, creating only the left child |
| BuddyAlloc.FreeFirstBlockCrashes | os/mem/mem2.cpp:121-139 | as written, releasing that block dereferences the missing right child |
| BuddyAlloc.FreeFirstBlockFixed | os/mem/mem2.cpp:121-139 | with the null check, releasing that block leaves no block in use |
| BuddyAlloc.LeftFirst | os/mem/mem2.cpp:102-114 | when the left descent succeeds, its result is the node's result |
| BuddyAlloc.ZeroSizeClaimed | os/mem/mem2.cpp:84-118 | a fresh segment of any size accepts a 0-unit block at its first 0-unit leaf |
| BuddyAlloc.HugeRequestSucceeds | os/mem/mem2.cpp:56-60 | a request above 2^63 rounds to 0 and still succeeds, so more units are requested than the segment holds |
| BuddyAlloc.AllocateFixed | os/mem/mem2.cpp:56-60 | definition: allocate with a rounded size that wrapped below the request rejected, otherwise alloc_node with nextpow2(size); AllocateFixedFits is about it |
| BuddyAlloc.AllocateFixedFits | os/mem/mem2.cpp:56-80 | allocation that rejects a rounding overflow never overfills a node, so the requested units stay within the blocks and the blocks within the segment |
| BuddyAlloc.Segment.constructor | os/mem/mem2.cpp:49-53 | a new segment is one unused root node of memsize units at position 0 |
| BuddyAlloc.Segment.Allocate | os/mem/mem2.cpp:56-60 | the tree becomes alloc_node's tree for the rounded size. On success the blocks grow by the rounded size and the requested units by the request; on failure neither changes. The tree stays well shaped |
| BuddyAlloc.Segment.Deallocate | os/mem/mem2.cpp:63-70 | returns false exactly where the source would dereference a null child, and then the tree is unchanged; otherwise the tree is released. It stays well shaped |
| BuddyAlloc.Segment.GetFreeAndFrag | os/mem/mem2.cpp:73-80 | free is the root size minus the blocks in use and is never negative. frag is blocks minus requested units modulo 2^64, and exactly that difference when no node is overfilled |
| Comb.Fact | tests/comb.cpp:42-50 | n! is at least 1, so every division in num_perm is by a positive number |
| Comb.Fac | tests/comb.cpp:42-50 | the loop `res *= i` for i from 2 to n computes n!, so fac(0) == fac(1) == 1 |
| Comb.Counts | tests/comb.cpp:55-63 | the repetition map has one key per distinct element, each with a count of at least 1 |
| Comb.CountsMultiset | tests/comb.cpp:55-63 | the keys of the repetition map are exactly the elements of the container and each count is that element's multiplicity |
| Comb.CountReps | tests/comb.cpp:57-63 | the find-or-insert loop over the container builds exactly the repetition map |
| Comb.CountsSum | tests/comb.cpp:57-63 | the multiplicities add up to the length of the container |
| Comb.DivideAll | tests/comb.cpp:69-75 | dividing n in turn by the factorial of every multiplicity above one, in any map order, gives n over the product of all the multiplicities' factorials |
| Comb.NumPerm | tests/comb.cpp:40-78 | num_perm returns \|cont\|! divided by the product of the factorials of the multiplicities |
| Comb.DistinctAllPermutations | tests/comb.cpp:71-72 | elements that occur once do not change the count: a container of distinct elements has \|cont\|! permutations |
| Comb.MultiplicityOne | tests/comb.cpp:57-63 | in a container of distinct elements no element is counted more than once |
| Comb.CountsRepeated | tests/comb.cpp:57-63 | a container holding one element repeated gets a single key counted \|cont\| times |
| Comb.RepeatedOnePermutation | tests/comb.cpp:66-77 | a container holding one element repeated has exactly one arrangement |
| SymTab.VarSymbol | parser/6-arrays/sym.h:56 | the symbol AddSymbol builds carries the given plain name, type, dimensions and flags; the function parts keep their defaults |
| SymTab.FuncSymbol | parser/6-arrays/sym.h:67-69 | the symbol AddFunc builds has type FUNC with the argument and return types, and the return dimensions only when given |
| SymTab.Find | parser/6-arrays/sym.h:75-81 | the lookup yields nothing exactly when the key is absent, else the stored symbol |
| SymTab.SymTab.constructor | parser/6-arrays/sym.h:94 | the table starts empty |
| SymTab.SymTab.AddSymbol | parser/6-arrays/sym.h:51-59 | the variable symbol is stored under the scoped name, overwriting any entry there; the returned symbol is the stored one |
| SymTab.SymTab.AddFunc | parser/6-arrays/sym.h:62-72 | the function symbol is stored under the scoped name, overwriting any entry there; the returned symbol is the stored one |
| SymTab.SymTab.FindSymbol | parser/6-arrays/sym.h:75-81 | FindSymbol returns exactly Find on the table: null if and only if the name is absent |
| SymTab.FindAfterStore | parser/6-arrays/sym.h:57-58 | after insert_or_assign the key finds the new symbol, every other key finds what it found before, and the table grows only for a new key |
| SymTab.ScopedKey | parser/6-arrays/sym.h:56-57 | worked example: the table is keyed by the scoped name while the symbol keeps the plain name |
| Crc.Shl | boost/crc.cpp:91 | bit j of w << k is bit j - k of w, and 0 below k: bits past bit 31 are dropped |
| Crc.Xor | boost/crc.cpp:100 | bitwise exclusive or |
| Crc.TopBit | boost/crc.cpp:79-85 | the search finds the highest set bit of poly at or below poly_size - 1, or -1 when there is none |
| Crc.MyCrc | boost/crc.cpp:76-104 | the loop computes the specified CRC: 0 when the polynomial has no set bit above bit 0, else data shifted by poly_size - 1 and reduced from bit 31 down to bit poly_size - 1 |
| Crc.CrcOf | boost/crc.cpp:76-104 | definition: 0 when poly has no set bit between bit 1 and bit poly_size - 1, otherwise data shifted left by poly_size - 1 and reduced from bit 31 down; CrcBound, NoTopBitGivesZero and WorkedExample are about it |
| Crc.NoTopBitGivesZero | boost/crc.cpp:87-89 | a polynomial with no set bit between bit 1 and poly_size - 1 gives 0 |
| Crc.StepClears | boost/crc.cpp:94-101 | with a polynomial of exactly poly_size bits, a step at bit i clears bit i and sets nothing above it |
| Crc.CrcBound | boost/crc.cpp:94-103 | with a polynomial of exactly poly_size bits, the CRC is a remainder: no bit from poly_size - 1 up is set |
| Crc.WorkedExample | boost/crc.cpp:57-71 | the worked example in the source comment: 0xfa with polynomial 0x1c of 5 bits leaves 0x0c |
| Cyk.HasRule | parser/grammars/cyk.cpp:86-108 | true exactly when one of the symbol's rules equals the right-hand side id by id |
| Cyk.Producers | parser/grammars/cyk.cpp:114-127 | a symbol is a producer exactly when it is in the list and has the rule; there are at most as many producers as symbols |
| Cyk.FindProducers | parser/grammars/cyk.cpp:114-127 | the result is the producer list, in the order of the symbols |
| Cyk.ProducersUnique | parser/grammars/cyk.cpp:114-127 | producers of a list with unique ids have unique ids |
| Cyk.GenerateAllCombos | parser/grammars/cyk.cpp:133-145 | the result is the row-major list of two-symbol rules [x, y] |
| Cyk.CombosLength | parser/grammars/cyk.cpp:140-142 | there are |syms1| * |syms2| combinations |
| Cyk.CombosAt | parser/grammars/cyk.cpp:140-142 | the combination of syms1[a] and syms2[b] is at position a * |syms2| + b |
| Cyk.CombosOnly | parser/grammars/cyk.cpp:140-142 | every combination is [x, y] with x from the first and y from the second list |
| Cyk.CombosAll | parser/grammars/cyk.cpp:140-142 | every pair from the two lists is a combination |
| Cyk.InsertUniqueElem | parser/grammars/cyk.cpp:228-239 | inserts (at the back) exactly when no symbol with that id is present, reports that, and keeps ids unique |
| Cyk.InsertUniqueElems | parser/grammars/cyk.cpp:244-249 | the ids become the union of the old ids and those of the new symbols; unique ids stay unique; the old list is a prefix |
| Cyk.ProducedByCombos | parser/grammars/cyk.cpp:180-187 | the producers of all combinations of two cells are exactly the symbols with a rule joining a symbol of each |
| Cyk.RecordFrom | parser/grammars/cyk.cpp:189-190 | every producer's come-from entry becomes the split, and no other entry changes |
| Cyk.AddProducers | parser/grammars/cyk.cpp:184-191 | the producers of one combination enter the cell once each and record the split |
| Cyk.AddSplit | parser/grammars/cyk.cpp:178-191 | one split adds exactly the symbols joining the left and the right cell, with valid come-from entries |
| Cyk.AddSpanSplit | parser/grammars/cyk.cpp:176-192 | the pass for right part k extends a cell correct for the first k splits to one correct for k + 1 |
| Cyk.SubDiagsMember | parser/grammars/cyk.cpp:208-223 | the listed cells are exactly those below the diagonal |
| Cyk.SubDiagsSorted | parser/grammars/cyk.cpp:208-223 | cells come sub-diagonal by sub-diagonal, so every cell comes after the shorter spans it is built from |
| Cyk.CykTable.GenerateSubDiagIter | parser/grammars/cyk.cpp:208-223 | the result is the sub-diagonal order of the cells below the diagonal |
| Cyk.CykTable.ComputeCell | parser/grammars/cyk.cpp:171-193 | from correct cells of shorter spans, the split loop computes a correct cell |
| Cyk.CykTable.FillCell | parser/grammars/cyk.cpp:171-193 | one pass of the loop over the sub-diagonal cells makes one more cell correct |
| Cyk.CykTable.constructor | parser/grammars/cyk.cpp:162-194 | every cell on or below the diagonal holds exactly the producers of its span (the diagonal the unit-rule producers), ids unique below the diagonal with valid come-from entries; cells above are empty |
| Cyk.SpanComplete | parser/grammars/cyk.cpp:162-194 | the root of every parse tree of a span is in that span's cell |
| Cyk.SpanSound | parser/grammars/cyk.cpp:162-194 | every symbol in a span's cell is the root of a parse tree of that span |
| Cyk.CykCorrect | parser/grammars/cyk.cpp:162-194 | a symbol is in cell (c + len - 1, c) exactly when it derives input symbols c .. c + len - 1 |
| Dataflow.IndexOf | parser/grammars/dataflow.cpp:59-64 | the index of the first node with the id |
| Dataflow.FindNode | parser/grammars/dataflow.cpp:59-64 | the find_if loop finds exactly that first index |
| Dataflow.GatherNeighbours | parser/grammars/dataflow.cpp:57-67 | the loop over the neighbours builds exactly the union of their sets |
| Dataflow.OutSetBackwardIter | parser/grammars/dataflow.cpp:45-73 | each node's new out set is the union of the in sets of its successors |
| Dataflow.InSetForwardIter | parser/grammars/dataflow.cpp:76-104 | each node's new in set is the union of the out sets of its predecessors |
| Dataflow.TransferOne | parser/grammars/dataflow.cpp:123-125 | erasing the kill set and then inserting the gen set gives (x \ kill) ∪ gen |
| Dataflow.InSetBackwardIter | parser/grammars/dataflow.cpp:107-131 | in = gen ∪ (out \ kill), node by node |
| Dataflow.OutSetForwardIter | parser/grammars/dataflow.cpp:134-158 | out = gen ∪ (in \ kill), node by node |
| Dataflow.TransferAll | parser/grammars/dataflow.cpp:116-130 | the shared gen/kill loop computes the gen/kill step for every node |
| Dataflow.GenWins | parser/grammars/dataflow.cpp:123-125 | an element is in the result exactly when it is generated, or comes in and is not killed: gen wins over kill |
| Dataflow.OutBackwardMono | parser/grammars/dataflow.cpp:45-73 | larger in sets give larger out sets, which stay within any bound the in sets keep |
| Dataflow.InForwardMono | parser/grammars/dataflow.cpp:76-104 | larger out sets give larger in sets, which stay within any bound the out sets keep |
| Dataflow.TransferMono | parser/grammars/dataflow.cpp:107-158 | the gen/kill step is monotone and stays within the elements of the gen sets |
| Dataflow.GapDecreases | parser/grammars/dataflow.cpp:210-225 | sets that grow within a finite bound bring the remaining gap down, strictly when they change: the loop's termination measure |
| Dataflow.BackwardAnalysis | parser/grammars/dataflow.cpp:199-226 | the loop stops, at a solution of the backward equations that lies below every other solution (the least fixed point) |
| Dataflow.ForwardAnalysis | parser/grammars/dataflow.cpp:229-255 | the loop stops, at a solution of the forward equations that lies below every other solution (the least fixed point) |
| DijkEdges.Endpoints | algos/dijk.java:62-68 | the unvisited set holds both endpoints of every edge, and nothing else |
| DijkEdges.TargetsFrom | algos/dijk.java:74-77 | the vertices reached by the edges whose source is the current vertex, so edges are followed in their own direction only |
| DijkEdges.RelaxedLowers | algos/dijk.java:74-95 | the relaxation pass adds exactly the targets of the current vertex as keys and only lowers existing entries |
| DijkEdges.RelaxedKeeps | algos/dijk.java:79-94 | no entry is ever removed from the distance map |
| DijkEdges.RelaxedBound | algos/dijk.java:74-95 | after the pass every edge leaving the current vertex is satisfied: its target's entry is at most curdist + weight |
| DijkEdges.RelaxedStable | algos/dijk.java:79-94 | a map that already satisfies every edge leaving the current vertex is left unchanged |
| DijkEdges.RelaxedIdempotent | algos/dijk.java:74-95 | a second relaxation pass from the same vertex and distance changes nothing |
| DijkEdges.StepWalk | algos/dijk.java:83-92 | a walk to u of cost d, extended by an edge out of u, is a walk of cost d + weight |
| DijkEdges.SoundSet | algos/dijk.java:83-92 | writing the entry (target, current vertex, curdist + weight) keeps every entry meaningful |
| DijkEdges.RelaxedSound | algos/dijk.java:74-95 | after the pass every entry's distance is the cost of a walk from the start, and its predecessor is a real edge |
| DijkEdges.RelaxedAbove | algos/dijk.java:79-94 | with non-negative weights out of the current vertex, an entry is left alone, or becomes at least curdist and strictly lower than before |
| DijkEdges.SettleStep | algos/dijk.java:71-100 | relaxing from the current vertex satisfies its edges, leaves the settled entries alone, and keeps every unvisited entry at least curdist |
| DijkEdges.NextSettled | algos/dijk.java:99-116 | moving to the closest unvisited vertex with an entry keeps the settled-vertices invariant |
| DijkEdges.WalkBound | algos/dijk.java:71-116 | once every edge is satisfied, every non-empty walk from the start costs at least the entry of the vertex where it ends |
| DijkEdges.AllSettled | algos/dijk.java:71-147 | once every endpoint is visited, with non-negative weights the entries are shortest non-empty walk costs |
| DijkEdges.InitUnvisited | algos/dijk.java:62-68 | the unvisited set starts as the set of all edge endpoints |
| DijkEdges.RelaxFrom | algos/dijk.java:74-95 | the loop computes the relaxation pass, and every entry stays a real walk from the start |
| DijkEdges.Closest | algos/dijk.java:103-116 | finds a vertex exactly when some unvisited vertex has an entry. It then returns an unvisited vertex of least distance with its distance. Otherwise the current vertex and distance stay as they are |
| DijkEdges.CalcAdvance | algos/dijk.java:71-116 | one pass of the while loop that finds a next vertex keeps the loop invariant |
| DijkEdges.CalcFinish | algos/dijk.java:71-147 | a pass that empties the unvisited set returns shortest distances when no weight is negative |
| DijkEdges.Calc | algos/dijk.java:53-148 | every entry is the cost of a walk from the start. When the loop ends, every endpoint other than the start has an entry, and with non-negative weights it is a shortest walk's cost. Otherwise the loop never ends: an unvisited vertex has no entry, the current vertex stops changing and relaxing from it changes nothing |
| ExprParser.IdentAsWrittenOneLetter | parser/grammars/expr_parser.c:217-232 | match_ident as written, with `!isdigit(c) \|\| !isalpha(c)` on the later characters, accepts exactly the one-letter names |
| ExprParser.PiRejectedAsWritten | parser/grammars/expr_parser.c:105-112 | the predefined variable "pi" is a name under the intended test, but match_ident as written rejects it |
| ExprParser.MatchInt | parser/grammars/expr_parser.c:198-207 | match_int holds exactly when every character is a decimal digit, the empty text included |
| ExprParser.MatchIdent | parser/grammars/expr_parser.c:217-232 | the loop answers the as-written test, or with the fix the intended one: a letter followed by letters or digits |
| ExprParser.AtoiAppend | parser/grammars/expr_parser.c:238-250 | the value atoi gives a digit string grows by ten times plus the new digit when one digit is appended |
| ExprParser.Atoi | parser/grammars/expr_parser.c:238-250 | definition: the decimal value of a digit string, the value atoi gives for the text match_int accepted; AtoiAppend is about it |
| ExprParser.MatchToken | parser/grammars/expr_parser.c:238-285 | a token text is classified as a number, a name, one of the ten single-character operators (coded by the character itself), or invalid |
| ExprParser.GetMatchingToken | parser/grammars/expr_parser.c:238-285 | get_matching_token returns the classification of MatchToken: numbers tried first, then names, then the operator characters |
| ExprParser.StrncatChar | parser/grammars/expr_parser.c:64-72 | the character is appended or the text is left alone, and a text that fits the MAX_IDENT buffer keeps fitting |
| ExprParser.LexLoop | parser/grammars/expr_parser.c:345-384 | the read loop never moves the input position back, moves it forward whenever a match is first found, and keeps a valid token code |
| ExprParser.LexFrom | parser/grammars/expr_parser.c:335-416 | lex returns a token code other than 0 and EOF, never moves back, and consumes at least one character for every token standing for input |
| ExprParser.LexSkipsBlanks | parser/grammars/expr_parser.c:351-363 | blanks and tabs before a token are skipped; a newline or the end of the input gives the end token |
| ExprParser.LexDigits | parser/grammars/expr_parser.c:310-316 | with the intended peek a run of digits is read whole as one number of its decimal value, up to the first non-digit or the end of the input |
| ExprParser.LastDigitSplitAsWritten | parser/grammars/expr_parser.c:310-316 | with `g_input_idx+1` in input_peek, a number ending at the last input character is cut before its last digit |
| ExprParser.OneDigit | parser/grammars/expr_parser.c:198-207 | a single digit is a number token of its own value under both tests |
| ExprParser.TwelveAsWrittenAndFixed | parser/grammars/expr_parser.c:335-384 | the input "12" lexes as the number 1 as written, and as the number 12 with the intended peek |
| ExprParser.Find | parser/grammars/expr_parser.c:130-143 | find_symbol yields the first node with the name, or no node exactly when no node has it |
| ExprParser.FindIsFirst | parser/grammars/expr_parser.c:130-143 | the first node carrying the name is the one find_symbol finds |
| ExprParser.Lookup | parser/grammars/expr_parser.c:750-761 | a variable lookup finds a value exactly when some node carries the name |
| ExprParser.AssignLookup | parser/grammars/expr_parser.c:146-172 | after assign_or_insert_symbol the name holds the value, every other name keeps its value, the list grows by one node only for a new name, and no other node changes |
| ExprParser.AssignExisting | parser/grammars/expr_parser.c:150-153 | assigning a name already present updates that node in place and keeps the length |
| ExprParser.AssignNew | parser/grammars/expr_parser.c:154-169 | assigning a new name appends one node at the tail and keeps every earlier node |
| ExprParser.CModBounds | parser/grammars/expr_parser.c:560-567 | fmod on the integer operands leaves a remainder smaller in size than the divisor, with the sign of the dividend |
| ExprParser.CDiv | parser/grammars/expr_parser.c:551-559 | definition: C's int division, truncating toward zero: the quotient of the magnitudes, negated when the operands' signs differ; DivisionLeft and CModBounds use it |
| ExprParser.CMod | parser/grammars/expr_parser.c:561-567 | definition: fmod on int operands converted back to int, a - b * CDiv(a, b); CModBounds is about it |
| ExprParser.PowerMinusOne | parser/grammars/expr_parser.c:602-611 | (-1) raised to n is 1 for even n and -1 for odd n, which is what pow gives for the base -1 |
| ExprParser.CPowNegative | parser/grammars/expr_parser.c:602-611 | pow with a negative integer exponent, truncated back to int, is the truncated quotient 1 / a^-b |
| ExprParser.CPow | parser/grammars/expr_parser.c:602-611 | definition: pow on int operands converted back to int: a^b for b >= 0, undefined for 0 to a negative power, 1, +-1 or 0 for a negative power of 1, -1 or a larger base; CPowNegative, PowerMinusOne and OneOverLarge are about it |
| ExprParser.OneOverLarge | parser/grammars/expr_parser.c:602-611 | 1 divided by an integer of size at least two truncates to 0 |
| ExprParser.LexerOk | parser/grammars/expr_parser.c:424-427 | the lexer as written and as intended both meet what the parser relies on: progress on every token and a token code other than 0 and EOF |
| ExprParser.Advance | parser/grammars/expr_parser.c:424-427 | next_lookahead keeps the symbols, never lets the unread input grow, and shrinks it when the token consumed characters |
| ExprParser.EvalPlusTerm | parser/grammars/expr_parser.c:451-483 | plus_term leaves a consistent parser state and never moves back in the input |
| ExprParser.EvalParse | parser/grammars/expr_parser.c:770-775 | parse starts from the beginning of the string and leaves a consistent parser state |
| ExprParser.NumberPowTerm | parser/grammars/expr_parser.c:586-624 | a number followed by a token that ends a power is a pow_term of the number's value |
| ExprParser.NumberMulTerm | parser/grammars/expr_parser.c:522-579 | a number followed by +, -, ), a comma or the end is a mul_term of the number's value |
| ExprParser.SumOfProduct | parser/grammars/expr_parser.c:451-579 | * binds tighter than +: the tokens a + b * c evaluate to a + (b * c) |
| ExprParser.DifferenceLeft | parser/grammars/expr_parser.c:486-515 | - associates to the left: a - b - c evaluates to (a - b) - c |
| ExprParser.PowerLeft | parser/grammars/expr_parser.c:602-624 | pow_term_rest folds ^ from the left, so a ^ b ^ c evaluates to (a ^ b) ^ c |
| ExprParser.LeftMulHead | parser/grammars/expr_parser.c:538-579 | folding a run of *, / and % from the left starts with the first operator applied to the first operand |
| ExprParser.LeftSumHead | parser/grammars/expr_parser.c:486-515 | folding a run of signed products from the left starts with the first sign and product applied to the first operand |
| ExprParser.MulRestFolds | parser/grammars/expr_parser.c:538-579 | mul_term_rest over any run of *, / and % operands folds them from the left and stops after the run |
| ExprParser.MulTermFolds | parser/grammars/expr_parser.c:522-579 | mul_term of a number and any run of *, / and % operands is that run folded from the left |
| ExprParser.PlusRestStep | parser/grammars/expr_parser.c:486-515 | one turn of plus_term_rest: an additive operator, then a product, then the rest on the combined value |
| ExprParser.PlusRestFolds | parser/grammars/expr_parser.c:486-579 | plus_term_rest over any run of signed products folds them from the left, each product folded first |
| ExprParser.PlusTermFolds | parser/grammars/expr_parser.c:451-579 | plus_term of a number followed by any mix of +, -, *, / and % is the products folded from the left, then the sums folded from the left |
| ExprParser.DivisionLeft | parser/grammars/expr_parser.c:538-579 | / associates to the left and truncates: a / b / c is CDiv(CDiv(a, b), c) |
| ExprParser.QuotientInDifference | parser/grammars/expr_parser.c:486-579 | / binds tighter than -: a - b / c is a - CDiv(b, c) |
| ExprParser.FactorAssigns | parser/grammars/expr_parser.c:741-748 | name = sum is a factor of the sum's value, after which the name holds it and every other name keeps its value |
| ExprParser.FactorReads | parser/grammars/expr_parser.c:750-761 | a name neither called nor assigned is a factor of its value, 0 when unknown, and leaves the symbols unchanged |
| ExprParser.AssignSumOfProduct | parser/grammars/expr_parser.c:782-784 | "a = 2 + 3*4" evaluates to 2 + 3 * 4 and leaves that value in a |
| ExprParser.Calc.constructor | parser/grammars/expr_parser.c:44-46 | the lookahead starts as TOK_INVALID, there is no input and the symbol list holds only the head node |
| ExprParser.Calc.InitSymbols | parser/grammars/expr_parser.c:105-112 | init_symbols leaves the head node and "pi" with the value M_PI truncated to 3; the parser state is otherwise unchanged |
| ExprParser.Calc.DeinitSymbols | parser/grammars/expr_parser.c:115-127 | deinit_symbols releases every node after the head |
| ExprParser.Calc.FindSymbol | parser/grammars/expr_parser.c:130-143 | the list walk returns exactly Find, the first node with the name |
| ExprParser.Calc.AssignOrInsert | parser/grammars/expr_parser.c:146-172 | the new list is Assign of the old one and the returned node holds the name and the value |
| ExprParser.Calc.SetInput | parser/grammars/expr_parser.c:293-298 | set_input installs the string and restarts at index 0, nothing else changes |
| ExprParser.Calc.InputGet | parser/grammars/expr_parser.c:301-307 | input_get returns the next character and advances, or EOF at the end without moving |
| ExprParser.Calc.InputPeek | parser/grammars/expr_parser.c:310-316 | input_peek returns the character after the next one as written (the next one as intended), or EOF past the end |
| ExprParser.Calc.InputPutback | parser/grammars/expr_parser.c:319-323 | input_putback steps back one character, never before the start |
| ExprParser.Calc.InputEof | parser/grammars/expr_parser.c:326-329 | input_eof holds exactly when the index has reached the length |
| ExprParser.Calc.Lex | parser/grammars/expr_parser.c:335-416 | the loop's token, value, text and new index are those of LexFrom at the old index |
| ExprParser.Calc.NextLookahead | parser/grammars/expr_parser.c:424-427 | the new parser state is Advance of the old one |
| ExprParser.Calc.Match | parser/grammars/expr_parser.c:430-439 | match succeeds exactly when the lookahead is the expected token; nothing changes |
| ExprParser.Calc.PlusTerm | parser/grammars/expr_parser.c:451-483 | the value and the new state are EvalPlusTerm of the old state |
| ExprParser.Calc.TermThenRest | parser/grammars/expr_parser.c:451-483 | the value and the new state are mul_term followed by plus_term_rest on the product, negated when a minus sign was read |
| ExprParser.Calc.PlusTermRest | parser/grammars/expr_parser.c:486-515 | the value and the new state are EvalPlusTermRest of the old state |
| ExprParser.Calc.MulTerm | parser/grammars/expr_parser.c:522-535 | the value and the new state are EvalMulTerm of the old state |
| ExprParser.Calc.MulTermRest | parser/grammars/expr_parser.c:538-579 | the value and the new state are EvalMulTermRest of the old state |
| ExprParser.Calc.PowTerm | parser/grammars/expr_parser.c:586-599 | the value and the new state are EvalPowTerm of the old state |
| ExprParser.Calc.PowTermRest | parser/grammars/expr_parser.c:602-624 | the value and the new state are EvalPowTermRest of the old state |
| ExprParser.Calc.Factor | parser/grammars/expr_parser.c:631-766 | the value and the new state are EvalFactor of the old state |
| ExprParser.Calc.Parse | parser/grammars/expr_parser.c:770-775 | the input becomes the string and the value and the new state are EvalParse of the old state |
| ExprParser.Calc.LexRound | parser/grammars/expr_parser.c:345-384 | one round of lex's loop: a blank before any match is skipped, a newline before any match ends with the end token, otherwise the character joins the token and the loop goes on only while a match continues and the next character exists; each case agrees with LexLoop at the old index |
| ExprParser.Calc.LexExtend | parser/grammars/expr_parser.c:365-384 | the rest of a round once a character is read into the token: either the loop goes on from the next index with the same outcome, or it stops and the finished token is the loop's |
| Banker.Release | os/banker.cpp:59-63 | each available amount grows by exactly what the terminating process held of that resource |
| Banker.AvailAfterStep | os/banker.cpp:59-63 | terminating one more process releases its allocation on top of what the earlier terminations released |
| GraphEngine.Vertex.constructor | graphs/Graph.java:40-43 | the vertex carries the given name |
| GraphEngine.Entries | graphs/Graph.java:163-167 | one queue entry per neighbour, in neighbour order: from v, to the neighbour, at v's distance plus the edge's weight |
| RvString.DigitChar | os/cpp_rv/string.h:32-41 | for digit values below 36 the character is not NUL and reads back as that digit value |
| Cyk.Pairs | parser/grammars/cyk.cpp:133-145 | for one x, the rules [x, y] for every y of the second list, in its order |
| Cyk.Diagonal | parser/grammars/cyk.cpp:208-223 | sub-diagonal sub lists the cells (x + sub, x) from the top down |
| ExprParser.EvalPlusTermRest | parser/grammars/expr_parser.c:486-515 | plus_term_rest leaves a consistent parser state and never moves back in the input |
| ExprParser.EvalMulTerm | parser/grammars/expr_parser.c:522-535 | mul_term leaves a consistent parser state and never moves back in the input |
| ExprParser.EvalMulTermRest | parser/grammars/expr_parser.c:538-579 | mul_term_rest leaves a consistent parser state and never moves back in the input |
| ExprParser.EvalPowTerm | parser/grammars/expr_parser.c:586-599 | pow_term leaves a consistent parser state and never moves back in the input |
| ExprParser.EvalPowTermRest | parser/grammars/expr_parser.c:602-624 | pow_term_rest leaves a consistent parser state and never moves back in the input |
| ExprParser.EvalFactor | parser/grammars/expr_parser.c:631-766 | factor leaves a consistent parser state and never moves back in the input |
| GraphAlgos.Below | libs/graph_algos.h:114-115 | the set of vertex indices pushed into the queue is exactly 0 .. N-1 |
| GraphAlgos.Dijk | libs/graph_algos.h:79-158 | an unknown start vertex gives empty results. Otherwise the vectors have one entry per vertex. The start has distance 0 and no predecessor. A vertex has a predecessor exactly when its distance dropped below the initial max/2. Each predecessor edge exists and does not overestimate. Every vertex was popped, and every edge out of a popped vertex is relaxed |
| GraphAlgos.RelaxFrom | libs/graph_algos.h:123-134 | relaxing every outgoing edge of the popped vertex keeps the tree invariant and leaves that vertex settled |
| GraphAlgos.RelaxEdge | libs/graph_algos.h:126-133 | the distance and the predecessor of n change exactly when vert -> n is an edge and the path through vert is strictly shorter; then d[n] = d[vert] + w and the predecessor is vert |
| GraphAlgos.RelaxKeeps | libs/graph_algos.h:129-133 | a strict improvement keeps the tree invariant and the settled vertices settled |
| GraphAlgos.TreePath | libs/graph_algos.h:118-135 | following the predecessors from a vertex with a finite distance leads back to the start along a walk no heavier than that distance |
| GraphAlgos.BestIn | libs/graph_algos.h:192-203 | the relaxed entry is at most the entry above it and at most prev[k] + w for every incoming edge k -> v |
| GraphAlgos.BestInAttained | libs/graph_algos.h:192-203 | the relaxed entry is the entry above it or comes through one incoming edge |
| GraphAlgos.Row | libs/graph_algos.h:184-203 | each row of bellman's distance matrix has one entry per vertex |
| GraphAlgos.Bellman | libs/graph_algos.h:165-209 | an unknown start vertex gives an empty matrix; otherwise an N-by-N matrix whose row i is Row(i) |
| GraphAlgos.FillRow | libs/graph_algos.h:190-205 | row i becomes the relaxation of row i-1; every other row is unchanged |
| GraphAlgos.RowsNonIncreasing | libs/graph_algos.h:192-203 | bellman rows never increase: dists(i, v) <= dists(i-1, v) |
| GraphAlgos.RowBounds | libs/graph_algos.h:184-203 | every entry lies between 0 and its row-0 value: 0 at the start, infinity elsewhere |
| GraphAlgos.RowBelowWalks | libs/graph_algos.h:188-206 | row i is at most the weight of any walk from the start with at most i edges |
| GraphAlgos.RowIsWalk | libs/graph_algos.h:188-206 | every finite entry of row i is the weight of a walk from the start with at most i edges |
| GraphConts.IndexOf | libs/graph_conts.h:56-75 | std::find: None exactly when the identifier is not listed, otherwise its first position |
| GraphConts.Grown | libs/graph_conts.h:43-47 | the grown matrix is square one larger, keeps every old entry and has zeros in the new row and column |
| GraphConts.WeightOf | libs/graph_conts.h:81-95 | the zero weight whenever either identifier is unknown |
| GraphConts.WithWeight | libs/graph_conts.h:64-78 | nothing changes for an unknown identifier; otherwise only entry (idx1, idx2) changes, to w |
| GraphConts.NeighboursFrom | libs/graph_conts.h:125-129 | with at least as many identifiers as columns the scan succeeds, and it lists exactly the identifiers of the non-zero columns |
| GraphConts.NeighboursOf | libs/graph_conts.h:116-122 | an unknown vertex has the empty neighbour list |
| GraphConts.AdjacencyMatrix.constructor | libs/graph_conts.h:37 | a new container has no identifiers and an empty matrix |
| GraphConts.AdjacencyMatrix.Find | libs/graph_conts.h:56-83 | the std::find loop returns IndexOf of the identifier |
| GraphConts.AdjacencyMatrix.AddVertex | libs/graph_conts.h:41-51 | the identifier is appended and the matrix is grown by a zero row and a zero column |
| GraphConts.AdjacencyMatrix.RemoveVertex | libs/graph_conts.h:54-61 | only the first occurrence of the identifier is erased; an unknown identifier changes nothing; the matrix is unchanged |
| GraphConts.AdjacencyMatrix.SetWeight | libs/graph_conts.h:64-78 | the matrix becomes WithWeight of the old one; the identifiers are unchanged |
| GraphConts.AdjacencyMatrix.GetWeight | libs/graph_conts.h:81-95 | returns WeightOf the two identifiers |
| GraphConts.AdjacencyMatrix.AddEdge | libs/graph_conts.h:98-101 | the same new state as SetWeight |
| GraphConts.AdjacencyMatrix.RemoveEdge | libs/graph_conts.h:104-107 | the same new state as SetWeight with weight 0 |
| GraphConts.AdjacencyMatrix.IsAdjacent | libs/graph_conts.h:110-113 | true exactly when the weight between the identifiers is not zero |
| GraphConts.AdjacencyMatrix.GetNeighbours | libs/graph_conts.h:116-132 | returns NeighboursOf the vertex |
| GraphConts.GetAfterSet | libs/graph_conts.h:64-95 | after SetWeight(a, b, w) on known identifiers GetWeight(a, b) is w, and every other pair of positions reads as before |
| GraphConts.RemoveEdgeNotAdjacent | libs/graph_conts.h:104-113 | after RemoveEdge(a, b), IsAdjacent(a, b) is false, known identifiers or not |
| GraphConts.AddVertexKeepsWeights | libs/graph_conts.h:41-95 | AddVertex keeps every weight between known identifiers, and a new identifier has no edges |
| GraphConts.NeighboursAreAdjacent | libs/graph_conts.h:110-132 | with one distinct identifier per column, x is among GetNeighbours(v) exactly when IsAdjacent(v, x) |
| GraphConts.RemoveVertexRevivesEdge | libs/graph_conts.h:54-61 | as written, removing "A" from [A, B] lets B read A's row and column: a self-loop on A shows up as one on B |
| GraphConts.WithoutVertex | libs/graph_conts.h:54-61 | the intended RemoveVertex: a known identifier loses its entry, its row and its column; an unknown one changes nothing |
| GraphConts.WithoutVertexKeepsWeights | libs/graph_conts.h:54-95 | after the intended RemoveVertex every weight between two other identifiers is unchanged |
| GraphEngine.Yielded | graphs/Graph.java:120-127 | one edge yields at most one neighbour pair: (to, dist) when it starts at v; in a directed graph nothing otherwise |
| GraphEngine.Neighbours | graphs/Graph.java:116-130 | the neighbour list of v has at most one entry per edge |
| GraphEngine.NeighbourSource | graphs/Graph.java:120-127 | every pair in the neighbour list of v is the contribution of one edge |
| GraphEngine.NeighbourComplete | graphs/Graph.java:120-127 | every edge that contributes a pair for v has that pair in the neighbour list |
| GraphEngine.NeighboursAppend | graphs/Graph.java:108-130 | after addEdge the neighbour list of every vertex is the old list followed by the new edge's contribution, so neighbour lists follow edge insertion order |
| GraphEngine.Graph.constructor | graphs/Graph.java:84-89 | a new graph has no vertices and no edges and keeps the directed flag |
| GraphEngine.Graph.AddVertex | graphs/Graph.java:100-105 | a fresh vertex with the given name is appended to the vertex list; the edges are unchanged |
| GraphEngine.Graph.AddEdge | graphs/Graph.java:108-113 | the edge (from, to, dist) is appended to the edge list and returned; the vertices are unchanged |
| GraphEngine.Graph.GetNeighbours | graphs/Graph.java:116-130 | the loop returns exactly the neighbour list of v: the pairs the edges yield, in edge order |
| GraphEngine.Graph.Enqueue | graphs/Graph.java:194-195 | the queue afterwards is the old queue followed by the target vertices of the neighbour list |
| GraphEngine.BfsFinish | graphs/Graph.java:188-198 | once the queue is empty the visited list holds exactly the vertices that walks from start reach |
| GraphEngine.Graph.BreadthFirstOrder | graphs/Graph.java:175-199 | the result starts with start, has no repeats, holds only vertices reachable from start, and holds the end of every walk from start |
| GraphEngine.PollMin | graphs/Graph.java:136-156 | poll returns an entry whose distance is no larger than that of any entry in the queue |
| GraphEngine.PushEntries | graphs/Graph.java:163-167 | the queue afterwards is the old queue followed by one entry (v, w, d + dist) per neighbour pair (w, dist) of v |
| GraphEngine.SettledWalk | graphs/Graph.java:156-168 | a walk from a settled vertex ends at a settled vertex; with non-negative weights, its end's settled distance is at most the start's distance plus the walk's length |
| GraphEngine.DijkFinish | graphs/Graph.java:156-170 | when the queue is empty, the predecessor list starts with the start edge, its distances are walk lengths, and it holds every vertex reachable from start, at a shortest distance when no weight is negative |
| GraphEngine.LinkedFinish | graphs/Graph.java:160-166 | every predecessor edge after the first has a settled source, and its distance is the source's distance plus the weight of a neighbour pair of that source |
| GraphEngine.Graph.DijkPath | graphs/Graph.java:133-171 | the result starts with (null, start, 0) and names each vertex at most once. Each edge's source is settled earlier, and each distance is the length of a walk from start. Every vertex reachable from start is listed. Each later edge extends its source's distance by one neighbour weight. With non-negative weights the distances are shortest and non-decreasing |
| GraphEngine.Graph.DepthFirstVisit | graphs/Graph.java:202-213 | the list grows and v comes right after the old entries. No vertex is listed twice, all listed vertices are reachable from start, and every neighbour of a finished vertex is listed |
| GraphEngine.Graph.DepthFirstOrder | graphs/Graph.java:216-222 | the result starts with start, has no repeats, and is exactly the set of vertices reachable from start |
| GraphEngine.Graph.SettleAll | graphs/Graph.java:156-168 | the polling loop runs until the queue is empty and keeps the Dijkstra invariant: one settled edge per vertex, each source settled earlier, every distance a walk length, queued entries closed under the neighbour relation, and with non-negative weights settled distances no larger than queued ones; every settled edge extends its source's distance by one neighbour weight |
| Lcd.EntryModeCommand | hdl/tools/lcd.c:69-77 | the entry-mode byte is 000001·I/D·S: bit 1 says increment, bit 0 says shift |
| Lcd.ShiftCommand | hdl/tools/lcd.c:93-101 | the shift byte is 0001·S/C·R/L·00: bit 3 shifts the display rather than the caret, bit 2 shifts right |
| Lcd.FunctionCommand | hdl/tools/lcd.c:107-117 | the function-set byte is 001·DL·N·F·00 |
| Lcd.DisplayCommand | hdl/tools/lcd.c:123-133 | the display-control byte is 00001·D·C·B |
| Lcd.NulIndex | hdl/tools/lcd.c:139-147 | the loop of lcd_puts stops at the first zero byte: every earlier byte is non-zero |
| Lcd.Joined | hdl/tools/lcd.c:33-37 | nibbles latched by the display pair into half as many bytes, high nibble first |
| Lcd.RunAppend | hdl/tools/lcd.c:16-27 | the display watching two runs of callbacks one after the other latches what each latches, in order |
| Lcd.StepEnable | hdl/tools/lcd.c:24-26 | driving the enable line latches the data lines exactly when it goes from high to low |
| Lcd.DataLinesOfNibble | hdl/tools/lcd.c:20-23 | d4..d7 driven from bits 0..3 of the data read back as the low four bits of the data |
| Lcd.SetupReceived | hdl/tools/lcd.c:18-23 | the six line settings of lcd_send_nibble, sent with enable low, latch nothing |
| Lcd.PulseReceived | hdl/tools/lcd.c:24-26 | the enable pulse low, high, low latches the data lines and register select once and leaves enable low |
| Lcd.NibbleReceived | hdl/tools/lcd.c:16-27 | lcd_send_nibble makes the display latch the low four bits of the data with the given register select, once |
| Lcd.SplitByte | hdl/tools/lcd.c:33-37 | the two nibbles lcd_send_byte sends are the high and the low half of the byte, and they pair back into it |
| Lcd.ByteReceived | hdl/tools/lcd.c:33-37 | lcd_send_byte makes the display latch the high and then the low nibble with the same register select, which pair back into the byte |
| Lcd.JoinedAppend | hdl/tools/lcd.c:33-37 | pairing the latches of two whole bytes-runs one after the other gives the bytes of each, in order |
| Lcd.BytesReceived | hdl/tools/lcd.c:139-147 | sending a string byte by byte makes the display receive exactly those bytes, in order, each with the given register select |
| Lcd.RunDelay | hdl/tools/lcd.c:25 | a delay changes no line and latches nothing |
| Lcd.InitReceived | hdl/tools/lcd.c:44-53 | lcd_init makes the display latch 0011 three times and then 0010, all as commands |
| Lcd.Display.constructor | hdl/tools/lcd.h:17-38 | a display with the given wiring and no callbacks made yet |
| Lcd.Display.Pin | hdl/tools/lcd.h:33 | set_pin appends one call with the pin and state converted to uint8_t |
| Lcd.Display.Wait | hdl/tools/lcd.h:30 | delay appends one call |
| Lcd.Display.SendNibble | hdl/tools/lcd.c:16-27 | lcd_send_nibble appends enable low, register select, d4..d7 from bits 0..3, then enable high, one millisecond, enable low |
| Lcd.Display.SendByte | hdl/tools/lcd.c:33-37 | lcd_send_byte appends the high nibble and then the low nibble, both with the same register select |
| Lcd.Display.Init | hdl/tools/lcd.c:44-53 | lcd_init appends the power-on delays and the nibbles 0011, 0011, 0011, 0010 as commands |
| Lcd.Display.Clear | hdl/tools/lcd.c:59-63 | lcd_clear sends the command 00000001, then waits two milliseconds |
| Lcd.Display.Return | hdl/tools/lcd.c:83-87 | lcd_return sends the command 00000010, then waits two milliseconds |
| Lcd.Display.SetCaretDirection | hdl/tools/lcd.c:69-77 | lcd_set_caret_direction sends EntryModeCommand as a command byte |
| Lcd.Display.Shift | hdl/tools/lcd.c:93-101 | lcd_shift sends ShiftCommand as a command byte |
| Lcd.Display.SetFunction | hdl/tools/lcd.c:107-117 | lcd_set_function sends FunctionCommand as a command byte with RS = 0 |
| Lcd.Display.SetDisplay | hdl/tools/lcd.c:123-133 | lcd_set_display sends DisplayCommand as a command byte |
| Lcd.Display.Puts | hdl/tools/lcd.c:139-147 | lcd_puts sends every byte before the terminating NUL, in order, as data with RS = 1 |
| LL1Grammar.HasEpsRule | parser/grammars/ll1.cpp:142-150 | true exactly when one of the nonterminal's rules is eps alone |
| LL1Grammar.HasLeftRecursions | parser/grammars/ll1.cpp:368-384 | true exactly when some rule begins with its own nonterminal (direct left recursion) |
| LL1Grammar.PerRuleFirst | parser/grammars/ll1.cpp:215-232 | there is one per-rule FIRST set for each rule of the nonterminal |
| LL1Grammar.FirstMono | parser/grammars/ll1.cpp:208-273 | once the FIRST recursion ends within n nested calls, allowing more depth changes neither FIRST nor the per-rule sets |
| LL1Grammar.RulesFirstHas | parser/grammars/ll1.cpp:219-269 | FIRST of each rule is part of FIRST of its nonterminal |
| LL1Grammar.TerminalFirst | parser/grammars/ll1.cpp:228-234 | a rule starting with a terminal has that terminal as its whole per-rule FIRST set, and the terminal is in FIRST of the nonterminal |
| LL1Grammar.EpsInFirst | parser/grammars/ll1.cpp:236-266 | eps is in FIRST of a rule exactly when the scan passes only nullable nonterminals and then meets eps or ends at the last symbol |
| LL1Grammar.FirstTerminals | parser/grammars/ll1.cpp:228-262 | every FIRST set holds terminals only |
| LL1Grammar.IndirectLeftRecursion | parser/grammars/ll1.cpp:238-240 | A -> B x, B -> A y passes the left-recursion test, yet CalcFirst(A) recurses without end at every depth bound |
| LL1Grammar.CyclicFollow | parser/grammars/ll1.cpp:351-357 | A -> x B, B -> y A passes the left-recursion test and has finite FIRST sets, but its FOLLOW sets depend on each other in a cycle, so no rank orders them and CalcFollow does not end |
| LL1Grammar.LL1.constructor | parser/grammars/ll1.cpp:388-402 | afterwards every declared nonterminal has its FIRST set, its per-rule FIRST sets and its FOLLOW set, each equal to its definition |
| LL1Grammar.LL1.AllFirst | parser/grammars/ll1.cpp:396-397 | FIRST of every declared nonterminal is stored and correct; FOLLOW is untouched |
| LL1Grammar.LL1.AllFollow | parser/grammars/ll1.cpp:400-401 | FOLLOW of every declared nonterminal is stored and correct; FIRST is untouched |
| LL1Grammar.LL1.CalcFirst | parser/grammars/ll1.cpp:208-273 | the stored FIRST set of id is its definition; stored sets stay; a set already present is not recomputed |
| LL1Grammar.LL1.FirstOfRule | parser/grammars/ll1.cpp:219-268 | the scan of one rule yields exactly that rule's FIRST set |
| LL1Grammar.AddFirst | parser/grammars/ll1.cpp:244-262 | everything but eps is added, eps too at the rule's last symbol, and the flag says whether eps was met |
| LL1Grammar.LL1.CalcFollow | parser/grammars/ll1.cpp:279-365 | the stored FOLLOW set of b is its definition; entries of higher rank are untouched; a set already present is not recomputed |
| LL1Grammar.LL1.FollowInNonterm | parser/grammars/ll1.cpp:299-360 | the scan of one nonterminal's rules yields what its occurrences of b add |
| LL1Grammar.LL1.FollowInRule | parser/grammars/ll1.cpp:304-358 | the scan of one rule yields what its occurrences of b add |
| LL1Grammar.LL1.Occurrence | parser/grammars/ll1.cpp:307-357 | one occurrence adds FIRST of what follows (without eps) and, when only nullable symbols follow, the parent's FOLLOW |
| LL1Grammar.LL1.ParentFollow | parser/grammars/ll1.cpp:351-357 | the parent's FOLLOW set, or nothing when the parent is b itself |
| LL1Grammar.LL1.FollowRestOf | parser/grammars/ll1.cpp:310-331 | the loop over the symbols after an occurrence yields FIRST of the rest up to the first non-nullable symbol, without eps |
| LL1Grammar.TailNullableFrom | parser/grammars/ll1.cpp:335-351 | true exactly when the occurrence is last or only nonterminals with an eps rule follow it |
| LL1Grammar.FollowOfOccurrence | parser/grammars/ll1.cpp:304-357 | for every occurrence of b: FOLLOW(b) holds FIRST of what follows it (a following terminal in particular) and, when only nullable nonterminals follow, FOLLOW of the parent |
| LL1Grammar.StartFollowedByEnd | parser/grammars/ll1.cpp:290-292 | FOLLOW of the start symbol holds the end symbol |
| LL1Grammar.Create | parser/grammars/ll1.cpp:388-402 | fails, with the source's message, exactly when the grammar is directly left recursive; otherwise FIRST and FOLLOW of every nonterminal are their definitions |
| MaxSubvec.SumSplit | geo/maxsubvec.cpp:50 | the sum of a range is the sum of its two halves at any split point |
| MaxSubvec.SubvecIneffic | geo/maxsubvec.cpp:38-61 | the returned value is at least the sum of every non-empty range and is the sum of the returned range, which is the first (by start, then end) range reaching it; with no elements the result is (0, 0, -max) |
| MaxSubvec.SubvecSweep | geo/maxsubvec.cpp:65-97 | the returned range (possibly empty) has the returned sum, no range sums to more, the range ends as early as possible and then starts as early as possible, and a zero maximum gives (0, 0) |
| MaxSubvec.SameWhenPositive | geo/maxsubvec.cpp:120-126 | when some range has a positive sum the two algorithms return the same triple, which is what the test driver expects |
| MaxSubvec.DifferWhenNonPositive | geo/maxsubvec.cpp:120-126 | when no range has a positive sum (and the first element exceeds -max) the two results differ, so the test driver's comparison reports a mismatch there |
| NfaToDfa.GetEndState | parser/grammars/nfa_to_dfa.cpp:41-54 | the result is exactly the set of targets of transitions leaving `start` via `sym` |
| NfaToDfa.ReachableStates | parser/grammars/nfa_to_dfa.cpp:129-136 | the merged set is exactly the NFA states reachable in one `sym` step from some NFA state of the DFA state |
| NfaToDfa.SubsetFamilyBound | parser/grammars/nfa_to_dfa.cpp:114-172 | a family of subsets of a finite set u has at most 2^|u| members (the bound that makes the main loop terminate) |
| NfaToDfa.DistinctBound | parser/grammars/nfa_to_dfa.cpp:140-149 | a list of distinct DFA states over u has at most 2^|u| entries, so has_state-guarded appends stop |
| NfaToDfa.HasState | parser/grammars/nfa_to_dfa.cpp:71-88 | found exactly when the set is non-empty and already a DFA state; then the index is its first position; otherwise the index is 0 |
| NfaToDfa.HasTransition | parser/grammars/nfa_to_dfa.cpp:92-105 | found exactly when the transition (start, end, symbol) is already listed |
| NfaToDfa.Ascending | parser/grammars/nfa_to_dfa.cpp:127 | the symbols as a strictly increasing sequence holding exactly the set, the order in which a std::set is iterated |
| NfaToDfa.StepOf | parser/grammars/nfa_to_dfa.cpp:138-166 | one symbol step never removes DFA states |
| NfaToDfa.Step | parser/grammars/nfa_to_dfa.cpp:129-166 | the step is StepOf of the old DFA: it keeps the DFA well formed, only appends, covers (idx, sym) with a transition, reports exactly whether it added a state or a transition, and changes nothing when (idx, sym) was already covered |
| NfaToDfa.InOrder | parser/grammars/nfa_to_dfa.cpp:127 | stepping with the least remaining symbol and then the rest in ascending order is stepping through all of them in ascending order |
| NfaToDfa.ProcessState | parser/grammars/nfa_to_dfa.cpp:124-167 | the symbol loop for one DFA state equals the steps over the symbols in ascending order (fixing the numbering of new states and the order of transitions), keeps earlier states covered, covers this one, and reports exactly what changed |
| NfaToDfa.Round | parser/grammars/nfa_to_dfa.cpp:116-171 | one pass over all DFA states (including those it adds) leaves every state covered for every symbol, only appends, reports exactly whether anything changed, and changes nothing on a complete DFA |
| NfaToDfa.NumberStates | parser/grammars/nfa_to_dfa.cpp:174-188 | the DFA's states are 0..n-1 and each state is listed as an end state once per NFA end state it contains |
| NfaToDfa.NfaToDfa | parser/grammars/nfa_to_dfa.cpp:62-191 | state 0 is {start}; DFA states are distinct non-empty subsets of the NFA's states; every transition goes to the NFA successor set, and every non-empty successor set has a transition; transitions are distinct; states and end states as above |
| NfaToDfa.Deterministic | parser/grammars/nfa_to_dfa.cpp:152-166 | at most one DFA transition leaves a state via a symbol, so the result is deterministic |
| NfaToDfa.EndStatesOfDfa | parser/grammars/nfa_to_dfa.cpp:180-187 | a DFA state is an end state exactly when it contains an NFA end state, and it appears once per such end state (the `continue` does not stop the inner loop) |
| Runtime.Idx | parser/6-arrays/runtime.cpp:49 | the row-major flat index `row*N + col` of a position inside the matrix lies inside the buffer |
| Runtime.IdxInjective | parser/6-arrays/runtime.cpp:49 | distinct positions of a matrix have distinct row-major indices, so no write of the copy loops overwrites another |
| Runtime.IdxSplit | parser/6-arrays/runtime.cpp:49 | every index of the buffer is the row-major index of exactly one row and column |
| Runtime.Grid | parser/6-arrays/runtime.cpp:35-62 | the row-major buffer of an h by w matrix holds f(r, c) at row r, column c |
| Runtime.CopyMat | parser/6-arrays/runtime.cpp:178-181 | the nested copy loop leaves the destination equal to the source |
| Runtime.SubmatOf | parser/6-arrays/runtime.cpp:35-62 | the N-1 by N-1 submatrix holds M's element from the row and column after skipping iremove and jremove |
| Runtime.Submat | parser/6-arrays/runtime.cpp:35-62 | ext_submat writes exactly SubmatOf: M without row iremove and column jremove, row-major, into the (N-1)² buffer |
| Runtime.ZerosIn | parser/6-arrays/runtime.cpp:84-89 | the zero count of a row is at most the number of columns examined |
| Runtime.ZerosInAll | parser/6-arrays/runtime.cpp:84-89 | a row counts as many zeros as it has columns exactly when all its elements are zero |
| Runtime.ChooseRowBest | parser/6-arrays/runtime.cpp:79-96 | the row search picks a row with the most zeros, and because it replaces only on `>` every earlier row has strictly fewer |
| Runtime.ChooseRowFrom | parser/6-arrays/runtime.cpp:82-96 | from any row on, the search keeps the best row so far as its invariant |
| Runtime.ChooseMaxZerosRow | parser/6-arrays/runtime.cpp:79-96 | the row loop returns ChooseRow, the first row with the most zeros |
| Runtime.Determinant | parser/6-arrays/runtime.cpp:68-117 | ext_determinant returns Det: 0 for N = 0, M[0] for N = 1, ad - bc for N = 2, otherwise the cofactor expansion along the row with the most zeros |
| Runtime.ExpandRow | parser/6-arrays/runtime.cpp:101-113 | the expansion loop sums the cofactor terms of the chosen row, skipping zero elements |
| Runtime.Cofactor | parser/6-arrays/runtime.cpp:106-112 | one term is the element times the minor's determinant times the sign (-1)^(row+col) |
| Runtime.ExpandZeroRow | parser/6-arrays/runtime.cpp:104-108 | expanding along a row of zeros gives 0, since every element is skipped |
| Runtime.ZeroRowDet | parser/6-arrays/runtime.cpp:68-117 | a matrix with a row of zeros has determinant 0 |
| Runtime.ZerosInIdentity | parser/6-arrays/runtime.cpp:84-89 | row r of the identity counts a zero in every column except column r |
| Runtime.ExpandIdentity | parser/6-arrays/runtime.cpp:101-113 | expanding the identity along row 0 leaves only the minor of the first column |
| Runtime.SubmatIdentity | parser/6-arrays/runtime.cpp:35-62 | removing the first row and column of the identity leaves the smaller identity |
| Runtime.DetIdentity | parser/6-arrays/runtime.cpp:68-117 | the identity has determinant 1, and the empty matrix 0 as the special case says |
| Runtime.TransposeOf | parser/6-arrays/runtime.cpp:213-218 | the transpose holds M[i*cols + j] at T[j*rows + i] for every row i and column j |
| Runtime.Transpose | parser/6-arrays/runtime.cpp:213-218 | ext_transpose writes exactly TransposeOf into T |
| Runtime.TransposeTwice | parser/6-arrays/runtime.cpp:213-218 | transposing twice gives the matrix back |
| Runtime.MatMul | parser/6-arrays/runtime.cpp:151-163 | RES[i*J + j] is the sum over k of M1[i*K + k] * M2[k*J + j] |
| Runtime.Mult | parser/6-arrays/runtime.cpp:151-163 | ext_mult writes exactly MatMul into RES |
| Runtime.Identity | parser/6-arrays/runtime.cpp:166-206 | the identity has ones exactly on the diagonal |
| Runtime.MatMulIdentity | parser/6-arrays/runtime.cpp:151-163 | the product with the identity on either side gives the matrix back |
| Runtime.MatPow | parser/6-arrays/runtime.cpp:183-192 | the power of an N by N matrix is again N by N |
| Runtime.MatPowOne | parser/6-arrays/runtime.cpp:178-181 | the first power is the matrix itself, which is what the copy into Mtmp starts from |
| Runtime.MultiplyUp | parser/6-arrays/runtime.cpp:183-192 | after the loop Mtmp holds M to the power \|POW\|, and Mtmp2 holds it too unless the loop never ran, when Mtmp2 keeps what malloc left |
| Runtime.StoreResult | parser/6-arrays/runtime.cpp:194-205 | for a negative power P gets the inverse and status 1, or status 0 when there is none; otherwise P gets Mtmp2 as written (Mtmp as intended) |
| Runtime.Power | parser/6-arrays/runtime.cpp:169-206 | P is M^\|POW\| for \|POW\| >= 2, its inverse for negative POW with status 0 when singular; for \|POW\| <= 1 as written P is the never-written buffer, as intended M^\|POW\| |
| RvString.FirstNul | os/cpp_rv/string.h:114-123 | the position of the first NUL: no NUL before it, a NUL at it unless it is the end |
| RvString.SwappedReverses | os/cpp_rv/string.h:15-29 | exchanging all mirror pairs of the first half reverses the string |
| RvString.ReverseCStrAt | os/cpp_rv/string.h:15-29 | reverse_str exchanges each position before the first NUL of the first half with its mirror image and leaves the middle untouched; a string without NUL is fully reversed |
| RvString.ReverseStr | os/cpp_rv/string.h:15-29 | the buffer range becomes the reverse_str image of its old contents, and nothing outside the range changes |
| RvString.Exchange | os/cpp_rv/string.h:20-27 | the exchange buf[i] = buf[j], buf[j] = c makes the range the (i+1)-th stage of the mirror swaps and leaves everything outside it unchanged |
| RvString.DigitToChar | os/cpp_rv/string.h:32-41 | for bases up to 36 the character's digit value is num mod base |
| RvString.QuotRem | os/cpp_rv/string.h:50-51 | num is quotient times base plus remainder |
| RvString.RevLowDigits | os/cpp_rv/string.h:48-69 | the digits produced least significant first, reversed, are the digits most significant first |
| RvString.DigitsNotNul | os/cpp_rv/string.h:60-63 | no produced digit is a NUL, so the text ends at the written terminator |
| RvString.DivStep | os/cpp_rv/string.h:50-58 | one division step: the loop stops exactly when quotient and remainder are both 0, and otherwise the remainder is the next low digit |
| RvString.WriteLowDigits | os/cpp_rv/string.h:47-67 | the loop writes the low-first digits of num (a single '0' for zero) followed by a NUL, and nothing else |
| RvString.UintToStr | os/cpp_rv/string.h:44-70 | the buffer holds the base-`base` text of num followed by a NUL, so the C string is that text; later bytes are unchanged |
| RvString.DigitsAt | os/cpp_rv/string.h:47-69 | from index beg the digits, the NUL and the reversal leave the base-`base` text of n, a NUL right after it, and nothing else changed |
| RvString.IntToStr | os/cpp_rv/string.h:73-111 | the buffer holds '-' for negative numbers and then the digits of the magnitude, NUL-terminated |
| RvString.MyStrlen | os/cpp_rv/string.h:114-123 | the length is the number of characters before the first NUL |
| RvString.MyMemset | os/cpp_rv/string.h:182-187 | the first size bytes become val, the rest are unchanged |
| RvString.MyMemcpy | os/cpp_rv/string.h:198-203 | the first size bytes of the destination become those of the source, the rest are unchanged |
| RvString.CopyCount | os/cpp_rv/string.h:214-225 | the number of bytes my_strncpy copies: max_len, or the source string and its NUL when that is shorter |
| RvString.MyStrncpy | os/cpp_rv/string.h:214-225 | exactly the copied bytes of the source land at the offset; every other destination byte is unchanged |
| RvString.Room | os/cpp_rv/string.h:232 | max_len - len computed in 32-bit unsigned arithmetic (wrapping when len > max_len) |
| RvString.MyStrncat | os/cpp_rv/string.h:228-233 | the source is copied after the destination's string, limited to the (wrapping) room; when the source's NUL fits, the C string becomes the concatenation |
| RvString.ConcatCStr | os/cpp_rv/string.h:228-233 | a buffer holding d's string and then s's string with its NUL reads as the concatenation |
| RvString.StrncatChar | os/cpp_rv/string.h:236-245 | c and a NUL are written at the end of the string exactly when they fit below max_len; otherwise the buffer is unchanged; the string grows by c in the first case |
| RvString.Mismatch | os/cpp_rv/string.h:251-263 | the first position where the strings differ or end: equal, non-NUL characters before it |
| RvString.MyStrncmp | os/cpp_rv/string.h:248-267 | 0 exactly when the strings agree on max_len characters or up to a common NUL; -1 (as a byte) or 1 exactly when the first differing character is smaller or larger |
| RvString.IsDigitHexNeverHolds | os/cpp_rv/string.h:310-321 | as written, my_isdigit with hex accepts no character at all, not even '0' |
| RvString.IsDigitClasses | os/cpp_rv/string.h:310-321 | the corrected test accepts exactly the digits and the letters a-f/A-F with hex, and agrees with the code as written without hex |
| RvString.MyAtoi | os/cpp_rv/string.h:324-344 | the result is the positional value, in base `base`, of the characters of the C string |
| RvString.UintTextRoundTrip | os/cpp_rv/string.h:44-70 | reading back the text uint_to_str writes gives the number again (for bases 2 to 36) |
| RvString.ValueLeadingZero | os/cpp_rv/string.h:330-341 | leading zeros do not change my_atoi's value |
| RvString.AtoiDropsSign | os/cpp_rv/string.h:324-344 | my_atoi has no sign handling: reading int_to_str's text of a negative number yields its magnitude |
| Sched.HigherFirstAsWrittenReflexive | os/sched.cpp:123-126 | the priority comparator as written (`>=`) says every process goes before itself, so it is not the strict weak order std::stable_sort needs; the `>` comparator does not |
| Sched.ComparatorsAreKeyOrders | os/sched.cpp:87-90 | the remaining-time comparator and the corrected priority comparator are irreflexive, transitive, with transitive incomparability, and are exactly "smaller key first" for the two orders |
| Sched.StableSortSorted | os/sched.cpp:87-90 | the reference stable sort leaves the queue ordered by the key |
| Sched.StableSortPerm | os/sched.cpp:87-90 | the stable sort neither loses nor invents processes (same multiset) |
| Sched.StableSortStable | os/sched.cpp:87-90 | processes with equal key keep their relative order (stability of std::stable_sort) |
| Sched.StableSortSortedFixed | os/sched.cpp:87-90 | sorting an already ordered queue changes nothing |
| Sched.InsertSorted | os/sched.cpp:84-91 | inserting one process into an ordered queue keeps it ordered |
| Sched.InsertOnly | os/sched.cpp:84-91 | insertion puts the new process after every queued process of the same key |
| Sched.AddToSorted | os/sched.cpp:84-91 | re-sorting an ordered queue after push_back is the same as inserting the new process in place |
| Sched.TotalSort | os/sched.cpp:84-91 | sorting keeps the total remaining work of the queue |
| Sched.CoopStep | os/sched.cpp:57-69 | no process exactly when the queue is empty; otherwise the front process is run to the end (scheduled = its remaining time, remaining 0) and dropped, and total work is conserved |
| Sched.RRStep | os/sched.cpp:167-182 | no process exactly when the queue is empty; the front process runs min(remaining, timeslice), its remaining time drops by exactly that, and it is requeued at the back exactly when time remains |
| Sched.RRProgress | os/sched.cpp:174-179 | with a positive time slice a step lowers the total remaining work or shortens the queue, so scheduling terminates |
| Sched.RRZeroSliceStalls | os/sched.cpp:159 | with a zero time slice a step leaves an unfinished front process unchanged and requeues it, so nothing progresses |
| Sched.RRRun | os/sched.cpp:397-408 | the run log is empty exactly when the initial queue is |
| Sched.RRRunAccounts | os/sched.cpp:397-408 | over the whole round-robin run the scheduled times add up to the initial total work and every process finishes exactly once |
| Sched.ResortStep | os/sched.cpp:213-240 | SRTF/priority step runs the same process as round robin; the requeued process stays last, the rest are a permutation of the round-robin queue, and work is conserved |
| Sched.ResortKeepsOrder | os/sched.cpp:229-236 | a step keeps the queue ordered except for its last (just requeued) process |
| Sched.ResortOnSortedIsRotation | os/sched.cpp:229-236 | on a fully ordered queue the re-sort changes nothing compared with round robin |
| Sched.CoopFCFS.constructor | os/sched.cpp:49-78 | a new scheduler has an empty queue |
| Sched.CoopFCFS.AddProcess | os/sched.cpp:52-55 | the process is appended at the back |
| Sched.CoopFCFS.Schedule | os/sched.cpp:57-69 | the returned process and new queue are the cooperative step of the old queue |
| Sched.CoopOrdered.constructor | os/sched.cpp:81-150 | CoopSJF/CoopPrio start empty and ordered |
| Sched.CoopOrdered.AddProcess | os/sched.cpp:84-91 | the queue stays ordered and becomes the stable sort of old queue plus the new process, i.e. the process inserted after its equals |
| Sched.CoopOrdered.Schedule | os/sched.cpp:94-106 | the cooperative step on the ordered queue, which stays ordered |
| Sched.PreemptRR.constructor | os/sched.cpp:159-160 | empty queue with the given time slice |
| Sched.PreemptRR.AddProcess | os/sched.cpp:162-165 | the process is appended at the back |
| Sched.PreemptRR.Schedule | os/sched.cpp:167-182 | the returned process and new queue are the round-robin step of the old queue |
| Sched.PreemptOrdered.constructor | os/sched.cpp:198-202 | PreemptSRTF/PreemptPrio start empty and ordered |
| Sched.PreemptOrdered.AddProcess | os/sched.cpp:204-211 | the queue becomes the stable sort of old queue plus the process |
| Sched.PreemptOrdered.Schedule | os/sched.cpp:213-240 | the returned process and queue are the re-sorting step, and the queue stays ordered but for its last process |
| Sched.DrainRR | os/sched.cpp:397-408 | calling Schedule until it returns nothing yields exactly the round-robin run log and empties the queue |
| SegAlloc.WellformedGap | os/mem/mem.cpp:60-69 | in a well-formed list the size_t gap after a segment does not wrap: it is the next start (or memsize) minus the segment's end |
| SegAlloc.Insert | os/mem/mem.cpp:54-138 | emplace: the new segment sits at position p, the segments before it keep their positions and the rest move up by one |
| SegAlloc.FirstGap | os/mem/mem.cpp:56-75 | the first segment whose following gap holds the request; None exactly when no gap from i on holds it |
| SegAlloc.FirstFit | os/mem/mem.cpp:39-78 | a placement returns a segment of the requested size at a list position no larger than the list length |
| SegAlloc.GapInsertKeeps | os/mem/mem.cpp:73-74 | placing the request at the end of a segment whose gap holds it keeps the list ordered, non-overlapping and inside memory |
| SegAlloc.FrontInsertKeeps | os/mem/mem.cpp:53-54 | placing the request at address 0 keeps the list well formed when the first segment starts at or after the request's size |
| SegAlloc.FirstFitKeepsWellformed | os/mem/mem.cpp:39-78 | corrected first fit, which compares with the first segment's start, leaves a well-formed list well formed |
| SegAlloc.FirstFitComplete | os/mem/mem.cpp:39-78 | corrected first fit fails exactly when no free stretch holds the request |
| SegAlloc.FrontInsertOverlaps | os/mem/mem.cpp:53-54 | as written, a second 100-unit request in 1000 units of memory goes to address 0, on top of the first segment |
| SegAlloc.GapCands | os/mem/mem.cpp:104-122 | every candidate is a gap of at least the requested size that follows one of the first n segments |
| SegAlloc.GapCandsComplete | os/mem/mem.cpp:104-122 | every gap that holds the request is among the candidates |
| SegAlloc.GapCandsEmpty | os/mem/mem.cpp:104-125 | without a gap that holds the request there are no gap candidates |
| SegAlloc.Best | os/mem/mem.cpp:127-137 | the head after the stable sort is a candidate no other candidate beats, and it beats every candidate before it |
| SegAlloc.LargestFit | os/mem/mem.cpp:84-139 | a placement returns a segment of the requested size at a list position no larger than the list length |
| SegAlloc.SameAvailability | os/mem/mem.cpp:39-139 | first fit and largest (smallest) fit succeed on exactly the same requests |
| SegAlloc.CandidateShape | os/mem/mem.cpp:100-122 | in a well-formed list every corrected candidate records its own free stretch exactly |
| SegAlloc.CandidateFor | os/mem/mem.cpp:100-122 | in a well-formed list every stretch that holds the request is a corrected candidate |
| SegAlloc.LargestFitChoice | os/mem/mem.cpp:127-138 | largest fit takes a candidate that no other candidate beats |
| SegAlloc.LargestFitIsExtreme | os/mem/mem.cpp:84-139 | corrected largest (smallest) fit picks a stretch that holds the request, and no other such stretch is larger (smaller) |
| SegAlloc.LargestFitKeepsWellformed | os/mem/mem.cpp:84-139 | corrected largest (smallest) fit leaves a well-formed list well formed |
| SegAlloc.SmallestFitOverlaps | os/mem/mem.cpp:100-138 | as written, a smallest-fit request that fits the first segment's size lands on top of that segment |
| SegAlloc.Without | os/mem/mem.cpp:151 | std::list::remove never lengthens the list |
| SegAlloc.WithoutMembers | os/mem/mem.cpp:151 | exactly the segments that differ from the removed one survive |
| SegAlloc.FindStart | os/mem/mem.cpp:147-150 | the first segment that starts at the address; None exactly when no segment does |
| SegAlloc.OrderedWithout | os/mem/mem.cpp:145-155 | removing segments keeps the list ordered |
| SegAlloc.FreeKeepsWellformed | os/mem/mem.cpp:145-155 | Free keeps a well-formed list well formed |
| SegAlloc.WithoutAbsent | os/mem/mem.cpp:151 | removing a segment that is not listed changes nothing |
| SegAlloc.FreeRemovesOne | os/mem/mem.cpp:145-155 | in a well-formed list of non-empty segments, freeing a segment's start removes exactly that segment and keeps the rest in order |
| SegAlloc.Total | os/mem/mem.cpp:187-212 | the sum of the segment sizes is never negative |
| SegAlloc.AccExact | os/mem/mem.cpp:191-209 | on a well-formed list nothing wraps: after n passes the accumulator is the room up to the end of the n-th gap minus the units allocated so far |
| SegAlloc.FreeExact | os/mem/mem.cpp:187-212 | on a well-formed non-empty list GetFree is memsize minus the allocated units |
| SegAlloc.FreeIsFragPlusTail | os/mem/mem.cpp:161-212 | with two or more segments GetFrag counts the free units before the last segment, and GetFree is GetFrag plus the tail gap |
| SegAlloc.HeadAfterSort | os/mem/mem.cpp:127-137 | returns the position of the head of the stably sorted candidate list |
| SegAlloc.VariSeg.constructor | os/mem/mem.cpp:31-33 | a new allocator has the given memory size and no segments |
| SegAlloc.VariSeg.ScanFirstGap | os/mem/mem.cpp:56-75 | the scan returns the first segment whose gap holds the request |
| SegAlloc.VariSeg.AllocFirstFree | os/mem/mem.cpp:39-78 | the segment list becomes the as-written first-fit insertion, with size_t wrap-around, and the new segment is returned. When there is no placement, null is returned and nothing changes |
| SegAlloc.VariSeg.CollectCandidates | os/mem/mem.cpp:98-122 | the candidate list is the as-written one: the front candidate (with the first segment's size) and the gaps in list order |
| SegAlloc.VariSeg.AllocLargestFree | os/mem/mem.cpp:84-139 | the segment list becomes the as-written largest (smallest) fit insertion and the new segment is returned. When there is no candidate, null is returned and nothing changes |
| SegAlloc.VariSeg.Free | os/mem/mem.cpp:145-155 | every segment equal to the first one starting at the address is removed; nothing changes when none starts there |
| SegAlloc.VariSeg.GetFrag | os/mem/mem.cpp:161-181 | returns the size_t sum of the front gap and the gaps between segments, without the tail gap |
| SegAlloc.VariSeg.GetFree | os/mem/mem.cpp:187-212 | returns the size_t sum of the front gap and every gap including the tail; 0 for an empty list |
| Sorts.SortedConcat | cpp/sort.cpp:115-122 | two sorted sequences, the first ending no higher than the second starts, concatenate to a sorted one |
| Sorts.MergeSort | cpp/sort.cpp:27-77 | the array ends sorted and a permutation of its old contents; arrays of length at most 1 are unchanged |
| Sorts.Split | cpp/sort.cpp:39-46 | the first half gets the first n/2 elements and the second half the rest |
| Sorts.MergeOf | cpp/sort.cpp:57-76 | the merge is as long as both inputs together |
| Sorts.MergeIsPermutation | cpp/sort.cpp:57-76 | merging keeps every element once |
| Sorts.MergeIsSorted | cpp/sort.cpp:57-76 | merging two sorted sequences gives a sorted one that starts with the smaller head |
| Sorts.MergeAdvance | cpp/sort.cpp:61-70 | one turn of the merge loop takes the first half's head when it is smaller and the second's otherwise, leaving the merge of what remains |
| Sorts.MergeExhausted | cpp/sort.cpp:72-76 | once one half is used up the rest of the merge is the concatenation of the remainders |
| Sorts.Merge | cpp/sort.cpp:57-76 | the array becomes the merge of the two halves |
| Sorts.MergeHeads | cpp/sort.cpp:61-70 | the while loop stops with one half used up and the array's prefix equal to the merge's prefix |
| Sorts.CopyRest | cpp/sort.cpp:73-76 | the remainder of a half is copied behind the merged prefix and nothing else changes |
| Sorts.SmallerCounts | cpp/sort.cpp:91-99 | the smaller part holds each value below the pivot as often as the vector does, and nothing else |
| Sorts.EqualCounts | cpp/sort.cpp:91-99 | the equal part holds every copy of the pivot and nothing else |
| Sorts.LargerCounts | cpp/sort.cpp:91-99 | the larger part holds each value above the pivot as often as the vector does, and nothing else |
| Sorts.PartsArePermutation | cpp/sort.cpp:91-99 | the three parts together are a permutation of the vector |
| Sorts.PartsLength | cpp/sort.cpp:91-99 | the three parts together are as long as the vector |
| Sorts.Partition | cpp/sort.cpp:90-99 | the split loop yields, in order, the elements below, equal to and above the first element (all empty for an empty vector) |
| Sorts.QuickSort | cpp/sort.cpp:81-123 | the array ends sorted and a permutation of its old contents |
| Sorts.SortedParts | cpp/sort.cpp:90-112 | after the split and the recursive sorts, the parts concatenate to a sorted permutation of the array |
| Sorts.WriteBack | cpp/sort.cpp:115-122 | the three loops write smaller, equal and larger parts back one after the other |
| Sorts.ThreePartsSorted | cpp/sort.cpp:108-122 | sorted parts below, equal to and above the pivot, written one after the other, are sorted (parts shorter than 2 need no sort) |
| Sorts.SortedCopy | cpp/sort.cpp:109-112 | a part copied to a fresh vector and quick-sorted is a sorted permutation of the part |
| Sorts.Swap | cpp/sort.cpp:145 | exchanging neighbours keeps the multiset |
| Sorts.SwapRemovesInversion | cpp/sort.cpp:143-147 | swapping an out-of-order neighbour pair removes exactly one inversion (the termination measure of the corrected bubble sort) |
| Sorts.BubblePass | cpp/sort.cpp:139-148 | a pass permutes the array, swaps nothing exactly when all neighbours were in order (then the array is unchanged), and with the corrected comparison lowers the inversions by the number of swaps |
| Sorts.CompareSwap | cpp/sort.cpp:141-147 | neighbours are swapped exactly when out of order for the comparison used |
| Sorts.AdjacentSorted | cpp/sort.cpp:152-154 | neighbours in order means sorted |
| Sorts.StrictHasNoDuplicate | cpp/sort.cpp:143 | a strictly increasing sequence holds no value twice |
| Sorts.BubbleSort | cpp/sort.cpp:127-158 | with the corrected comparison the loop ends with the array sorted and a permutation of its old contents |
| Sorts.BubbleSortAsWritten | cpp/sort.cpp:127-158 | as written the passes keep a permutation, stop only on a strictly increasing array, and never stop when a value occurs twice |
| Sorts.InsertBounds | cpp/sort.cpp:170-184 | the inner loop starts from a sorted prefix and, when it reaches the front, leaves the prefix one longer sorted |
| Sorts.InsertStep | cpp/sort.cpp:174-183 | one step of the inner loop keeps the insertion invariant, one position further down |
| Sorts.InsertDown | cpp/sort.cpp:174-183 | the inner loop inserts element j into the sorted prefix, permuting only a[..j+1] |
| Sorts.InsertOne | cpp/sort.cpp:176-182 | one turn of the inner loop swaps the neighbours when out of order, carries the insertion one position down, keeps the multiset and leaves everything after j alone |
| Sorts.InsertionSort | cpp/sort.cpp:162-187 | with the outer loop one step shorter the array ends sorted and a permutation of its old contents |
| Sorts.InsertionSortAsWritten | cpp/sort.cpp:162-187 | the last outer step reads one element past the end exactly when the vector is not empty; up to that read the array is sorted and permuted |
| StrAlgos.BorderOfBorder | libs/str_algos.h:44-47 | a border shorter than a border b of the matched prefix is a border of the prefix exactly when it is a border of b, which is why falling back through prefix[b-1] misses no candidate |
| StrAlgos.BorderShrink | libs/str_algos.h:44-49 | a border of length c of p[..n+1] is a border of length c-1 of p[..n] followed by a match p[c-1] == p[n] |
| StrAlgos.ExtendBorder | libs/str_algos.h:46-49 | when the fallback chain stops at b, the longest proper border of p[..n+1] is b+1 if p[b] matches p[n] and 0 otherwise |
| StrAlgos.GetPrefix | libs/str_algos.h:37-54 | for a non-empty pattern, entry n of the table is the length of the longest proper border of the first n elements (entry 0 the inserted 0); for the empty pattern the table is [0, 0] |
| StrAlgos.OccursBorder | libs/str_algos.h:77-79 | an occurrence starting inside the matched window makes the rest of the window a border of the matched pattern prefix |
| StrAlgos.ShiftSafe | libs/str_algos.h:77-79 | after a mismatch, no occurrence starts before the shifted start str_pos - prefix[matched] |
| StrAlgos.FindPattern | libs/str_algos.h:24-91 | the result is at most the text length; below it, it is an occurrence of the pattern and no occurrence starts earlier (the leftmost one); it equals the text length exactly when the pattern occurs nowhere |
| TreeAlgos.ShapeFrame | libs/tree_algos.h:83-112 | links of nodes outside a tree do not change its shape, so inserting below one node leaves the other subtrees as they were |
| TreeAlgos.Slot | libs/tree_algos.h:86-109 | the node bintree_insert hangs a value from is a node of the tree; smaller values go to the left, all others to the right |
| TreeAlgos.Placed | libs/tree_algos.h:83-112 | after the insertion the tree holds exactly the old nodes and the new ones |
| TreeAlgos.PlacedShape | libs/tree_algos.h:88-91 | the insertion changes exactly one link: the empty child link of the slot node, which is set to the new node |
| TreeAlgos.PlacedDistinct | libs/tree_algos.h:83-112 | inserting a node not in the tree keeps every node in the tree once |
| TreeAlgos.InOrder | libs/tree_algos.h:293-308 | the in-order walk lists only nodes of the tree |
| TreeAlgos.InOrderSorted | libs/tree_algos.h:291-308 | in a search tree built by bintree_insert the in-order walk visits the values in non-decreasing order |
| TreeAlgos.PlacedOrdered | libs/tree_algos.h:86-109 | hanging a new leaf where bintree_insert puts it keeps the search-tree order: left values smaller, right values not smaller |
| TreeAlgos.InsertedInOrder | libs/tree_algos.h:83-112 | after an insertion the in-order walk holds the old nodes plus the new one, still non-decreasing by value |
| TreeAlgos.PlacedInOrder | libs/tree_algos.h:83-112 | the in-order walk of the tree after the insertion is, as a multiset, the old walk plus the walk of the inserted tree |
| TreeAlgos.Reparented | libs/tree_algos.h:180-190 | the parent links after bintree_set_parents keep one link per node |
| TreeAlgos.ReparentedCorrect | libs/tree_algos.h:180-190 | after bintree_set_parents every child points at its parent, the root's link is the given parent or untouched, and links outside the tree are untouched |
| TreeAlgos.InsertedParent | libs/tree_algos.h:88-91 | after an insertion all parent links are right exactly when the leaf's link names the node it hangs from; the link bintree_insert writes, the leaf itself, is never right |
| TreeAlgos.Rebalanced | libs/tree_algos.h:318-330 | the balance pass keeps one balance per node |
| TreeAlgos.RebalancedCorrect | libs/tree_algos.h:315-333 | avltree_calc_balances sets every node's balance to height(right) - height(left) and changes no balance outside the tree |
| TreeAlgos.LeafBalances | libs/tree_algos.h:321-324 | worked example: a leaf has balance 0; a node with only a left leaf has -1 and one with only a right leaf has 1 |
| TreeAlgos.NodePool.constructor | libs/tree_algos.h:49-70 | the node pool starts empty |
| TreeAlgos.NodePool.Create | libs/tree_algos.h:64-69 | avl_node::create adds a node with the value, null links and balance 0, and changes no other node |
| TreeAlgos.NodePool.Insert | libs/tree_algos.h:83-112 | the new node becomes the left or right child of Slot, no other child link changes, and its parent link becomes itself as written (the slot node as intended) |
| TreeAlgos.NodePool.SetParents | libs/tree_algos.h:180-190 | the parent links become Reparented of the old ones and nothing else changes |
| TreeAlgos.NodePool.ForEach | libs/tree_algos.h:291-308 | the nodes func is called on, in call order, are the in-order walk of the tree |
| TreeAlgos.NodePool.GetHeight | libs/tree_algos.h:319-330 | _get_height returns the tree's height and leaves the balances as Rebalanced |
| TreeAlgos.NodePool.CalcBalances | libs/tree_algos.h:315-333 | the balances become Rebalanced of the old ones; values and links stay as they were |

## Left out

- BuddyAlloc.NextPow2: shifts a 64-bit unsigned one, `(size_t)1 << bit`, as evidently intended. os/mem/mem2.cpp:17-30 shifts the plain int literal `1`, and a shift by 31 or more is undefined behaviour on every call, so that reading has no defined result to model.  A request of 0 would shift by -1, so the model requires `num > 0`.
- BuddyAlloc.HugeRequestSucceeds: states what the size_t reading of nextpow2 does with a request above 2^63 (it rounds to 0), not what the int shifts of the source do.
- GraphAlgos.Dijk: weights are unbounded `nat`; the unsigned `dists[vertidx] + w` of libs/graph_algos.h:129-131 wraps around in the source and not in the model.
- GraphAlgos.Bellman: the unsigned sum `dists(i-1, neighbouridx) + w` at libs/graph_algos.h:200-202 is not wrapped.
- RvString.MyAtoi: the accumulator is an unbounded integer; os/cpp_rv/string.h:340 accumulates in an int and overflows on long digit strings.
- RvString.UintTextRoundTrip: holds for every natural number because the model does not overflow; in the source it holds only below INT_MAX.
- RvString.IntToStr: requires the number to be above INT_MIN, whose negation overflows in the source.
- Comb.NumPerm: the factorials are unbounded; tests/comb.cpp:42-50 computes them in size_t, which wraps when the container holds more than 20 elements.
- ExprParser.EvalPlusTermRest: `+` and `-` on the parser's int values are unbounded here; overflow is undefined behaviour in the source.
- ExprParser.EvalMulTermRest: `*`, `/` and `%` are unbounded here; overflow is undefined behaviour in the source.
- ExprParser.CPow: the pow and fmod results are computed on integers; the source converts a double to int, which is undefined behaviour when out of range.
- ExprParser.Atoi: unbounded; the C library's atoi overflows for long literals.
- ExprParser.Calc: the results of sin, cos, tan and atan2 come from a parameter `trig`, since floating point is not modelled; printing is left out.
- BuddyAlloc.Segment.GetFreeAndFrag: the fragmentation is taken modulo 2^64 as the size_t arithmetic does; the source's printing of it is left out.
- GraphEngine.Graph.DijkPath: distances are integers instead of Java doubles; the epsilon comparator and the tie order of java.util.PriorityQueue (graphs/Graph.java:136-167) are not modelled, so among vertices at equal distance any order may be produced.
- GraphConts.AdjacencyMatrix.GetNeighbours: the call `GetWeight(idx, idxOther)` at libs/graph_conts.h:127 passes two `std::size_t` values, but the only GetWeight (libs/graph_conts.h:81) takes two `std::string` identifiers, so no overload is viable and GetNeighbours does not compile once instantiated.  The model reads the evidently intended matrix entry `m_mat(idx, idxOther)`.
- RvString.UintToStr: requires 2 <= base <= 36 where os/cpp_rv/string.h:32-70 accepts any base >= 2 (every call site passes 10 or 16); above 36 digit_to_char runs past 'z', and in the 8-bit character type a digit of value 169 wraps to the NUL byte and cuts the C string short, so the model does not state the text for such bases.
- RvString.IntToStr: the same 2 <= base <= 36 bound as UintToStr.
- RvString.DigitsAt: the same 2 <= base <= 36 bound as UintToStr.
- TreeAlgos.NodePool.ForEach: the callback is modelled as recording the node it is called on (`visited == InOrder(t)`), so it cannot change the tree; a callback in the source may write through the node pointer.
- ExprParser.LexFrom: the input is a sequence of characters with EOF as a separate value; a 0xFF character that the source's `int` comparison with EOF would read as the end of input is not modelled.
- Sched: the priority comparators are modelled with `>` instead of the source's `>=` (os/sched.cpp:123-126, 265-268, 290-293); a reflexive comparator is not a strict weak ordering, so std::stable_sort has no defined result with it (see "## Findings").
- Sched: PreemptCFS works on double virtual run times and is not modelled; GetSchedName and all printing are left out.
- Sorts.BubbleSort: on an empty container the source's `size() - 1` wraps and the loop is undefined behaviour; the model returns the empty sequence.
- StrAlgos.FindPattern: requires a non-empty pattern.  For a std::string the source reads `pattern[0]` of an empty pattern as the terminating NUL and returns the text's length when the text holds no NUL; for a vector it is undefined behaviour.
- LL1Grammar.Create: when the grammar has no direct left recursion, requires `RankOk`, a ranking under which FOLLOW's recursion goes down, and `Terminates`, a depth bound on FIRST's recursion.  On grammars with indirect left recursion or a cyclic FOLLOW dependency the source recurses forever (see "## Findings").
- LL1Grammar.Create: requires `Closed` (every nonterminal used in a rule is declared), because the source's rules point to nonterminal objects and cannot name a missing one, and `EpsAlone` (the eps terminal only forms a rule of its own), the form the source's grammars use.  When two declared nonterminals share an id, `RulesOf` takes the first.
- LL1Grammar.LL1.constructor: the same preconditions as Create, plus the absence of direct left recursion, which Create checks before calling it.
- LL1Grammar: the printing of FIRST, FOLLOW and the table is left out; nonterminals and terminals are numbers instead of shared objects.
- Cyk: symbols are numbers and rules are values instead of shared objects; printing is left out.
- Dataflow: print_inout is left out; backward_analysis and forward_analysis print their result in the source, and the model returns the in and out sets instead.
- RvString: real_to_str and my_atof work on floating point and are not modelled; the `_interleaved` variants of memset and memcpy, my_strcmp, my_max, my_isalpha and the console routines (write_*, read_str, clear_scr, write_size) are not modelled.
- BoundaryTracing.TraceBoundary: the source loops with `while(1)` until it returns to the start; the model bounds the walk by a fuel parameter and stops when the fuel runs out.
- MaxSubvec: sums are unbounded integers instead of the source's 64-bit integers.
- Crc: only the 32-bit unsigned instantiation of the checksum is modelled.
- Runtime: matrix entries are integers instead of doubles; the `g_eps` comparison becomes an exact comparison with 0, and ext_inverse is a parameter `inverse`.
- Banker: resource amounts are unbounded integers; printing is left out.
- Comb: get_seq, next_permutation and the I/O of main are left out.
- Lcd: the delays are recorded as trace entries instead of being waited for; lcd_set_address and lcd_set_data are only declared in hdl/tools/lcd.h and have no body to model.

## Findings

| source | as written | input that shows it | evidently intended | confidence | as-written member | corrected member |
|---|---|---|---|---|---|---|
| parser/grammars/expr_parser.c:227 | match_ident tests later characters with `!isdigit(c) \|\| !isalpha(c)`, which every character passes, so it fails every identifier longer than one letter | the predefined variable "pi" is not an identifier | `&&`: a letter followed by letters or digits | not executed | ExprParser.PiRejectedAsWritten | ExprParser.MatchIdent |
| parser/grammars/expr_parser.c:310-316 | input_peek reads the character after the next one (`g_input_idx+1`) | "12" lexes as the number 1 and then the number 2 | peek at the next unread character | not executed | ExprParser.LastDigitSplitAsWritten | ExprParser.TwelveAsWrittenAndFixed |
| os/sched.cpp:123-126 | the priority comparator is `>=`, so every process goes before itself | any process compared with itself | `>`, a strict weak order as std::stable_sort requires | not executed | Sched.HigherFirstAsWrittenReflexive | Sched.ComparatorsAreKeyOrders |
| tests/boundary_tracing.cpp:108-125 | the `break` on the first set pixel leaves only the inner loop, so the scan goes on into the next rows | a 2 x 2 image with every pixel set starts at (0, 1) | start at the first set pixel in row-major order, (0, 0) | not executed | BoundaryTracing.StartMovesDown | BoundaryTracing.FindStart |
| tests/boundary_tracing.cpp:137-274 | `has_next_dir` is set once and never cleared, so a later step with no set neighbour still moves | a 2 x 2 image whose top row is set: the trace marks the unset pixel (0, 1) | clear the flag before each neighbour search | not executed | BoundaryTracing.StickyFlagMarksUnsetPixel | BoundaryTracing.TrailOnSetPixels |
| libs/graph_conts.h:54-61 | RemoveVertex erases the id but keeps the weight matrix's row and column | remove "A" from [A, B] with a self-loop A -> A: B gets a self-loop | erase the row and column as well | not executed | GraphConts.RemoveVertexRevivesEdge | GraphConts.WithoutVertexKeepsWeights |
| cpp/sort.cpp:127-158 | bubble_sort swaps when `!cmp(a, b)`, which includes equal neighbours, and repeats until a pass makes no swap | [1, 1] swaps for ever | swap only when the neighbours are out of order | not executed | Sorts.BubbleSortAsWritten | Sorts.BubbleSort |
| cpp/sort.cpp:162-187 | insertion_sort's inner loop starts at `std::next(iter)`, one past the element being inserted | any non-empty vector: the last round reads past the end | start the inner loop at `iter` | not executed | Sorts.InsertionSortAsWritten | Sorts.InsertionSort |
| os/mem/mem.cpp:53-54 | first fit compares the request with the first segment's size instead of its start when it tries the gap at the front | memory of 1000 with one 100-unit segment at 0: a request of 100 is placed at 0 again | compare with the first segment's start | not executed | SegAlloc.FrontInsertOverlaps | SegAlloc.FirstFitKeepsWellformed |
| os/mem/mem.cpp:100-102 | best and worst fit make the same front test | the same memory and request, with best fit | compare with the first segment's start | not executed | SegAlloc.SmallestFitOverlaps | SegAlloc.LargestFitKeepsWellformed |
| os/mem/mem2.cpp:121-139 | dealloc_node descends into `node->children[child]` without testing it for null | allocate 500 in a 1024-unit segment and release it: the missing right child is dereferenced | skip a missing child | not executed | BuddyAlloc.FreeFirstBlockCrashes | BuddyAlloc.FreeFirstBlockFixed |
| os/cpp_rv/string.h:310-321 | with `hex` set my_isdigit demands a decimal digit that is also a letter a-f or A-F | '0' is not a hex digit | accept 0-9, a-f and A-F | not executed | RvString.IsDigitHexNeverHolds | RvString.IsDigitClasses |
| parser/6-arrays/runtime.cpp:169-206 | for a power of 0 or 1 the multiplication loop never runs, and P is copied from the second buffer, which nothing wrote | a power of 1 | P is the identity for 0 and M itself for 1 | not executed | Runtime.Power | Runtime.Power |
| libs/tree_algos.h:83-112 | bintree_insert sets the new node's parent to the link just written, that is, to the node itself | insert any node into a one-node tree | the parent is the node it was attached to | not executed | TreeAlgos.InsertedParent | TreeAlgos.NodePool.Insert |

In `Runtime.Power` and `TreeAlgos.NodePool.Insert`, the parameter `fixed` selects the code as
written (`false`) or as intended (`true`), and the contract states both.
