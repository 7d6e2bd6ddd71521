# RadixTree: a verified model of a DNA radix tree

RadixTree.java keeps DNA strings over the bases A, C, G and T in a compressed
prefix tree. Each node holds a segment (`prefixCode`), an end-of-string marker
(`endOfDNA`), an occurrence counter (`countOfDNA`) and four child slots. Slot k
is for children whose segment starts with the k-th base of `"ACGT"`. A dummy
root with the empty segment dispatches on the first base.

The core operations are modelled twice:

- **As values (module `TreeModel`).** A `datatype Tree` stands for a node, and every
  operation is a function:
  - `Insert`/`InsertAt`, `Find`, `Delete`, `DeleteNode`;
  - the counting traversals;
  - `GatherStrings`.

  The loops of the traversals are the `...UpTo` functions. Modules `Counting`,
  `Order`, `Lookup`, `Insertion`, `InsertCounts`, `Deletion`, `DeleteCounts`
  and `GatherOrder` prove what these operations mean on a well-formed tree,
  stated in terms of the strings `gatherStrings` lists.
- **In place (module `RadixTree`).** `class Node` has the source's fields and a
  child `array` of length 4. A ghost `Model` and a ghost `Repr` footprint are
  tied together by `Valid()`.
  - `InsertDNA`, `DeleteDNA` and `DeleteNode` change nodes in place. Each is
    proved to leave in `Model` exactly what the value functions compute.
  - `FindDNA`, `HasAChild` and the traversals keep the source's loops and
    accumulators. Each is proved to return what the value functions compute.

The source's behaviour is reproduced as written, including the following cases.

- **Divergence-split counter.** A split where the input diverges inside a
  segment gives the pushed-down node counter 1 when the old node was not an end
  marker.
- **Delete on a branch node.** `deleteDNA` answers true on an exact match at a
  node with children even when that node is not an end marker. Its counter
  drops by one, below 0 when it was 0 or less.
- **Leaf delete.** A childless node is wiped in place: empty segment, no end
  marker, counter 0. It stays in its parent's slot, and a later insert treats
  that slot as free.
- **No merging.** Nothing merges nodes after a delete.
- **Node count of an empty tree.** `countNodes` of a root without children is 1.

Two of the source's own doc comments say more than their code does. The model
follows the code on each:

- `deleteNode` is documented as deleting a node "including its children
  permanently" (RadixTree.java:582-583). Its body (586-605) only wipes the node
  and its children in place, and the node stays in its parent's slot.
- `countNodes` is documented as leaving the root out of the count, so that a
  caller passes `totalSoFar = 1` to include it (RadixTree.java:372-374). Every
  caller in the source passes 0 (RadixTree.java:869, 896, 978). So for a root
  with children the root is left out of the count. A childless node, though,
  returns 1 whatever `totalSoFar` is (RadixTree.java:386-387), so a childless
  root counts as 1 node.

Module `Quirks` (file `examples_quirks.dfy`) works concrete examples of the
divergence-split counter and of deleteDNA on a branch node.

A Java `null` segment is modelled as the empty segment, which the dummy root
and wiped nodes carry. `commonPrefixLength` and `prefixCodeLength` treat null
and `""` alike.

## Model

| member | source | states |
|---|---|---|
| Dna.Index | RadixTree.java:154 | `dnaBases.indexOf` of a base: the unique slot k < 4 whose base is that character |
| Dna.InvalidFrom | RadixTree.java:98-106 | the scan from position i finds a non-base exactly when some character at or after i is not A, C, G or T |
| Dna.InvalidBaseFound | RadixTree.java:92-108 | true exactly when the input is empty or holds a character outside ACGT |
| Dna.MatchFrom | RadixTree.java:74-77 | the loop stops at the first position where the strings differ or one ends; everything before it matches |
| Dna.CommonPrefixLength | RadixTree.java:64-82 | the result is at most both lengths, the prefixes of that length agree, and the next characters differ when both continue |
| Dna.CommonPrefixLengthUnique | RadixTree.java:64-82 | any n with those three properties is the result, so the result is the longest common prefix |
| Dna.CommonPrefixLengthExamples | RadixTree.java:56-59 | the documented examples: AAA/AAA is 3, AAA/AA is 2, AAA/AAAA is 3, AAA against an absent segment is 0 |
| TreeModel.Matched | RadixTree.java:64-72 | commonPrefixLength against a node that may be absent is bounded by the input and by prefixCodeLength |
| TreeModel.Insert | RadixTree.java:135-163 | insertDNA keeps the root's segment, end marker and counter and its four-slot shape; on invalid input it changes nothing |
| TreeModel.InsertAt | RadixTree.java:167-292 | every case of insertDNA yields a node with four slots and only bases in its segments |
| TreeModel.Delete | RadixTree.java:615-675 | deleteDNA keeps a present node present; when it answers false nothing changed; a node keeps its segment unless it is wiped |
| TreeModel.PrefixCodeLength | RadixTree.java:117-123 | definition, no contract: the segment length of a present node, 0 for an absent one; bounds TreeModel.Matched, and RadixTree.PrefixCodeLength is proved to agree |
| TreeModel.HasAChild | RadixTree.java:568-578 | definition, no contract: some slot is occupied; Deletion.ChildlessIsEmpty states the converse, and RadixTree.HasAChild is proved to agree |
| TreeModel.Leaf | RadixTree.java:170-176 | definition, no contract: the new end-marked leaf with counter 1; characterized by Insertion.InsertLeafCase |
| TreeModel.PushDown | RadixTree.java:198-218 | definition, no contract: the unmatched tail of the segment with all old children; characterized by Insertion.PushDownFacts and InsertCounts.PushDownCounts (its counter is chosen at 214 and 261-271) |
| TreeModel.OnlyChild | RadixTree.java:221-225 | definition, no contract: the pushed-down node alone in the slot of its first base; characterized by Insertion.OnlyChildGather and Insertion.OnlyChildOrdered |
| TreeModel.Find | RadixTree.java:509-559 | definition, no contract; characterized by Lookup.FindIsListed (findDNA iff listed) and Lookup.Reach |
| TreeModel.DeleteNode | RadixTree.java:586-605 | definition, no contract: the wiped node; characterized by Deletion.DeleteLeaf and RadixTree.DeleteNode |
| TreeModel.CountNodes | RadixTree.java:380-403 | definition, no contract; characterized by Counting.CountNodesIsSize and Counting.CountNodesFromRoot |
| TreeModel.CountNodesUpTo | RadixTree.java:390-400 | definition, no contract: the countNodes loop after i slots; characterized by Counting.CountNodesIsSize |
| TreeModel.CountStrings | RadixTree.java:415-433 | definition, no contract; characterized by Counting.CountStringsIsWeight |
| TreeModel.CountStringsUpTo | RadixTree.java:420-429 | definition, no contract: the countStrings loop after i slots; characterized by Counting.CountStringsIsWeight and InsertCounts.CountsReplaceSlot |
| TreeModel.CountUniqueStrings | RadixTree.java:444-463 | definition, no contract; characterized by Counting.CountUniqueIsEnds |
| TreeModel.CountUniqueUpTo | RadixTree.java:449-459 | definition, no contract: the countUniqueStrings loop after i slots; characterized by Counting.CountUniqueIsEnds and InsertCounts.CountsReplaceSlot |
| TreeModel.GatherStrings | RadixTree.java:475-498 | definition, no contract; characterized by Lookup.FindIsListed, Counting.GatherCountsEnds and GatherOrder.GatherAscending |
| TreeModel.GatherUpTo | RadixTree.java:486-495 | definition, no contract: the gatherStrings loop after i slots; characterized by Order.SlotOf and GatherOrder.GatherUpToAscending |
| TreeModel.GatherSlot | RadixTree.java:490-494 | definition, no contract: one occupied slot's strings under the extended segment; characterized by Order.SlotStrings and GatherOrder.SlotAscending |
| Lookup.Reach | RadixTree.java:509-559 | the node where findDNA's search stops exactly; findDNA is true exactly when it exists and is an end marker |
| Lookup.FindInSlot | RadixTree.java:509-559 | in an ordered slot, findDNA succeeds exactly when the string is listed by gatherStrings for that slot |
| Lookup.NotListedBeyond | RadixTree.java:555-557 | an input that ends or diverges inside a segment is not stored below that node |
| Lookup.FindIsListed | RadixTree.java:509-559 | on a well-formed tree, findDNA(dna, root) is true exactly when dna is in gatherStrings(root, "") |
| Order.SlotStrings | Node.java:15-20 | every string stored in slot k continues the path with the k-th base of ACGT |
| Order.SlotOf | RadixTree.java:486-495 | a string listed by the gatherStrings loop sits in the slot of its next base and nowhere else |
| Order.NodeStrings | RadixTree.java:482-495 | every listed string is the node's own string at an end marker or continues it |
| Order.EmptyGather | RadixTree.java:482-483 | a node without children lists at most its own string |
| Counting.CountNodesIsSize | RadixTree.java:380-403 | countNodes(t, 1) is one more than the number of nodes below t |
| Counting.CountNodesFromRoot | RadixTree.java:380-403 | countNodes(root, 0) is the number of non-root nodes when the root has a child, and 1 otherwise |
| Counting.CountStringsIsWeight | RadixTree.java:415-433 | countStrings(t, s) is s plus the sum of the counters of the end-marked nodes below t |
| Counting.CountUniqueIsEnds | RadixTree.java:444-463 | countUniqueStrings(t, s) is s plus the number of end-marked nodes below t |
| Counting.GatherCountsEnds | RadixTree.java:475-498 | gatherStrings appends one string per end-marked node of the subtree |
| Counting.GatherMatchesUniqueCount | RadixTree.java:436-498 | from a root that is not an end marker, the number of gathered strings is countUniqueStrings(root, 0) |
| GatherOrder.AscendingAppend | RadixTree.java:486-495 | appending an ascending list whose strings all follow the current ones keeps the list ascending |
| GatherOrder.GatherAscendingFrom | RadixTree.java:475-498 | gatherStrings lists an ordered node's strings in strictly ascending lexicographic order |
| GatherOrder.GatherUpToAscending | RadixTree.java:486-495 | after each slot of the loop the list is ascending: slot i's strings follow those of earlier slots |
| GatherOrder.SlotAscending | RadixTree.java:490-494 | the strings of one ordered slot are ascending |
| GatherOrder.GatherAscending | RadixTree.java:475-498 | on a well-formed tree gatherStrings(root, "") is in A < C < G < T order, a string before its extensions, and lists no string twice |
| Insertion.OnlyChildGather | RadixTree.java:222-225 | a node whose only child is the pushed-down node lists exactly that child's strings below it |
| Insertion.PushDownFacts | RadixTree.java:198-218 | the pushed-down node is in order for the slot of its first base and lists the old node's strings below the old path |
| Insertion.OnlyChildOrdered | RadixTree.java:222-225 | a node holding only the pushed-down node, in the slot of its first base, is in order |
| Insertion.InsertAtListing | RadixTree.java:167-292 | insertDNA into a slot keeps it in order and adds exactly the input to the strings listed for it |
| Insertion.InsertLeafCase | RadixTree.java:167-176 | a new leaf in a free slot lists exactly the input |
| Insertion.InsertExactCase | RadixTree.java:180-189 | an exact match marks the node and adds only the input |
| Insertion.InsertPrefixCase | RadixTree.java:194-234 | the strict-prefix split keeps every old string and adds the input |
| Insertion.InsertDivergeCase | RadixTree.java:240-292 | the divergence split plus the recursive insert keeps every old string and adds the input |
| Insertion.InsertDescendCase | RadixTree.java:289-292 | a fully matched segment passes the rest down, adding only the input |
| Insertion.InsertListing | RadixTree.java:154-176 | insertDNA below a dispatching node keeps it in order and adds exactly the input to its strings |
| Insertion.InsertStoresExactly | RadixTree.java:135-294 | insertDNA keeps the tree well formed; afterwards the listed strings are the old ones plus the input when it is valid |
| Insertion.InsertThenFind | RadixTree.java:135-294 | after insertDNA(dna) findDNA(dna) is true, and findDNA of every other string is unchanged |
| InsertCounts.CountsUpToSlots | RadixTree.java:421-430 | the counting loops depend only on the child slots |
| InsertCounts.CountsReplaceSlot | RadixTree.java:450-460 | replacing one slot changes the loops' sums by that slot's difference |
| InsertCounts.OnlyChildCounts | RadixTree.java:222-225 | a node whose only child is the pushed-down node counts exactly that child |
| InsertCounts.NoChildrenCounts | RadixTree.java:170-175 | a node with four empty slots adds nothing in either counting loop |
| InsertCounts.PushDownCounts | RadixTree.java:202-218 | the pushed-down node counts as the old node when its own counter contribution is the same |
| InsertCounts.InsertAtCounts | RadixTree.java:167-292 | insertDNA into a slot adds 1 to countUniqueStrings exactly when the input was not found, and adds 1 plus the overshoot counter to countStrings |
| InsertCounts.InsertDivergeCounts | RadixTree.java:242-292 | the same for the divergence split, where the pushed-down non-end node gets counter 1 |
| InsertCounts.InsertCountsBelow | RadixTree.java:154-163 | insertDNA below a dispatching node changes the loops' sums as the dispatch slot changes |
| InsertCounts.InsertCountsFromRoot | RadixTree.java:135-294 | from the root: countUniqueStrings grows by 1 exactly when findDNA was false; countStrings grows by 1 plus the counter of a non-end node the input reaches exactly |
| InsertCounts.RepeatInsertCounts | RadixTree.java:180-189 | inserting a stored string again keeps countUniqueStrings and adds 1 to countStrings |
| Deletion.ChildlessIsEmpty | RadixTree.java:568-578 | a node for which hasAChild is false has four empty slots |
| Deletion.DeleteInSlot | RadixTree.java:615-675 | deleteDNA in a slot keeps it in order, answers true exactly when the input reaches a node exactly, changes no other listed string, and leaves the input findable only when that node stays an end marker |
| Deletion.DeleteExact | RadixTree.java:636-652 | on an exact match deleteDNA answers true whatever the node's end marker |
| Deletion.DeleteBranch | RadixTree.java:639-653 | on an exact match at a node with children deleteDNA answers true and keeps the node, its counter one lower (below 0 if it was 0 or less) and its end marker cleared only when the counter reaches 0; the slot stays in order, no other listed string changes, and the input stays findable exactly when the node remains an end marker |
| Deletion.DeleteLeaf | RadixTree.java:649-653 | on an exact match at a childless node deleteDNA answers true and leaves the node wiped in its slot (deleteNode: empty segment, no end marker, counter 0); the input is no longer found and no other listed string changes |
| Deletion.DeleteDescend | RadixTree.java:654-668 | a fully matched segment passes the rest of the input to the slot of the next base |
| Deletion.ReplaceChildGather | RadixTree.java:630-631 | replacing one slot's subtree changes the node's listing only as it changes that slot's listing |
| Deletion.DeleteFromRoot | RadixTree.java:615-675 | from the root: the tree stays well formed, deleteDNA is true exactly when the input reaches a node exactly, other strings are unchanged, invalid input changes nothing |
| Deletion.DeleteThenFind | RadixTree.java:615-675 | after deleteDNA(dna), findDNA(dna) is true only if it was true before; findDNA of every other string is unchanged |
| Deletion.InsertAtReach | RadixTree.java:167-292 | after insertDNA the input reaches an end-marked node whose counter is 1 more than before (or 1) |
| Deletion.InsertReachDiverge | RadixTree.java:242-292 | after a divergence split the input reaches a new leaf with counter 1 |
| Deletion.DeleteUndoesInsert | RadixTree.java:615-675 | deleteDNA after insertDNA of an absent string answers true and restores the listed strings, unless the input reached a non-end node with a nonzero counter |
| DeleteCounts.DeleteAtCounts | RadixTree.java:615-675 | deleteDNA in a slot lowers countStrings by what the reached node loses and countUniqueStrings by 1 exactly when the input was found and is not found any more |
| DeleteCounts.DeleteExactCounts | RadixTree.java:636-652 | the exact-match case: an end node with children loses 1, a childless one its whole counter |
| DeleteCounts.DeleteBranchCounts | RadixTree.java:639-647 | an exact match on a node with children decrements its counter: an end node loses 1 from countStrings, and from countUniqueStrings when that was its last occurrence |
| DeleteCounts.DeleteLeafCounts | RadixTree.java:649-650 | an exact match on a childless node wipes it: countStrings loses its whole counter, countUniqueStrings loses 1 if it was an end node |
| DeleteCounts.DeleteCountsFromRoot | RadixTree.java:615-675 | the same from the root of a well-formed tree |
| DeleteCounts.DeleteUndoesInsertCounts | RadixTree.java:615-675 | deleteDNA after insertDNA of an absent string restores countStrings and countUniqueStrings, under the same condition |
| Quirks.TwoInsertsShape | RadixTree.java:240-292 | inserting AAAGC then AAACC makes a branch node AAA, not an end marker, with children CC and GC |
| Quirks.TwoInsertedReach | RadixTree.java:528-537 | findDNA of AAA stops at that branch node, before and after the delete |
| Quirks.TwoInsertedDelete | RadixTree.java:639-652 | deleteDNA of AAA there answers true and sets the branch node's counter to -1 |
| Quirks.BranchDeleteAnswersTrue | RadixTree.java:639-652 | AAA is not found, deleteDNA of AAA answers true anyway, and AAA is still not found |
| Quirks.ThirdInsertShape | RadixTree.java:242-292 | inserting AT then splits AAA at A and pushes AA down with counter 1 although it is not an end marker |
| Quirks.ThreeInsertsShape | RadixTree.java:242-292 | the tree after AAAGC, AAACC and AT, node by node |
| Quirks.ThreeInsertedWellFormed | RadixTree.java:135-294 | that tree is well formed |
| Quirks.FourthInsertShape | RadixTree.java:180-189 | inserting AAA then marks AA as an end with counter 2 |
| Quirks.ThreeInsertedReach | RadixTree.java:528-537 | findDNA of AAA stops exactly at the pushed-down AA node |
| Quirks.FourInsertedKeepsAAA | RadixTree.java:639-648 | one deleteDNA of AAA leaves it findable |
| Quirks.DivergeSplitCounter | RadixTree.java:264-271 | after AAAGC, AAACC, AT, inserting AAA once adds 2 to countStrings, and AAA survives one delete |
| RadixTree.Node.constructor | Node.java:24-29 | a new node is not an end marker, has counter 0, four slots all empty, and a valid footprint of itself and its array |
| RadixTree.PrefixCodeLength | RadixTree.java:117-123 | the length of a present node's segment (0 for an absent node) |
| RadixTree.CommonPrefixWith | RadixTree.java:64-72 | commonPrefixLength against a possibly absent node is bounded by the input and by prefixCodeLength |
| RadixTree.HasAChild | RadixTree.java:568-578 | the scan answers true exactly when the node is present and some slot is occupied |
| RadixTree.FindDNA | RadixTree.java:509-559 | the recursive search on the nodes answers as Find on the node's model |
| RadixTree.CountNodes | RadixTree.java:380-403 | the loop returns countNodes of the model (see Counting.CountNodesFromRoot) |
| RadixTree.CountStrings | RadixTree.java:415-433 | the loop returns countStrings of the model (see Counting.CountStringsIsWeight) |
| RadixTree.CountUniqueStrings | RadixTree.java:444-463 | the loop returns countUniqueStrings of the model (see Counting.CountUniqueIsEnds) |
| RadixTree.GatherStrings | RadixTree.java:475-498 | the list handed back is the list passed in followed by the model's strings in gathering order |
| RadixTree.DeleteNode | RadixTree.java:586-605 | the node is wiped in place and stays valid with the same footprint; every child it held is wiped too |
| RadixTree.DeleteDNA | RadixTree.java:615-675 | the in-place delete leaves the model and answer that Delete computes, within the same footprint |
| RadixTree.DeleteInSlot | RadixTree.java:625-631 | the recursive call on one slot changes only that slot's subtree |
| RadixTree.MoveChildren | RadixTree.java:206-210 | the loop copies every slot into the new node and empties the old one |
| RadixTree.PushDownNode | RadixTree.java:198-218 | the new node has the rest of the segment, all old children, the old end marker and the given counter; the old node's slots are empty |
| RadixTree.Split | RadixTree.java:222-233 | the pushed-down node becomes the only child, and the node takes the given segment, end marker and counter |
| RadixTree.NewLeaf | RadixTree.java:170-173 | a fresh node with segment = input, an end marker and counter 1 |
| RadixTree.AttachChild | RadixTree.java:175 | the new leaf takes the slot; no other slot changes |
| RadixTree.InsertInChild | RadixTree.java:157-163 | insertDNA updates the node in the dispatch slot in place; no other slot changes |
| RadixTree.InsertAtNode | RadixTree.java:180-292 | exact match, strict-prefix split and divergence split followed by the recursive insert leave the model InsertAt computes |
| RadixTree.InsertDNA | RadixTree.java:135-294 | the in-place insert leaves the model Insert computes, and only allocates new objects |

## Left out

- The console menu, input reading and all printing are not modelled: `userMenu`, `main`, `insertAWord`, `findAWord`, `deleteAWord`, `printWordsInTree`, `printPrefixTree`, `printAlphabeticalStrings`, `printRadixTree` and `printNodes`. They are I/O with no tree logic.
- The messages `invalidBaseFound` prints are not modelled; only its answer is.
- `generateRandomDNA` and `insertRandomDNAs` are not modelled. They depend on `Math.random` and floating point.
- `System.gc()` and the assignment `tree = null` at the end of `deleteNode` are not modelled. Neither has an effect on the tree.
- The `Collections.sort` in `printAlphabeticalStrings` is not modelled. It is a library call in a display step; GatherOrder.GatherAscending shows the list is already in that order.
- The unused static field `root` is not modelled.
- RadixTree.DeleteDNA: the early return when `tree.prefixCode == null` is not modelled, because a null segment is modelled as the empty one. The only nodes whose segment is set to null are children detached by `deleteNode`. `deleteDNA` calls `deleteNode` only on childless nodes, so no node reachable from the root ever has a null segment.
- RadixTree.DeleteNode: the wiped children's segment is `""` here; the source sets it to null. Nothing reads a detached child again.
- RadixTree.DeleteDNA: the ghost footprint `Repr` keeps detached children. It over-approximates the objects still reachable after `deleteNode`.
- RadixTree.Node: `countOfDNA` and the counting totals are unbounded integers. Java's 32-bit wrap-around after 2^31 occurrences is not modelled.
- RadixTree.GatherStrings: the shared `List` the source appends to in place is passed in and returned as a value, so aliasing of that list by the caller is not modelled.
- Deletion.DeleteUndoesInsert and DeleteCounts.DeleteUndoesInsertCounts are not claimed when the input reaches exactly a non-end node with a nonzero counter. Such a node arises in two ways: a divergence split gives the pushed-down non-end node the counter 1 (Quirks.DivergeSplitCounter), and deleteDNA on a branch node lowers its counter even past the end marker, to 0 and below (Quirks.TwoInsertedDelete leaves -1). insertDNA then lifts the counter from that value, so one deleteDNA does not undo it.
