# Clober: matching, settlement and solvency

A verification of the core of the Clober on-chain exchange. Four components are
modelled, in the order of the files below.

**The order book.** Bids, asks and a free list share one slab of fixed-size
nodes. `Nodes.dfy` models the slab as an array of node records indexed by slot,
where the program uses byte offsets (a slot is an offset divided by 96).
`Trees.dfy` has the inductive trees, `TreeRep.dfy` the predicate that ties root,
links, parents and colours to a tree seen from a focus, and `TreeReads.dfy`,
`TreeKeys.dfy`, `NodeSwap.dfy`, `InsertRepair.dfy` and `RemoveRepair.dfy` what
reads, keys, the successor swap and the two repair loops do to it.
`RedBlackTree.dfy` is the tree as a class that overwrites the shared array.
`FreeList.dfy` and `OrderIds.dfy` are the free list and the order ids.
`BookSpec.dfy` is the abstract book, two sorted sides and an allocator, with its
operations as steps of a machine; `BookEffects.dfy` says what each step does to the
map of orders and `BookIds.dfy` reads a side as a map by id;
`BookCounter.dfy` puts the sequence counter of the program on top, which makes
every id fresh. `BookLayout.dfy` says how a slab encodes a book;
`MarketBook.dfy` proves every handle operation, and every run of them, to be
steps of that machine. `NodeLinks.dfy` is the validator of a returning account,
on raw offsets, which is proved to accept exactly the right shapes;
`AcceptedWalk.dfy` walks an account that it accepted.

**The settlement pipeline.** `Bytes.dfy` and `FillPreimage.dfy` have little-endian
fields and the 136-byte serialization of a fill. `FillRing.dfy` has the ring, its
flags and the in-flight table as values, and proves them a bounded queue and a
finite map. `FillBuffer.dfy` and `FillOutbox.dfy` do the same work on the bytes of
the two accounts, in place, and grow them. `ReduceOnly.dfy` is the reduce-only
rule. `Settlement.dfy` composes them into a machine of crossing, settling, growing
and positions that move for other reasons, `SettlementEffects.dfy` says what each
step does, `SettlementRuns.dfy` proves what every run keeps, `SettlementOutbox.dfy`
what the outbox can be relied on for, which is optional, can be armed late and need
not be passed, `SettlementBatch.dfy` that the
matcher's two passes over a batch come to crossing one fill at a time, and
`SettlementBytes.dfy` that the work done on the bytes is a step of the machine.
`PositionMath.dfy` has the position arithmetic and its law of value,
`Committee.dfy` the quorums.

**The junior-profit haircut.** `Haircut.dfy` has the release, mature and convert
arithmetic; `HaircutRuns.dfy` runs of them by many holders of one residual.

**Arithmetic with real bounds.** `Envelope.dfy` is the three-probe check,
`Funding.dfy` the period cap and the funding charge, `SideAccrual.dfy` the lazy
deleveraging multiplier; `Arithmetic.dfy` has the roundings they share.

Machine integers are bounded integers; every checked, saturating or truncating
operation is written out. The hash of a fill is a parameter, and a settlement is
assumed not to present a collision with the recorded preimage: the assumption is
about that one pair, since no function to 32 bytes is injective on all preimages.
The address of a maker's position account is a parameter too; only that it is not
zero is assumed.

## What the proofs found

- The comment above the envelope check claims the requirement for every notional.
  The code gives it for every notional up to the breakpoint and at the bound, and
  misses by up to three lots in between (`Envelope.ThreeProbesMiss`). The claim
  holds exactly when it holds in a window past the breakpoint, of three lots over
  the slack and at most one period of the rounding, 10^9 lots
  (`Envelope.EnvelopeExact`); with no slack it is the period (`Envelope.NoSlackMiss`).
  The default parameters meet it.
- The overflow fallback of the haircut ratio is commented as never overpaying; it
  returns the full ratio, which overpays (`Haircut.FallbackOverpays`). It is out of
  reach with up to 2^34 holders (`HaircutRuns.FewHoldersExactRun`).
- The guard of the free list against a double free covers the head only
  (`FreeLists.DoubleFreeExact`).
- An insert keeps the cached best exactly when the new id differs from that of the
  cached best (`BookLayout.BestAfterInsertExact`), so that, and not freshness on
  the whole side, is what an insert requires here. The sequence counter meets it in
  every run of calls (`BookCounters.CallsFromEmpty`).
- Reduce-only safety depends on nothing else shrinking a position below what is in
  flight on it (`SettlementRuns.MoveExact`).
- The growth of the outbox is documented as requiring a drained outbox. Its gate
  compares the mirrored cursors, which only a carried fill moves: it is open on any
  ring until the first carried fill, and closed for good after it, drained or not
  (`SettlementOutboxes.GrowGateExact`). A ring grown past the outbox after that
  halts matching where the outbox is demanded (`SettlementOutboxes.HaltsExact`).
- An armed outbox holds the record of every waiting fill in every run exactly when it
  was armed on a drained ring of more than 96 slots
  (`SettlementOutboxes.ArmedExact`); up to 96 a taker may leave it out.
- `grow_fill_commitment` clears the account after resizing it, which changes
  nothing: draining has cleared it already (`SettlementRuns.DrainedGrowth`).

## Model

| member | source | states |
|---|---|---|
| RedBlackTrees.RedBlackTree.RotateLeft | programs/clober/src/hypertree/red_black_tree.rs:321-374 | on any slab, the links and the root after the call are those of a left rotation, and the node values do not move |
| RedBlackTrees.RedBlackTree.RotateRight | programs/clober/src/hypertree/red_black_tree.rs:376-429 | the mirror image of the left rotation |
| TreeRep.RotateLeftWhole | programs/clober/src/hypertree/red_black_tree.rs:321-374 | if the slab held a tree whose focus has a right child, it holds the rotated tree afterwards: every parent, child and root link agrees, and no slot outside the tree changed |
| TreeRep.RotateRightWhole | programs/clober/src/hypertree/red_black_tree.rs:376-429 | the same for the right rotation |
| RedBlackTrees.RedBlackTree.InsertNodeNoFix | programs/clober/src/hypertree/red_black_tree.rs:1237-1293 | the descent ends at the only place that keeps the keys sorted, equal keys going left, and hangs the new red leaf there |
| RedBlackTrees.RedBlackTree.InsertFix | programs/clober/src/hypertree/red_black_tree.rs:1299-1379 | one repair step keeps the in-order sequence and the black heights; it either ends with a red-black tree or moves the one red-red edge two levels up, so the climb ends |
| RedBlackTrees.RedBlackTree.Insert | programs/clober/src/hypertree/red_black_tree.rs:992-1041 | from any well-formed tree: a well-formed tree whose in-order sequence is the old one with the new slot at its sorted place; no other payload moves, and the cached maximum is right |
| TreeKeys.InsertKeepsSorted | programs/clober/src/hypertree/red_black_tree.rs:1237-1293 | putting a key at its sorted place keeps the sequence sorted |
| InsertRepair.RecolorPending | programs/clober/src/hypertree/red_black_tree.rs:1331-1340 | recolouring parent, uncle and grandparent moves the only red-red edge to the grandparent and keeps black heights |
| InsertRepair.LeftLeftRepaired | programs/clober/src/hypertree/red_black_tree.rs:1354-1359 | the left-left rotation and recolouring give a red-black tree in the same order |
| InsertRepair.LeftRightRepaired | programs/clober/src/hypertree/red_black_tree.rs:1360-1366 | the left-right double rotation gives a red-black tree in the same order |
| InsertRepair.RightRightRepaired | programs/clober/src/hypertree/red_black_tree.rs:1367-1372 | the right-right rotation and recolouring give a red-black tree in the same order |
| InsertRepair.RightLeftRepaired | programs/clober/src/hypertree/red_black_tree.rs:1373-1379 | the right-left double rotation gives a red-black tree in the same order |
| RedBlackTrees.RedBlackTree.SwapNodeWithSuccessor | programs/clober/src/hypertree/red_black_tree.rs:431-485 | the slab after the call is the swap of the two nodes' places, colours staying with the places, including an adjacent successor |
| NodeSwap.SwapRenames | programs/clober/src/hypertree/red_black_tree.rs:431-485 | swapping a node with its successor is exactly renaming the two slots in the tree: no third slot changes its place |
| NodeSwap.SwapWhole | programs/clober/src/hypertree/red_black_tree.rs:431-485 | the slab holds the renamed tree after the swap, in both the adjacent and the distant case |
| NodeSwap.SwapThenWithout | programs/clober/src/hypertree/red_black_tree.rs:431-485 | dropping the node from the renamed order is dropping it from the old order, so the swap is invisible afterwards |
| RedBlackTrees.RedBlackTree.UpdateParentChild | programs/clober/src/hypertree/red_black_tree.rs:487-504 | the slab is the one with the node spliced out in favour of its only child, or of nothing |
| TreeRep.SpliceWhole | programs/clober/src/hypertree/red_black_tree.rs:487-504 | after the splice the slab holds the tree without the focus |
| RedBlackTrees.RedBlackTree.RemoveFix | programs/clober/src/hypertree/red_black_tree.rs:1137-1233 | one fix-up step keeps the in-order sequence and restores the missing black, pushes it one level up, or turns a red sibling black; in every case a measure falls, also in the red-sibling case, which does not climb |
| RemoveRepair.PushedUp | programs/clober/src/hypertree/red_black_tree.rs:1207-1217 | with a black sibling and black nephews, recolouring moves the missing black to the parent |
| RemoveRepair.LeftLeftRestored | programs/clober/src/hypertree/red_black_tree.rs:1163-1171 | the left-left case of the fix-up restores all black heights without a red-red edge |
| RemoveRepair.LeftRightRestored | programs/clober/src/hypertree/red_black_tree.rs:1172-1182 | the left-right case does |
| RemoveRepair.RightRightRestored | programs/clober/src/hypertree/red_black_tree.rs:1183-1192 | the right-right case does |
| RemoveRepair.RightLeftRestored | programs/clober/src/hypertree/red_black_tree.rs:1193-1203 | the right-left case does |
| RemoveRepair.RedSiblingLeft | programs/clober/src/hypertree/red_black_tree.rs:1219-1225 | a red left sibling is rotated above the parent, which leaves the same shortage below a black sibling |
| RemoveRepair.RedSiblingRight | programs/clober/src/hypertree/red_black_tree.rs:1226-1231 | the mirror image |
| RemoveRepair.EasyRemoval | programs/clober/src/hypertree/red_black_tree.rs:1071-1088 | if the node or its child is red, blackening the child restores the tree |
| RemoveRepair.HardRemoval | programs/clober/src/hypertree/red_black_tree.rs:1090-1102 | otherwise the spliced tree is short of exactly one black at the focus |
| RedBlackTrees.RedBlackTree.RemoveByIndex | programs/clober/src/hypertree/red_black_tree.rs:1044-1103 | from any well-formed tree: a well-formed tree whose in-order sequence is the old one minus exactly that slot; no slot outside the tree changed, no value of another slot moved, and the cached maximum is right |
| TreeKeys.WithoutKeepsSorted | programs/clober/src/hypertree/red_black_tree.rs:1044-1103 | dropping one slot keeps the keys sorted |
| TreeKeys.RemoveMax | programs/clober/src/hypertree/red_black_tree.rs:1051-1058 | the predecessor captured before removing the maximum is the new maximum |
| RedBlackTrees.RedBlackTree.LookupIndex | programs/clober/src/hypertree/red_black_tree.rs:512-556 | NIL exactly when no slot of the tree carries the key, otherwise a slot of the tree that does, the only one when the keys are distinct; at most height many nodes are examined, and 2 to that number is at most the square of the node count plus one |
| Trees.HeightIsLogarithmic | programs/clober/src/hypertree/red_black_tree.rs:789-832 | in a red-black tree of n nodes, 2 to the height is at most the square of n + 1 |
| Trees.PlugRedBlack | programs/clober/src/hypertree/red_black_tree.rs:789-832 | a tree is red-black exactly when a subtree and its surroundings are, with matching black heights and no red-red edge between them |
| RedBlackTrees.RedBlackTree.LookupMaxIndex | programs/clober/src/hypertree/red_black_tree.rs:558-572 | the last slot of the in-order sequence, or NIL when it is empty, for any tree the links spell out |
| RedBlackTrees.RedBlackTree.GetNextLowerIndex | programs/clober/src/hypertree/red_black_tree.rs:584-609 | the slot before the given one in order, or NIL, for any tree the links spell out |
| RedBlackTrees.RedBlackTree.GetNextHigherIndex | programs/clober/src/hypertree/red_black_tree.rs:607-619 | the first slot of the right subtree of a node that has one |
| RedBlackTrees.RedBlackTree.SuccessorIndex | programs/clober/src/book_state.rs:1144-1166 | the slot after the given one in order, or NIL, also when the walk has to climb, for any tree the links spell out |
| RedBlackTrees.RedBlackTree.LeftmostDescendant | programs/clober/src/book_state.rs:1127-1142 | the first slot of the subtree in order |
| FreeLists.FreeList.Add | programs/clober/src/hypertree/free_list.rs:64-78 | the slab after the call is the scrubbed slot linked in front, or unchanged when the slot is the head already |
| FreeLists.FreeList.Remove | programs/clober/src/hypertree/free_list.rs:80-96 | pops the head and follows its link |
| FreeLists.AddRep | programs/clober/src/hypertree/free_list.rs:64-78 | freeing a slot that is not in the list gives the list with that slot in front |
| FreeLists.DoubleFreeExact | programs/clober/src/hypertree/free_list.rs:64-78 | after freeing a slot the slab still holds a free list exactly when the slot was the head or was not free: the guard against a double free covers the head only |
| OrderIds.IdOrderIsPriority | programs/clober/src/book_state.rs:255-264 | for encodable sequence numbers, and prices in range, ascending ids are price-time priority on both sides, first in first out at one price |
| OrderIds.IdRoundTrip | programs/clober/src/book_state.rs:255-264 | an id gives back the price and the sequence number it was made of |
| OrderIds.SaturatedPrices | programs/clober/src/book_state.rs:255-264 | prices past the top of the field count as the top one, the worst of the asks and the best of the bids |
| OrderIds.WrappedSeqLosesPriority | programs/clober/src/book_state.rs:225-264 | without the sequence guard the order is wrong: a concrete later order that gets the smaller id |
| BookSpec.StepKeeps | programs/clober/src/book_state.rs:891-1061 | every operation keeps both sides sorted, the slots distinct, the partition of the slots below the bump pointer, and the other side untouched; a failed one changes nothing |
| BookSpec.RunKeeps | programs/clober/src/book_state.rs:891-1061 | so does every run of operations |
| BookSpec.FullExact | programs/clober/src/book_state.rs:853-879 | an allocation is refused exactly when every slot of the slab holds a live order |
| BookSpec.InsertIsMapUpdate | programs/clober/src/book_state.rs:891-940 | an insert is an update of the map from slot to order of its side |
| BookSpec.RemoveIsMapRemoval | programs/clober/src/book_state.rs:1002-1061 | a removal takes exactly one slot out of that map |
| BookSpec.ResizeIsMapUpdate | programs/clober/src/book_state.rs:979-990 | a partial fill changes the size of one order in the map |
| BookSpec.SideInPriorityOrder | programs/clober/src/book_state.rs:255-264 | a side sorted by id is in price-time priority |
| BookEffects.InsertEffect | programs/clober/src/book_state.rs:853-942 | an insert fails for its sequence number exactly when that is not encodable, and for space exactly when every slot is live; otherwise it takes a slot that was not live, the last one freed first, and is an update of its side there, and nothing else changes |
| BookEffects.RemoveEffect | programs/clober/src/book_state.rs:1002-1061 | a removal takes exactly the named slot out of its side and puts it in front of the free ones, and nothing else changes |
| BookEffects.DecrementEffect | programs/clober/src/book_state.rs:979-990 | a decrement is refused exactly when it is more than the named order has left; otherwise that order, and no other, has so much less |
| BookIds.InsertIdsExact | programs/clober/src/book_state.rs:891-942 | the ids of a side stay distinct over an insert exactly when they were and the new one is not among them |
| BookIds.InsertIsIdUpdate | programs/clober/src/book_state.rs:891-942 | then the insert is an update of the map from id to entry |
| BookIds.RemoveIsIdRemoval | programs/clober/src/book_state.rs:1002-1061 | a removal takes exactly one id out of that map |
| BookIds.ResizeIsIdUpdate | programs/clober/src/book_state.rs:979-990 | a partial fill changes the size under one id and nothing else |
| BookIds.StepIdsExact | programs/clober/src/book_state.rs:853-1061 | a step keeps the ids of both sides distinct exactly when what it places is fresh on its side |
| BookEffects.InsertIdEffect | programs/clober/src/book_state.rs:891-942 | an insert adds its order under its id, and nothing else of either side changes |
| BookEffects.RemoveIdEffect | programs/clober/src/book_state.rs:1002-1061 | a removal takes the id of the order in the named slot, and no other, off its side |
| BookIds.RunFromEmpty | programs/clober/src/book_state.rs:812-1061 | from the empty book every run is consistent, and a run of fresh ids leaves every order under an id of its own |
| BookIds.StrictPriority | programs/clober/src/book_state.rs:255-264 | with distinct ids the price-time priority of a side is strict |
| BookCounters.SeqsTellIdsApart | programs/clober/src/book_state.rs:255-264 | different sequence numbers give different ids at any two prices, saturated ones included |
| BookCounters.CallEnabled | programs/clober/src/lib.rs:8854-8878 | whatever is placed under the next number of the counter is accepted by the book as it stands, and its id is fresh |
| BookCounters.CallKeeps | programs/clober/src/lib.rs:499-530 | placing, cancelling, filling, burning a number and reseating the counter of an empty book keep every order under an issued id of its own |
| BookCounters.PlaceEffect | programs/clober/src/lib.rs:8854-8878 | a placement adds its order under the id of its price and the next number, unless numbers or slots have run out; then nothing changes, the counter included |
| BookCounters.CancelEffect | programs/clober/src/book_state.rs:1002-1061 | a cancellation takes exactly the id of the named order off its side and uses no number |
| BookCounters.FillEffect | programs/clober/src/book_state.rs:979-990 | a partial fill changes the size of the named order alone and uses no number |
| BookCounters.NumberEffect | programs/clober/src/lib.rs:499-530 | a taker that rests nothing uses a number, and the counter goes back to zero exactly when no order rests |
| BookCounters.CallsAreRun | programs/clober/src/lib.rs:8854-8878 | a run of such calls is an enabled run of the book |
| BookCounters.CallsFromEmpty | programs/clober/src/lib.rs:499-530 | from an empty book, any run of calls: all its operations are enabled, ids are distinct, and at encodable prices both sides are in strict price-time priority |
| BookLayout.BestAfterInsertExact | programs/clober/src/book_state.rs:905-910 | comparing with the cached best alone keeps it the first of the side exactly when the new id differs from the id of the cached best: an equal id goes in front in the tree but not in the cache |
| BookLayout.BestAfterRemove | programs/clober/src/book_state.rs:1002-1034 | the successor captured before the best is removed is the first of the remaining side |
| BookLayout.ViewConsistent | programs/clober/src/book_state.rs:853-1061 | whatever slab is laid out as three structures and caches stands for a consistent book |
| MarketBooks.MarketBookHandle.constructor | programs/clober/src/book_state.rs:812-848 | a fresh book stands for the empty one |
| MarketBooks.MarketBookHandle.AllocNode | programs/clober/src/book_state.rs:853-879 | hands out the head of the free list, else the slot at the bump pointer, else fails; the layout then has exactly that one slot spare |
| MarketBooks.MarketBookHandle.FreeNode | programs/clober/src/book_state.rs:881-886 | returns the spare slot to the front of the free list |
| MarketBooks.MarketBookHandle.InsertBid | programs/clober/src/book_state.rs:891-916 | one step of the abstract book, including the error cases; nothing else moves |
| MarketBooks.MarketBookHandle.InsertAsk | programs/clober/src/book_state.rs:918-942 | the same on the ask side |
| MarketBooks.MarketBookHandle.RemoveBidNode | programs/clober/src/book_state.rs:1002-1035 | one step of the abstract book, which takes exactly the named slot out of the bids (`BookEffects.RemoveEffect`): its slot heads the free list, the best and the counter follow |
| MarketBooks.MarketBookHandle.RemoveAskNode | programs/clober/src/book_state.rs:1037-1061 | the same on the ask side |
| MarketBooks.MarketBookHandle.DecrementSizeAt | programs/clober/src/book_state.rs:979-990 | one step of the abstract book: an over-fill is refused and changes nothing |
| MarketBooks.MarketBookHandle.LookupBidByOrderId | programs/clober/src/book_state.rs:1066-1078 | NIL exactly when no resting bid has the id, otherwise the slot of one that has; with distinct ids, the slot that the bids as a map by id have for it |
| MarketBooks.MarketBookHandle.LookupAskByOrderId | programs/clober/src/book_state.rs:1080-1091 | the same on the ask side |
| MarketBooks.MarketBookHandle.ForEachBidBestFirst | programs/clober/src/book_state.rs:944-956 | visits the bids in priority order, each once, all of them or up to the one at which the callback stops |
| MarketBooks.MarketBookHandle.ForEachAskBestFirst | programs/clober/src/book_state.rs:958-970 | the same on the ask side |
| MarketBooks.MarketBookHandle.RunOps | programs/clober/src/book_state.rs:853-1061 | a whole run on the slab is the run of the abstract book |
| MarketBooks.ForEachBestFirst | programs/clober/src/book_state.rs:1170-1191 | from the cached best, successor by successor, the walk meets the slots of any linked tree in order, each once, and stops where the callback does |
| NodeLinks.CheckLinks | programs/clober/src/book_state.rs:593-632 | accepts exactly when every link of every node is NIL or a whole aligned slot and every colour byte is 0 or 1 |
| NodeLinks.VisitTree | programs/clober/src/book_state.rs:645-720 | accepts exactly when the root leads to a tree, parent-symmetric and with a NIL parent at the root, that takes its slots from the unvisited ones; then marks exactly those |
| NodeLinks.DfsSound | programs/clober/src/book_state.rs:686-719 | a depth-first walk that never meets a taken slot or a child that does not point back has walked a forest |
| NodeLinks.DfsComplete | programs/clober/src/book_state.rs:686-719 | such a walk goes through every forest |
| NodeLinks.CheckBest | programs/clober/src/book_state.rs:722-750 | accepts exactly when the cached best is the leftmost slot of the tree, or NIL for an empty one |
| NodeLinks.VisitFreeList | programs/clober/src/book_state.rs:752-785 | accepts exactly when the links from the head spell out a list of distinct unvisited slots; then marks exactly those |
| NodeLinks.WalkExact | programs/clober/src/book_state.rs:752-785 | following links with a visited set finds the list that is there, and only that one |
| NodeLinks.LiveEnd | programs/clober/src/book_state.rs:787-792 | the bytes that cover every visited slot, and no fewer |
| NodeLinks.CheckBump | programs/clober/src/book_state.rs:782-808 | accepts exactly when the bump pointer is aligned, within the slab and above every slot in use |
| NodeLinks.ValidateNodeLinks | programs/clober/src/book_state.rs:593-808 | accepts exactly when the account spells out three trees and a free list: sound and complete |
| NodeLinks.AcceptedShape | programs/clober/src/book_state.rs:593-808 | what acceptance means: the four structures are pairwise disjoint, each slot occurs once, children point back at their parents, everything lies below the bump pointer |
| AcceptedWalks.WalkAccepted | programs/clober/src/book_state.rs:1170-1191 | on any account the validator accepts, balanced or not and sorted or not, the walk of either side from its cached best ends and visits every slot of its tree once, in order, up to where the callback stops |
| NodeLinks.ValidBookAccepted | programs/clober/src/book_state.rs:593-848 | every laid-out book, hence every book reached from an empty one, is accepted |
| FillPreimages.FillPreimage | programs/clober/src/matcher/fill_commitment.rs:94-120 | builds, field by field in a zeroed buffer, the canonical serialization |
| FillPreimages.PreimageFields | programs/clober/src/matcher/fill_commitment.rs:66-120 | which field lies at which of the 136 bytes |
| FillPreimages.PreimageParses | programs/clober/src/matcher/fill_commitment.rs:94-120 | the serialization reads back to all ten fields |
| FillPreimages.ParsedIsPreimage | programs/clober/src/matcher/fill_commitment.rs:94-120 | the strings that read back are exactly the serializations |
| FillPreimages.PreimageInjective | programs/clober/src/matcher/fill_commitment.rs:66-120 | equal serializations have equal fields, all ten of them |
| Bytes.LeRoundTrip | programs/clober/src/matcher/fill_commitment.rs:229-237 | little-endian bytes give their number back |
| Bytes.LeValueRoundTrip | programs/clober/src/matcher/fill_commitment.rs:229-237 | and numbers their bytes |
| FillRings.PushEnqueues | programs/clober/src/matcher/fill_commitment.rs:132-150 | a push is an enqueue: refused exactly when the queue is full or the cursor is spent; what waits stays |
| FillRings.SettleDequeues | programs/clober/src/matcher/fill_commitment.rs:157-178 | a settle is a dequeue of the oldest entry, and succeeds exactly when that is what is presented; a failed one changes nothing |
| FillRings.IndexDistinct | programs/clober/src/matcher/fill_commitment.rs:143-145 | indices of one window fall on different slots |
| FillRings.GetIsMap | programs/clober/src/matcher/fill_commitment.rs:379-390 | the table answers like the map it stands for |
| FillRings.AddIsMap | programs/clober/src/matcher/fill_commitment.rs:393-426 | reserving lots is a map update, refused exactly when the key is new and every slot is in use; keys stay unique and lots positive |
| FillRings.SubIsMap | programs/clober/src/matcher/fill_commitment.rs:429-448 | releasing lots is a map update, or a removal when nothing is left |
| FillRings.FullTable | programs/clober/src/matcher/fill_commitment.rs:393-426 | no slot is unused exactly when the map has as many keys as the table has slots |
| FillBuffers.BufferInit | programs/clober/src/matcher/fill_commitment.rs:242-259 | refuses exactly a zero capacity or a wrong length; otherwise the account checks and holds the empty ring |
| FillBuffers.BufferCheck | programs/clober/src/matcher/fill_commitment.rs:262-276 | succeeds exactly when discriminator, capacity, length and market agree, and returns the capacity |
| FillBuffers.BufferSetCap | programs/clober/src/matcher/fill_commitment.rs:295-297 | writes the four capacity bytes and nothing else |
| FillBuffers.RingPush | programs/clober/src/matcher/fill_commitment.rs:132-150 | the slots as a window of the account's bytes: the push of the ring, flags and table untouched |
| FillBuffers.RingSettle | programs/clober/src/matcher/fill_commitment.rs:157-178 | the settle of the ring, in the same window |
| FillBuffers.BufferPush | programs/clober/src/matcher/fill_commitment.rs:306-321 | on the bytes of an account that checks: one push of the ring it stands for |
| FillBuffers.BufferSettle | programs/clober/src/matcher/fill_commitment.rs:324-338 | one settle of the ring it stands for |
| FillBuffers.ReduceFlagSet | programs/clober/src/matcher/fill_commitment.rs:357-363 | sets the flag of one index; ring and table untouched |
| FillBuffers.ReduceFlagTake | programs/clober/src/matcher/fill_commitment.rs:367-376 | reads and clears the flag of one index; ring and table untouched |
| FillBuffers.InflightGet | programs/clober/src/matcher/fill_commitment.rs:379-390 | what the table holds for the key, for an account of any length |
| FillBuffers.InflightAdd | programs/clober/src/matcher/fill_commitment.rs:393-426 | the reservation, in the first slot of the key, else in the first unused one, else refused; ring and flags untouched |
| FillBuffers.InflightSub | programs/clober/src/matcher/fill_commitment.rs:429-448 | the release, clearing the slot when nothing is left; ring and flags untouched |
| FillBuffers.ZeroBodyIsEmpty | programs/clober/src/matcher/fill_commitment.rs:187-226 | the bytes after the header are all zero exactly when every slot, flag and entry is clear |
| FillBuffers.GrowExact | programs/clober/src/matcher/fill_commitment.rs:289-297 | resizing a drained account and stamping the capacity gives an empty ring, flag array and table at the new offsets exactly when all were clear before |
| FillBuffers.GrowFillCommitment | programs/clober/src/lib.rs:269-360 | refuses exactly what it must; otherwise the grown account holds the empty ring at the new capacity with the cursors kept, and clearing it changed nothing if it was clear |
| FillOutboxes.SlotRoundTrip | programs/clober/src/matcher/fill_outbox.rs:218-303 | a record reads back as written |
| FillOutboxes.SlotFields | programs/clober/src/matcher/fill_outbox.rs:218-252 | which field lies at which of the 96 bytes of a record |
| FillOutboxes.OutboxInit | programs/clober/src/matcher/fill_outbox.rs:141-158 | refuses exactly a zero capacity or wrong length; otherwise the account checks, with zero cursors |
| FillOutboxes.OutboxCheck | programs/clober/src/matcher/fill_outbox.rs:163-175 | succeeds exactly when the account is consistent and bound to the market; a wrong market is reported as such |
| FillOutboxes.OutboxSetCursors | programs/clober/src/matcher/fill_outbox.rs:189-192 | writes both cursors; the records stay |
| FillOutboxes.OutboxWriteSlot | programs/clober/src/matcher/fill_outbox.rs:218-252 | writes one record, every other record and the header stay; refuses an index or buffer out of range |
| FillOutboxes.OutboxReadSlot | programs/clober/src/matcher/fill_outbox.rs:270-303 | reads the record of the slot |
| FillOutboxes.GrowFillOutbox | programs/clober/src/lib.rs:1325-1400 | refuses exactly what it must; otherwise old records keep their places |
| ReduceOnly.CheckReduceOnly | programs/clober/src/matcher/reduce_only.rs:28-50 | on the opposing side the lesser of order and position is admitted, on any other nothing; rejected exactly when there is nothing to reduce |
| Settlement.StepKeepsBooks | programs/clober/src/matcher/fill_commitment.rs:132-178 | every step of crossing with or without the outbox, settling, growing, arming and moving positions keeps the books: commitments, flags, clear slots, table and history |
| Settlement.CrossKeeps | programs/clober/src/lib.rs:2317-2410 | recording a fill keeps the books, whether or not its record goes to an outbox |
| Settlement.SettleKeeps | programs/clober/src/lib.rs:5574-5623 | consuming a fill keeps the books |
| Settlement.SettledIsRecorded | programs/clober/src/lib.rs:5572-5600 | barring a hash collision, a settled fill is the matched fill of that index in all committed fields |
| Settlement.DrainedIsEmpty | programs/clober/src/matcher/fill_commitment.rs:289-297 | once produced equals settled, every slot, flag and table entry is clear |
| Settlement.TradedIsApplyFill | programs/clober/src/matcher/position_math.rs:62-174 | the machine's side and size after a fill are those of the position arithmetic |
| SettlementEffects.CrossSizeExact | programs/clober/src/lib.rs:2080-2120 | a reduce-only order fills the most that its position still covers on the opposing side, after what is in flight, and nothing on the other; any other order fills whole |
| SettlementEffects.CrossEffect | programs/clober/src/lib.rs:2273-2370 | a cross appends exactly that fill to what is recorded when the ring, the outbox or the batch cap, and the table allow it, and otherwise does nothing; positions stay |
| SettlementEffects.SettleEffect | programs/clober/src/lib.rs:5574-5623 | a settlement goes through exactly when the oldest fill is presented; then that fill is settled, and trades on the position of its maker if it is reduce-only, and no other position moves |
| SettlementEffects.FieldsExact | programs/clober/src/matcher/fill_commitment.rs:94-120 | two fills commit alike exactly when their indices and eight fields agree |
| SettlementEffects.SettledMatches | programs/clober/src/lib.rs:5572-5600 | a settled fill is the matched one of its index in parties, sub-accounts, sides, size, price and JIT flag, barring a collision |
| SettlementEffects.GrowRingEffect | programs/clober/src/lib.rs:269-360 | the ring grows exactly when it is drained, by what was asked |
| SettlementEffects.ArmEffect | programs/clober/src/lib.rs:1249-1316 | an outbox is armed once, as large as the ring up to 105 records, all zero, and raises the batch cap to the ring; it can carry at once exactly when the ring is not larger |
| SettlementEffects.GrowOutboxEffect | programs/clober/src/lib.rs:1336-1400 | the outbox grows exactly when its mirrored cursors are equal, with its records where they were |
| SettlementRuns.DeployedKeeps | programs/clober/src/matcher/fill_commitment.rs:242-259 | a freshly initialized ring without an outbox starts with the books in order |
| SettlementRuns.RunSafe | programs/clober/src/matcher/fill_commitment.rs:757-878 | no run of crosses, settlements, growths and armings, over any positions and with the outbox passed or not, flips a position by a reduce-only fill, and in-flight lots never exceed the position |
| SettlementRuns.NoFlipExact | programs/clober/src/matcher/fill_commitment.rs:203-214 | that safety holds of a state exactly when what is in flight is covered, side and size; otherwise some run flips |
| SettlementRuns.MoveExact | programs/clober/src/matcher/fill_commitment.rs:203-214 | a change of the position from outside keeps the safety exactly when it leaves room for what the in-flight table holds for it, on the same side |
| SettlementRuns.ClosedWhileWaiting | programs/clober/src/matcher/fill_commitment.rs:203-214 | so closing a position while reduce-only fills on it wait lets some run flip it: the residual that docs/SETTLEMENT.md accepts |
| SettlementRuns.SettleCoveredExact | programs/clober/src/matcher/fill_commitment.rs:803-878 | a settlement that does not flip neither creates nor hides an uncovered position |
| SettlementRuns.MatchedSettlesInOrder | programs/clober/src/matcher/fill_commitment.rs:132-178 | over any run a recorded fill is consumed at its own index, as recorded, or still waits with its commitment and its flag in the ring |
| SettlementRuns.DrainedGrowth | programs/clober/src/lib.rs:269-360 | after any run, growing a drained ring clears nothing that was in use |
| SettlementOutboxes.DeployedMirror | programs/clober/src/lib.rs:2263-2402 | a deployed market starts with the mirror in order |
| SettlementOutboxes.CrossCarries | programs/clober/src/lib.rs:2317-2402 | a fill is carried exactly when the outbox is armed and passed; then its record stands at its index, and every carried fill that waits still has its own |
| SettlementOutboxes.RunMirror | programs/clober/src/lib.rs:2317-2402 | over any run the mirrored cursors are those of the last carried fill, and every carried fill that waits can be read back |
| SettlementOutboxes.GrowGateExact | programs/clober/src/lib.rs:1336-1354 | the gate of the outbox growth is open exactly as long as no fill was ever carried: drained or not before the first one, and never again after it |
| SettlementOutboxes.LastCarried | programs/clober/src/lib.rs:2396-2402 | the mirrored produced cursor is level with the ring exactly when the newest fill was carried |
| SettlementOutboxes.CarriedStaysReadable | programs/clober/src/matcher/fill_outbox.rs:218-303 | whatever happens, a carried fill can be read back at its index until it is settled |
| SettlementOutboxes.RecordSettles | programs/clober/src/matcher/fill_outbox.rs:218-303 | the record at the oldest index, when that fill was carried, names a fill that the ring accepts: reading the outbox is enough to settle |
| SettlementOutboxes.OutboxExact | programs/clober/src/lib.rs:2273-2276 | from an armed state with nothing uncarried waiting, every waiting fill can always be read back exactly when the batch cap is above 96 |
| SettlementOutboxes.ArmedExact | programs/clober/src/lib.rs:1249-1316 | arming makes every waiting fill readable in every later run exactly when the ring was drained and has more than 96 slots |
| SettlementOutboxes.UnpassedOutbox | programs/clober/src/lib.rs:2273-2276 | the input that fails otherwise: with a ring of 96, a fill crossed without the outbox waits unrecorded while the mirrored cursors are equal, and the outbox grows on a ring that is not drained |
| SettlementOutboxes.ArmedWhileWaiting | programs/clober/src/lib.rs:1249-1316 | and the other: a fill that waits when the outbox is armed has no record, at any ring size |
| SettlementOutboxes.HaltsExact | programs/clober/src/lib.rs:2273-2322 | once the outbox is demanded and has carried a fill, no run ever records another exactly when the ring has been grown past it |
| SettlementBatches.BatchIsCrosses | programs/clober/src/lib.rs:1915-1945 | walking the orders against a decremented copy of each position and then recording the batch goes through exactly when crossing them one at a time does, and comes to the same, from any point of the walk |
| SettlementBatches.BatchFromStart | programs/clober/src/lib.rs:2080-2120 | so a whole call of the matcher crosses all its orders, or undoes everything exactly when one of them that may fill cannot be recorded |
| SettlementBatches.BatchRecords | programs/clober/src/lib.rs:2317-2370 | a batch that goes through has recorded its fills one by one and in order |
| SettlementBatches.CrossAllAppend | programs/clober/src/lib.rs:2080-2120 | crossing one more order is one more step |
| SettlementBytes.CommitFill | programs/clober/src/lib.rs:2330-2370 | on the account's bytes: push, reserve and flag, or fail |
| SettlementBytes.RecordInPlace | programs/clober/src/lib.rs:2317-2410 | on the bytes of the ring account, and of the outbox account when one is given: one recording step of the machine, refused without an outbox above the log-safe cap |
| SettlementBytes.SettleInPlace | programs/clober/src/lib.rs:5574-5623 | on the account's bytes: one settling step of the machine |
| PositionMath.StackBracketed | programs/clober/src/matcher/position_math.rs:86-127 | the stacked entry lies between the old entry and the fill price, so the cast to 64 bits loses nothing |
| PositionMath.ApplyFillValue | programs/clober/src/matcher/position_math.rs:62-174 | for every mark: realized plus unrealized equals the old equity plus the fill's own mark-to-price term, less r ticks with 0 <= r < new size, r nonzero only when stacking |
| PositionMath.ApplyFillLots | programs/clober/src/matcher/position_math.rs:62-174 | a fill moves the signed size by exactly its own signed lots |
| PositionMath.ApplyFillSucceeds | programs/clober/src/matcher/position_math.rs:62-174 | opening never fails; stacking fails exactly when the size overflows, never for its products; closing exactly when the gain does not fit 64 bits, or at tick size zero its ticks 128 |
| PositionMath.ResetExact | programs/clober/src/matcher/position_math.rs:62-174 | the funding basis is reset exactly when the position was flat, becomes flat, or changes sides |
| PositionMath.EntryKept | programs/clober/src/matcher/position_math.rs:62-174 | gains are realized on closed lots only; lots that stay keep their entry, a flipped position enters at the fill, a flat one at zero |
| PositionMath.SettleMoves | programs/clober/src/matcher/position_math.rs:62-174 | a trade settles exactly when both legs can; then the lots go from one account to the other and every other account is as it was |
| PositionMath.SettleValue | programs/clober/src/matcher/position_math.rs:62-174 | the two legs of a trade cancel: value moves only by rounding |
| PositionMath.RunValue | programs/clober/src/matcher/position_math.rs:62-174 | over any run and at every mark, value falls by exactly what rounding took |
| PositionMath.FromFlat | programs/clober/src/matcher/position_math.rs:62-174 | from flat accounts, after any run, long lots equal short lots and total equity is at most zero at every mark |
| Committee.CheckValidators | programs/clober/src/matcher/committee.rs:34-48 | accepts exactly the lists without the default key and without a duplicate |
| Committee.AttestationMeetsThreshold | programs/clober/src/matcher/committee.rs:57-78 | accepts exactly the lists of enough distinct members |
| Committee.QuorumsIntersect | programs/clober/src/matcher/committee.rs:18-29 | any two accepted lists share more than a third of the committee |
| Committee.HonestShared | programs/clober/src/matcher/committee.rs:10-29 | with fewer than a third faulty, they share an honest validator |
| Committee.EquivocatesExact | programs/clober/src/matcher/committee.rs:95-112 | a validator is an equivocator exactly when two of its votes at one height differ |
| Committee.ConflictExposes | programs/clober/src/matcher/committee.rs:95-112 | two accepted batches that differ at one height make every shared validator an equivocator |
| Committee.Agreement | programs/clober/src/matcher/committee.rs:10-112 | while fewer than a third equivocate, one height has one digest |
| Committee.ThresholdExact | programs/clober/src/matcher/committee.rs:18-24 | the valid configurations are exactly those whose quorums always share more than a third |
| Haircut.ComputeHExact | programs/clober/src/matcher/haircut.rs:92-117 | the ratio is the largest that the residual backs exactly when the overflow fallback does not stand in for it |
| Haircut.FallbackOverpays | programs/clober/src/matcher/haircut.rs:108-116 | with the fallback, a market backed by half pays in full |
| Haircut.ConvertExact | programs/clober/src/matcher/haircut.rs:119-136 | a convert pays the floor of its share, exactly until the product is past the last multiple that 128 bits hold |
| Haircut.ApplyConvertExact | programs/clober/src/matcher/haircut.rs:368-398 | a convert empties the matured lots of the position, pays the floor of their share, burns less than the cut and one lot, and pays all at the full ratio |
| Haircut.CreditBacked | programs/clober/src/matcher/haircut.rs:119-136 | a credit never exceeds the residual, nor the position's share |
| Haircut.ConvertKeepsRatio | programs/clober/src/matcher/haircut.rs:100-136 | a convert leaves the ratio of the remaining holders at least as high |
| Haircut.MaturedMonotone | programs/clober/src/matcher/haircut.rs:267-305 | what has matured never shrinks with time |
| Haircut.RampExact | programs/clober/src/matcher/haircut.rs:267-305 | nothing matures before the window, all after it, and within it the floor of the share of the window that has passed |
| Haircut.ReleaseExact | programs/clober/src/matcher/haircut.rs:196-265 | a release is refused exactly when it is nothing or overflows; it joins a running window at the average age of the lots, and otherwise starts the window anew for all of them |
| Haircut.BlendedExact | programs/clober/src/matcher/haircut.rs:220-265 | the blended slot keeps the age of the reserve, lots times slots, up to less than one slot of each lot |
| Haircut.MatureExact | programs/clober/src/matcher/haircut.rs:307-366 | a mature brings what has matured in all up to the ramp, out of the reserve, and is refused exactly when the total of the position would overflow |
| Haircut.MaturePathIndependent | programs/clober/src/matcher/haircut.rs:307-366 | maturing at s1 then at s2 is maturing once at s2: same state, same total, same failure |
| Haircut.FreshReleaseWaits | programs/clober/src/matcher/haircut.rs:207-305 | a mature at the slot of a release moves nothing, through both clock branches, exactly when h_max is positive |
| Haircut.MatureTracked | programs/clober/src/matcher/haircut.rs:307-366 | a mature never underflows and keeps the reserve within the original |
| HaircutRuns.ConvertPays | programs/clober/src/matcher/haircut.rs:368-398 | a convert is never refused for want of residual or matured total |
| HaircutRuns.ReleaseEffect | programs/clober/src/matcher/haircut.rs:196-265 | a release step adds the gain to the reserve of that holder, or changes nothing |
| HaircutRuns.MatureEffect | programs/clober/src/matcher/haircut.rs:307-366 | a mature step moves what the ramp has opened, of that holder and in total, or changes nothing |
| HaircutRuns.ConvertEffect | programs/clober/src/matcher/haircut.rs:368-398 | a convert step pays that holder the floor of its share out of the residual and burns the rest, always when the dust counter has room |
| HaircutRuns.ConvertFair | programs/clober/src/matcher/haircut.rs:368-398 | a convert step leaves the ratio at least as high |
| HaircutRuns.StepKeeps | programs/clober/src/matcher/haircut.rs:196-398 | every step keeps the total equal to the sum of the positions and every gain accounted for |
| HaircutRuns.RunSolvent | programs/clober/src/matcher/haircut.rs:196-398 | any run pays at most the starting residual, without underflow, each convert leaves the ratio at least as high, and gains equal reserve plus matured plus credit plus dust |
| HaircutRuns.FewHoldersExactRun | programs/clober/src/matcher/haircut.rs:100-117 | with up to 2^34 holders no run meets the overflow fallback |
| HaircutRuns.FreshMarketSolvent | programs/clober/src/matcher/haircut.rs:100-398 | so with nothing assumed of the run: from a market with nothing matured and up to 2^34 holders, every convert is backed, none lowers the ratio of the others, and all that is paid comes out of the starting residual |
| Envelope.BelowBreakpoint | programs/clober/src/matcher/envelope.rs:134-146 | one probe at the breakpoint decides every smaller notional |
| Envelope.AcceptedSlack | programs/clober/src/matcher/envelope.rs:98-218 | acceptance makes the requirement grow at least as fast as the cost |
| Envelope.ThreeProbes | programs/clober/src/matcher/envelope.rs:98-218 | for every accepted parameter set, notionals up to the breakpoint and the largest are solvent, and no other misses by more than three lots |
| Envelope.ThreeProbesMiss | programs/clober/src/matcher/envelope.rs:98-218 | accepted parameters and a notional that misses by exactly three lots: the for-all of the comment fails, and the bound is sharp |
| Envelope.SolventRepeats | programs/clober/src/matcher/envelope.rs:147-218 | without negative slack, solvency past the breakpoint carries over to the notional one period of 10^9 lots further on |
| Envelope.OnePeriodDecides | programs/clober/src/matcher/envelope.rs:147-218 | so the notionals of one period past the breakpoint decide every larger one, without any bound |
| Envelope.EnvelopeExact | programs/clober/src/matcher/envelope.rs:98-218 | every notional up to the bound is solvent exactly when those in a window past the breakpoint are: three lots over the slack, and never more than one period of 10^9 lots |
| Envelope.NoSlackMiss | programs/clober/src/matcher/envelope.rs:98-218 | accepted parameters with no slack at all, whose window is a whole period, and a notional in it that misses |
| Envelope.DefaultSolvent | programs/clober/src/matcher/envelope.rs:71-93 | with the default parameters every notional up to the bound is solvent |
| Envelope.BreakpointMeaning | programs/clober/src/matcher/envelope.rs:258-267 | up to the breakpoint the requirement is the floor, and the breakpoint is the last such multiple |
| Envelope.LossExact | programs/clober/src/matcher/envelope.rs:153-182 | the loss is the least number of lots that covers the largest price move and funding of the window |
| Envelope.FeeExact | programs/clober/src/matcher/envelope.rs:183-194 | the fee is charged on the notional after the worst move, both rounded up, and is at least the minimum |
| Envelope.MmExact | programs/clober/src/matcher/envelope.rs:195-199 | the requirement is the maintenance share rounded down, or the floor |
| Envelope.AcceptExact | programs/clober/src/matcher/envelope.rs:101-218 | accepted are exactly the parameters within the caps whose breakpoint can be probed and that are solvent at every notional up to it and at the largest one |
| Envelope.ViolationIsReal | programs/clober/src/matcher/envelope.rs:200-218 | a refusal for insolvency names an insolvent notional and its numbers |
| Funding.SmoothedBetween | programs/clober/src/matcher/funding.rs:113-168 | the smoothed rate keeps the cap and lies between the prior and the instant rate |
| Funding.InstantExact | programs/clober/src/matcher/funding.rs:113-131 | the instant rate is on the side of the premium, longs paying above the oracle price: the floor of premium times gain over price, or the cap |
| Funding.SmoothedExact | programs/clober/src/matcher/funding.rs:129-146 | without a window, or after one, the rate is the instant one; otherwise it moves by the floor of the elapsed share of the gap |
| Funding.DeltaSucceeds | programs/clober/src/matcher/funding.rs:105-159 | a crank fails exactly when the notional of a lot or the charge does not fit 128 bits |
| Funding.DeltaBounded | programs/clober/src/matcher/funding.rs:105-159 | the index moves only when time passes on a known price; then the rate keeps its cap and nears the instant rate, and the index delta is the rate's charge on the notional over at most one period, rounded toward zero by less than one unit |
| Funding.CapProRated | programs/clober/src/matcher/funding.rs:170-210 | one crank's cap is at most its share of the full-period cap, saturation included |
| Funding.CapExact | programs/clober/src/matcher/funding.rs:170-205 | the cap is the floor of its share of the period as long as that fits 128 bits |
| Funding.ClampExact | programs/clober/src/matcher/funding.rs:170-210 | a delta within the cap passes unchanged, one beyond it becomes the cap on its side |
| Funding.WithinCaps | programs/clober/src/matcher/funding.rs:170-210 | cranks within their caps move the index by exactly the sum of their deltas |
| Funding.PeriodBounded | programs/clober/src/matcher/funding.rs:170-210 | cranks whose times sum to at most one period move the index by at most the full-period cap at the largest notional |
| Funding.FundingNets | programs/clober/src/matcher/funding.rs:249-269 | with equal long and short lots over one window, what is owed sums to between minus the number of longs and plus the number of shorts, strictly when there are any |
| Funding.OwedBounds | programs/clober/src/matcher/funding.rs:249-269 | for any book, the sum is the exact one up to one lot per position, on the side that rounding takes |
| Funding.OwedExact | programs/clober/src/matcher/funding.rs:249-269 | a position is charged unless its charge does not fit 128 bits: a long the charge rounded down, a short the negative of that |
| SideAccruals.SideAccrual.ReduceAProRata | programs/clober/src/matcher/side_accrual.rs:343-350 | stores and returns the reduced multiplier |
| SideAccruals.SideAccrual.ReduceAll | programs/clober/src/matcher/side_accrual.rs:343-350 | a run of reductions in place is the run on values |
| SideAccruals.RunTracks | programs/clober/src/matcher/side_accrual.rs:343-350 | after k reductions the multiplier is at most the exact product, and short of it by at most k |
| SideAccruals.RunShrinks | programs/clober/src/matcher/side_accrual.rs:343-350 | the multiplier never grows |
| SideAccruals.LazyTracksExact | programs/clober/src/matcher/side_accrual.rs:196-204 | a position reads at most its exact share, and less than one lot plus basis times k over the snapshot below it |
| SideAccruals.LotsTrackExact | programs/clober/src/lib.rs:10759-10780 | the same for every run of reductions by lots of open interest, as the program requests them: none of them saturates |

## Left out

- The claimed-seats tree beyond its root being walked by the validator: nothing inserts into it.
- Growth of the market book, and the byte-level casts of its nodes: the slab is an array of records of fixed length.
- Key order and colour balance as conclusions of the validator: it checks neither.
- The dead reads of the tree operations on NIL, and the branches that a well-formed tree rules out: of `remove_fix` for the root without a sibling, of `insert_fix` for a red parent without a grandparent.
- The third branch of `lookup_index`, for payloads that compare equal without being equal: orders compare by id alone.
- The overflow of the absolute value of a funding cap of `i64::MIN`, on which the program aborts: the model refuses the parameters as it refuses any cap too large.
- `apply_lp_fill`, which settles the ring without taking the reduce-only flag: it agrees with the settling step as long as the pool's quotes are never flagged, as the program posts them.
- NodeLinks.VisitFreeList: checks the alignment of the head once, before the loop, since every other link it follows was checked already.
- SideAccruals.LazyTracksExact: for runs in which no product saturates, and snapshots of at most the starting multiplier, which no reduction raises; `SideAccruals.LotsTrackExact` drops the first.
- MarketBooks.MarketBookHandle.InsertBid: requires that the new id, when its sequence number is encodable, differs from that of the cached best, see above.
- Settlement.CrossKeeps: a failed record undoes one fill, where the program undoes the whole transaction; the mirrored cursors are written with each fill, where the program writes them once after the batch.
- The matching walk itself beyond the sizes of reduce-only fills, self-trade modes, time in force, and the open-interest counters around it.
- `advance_indices` and the K, F and B indices of a side, the side modes and epochs.
- `release_mature_convert_if_ripe`, which calls the three haircut steps in turn, and `verify_invariants`, a report for logging.
- `gate_price_move`, `median3`, `robust_median_mark`, `advance_settlement_seq`, jailing, and `apply_residual_delta`: single checked operations.
- The liquidation batch, the liquidity-provider quoter and vault, insurance, sessions, cross margin and oracle parsers.
- Delegation, account addresses and plumbing, rent, events, clocks and foreign calls.
