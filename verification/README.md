# ebot: a verified model of its data structures and its worker handoff

`ebot` is a small event-driven server library in C. This project models, in Dafny, the parts of it
that live on pointers, arrays and interleavings, in the form the C code has: classes with the C
fields, loops over pointers, in-place updates. Each operation is proved against what its header or
its comments promise.

| files | what they model |
|---|---|
| `SearchOrder` | the node both kinds of tree share, and order and search in sorted sequences |
| `TreeShape`, `RedBlack`, `RbTree` | the red-black trees of `sys/tree.h`: insertion, removal and both fix-up loops on nodes with parent links and colours |
| `SplayShape`, `SplayCost`, `SplayWalk`, `Splay` | the top-down splay trees of `sys/tree.h`, with their amortized cost and that of walks through them |
| `Bits`, `Dll`, `Sequences` | mask-and-shift arithmetic, doubly linked lists, and edits of a sequence, shared by the rest |
| `HashPolicy`, `HashChains`, `HashTable` | the bucket table of `include/hashtable.h`: chains, doubling, and the policy that bounds the chains |
| `MergeOrder`, `HashSort` | the in-place bottom-up merge sort `HASH_SRT` |
| `BloomFilter`, `HashMap` | the Bloom filter, and the whole hash (find, add, delete, sort) against a map |
| `RingQueue` | `ringq`, the byte ring of length-prefixed frames |
| `Handoff` | reactors, rings, eventfds and workers as one interleaved step system, and the shutdown of the server, which joins the reactors first |
| `PacketRing` | the rings of `Handoff` as byte rings of packed packets |
| `MemPool` | `mpool`, one list that is free list and busy list at once |
| `TailQueue`, `EventLoop` | `TAILQ` with its address-of-previous-next links, the event tables against epoll's interest list, and the ready queue |
| `Scenarios` | short runs through the contracts, among them the inputs where the code does less than a caller may expect |

How to read it:

- A class keeps the C fields and ghost fields for what they stand for: `RbHead.tree`,
  `Table.chains`, `UtHash.order`, `RingQ.frames`, `TailQ.contents`. `Valid()` (or `ChainsOk`,
  `PolicyOk`, `TablesOk`, `ReadyOk`) is the representation invariant. Every public operation
  requires and ensures it, so it holds in every run.
- Reasoning about links happens on snapshots (`Snap()`, `HhSnap`, `AppSnap`, `SnapOf`), which are
  ordinary maps: a short method says which cells it changed, a lemma says what that does to the
  structure, and a third member puts the two together.
- `Handoff` models concurrency: `Enabled` and `Do` define the steps, `Inv` is what each of them
  keeps, and the main theorems quantify over all runs from `Initial`. Its rings are bounded
  queues; `FitsIsPush` ties their capacity to that of `RingQ`, and `PacketRing.UnitRing` shows that
  a push and a pop of packed packets on a `RingQ` are the push and the pop of those steps.
- Loop turns are counted by ghost values: the red-black operations return `turns`, and a splay tree
  keeps `turns` for its splay loops, `walks` for the loop of SPLAY_NEXT behind its splay, and
  `history`, the tree's size at each operation. Logarithms are stated by powers: 2^turns against a
  product.
- Tree keys are integers, standing for any total order the comparison macro may implement; hash
  keys are byte strings, and the hash function is an arbitrary function of the key.

What the proofs brought to light about the code:

- `ebot_add_event` returns 0 but does not install the event when another one of the same kind is
  already waiting on the descriptor. After a successful call the event is in its table if and only
  if its slot was empty or held it before (`EventLoop.Ebot.AddEvent`); `Scenarios.SecondReader` is
  a run where it is not. `ebot_del_event` in turn clears the slot whichever event of the kind is in
  it (`Scenarios.DeleteOther`).
- Adding a write event to a descriptor with a waiting read event drops `EPOLLET` from its
  registration (`Scenarios.EdgeDropped`). After a successful call the read interest, if there is
  one, is edge-triggered if and only if the event added is a read event or no read event was waiting
  (`EventLoop.Ebot.AddEvent`).
- `SPLAY_REMOVE` returns its argument, not the node it took out. The two are the same if and only
  if the argument is itself in the tree (`Splay.SplayHead.Remove`); they differ when the caller
  passes a lookup key (`Scenarios.RemoveByKey`).
- `mpool_put` returns early when the slab has no predecessor. That happens only when every other
  slab is out as well, and is then correct: the slab is already at the head.
- `eb_srv_destroy` joins the reactors and then the workers, and packets still queued by then can stay
  unhandled (`Handoff.LeftBehind` is a run that leaves one). At any point of any run, every shutdown
  from there handles all that was accepted for a unit if and only if no reactor is left that could
  push a packet, and the ring is empty or holds one packet that the worker, past its test of the status, is
  about to take (`Handoff.SurelyHandledIff`). So `wpool_stop` is only safe to call on drained rings.
- The walk of SPLAY_NEXT to the leftmost node is not within the bound of the Balance Theorem: calling
  it again and again for the first element walks over half of a tree that was filled in ascending
  order every time, from the second call on without a turn of the splay loop (`Scenarios.NextAgain`, `Scenarios.NextUnpaid`).
  A walk is paid for by the turns of the next operation if that splays the element walked to, as
  SPLAY_FOREACH does (`Splay.SplayHead.Balance`, `Splay.SplayHead.Foreach`).

## Model

| member | source | states |
|---|---|---|
| RedBlack.HeightBound | sys/tree.h:46-55 | every red-black tree of n nodes has height at most 2 lg(n+1): 2^height <= (n+1)^2 |
| RedBlack.OperationBound | sys/tree.h:53 | 2 * height + 1 turns, which no operation exceeds, are O(lg n): at most 4 lg(n+1) + 1 |
| RedBlack.InsRecolour | sys/tree.h:398-404 | with a red uncle, recolouring moves the only possible violation two levels up and keeps black heights and the in-order sequence |
| RedBlack.InsRotateOuter | sys/tree.h:411-412 | recolouring and rotating the grandparent ends the violation when the new node is an outer grandchild |
| RedBlack.InsRotateInner | sys/tree.h:405-412 | the double rotation ends it when the new node is an inner grandchild |
| RedBlack.RemSibling | sys/tree.h:440-441 | the node short of one black has a sibling, so the fix-up never dereferences a null one |
| RedBlack.RemRedSiblingL | sys/tree.h:442-446 | a red sibling is rotated up; the shortage stays in place below a red parent with a black sibling |
| RedBlack.RemBlackKids | sys/tree.h:447-453 | with two black nephews, painting the sibling red moves the shortage one level up |
| RedBlack.RemInnerL | sys/tree.h:455-463 | a red inner nephew is rotated into the outer position |
| RedBlack.RemOuterL | sys/tree.h:464-470 | with a red outer nephew one rotation restores all black heights |
| RedBlack.SuccessorOrder | sys/tree.h:519-550 | putting the successor in the removed node's place removes just that node from the order |
| TreeShape.RotatedLeft | sys/tree.h:335-353 | the pointer changes of RB_ROTATE_LEFT turn the represented tree into its left rotation, parent links included |
| TreeShape.RotatedRight | sys/tree.h:355-373 | the same for RB_ROTATE_RIGHT |
| TreeShape.Substituted | sys/tree.h:539-550 | copying a node's links and colour to another and repointing its neighbours renames it in the represented tree |
| TreeShape.SplicedOut | sys/tree.h:527-536 | linking a node's only child to its parent replaces the subtree by the child's |
| RbTree.RbHead.InsertColor | sys/tree.h:390-432 | RB_INSERT_COLOR terminates, restores all red-black conditions and keeps the in-order sequence, in at most one turn per level above the new node and one more |
| RbTree.RbHead.RemoveColor | sys/tree.h:434-508 | RB_REMOVE_COLOR terminates, restores all red-black conditions and keeps the in-order sequence, in at most one turn per level above the short place and one more |
| RbTree.RbHead.Insert | sys/tree.h:578-606 | RB_INSERT on a valid tree gives a valid one with the new element added, or returns the element with that key, which may be the argument itself, and changes no link and no colour; it takes at most 2 * height + 1 turns |
| RbTree.RbHead.Remove | sys/tree.h:510-575 | RB_REMOVE on a valid tree gives a valid one whose sequence is the old one without exactly that element, in at most 2 * height turns |
| RbTree.RbHead.Unlink | sys/tree.h:515-570 | the element leaves the tree; if a black node went with it, one place is short of one black |
| RbTree.RbHead.Find | sys/tree.h:609-624 | RB_FIND returns an element with the key, or null exactly when there is none, in one turn for each node on the search path, at most the height |
| RbTree.RbHead.Next | sys/tree.h:626-645 | RB_NEXT is the in-order successor, null behind the last element, in less than height turns |
| RbTree.RbHead.Foreach | sys/tree.h:672-675 | RB_FOREACH visits the elements in order, each once |
| RbTree.RbHead.MinMax | sys/tree.h:647-660 | RB_MIN and RB_MAX are the first and last element in order, in one turn for each node on the way |
| SplayShape.Assembled | sys/tree.h:105-110 | SPLAY_ASSEMBLE closes the unfinished links and joins the three trees without losing a subtree |
| Splay.SplayHead.StepLeft | sys/tree.h:211-221 | one turn of the loop left of the root keeps the whole sequence, keeps the right tree above the key, and shrinks the middle tree or ends at a missing child |
| Splay.SplayHead.Splay | sys/tree.h:202-235 | the splay terminates, keeps the in-order sequence, and leaves only smaller keys left and larger keys right of the root; k turns had at least k - 1 and at most 2k links to follow, and left k - 1 or more beside the root |
| Splay.NearestAtRoot | sys/tree.h:202-235 | after a splay the sought key is at the root if present; otherwise no key lies between the root's and the sought one |
| Splay.SplayHead.Insert | sys/tree.h:157-179 | SPLAY_INSERT adds the element as the root at its place in the order, or returns the element with that key, which may be the argument itself; no subtree is lost at the cut |
| Splay.SplayHead.Remove | sys/tree.h:181-200 | SPLAY_REMOVE takes out exactly the element with the argument's key, or no element when there is none; what it returns is what it took out if and only if the argument was in the tree; its turns are those of two splays |
| Splay.SplayHead.RemoveRoot | sys/tree.h:187-196 | splaying the left subtree for the same key leaves its root without a right child, so hanging the right subtree there loses nothing |
| Splay.SplayHead.Find | sys/tree.h:120-130 | SPLAY_FIND finds the key if present, at the root, and keeps the sequence |
| Splay.SplayHead.Next | sys/tree.h:132-144 | SPLAY_NEXT is the in-order successor of an element of the tree; its walk is as long as the left path behind the root's right link, and less than the height |
| Splay.SplayHead.Foreach | sys/tree.h:285-288 | SPLAY_FOREACH, which restructures the tree at every step, visits the elements in order, each once, and walks at most twice as many links as its splays take turns |
| Splay.SplayHead.MinMax | sys/tree.h:146-151 | SPLAY_MIN and SPLAY_MAX are the first and last element in order; their turns are at least half the links to it and at most the nodes on the way |
| Splay.SplayHead.SplayMinMax | sys/tree.h:240-271 | SPLAY_MINMAX brings that element to the root and keeps the sequence |
| SplayCost.LeftPays | sys/tree.h:211-221 | a turn left of the root is paid for by the fall of the potential, but for one single rotation left over |
| SplayCost.RightPays | sys/tree.h:222-232 | the same for a turn right of the root |
| SplayCost.SplayBill | sys/tree.h:202-235 | one splay's turns are paid for by the fall of the potential and 3 lg n + 2 more |
| SplayCost.BillBound | sys/tree.h:40-43 | m operations on at most n elements are priced at m (5 lg(n+1) + 4) or less |
| Splay.SplayHead.Balance | sys/tree.h:40-43 | the Balance Theorem: in every run of m operations from the empty tree, on at most n elements at a time, the splay loops take at most m (5 lg(n+1) + 4) turns in all; the walks of SPLAY_NEXT take at most twice the turns of the splay loops, but for those whose element the next operation does not splay |
| SplayWalk.GoesLeft | sys/tree.h:211-221 | a turn left of the root follows one or two links, leaves one on the right side, and is the last if it finds none left |
| SplayWalk.GoesRight | sys/tree.h:222-232 | the same for a turn right of the root |
| SplayWalk.NextAt | sys/tree.h:135-139 | a search for the successor follows the links of the walk and one more |
| Bits.MaskIsMod | include/hashtable.h:190-193 | masking with bucket count minus one is reduction modulo a power of two |
| Bits.ShiftMaskIsCeil | include/hashtable.h:636-646 | shift and mask compute the ceiling of items over buckets |
| Bits.DoubledIndex | include/hashtable.h:662-663 | under a doubled bucket count an index i becomes i or i plus the old count |
| HashPolicy.TriggerBound | include/hashtable.h:595-606 | when an addition triggers an expansion of a balanced table, the ideal chain length is between 1 and 10 |
| HashPolicy.AddKeeps | include/hashtable.h:595-606 | an addition that triggers no expansion keeps the policy's balance |
| HashPolicy.DeleteKeeps | include/hashtable.h:609-619 | so does a deletion |
| HashPolicy.ExpandBalances | include/hashtable.h:854-866 | an expansion with ideal length at most 10 restores the balance: every chain within 10*(expand_mult+1) |
| HashChains.BktIsSlot | include/hashtable.h:190-193 | HASH_TO_BKT selects the bucket whose number is the hash value modulo the bucket count |
| HashChains.CountAll | include/hashtable.h:268-293 | with exact chains the bucket counts add up to the number of elements |
| HashChains.Rebucketed | include/hashtable.h:658-683 | doubling puts each element of chain i into chain i or i plus the old count, and nothing else there |
| HashTable.Table.constructor | include/hashtable.h:140-158 | HASH_MAKE_TABLE gives 32 empty buckets and a balanced policy |
| HashTable.Table.ExpandBuckets | include/hashtable.h:650-696 | HASH_EXPAND_BUCKETS re-buckets all elements without loss or duplication; the ideal length is the ceiling of items over buckets, each multiplier the whole number of times the ideal length goes into a longer chain, the nonideal count the number of places beyond the ideal length; and it judges its own effect |
| HashTable.Table.MoveOne | include/hashtable.h:660-682 | one element moved: pushed onto its new chain, counted, and the multiplier and nonideal count kept exact |
| HashTable.Table.JudgeExpansion | include/hashtable.h:688-694 | an expansion is ineffective if more than half the items are nonideal; noexpand is set when this one and the one before are both ineffective |
| HashTable.Table.AddToBkt | include/hashtable.h:595-606 | HASH_ADD_TO_BKT keeps chains, counts and policy; it doubles the buckets exactly when the new count reaches 10*(expand_mult+1) and noexpand is not set, with an ideal length between 1 and 10 and bounded chains even when that expansion sets noexpand |
| HashTable.Table.InItsBucket | include/hashtable.h:190-193 | in a consistent table an element stands in chain i if and only if i is its hash value modulo the number of buckets |
| HashTable.Table.ChainsBounded | include/hashtable.h:854-896 | until noexpand every chain is at most 10*(expand_mult+1) long; noexpand is set exactly after two consecutive ineffective expansions |
| HashTable.Table.DelInBkt | include/hashtable.h:608-619 | HASH_DEL_IN_BKT takes out just that element, lowers its bucket's count by one and no other counter, and keeps chains and policy |
| HashTable.Table.FindInBkt | include/hashtable.h:580-592 | HASH_FIND_IN_BKT returns an element with the key, or null when no element of that chain has it |
| MergeOrder.MergeOrdered | include/hashtable.h:727-748 | merging two runs in order, the left one winning ties, gives one run in order |
| MergeOrder.PassRuns | include/hashtable.h:713-767 | a pass turns stably sorted runs of length w into stably sorted runs of length 2w |
| MergeOrder.OneRun | include/hashtable.h:768-774 | when one run covers the list, the list is a stable sort of the original |
| MergeOrder.StableUnique | include/hashtable.h:699-703 | there is only one stable sort, so the result is determined by list and comparison |
| HashSort.MergeOne | include/hashtable.h:727-762 | one turn of the innermost loop takes the right element and relinks it behind the finished part |
| HashSort.MergePair | include/hashtable.h:716-764 | the next two runs are split off and merged in place |
| HashSort.OnePass | include/hashtable.h:709-767 | one pass relinks the whole list, doubly linked and null-terminated |
| HashSort.Sort | include/hashtable.h:703-780 | HASH_SRT terminates and leaves a sorted, stable permutation, doubly linked, with the right head and tail, for any total preorder, after at most n calls of the comparison function in each of at most ceil(lg n) passes (one pass if n is 1) |
| BloomFilter.Bloom.Add | include/hashtable.h:127-128 | HASH_BLOOM_ADD sets the bit numbered by the hash value modulo 2^nbits, and only that |
| BloomFilter.Bloom.Test | include/hashtable.h:130-131 | HASH_BLOOM_TEST is true exactly when some hash value added is equal modulo 2^nbits, so never false for an added one |
| HashMap.UtHash.Find | include/hashtable.h:94-105 | HASH_FIND is lookup in the map from keys to elements; the Bloom filter never hides one |
| HashMap.UtHash.Located | include/hashtable.h:165-188 | every element of the hash stands in the one chain numbered by the hash of its key modulo the number of buckets, and its hash value is in the Bloom filter |
| HashMap.UtHash.Add | include/hashtable.h:165-188 | HASH_ADD_KEYPTR of a fresh element with a fresh key appends it in insertion order, adds it to the map and keeps everything HASH_FSCK checks; the Bloom filter is the old one or new |
| HashMap.UtHash.Delete | include/hashtable.h:207-240 | HASH_DELETE removes exactly that element from order and map, frees the table with the last one, and keeps everything HASH_FSCK checks |
| HashMap.UtHash.Srt | include/hashtable.h:703-780 | HASH_SRT sorts the insertion order stably and leaves map, chains and counts alone, within the same bound on calls |
| HashMap.UtHash.Count | include/hashtable.h:847-848 | HASH_COUNT is the size of the map and of both lists |
| HashMap.UtHash.ExtendApp | include/hashtable.h:176-178 | appending behind tail keeps the insertion-order list doubly linked and its tail last |
| HashMap.UtHash.RelinkApp | include/hashtable.h:218-234 | the patch-up of a deletion relinks the neighbours and corrects head and tail |
| RingQueue.DecodeEncode | ebot.c:160-163 | a length written to a frame's header is read back |
| RingQueue.UsedIs | ebot.c:327-331 | the queued strings take their own bytes and four more each |
| RingQueue.WriteKeeps | ebot.c:315-383 | storing a frame behind the queued ones changes none of their bytes, header spill included |
| RingQueue.RingQ.constructor | ebot.c:213-243 | ringq_new gives an empty queue that can hold as many bytes as asked for |
| RingQueue.RingQ.Empty | ebot.c:180-182 | head meets tail exactly when nothing is queued |
| RingQueue.RingQ.Full | ebot.c:184-186 | ringq_full holds exactly when every byte of the capacity is taken |
| RingQueue.RingQ.Push | ebot.c:315-383 | a push succeeds if and only if the queued strings and the new one, with four bytes more for each, fit the capacity, wherever head lies; then the string is appended, else nothing changes; all accesses stay in bounds |
| RingQueue.RingQ.PushSplit | ebot.c:347-353 | data going around the end of the ring are stored in two pieces |
| RingQueue.RingQ.PushSpilled | ebot.c:354-361 | a header at or across the end of the ring uses the spare bytes behind it |
| RingQueue.RingQ.Pop | ebot.c:254-313 | a pop hands out exactly the oldest string and removes it, through all wrap cases; the fatal exits are unreachable; an empty queue is refused |
| RingQueue.RingQ.PopSplit | ebot.c:284-289 | data lying around the end of the ring are put together again |
| Handoff.FitsIsPush | ebot.c:1275 | a ring of equal packets takes one more exactly when ringq_push does |
| Handoff.ReadStep | ebot.c:1245-1284 | an idle reactor's packet goes to the end of the ring of unit fd % num and of the log if (packets + 1) * 140 bytes fit the ring, and the reactor then owes that unit a signal; otherwise nothing changes; nothing else does in either case |
| Handoff.SignalStep | ebot.c:1279-1283 | the signal adds one to the eventfd of the unit it is owed to, and changes nothing else |
| Handoff.LeaveStep | ebot.c:1339-1341 | a reactor leaves its loop only between callbacks and after its status was cleared |
| Handoff.WorkStep | ebot.c:1461-1491 | a worker moves the oldest packet of its own ring to its hands and then to the handled ones, waits only after finding the ring empty, is blocked only by a zero eventfd, and touches nothing else |
| Handoff.StopChanges | ebot.c:617-646 | wpool_stop clears each status and adds 15 to each eventfd, changes nothing else of the units, and waits only for what it joins |
| Handoff.PartsOfLog | ebot.c:1245-1248 | a unit's and a descriptor's share of the log gain a packet exactly when fd % num or fd selects them |
| Handoff.InvStep | ebot.c:586-646 | every step of reactors, workers and the shutdown keeps the invariant |
| Handoff.NoLostWakeup | ebot.c:1461-1491 | in every run a worker about to wait on a non-empty ring finds the counter positive or a reactor still owes it a signal |
| Handoff.BlockedMeansDone | ebot.c:1461-1491 | a blocked worker that is owed no signal has handled every packet accepted for its unit |
| Handoff.Conservation | ebot.c:1461-1491 | handled, in flight and queued packets are at all times the accepted ones, in order |
| Handoff.PerConnectionOrder | ebot.c:1245-1284 | the packets handled for a descriptor are a prefix of those accepted for it, all at the unit fd % num |
| Handoff.DrainedMeansDone | ebot.c:1461-1491 | while a unit's status is set and it accepts nothing, after at most 3k + 1 steps of its worker, k packets being queued, all it accepted has been handled, in every interleaving |
| Handoff.DrainEnabled | ebot.c:1461-1491 | until then the worker can step, unless a reactor still owes it a signal |
| PacketRing.UnpackPack | ebot.c:1155-1159 | a packet is read back from the bytes of its structure |
| PacketRing.UnitRing.Push | ebot.c:1275 | ringq_push of the packet's bytes appends the packet if (packets + 1) * 140 bytes fit and else changes nothing, as the reactor's step does |
| PacketRing.UnitRing.Pop | ebot.c:1466 | ringq_pop takes the oldest packet off the ring, as the worker's step does, and fails exactly on an empty ring, where the step goes to wait |
| Handoff.NeverStranded | ebot.c:617-646 | once the status is cleared and the eventfd written, the worker is never blocked |
| Handoff.ExitsSoon | ebot.c:586-602 | with its status cleared a worker exits after at most three of its own steps, in every interleaving |
| Handoff.StopProgress | ebot.c:1665-1678 | the shutdown can always go on, or waits for a reactor or a worker that can |
| Handoff.StopEnds | ebot.c:1665-1678 | the shutdown ends: it takes one step to begin, one for each reactor and at most five for each unit |
| Handoff.StoppedMeansExited | ebot.c:617-646 | when wpool_stop returns every worker has left, having handled a prefix of its packets; the rest is what its ring holds |
| Handoff.SurelyHandledIff | ebot.c:1665-1678 | every shutdown from a reached state handles all packets accepted for a unit if and only if no reactor can push any more and the unit's ring is empty or holds one packet that its worker is about to pop |
| Handoff.Spoils | ebot.c:1357-1368 | from any other reached state some shutdown, joins of the reactors included, leaves a packet behind |
| Handoff.StaysSafe | ebot.c:586-602 | once no reactor can push, a unit that is safe stays so, whatever step comes |
| Handoff.LeftBehind | ebot.c:1665-1678 | a run of eleven steps in which a packet is pushed and signalled, the reactor is joined, and the packet stays in the ring |
| MemPool.RotatedLinked | ebot.c:742-750 | moving the first slab behind the last keeps the list doubly linked |
| MemPool.FrontedLinked | ebot.c:776-786 | moving a slab to the front keeps the list doubly linked |
| MemPool.MPool.constructor | ebot.c:685-732 | mpool_new links all slabs, all free |
| MemPool.MPool.Get | ebot.c:734-754 | with two slabs or more, mpool_get hands out a slab nobody holds and fails exactly when all are out |
| MemPool.MPool.Put | ebot.c:763-787 | mpool_put takes a held slab back; a second put changes nothing |
| MemPool.MPool.UsedCount | ebot.c:679-681 | slab_used is the number of slabs out and slab_num that of all |
| TailQueue.SplicedSpells | sys/queue.h:317-373 | the link changes of an insertion, removal or replacement put the new sequence in place, back links being addresses of forward links |
| TailQueue.TailQ.constructor | sys/queue.h:317-320 | TAILQ_INIT gives the empty queue |
| TailQueue.TailQ.InsertHead | sys/queue.h:322-330 | TAILQ_INSERT_HEAD prepends |
| TailQueue.TailQ.InsertTail | sys/queue.h:332-337 | TAILQ_INSERT_TAIL appends |
| TailQueue.TailQ.InsertAfter | sys/queue.h:339-347 | TAILQ_INSERT_AFTER inserts right behind the given element |
| TailQueue.TailQ.InsertBefore | sys/queue.h:349-354 | TAILQ_INSERT_BEFORE inserts right before it, without knowing the head |
| TailQueue.TailQ.Remove | sys/queue.h:356-363 | TAILQ_REMOVE removes exactly that element |
| TailQueue.TailQ.Replace | sys/queue.h:365-373 | TAILQ_REPLACE puts the other element in its place |
| TailQueue.TailQ.Last | sys/queue.h:296-297 | TAILQ_LAST, reading an entry as a head, gives the last element or null |
| TailQueue.TailQ.Prev | sys/queue.h:299-300 | TAILQ_PREV gives the element before, or null for the first |
| TailQueue.TailQ.Foreach | sys/queue.h:304-307 | TAILQ_FOREACH visits the sequence in order |
| EventLoop.Ebot.constructor | ebot.c:894-951 | ebot_new starts with empty tables, nothing registered and an empty ready queue |
| EventLoop.Ebot.AddEvent | ebot.c:953-1003 | ebot_add_event keeps the kernel's interest equal to the tables however epoll_ctl fails; ADD or MOD always fits; on success an empty slot of its kind takes the event and a taken one stays; the slot of the other kind and every other descriptor stay as they are; the exact registration, edge flag included |
| EventLoop.Ebot.DelEvent | ebot.c:1005-1047 | ebot_del_event likewise with MOD or DEL: on success the slot of its kind is null, even when another event waited there; the slot of the other kind and every other descriptor stay as they are, and the descriptor stays registered exactly for an event of the other kind |
| EventLoop.EachOnce | ebot.c:1049-1056 | after any reports the ready queue has no duplicates and holds just what it held and what was reported |
| EventLoop.ReportOrder | ebot.c:1073-1105 | the queue is in the order of first reports: of two newly queued events, some prefix of the reports holds the earlier and not the later |
| EventLoop.Ebot.Queue | ebot.c:1049-1056 | queued_event_readies appends an event that is not queued, and keeps queued == 1 exactly for queued events |
| EventLoop.Ebot.Dispatch | ebot.c:1058-1071 | dispatch_events calls just the queued events that have a callback, in queue order, and ends with an empty queue |
| EventLoop.Ebot.Loop | ebot.c:1073-1105 | ebot_loop calls just the events with a callback that were queued, wait for reading where input is reported or for writing where output is, each once; first those queued before, then by first report, and the reader before the writer of one report |
| EventLoop.CalledAnswer | ebot.c:1087-1104 | queueing what the reports lead to and calling the callable gives that answer, for any queue, tables and reports |
| EventLoop.CallableIs | ebot.c:1062-1070 | the callable events of a queue are those with a callback, in queue order |
| Scenarios.AddFindDelete | include/hashtable.h:165-240 | two elements added, one deleted: lookups and count see exactly that |
| Scenarios.InsertTwice | sys/tree.h:578-606 | inserting an element of the tree again returns it, in both kinds of tree |
| Scenarios.RemoveByKey | sys/tree.h:181-200 | SPLAY_REMOVE of a lookup key takes the tree's element out and returns the key |
| Scenarios.NextAgain | sys/tree.h:132-144 | n ascending insertions and m calls of SPLAY_NEXT for the first element: at most 2n splay turns, but at least m (n-3)/2 links walked |
| Scenarios.NextUnpaid | sys/tree.h:40-43 | such a run on 1023 elements whose walks exceed the bound that the splay loops keep |
| Scenarios.SecondReader | ebot.c:953-1003 | a second read event on a descriptor is not installed, though the return value is 0 |
| Scenarios.DeleteOther | ebot.c:1005-1047 | deleting an event that is not installed clears the slot of the one that is |
| Scenarios.BothWays | ebot.c:953-1047 | a read event added beside a write event leaves both registered; deleting one leaves the other, deleting both leaves nothing |
| Scenarios.Called | ebot.c:1073-1105 | input runs the reader's callback, input and output the reader's and then the writer's |
| Scenarios.EdgeDropped | ebot.c:953-1003 | a write event added beside a read event ends its edge triggering |

## Left out

- Sockets, accept, pipes, fcntl, signals, logging and the dump functions: calls into code without logic of its own.
- epoll is the interest list in `Ebot.kernel` with an `epoll_ctl` that refuses impossible operations and may fail at will; what `epoll_wait` returns is a parameter.
- eventfd is a counter that a read resets and that blocks the reader at zero; writes to it are taken to succeed and not to overflow. Mutexes are atomic steps.
- 32-bit wrap-around of the hash table's counters, allocation failure, and duplicate keys, which uthash leaves to its callers to avoid. Ring sizes are below 2^31, so a frame's length fits its header.
- RingQueue.RingQ.Push: does not model item sizes within 4 of `INT_MAX`, for which `lsz + item_size` (ebot.c:331) overflows a C `int` and is undefined; a ring below 2^31 bytes could not hold such an item.
- `ringq_pop` with a size other than that of the oldest string, `mpool_get` on fewer than two slabs (with one slab it follows a null link), and `TAILQ` operations on elements that are not queued, or already are: preconditions, as in the source.
- The lock variants of `ringq` and `mpool`, which add a mutex and a test of `use_lock`.
- `_resize_epoll_events`: the table lookup comes before it, so descriptors are below `wait_sz` here.
- Events of both kinds at once, which the two constructors of `struct event` never make.
- Callbacks: `Dispatch` lists the events whose callbacks it calls; the callbacks are taken not to touch the ready queue. In `Handoff` a callback is one step that ends.
- The contents of the packets, and that a read of 0 bytes also reports a closed connection.
- The per-element `tbl` pointer of the hash handle is the one field `UtHash.tbl`, and an element is its own handle; freed tables are dropped.
- The hash functions: `UtHash.hash` is any function of the key.
- `HASH_SELECT` (it keeps neither `tail` nor the Bloom bits), `HASH_CLEAR`, `HASH_ITER` and key emission.
- `RB_AUGMENT`, empty by default, with the loop in `RB_REMOVE` that only serves it.
- Running times other than the loop turns of the tree operations and the comparisons of HASH_SRT.
- SLIST, LIST, SIMPLEQ and CIRCLEQ, the vector macros, `sys/_time.h`, the PHP clients and the examples.
