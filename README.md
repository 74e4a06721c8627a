# Page-replacement policies

This project models the replacement-policy engine of a paging simulator and proves properties of the model. The engine is in `src/algorithms.py`. Each policy replays a trace of page references. Every reference names an integer page and says whether it is a write. At the end the policy reports three counters:

- page faults;
- interrupts, one for every fault;
- disk writes, one every time a dirty page is evicted.

There are four policies, sharing one base class:

- **FIFO** evicts the page at the head of an admission queue.
- **Optimal** evicts a resident page that is never used again, or else the one whose next use lies farthest ahead. It finds the victim by scanning the rest of the trace.
- **ReferenceBits** keeps an 8-bit aging byte per resident page. A reference sets bit 7 of the page's byte. Before the access at 0-based position `i`, whenever `i > 0` and `i % 100 == 0` (that is, before the 101st, 201st, … access), every resident byte is shifted right. The victim is the first resident page with the smallest byte.
- **ARC** is a simplified adaptive replacement cache. It keeps two resident lists (`T1`, `T2`), two ghost lists (`B1`, `B2`) and an adaptation value `p`.

## Layout

The project has one module per source class:

- `paging.dfy` (module `Paging`) holds:
  - the vocabulary: accesses, counters, Python's `list.remove`, and the resident-set bookkeeping shared by FIFO, Optimal and ReferenceBits;
  - the base class `PageReplacementAlgorithm`, with its frame count, counters and `Reset`.
- `fifo.dfy`, `optimal.dfy`, `reference_bits.dfy` and `arc.dfy` model one policy each.

Every policy module has the same shape:

- a pure specification: `Step` (one access) and `Replay` (the state after the first `n` accesses of a trace);
- lemmas that state the policy's properties about `Replay`;
- a class, written imperatively, that holds the base object as `base`, as the source's subclass holds its inherited fields.

Each class's `Run` method follows the source's loop statement by statement. Its loop invariant ties the loop's locals and `base`'s counters to `Replay`. The body of each loop sits in a helper method (`Serve`, `Visit`, `ServeHit`, …). Each helper is proved to perform one `Step`.

Some behaviour of the code is easy to miss, and the model keeps it:

- **Optimal's lookahead.** Optimal keeps no table of future positions. At each eviction it scans the rest of the trace, from the next position on, for each resident page in turn, and stops at the first page that is never used again (`src/algorithms.py:125-153`). The model scans the same way.
- **ARC's list management.** Nothing bounds ARC's lists:
  - Nothing removes a ghost entry from `B1` or `B2` except a ghost hit on that very page (`Arc.GhostListsGrow`).
  - The eviction `replace` can do nothing, while a miss appends to `T1` regardless (`src/algorithms.py:233-235`, `278-285`).
  - So `|T1|+|T2|` can exceed the frame count: `Arc.OverCapacity` shows a trace that ends with three resident pages in two frames.
- **FIFO on 1, 2, 3, 1.** With two frames, FIFO faults four times on pages 1, 2, 3, 1, because the fault on page 3 evicts page 1 (`Fifo.TwoFramesFourFaults`).
- **Zero frames.** The constructor does not check the frame count (`src/algorithms.py:11-22`). With 0 frames, FIFO, Optimal and ReferenceBits fail at their first eviction, on an empty list. The model's `Run` of those three requires `frames >= 1`. ARC runs with 0 frames without failing, so its `Run` has no such precondition.

## Model

| member | source | states |
|---|---|---|
| Paging.PageReplacementAlgorithm.constructor | src/algorithms.py:11-22 | a new policy has the given frame count and all three counters at zero |
| Paging.PageReplacementAlgorithm.Reset | src/algorithms.py:35-40 | afterwards all three counters are zero |
| Paging.Remove | src/algorithms.py:70 | `list.remove` of a present element yields a list one shorter |
| Paging.RemoveAt | src/algorithms.py:70 | `list.remove` drops exactly the first occurrence: the list before it followed by the list after it |
| Paging.RemoveUnique | src/algorithms.py:70 | on a duplicate-free list, removing `x` leaves a duplicate-free list with exactly the other elements |
| Paging.Hit | src/algorithms.py:78-81 | definition: a hit changes only the dirty flag, and only on a write |
| Paging.Fill | src/algorithms.py:58-61 | definition: admit the page at the tail, record its write flag, count a fault |
| Paging.Swap | src/algorithms.py:62-77 | definition: drop the victim and its flag, admit the page at the tail, count a fault and a write when the victim is dirty |
| Paging.Evicts | src/algorithms.py:58-62 | definition: the access faults with every frame in use |
| Paging.HitFacts | src/algorithms.py:78-81 | a hit keeps the resident list, keeps the shared invariant (no duplicates, at most `frames` pages, dirty keys = resident pages, interrupts = faults >= writes), changes no counter and or-s the write flag into the page's dirty flag |
| Paging.FillFacts | src/algorithms.py:58-61 | a fault with a free frame admits the page, keeps the shared invariant, counts one fault, adds no write and sets the dirty flag to the write flag |
| Paging.SwapFacts | src/algorithms.py:62-77 | a fault with full memory keeps the size, replaces the victim by the page, keeps the shared invariant, counts one fault, and adds one write exactly when the victim's dirty flag is set |
| Fifo.Step | src/algorithms.py:52-81 | one access keeps the invariant (the shared one, plus queue = memory in order) and counts a fault exactly when the page is not resident, with no counter change on a hit |
| Fifo.Replay | src/algorithms.py:46-81 | the invariant holds after every prefix of every trace |
| Fifo.FaultsAreMisses | src/algorithms.py:53-56 | the fault counter equals the number of accesses that found their page not resident |
| Fifo.AdmittedBound | src/algorithms.py:52-56 | at most one admission per access |
| Fifo.WriteBacks | src/algorithms.py:62-68 | an access adds one write exactly when it faults with every frame in use and the queue's head is dirty, and none otherwise |
| Fifo.MemoryIsLatestAdmissions | src/algorithms.py:58-72 | memory holds exactly the last `min(frames, admissions)` admitted pages, oldest first, so `queue[0]` is the earliest admitted page still resident |
| Fifo.QueueIsLatest | src/algorithms.py:58-72 | the queue is the last `min(frames, admissions)` admissions |
| Fifo.QueueDiscipline | src/algorithms.py:64-72 | a hit leaves the queue unchanged; a fault with full memory drops the head and appends the page; a fault with a free frame appends the page |
| Fifo.DirtyFlags | src/algorithms.py:74-81 | the served page's flag is the write flag on admission and is or-ed with it on a hit; every other resident page was resident before and keeps its flag |
| Fifo.OneFrameWriteBack | src/algorithms.py:62-77 | with one frame, a write to 1 and then a read of 2 gives 2 faults, 2 interrupts and 1 write |
| Fifo.TwoFramesFourFaults | src/algorithms.py:52-77 | with two frames, reading 1, 2, 3, 1 gives 4 faults, 4 interrupts and no write |
| Fifo.Fifo.constructor | src/algorithms.py:11-22 | a new FIFO policy has the given frames and zero counters |
| Fifo.Fifo.Run | src/algorithms.py:46-85 | returns the counters, which equal those of `Replay` on the whole trace, whatever the object's earlier state |
| Fifo.Fifo.Serve | src/algorithms.py:53-81 | the loop body performs exactly one `Step` on the locals and counters |
| Fifo.RunTwice | src/algorithms.py:46-47 | two runs of the same trace on one object return equal triples, with interrupts = faults, writes <= faults and faults <= trace length |
| Optimal.NextUse | src/algorithms.py:140-147 | the result is the first position at or after `from` that accesses the page, or none if there is none |
| Optimal.Unused | src/algorithms.py:139-151 | definition: the page is not accessed after the current position |
| Optimal.Scan | src/algorithms.py:134-153 | definition: the outer loop of `_find_victim` from the `k`-th resident page on, as a recursion |
| Optimal.Victim | src/algorithms.py:125-153 | definition: `_find_victim` on the whole memory, starting from `max_dist = -1` and `memory[0]` |
| Optimal.VictimChoice | src/algorithms.py:125-153 | the victim is resident; if some resident page is never used again, the victim is the first such page in memory order; otherwise every resident page's next use is no later than the victim's |
| Optimal.ScanMember | src/algorithms.py:135-153 | the scan returns a member of memory |
| Optimal.ScanUnused | src/algorithms.py:149-151 | when a page of the remaining memory is never used again, the scan stops at the first such page |
| Optimal.ScanFarthest | src/algorithms.py:137-147 | when every page is used again, the scan ends with a page whose next use is the farthest |
| Optimal.FindVictim | src/algorithms.py:125-153 | the two nested loops compute the scan's victim: resident, the first never-used-again page, or else the farthest next use |
| Optimal.Step | src/algorithms.py:96-119 | one access keeps the shared invariant and counts a fault exactly when the page is not resident, with no counter change on a hit |
| Optimal.Replay | src/algorithms.py:91-119 | the shared invariant holds after every prefix of every trace |
| Optimal.FaultsAreMisses | src/algorithms.py:97-99 | the fault counter equals the number of accesses that found their page not resident |
| Optimal.AdmittedBound | src/algorithms.py:96-99 | at most one admission per access |
| Optimal.EvictsVictim | src/algorithms.py:101-111 | a hit keeps memory; a fault with a free frame appends the page; a fault with full memory keeps the size and replaces exactly `_find_victim`'s page by the new page: memory before the victim, then memory after it, then the new page |
| Optimal.WrittenBy | src/algorithms.py:105-108 | definition: `_find_victim`'s page when the access evicts it dirty, otherwise nothing |
| Optimal.WrittenBack | src/algorithms.py:96-116 | definition: the pages written back by the first `n` accesses, in trace order |
| Optimal.WriteBacks | src/algorithms.py:101-108 | an access adds one write exactly when it faults with every frame in use and `_find_victim`'s page is dirty, and none otherwise |
| Optimal.WritesAreDirtyEvictions | src/algorithms.py:107-108 | the write counter equals the number of dirty evictions so far |
| Optimal.DirtyFlags | src/algorithms.py:107-119 | the served page's flag is the write flag on admission and is or-ed with it on a hit; every other resident page keeps its flag |
| Optimal.TwoFramesThreeFaults | src/algorithms.py:96-119 | with two frames, reading 1, 2, 3, 1 leaves memory `[1, 3]` after the third access (page 2 evicted) and gives 3 faults |
| Optimal.Optimal.constructor | src/algorithms.py:11-22 | a new Optimal policy has the given frames and zero counters |
| Optimal.Optimal.Run | src/algorithms.py:91-123 | returns the counters, which equal those of `Replay` on the whole trace |
| Optimal.Optimal.Serve | src/algorithms.py:97-119 | the loop body performs exactly one `Step` on the locals and counters |
| Optimal.RunTwice | src/algorithms.py:91-92 | two runs of the same trace on one object return equal triples, with interrupts = faults, writes <= faults and faults <= trace length |
| ReferenceBits.SetReferenceBit | src/algorithms.py:196 | or-ing a byte with 128 sets bit 7 and keeps every other bit |
| ReferenceBits.ShiftRight | src/algorithms.py:169 | `b >> 1` maps a byte into 0..127 |
| ReferenceBits.Age | src/algorithms.py:167-169 | aging keeps the set of pages that have a byte |
| ReferenceBits.MinFrom | src/algorithms.py:180 | the position found holds a smallest byte of the range, and every earlier position in the range holds a strictly larger one |
| ReferenceBits.FirstMin | src/algorithms.py:180 | `min(memory, key=bits)` is a position of memory |
| ReferenceBits.Aged | src/algorithms.py:166-169 | the bytes an access sees have the same pages and stay within 0..255 |
| ReferenceBits.AgingPoint | src/algorithms.py:167 | definition: aging is due before position `i` when `i > 0` and `i % 100 == 0` |
| ReferenceBits.Step | src/algorithms.py:165-198 | definition: one access, on the bytes after any aging |
| ReferenceBits.Victim | src/algorithms.py:180 | definition: the first resident page whose aged byte is smallest |
| ReferenceBits.StepFacts | src/algorithms.py:165-198 | one access keeps the invariant: the shared one, bytes for exactly the resident pages, every byte in 0..255 |
| ReferenceBits.HitValid | src/algorithms.py:194-198 | a hit keeps the invariant |
| ReferenceBits.FillValid | src/algorithms.py:175-177 | an admission into a free frame keeps the invariant |
| ReferenceBits.SwapValid | src/algorithms.py:178-191 | an eviction and admission keeps the invariant |
| ReferenceBits.StepCounts | src/algorithms.py:171-173 | an access counts a fault exactly when its page is not resident, and a hit changes no counter |
| ReferenceBits.Replay | src/algorithms.py:159-198 | the invariant holds after every prefix of every trace |
| ReferenceBits.FaultsAreMisses | src/algorithms.py:171-173 | the fault counter equals the number of accesses that found their page not resident |
| ReferenceBits.AdmittedBound | src/algorithms.py:171-173 | at most one admission per access |
| ReferenceBits.DirtyFlags | src/algorithms.py:182-198 | the served page's flag is the write flag on admission and is or-ed with it on a hit; every other resident page keeps its flag |
| ReferenceBits.StepBytes | src/algorithms.py:165-198 | an admitted page gets exactly 128; a hit page's byte is in 128..255 and keeps the low bits of its aged byte; every other resident page was resident before, and its byte was shifted right once when aging was due and is otherwise unchanged |
| ReferenceBits.ReferenceBytes | src/algorithms.py:166-196 | `StepBytes` along the trace: aging shifts exactly the resident bytes, once, before access `i` when `i > 0` and `i % 100 == 0` |
| ReferenceBits.EvictsFirstMinimum | src/algorithms.py:175-191 | a hit keeps memory; a fault with a free frame appends the page; a fault with full memory replaces the first page in memory order whose aged byte is minimal |
| ReferenceBits.EvictionOrder | src/algorithms.py:191 | on an eviction the new memory is the pages before the victim, then the pages after it, then the new page |
| ReferenceBits.WrittenBy | src/algorithms.py:180-183 | definition: the victim when the access evicts it dirty, otherwise nothing |
| ReferenceBits.WrittenBack | src/algorithms.py:165-193 | definition: the pages written back by the first `n` accesses, in trace order |
| ReferenceBits.WriteBacks | src/algorithms.py:175-183 | an access adds one write exactly when it faults with every frame in use and the victim is dirty, and none otherwise |
| ReferenceBits.WritesAreDirtyEvictions | src/algorithms.py:182-183 | the write counter equals the number of dirty evictions so far |
| ReferenceBits.OneFrameWriteBack | src/algorithms.py:175-193 | with one frame, a write to 1 and then a read of 2 gives 2 faults, 2 interrupts and 1 write |
| ReferenceBits.AgeResident | src/algorithms.py:167-169 | the aging loop over memory computes `Age` |
| ReferenceBits.AgeSnoc | src/algorithms.py:168-169 | aging one more page changes that page's byte only |
| ReferenceBits.ReferenceBits.constructor | src/algorithms.py:11-22 | a new ReferenceBits policy has the given frames and zero counters |
| ReferenceBits.ReferenceBits.Run | src/algorithms.py:159-202 | returns the counters, which equal those of `Replay` on the whole trace |
| ReferenceBits.ReferenceBits.Visit | src/algorithms.py:165-198 | the loop body (the aging pass when due, then the access) performs exactly one `Step` |
| ReferenceBits.ReferenceBits.Serve | src/algorithms.py:171-198 | the access itself, on the aged bytes, performs exactly one `Step` |
| ReferenceBits.RunTwice | src/algorithms.py:159-160 | two runs of the same trace on one object return equal triples, with interrupts = faults, writes <= faults and faults <= trace length |
| Arc.Replace | src/algorithms.py:219-235 | definition: the nested `replace` |
| Arc.Mark | src/algorithms.py:246-247 | definition: a write sets the page's dirty entry to `True` |
| Arc.Grow | src/algorithms.py:252 | definition: the update of `p` on a `B1` hit |
| Arc.Shrink | src/algorithms.py:264 | definition: the update of `p` on a `B2` hit |
| Arc.OnHit | src/algorithms.py:239-248 | definition: a hit in `T1` or `T2` |
| Arc.OnGhostHit | src/algorithms.py:251-272 | definition: a hit in `B1` or `B2` |
| Arc.OnMiss | src/algorithms.py:274-288 | definition: a page in no list |
| Arc.Step | src/algorithms.py:237-288 | definition: one access of the loop |
| Arc.Replay | src/algorithms.py:208-288 | definition: the state after the first `n` accesses, from empty lists, `p = 0` and zeroed counters |
| Arc.PopFacts | src/algorithms.py:222 | `pop(0)` of a duplicate-free list loses exactly its head |
| Arc.ReplaceFacts | src/algorithms.py:219-235 | `replace` keeps the lists duplicate-free and disjoint and the dirty map over resident pages with `True` values; it keeps the page non-resident, `p` and the faults, adds at most one write and moves the page into no list |
| Arc.ReplaceChoice | src/algorithms.py:219-235 | `replace` does nothing exactly when `T1` cannot give up its head and `T2` is empty; otherwise the head of `T1` (when non-empty and longer than `p`, or exactly `p` long on a `B2` ghost hit) or else of `T2` leaves the resident lists, joins the tail of `B1` or `B2`, is removed from the dirty map (no other entry changes) and costs a write exactly when it had an entry; the rest of `T1` and `T2` stays as it was (`T1` loses only its head, or `T2` does), and `p` and the fault count are unchanged |
| Arc.ReplaceGrowsGhosts | src/algorithms.py:219-235 | `replace` never removes a ghost entry |
| Arc.T1HitFacts | src/algorithms.py:240-242 | a `T1` hit keeps the lists and the dirty map consistent |
| Arc.T2HitFacts | src/algorithms.py:243-245 | a `T2` hit keeps the lists and the dirty map consistent |
| Arc.GhostHitFacts | src/algorithms.py:251-272 | a ghost hit keeps the invariant |
| Arc.StepFacts | src/algorithms.py:237-288 | every access keeps the invariant: four duplicate-free, pairwise disjoint lists; dirty keys within `T1`∪`T2`, all `True`; `0 <= p <= frames`; interrupts = faults >= writes |
| Arc.Invariant | src/algorithms.py:208-288 | the invariant holds after every prefix of every trace, from empty lists and `p = 0` |
| Arc.StepCounts | src/algorithms.py:239-276 | a hit changes no counter; a ghost hit or a miss counts exactly one fault |
| Arc.FaultsAreMisses | src/algorithms.py:258-276 | the fault counter equals the number of accesses whose page was in neither `T1` nor `T2` |
| Arc.MissedBound | src/algorithms.py:237-276 | at most one miss per access, so faults never exceed the trace length |
| Arc.HitMoves | src/algorithms.py:239-248 | a `T1` hit moves the page to the tail of `T2`; a `T2` hit moves it to the tail of `T2`; neither changes the ghost lists, `p` or the counters |
| Arc.GhostHit | src/algorithms.py:251-272 | a ghost hit ends with the page at the tail of `T2` and in neither ghost list; a `B1` hit never lowers `p`, a `B2` hit never raises it, and `p` stays within 0..frames |
| Arc.MissMoves | src/algorithms.py:274-288 | a page in no list ends at the tail of `T1` with `p` unchanged; when `T1` and `T2` hold exactly `frames` pages the lists are those `replace` leaves, with the page appended to `T1`, and otherwise `T1` only gains the page and `T2`, `B1`, `B2` are untouched |
| Arc.GhostListsGrow | src/algorithms.py:250-272 | the ghost lists are never trimmed: the only entry either can lose is the page being served |
| Arc.DirtyFlags | src/algorithms.py:246-288 | a write leaves the page with a `True` entry; a read neither adds nor removes its entry; no other page gains one, and every other page that stays resident keeps its entry |
| Arc.OneFrameWriteBack | src/algorithms.py:274-288 | with one frame, a write to 1 and then a read of 2 gives 2 faults, 2 interrupts and 1 write |
| Arc.ReadsFirstSteps | src/algorithms.py:237-288 | the first four accesses of 1, 2, 3, 1, 2, 4, 5 with two frames, state by state |
| Arc.ReadsLastSteps | src/algorithms.py:237-288 | the last three accesses of that trace, state by state, ending in the no-op `replace` |
| Arc.ReadsPrefix | src/algorithms.py:237-288 | after four accesses of that trace: `T1 = [3]`, `T2 = [1]`, `B1 = [2]`, `p = 1` |
| Arc.OverCapacity | src/algorithms.py:233-235 | with two frames, reading 1, 2, 3, 1, 2, 4, 5 ends with `T1 = [3, 4, 5]` and `T2` empty: more resident pages than frames |
| Arc.Arc.constructor | src/algorithms.py:11-22 | a new ARC policy has the given frames and zero counters; `p` starts at 0 (see Left out) |
| Arc.Arc.Evict | src/algorithms.py:219-235 | the nested `replace`, on the lists of `Run` and `base`'s write counter, performs exactly `Replace` |
| Arc.Arc.Run | src/algorithms.py:208-293 | returns the counters, which equal those of `Replay` on the whole trace, and leaves `p` equal to `Replay`'s `p` |
| Arc.Arc.ServeHit | src/algorithms.py:239-248 | the hit branch performs exactly `OnHit`, leaving `p` and the counters alone |
| Arc.Arc.ServeGhostHit | src/algorithms.py:251-272 | the `B1` and `B2` branches perform exactly `OnGhostHit`, including the update of `p` |
| Arc.Arc.ServeMiss | src/algorithms.py:274-288 | the miss branch performs exactly `OnMiss` |
| Arc.RunTwice | src/algorithms.py:208-209 | two runs of the same trace on one object return equal triples, with interrupts = faults, writes <= faults and faults <= trace length |

## Left out

- The `print` calls (for example `src/algorithms.py:18`, `37`, `82-84`) are console output and no part of the result.
- The base class's `run` stub, which raises `NotImplementedError` (`src/algorithms.py:24-33`), is not modelled. Each policy class has its own `Run` and holds the base object as a field instead of inheriting from it.
- `src/simulator.py`, `src/reference_generator.py` and `src/main.py` are not part of this model:
  - the experiment loop, plotting and float averages are orchestration and I/O;
  - trace generation is random and its traces are only inputs here.
- Python's exceptions are not modelled. With 0 frames, FIFO's `queue.pop(0)`, Optimal's `memory[0]` and ReferenceBits' `min` fail on an empty list. The `Run` methods of those three policies require `frames >= 1` instead.
- ARC bounds the code does not keep are not stated: `|T1|+|T2| <= frames` (broken, see `Arc.OverCapacity`) and any bound on `B1`/`B2` (never trimmed, see `Arc.GhostListsGrow`).
- That Optimal faults no more often than the other policies is not stated; only its victim choice is proved.
- Python lists and dicts are modelled as sequence and map values that each method reassigns. Aliasing between them is not modelled; the source creates every list fresh inside `run` and shares none.
- The nested `replace` closes over the lists of ARC's `run`. Its model `Arc.Arc.Evict` takes the lists as parameters and returns the new ones.
- Arc.Arc.constructor: the source creates the field `p` only inside `run` (`src/algorithms.py:217`). A Dafny field must be initialised at construction, so the constructor sets it to 0, the value `run` first gives it.
- Paging.Remove: its contract states only that the list gets one shorter. Which elements remain is stated by `Paging.RemoveUnique`, for the duplicate-free lists every policy keeps.
- ReferenceBits.AgeResident: it requires a duplicate-free `memory`, as every resident list is. On a list with duplicates the source would shift a page's byte more than once.
- Page numbers are unbounded integers, like Python's. Every reference byte stays within 0..255, so no fixed width is involved.
- Fifo.WriteBacks: FIFO's write counter is related to dirty evictions one access at a time, not summed over a whole trace as `Optimal.WritesAreDirtyEvictions` and `ReferenceBits.WritesAreDirtyEvictions` do for the other two policies. The per-access statement implies the sum by induction, but that proof is too costly for the verifier, given how large FIFO's replay state is.
