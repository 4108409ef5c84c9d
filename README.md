# Demand-paging replacement simulator, modelled in Dafny

This project models the replacement engine of a demand-paging simulator.

The engine is built with a reference string of virtual page ids, a number of physical frames (slots) and a number of virtual pages. `generate` replays the string under one of four policies:

- FIFO: evict the page loaded earliest.
- OPT: evict the page whose next use is furthest away.
- LFU: evict the page referenced least often.
- LRU: evict the page referenced least recently.

The engine fills a table with one row of slots per step. It also records, per step, whether the step faulted, which page it removed and which slot the referenced page ended up in. Each virtual page has a `Frame` record: its load step, next use, last use and reference count.

The model has two layers.

- **Values** (`Paging`): one step of the engine is a function, `Step`. It is the policy's bookkeeping on the referenced page (`Touch`), followed by the hit, free-slot or eviction branch (`Place`, `Victim`). The replay of the first `n` steps is `Run`. Underneath, `Run` is an instance of `ReplayBy`, a replay over any step function. The lemmas in `PagingFacts`, `Bookkeeping` and `Capacity` state what one step does and what every replay keeps.
- **The engine itself** (`Simulator.MemorySim`, `Frames.Frame`): a class with the source's fields.
  - The table is an `array2<int>`.
  - The step records are arrays.
  - The per-page records are an array of `Frame` objects, each updated in place through its setters.
  - Every method of the engine except `print` is a method here, with its loops. The four `Frame` getters only read a field, so they are functions.
  - The class keeps a ghost `meta` sequence coupled to the frames.
  - `Generate` is proved to leave the state that `Run` describes, written out. That means the table rows, the step records and the frames are all those of `Run`.
  - The scans (`FindOldest`, `FindLfu`, `FindLru`, `FindLeastOptimal`, `CalculateNextUses`, `FindIndex`) are proved against the spec functions. Lemmas then characterise those functions: first minimum, first maximum, next use and first index.

Files:

- `Frame.dfy`: module `Frames`.
- `Paging.dfy`: module `Paging`.
- `Facts.dfy`: module `PagingFacts`.
- `Bookkeeping.dfy`: module `Bookkeeping`.
- `Capacity.dfy`: module `Capacity`.
- `MemorySim.dfy`: module `Simulator`.

Code details the model keeps:

- **Eviction records the load only under FIFO.** A page loaded by eviction has its load step recorded only under FIFO (MemorySim.java:79). The free-slot branch records it for every policy (line 72). See `PagingFacts.StepEvict` and `Bookkeeping.RunInserted`.
- **An unknown policy name is detected late.** It is caught only at the first miss on a full row (lines 91-93). Until then the run behaves as if the policy were known. When the engine stops there, the results of the earlier steps stay. The later steps keep their reset values.
  - This is `Policy.Other`. `Place` and `Victim` return `None` for it, and `ReplayBy` stops.
  - `PagingFacts.ReplayStopped` and `Generate` state that the earlier results are kept.
  - `Capacity.FewPages` shows that such a run can complete: with enough frames for every distinct page, no victim is ever needed.
- **Zero physical frames fails with a known policy.** With one of the four policy names and a non-empty string, the first step misses and finds no free slot, so it reaches a selector. The selector reads slot 0 of an empty row, which is an out-of-bounds access (lines 110, 125, 141, 156). Two zero-frame cases do not fail:
  - an unknown name returns at step 0 through `default:` (lines 91-93) and leaves the reset state;
  - an empty string runs no step at all.
  `Generate` requires at least one frame, so it excludes these two cases as well.
- **Bookkeeping is per policy.** Last use is recorded only under LRU (line 54) and the reference count only under LFU (line 57). The count is never reset on eviction, only by `resetArrays` (lines 193-195). See `Bookkeeping.LfuCounts` and `Bookkeeping.LruLastUse`; `Bookkeeping.RunInserted` and `Bookkeeping.FifoInserted` state the load step.
- **OPT recomputes the next use of every virtual page**, not only of the resident ones (line 172).

## Model

| member | source | states |
|---|---|---|
| Frames.Frame.constructor | src/com/antonioramirez/Frame.java:18-24 | A new frame has load step, next use and last use at -1 and a reference count of 0. |
| Frames.Frame.SetInserted | src/com/antonioramirez/Frame.java:27-32 | `GetInserted` then returns the new value; the other three fields are unchanged. |
| Frames.Frame.SetNextUse | src/com/antonioramirez/Frame.java:33-38 | `GetNextUse` then returns the new value; the other three fields are unchanged. |
| Frames.Frame.SetLastUse | src/com/antonioramirez/Frame.java:39-44 | `GetLastUse` then returns the new value; the other three fields are unchanged. |
| Frames.Frame.GetInserted | src/com/antonioramirez/Frame.java:30-32 | Returns the frame's load step as its record value shows it. |
| Frames.Frame.GetNextUse | src/com/antonioramirez/Frame.java:36-38 | Returns the frame's next use as its record value shows it. |
| Frames.Frame.GetLastUse | src/com/antonioramirez/Frame.java:42-44 | Returns the frame's last use as its record value shows it. |
| Frames.Frame.GetTimesUsed | src/com/antonioramirez/Frame.java:48-50 | Returns the frame's reference count as its record value shows it. |
| Frames.Frame.IncrementTimesUsed | src/com/antonioramirez/Frame.java:45-50 | The reference count goes up by exactly one; nothing else changes. |
| Paging.PolicyOf | src/com/antonioramirez/MemorySim.java:76-93 | The policy is known exactly when the name is one of FIFO, OPT, LFU, LRU. |
| Paging.FirstIndex | src/com/antonioramirez/MemorySim.java:254-261 | The result is the smallest index holding the value, or -1 exactly when no index holds it. |
| Paging.FirstMinIndex | src/com/antonioramirez/MemorySim.java:109-152 | The strict-`<` scan of the selectors returns an index of the sequence. `FirstMinIndexIsFirstMin` proves it is the first minimum. |
| Paging.FirstMaxIndex | src/com/antonioramirez/MemorySim.java:154-169 | The strict-`>` scan of `findLeastOptimal` returns an index of the sequence. `FirstMaxIndexIsFirstMax` proves it is the first maximum. |
| Paging.FirstMinIndexIsFirstMin | src/com/antonioramirez/MemorySim.java:109-152 | The left-to-right scan with a strict `<` returns an index of a minimum, and no earlier index holds that minimum. |
| Paging.FirstMaxIndexIsFirstMax | src/com/antonioramirez/MemorySim.java:154-169 | The left-to-right scan with a strict `>` returns an index of a maximum, and no earlier index holds that maximum. |
| Paging.FirstMinUnique | src/com/antonioramirez/MemorySim.java:109-152 | The first minimum is unique, so the tie-break pins the selected slot down. |
| Paging.FirstMaxUnique | src/com/antonioramirez/MemorySim.java:154-169 | The first maximum is unique. |
| Paging.NextUse | src/com/antonioramirez/MemorySim.java:171-180 | The result is the first step at or after `n` that references the page, or the string length plus one when no such step exists. |
| Paging.NextUses | src/com/antonioramirez/MemorySim.java:171-180 | Every page's next use is recomputed from step `n`; all other fields of every record are kept. |
| Paging.Touch | src/com/antonioramirez/MemorySim.java:51-58 | Only the referenced page's record may change; the number of records is kept. |
| Paging.Step | src/com/antonioramirez/MemorySim.java:50-97 | One pass of the loop body stops exactly when an unknown policy meets a miss on a full row. Otherwise it keeps the row width and the number of pages. Its branches are stated in `StepHit`, `StepFreeSlot`, `StepEvict` and `StepVictim`. |
| Paging.Place | src/com/antonioramirez/MemorySim.java:59-97 | The placement fails only for an unknown policy; the row width and the number of records are kept. |
| Paging.Victim | src/com/antonioramirez/MemorySim.java:75-94 | A victim is chosen exactly when the policy is known, and it is a slot of the row. |
| Paging.StepRowOk | src/com/antonioramirez/MemorySim.java:59-97 | After a step the row is still well formed: each slot is empty or a valid page, occupied slots come first, and no page appears twice. The referenced page sits in the slot the step records. |
| Paging.InsertRowOk | src/com/antonioramirez/MemorySim.java:69-73 | Putting a non-resident page into the first empty slot, or into any slot of a full row, keeps the row well formed. |
| Paging.StepOfOk | src/com/antonioramirez/MemorySim.java:59-97 | The engine's step keeps rows well formed and of the same width whenever there is at least one slot. |
| Paging.Start | src/com/antonioramirez/MemorySim.java:183-202 | The reset state: no step recorded, every slot empty, every page's record fresh, not stopped. |
| Paging.ExtendBy | src/com/antonioramirez/MemorySim.java:49-106 | Extending a running replay appends exactly one row and record, or none when the step stops it. The shapes of rows and records are kept. |
| Paging.ReplayBy | src/com/antonioramirez/MemorySim.java:49-106 | A replay of `n` steps records at most `n` steps, and it stopped exactly when it recorded fewer. |
| Paging.Extend | src/com/antonioramirez/MemorySim.java:49-106 | The engine's step applied to a running replay: one more row and record, or none when it stops. |
| Paging.Run | src/com/antonioramirez/MemorySim.java:37-107 | The replay of the first `n` steps from a reset table keeps every recorded row at the table's width, and its current row is well formed. It stopped exactly when it recorded fewer than `n` steps. `PagingFacts.ReplayRowsOk` shows every recorded row is well formed. |
| Paging.FaultCount | src/com/antonioramirez/MemorySim.java:239-241 | The fault count is the number of `true` flags. |
| PagingFacts.ReplayStopped | src/com/antonioramirez/MemorySim.java:91-93 | Once a replay has stopped at an unknown policy, later steps change nothing. |
| PagingFacts.RunStopped | src/com/antonioramirez/MemorySim.java:91-93 | Once the run has stopped at an unknown policy, the run over any longer prefix of the string is the same, so the earlier results are kept. |
| PagingFacts.WrittenNext | src/com/antonioramirez/MemorySim.java:95-104 | Writing out one more step puts its row at index `n`, copies it forward into row `n+1`, and puts its outcome into record `n`. Every other row and record stays the same; a step that stops writes nothing. |
| PagingFacts.StepHit | src/com/antonioramirez/MemorySim.java:61-67 | On a hit, the row is unchanged, no page is removed and the step records the holding slot. The page's load step is untouched and every other page's record is unchanged. |
| PagingFacts.StepFreeSlot | src/com/antonioramirez/MemorySim.java:69-73 | On a miss with a free slot, the page goes into the lowest empty slot, the step faults, nothing is removed, and the page's load step becomes `i`. No other page's record changes. |
| PagingFacts.StepEvict | src/com/antonioramirez/MemorySim.java:75-97 | On a miss on a full row, the victim slot's page is recorded as removed and replaced by the referenced page, and every other slot is unchanged. The step becomes the referenced page's load step only under FIFO (line 79). No other page's load step changes. |
| PagingFacts.StepVictim | src/com/antonioramirez/MemorySim.java:76-90 | The victim is the first slot with the earliest load (FIFO), the lowest count (LFU) or the earliest last use (LRU), or with the furthest next use (OPT). Under OPT every resident page is next used strictly after the step. |
| PagingFacts.StepOfNeverStops | src/com/antonioramirez/MemorySim.java:75-97 | Under any of the four known policies the engine's step never stops. |
| PagingFacts.ReplayNeverStops | src/com/antonioramirez/MemorySim.java:49-106 | A replay whose steps never stop records every step. |
| PagingFacts.KnownPolicyRuns | src/com/antonioramirez/MemorySim.java:49-106 | Under a known policy the run records all `n` steps. |
| PagingFacts.ReplayRowsOk | src/com/antonioramirez/MemorySim.java:59-104 | Every recorded row is well formed. |
| PagingFacts.ReplayPrefix | src/com/antonioramirez/MemorySim.java:49-106 | Later steps never rewrite earlier rows or records. |
| PagingFacts.ReplayStep | src/com/antonioramirez/MemorySim.java:49-106 | A replay that recorded step `k` ran every earlier step. Its row and record `k` are those of the replay that stops right after step `k`. |
| PagingFacts.RunPrefix | src/com/antonioramirez/MemorySim.java:49-106 | The same for the engine's run: row and record `k` are fixed once step `k` is done. |
| PagingFacts.RunLast | src/com/antonioramirez/MemorySim.java:49-106 | The last step of a run that did not stop is the engine's step from the state the shorter run left. Its row and record are that step's. |
| PagingFacts.RunResident | src/com/antonioramirez/MemorySim.java:61-97 | After a completed step, the referenced page is resident in the slot the step records. |
| PagingFacts.ExtendHit | src/com/antonioramirez/MemorySim.java:61-67 | When the current row holds the referenced page, the next step is a hit on that slot and keeps the row. |
| PagingFacts.RereferenceHits | src/com/antonioramirez/MemorySim.java:61-67 | A page referenced twice in a row is a hit the second time: nothing is removed, the row stays, and the slot is the one used the step before. |
| Bookkeeping.LastRef | src/com/antonioramirez/MemorySim.java:52-54 | The result is the last step before `n` referencing the page, or -1 when there is none. |
| Bookkeeping.Occurrences | src/com/antonioramirez/MemorySim.java:55-57 | The result is the number of references to the page among the first `n` steps. |
| Bookkeeping.StepCounters | src/com/antonioramirez/MemorySim.java:51-58 | One step adds one to the referenced page's count under LFU and sets its last use to the step under LRU. Nothing else touches these two fields. |
| Bookkeeping.StepOfCounts | src/com/antonioramirez/MemorySim.java:51-97 | The engine's step changes counts and last uses only through that bookkeeping. |
| Bookkeeping.ReplayCountersStep | src/com/antonioramirez/MemorySim.java:51-58 | One replay step changes a page's count and last use as the bookkeeping says, and changes nothing once the replay has stopped. |
| Bookkeeping.ReplayTimesUsed | src/com/antonioramirez/MemorySim.java:55-57 | After `n` steps a page's count is its number of references under LFU, and 0 under any other policy. |
| Bookkeeping.ReplayLastUse | src/com/antonioramirez/MemorySim.java:52-54 | After `n` steps a page's last use is its last reference under LRU, and -1 under any other policy. |
| Bookkeeping.LfuCounts | src/com/antonioramirez/MemorySim.java:55-57 | Under LFU a page's count after `n` steps is how often it occurs among the first `n` references, evictions notwithstanding. The other policies never count. |
| Bookkeeping.LruLastUse | src/com/antonioramirez/MemorySim.java:52-54 | Under LRU a page's last use after `n` steps is its last reference so far, or -1. The other policies never record it. |
| Bookkeeping.LastLoad | src/com/antonioramirez/MemorySim.java:69-80 | The result is the last recorded step that loaded the page, or -1 exactly when none did. A load into a free slot counts under every policy; a load in place of a victim counts only under FIFO. |
| Bookkeeping.LastLoadStep | src/com/antonioramirez/MemorySim.java:69-80 | One more recorded step either is the new last load of the page or leaves the last load as it was. |
| Bookkeeping.StepInserted | src/com/antonioramirez/MemorySim.java:50-97 | One step sets the referenced page's load step to the step exactly when the step loads it in that sense. No other page's load step changes. |
| Bookkeeping.StepOfInserts | src/com/antonioramirez/MemorySim.java:50-97 | The engine's step changes the load steps only that way. |
| Bookkeeping.ReplayInsertedStep | src/com/antonioramirez/MemorySim.java:49-106 | One replay step keeps every page's load step equal to its last recorded load. |
| Bookkeeping.ReplayInserted | src/com/antonioramirez/MemorySim.java:49-106 | After any replay, a page's load step is its last recorded load, or -1. |
| Bookkeeping.RunInserted | src/com/antonioramirez/MemorySim.java:69-80 | After the first `n` steps under any policy, a page's load step is the last recorded step that loaded it, or -1. |
| Bookkeeping.FifoInserted | src/com/antonioramirez/MemorySim.java:75-80 | Under FIFO all `n` steps are recorded. A page's load step is the last step so far that faulted on it, or -1, so `findOldest` evicts the page whose most recent load is the earliest. |
| Capacity.SeenIsPrefix | src/com/antonioramirez/MemorySim.java:59-73 | The pages seen are exactly those among the first `n` references. |
| Capacity.SeenStep | src/com/antonioramirez/MemorySim.java:59-73 | One more reference adds its page, and the number of pages seen grows exactly when the page is new. |
| Capacity.StepWithRoom | src/com/antonioramirez/MemorySim.java:59-73 | If the row holds exactly the pages seen, in its first slots, and there is room for the page, the step never evicts. It faults exactly when the page is new, and afterwards the row holds the pages seen including this one. |
| Capacity.StepOfWithRoom | src/com/antonioramirez/MemorySim.java:59-73 | The engine's step behaves that way under every policy, including an unknown one. |
| Capacity.ReplayWithRoomStep | src/com/antonioramirez/MemorySim.java:49-106 | One replay step with room appends a record that removes nothing and faults exactly on a new page. |
| Capacity.ReplayWithRoom | src/com/antonioramirez/MemorySim.java:49-106 | With room for every page referenced, the replay records every step and its row holds exactly the pages seen. No step removes a page, and a step faults exactly on a page's first reference. |
| Capacity.ReplayFaultsOnce | src/com/antonioramirez/MemorySim.java:239-241 | Such a replay has as many faults as distinct pages. |
| Capacity.FewPages | src/com/antonioramirez/MemorySim.java:59-73 | With at least as many frames as distinct pages, every step is recorded and no victim is ever recorded. A step faults exactly on a page's first reference, and the fault count is the number of distinct pages. |
| Simulator.MemorySim.constructor | src/com/antonioramirez/MemorySim.java:25-35 | The engine keeps the string, the frame counts and fresh arrays sized to the string and to the frame counts. The frame array holds no frames yet. |
| Simulator.MemorySim.Generate | src/com/antonioramirez/MemorySim.java:37-107 | Whatever an earlier run left, the table rows, the step records and the frames afterwards are those of `Run` over the whole string from a reset state. An unknown policy stops with the earlier steps kept. |
| Simulator.MemorySim.Advance | src/com/antonioramirez/MemorySim.java:49-105 | One pass of the main loop takes the state showing a replay of `i` steps to the state showing that replay extended by step `i`. It returns false exactly when the replay stops there. |
| Simulator.MemorySim.WriteStep | src/com/antonioramirez/MemorySim.java:50-100 | Step `i` written over the state: the records, the frames and every row except the next one show the extended replay. |
| Simulator.MemorySim.SimulateStep | src/com/antonioramirez/MemorySim.java:50-100 | Row `i`, the frames and record `i` become `Step`'s result; nothing else changes; an unknown policy on a full row changes nothing. |
| Simulator.MemorySim.PlaceReference | src/com/antonioramirez/MemorySim.java:59-100 | The hit, free-slot and eviction branches leave row `i`, the frames and record `i` as `Place` says. |
| Simulator.MemorySim.LoadIntoFreeSlot | src/com/antonioramirez/MemorySim.java:69-73 | The page goes into the given slot, the step records that slot and the page's load step becomes `i`. |
| Simulator.MemorySim.Replace | src/com/antonioramirez/MemorySim.java:75-97 | The policy's victim slot gets the page, its old page is recorded as removed, and the step records that slot. An unknown policy changes nothing. |
| Simulator.MemorySim.SelectVictim | src/com/antonioramirez/MemorySim.java:76-94 | The selected slot and the new frame contents are `Victim`'s: FIFO records the load, OPT recomputes next uses. An unknown policy reports no victim and changes nothing. |
| Simulator.MemorySim.SetInserted | src/com/antonioramirez/MemorySim.java:72 | Only the given page's load step changes. |
| Simulator.MemorySim.RecordReference | src/com/antonioramirez/MemorySim.java:51-58 | The frames change as `Touch` says: last use under LRU, count under LFU, nothing otherwise. |
| Simulator.MemorySim.CopyRowForward | src/com/antonioramirez/MemorySim.java:101-104 | Row `r+1` becomes a copy of row `r`; every other row is kept. |
| Simulator.MemorySim.FindOldest | src/com/antonioramirez/MemorySim.java:109-121 | The result is the first slot whose page has the smallest load step (with `Paging.FirstMinIndexIsFirstMin`). |
| Simulator.MemorySim.FindLfu | src/com/antonioramirez/MemorySim.java:123-137 | The result is the first slot whose page has the smallest count. |
| Simulator.MemorySim.FindLru | src/com/antonioramirez/MemorySim.java:139-152 | The result is the first slot whose page has the smallest last use. |
| Simulator.MemorySim.FindLeastOptimal | src/com/antonioramirez/MemorySim.java:154-169 | The result is the first slot whose page has the largest next use (with `Paging.FirstMaxIndexIsFirstMax`). |
| Simulator.MemorySim.CalculateNextUses | src/com/antonioramirez/MemorySim.java:171-180 | Every page's next use becomes its first reference at or after `n`, or the string length plus one; all other fields are kept. |
| Simulator.MemorySim.ResetArrays | src/com/antonioramirez/MemorySim.java:183-202 | Every step is reset to a fault with no victim and no slot, every page gets a fresh frame of its own, and every slot of the table is empty. |
| Simulator.MemorySim.CountFaults | src/com/antonioramirez/MemorySim.java:239-241 | The result is the number of steps whose fault flag is set. |
| Simulator.MemorySim.FaultsShown | src/com/antonioramirez/MemorySim.java:239-241 | Once a complete replay is written out, the fault flags are the replay's, so `CountFaults` counts the replay's faults. |
| Simulator.MemorySim.FindIndex | src/com/antonioramirez/MemorySim.java:254-261 | The result is the smallest slot of the row holding the value, or -1. |

## Left out

- `MemorySim.print` (MemorySim.java:205-252) is console output. Only its fault count is modelled, by `CountFaults`.
- The message `generate` prints before it stops at an unknown policy name (MemorySim.java:92) is console output and is not modelled. In the model the stop shows only as `Run(...).aborted`, and as the steps `Generate` leaves at their reset values.
- `Main.java` is not part of this model. It covers the menu loop, reading and generating reference strings, and printing. Its constraints on the engine:
  - It always passes 10 virtual pages (Main.java:16, 83).
  - References name valid pages: typed pages outside 0-9 are dropped and generated pages are drawn from 0-9 (Main.java:140, 171). This is the `RefsOk` precondition of `Generate`.
  - The frame count is limited only from above, to at most 7 (Main.java:29-38). A frame count of 0 gets through; that is the zero-frame case the `Generate` line below excludes.
  - A negative frame count also gets through. The source then fails in the constructor when it allocates the table (MemorySim.java:32). The model's sizes are natural numbers, so that case is not modelled.
- The `algorithm` string field (MemorySim.java:23, 41, 201) only feeds the printout.
- The `number` field of `Frame` (Frame.java:11, 19) is never read; the constructor takes no page number.
- Simulator.MemorySim.Generate: requires at least one physical frame. With zero frames, one of the four policy names and a non-empty string, the source reads slot 0 of an empty row in a selector and fails. The precondition also excludes the two zero-frame cases that do not fail: an unknown name, which returns at step 0 and leaves the reset state, and an empty string, where no step runs.
- Simulator.MemorySim.Generate: requires every reference to be a valid page. Where the source fails on an out-of-range reference depends on the policy:
  - under LRU and LFU, at the first such reference, when it updates that page's record (lines 54, 57);
  - under FIFO or an unknown name, at the first step that must load it: into a free slot (line 72) or, under FIFO, by eviction (line 79);
  - under OPT, at whichever comes first: a load of it into a free slot (line 72), or any eviction at or before its position. Every OPT eviction runs the next-use pass, which reads the record of every page referenced from that step to the end of the string (line 178), even when the page being loaded is valid.
  The precondition also excludes two out-of-range cases that do not fail:
  - a reference of -1 while a slot is free matches the empty slot (lines 59-66) and is recorded as a hit on it. This holds under FIFO and an unknown name, and under OPT only when no eviction happened before that step;
  - under an unknown name, a reference that misses on a full row returns at line 93 before any record is indexed.
- A null policy name (which `switch` on a string would reject) is not modelled. The name is a Dafny string.
- Java's 32-bit `int` is modelled as unbounded integers. Step indices and counts never come near the limit for strings that fit in memory.
- `FindLeastOptimal` does not keep the source's `leastOptimal` and `temp` page locals, only the slot index and its next use. The selected slot is the same.
- `StepOf` returns no step on malformed input (a reference out of range, a malformed row, no slots). The engine never reaches that case under `Generate`'s preconditions.
- The classic worked example is not proved. It expects 9, 10 and 7 faults for FIFO, LRU and OPT on 1,2,3,4,1,2,5,1,2,3,4,5 with three frames. Evaluating the twelve concrete steps of the replay for each policy is too costly for the verifier.
- Optimality of OPT against the other policies, and Belady's anomaly, are not modelled. The code does not promise them.
