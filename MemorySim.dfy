// The replacement engine: the table of physical slots kept for every step, the
// per-step records, and the per-page frames, all updated in place.

module Simulator {
  import opened Frames
  import opened Paging
  import opened PagingFacts

  class MemorySim {
    const referenceString: seq<int>
    const removed: array<int>
    const pageCalled: array<int>
    const pageFault: array<bool>
    const stringLength: nat
    const numOfPhysicalFrames: nat
    const numOfVirtualFrames: nat
    /** Row r holds the physical slots as they stand after step r. */
    const physicalMemory: array2<int>
    /** One frame per virtual page; null until the first reset. */
    const frameArray: array<Frame?>

    /** The frames' contents as values. */
    ghost var meta: seq<Meta>

    /** The shapes fixed at construction. */
    ghost predicate Valid()
    {
      stringLength == |referenceString| &&
      removed.Length == stringLength && pageCalled.Length == stringLength &&
      pageFault.Length == stringLength && removed != pageCalled &&
      physicalMemory.Length0 == stringLength && physicalMemory.Length1 == numOfPhysicalFrames &&
      frameArray.Length == numOfVirtualFrames
    }

    ghost function FrameObjects(): set<Frame?>
      reads frameArray
    {
      set v | 0 <= v < frameArray.Length :: frameArray[v]
    }

    /** Every page has its own frame, and `meta` is what the frames hold. */
    ghost predicate Coupled()
      reads this, frameArray, FrameObjects()
    {
      |meta| == frameArray.Length &&
      (forall v :: 0 <= v < frameArray.Length ==> frameArray[v] != null && frameArray[v].Value() == meta[v]) &&
      (forall v, w :: 0 <= v < w < frameArray.Length ==> frameArray[v] != frameArray[w])
    }

    /** Row `r` of the table as a sequence. */
    ghost function Row(r: nat): (row: seq<int>)
      requires r < physicalMemory.Length0
      reads physicalMemory
      ensures |row| == physicalMemory.Length1
      ensures forall c :: 0 <= c < physicalMemory.Length1 ==> row[c] == physicalMemory[r, c]
    {
      seq(physicalMemory.Length1, c requires 0 <= c < physicalMemory.Length1 reads physicalMemory => physicalMemory[r, c])
    }

    /** Row `r` holds a valid page in every slot. */
    ghost predicate FullRow(r: nat)
      requires r < physicalMemory.Length0
      reads physicalMemory
    {
      forall c :: 0 <= c < physicalMemory.Length1 ==> 0 <= physicalMemory[r, c] < numOfVirtualFrames
    }

    /** The table holds the rows of the replay `R` written out. */
    ghost predicate ShowsTable(R: Replay)
      requires Valid() && |R.row| == numOfPhysicalFrames
      requires forall k :: 0 <= k < |R.rows| ==> |R.rows[k]| == numOfPhysicalFrames
      reads this, physicalMemory
    {
      forall r, c :: 0 <= r < stringLength && 0 <= c < numOfPhysicalFrames ==>
        physicalMemory[r, c] == Snapshot(R, numOfPhysicalFrames, r)[c]
    }

    /** The step records hold the outcomes of the replay `R` written out. */
    ghost predicate ShowsRecords(R: Replay)
      requires Valid()
      reads this, pageFault, removed, pageCalled
    {
      forall r :: 0 <= r < stringLength ==>
        pageFault[r] == Result(R, r).fault && removed[r] == Result(R, r).removed && pageCalled[r] == Result(R, r).called
    }

    /** The whole state is the replay `R` written out: the table rows, the step
        records and the frames. */
    ghost predicate Shows(R: Replay)
      requires Valid()
      reads this, frameArray, FrameObjects(), physicalMemory, pageFault, removed, pageCalled
    {
      |R.row| == numOfPhysicalFrames &&
      (forall k :: 0 <= k < |R.rows| ==> |R.rows[k]| == numOfPhysicalFrames) &&
      Coupled() && meta == R.meta && ShowsTable(R) && ShowsRecords(R)
    }

    constructor (list: seq<int>, pFrames: nat, vFrames: nat)
      ensures Valid()
      ensures referenceString == list && numOfPhysicalFrames == pFrames && numOfVirtualFrames == vFrames
      ensures fresh(removed) && fresh(pageCalled) && fresh(pageFault) && fresh(physicalMemory) && fresh(frameArray)
      ensures forall v :: 0 <= v < vFrames ==> frameArray[v] == null
    {
      referenceString := list;
      stringLength := |list|;
      removed := new int[|list|](_ => 0);
      pageCalled := new int[|list|](_ => 0);
      numOfPhysicalFrames := pFrames;
      numOfVirtualFrames := vFrames;
      physicalMemory := new int[|list|, pFrames]((_, _) => 0);
      frameArray := new Frame?[vFrames](_ => null);
      pageFault := new bool[|list|](_ => false);
      meta := [];
    }

    /** Runs the named policy over the whole reference string. The resulting
        table, step records and frames are those of `Run` from a reset state,
        whatever an earlier run left; an unknown name stops at the first miss on
        a full row with the earlier steps kept. */
    method Generate(algo: string)
      requires Valid() && 1 <= numOfPhysicalFrames && RefsOk(referenceString, numOfVirtualFrames)
      modifies this, pageFault, removed, pageCalled, frameArray, physicalMemory
      ensures Shows(Run(PolicyOf(algo), referenceString, numOfPhysicalFrames, numOfVirtualFrames, stringLength))
    {
      ResetArrays();
      var policy := PolicyOf(algo);
      var currentRSNumber := 0;
      while currentRSNumber < stringLength
        invariant currentRSNumber <= stringLength
        invariant forall v :: 0 <= v < numOfVirtualFrames ==> fresh(frameArray[v])
        invariant !Run(policy, referenceString, numOfPhysicalFrames, numOfVirtualFrames, currentRSNumber).aborted
        invariant Shows(Run(policy, referenceString, numOfPhysicalFrames, numOfVirtualFrames, currentRSNumber))
      {
        ghost var R := Run(policy, referenceString, numOfPhysicalFrames, numOfVirtualFrames, currentRSNumber);
        var ok := Advance(policy, currentRSNumber, R);
        RunExtends(policy, referenceString, numOfPhysicalFrames, numOfVirtualFrames, currentRSNumber);
        if !ok {
          RunStopped(policy, referenceString, numOfPhysicalFrames, numOfVirtualFrames, currentRSNumber + 1, stringLength);
          return;
        }
        currentRSNumber := currentRSNumber + 1;
      }
    }

    /** One pass of the main loop: step `i`, then the copy of its row into the
        next one. The state goes from showing `R`, a running replay of the first
        `i` steps, to showing `R` extended by step `i`; false when the replay
        stops at step `i`. */
    method Advance(policy: Policy, i: nat, ghost R: Replay) returns (ok: bool)
      requires Valid() && 1 <= numOfPhysicalFrames && RefsOk(referenceString, numOfVirtualFrames) && i < stringLength
      requires Shaped(R, numOfPhysicalFrames, numOfVirtualFrames) && !R.aborted && |R.rows| == i && Shows(R)
      modifies this, FrameObjects(), pageFault, removed, pageCalled, physicalMemory
      ensures var R' := Extend(policy, referenceString, numOfPhysicalFrames, numOfVirtualFrames, i, R);
        ok == !R'.aborted && Shows(R')
    {
      ghost var R' := Extend(policy, referenceString, numOfPhysicalFrames, numOfVirtualFrames, i, R);
      ok := WriteStep(policy, i, R);
      if ok && i + 1 < stringLength {
        WrittenNext(policy, referenceString, numOfPhysicalFrames, numOfVirtualFrames, i, R);
        label Stepped:
        CopyRowForward(i);
        assert ShowsTable(R') by {
          forall r, c | 0 <= r < stringLength && 0 <= c < numOfPhysicalFrames
            ensures physicalMemory[r, c] == Snapshot(R', numOfPhysicalFrames, r)[c]
          {
            if r == i + 1 {
              assert physicalMemory[r, c] == old@Stepped(physicalMemory[i, c]);
            } else {
              assert physicalMemory[r, c] == old@Stepped(physicalMemory[r, c]);
            }
          }
        }
      }
    }

    /** Step `i` written over the state showing `R`: the records, the frames and
        every row but the next one now show `R` extended by step `i`, and all of
        the table does when the replay stops there. */
    method WriteStep(policy: Policy, i: nat, ghost R: Replay) returns (ok: bool)
      requires Valid() && 1 <= numOfPhysicalFrames && RefsOk(referenceString, numOfVirtualFrames) && i < stringLength
      requires Shaped(R, numOfPhysicalFrames, numOfVirtualFrames) && !R.aborted && |R.rows| == i && Shows(R)
      modifies this, FrameObjects(), pageFault, removed, pageCalled, physicalMemory
      ensures var R' := Extend(policy, referenceString, numOfPhysicalFrames, numOfVirtualFrames, i, R);
        ok == !R'.aborted && Coupled() && meta == R'.meta && ShowsRecords(R') &&
        (forall r, c :: 0 <= r < stringLength && r != i + 1 && 0 <= c < numOfPhysicalFrames ==>
          physicalMemory[r, c] == Snapshot(R', numOfPhysicalFrames, r)[c]) &&
        (!ok ==> ShowsTable(R'))
    {
      ghost var R' := Extend(policy, referenceString, numOfPhysicalFrames, numOfVirtualFrames, i, R);
      WrittenNext(policy, referenceString, numOfPhysicalFrames, numOfVirtualFrames, i, R);
      assert Row(i) == R.row;
      ok := SimulateStep(policy, i);
      if !ok {
        assert ShowsTable(R');
        assert ShowsRecords(R');
        return;
      }
      assert ShowsRecords(R') by {
        forall r | 0 <= r < stringLength
          ensures pageFault[r] == Result(R', r).fault && removed[r] == Result(R', r).removed && pageCalled[r] == Result(R', r).called
        {
        }
      }
      forall r, c | 0 <= r < stringLength && r != i + 1 && 0 <= c < numOfPhysicalFrames
        ensures physicalMemory[r, c] == Snapshot(R', numOfPhysicalFrames, r)[c]
      {
        if r != i {
          assert physicalMemory[r, c] == old(physicalMemory[r, c]);
        }
      }
    }

    /** One step of `Generate`: the bookkeeping on the referenced page, then its
        placement. False when an unknown policy reaches the eviction branch, in
        which case nothing has changed. */
    method SimulateStep(policy: Policy, i: nat) returns (ok: bool)
      requires Valid() && 1 <= numOfPhysicalFrames && RefsOk(referenceString, numOfVirtualFrames)
      requires i < stringLength && Coupled() && RowOk(Row(i), numOfVirtualFrames)
      requires pageFault[i] && removed[i] == -1 && pageCalled[i] == -1
      modifies this, FrameObjects(), pageFault, removed, pageCalled, physicalMemory
      ensures Coupled()
      ensures var st := Step(policy, referenceString, i, old(Row(i)), old(meta));
        ok == st.Some? &&
        (ok ==> Row(i) == st.value.row && meta == st.value.meta && pageFault[i] == st.value.out.fault &&
                removed[i] == st.value.out.removed && pageCalled[i] == st.value.out.called)
      ensures !ok ==> meta == old(meta) && unchanged(physicalMemory, pageFault, removed, pageCalled)
      ensures forall r, c :: 0 <= r < stringLength && r != i && 0 <= c < numOfPhysicalFrames ==>
        physicalMemory[r, c] == old(physicalMemory[r, c])
      ensures forall r :: 0 <= r < stringLength && r != i ==>
        pageFault[r] == old(pageFault[r]) && removed[r] == old(removed[r]) && pageCalled[r] == old(pageCalled[r])
    {
      var frameToInsert := referenceString[i];
      RecordReference(policy, frameToInsert, i);
      ok := PlaceReference(policy, i, frameToInsert);
    }

    /** The search of row `i` for an empty slot and for page `p`, then the hit,
        free-slot or eviction branch, as `Place` states them. */
    method PlaceReference(policy: Policy, i: nat, p: nat) returns (ok: bool)
      requires Valid() && 1 <= numOfPhysicalFrames && RefsOk(referenceString, numOfVirtualFrames)
      requires i < stringLength && p == referenceString[i] && Coupled() && RowOk(Row(i), numOfVirtualFrames)
      requires pageFault[i] && removed[i] == -1 && pageCalled[i] == -1
      modifies this, FrameObjects(), pageFault, removed, pageCalled, physicalMemory
      ensures Coupled()
      ensures var st := Place(policy, referenceString, i, old(Row(i)), old(meta));
        ok == st.Some? &&
        (ok ==> Row(i) == st.value.row && meta == st.value.meta && pageFault[i] == st.value.out.fault &&
                removed[i] == st.value.out.removed && pageCalled[i] == st.value.out.called)
      ensures !ok ==> meta == old(meta) && unchanged(physicalMemory, pageFault, removed, pageCalled)
      ensures forall r, c :: 0 <= r < stringLength && r != i && 0 <= c < numOfPhysicalFrames ==>
        physicalMemory[r, c] == old(physicalMemory[r, c])
      ensures forall r :: 0 <= r < stringLength && r != i ==>
        pageFault[r] == old(pageFault[r]) && removed[r] == old(removed[r]) && pageCalled[r] == old(pageCalled[r])
    {
      var empty := FindIndex(i, EmptySlot);
      var inMemory := FindIndex(i, p);
      if inMemory != -1 {
        pageCalled[i] := inMemory;
        pageFault[i] := false;
        ok := true;
      } else if empty >= 0 {
        LoadIntoFreeSlot(i, empty, p);
        ok := true;
      } else {
        ok := Replace(policy, i, p);
      }
    }

    /** The free-slot branch: page `p` goes into slot `empty` of row `i` and its
        frame records the load. */
    method LoadIntoFreeSlot(i: nat, empty: nat, p: nat)
      requires Valid() && Coupled() && i < stringLength && empty < numOfPhysicalFrames && p < numOfVirtualFrames
      modifies this, frameArray[p], pageCalled, physicalMemory
      ensures Coupled() && meta == old(meta)[p := old(meta)[p].(inserted := i)]
      ensures Row(i) == old(Row(i))[empty := p] && pageCalled[i] == empty
      ensures forall r, c :: 0 <= r < stringLength && r != i && 0 <= c < numOfPhysicalFrames ==>
        physicalMemory[r, c] == old(physicalMemory[r, c])
      ensures forall r :: 0 <= r < stringLength && r != i ==> pageCalled[r] == old(pageCalled[r])
    {
      pageCalled[i] := empty;
      physicalMemory[i, empty] := p;
      SetInserted(p, i);
      assert Row(i) == old(Row(i))[empty := p];
    }

    /** The eviction branch on the full row `i`: the policy picks the slot, whose
        page is recorded as removed and replaced by `p`. False for an unknown
        policy, in which case nothing has changed. */
    method Replace(policy: Policy, i: nat, p: nat) returns (ok: bool)
      requires Valid() && 1 <= numOfPhysicalFrames && RefsOk(referenceString, numOfVirtualFrames)
      requires i < stringLength && p == referenceString[i] && Coupled() && FullRow(i)
      modifies this, FrameObjects(), removed, pageCalled, physicalMemory
      ensures Coupled()
      ensures match Victim(policy, referenceString, i, old(Row(i)), old(meta))
        case None => !ok && meta == old(meta) && unchanged(physicalMemory, removed, pageCalled)
        case Some((k, m)) =>
          ok && meta == m && Row(i) == old(Row(i))[k := p] && removed[i] == old(Row(i))[k] && pageCalled[i] == k
      ensures forall r, c :: 0 <= r < stringLength && r != i && 0 <= c < numOfPhysicalFrames ==>
        physicalMemory[r, c] == old(physicalMemory[r, c])
      ensures forall r :: 0 <= r < stringLength && r != i ==> removed[r] == old(removed[r]) && pageCalled[r] == old(pageCalled[r])
    {
      var found, frameToReplace := SelectVictim(policy, i, p);
      if !found {
        return false;
      }
      removed[i] := physicalMemory[i, frameToReplace];
      pageCalled[i] := frameToReplace;
      physicalMemory[i, frameToReplace] := p;
      assert Row(i) == old(Row(i))[frameToReplace := p];
      ok := true;
    }

    /** The switch of the eviction branch on the full row `i`: the victim slot
        and the policy's own bookkeeping, as `Victim` states them. False for an
        unknown policy, which changes nothing. */
    method SelectVictim(policy: Policy, i: nat, frameToInsert: int) returns (found: bool, frameToReplace: nat)
      requires Valid() && 1 <= numOfPhysicalFrames && RefsOk(referenceString, numOfVirtualFrames)
      requires i < stringLength && frameToInsert == referenceString[i] && Coupled() && FullRow(i)
      modifies this, FrameObjects()
      ensures Coupled()
      ensures Victim(policy, referenceString, i, Row(i), old(meta)) == if found then Some((frameToReplace, meta)) else None
      ensures !found ==> unchanged(this) && unchanged(FrameObjects())
    {
      found := true;
      match policy {
        case FIFO =>
          frameToReplace := FindOldest(i);
          SetInserted(frameToInsert, i);
        case OPT =>
          CalculateNextUses(i);
          frameToReplace := FindLeastOptimal(i);
        case LFU =>
          frameToReplace := FindLfu(i);
        case LRU =>
          frameToReplace := FindLru(i);
        case Other =>
          found, frameToReplace := false, 0;
      }
    }

    /** Records on the frame of page `p` that it was loaded at step `i`. */
    method SetInserted(p: nat, i: nat)
      requires Valid() && Coupled() && p < numOfVirtualFrames
      modifies this, frameArray[p]
      ensures Coupled() && meta == old(meta)[p := old(meta)[p].(inserted := i)]
    {
      frameArray[p].SetInserted(i);
      meta := meta[p := meta[p].(inserted := i)];
    }

    /** The bookkeeping done for the referenced page `p` at step `i` before the
        row is searched: LRU records the use, LFU counts it. */
    method RecordReference(policy: Policy, p: nat, i: nat)
      requires Valid() && Coupled() && p < numOfVirtualFrames
      modifies this, frameArray[p]
      ensures Coupled() && meta == Touch(policy, old(meta), p, i)
    {
      if policy == LRU {
        frameArray[p].SetLastUse(i);
        meta := meta[p := meta[p].(lastUse := i)];
      } else if policy == LFU {
        frameArray[p].IncrementTimesUsed();
        meta := meta[p := meta[p].(timesUsed := meta[p].timesUsed + 1)];
      }
    }

    /** Starts row `r + 1` as a copy of row `r`; every other row is kept. */
    method CopyRowForward(r: nat)
      requires r + 1 < physicalMemory.Length0
      modifies physicalMemory
      ensures forall r', c :: 0 <= r' < physicalMemory.Length0 && 0 <= c < physicalMemory.Length1 ==>
        physicalMemory[r', c] == if r' == r + 1 then old(physicalMemory[r, c]) else old(physicalMemory[r', c])
    {
      for c := 0 to physicalMemory.Length1
        invariant forall r', c' :: 0 <= r' < physicalMemory.Length0 && 0 <= c' < physicalMemory.Length1 ==>
          physicalMemory[r', c'] == if r' == r + 1 && c' < c then old(physicalMemory[r, c']) else old(physicalMemory[r', c'])
      {
        physicalMemory[r + 1, c] := physicalMemory[r, c];
      }
    }

    /** The slot of the full row `r` whose page was loaded earliest; the lowest
        such slot on a tie. */
    method FindOldest(r: nat) returns (oldestIndex: nat)
      requires Valid() && Coupled() && r < stringLength && 1 <= numOfPhysicalFrames && FullRow(r)
      ensures oldestIndex == FirstMinIndex(Keys(Row(r), meta, InsertedKey))
    {
      ghost var ks := Keys(Row(r), meta, InsertedKey);
      var oldest := frameArray[physicalMemory[r, 0]].GetInserted();
      oldestIndex := 0;
      for i := 1 to numOfPhysicalFrames
        invariant oldestIndex == FirstMinIndex(ks[..i]) && oldest == ks[oldestIndex]
      {
        var checking := frameArray[physicalMemory[r, i]].GetInserted();
        assert checking == ks[i];
        FirstMinIndexExtend(ks, i);
        if checking < oldest {
          oldest := checking;
          oldestIndex := i;
        }
      }
      assert ks[..numOfPhysicalFrames] == ks;
    }

    /** The slot of the full row `r` whose page has been referenced least often;
        the lowest such slot on a tie. */
    method FindLfu(r: nat) returns (lfuIndex: nat)
      requires Valid() && Coupled() && r < stringLength && 1 <= numOfPhysicalFrames && FullRow(r)
      ensures lfuIndex == FirstMinIndex(Keys(Row(r), meta, TimesUsedKey))
    {
      ghost var ks := Keys(Row(r), meta, TimesUsedKey);
      lfuIndex := 0;
      var lfuTimesUsed := frameArray[physicalMemory[r, lfuIndex]].GetTimesUsed();
      for i := 1 to numOfPhysicalFrames
        invariant lfuIndex == FirstMinIndex(ks[..i]) && lfuTimesUsed == ks[lfuIndex]
      {
        var tempTimesUsed := frameArray[physicalMemory[r, i]].GetTimesUsed();
        assert tempTimesUsed == ks[i];
        FirstMinIndexExtend(ks, i);
        if tempTimesUsed < lfuTimesUsed {
          lfuIndex := i;
          lfuTimesUsed := tempTimesUsed;
        }
      }
      assert ks[..numOfPhysicalFrames] == ks;
    }

    /** The slot of the full row `r` whose page was referenced least recently;
        the lowest such slot on a tie. */
    method FindLru(r: nat) returns (lruIndex: nat)
      requires Valid() && Coupled() && r < stringLength && 1 <= numOfPhysicalFrames && FullRow(r)
      ensures lruIndex == FirstMinIndex(Keys(Row(r), meta, LastUseKey))
    {
      ghost var ks := Keys(Row(r), meta, LastUseKey);
      lruIndex := 0;
      var lruLastUse := frameArray[physicalMemory[r, lruIndex]].GetLastUse();
      for i := 1 to numOfPhysicalFrames
        invariant lruIndex == FirstMinIndex(ks[..i]) && lruLastUse == ks[lruIndex]
      {
        var tempLastUse := frameArray[physicalMemory[r, i]].GetLastUse();
        assert tempLastUse == ks[i];
        FirstMinIndexExtend(ks, i);
        if tempLastUse < lruLastUse {
          lruIndex := i;
          lruLastUse := tempLastUse;
        }
      }
      assert ks[..numOfPhysicalFrames] == ks;
    }

    /** The slot of the full row `r` whose page is next used furthest in the
        future; the lowest such slot on a tie. */
    method FindLeastOptimal(r: nat) returns (leastOptimalIndex: nat)
      requires Valid() && Coupled() && r < stringLength && 1 <= numOfPhysicalFrames && FullRow(r)
      ensures leastOptimalIndex == FirstMaxIndex(Keys(Row(r), meta, NextUseKey))
    {
      ghost var ks := Keys(Row(r), meta, NextUseKey);
      leastOptimalIndex := 0;
      var leastOptNextUse := frameArray[physicalMemory[r, leastOptimalIndex]].GetNextUse();
      for i := 1 to numOfPhysicalFrames
        invariant leastOptimalIndex == FirstMaxIndex(ks[..i]) && leastOptNextUse == ks[leastOptimalIndex]
      {
        var tempNextUse := frameArray[physicalMemory[r, i]].GetNextUse();
        assert tempNextUse == ks[i];
        FirstMaxIndexExtend(ks, i);
        if tempNextUse > leastOptNextUse {
          leastOptimalIndex := i;
          leastOptNextUse := frameArray[physicalMemory[r, i]].GetNextUse();
        }
      }
      assert ks[..numOfPhysicalFrames] == ks;
    }

    /** Sets every page's next use to its first reference at or after step `n`,
        or to one past the length of the string when there is none. */
    method CalculateNextUses(n: nat)
      requires Valid() && Coupled() && RefsOk(referenceString, numOfVirtualFrames)
      modifies this, FrameObjects()
      ensures Coupled() && meta == NextUses(referenceString, n, old(meta))
    {
      for i := 0 to numOfVirtualFrames
        invariant Coupled()
        invariant forall v :: 0 <= v < i ==> meta[v] == old(meta[v]).(nextUse := stringLength + 1)
        invariant forall v :: i <= v < numOfVirtualFrames ==> meta[v] == old(meta[v])
      {
        frameArray[i].SetNextUse(stringLength + 1);
        meta := meta[i := meta[i].(nextUse := stringLength + 1)];
      }
      var i: int := stringLength - 1;
      while i >= n
        invariant -1 <= i < stringLength
        invariant i >= n - 1 || i == stringLength - 1
        invariant Coupled()
        invariant forall v :: 0 <= v < numOfVirtualFrames ==>
          meta[v] == old(meta[v]).(nextUse := NextUse(referenceString, i + 1, v))
      {
        var called := referenceString[i];
        frameArray[called].SetNextUse(i);
        meta := meta[called := meta[called].(nextUse := i)];
        i := i - 1;
      }
    }

    /** Clears everything a previous run left: every step back to a fault with
        no victim and no slot, fresh frames, and an all-empty table. */
    method ResetArrays()
      requires Valid()
      modifies this, pageFault, removed, pageCalled, frameArray, physicalMemory
      ensures Coupled() && meta == FreshMetas(numOfVirtualFrames)
      ensures forall v :: 0 <= v < numOfVirtualFrames ==> fresh(frameArray[v])
      ensures forall r :: 0 <= r < stringLength ==> pageFault[r] && removed[r] == -1 && pageCalled[r] == -1
      ensures forall r, c :: 0 <= r < stringLength && 0 <= c < numOfPhysicalFrames ==> physicalMemory[r, c] == EmptySlot
    {
      for i := 0 to pageFault.Length
        modifies pageFault
        invariant forall k :: 0 <= k < i ==> pageFault[k]
      {
        pageFault[i] := true;
      }
      for i := 0 to removed.Length
        modifies removed
        invariant forall k :: 0 <= k < i ==> removed[k] == -1
      {
        removed[i] := -1;
      }
      for i := 0 to pageCalled.Length
        modifies pageCalled
        invariant forall k :: 0 <= k < i ==> pageCalled[k] == -1
      {
        pageCalled[i] := -1;
      }
      for i := 0 to numOfVirtualFrames
        modifies frameArray
        invariant forall v :: 0 <= v < i ==> frameArray[v] != null && fresh(frameArray[v]) && frameArray[v].Value() == FreshMeta
        invariant forall v, w :: 0 <= v < w < i ==> frameArray[v] != frameArray[w]
      {
        frameArray[i] := new Frame();
      }
      for i := 0 to stringLength
        modifies physicalMemory
        invariant forall r, c :: 0 <= r < i && 0 <= c < numOfPhysicalFrames ==> physicalMemory[r, c] == EmptySlot
      {
        for j := 0 to numOfPhysicalFrames
          modifies physicalMemory
          invariant forall r, c :: 0 <= r < i && 0 <= c < numOfPhysicalFrames ==> physicalMemory[r, c] == EmptySlot
          invariant forall c :: 0 <= c < j ==> physicalMemory[i, c] == EmptySlot
        {
          physicalMemory[i, j] := EmptySlot;
        }
      }
      meta := FreshMetas(numOfVirtualFrames);
    }

    /** The number of faulting steps, as the printout counts them. */
    method CountFaults() returns (faultCounter: nat)
      ensures faultCounter == FaultCount(pageFault[..])
    {
      faultCounter := 0;
      for iteration := 0 to pageFault.Length
        invariant faultCounter == FaultCount(pageFault[..iteration])
      {
        assert pageFault[..iteration + 1][..iteration] == pageFault[..iteration];
        if pageFault[iteration] {
          faultCounter := faultCounter + 1;
        }
      }
      assert pageFault[..pageFault.Length] == pageFault[..];
    }

    /** Once a complete replay is written out, the fault flags are the replay's,
        so `CountFaults` counts the replay's faulting steps. */
    lemma FaultsShown(R: Replay)
      requires Valid() && ShowsRecords(R) && |R.outs| == stringLength
      ensures pageFault[..] == Faults(R.outs)
    {
      forall r | 0 <= r < stringLength
        ensures pageFault[..][r] == Faults(R.outs)[r]
      {
        assert pageFault[r] == Result(R, r).fault;
      }
    }

    /** The smallest slot of row `r` holding `n`, or -1 when there is none. */
    method FindIndex(r: nat, n: int) returns (k: int)
      requires r < physicalMemory.Length0
      ensures k == FirstIndex(Row(r), n)
    {
      for i := 0 to physicalMemory.Length1
        invariant forall j :: 0 <= j < i ==> physicalMemory[r, j] != n
      {
        if physicalMemory[r, i] == n {
          return i;
        }
      }
      return -1;
    }
  }
}
