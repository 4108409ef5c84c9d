// Properties of the replay: what each step does, what every row keeps, and
// what the metadata means.

module PagingFacts {
  import opened Frames
  import opened Paging

  /** Once a replay has stopped, replaying further steps changes nothing. */
  lemma {:induction false} ReplayStopped(step: StepFn, frames: nat, pages: nat, n: nat, m: nat)
    requires StepsOk(step, frames, pages) && n <= m
    requires ReplayBy(step, frames, pages, n).aborted
    ensures ReplayBy(step, frames, pages, m) == ReplayBy(step, frames, pages, n)
    decreases m - n
  {
    if n < m {
      ReplayStopped(step, frames, pages, n, m - 1);
    }
  }

  /** The same for the engine's replay: once `Run` has stopped at an unknown
      policy, the run over more of the string is the same replay. */
  lemma RunStopped(policy: Policy, refs: seq<int>, frames: nat, pages: nat, n: nat, m: nat)
    requires 1 <= frames && n <= m <= |refs| && RefsOk(refs, pages)
    requires Run(policy, refs, frames, pages, n).aborted
    ensures Run(policy, refs, frames, pages, m) == Run(policy, refs, frames, pages, n)
  {
    StepOfOk(policy, refs, frames, pages);
    ReplayStopped(StepOf(policy, refs), frames, pages, n, m);
  }

  /** A running replay grows one step at a time: the run over one more
      reference is the run so far extended by that step. */
  lemma RunExtends(policy: Policy, refs: seq<int>, frames: nat, pages: nat, n: nat)
    requires 1 <= frames && n < |refs| && RefsOk(refs, pages)
    requires !Run(policy, refs, frames, pages, n).aborted
    ensures Run(policy, refs, frames, pages, n + 1) == Extend(policy, refs, frames, pages, n, Run(policy, refs, frames, pages, n))
  {
  }

  /** Writing out one more step of a running replay: the step's row becomes row
      `n` of the table and is copied forward into row `n + 1`, its outcome becomes
      record `n`, and every other row and record stays; a step that stops the
      replay writes nothing. */
  lemma WrittenNext(policy: Policy, refs: seq<int>, frames: nat, pages: nat, n: nat, R: Replay)
    requires 1 <= frames && n < |refs| && RefsOk(refs, pages) && Shaped(R, frames, pages)
    requires !R.aborted && |R.rows| == n
    ensures var R' := Extend(policy, refs, frames, pages, n, R);
      R'.aborted ==>
        R'.meta == R.meta && forall r: nat :: Snapshot(R', frames, r) == Snapshot(R, frames, r) && Result(R', r) == Result(R, r)
    ensures var R' := Extend(policy, refs, frames, pages, n, R);
      !R'.aborted ==>
        Snapshot(R', frames, n) == R'.row && Snapshot(R', frames, n + 1) == R'.row && Result(R', n) == R'.outs[n] &&
        (forall r: nat :: r != n && r != n + 1 ==> Snapshot(R', frames, r) == Snapshot(R, frames, r)) &&
        (forall r: nat :: r != n ==> Result(R', r) == Result(R, r))
  {
  }

  /** A hit: the row stays as it is, nothing is removed, the step records the
      slot holding the page, and only the referenced page's own bookkeeping may
      change, never its load step. */
  lemma StepHit(policy: Policy, refs: seq<int>, i: nat, row: seq<int>, meta: seq<Meta>, k: nat)
    requires i < |refs| && RefsOk(refs, |meta|) && RowOk(row, |meta|) && |row| >= 1
    requires k < |row| && row[k] == refs[i]
    ensures var r := Step(policy, refs, i, row, meta);
      r.Some? && r.value.row == row && r.value.out == Outcome(false, -1, k) &&
      r.value.meta[refs[i]].inserted == meta[refs[i]].inserted &&
      forall v :: 0 <= v < |meta| && v != refs[i] ==> r.value.meta[v] == meta[v]
  {
    assert FirstIndex(row, refs[i]) == k;
  }

  /** A miss with a free slot: the page goes into the lowest empty slot, nothing
      is removed, and the page's load step becomes `i`; no other page changes. */
  lemma StepFreeSlot(policy: Policy, refs: seq<int>, i: nat, row: seq<int>, meta: seq<Meta>, k: nat)
    requires i < |refs| && RefsOk(refs, |meta|) && RowOk(row, |meta|) && |row| >= 1
    requires forall c :: 0 <= c < |row| ==> row[c] != refs[i]
    requires k < |row| && row[k] == EmptySlot && forall c :: 0 <= c < k ==> row[c] != EmptySlot
    ensures var r := Step(policy, refs, i, row, meta);
      r.Some? && r.value.row == row[k := refs[i]] && r.value.out == Outcome(true, -1, k) &&
      r.value.meta[refs[i]].inserted == i &&
      forall v :: 0 <= v < |meta| && v != refs[i] ==> r.value.meta[v] == meta[v]
  {
    assert FirstIndex(row, EmptySlot) == k;
  }

  /** The next use, from step `n` on, of the page in each slot of a row. */
  function NextUseRow(refs: seq<int>, n: nat, row: seq<int>): (us: seq<int>)
    ensures |us| == |row| && forall c :: 0 <= c < |row| ==> us[c] == NextUse(refs, n, row[c])
  {
    seq(|row|, c requires 0 <= c < |row| => NextUse(refs, n, row[c]))
  }

  /** A miss on a full row under one of the four policies: the victim slot's
      page is recorded as removed and replaced, and every other slot stays.
      Only FIFO records the step as the referenced page's load step; no other
      page's load step changes. */
  lemma StepEvict(policy: Policy, refs: seq<int>, i: nat, row: seq<int>, meta: seq<Meta>)
    requires i < |refs| && RefsOk(refs, |meta|) && RowOk(row, |meta|) && |row| >= 1 && policy != Other
    requires forall c :: 0 <= c < |row| ==> row[c] != refs[i] && row[c] != EmptySlot
    ensures var r := Step(policy, refs, i, row, meta);
      r.Some? && 0 <= r.value.out.called < |row| &&
      (var k := r.value.out.called;
        r.value.out == Outcome(true, row[k], k) && 0 <= row[k] < |meta| && r.value.row == row[k := refs[i]])
    ensures var r := Step(policy, refs, i, row, meta);
      r.Some? &&
      r.value.meta[refs[i]].inserted == (if policy == FIFO then i else meta[refs[i]].inserted) &&
      forall v :: 0 <= v < |meta| && v != refs[i] ==> r.value.meta[v].inserted == meta[v].inserted
  {
    assert FirstIndex(row, refs[i]) == -1;
    assert FirstIndex(row, EmptySlot) == -1;
  }

  /** The victim of a miss on a full row is the policy's choice: the first slot
      whose page was loaded earliest (FIFO), referenced least often (LFU) or
      least recently (LRU), or whose next use is furthest away (OPT). Every
      resident page is next used strictly after the step, since none of them is
      the referenced page. */
  lemma StepVictim(policy: Policy, refs: seq<int>, i: nat, row: seq<int>, meta: seq<Meta>)
    requires i < |refs| && RefsOk(refs, |meta|) && RowOk(row, |meta|) && |row| >= 1 && policy != Other
    requires forall c :: 0 <= c < |row| ==> row[c] != refs[i] && row[c] != EmptySlot
    ensures var r := Step(policy, refs, i, row, meta);
      r.Some? &&
      (policy == FIFO ==> IsFirstMin(Keys(row, meta, InsertedKey), r.value.out.called)) &&
      (policy == LFU ==> IsFirstMin(Keys(row, meta, TimesUsedKey), r.value.out.called)) &&
      (policy == LRU ==> IsFirstMin(Keys(row, meta, LastUseKey), r.value.out.called)) &&
      (policy == OPT ==> IsFirstMax(NextUseRow(refs, i, row), r.value.out.called))
    ensures policy == OPT ==> forall c :: 0 <= c < |row| ==> NextUseRow(refs, i, row)[c] > i
  {
    var p := refs[i];
    var m := Touch(policy, meta, p, i);
    assert FirstIndex(row, p) == -1;
    assert FirstIndex(row, EmptySlot) == -1;
    match policy {
      case FIFO =>
        FirstMinIndexIsFirstMin(Keys(row, meta, InsertedKey));
      case LFU =>
        assert Keys(row, m, TimesUsedKey) == Keys(row, meta, TimesUsedKey);
        FirstMinIndexIsFirstMin(Keys(row, meta, TimesUsedKey));
      case LRU =>
        assert Keys(row, m, LastUseKey) == Keys(row, meta, LastUseKey);
        FirstMinIndexIsFirstMin(Keys(row, meta, LastUseKey));
      case OPT =>
        assert Keys(row, NextUses(refs, i, m), NextUseKey) == NextUseRow(refs, i, row);
        FirstMaxIndexIsFirstMax(NextUseRow(refs, i, row));
    }
  }

  /** A step that never stops the engine on a well-formed state. */
  ghost predicate NeverStops(step: StepFn, refs: seq<int>, frames: nat, pages: nat)
  {
    forall i: nat, row, meta :: i < |refs| && |row| == frames && RowOk(row, pages) && |meta| == pages ==> step(i, row, meta).Some?
  }

  /** The engine's step stops only at an unknown policy. */
  lemma StepOfNeverStops(policy: Policy, refs: seq<int>, frames: nat, pages: nat)
    requires 1 <= frames && RefsOk(refs, pages) && policy != Other
    ensures NeverStops(StepOf(policy, refs), refs, frames, pages)
  {
    forall i: nat, row, meta | i < |refs| && |row| == frames && RowOk(row, pages) && |meta| == pages
      ensures StepOf(policy, refs)(i, row, meta).Some?
    {
      assert Step(policy, refs, i, row, meta).Some?;
    }
  }

  /** A replay whose steps never stop records every step. */
  lemma {:induction false} ReplayNeverStops(step: StepFn, refs: seq<int>, frames: nat, pages: nat, n: nat)
    requires StepsOk(step, frames, pages) && NeverStops(step, refs, frames, pages) && n <= |refs|
    ensures !ReplayBy(step, frames, pages, n).aborted && |ReplayBy(step, frames, pages, n).rows| == n
  {
    if n > 0 {
      ReplayNeverStops(step, refs, frames, pages, n - 1);
    }
  }

  /** Under one of the four policies the replay never stops: every step is
      recorded. */
  lemma KnownPolicyRuns(policy: Policy, refs: seq<int>, frames: nat, pages: nat, n: nat)
    requires 1 <= frames && n <= |refs| && RefsOk(refs, pages) && policy != Other
    ensures !Run(policy, refs, frames, pages, n).aborted && |Run(policy, refs, frames, pages, n).rows| == n
  {
    StepOfOk(policy, refs, frames, pages);
    StepOfNeverStops(policy, refs, frames, pages);
    ReplayNeverStops(StepOf(policy, refs), refs, frames, pages, n);
  }

  /** Every row a replay leaves is well formed: empty slots or valid pages,
      occupied slots first, no page twice. */
  lemma {:induction false} ReplayRowsOk(step: StepFn, frames: nat, pages: nat, n: nat)
    requires StepsOk(step, frames, pages)
    ensures forall k :: 0 <= k < |ReplayBy(step, frames, pages, n).rows| ==>
      RowOk(ReplayBy(step, frames, pages, n).rows[k], pages)
  {
    if n > 0 {
      ReplayRowsOk(step, frames, pages, n - 1);
    }
  }

  /** Later steps never rewrite earlier ones: row and record `k` of a replay
      are row and record `k` of the replay of any first `n > k` steps. */
  lemma {:induction false} ReplayPrefix(step: StepFn, frames: nat, pages: nat, n: nat, m: nat, k: nat)
    requires StepsOk(step, frames, pages) && k < n <= m
    requires k < |ReplayBy(step, frames, pages, m).rows|
    ensures k < |ReplayBy(step, frames, pages, n).rows|
    ensures ReplayBy(step, frames, pages, m).rows[k] == ReplayBy(step, frames, pages, n).rows[k]
    ensures ReplayBy(step, frames, pages, m).outs[k] == ReplayBy(step, frames, pages, n).outs[k]
    decreases m - n
  {
    if n < m {
      ReplayPrefix(step, frames, pages, n, m - 1, k);
    }
  }

  /** A replay that recorded step `k` ran every step before it, and its row and
      record `k` are those of the replay that stops right after step `k`. */
  lemma ReplayStep(step: StepFn, frames: nat, pages: nat, n: nat, k: nat)
    requires StepsOk(step, frames, pages)
    requires k < |ReplayBy(step, frames, pages, n).rows|
    ensures !ReplayBy(step, frames, pages, k).aborted && k < |ReplayBy(step, frames, pages, k + 1).rows|
    ensures ReplayBy(step, frames, pages, n).rows[k] == ReplayBy(step, frames, pages, k + 1).rows[k]
    ensures ReplayBy(step, frames, pages, n).outs[k] == ReplayBy(step, frames, pages, k + 1).outs[k]
  {
    ReplayPrefix(step, frames, pages, k + 1, n, k);
  }

  /** After a completed step the referenced page is resident in the slot the
      step records. */
  lemma RunResident(policy: Policy, refs: seq<int>, frames: nat, pages: nat, n: nat)
    requires 1 <= frames && 1 <= n <= |refs| && RefsOk(refs, pages)
    requires !Run(policy, refs, frames, pages, n).aborted
    ensures var R := Run(policy, refs, frames, pages, n);
      0 <= R.outs[n - 1].called < frames && R.row[R.outs[n - 1].called] == refs[n - 1]
  {
    var A := Run(policy, refs, frames, pages, n - 1);
    RunLast(policy, refs, frames, pages, n);
    StepRowOk(policy, refs, n - 1, A.row, A.meta);
  }

  /** The last step of a run that did not stop is the engine's step from the
      state the run before it left. */
  lemma RunLast(policy: Policy, refs: seq<int>, frames: nat, pages: nat, n: nat)
    requires 1 <= frames && 1 <= n <= |refs| && RefsOk(refs, pages)
    requires !Run(policy, refs, frames, pages, n).aborted
    ensures var A := Run(policy, refs, frames, pages, n - 1);
      var R := Run(policy, refs, frames, pages, n);
      !A.aborted && Step(policy, refs, n - 1, A.row, A.meta).Some? &&
      R.row == Step(policy, refs, n - 1, A.row, A.meta).value.row &&
      R.outs[n - 1] == Step(policy, refs, n - 1, A.row, A.meta).value.out
  {
    StepOfOk(policy, refs, frames, pages);
    ReplayLast(StepOf(policy, refs), frames, pages, n);
  }

  /** The last step of a replay that did not stop is its step from the state
      the replay before it left. */
  lemma ReplayLast(step: StepFn, frames: nat, pages: nat, n: nat)
    requires StepsOk(step, frames, pages) && 1 <= n
    requires !ReplayBy(step, frames, pages, n).aborted
    ensures var A := ReplayBy(step, frames, pages, n - 1);
      var R := ReplayBy(step, frames, pages, n);
      !A.aborted && step(n - 1, A.row, A.meta).Some? &&
      R.row == step(n - 1, A.row, A.meta).value.row &&
      R.outs[n - 1] == step(n - 1, A.row, A.meta).value.out
  {
  }

  /** Extending a replay whose current row holds the referenced page records a
      hit on that slot and keeps the row. */
  lemma ExtendHit(policy: Policy, refs: seq<int>, frames: nat, pages: nat, n: nat, r: Replay, k: nat)
    requires 1 <= frames && n < |refs| && RefsOk(refs, pages) && Shaped(r, frames, pages)
    requires !r.aborted && |r.rows| == n
    requires k < frames && r.row[k] == refs[n]
    ensures var r' := Extend(policy, refs, frames, pages, n, r);
      !r'.aborted && r'.outs[n] == Outcome(false, -1, k) && r'.rows[n] == r.row
  {
    StepHit(policy, refs, n, r.row, r.meta, k);
  }

  /** Row and record `k` of a run are those of the run that stops right after
      step `k`, which ran every step before it. */
  lemma RunPrefix(policy: Policy, refs: seq<int>, frames: nat, pages: nat, n: nat, k: nat)
    requires 1 <= frames && n <= |refs| && RefsOk(refs, pages)
    requires k < |Run(policy, refs, frames, pages, n).rows|
    ensures !Run(policy, refs, frames, pages, k).aborted && k < |Run(policy, refs, frames, pages, k + 1).rows|
    ensures Run(policy, refs, frames, pages, n).rows[k] == Run(policy, refs, frames, pages, k + 1).rows[k]
    ensures Run(policy, refs, frames, pages, n).outs[k] == Run(policy, refs, frames, pages, k + 1).outs[k]
  {
    StepOfOk(policy, refs, frames, pages);
    ReplayStep(StepOf(policy, refs), frames, pages, n, k);
  }

  /** A page referenced twice in a row is a hit the second time: nothing is
      removed, the row stays, and the step records the slot the page was put in
      the step before. */
  lemma RereferenceHits(policy: Policy, refs: seq<int>, frames: nat, pages: nat, n: nat, i: nat)
    requires 1 <= frames && n <= |refs| && RefsOk(refs, pages)
    requires 1 <= i < |Run(policy, refs, frames, pages, n).rows| && refs[i] == refs[i - 1]
    ensures var F := Run(policy, refs, frames, pages, n);
      F.outs[i] == Outcome(false, -1, F.outs[i - 1].called) && F.rows[i] == F.rows[i - 1]
  {
    RunPrefix(policy, refs, frames, pages, n, i);
    RunPrefix(policy, refs, frames, pages, n, i - 1);
    var B := Run(policy, refs, frames, pages, i);
    RunExtends(policy, refs, frames, pages, i);
    RunResident(policy, refs, frames, pages, i);
    ExtendHit(policy, refs, frames, pages, i, B, B.outs[i - 1].called);
  }
}
