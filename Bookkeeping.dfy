// What the per-page metadata means after a replay: the LFU count, the LRU
// last-use step and the load step FIFO compares.

module Bookkeeping {
  import opened Frames
  import opened Paging
  import opened PagingFacts

  /** The last step before `n` that references `v`, or -1 when there is none. */
  function LastRef(refs: seq<int>, n: nat, v: int): (j: int)
    requires n <= |refs|
    ensures -1 <= j < n && (0 <= j ==> refs[j] == v)
    ensures forall k :: j < k < n ==> refs[k] != v
  {
    if n == 0 then -1
    else if refs[n - 1] == v then n - 1
    else LastRef(refs, n - 1, v)
  }

  /** How often `v` occurs among the first `n` references, one step at a time. */
  lemma CountStep(refs: seq<int>, n: nat, v: int)
    requires 0 < n <= |refs|
    ensures multiset(refs[..n])[v] == multiset(refs[..n - 1])[v] + (if refs[n - 1] == v then 1 else 0)
  {
    assert refs[..n] == refs[..n - 1] + [refs[n - 1]];
  }

  /** How often `v` occurs among the first `n` references, counted step by step
      as the LFU bookkeeping counts it. */
  function Occurrences(refs: seq<int>, n: nat, v: int): (c: nat)
    requires n <= |refs|
    ensures c == multiset(refs[..n])[v]
  {
    if n == 0 then 0
    else
      CountStep(refs, n, v);
      Occurrences(refs, n - 1, v) + if refs[n - 1] == v then 1 else 0
  }

  /** The last reference before `n`, one step at a time. */
  lemma LastRefStep(refs: seq<int>, n: nat, v: int)
    requires 0 < n <= |refs|
    ensures LastRef(refs, n, v) == if refs[n - 1] == v then n - 1 else LastRef(refs, n - 1, v)
  {
  }

  /** One step changes the counters only through the policy's bookkeeping on the
      referenced page: LFU adds one to its count, LRU sets its last use to the
      step. The placement itself never touches them. */
  lemma StepCounters(policy: Policy, refs: seq<int>, i: nat, row: seq<int>, meta: seq<Meta>, v: nat)
    requires i < |refs| && RefsOk(refs, |meta|) && RowOk(row, |meta|) && |row| >= 1 && v < |meta|
    requires Step(policy, refs, i, row, meta).Some?
    ensures var m := Step(policy, refs, i, row, meta).value.meta;
      m[v].timesUsed == meta[v].timesUsed + (if policy == LFU && v == refs[i] then 1 else 0) &&
      m[v].lastUse == (if policy == LRU && v == refs[i] then i else meta[v].lastUse)
  {
  }

  /** The counters of every page. */
  function TimesUsedOf(ms: seq<Meta>): (ts: seq<int>)
    ensures |ts| == |ms| && forall v :: 0 <= v < |ms| ==> ts[v] == ms[v].timesUsed
  {
    seq(|ms|, v requires 0 <= v < |ms| => ms[v].timesUsed)
  }

  function LastUseOf(ms: seq<Meta>): (ls: seq<int>)
    ensures |ls| == |ms| && forall v :: 0 <= v < |ms| ==> ls[v] == ms[v].lastUse
  {
    seq(|ms|, v requires 0 <= v < |ms| => ms[v].lastUse)
  }

  /** A step whose counters change exactly as the policy's bookkeeping on the
      referenced page says. */
  ghost predicate CountsLike(step: StepFn, policy: Policy, refs: seq<int>, frames: nat, pages: nat)
  {
    RefsOk(refs, pages) &&
    forall i: nat, row, meta {:trigger step(i, row, meta)} :: i < |refs| && |row| == frames && RowOk(row, pages) && |meta| == pages && step(i, row, meta).Some? ==>
      TimesUsedOf(step(i, row, meta).value.meta) == TimesUsedOf(Touch(policy, meta, refs[i], i)) &&
      LastUseOf(step(i, row, meta).value.meta) == LastUseOf(Touch(policy, meta, refs[i], i))
  }

  /** The engine's step counts that way. */
  lemma StepOfCounts(policy: Policy, refs: seq<int>, frames: nat, pages: nat)
    requires 1 <= frames && RefsOk(refs, pages)
    ensures CountsLike(StepOf(policy, refs), policy, refs, frames, pages)
  {
    forall i: nat, row, meta {:trigger StepOf(policy, refs)(i, row, meta)} | i < |refs| && |row| == frames && RowOk(row, pages) && |meta| == pages && StepOf(policy, refs)(i, row, meta).Some?
      ensures TimesUsedOf(StepOf(policy, refs)(i, row, meta).value.meta) == TimesUsedOf(Touch(policy, meta, refs[i], i))
      ensures LastUseOf(StepOf(policy, refs)(i, row, meta).value.meta) == LastUseOf(Touch(policy, meta, refs[i], i))
    {
      forall v | 0 <= v < pages
        ensures Step(policy, refs, i, row, meta).value.meta[v].timesUsed == Touch(policy, meta, refs[i], i)[v].timesUsed
        ensures Step(policy, refs, i, row, meta).value.meta[v].lastUse == Touch(policy, meta, refs[i], i)[v].lastUse
      {
        StepCounters(policy, refs, i, row, meta, v);
      }
    }
  }

  /** Step `n - 1` of a replay whose steps count like `policy` changes the
      counters of `v` as the policy's bookkeeping says, unless the replay has
      stopped, in which case nothing changes. */
  lemma ReplayCountersStep(step: StepFn, policy: Policy, refs: seq<int>, frames: nat, pages: nat, n: nat, v: nat)
    requires StepsOk(step, frames, pages) && CountsLike(step, policy, refs, frames, pages)
    requires 0 < n <= |refs| && v < pages
    ensures var R := ReplayBy(step, frames, pages, n - 1);
      var m := ReplayBy(step, frames, pages, n).meta;
      if !R.aborted && step(n - 1, R.row, R.meta).Some? then
        m[v].timesUsed == R.meta[v].timesUsed + (if policy == LFU && v == refs[n - 1] then 1 else 0) &&
        m[v].lastUse == (if policy == LRU && v == refs[n - 1] then n - 1 else R.meta[v].lastUse)
      else m == R.meta
  {
    var R := ReplayBy(step, frames, pages, n - 1);
    if !R.aborted && step(n - 1, R.row, R.meta).Some? {
      var m := step(n - 1, R.row, R.meta).value.meta;
      var t := Touch(policy, R.meta, refs[n - 1], n - 1);
      assert TimesUsedOf(m)[v] == TimesUsedOf(t)[v];
      assert LastUseOf(m)[v] == LastUseOf(t)[v];
    }
  }

  /** Counting along a replay whose steps count like `policy`. */
  lemma {:induction false} ReplayTimesUsed(step: StepFn, policy: Policy, refs: seq<int>, frames: nat, pages: nat, n: nat, v: nat)
    requires StepsOk(step, frames, pages) && CountsLike(step, policy, refs, frames, pages)
    requires policy == LFU ==> NeverStops(step, refs, frames, pages)
    requires n <= |refs| && v < pages
    ensures ReplayBy(step, frames, pages, n).meta[v].timesUsed == if policy == LFU then Occurrences(refs, n, v) else 0
  {
    if n > 0 {
      ReplayTimesUsed(step, policy, refs, frames, pages, n - 1, v);
      if policy == LFU {
        ReplayNeverStops(step, refs, frames, pages, n - 1);
      }
      ReplayCountersStep(step, policy, refs, frames, pages, n, v);
    }
  }

  /** Recording last uses along a replay whose steps count like `policy`. */
  lemma {:induction false} ReplayLastUse(step: StepFn, policy: Policy, refs: seq<int>, frames: nat, pages: nat, n: nat, v: nat)
    requires StepsOk(step, frames, pages) && CountsLike(step, policy, refs, frames, pages)
    requires policy == LRU ==> NeverStops(step, refs, frames, pages)
    requires n <= |refs| && v < pages
    ensures ReplayBy(step, frames, pages, n).meta[v].lastUse == if policy == LRU then LastRef(refs, n, v) else -1
  {
    if n > 0 {
      ReplayLastUse(step, policy, refs, frames, pages, n - 1, v);
      if policy == LRU {
        ReplayNeverStops(step, refs, frames, pages, n - 1);
      }
      ReplayCountersStep(step, policy, refs, frames, pages, n, v);
      LastRefStep(refs, n, v);
    }
  }

  /** Under LFU a page's count is the number of times it has been referenced so
      far, whether or not it was evicted in between; the other policies never
      count. */
  lemma LfuCounts(policy: Policy, refs: seq<int>, frames: nat, pages: nat, n: nat, v: nat)
    requires 1 <= frames && n <= |refs| && RefsOk(refs, pages) && v < pages
    ensures Run(policy, refs, frames, pages, n).meta[v].timesUsed ==
      if policy == LFU then multiset(refs[..n])[v] else 0
  {
    StepOfOk(policy, refs, frames, pages);
    StepOfCounts(policy, refs, frames, pages);
    if policy == LFU {
      StepOfNeverStops(policy, refs, frames, pages);
    }
    ReplayTimesUsed(StepOf(policy, refs), policy, refs, frames, pages, n, v);
  }

  /** Under LRU a page's last use is the last step so far that referenced it, or
      -1; the other policies never record it. */
  lemma LruLastUse(policy: Policy, refs: seq<int>, frames: nat, pages: nat, n: nat, v: nat)
    requires 1 <= frames && n <= |refs| && RefsOk(refs, pages) && v < pages
    ensures Run(policy, refs, frames, pages, n).meta[v].lastUse ==
      if policy == LRU then LastRef(refs, n, v) else -1
  {
    StepOfOk(policy, refs, frames, pages);
    StepOfCounts(policy, refs, frames, pages);
    if policy == LRU {
      StepOfNeverStops(policy, refs, frames, pages);
    }
    ReplayLastUse(StepOf(policy, refs), policy, refs, frames, pages, n, v);
  }

  /** Whether a step records itself as the referenced page's load step: a load
      into a free slot does so under every policy, a load in place of a victim
      only under FIFO. */
  predicate Loads(policy: Policy, o: Outcome)
  {
    o.fault && (policy == FIFO || o.removed == -1)
  }

  /** The last recorded step that loaded `v` in that sense, or -1 when there is
      none. */
  function LastLoad(policy: Policy, refs: seq<int>, outs: seq<Outcome>, v: int): (j: int)
    requires |outs| <= |refs|
    ensures -1 <= j < |outs| && (0 <= j ==> refs[j] == v && Loads(policy, outs[j]))
    ensures forall k :: j < k < |outs| ==> !(refs[k] == v && Loads(policy, outs[k]))
  {
    if |outs| == 0 then -1
    else if refs[|outs| - 1] == v && Loads(policy, outs[|outs| - 1]) then |outs| - 1
    else LastLoad(policy, refs, outs[..|outs| - 1], v)
  }

  /** The last load, one recorded step at a time. */
  lemma LastLoadStep(policy: Policy, refs: seq<int>, outs: seq<Outcome>, o: Outcome, v: int)
    requires |outs| < |refs|
    ensures LastLoad(policy, refs, outs + [o], v) ==
      if refs[|outs|] == v && Loads(policy, o) then |outs| else LastLoad(policy, refs, outs, v)
  {
    assert (outs + [o])[..|outs|] == outs;
  }

  /** One step sets the referenced page's load step to the step exactly when the
      step loads it in the sense of `Loads`; no other load step changes. */
  lemma StepInserted(policy: Policy, refs: seq<int>, i: nat, row: seq<int>, meta: seq<Meta>, v: nat)
    requires i < |refs| && RefsOk(refs, |meta|) && RowOk(row, |meta|) && |row| >= 1 && v < |meta|
    requires Step(policy, refs, i, row, meta).Some?
    ensures var r := Step(policy, refs, i, row, meta).value;
      r.meta[v].inserted == if v == refs[i] && Loads(policy, r.out) then i else meta[v].inserted
  {
    var p := refs[i];
    if FirstIndex(row, p) == -1 && FirstIndex(row, EmptySlot) == -1 {
      var k := Step(policy, refs, i, row, meta).value.out.called;
      StepEvict(policy, refs, i, row, meta);
      assert row[k] != EmptySlot;
    }
  }

  /** The load step of every page. */
  function InsertedOf(ms: seq<Meta>): (ins: seq<int>)
    ensures |ins| == |ms| && forall v :: 0 <= v < |ms| ==> ins[v] == ms[v].inserted
  {
    seq(|ms|, v requires 0 <= v < |ms| => ms[v].inserted)
  }

  /** A step whose load steps change exactly as `StepInserted` says. */
  ghost predicate InsertsLike(step: StepFn, policy: Policy, refs: seq<int>, frames: nat, pages: nat)
  {
    RefsOk(refs, pages) &&
    forall i: nat, row, meta {:trigger step(i, row, meta)} :: i < |refs| && |row| == frames && RowOk(row, pages) && |meta| == pages && step(i, row, meta).Some? ==>
      InsertedOf(step(i, row, meta).value.meta) ==
        if Loads(policy, step(i, row, meta).value.out) then InsertedOf(meta)[refs[i] := i] else InsertedOf(meta)
  }

  /** The engine's step records loads that way. */
  lemma StepOfInserts(policy: Policy, refs: seq<int>, frames: nat, pages: nat)
    requires 1 <= frames && RefsOk(refs, pages)
    ensures InsertsLike(StepOf(policy, refs), policy, refs, frames, pages)
  {
    forall i: nat, row, meta {:trigger StepOf(policy, refs)(i, row, meta)} | i < |refs| && |row| == frames && RowOk(row, pages) && |meta| == pages && StepOf(policy, refs)(i, row, meta).Some?
      ensures InsertedOf(StepOf(policy, refs)(i, row, meta).value.meta) ==
        if Loads(policy, StepOf(policy, refs)(i, row, meta).value.out) then InsertedOf(meta)[refs[i] := i] else InsertedOf(meta)
    {
      var r := Step(policy, refs, i, row, meta).value;
      var want := if Loads(policy, r.out) then InsertedOf(meta)[refs[i] := i] else InsertedOf(meta);
      forall v | 0 <= v < pages
        ensures InsertedOf(r.meta)[v] == want[v]
      {
        StepInserted(policy, refs, i, row, meta, v);
      }
    }
  }

  /** Step `n - 1` of a replay whose steps record loads like `policy` keeps
      each load step equal to the last load recorded so far. */
  lemma ReplayInsertedStep(step: StepFn, policy: Policy, refs: seq<int>, frames: nat, pages: nat, n: nat, v: nat)
    requires StepsOk(step, frames, pages) && InsertsLike(step, policy, refs, frames, pages)
    requires 0 < n <= |refs| && v < pages
    requires ReplayBy(step, frames, pages, n - 1).meta[v].inserted ==
      LastLoad(policy, refs, ReplayBy(step, frames, pages, n - 1).outs, v)
    ensures ReplayBy(step, frames, pages, n).meta[v].inserted ==
      LastLoad(policy, refs, ReplayBy(step, frames, pages, n).outs, v)
  {
    var R := ReplayBy(step, frames, pages, n - 1);
    if !R.aborted && step(n - 1, R.row, R.meta).Some? {
      var x := step(n - 1, R.row, R.meta).value;
      var want := if Loads(policy, x.out) then InsertedOf(R.meta)[refs[n - 1] := n - 1] else InsertedOf(R.meta);
      assert InsertedOf(x.meta)[v] == want[v];
      LastLoadStep(policy, refs, R.outs, x.out, v);
    }
  }

  /** Recording loads along a replay whose steps record them like `policy`. */
  lemma {:induction false} ReplayInserted(step: StepFn, policy: Policy, refs: seq<int>, frames: nat, pages: nat, n: nat, v: nat)
    requires StepsOk(step, frames, pages) && InsertsLike(step, policy, refs, frames, pages)
    requires n <= |refs| && v < pages
    ensures ReplayBy(step, frames, pages, n).meta[v].inserted ==
      LastLoad(policy, refs, ReplayBy(step, frames, pages, n).outs, v)
  {
    if n > 0 {
      ReplayInserted(step, policy, refs, frames, pages, n - 1, v);
      ReplayInsertedStep(step, policy, refs, frames, pages, n, v);
    }
  }

  /** A page's load step is the last recorded step that loaded it: into a free
      slot under any policy, or in place of a victim under FIFO. -1 when no
      recorded step did. */
  lemma RunInserted(policy: Policy, refs: seq<int>, frames: nat, pages: nat, n: nat, v: nat)
    requires 1 <= frames && n <= |refs| && RefsOk(refs, pages) && v < pages
    ensures Run(policy, refs, frames, pages, n).meta[v].inserted ==
      LastLoad(policy, refs, Run(policy, refs, frames, pages, n).outs, v)
  {
    StepOfOk(policy, refs, frames, pages);
    StepOfInserts(policy, refs, frames, pages);
    ReplayInserted(StepOf(policy, refs), policy, refs, frames, pages, n, v);
  }

  /** Under FIFO a page's load step is the last step so far that faulted on it,
      or -1; so FIFO's victim, the first slot with the least load step, holds
      the page whose most recent fault is the earliest. */
  lemma FifoInserted(refs: seq<int>, frames: nat, pages: nat, n: nat, v: nat)
    requires 1 <= frames && n <= |refs| && RefsOk(refs, pages) && v < pages
    ensures var R := Run(FIFO, refs, frames, pages, n);
      var j := R.meta[v].inserted;
      |R.outs| == n && -1 <= j < n &&
      (0 <= j ==> refs[j] == v && R.outs[j].fault) &&
      forall k :: j < k < n ==> !(refs[k] == v && R.outs[k].fault)
  {
    RunInserted(FIFO, refs, frames, pages, n, v);
    KnownPolicyRuns(FIFO, refs, frames, pages, n);
  }
}
