// The replacement simulation as values: one step of the replay, the replay of a
// prefix of the reference string, and the scans the engine performs over a row
// of physical slots.

module Paging {
  import opened Frames

  /** The policy named by the caller; `Other` is any name the engine does not know. */
  datatype Policy = FIFO | OPT | LFU | LRU | Other

  /** The engine compares the caller's string against the four names. */
  function PolicyOf(name: string): (p: Policy)
    ensures p != Other <==> name in {"FIFO", "OPT", "LFU", "LRU"}
  {
    if name == "FIFO" then FIFO
    else if name == "OPT" then OPT
    else if name == "LFU" then LFU
    else if name == "LRU" then LRU
    else Other
  }

  /** Marks an empty physical slot. */
  const EmptySlot: int := -1

  /** What one step records: whether it faulted, the evicted page (-1 for none)
      and the slot the referenced page ends up in. */
  datatype Outcome = Outcome(fault: bool, removed: int, called: int)

  /** The value every step holds after a reset, before it is simulated. */
  const Pending: Outcome := Outcome(true, -1, -1)

  /** Every reference names a virtual page. */
  predicate RefsOk(refs: seq<int>, pages: nat)
  {
    forall j :: 0 <= j < |refs| ==> 0 <= refs[j] < pages
  }

  /** A row of physical slots as the engine keeps it: each slot empty or a valid
      page, the occupied slots form a prefix, and no page is resident twice. */
  predicate RowOk(row: seq<int>, pages: nat)
  {
    (forall c :: 0 <= c < |row| ==> row[c] == EmptySlot || 0 <= row[c] < pages) &&
    (forall c, d :: 0 <= c < d < |row| && row[c] == EmptySlot ==> row[d] == EmptySlot) &&
    (forall c, d :: 0 <= c < d < |row| && row[d] != EmptySlot ==> row[c] != row[d])
  }

  function EmptyRow(frames: nat): (row: seq<int>)
    ensures |row| == frames && forall c :: 0 <= c < frames ==> row[c] == EmptySlot
  {
    seq(frames, _ => EmptySlot)
  }

  function FreshMetas(pages: nat): (ms: seq<Meta>)
    ensures |ms| == pages && forall v :: 0 <= v < pages ==> ms[v] == FreshMeta
  {
    seq(pages, _ => FreshMeta)
  }

  /** The smallest index holding `x`, or -1 when `x` does not occur. */
  function FirstIndex(s: seq<int>, x: int): (k: int)
    ensures -1 <= k < |s|
    ensures 0 <= k ==> s[k] == x
    ensures forall j :: 0 <= j < |s| && (k == -1 || j < k) ==> s[j] != x
  {
    if |s| == 0 then -1
    else if s[0] == x then 0
    else
      var k := FirstIndex(s[1..], x);
      if k == -1 then -1 else k + 1
  }

  /** The left-to-right scan with a strict `<`; `FirstMinIndexIsFirstMin`
      states what it finds. */
  function FirstMinIndex(s: seq<int>): (k: nat)
    requires |s| > 0
    ensures k < |s|
  {
    if |s| == 1 then 0
    else
      var k := FirstMinIndex(s[..|s| - 1]);
      if s[|s| - 1] < s[k] then |s| - 1 else k
  }

  /** The left-to-right scan with a strict `>`; `FirstMaxIndexIsFirstMax`
      states what it finds. */
  function FirstMaxIndex(s: seq<int>): (k: nat)
    requires |s| > 0
    ensures k < |s|
  {
    if |s| == 1 then 0
    else
      var k := FirstMaxIndex(s[..|s| - 1]);
      if s[|s| - 1] > s[k] then |s| - 1 else k
  }

  /** Index `k` holds a minimum of `s` and no earlier index does. */
  predicate IsFirstMin(s: seq<int>, k: int)
  {
    0 <= k < |s| && (forall j :: 0 <= j < |s| ==> s[k] <= s[j]) && (forall j :: 0 <= j < k ==> s[k] < s[j])
  }

  /** Index `k` holds a maximum of `s` and no earlier index does. */
  predicate IsFirstMax(s: seq<int>, k: int)
  {
    0 <= k < |s| && (forall j :: 0 <= j < |s| ==> s[j] <= s[k]) && (forall j :: 0 <= j < k ==> s[j] < s[k])
  }

  /** The scan with a strict `<` finds the first minimum. */
  lemma {:induction false} FirstMinIndexIsFirstMin(s: seq<int>)
    requires |s| > 0
    ensures IsFirstMin(s, FirstMinIndex(s))
  {
    if |s| > 1 {
      var t := s[..|s| - 1];
      FirstMinIndexIsFirstMin(t);
      assert forall j :: 0 <= j < |t| ==> t[j] == s[j];
    }
  }

  /** The scan with a strict `>` finds the first maximum. */
  lemma {:induction false} FirstMaxIndexIsFirstMax(s: seq<int>)
    requires |s| > 0
    ensures IsFirstMax(s, FirstMaxIndex(s))
  {
    if |s| > 1 {
      var t := s[..|s| - 1];
      FirstMaxIndexIsFirstMax(t);
      assert forall j :: 0 <= j < |t| ==> t[j] == s[j];
    }
  }

  /** A sequence has only one first minimum, so `IsFirstMin` pins the scan's
      result down. */
  lemma FirstMinUnique(s: seq<int>, k: int, k': int)
    requires IsFirstMin(s, k) && IsFirstMin(s, k')
    ensures k == k'
  {
    assert s[k] == s[k'];
  }

  /** A sequence has only one first maximum. */
  lemma FirstMaxUnique(s: seq<int>, k: int, k': int)
    requires IsFirstMax(s, k) && IsFirstMax(s, k')
    ensures k == k'
  {
    assert s[k] == s[k'];
  }

  /** One more step of the scan for the first minimum. */
  lemma FirstMinIndexExtend(s: seq<int>, i: nat)
    requires 1 <= i < |s|
    ensures FirstMinIndex(s[..i + 1]) == if s[i] < s[FirstMinIndex(s[..i])] then i else FirstMinIndex(s[..i])
  {
    assert s[..i + 1][..i] == s[..i];
  }

  /** One more step of the scan for the first maximum. */
  lemma FirstMaxIndexExtend(s: seq<int>, i: nat)
    requires 1 <= i < |s|
    ensures FirstMaxIndex(s[..i + 1]) == if s[i] > s[FirstMaxIndex(s[..i])] then i else FirstMaxIndex(s[..i])
  {
    assert s[..i + 1][..i] == s[..i];
  }

  /** The metadata fields the policies compare. */
  function InsertedKey(m: Meta): int { m.inserted }
  function NextUseKey(m: Meta): int { m.nextUse }
  function LastUseKey(m: Meta): int { m.lastUse }
  function TimesUsedKey(m: Meta): int { m.timesUsed }

  /** The compared field of the page resident in each slot of a full row. */
  function Keys(row: seq<int>, meta: seq<Meta>, key: Meta -> int): (ks: seq<int>)
    requires forall c :: 0 <= c < |row| ==> 0 <= row[c] < |meta|
    ensures |ks| == |row| && forall c :: 0 <= c < |row| ==> ks[c] == key(meta[row[c]])
  {
    seq(|row|, c requires 0 <= c < |row| => key(meta[row[c]]))
  }

  /** The first step at or after `n` that references `v`, or one past the length
      of the string when there is none. */
  function NextUse(refs: seq<int>, n: nat, v: int): (u: nat)
    ensures u == |refs| + 1 || (n <= u < |refs| && refs[u] == v)
    ensures forall j :: n <= j < |refs| && j < u ==> refs[j] != v
    decreases |refs| - n
  {
    if n >= |refs| then |refs| + 1
    else if refs[n] == v then n
    else NextUse(refs, n + 1, v)
  }

  /** Every page's next use recomputed from step `n` on; nothing else changes. */
  function NextUses(refs: seq<int>, n: nat, meta: seq<Meta>): (ms: seq<Meta>)
    ensures |ms| == |meta|
    ensures forall v :: 0 <= v < |meta| ==> ms[v] == meta[v].(nextUse := NextUse(refs, n, v))
  {
    seq(|meta|, v requires 0 <= v < |meta| => meta[v].(nextUse := NextUse(refs, n, v)))
  }

  /** The bookkeeping done for the referenced page before the slots are searched. */
  function Touch(policy: Policy, meta: seq<Meta>, p: nat, i: nat): (m: seq<Meta>)
    requires p < |meta|
    ensures |m| == |meta|
    ensures forall v :: 0 <= v < |meta| && v != p ==> m[v] == meta[v]
  {
    match policy
    case LRU => meta[p := meta[p].(lastUse := i)]
    case LFU => meta[p := meta[p].(timesUsed := meta[p].timesUsed + 1)]
    case _ => meta
  }

  /** The state after one step. */
  datatype Next = Next(row: seq<int>, meta: seq<Meta>, out: Outcome)

  /** Step `i` of the replay, from the slot row and metadata it starts with:
      the policy's bookkeeping on the referenced page, then the placement. */
  function Step(policy: Policy, refs: seq<int>, i: nat, row: seq<int>, meta: seq<Meta>): (r: Option<Next>)
    requires i < |refs| && RefsOk(refs, |meta|) && RowOk(row, |meta|) && |row| >= 1
    ensures r.None? <==> policy == Other && FirstIndex(row, refs[i]) == -1 && FirstIndex(row, EmptySlot) == -1
    ensures r.Some? ==> |r.value.row| == |row| && |r.value.meta| == |meta|
  {
    Place(policy, refs, i, row, Touch(policy, meta, refs[i], i))
  }

  /** The placement of the page referenced at step `i` once the bookkeeping has
      given `meta`: a hit records the slot that holds it, a miss with a free slot
      loads it into the first one, and a miss on a full row evicts the policy's
      victim. None when an unknown policy has to evict. */
  function Place(policy: Policy, refs: seq<int>, i: nat, row: seq<int>, meta: seq<Meta>): (r: Option<Next>)
    requires i < |refs| && RefsOk(refs, |meta|) && RowOk(row, |meta|) && |row| >= 1
    ensures r.None? ==> policy == Other
    ensures r.Some? ==> |r.value.row| == |row| && |r.value.meta| == |meta|
  {
    var p := refs[i];
    var empty := FirstIndex(row, EmptySlot);
    var inMemory := FirstIndex(row, p);
    if inMemory != -1 then
      Some(Next(row, meta, Outcome(false, -1, inMemory)))
    else if empty >= 0 then
      Some(Next(row[empty := p], meta[p := meta[p].(inserted := i)], Outcome(true, -1, empty)))
    else
      match Victim(policy, refs, i, row, meta)
      case None => None
      case Some((k, m')) => Some(Next(row[k := p], m', Outcome(true, row[k], k)))
  }

  /** The eviction branch's choice on a full row: the slot to evict and the
      metadata after the policy's own bookkeeping (FIFO records the load of the
      referenced page, OPT recomputes every next use). None for an unknown
      policy. */
  function Victim(policy: Policy, refs: seq<int>, i: nat, row: seq<int>, meta: seq<Meta>): (r: Option<(nat, seq<Meta>)>)
    requires i < |refs| && RefsOk(refs, |meta|) && |row| >= 1
    requires forall c :: 0 <= c < |row| ==> 0 <= row[c] < |meta|
    ensures r.None? <==> policy == Other
    ensures r.Some? ==> r.value.0 < |row| && |r.value.1| == |meta|
  {
    match policy
    case FIFO =>
      var p := refs[i];
      Some((FirstMinIndex(Keys(row, meta, InsertedKey)), meta[p := meta[p].(inserted := i)]))
    case OPT =>
      var m := NextUses(refs, i, meta);
      Some((FirstMaxIndex(Keys(row, m, NextUseKey)), m))
    case LFU => Some((FirstMinIndex(Keys(row, meta, TimesUsedKey)), meta))
    case LRU => Some((FirstMinIndex(Keys(row, meta, LastUseKey)), meta))
    case Other => None
  }

  datatype Option<T> = None | Some(value: T)

  /** A replay of a prefix of the reference string: the row left by each completed
      step, what each step recorded, the current row and metadata, and whether the
      replay stopped at an unknown policy. */
  datatype Replay = Replay(rows: seq<seq<int>>, outs: seq<Outcome>, row: seq<int>, meta: seq<Meta>, aborted: bool)

  /** The row and metadata shapes every replay keeps. */
  predicate Shaped(r: Replay, frames: nat, pages: nat)
  {
    |r.outs| == |r.rows| && |r.row| == frames && RowOk(r.row, pages) && |r.meta| == pages &&
    (forall k :: 0 <= k < |r.rows| ==> |r.rows[k]| == frames) &&
    (|r.rows| > 0 ==> r.row == r.rows[|r.rows| - 1])
  }

  /** The replay before the first step: an empty table and fresh frames. */
  function Start(frames: nat, pages: nat): (r: Replay)
    ensures Shaped(r, frames, pages) && r.rows == [] && r.outs == [] && !r.aborted
    ensures forall c :: 0 <= c < frames ==> r.row[c] == EmptySlot
    ensures forall v :: 0 <= v < pages ==> r.meta[v] == FreshMeta
  {
    Replay([], [], EmptyRow(frames), FreshMetas(pages), false)
  }

  /** One step of some replacement engine: from the step index, the row and the
      metadata it starts with, the state after the step, or None when the engine
      stops there. */
  type StepFn = (nat, seq<int>, seq<Meta>) -> Option<Next>

  /** A step that keeps rows and metadata in shape. */
  ghost predicate StepsOk(step: StepFn, frames: nat, pages: nat)
  {
    forall i: nat, row, meta :: |row| == frames && RowOk(row, pages) && |meta| == pages && step(i, row, meta).Some? ==>
      |step(i, row, meta).value.row| == frames && RowOk(step(i, row, meta).value.row, pages) &&
      |step(i, row, meta).value.meta| == pages
  }

  /** The engine's step for a policy and a reference string. */
  function StepOf(policy: Policy, refs: seq<int>): StepFn
  {
    (i: nat, row: seq<int>, meta: seq<Meta>) =>
      if i < |refs| && RefsOk(refs, |meta|) && RowOk(row, |meta|) && |row| >= 1 then Step(policy, refs, i, row, meta)
      else None
  }

  /** The engine's step keeps rows well formed whenever there is a slot. */
  lemma StepOfOk(policy: Policy, refs: seq<int>, frames: nat, pages: nat)
    requires 1 <= frames
    ensures StepsOk(StepOf(policy, refs), frames, pages)
  {
    forall i: nat, row, meta | |row| == frames && RowOk(row, pages) && |meta| == pages && StepOf(policy, refs)(i, row, meta).Some?
      ensures |StepOf(policy, refs)(i, row, meta).value.row| == frames
      ensures RowOk(StepOf(policy, refs)(i, row, meta).value.row, pages)
      ensures |StepOf(policy, refs)(i, row, meta).value.meta| == pages
    {
      StepRowOk(policy, refs, i, row, meta);
    }
  }

  /** Step `n` applied to a running replay of the first `n` steps: a step that
      stops the engine stops the replay; otherwise the step's row and outcome
      are appended. */
  function ExtendBy(step: StepFn, frames: nat, pages: nat, n: nat, r: Replay): (r': Replay)
    requires StepsOk(step, frames, pages) && Shaped(r, frames, pages) && !r.aborted && |r.rows| == n
    ensures Shaped(r', frames, pages) && |r.rows| <= |r'.rows| <= |r.rows| + 1
    ensures r'.aborted <==> |r'.rows| == |r.rows|
  {
    match step(n, r.row, r.meta)
      case None => r.(aborted := true)
      case Some(nx) => Replay(r.rows + [nx.row], r.outs + [nx.out], nx.row, nx.meta, false)
  }

  /** The first `n` steps from a reset table; once a step has stopped the
      replay, later steps leave it as it is. */
  function ReplayBy(step: StepFn, frames: nat, pages: nat, n: nat): (r: Replay)
    requires StepsOk(step, frames, pages)
    ensures Shaped(r, frames, pages)
    ensures |r.rows| <= n && (r.aborted <==> |r.rows| < n)
  {
    if n == 0 then Start(frames, pages)
    else
      var r := ReplayBy(step, frames, pages, n - 1);
      if r.aborted then r else ExtendBy(step, frames, pages, n - 1, r)
  }

  /** The engine's step `n` applied to a running replay. */
  function Extend(policy: Policy, refs: seq<int>, frames: nat, pages: nat, n: nat, r: Replay): (r': Replay)
    requires 1 <= frames && n < |refs| && RefsOk(refs, pages) && Shaped(r, frames, pages)
    requires !r.aborted && |r.rows| == n
    ensures Shaped(r', frames, pages) && |r.rows| <= |r'.rows| <= |r.rows| + 1
    ensures r'.aborted <==> |r'.rows| == |r.rows|
  {
    StepOfOk(policy, refs, frames, pages);
    ExtendBy(StepOf(policy, refs), frames, pages, n, r)
  }

  /** The first `n` steps of the simulation from a reset table. */
  function Run(policy: Policy, refs: seq<int>, frames: nat, pages: nat, n: nat): (r: Replay)
    requires 1 <= frames && n <= |refs| && RefsOk(refs, pages)
    ensures Shaped(r, frames, pages)
    ensures |r.rows| <= n && (r.aborted <==> |r.rows| < n)
  {
    StepOfOk(policy, refs, frames, pages);
    ReplayBy(StepOf(policy, refs), frames, pages, n)
  }

  /** Filling a slot with a page that is not resident keeps a row well formed,
      provided the slot is the first empty one or the row is full. */
  lemma InsertRowOk(row: seq<int>, pages: nat, k: nat, p: int)
    requires RowOk(row, pages) && 0 <= p < pages && k < |row|
    requires forall c :: 0 <= c < |row| ==> row[c] != p
    requires row[k] == EmptySlot ==> forall c :: 0 <= c < k ==> row[c] != EmptySlot
    requires row[k] != EmptySlot ==> forall c :: 0 <= c < |row| ==> row[c] != EmptySlot
    ensures RowOk(row[k := p], pages)
  {
  }

  /** Every step leaves a well-formed row holding the referenced page in the slot it records. */
  lemma StepRowOk(policy: Policy, refs: seq<int>, i: nat, row: seq<int>, meta: seq<Meta>)
    requires i < |refs| && RefsOk(refs, |meta|) && RowOk(row, |meta|) && |row| >= 1
    ensures var r := Step(policy, refs, i, row, meta);
      r.Some? ==>
        RowOk(r.value.row, |meta|) && 0 <= r.value.out.called < |row| && r.value.row[r.value.out.called] == refs[i]
  {
    var p := refs[i];
    var empty := FirstIndex(row, EmptySlot);
    var inMemory := FirstIndex(row, p);
    var r := Step(policy, refs, i, row, meta);
    if inMemory == -1 && r.Some? {
      InsertRowOk(row, |meta|, r.value.out.called, p);
    }
  }

  /** Row `r` of the table once a replay has been written out: the rows of the
      completed steps, then the current row copied forward, then empty rows. */
  function Snapshot(R: Replay, frames: nat, r: nat): (row: seq<int>)
    requires |R.row| == frames && forall k :: 0 <= k < |R.rows| ==> |R.rows[k]| == frames
    ensures |row| == frames
  {
    if r < |R.rows| then R.rows[r]
    else if r == |R.rows| then R.row
    else EmptyRow(frames)
  }

  /** What step `r` holds once a replay has been written out. */
  function Result(R: Replay, r: nat): Outcome
  {
    if r < |R.outs| then R.outs[r] else Pending
  }

  /** The fault flags of the recorded steps. */
  function Faults(outs: seq<Outcome>): (fs: seq<bool>)
    ensures |fs| == |outs| && forall k :: 0 <= k < |outs| ==> fs[k] == outs[k].fault
  {
    seq(|outs|, k requires 0 <= k < |outs| => outs[k].fault)
  }

  /** The number of faulting steps. */
  function FaultCount(flags: seq<bool>): (n: nat)
    ensures n == multiset(flags)[true]
  {
    if |flags| == 0 then 0
    else
      assert flags == flags[..|flags| - 1] + [flags[|flags| - 1]];
      FaultCount(flags[..|flags| - 1]) + (if flags[|flags| - 1] then 1 else 0)
  }
}
