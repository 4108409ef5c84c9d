// When the physical frames can hold every page the string references, the
// table only ever fills up: no step evicts, and each page faults once, on its
// first reference.

module Capacity {
  import opened Frames
  import opened Paging
  import opened PagingFacts

  /** The pages referenced by the first `n` steps. */
  function Seen(refs: seq<int>, n: nat): set<int>
    requires n <= |refs|
  {
    set j | 0 <= j < n :: refs[j]
  }

  /** `Seen` holds exactly the pages among the first `n` references. */
  lemma SeenIsPrefix(refs: seq<int>, n: nat)
    requires n <= |refs|
    ensures forall v :: v in Seen(refs, n) <==> v in refs[..n]
  {
    forall v | v in refs[..n]
      ensures v in Seen(refs, n)
    {
      var j :| 0 <= j < n && refs[..n][j] == v;
      assert refs[j] == v;
    }
  }

  /** One more step adds its page to the pages seen, and the count grows by one
      exactly when the page is new. */
  lemma SeenStep(refs: seq<int>, n: nat)
    requires 0 < n <= |refs|
    ensures Seen(refs, n) == Seen(refs, n - 1) + {refs[n - 1]}
    ensures |Seen(refs, n)| == |Seen(refs, n - 1)| + if refs[n - 1] in Seen(refs, n - 1) then 0 else 1
  {
    var S := Seen(refs, n - 1);
    assert Seen(refs, n) == S + {refs[n - 1]};
    if refs[n - 1] in S {
      assert S + {refs[n - 1]} == S;
    } else {
      assert S * {refs[n - 1]} == {};
    }
  }

  /** A row holds exactly the pages of `S`, in its first `|S|` slots; the rest
      are empty. */
  predicate Holds(row: seq<int>, S: set<int>)
  {
    |S| <= |row| && EmptySlot !in S &&
    (forall c :: 0 <= c < |row| ==> (c < |S| <==> row[c] != EmptySlot)) &&
    (forall c :: 0 <= c < |row| && row[c] != EmptySlot ==> row[c] in S) &&
    (forall v :: v in S ==> v in row)
  }

  /** With room for the referenced page, a step never evicts: a page already
      held is a hit and a new page goes into the next free slot, faulting. */
  lemma StepWithRoom(policy: Policy, refs: seq<int>, i: nat, row: seq<int>, meta: seq<Meta>, S: set<int>)
    requires i < |refs| && RefsOk(refs, |meta|) && RowOk(row, |meta|) && |row| >= 1
    requires Holds(row, S) && |S + {refs[i]}| <= |row|
    ensures var r := Step(policy, refs, i, row, meta);
      r.Some? && Holds(r.value.row, S + {refs[i]}) && r.value.out.removed == -1 &&
      (r.value.out.fault <==> refs[i] !in S)
  {
    var p := refs[i];
    if p in S {
      var k :| 0 <= k < |row| && row[k] == p;
      StepHit(policy, refs, i, row, meta, k);
      assert S + {p} == S;
    } else {
      assert S * {p} == {};
      var k := |S|;
      StepFreeSlot(policy, refs, i, row, meta, k);
      var row' := row[k := p];
      forall v | v in S + {p}
        ensures v in row'
      {
        if v != p {
          var c :| 0 <= c < |row| && row[c] == v;
          assert row'[c] == v;
        } else {
          assert row'[k] == v;
        }
      }
    }
  }

  /** A step that, with room for the referenced page, never evicts and faults
      only on pages not referenced before. */
  ghost predicate NeverEvictsWithRoom(step: StepFn, refs: seq<int>, frames: nat, pages: nat)
  {
    forall i: nat, row, meta {:trigger step(i, row, meta)} ::
      i < |refs| && |row| == frames && RowOk(row, pages) && |meta| == pages &&
      Holds(row, Seen(refs, i)) && |Seen(refs, i + 1)| <= frames ==>
        step(i, row, meta).Some? && Holds(step(i, row, meta).value.row, Seen(refs, i + 1)) &&
        step(i, row, meta).value.out.removed == -1 &&
        (step(i, row, meta).value.out.fault <==> refs[i] !in Seen(refs, i))
  }

  /** The engine's step is such a step, whatever the policy. */
  lemma StepOfWithRoom(policy: Policy, refs: seq<int>, frames: nat, pages: nat)
    requires 1 <= frames && RefsOk(refs, pages)
    ensures NeverEvictsWithRoom(StepOf(policy, refs), refs, frames, pages)
  {
    forall i: nat, row, meta |
      i < |refs| && |row| == frames && RowOk(row, pages) && |meta| == pages &&
      Holds(row, Seen(refs, i)) && |Seen(refs, i + 1)| <= frames
      ensures StepOf(policy, refs)(i, row, meta).Some?
      ensures Holds(StepOf(policy, refs)(i, row, meta).value.row, Seen(refs, i + 1))
      ensures StepOf(policy, refs)(i, row, meta).value.out.removed == -1
      ensures StepOf(policy, refs)(i, row, meta).value.out.fault <==> refs[i] !in Seen(refs, i)
    {
      SeenStep(refs, i + 1);
      StepWithRoom(policy, refs, i, row, meta, Seen(refs, i));
    }
  }

  /** One step of a replay with room for its page. */
  lemma ReplayWithRoomStep(step: StepFn, refs: seq<int>, frames: nat, pages: nat, n: nat)
    requires StepsOk(step, frames, pages) && NeverEvictsWithRoom(step, refs, frames, pages)
    requires 0 < n <= |refs| && |Seen(refs, n)| <= frames
    requires !ReplayBy(step, frames, pages, n - 1).aborted
    requires Holds(ReplayBy(step, frames, pages, n - 1).row, Seen(refs, n - 1))
    ensures !ReplayBy(step, frames, pages, n).aborted
    ensures Holds(ReplayBy(step, frames, pages, n).row, Seen(refs, n))
    ensures ReplayBy(step, frames, pages, n).outs ==
      ReplayBy(step, frames, pages, n - 1).outs + [ReplayBy(step, frames, pages, n).outs[n - 1]]
    ensures ReplayBy(step, frames, pages, n).outs[n - 1].removed == -1
    ensures ReplayBy(step, frames, pages, n).outs[n - 1].fault <==> refs[n - 1] !in Seen(refs, n - 1)
  {
    var R := ReplayBy(step, frames, pages, n - 1);
    assert step(n - 1, R.row, R.meta).Some?;
  }

  /** A replay with room for every page it references never stops and never
      evicts: its row holds exactly the pages seen so far, and a step faults
      exactly when its page was not referenced before. */
  lemma {:induction false} ReplayWithRoom(step: StepFn, refs: seq<int>, frames: nat, pages: nat, n: nat)
    requires StepsOk(step, frames, pages) && NeverEvictsWithRoom(step, refs, frames, pages)
    requires n <= |refs| && |Seen(refs, n)| <= frames
    ensures !ReplayBy(step, frames, pages, n).aborted && |ReplayBy(step, frames, pages, n).rows| == n
    ensures Holds(ReplayBy(step, frames, pages, n).row, Seen(refs, n))
    ensures forall k :: 0 <= k < n ==> ReplayBy(step, frames, pages, n).outs[k].removed == -1
    ensures forall k {:trigger ReplayBy(step, frames, pages, n).outs[k]} :: 0 <= k < n ==>
      (ReplayBy(step, frames, pages, n).outs[k].fault <==> refs[k] !in Seen(refs, k))
  {
    if n > 0 {
      SeenStep(refs, n);
      ReplayWithRoom(step, refs, frames, pages, n - 1);
      ReplayWithRoomStep(step, refs, frames, pages, n);
    }
  }

  /** Hence such a replay faults once per distinct page. */
  lemma {:induction false} ReplayFaultsOnce(step: StepFn, refs: seq<int>, frames: nat, pages: nat, n: nat)
    requires StepsOk(step, frames, pages) && NeverEvictsWithRoom(step, refs, frames, pages)
    requires n <= |refs| && |Seen(refs, n)| <= frames
    ensures FaultCount(Faults(ReplayBy(step, frames, pages, n).outs)) == |Seen(refs, n)|
  {
    if n > 0 {
      SeenStep(refs, n);
      ReplayFaultsOnce(step, refs, frames, pages, n - 1);
      ReplayWithRoom(step, refs, frames, pages, n);
      ReplayWithRoom(step, refs, frames, pages, n - 1);
      var fs := Faults(ReplayBy(step, frames, pages, n).outs);
      assert fs[..n - 1] == Faults(ReplayBy(step, frames, pages, n - 1).outs);
    }
  }

  /** When the frames can hold every distinct page of the first `n` references,
      whatever the policy (even one the engine does not know, since it never
      has to choose a victim): every step is recorded, none removes a page, a
      step faults exactly on a page's first reference, and the number of faults
      is the number of distinct pages. */
  lemma FewPages(policy: Policy, refs: seq<int>, frames: nat, pages: nat, n: nat)
    requires 1 <= frames && n <= |refs| && RefsOk(refs, pages) && |Seen(refs, n)| <= frames
    ensures !Run(policy, refs, frames, pages, n).aborted && |Run(policy, refs, frames, pages, n).rows| == n
    ensures forall k :: 0 <= k < n ==> Run(policy, refs, frames, pages, n).outs[k].removed == -1
    ensures forall k :: 0 <= k < n ==> (Run(policy, refs, frames, pages, n).outs[k].fault <==> refs[k] !in refs[..k])
    ensures FaultCount(Faults(Run(policy, refs, frames, pages, n).outs)) == |Seen(refs, n)|
  {
    StepOfOk(policy, refs, frames, pages);
    StepOfWithRoom(policy, refs, frames, pages);
    ReplayWithRoom(StepOf(policy, refs), refs, frames, pages, n);
    ReplayFaultsOnce(StepOf(policy, refs), refs, frames, pages, n);
    forall k | 0 <= k < n
      ensures refs[k] in Seen(refs, k) <==> refs[k] in refs[..k]
    {
      SeenIsPrefix(refs, k);
    }
  }
}
