/**
 * The block dumper's workers. They share an index, a counter and an array, and are switched only at an await: between a
 * claim and the completed fetch. Each step below is one uninterrupted stretch of one worker.
 */
module WorkerPool {
  import opened Base

  /** A worker that has not run yet, awaits the block of an index, has left its loop, or had its fetch rejected. */
  datatype Worker = Idle | Fetching(index: nat) | Stopped | Failed(index: nat)

  datatype Pool = Pool(nextIdx: nat, done: nat, blocks: seq<Option<Bytes>>, workers: seq<Worker>)

  /** The blocks of the chain by number. */
  type Chain = nat -> Bytes

  datatype Action = Start(worker: nat) | Resume(worker: nat) | Reject(worker: nat)

  function Initial(count: nat, concurrency: nat): Pool {
    Pool(0, 0, seq(count, _ => None), seq(concurrency, _ => Idle))
  }

  predicate Enabled(s: Pool, a: Action) {
    && a.worker < |s.workers|
    && (if a.Start? then s.workers[a.worker].Idle?
        else s.workers[a.worker].Fetching? && s.workers[a.worker].index < |s.blocks|)
  }

  /** The top of the loop: take the next index, and leave if there is none. */
  function Claim(s: Pool, w: nat): Pool
    requires w < |s.workers|
  {
    s.(nextIdx := s.nextIdx + 1,
       workers := s.workers[w := if s.nextIdx >= |s.blocks| then Stopped else Fetching(s.nextIdx)])
  }

  /** A resumed worker writes its block, counts it and goes on to claim again before anyone else runs. */
  function Next(s: Pool, a: Action, chain: Chain, start: nat): Pool
    requires Enabled(s, a)
  {
    match a
    case Start(w) => Claim(s, w)
    case Resume(w) =>
      var index := s.workers[w].index;
      Claim(s.(blocks := s.blocks[index := Some(chain(start + index))], done := s.done + 1), w)
    case Reject(w) => s.(workers := s.workers[w := Failed(s.workers[w].index)])
  }

  /** A schedule that the pool can follow from a state. */
  predicate Possible(s: Pool, actions: seq<Action>, chain: Chain, start: nat)
    decreases |actions|
  {
    actions == [] || (Enabled(s, actions[0]) && Possible(Next(s, actions[0], chain, start), actions[1..], chain, start))
  }

  function After(s: Pool, actions: seq<Action>, chain: Chain, start: nat): Pool
    requires Possible(s, actions, chain, start)
    decreases |actions|
  {
    if actions == [] then s else After(Next(s, actions[0], chain, start), actions[1..], chain, start)
  }

  // ----- What every interleaving keeps -----

  function Filled(blocks: seq<Option<Bytes>>): nat {
    if blocks == [] then 0 else Filled(blocks[..|blocks| - 1]) + if blocks[|blocks| - 1].Some? then 1 else 0
  }

  /** The index that a worker has claimed and not filled. */
  function Held(w: Worker): Option<nat> {
    if w.Fetching? || w.Failed? then Some(w.index) else None
  }

  ghost predicate HeldBySome(s: Pool, i: nat) {
    exists w :: 0 <= w < |s.workers| && Held(s.workers[w]) == Some(i)
  }

  /** Filled slots hold the right block; every other claimed index is held by exactly one worker. */
  ghost predicate Claimed(s: Pool, chain: Chain, start: nat) {
    && (forall i :: 0 <= i < |s.blocks| && s.blocks[i].Some? ==>
          i < s.nextIdx && s.blocks[i].value == chain(start + i))
    && (forall i :: 0 <= i < |s.blocks| && i < s.nextIdx && s.blocks[i].None? ==> HeldBySome(s, i))
    && (forall w :: 0 <= w < |s.workers| && Held(s.workers[w]).Some? ==>
          var i := Held(s.workers[w]).value; i < s.nextIdx && i < |s.blocks| && s.blocks[i].None?)
    && (forall v, w :: 0 <= v < w < |s.workers| && Held(s.workers[v]).Some? ==>
          Held(s.workers[v]) != Held(s.workers[w]))
    && (forall w :: 0 <= w < |s.workers| && s.workers[w].Stopped? ==> |s.blocks| < s.nextIdx)
  }

  ghost predicate Inv(s: Pool, chain: Chain, start: nat) {
    s.done == Filled(s.blocks) && Claimed(s, chain, start)
  }

  lemma {:induction false} FilledUpdate(blocks: seq<Option<Bytes>>, i: nat, b: Bytes)
    requires i < |blocks| && blocks[i].None?
    ensures Filled(blocks[i := Some(b)]) == Filled(blocks) + 1
  {
    var n := |blocks| - 1;
    if i < n {
      FilledUpdate(blocks[..n], i, b);
      assert blocks[i := Some(b)][..n] == blocks[..n][i := Some(b)];
    } else {
      assert blocks[i := Some(b)][..n] == blocks[..n];
    }
  }

  lemma {:induction false} NoneFilled(blocks: seq<Option<Bytes>>)
    requires forall i :: 0 <= i < |blocks| ==> blocks[i].None?
    ensures Filled(blocks) == 0
  {
    if blocks != [] {
      NoneFilled(blocks[..|blocks| - 1]);
    }
  }

  lemma {:induction false} FilledAtMost(blocks: seq<Option<Bytes>>)
    ensures Filled(blocks) <= |blocks|
    ensures (forall i :: 0 <= i < |blocks| ==> blocks[i].Some?) ==> Filled(blocks) == |blocks|
  {
    if blocks != [] {
      FilledAtMost(blocks[..|blocks| - 1]);
    }
  }

  lemma InitialHolds(count: nat, concurrency: nat, chain: Chain, start: nat)
    ensures Inv(Initial(count, concurrency), chain, start)
  {
    NoneFilled(Initial(count, concurrency).blocks);
  }

  /** The new index is held by the claiming worker alone. */
  lemma ClaimKeeps(s: Pool, w: nat, chain: Chain, start: nat)
    requires w < |s.workers| && !s.workers[w].Fetching? && !s.workers[w].Failed? && Claimed(s, chain, start)
    ensures Claimed(Claim(s, w), chain, start)
  {
    var t := Claim(s, w);
    forall i | 0 <= i < |t.blocks| && i < t.nextIdx && t.blocks[i].None?
      ensures HeldBySome(t, i)
    {
      if i == s.nextIdx {
        assert Held(t.workers[w]) == Some(i);
      } else {
        assert HeldBySome(s, i);
        var v :| 0 <= v < |s.workers| && Held(s.workers[v]) == Some(i);
        assert Held(t.workers[v]) == Some(i);
      }
    }
  }

  /** The state inside a resumed worker, after its write and before its next claim. */
  function Written(s: Pool, w: nat, chain: Chain, start: nat): Pool
    requires w < |s.workers| && s.workers[w].Fetching? && s.workers[w].index < |s.blocks|
  {
    var index := s.workers[w].index;
    s.(blocks := s.blocks[index := Some(chain(start + index))], done := s.done + 1, workers := s.workers[w := Idle])
  }

  lemma WriteKeeps(s: Pool, w: nat, chain: Chain, start: nat)
    requires w < |s.workers| && s.workers[w].Fetching? && Claimed(s, chain, start)
    ensures s.workers[w].index < |s.blocks|
    ensures Claimed(Written(s, w, chain, start), chain, start)
  {
    var index := s.workers[w].index;
    assert Held(s.workers[w]) == Some(index);
    var t := Written(s, w, chain, start);
    forall i | 0 <= i < |t.blocks| && i < t.nextIdx && t.blocks[i].None?
      ensures HeldBySome(t, i)
    {
      assert s.blocks[i].None? && HeldBySome(s, i);
      var v :| 0 <= v < |s.workers| && Held(s.workers[v]) == Some(i);
      assert Held(t.workers[v]) == Some(i);
    }
  }

  lemma RejectKeeps(s: Pool, w: nat, chain: Chain, start: nat)
    requires w < |s.workers| && s.workers[w].Fetching? && Claimed(s, chain, start)
    ensures Claimed(s.(workers := s.workers[w := Failed(s.workers[w].index)]), chain, start)
  {
    var t := s.(workers := s.workers[w := Failed(s.workers[w].index)]);
    assert forall v :: 0 <= v < |s.workers| ==> Held(t.workers[v]) == Held(s.workers[v]);
    forall i | 0 <= i < |t.blocks| && i < t.nextIdx && t.blocks[i].None? ensures HeldBySome(t, i) {
      assert HeldBySome(s, i);
      var v :| 0 <= v < |s.workers| && Held(s.workers[v]) == Some(i);
      assert Held(t.workers[v]) == Some(i);
    }
  }

  /** A resumed worker's stretch is its write followed by a claim. */
  lemma ResumeIsWriteThenClaim(s: Pool, w: nat, chain: Chain, start: nat)
    requires Enabled(s, Resume(w))
    ensures Next(s, Resume(w), chain, start) == Claim(Written(s, w, chain, start), w)
  {
  }

  lemma StepKeepsClaims(s: Pool, a: Action, chain: Chain, start: nat)
    requires Enabled(s, a) && Claimed(s, chain, start)
    ensures Claimed(Next(s, a, chain, start), chain, start)
  {
    match a
    case Start(w) => ClaimKeeps(s, w, chain, start);
    case Resume(w) =>
      WriteKeeps(s, w, chain, start);
      ClaimKeeps(Written(s, w, chain, start), w, chain, start);
      ResumeIsWriteThenClaim(s, w, chain, start);
    case Reject(w) => RejectKeeps(s, w, chain, start);
  }

  lemma StepKeeps(s: Pool, a: Action, chain: Chain, start: nat)
    requires Enabled(s, a) && Inv(s, chain, start)
    ensures Inv(Next(s, a, chain, start), chain, start)
  {
    StepKeepsClaims(s, a, chain, start);
    if a.Resume? {
      var index := s.workers[a.worker].index;
      assert Held(s.workers[a.worker]) == Some(index);
      FilledUpdate(s.blocks, index, chain(start + index));
    }
  }

  /** A filled slot keeps its block for ever: nothing is written twice. */
  lemma StepKeepsSlots(s: Pool, a: Action, chain: Chain, start: nat, i: nat)
    requires Enabled(s, a) && Inv(s, chain, start)
    requires i < |s.blocks| && s.blocks[i].Some?
    ensures |Next(s, a, chain, start).blocks| == |s.blocks|
    ensures Next(s, a, chain, start).blocks[i] == s.blocks[i]
    ensures a.Resume? ==> s.workers[a.worker].index != i
  {
    if a.Resume? {
      assert Held(s.workers[a.worker]).Some?;
    }
  }

  lemma {:induction false} RunKeeps(s: Pool, actions: seq<Action>, chain: Chain, start: nat)
    requires Inv(s, chain, start) && Possible(s, actions, chain, start)
    ensures Inv(After(s, actions, chain, start), chain, start)
    ensures |After(s, actions, chain, start).blocks| == |s.blocks|
    ensures |After(s, actions, chain, start).workers| == |s.workers|
    decreases |actions|
  {
    if actions != [] {
      StepKeeps(s, actions[0], chain, start);
      RunKeeps(Next(s, actions[0], chain, start), actions[1..], chain, start);
    }
  }

  // ----- The end -----

  ghost predicate Complete(blocks: seq<Option<Bytes>>, chain: Chain, start: nat) {
    forall i :: 0 <= i < |blocks| ==> blocks[i] == Some(chain(start + i))
  }

  predicate AllStopped(s: Pool) {
    forall w :: 0 <= w < |s.workers| ==> s.workers[w].Stopped?
  }

  lemma StoppedIsComplete(s: Pool, chain: Chain, start: nat)
    requires Inv(s, chain, start) && AllStopped(s) && (s.workers != [] || s.blocks == [])
    ensures Complete(s.blocks, chain, start) && s.done == |s.blocks|
  {
    if s.workers != [] {
      assert s.workers[0].Stopped?;
    }
    FilledAtMost(s.blocks);
  }

  /**
   * However the workers are interleaved, `done` counts the filled slots, no index is held by two workers, and when all
   * have stopped the array holds every block in order.
   */
  lemma EveryInterleaving(count: nat, concurrency: nat, actions: seq<Action>, chain: Chain, start: nat)
    requires Possible(Initial(count, concurrency), actions, chain, start)
    ensures var s := After(Initial(count, concurrency), actions, chain, start);
            && Inv(s, chain, start) && |s.blocks| == count
            && (AllStopped(s) && (concurrency > 0 || count == 0) ==>
                  Complete(s.blocks, chain, start) && s.done == count)
  {
    InitialHolds(count, concurrency, chain, start);
    RunKeeps(Initial(count, concurrency), actions, chain, start);
    var s := After(Initial(count, concurrency), actions, chain, start);
    if AllStopped(s) && (concurrency > 0 || count == 0) {
      StoppedIsComplete(s, chain, start);
    }
  }

  // ----- No run is endless -----

  function Weight(w: Worker): nat {
    match w
    case Idle => 2
    case Fetching(_) => 1
    case _ => 0
  }

  function Weights(workers: seq<Worker>): nat {
    if workers == [] then 0 else Weights(workers[..|workers| - 1]) + Weight(workers[|workers| - 1])
  }

  lemma {:induction false} WeightsUpdate(workers: seq<Worker>, i: nat, w: Worker)
    requires i < |workers|
    ensures Weights(workers[i := w]) == Weights(workers) - Weight(workers[i]) + Weight(w)
  {
    var n := |workers| - 1;
    if i < n {
      WeightsUpdate(workers[..n], i, w);
      assert workers[i := w][..n] == workers[..n][i := w];
    } else {
      assert workers[i := w][..n] == workers[..n];
    }
  }

  /** Empty slots and unfinished workers; every step lowers it. */
  ghost function Potential(s: Pool): nat {
    FilledAtMost(s.blocks);
    |s.blocks| - Filled(s.blocks) + Weights(s.workers)
  }

  lemma StepDescends(s: Pool, a: Action, chain: Chain, start: nat)
    requires Enabled(s, a) && Inv(s, chain, start)
    ensures Potential(Next(s, a, chain, start)) < Potential(s)
  {
    var t := Next(s, a, chain, start);
    WeightsUpdate(s.workers, a.worker, t.workers[a.worker]);
    if a.Resume? {
      var index := s.workers[a.worker].index;
      assert Held(s.workers[a.worker]) == Some(index);
      FilledUpdate(s.blocks, index, chain(start + index));
    }
  }

  lemma {:induction false} IdleWeights(workers: seq<Worker>)
    requires forall w :: 0 <= w < |workers| ==> workers[w].Idle?
    ensures Weights(workers) == 2 * |workers|
  {
    if workers != [] {
      IdleWeights(workers[..|workers| - 1]);
    }
  }

  lemma {:induction false} RunDescends(s: Pool, actions: seq<Action>, chain: Chain, start: nat)
    requires Inv(s, chain, start) && Possible(s, actions, chain, start)
    ensures |actions| <= Potential(s)
    decreases |actions|
  {
    if actions != [] {
      StepKeeps(s, actions[0], chain, start);
      StepDescends(s, actions[0], chain, start);
      RunDescends(Next(s, actions[0], chain, start), actions[1..], chain, start);
    }
  }

  /** Every schedule ends after at most one step per block and two per worker. */
  lemma RunsAreBounded(count: nat, concurrency: nat, actions: seq<Action>, chain: Chain, start: nat)
    requires Possible(Initial(count, concurrency), actions, chain, start)
    ensures |actions| <= count + 2 * concurrency
  {
    InitialHolds(count, concurrency, chain, start);
    NoneFilled(Initial(count, concurrency).blocks);
    IdleWeights(Initial(count, concurrency).workers);
    RunDescends(Initial(count, concurrency), actions, chain, start);
  }

  // ----- The command -----

  /** The worker that the event loop runs next, and whether its fetch came back; any choice is allowed. */
  method Schedule(workers: seq<Worker>, index: nat) returns (a: Action)
    requires index < |workers| && (workers[index].Idle? || workers[index].Fetching?)
    ensures a.worker == index && (a.Start? <==> workers[index].Idle?)
  {
    if workers[index].Idle? {
      return Start(index);
    }
    var fetched: bool := *;
    a := if fetched then Resume(index) else Reject(index);
  }

  /** One stretch of one worker on the shared variables. */
  method RunWorker(a: Action, ghost s: Pool, blocks: array<Option<Bytes>>, nextIdx: nat, done: nat,
                   workers: seq<Worker>, chain: Chain, start: nat)
    returns (nextIdx': nat, done': nat, workers': seq<Worker>)
    requires s == Pool(nextIdx, done, blocks[..], workers) && Enabled(s, a)
    modifies blocks
    ensures Pool(nextIdx', done', blocks[..], workers') == Next(s, a, chain, start)
  {
    nextIdx', done', workers' := nextIdx, done, workers;
    var w := a.worker;
    if a.Reject? {
      workers' := workers[w := Failed(workers[w].index)];
      return;
    }
    if a.Resume? {
      blocks[workers[w].index] := Some(chain(start + workers[w].index));
      done' := done + 1;
    }
    workers' := workers[w := if nextIdx >= blocks.Length then Stopped else Fetching(nextIdx)];
    nextIdx' := nextIdx + 1;
  }

  predicate NoneFailed(workers: seq<Worker>) {
    forall w :: 0 <= w < |workers| ==> !workers[w].Failed?
  }

  /** One stretch of an unfinished worker can run, keeps the invariant and brings the end closer. */
  lemma StretchKeeps(s: Pool, a: Action, w: nat, chain: Chain, start: nat)
    requires Inv(s, chain, start) && NoneFailed(s.workers) && w < |s.workers| && a.worker == w
    requires if a.Start? then s.workers[w].Idle? else s.workers[w].Fetching?
    ensures Enabled(s, a)
    ensures var t := Next(s, a, chain, start);
            && Inv(t, chain, start) && Potential(t) < Potential(s) && |t.workers| == |s.workers|
            && (a.Reject? || NoneFailed(t.workers))
  {
    assert s.workers[w].Fetching? ==> Held(s.workers[w]).Some?;
    StepKeeps(s, a, chain, start);
    StepDescends(s, a, chain, start);
  }

  /** At the end without a failure everything is there, unless there was no worker to fetch it. */
  lemma CompleteIfWorked(s: Pool, chain: Chain, start: nat)
    requires Inv(s, chain, start) && AllStopped(s) && (s.workers == [] ==> s.nextIdx == 0)
    ensures Complete(s.blocks, chain, start) <==> s.workers != [] || s.blocks == []
  {
    if s.workers != [] || s.blocks == [] {
      StoppedIsComplete(s, chain, start);
    } else {
      assert s.blocks[0].None?;
    }
  }

  /** One more step after a schedule. */
  lemma {:induction false} OneMoreStep(s: Pool, actions: seq<Action>, a: Action, chain: Chain, start: nat)
    requires Possible(s, actions, chain, start) && Enabled(After(s, actions, chain, start), a)
    ensures Possible(s, actions + [a], chain, start)
    ensures After(s, actions + [a], chain, start) == Next(After(s, actions, chain, start), a, chain, start)
    decreases |actions|
  {
    if actions == [] {
      assert actions + [a] == [a] && [a][1..] == [];
    } else {
      var next := Next(s, actions[0], chain, start);
      OneMoreStep(next, actions[1..], a, chain, start);
      assert (actions + [a])[0] == actions[0] && (actions + [a])[1..] == actions[1..] + [a];
    }
  }

  predicate Rejects(actions: seq<Action>) {
    exists i :: 0 <= i < |actions| && actions[i].Reject?
  }

  lemma RejectsStep(actions: seq<Action>, a: Action)
    ensures Rejects(actions + [a]) <==> Rejects(actions) || a.Reject?
  {
    assert (actions + [a])[|actions|] == a;
    if Rejects(actions) {
      var i :| 0 <= i < |actions| && actions[i].Reject?;
      assert (actions + [a])[i].Reject?;
    }
  }

  /**
   * The command awaits all workers and is done with the first rejected fetch; the schedule that it has followed tells
   * whether there was one. Otherwise it has every block in order, given a worker; without one it has fetched nothing.
   */
  method DumpBlocks(start: nat, count: nat, requested: nat, chain: Chain)
    returns (ok: bool, blocks: array<Option<Bytes>>, ghost actions: seq<Action>)
    ensures fresh(blocks) && blocks.Length == count
    ensures Possible(Initial(count, Min(requested, count)), actions, chain, start)
    ensures blocks[..] == After(Initial(count, Min(requested, count)), actions, chain, start).blocks
    ensures ok <==> !Rejects(actions)
    ensures ok ==> AllStopped(After(Initial(count, Min(requested, count)), actions, chain, start))
    ensures ok ==> (Complete(blocks[..], chain, start) <==> requested > 0 || count == 0)
  {
    var concurrency := Min(requested, count);
    blocks := new Option<Bytes>[count](_ => None);
    actions := [];
    var nextIdx: nat, done: nat := 0, 0;
    var workers: seq<Worker> := seq(concurrency, _ => Idle);
    ghost var first := Initial(count, concurrency);
    assert blocks[..] == first.blocks;
    InitialHolds(count, concurrency, chain, start);
    while exists w :: 0 <= w < |workers| && (workers[w].Idle? || workers[w].Fetching?)
      invariant |workers| == concurrency && (concurrency == 0 ==> nextIdx == 0)
      invariant NoneFailed(workers) && Inv(Pool(nextIdx, done, blocks[..], workers), chain, start)
      invariant Possible(first, actions, chain, start) && !Rejects(actions)
      invariant After(first, actions, chain, start) == Pool(nextIdx, done, blocks[..], workers)
      decreases Potential(Pool(nextIdx, done, blocks[..], workers))
    {
      var w :| 0 <= w < |workers| && (workers[w].Idle? || workers[w].Fetching?);
      var a := Schedule(workers, w);
      ghost var s := Pool(nextIdx, done, blocks[..], workers);
      StretchKeeps(s, a, w, chain, start);
      OneMoreStep(first, actions, a, chain, start);
      RejectsStep(actions, a);
      actions := actions + [a];
      nextIdx, done, workers := RunWorker(a, s, blocks, nextIdx, done, workers, chain, start);
      if a.Reject? {
        return false, blocks, actions;
      }
    }
    CompleteIfWorked(Pool(nextIdx, done, blocks[..], workers), chain, start);
    return true, blocks, actions;
  }
}
