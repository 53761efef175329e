/**
 * The vote script and the count together: when every vote cell of the window was accepted by the script, no deposit's
 * capacity is counted twice.
 */
module DoubleCount {
  import opened Base
  import opened VoteTypes
  import opened Sums
  import opened Trace
  import opened Tally
  import VoteContract

  type Cell = VoteContract.Cell

  // ----- The script's view of a transaction in the window -----

  function GroupOutputAt(tx: RawTx, j: nat): VoteContract.GroupOutput
    requires j < |tx.outputs|
  {
    VoteContract.GroupOutput(tx.outputs[j].lock, if j < |tx.outputsData| then tx.outputsData[j] else [])
  }

  /** The outputs with the ballot's type script, in order; these form the script's group. */
  function GroupOutputs(ballot: Ballot, tx: RawTx, n: nat): seq<VoteContract.GroupOutput>
    requires n <= |tx.outputs|
  {
    if n == 0 then [] else
      GroupOutputs(ballot, tx, n - 1) +
        if Matches(ballot, tx.outputs[n - 1]) then [GroupOutputAt(tx, n - 1)] else []
  }

  /** `cell` resolves an outpoint; every dep is a plain one, so position i of the deps is cell dep i. */
  function ContextOf(ballot: Ballot, cell: OutPoint -> Cell, tx: RawTx): VoteContract.Context {
    VoteContract.Context(
      ballot.args,
      GroupOutputs(ballot, tx, |tx.outputs|),
      seq(|tx.cellDeps|, i requires 0 <= i < |tx.cellDeps| => cell(tx.cellDeps[i])),
      seq(|tx.inputs|, i requires 0 <= i < |tx.inputs| => cell(tx.inputs[i]).lock))
  }

  predicate Distinct(points: seq<OutPoint>) {
    forall i, j :: 0 <= i < j < |points| ==> points[i] != points[j]
  }

  /** The vote script accepted every transaction. */
  ghost predicate Enforced(h: HashFn, ballot: Ballot, cell: OutPoint -> Cell, txs: seq<RawTx>) {
    forall t :: 0 <= t < |txs| ==> VoteContract.Accepts(h, ContextOf(ballot, cell, txs[t]))
  }

  /** The condition on the deposits of each vote in the transaction. */
  ghost predicate EachVote(ballot: Ballot, tx: RawTx, condition: seq<OutPoint> -> bool) {
    forall j :: 0 <= j < |tx.outputs| && VoteAt(ballot, tx, j).Some? ==>
      condition(Deposits(tx, VoteAt(ballot, tx, j).value))
  }

  /** No vote names a deposit twice. */
  ghost predicate NamesDistinctDeps(ballot: Ballot, txs: seq<RawTx>) {
    forall t :: 0 <= t < |txs| ==> EachVote(ballot, txs[t], (deposits: seq<OutPoint>) => Distinct(deposits))
  }

  predicate InputUpTo(txs: seq<RawTx>, t: nat, p: OutPoint)
    requires t < |txs|
  {
    exists s :: 0 <= s <= t && p in txs[s].inputs
  }

  /** No vote names an input of its own or of an earlier transaction. */
  ghost predicate NamesUnspentDeps(ballot: Ballot, txs: seq<RawTx>) {
    forall t :: 0 <= t < |txs| ==>
      EachVote(ballot, txs[t], (deposits: seq<OutPoint>) => forall p :: p in deposits ==> !InputUpTo(txs, t, p))
  }

  /** The voter a deposit belongs to: the hash of its lock, as the count computes it for a vote cell. */
  function OwnerOf(h: HashFn, cell: OutPoint -> Cell): OutPoint -> Digest {
    p => h(cell(p).lock)
  }

  function CapacityAt(cell: OutPoint -> Cell): OutPoint -> nat {
    p => cell(p).capacity
  }

  // ----- One vote per transaction -----

  lemma {:induction false} GroupIsEmpty(h: HashFn, ballot: Ballot, tx: RawTx, n: nat)
    requires n <= |tx.outputs| && GroupOutputs(ballot, tx, n) == []
    ensures OutputsEvents(h, ballot, tx, n) == []
  {
    if n > 0 {
      GroupIsEmpty(h, ballot, tx, n - 1);
    }
  }

  /** One more output: it joins the group if it matches, and causes no event otherwise. */
  lemma GroupStep(h: HashFn, ballot: Ballot, tx: RawTx, j: nat)
    requires j < |tx.outputs|
    ensures Matches(ballot, tx.outputs[j]) ==>
              GroupOutputs(ballot, tx, j + 1) == GroupOutputs(ballot, tx, j) + [GroupOutputAt(tx, j)]
    ensures !Matches(ballot, tx.outputs[j]) ==>
              && GroupOutputs(ballot, tx, j + 1) == GroupOutputs(ballot, tx, j)
              && OutputsEvents(h, ballot, tx, j + 1) == OutputsEvents(h, ballot, tx, j)
  {
  }

  lemma {:induction false} GroupIsOne(h: HashFn, ballot: Ballot, tx: RawTx, n: nat) returns (j: nat)
    requires n <= |tx.outputs| && |GroupOutputs(ballot, tx, n)| == 1
    ensures j < n && Matches(ballot, tx.outputs[j])
    ensures GroupOutputs(ballot, tx, n)[0] == GroupOutputAt(tx, j)
    ensures OutputsEvents(h, ballot, tx, n) == OutputEvents(h, ballot, tx, j)
  {
    GroupStep(h, ballot, tx, n - 1);
    if Matches(ballot, tx.outputs[n - 1]) {
      j := n - 1;
      GroupIsEmpty(h, ballot, tx, j);
      assert [] + OutputEvents(h, ballot, tx, j) == OutputEvents(h, ballot, tx, j);
    } else {
      j := GroupIsOne(h, ballot, tx, n - 1);
    }
  }

  /** The empty string is no vote, so a vote cell without data is never accepted. */
  lemma NoDataNoVote()
    ensures ReadVote([], false).None?
  {
  }

  // ----- What the script guarantees of one vote -----

  lemma DistinctPrefix(points: seq<OutPoint>, last: OutPoint)
    requires Distinct(points + [last])
    ensures Distinct(points) && last !in points
  {
    var all := points + [last];
    assert forall i :: 0 <= i < |points| ==> all[i] == points[i] && all[i] != all[|points|];
  }

  lemma {:induction false} NamedDepsOwned(
    cell: OutPoint -> Cell, tx: RawTx, cells: seq<Cell>, indices: seq<nat>, lock: Bytes, n: nat)
    requires |cells| == |tx.cellDeps| && forall i :: 0 <= i < |cells| ==> cells[i] == cell(tx.cellDeps[i])
    requires n <= |indices| && VoteContract.OwnedDeps(cells, indices, lock, n)
    ensures forall p :: p in NamedDeps(tx.cellDeps, indices, n) ==> cell(p).lock == lock
    ensures Distinct(NamedDeps(tx.cellDeps, indices, n)) ==>
              VoteContract.CapacityOf(cells, indices, n)
                == Sum(Elements(NamedDeps(tx.cellDeps, indices, n)), CapacityAt(cell))
  {
    if n > 0 {
      var before := NamedDeps(tx.cellDeps, indices, n - 1);
      var p := tx.cellDeps[indices[n - 1]];
      var all := NamedDeps(tx.cellDeps, indices, n);
      assert all == before + [p];
      NamedDepsOwned(cell, tx, cells, indices, lock, n - 1);
      assert cells[indices[n - 1]] == cell(p);
      if Distinct(all) {
        DistinctPrefix(before, p);
        SumInsert(Elements(before), CapacityAt(cell), p);
        assert Elements(all) == Elements(before) + {p};
      }
    }
  }

  /** The vote in output j: own deposits, and no more than they hold if none is named twice. */
  lemma AcceptedVote(h: HashFn, ballot: Ballot, cell: OutPoint -> Cell, tx: RawTx) returns (j: nat, vote: Vote)
    requires VoteContract.ValidCreation(h, ContextOf(ballot, cell, tx))
    ensures j < |tx.outputs| && VoteAt(ballot, tx, j) == Some(vote)
    ensures OutputsEvents(h, ballot, tx, |tx.outputs|) == OutputEvents(h, ballot, tx, j)
    ensures forall p :: p in Deposits(tx, vote) ==> cell(p).lock == tx.outputs[j].lock
    ensures Distinct(Deposits(tx, vote)) ==> vote.amount <= Sum(Elements(Deposits(tx, vote)), CapacityAt(cell))
  {
    var ctx := ContextOf(ballot, cell, tx);
    j := GroupIsOne(h, ballot, tx, |tx.outputs|);
    NoDataNoVote();
    VoteModesAgree(tx.outputsData[j]);
    vote := ReadVote(tx.outputsData[j], false).value;
    NamedDepsOwned(cell, tx, ctx.deps, vote.daoIndex, tx.outputs[j].lock, |vote.daoIndex|);
  }

  /** The output events of a transaction that votes once or not at all. */
  function CastEvents(cast: Option<Event>): seq<Event>
    requires cast.Some? ==> cast.value.Cast?
  {
    if cast.None? then [] else Records(cast.value.deposits, cast.value.voter) + [cast.value]
  }

  /** A cast for the voter's own deposits; where backing is asked for, of no more than they hold. */
  ghost predicate FairCast(e: Event, owner: OutPoint -> Digest, capacity: OutPoint -> nat, backed: bool) {
    e.Cast? && (backed ==> Backed(e, capacity)) && forall p :: p in e.deposits ==> owner(p) == e.voter
  }

  /** An accepted transaction votes at most once, for own deposits, and no more than they hold if they are distinct. */
  lemma AcceptedOutputs(h: HashFn, ballot: Ballot, cell: OutPoint -> Cell, tx: RawTx, backed: bool)
    returns (cast: Option<Event>)
    requires VoteContract.Accepts(h, ContextOf(ballot, cell, tx))
    requires backed ==> EachVote(ballot, tx, (deposits: seq<OutPoint>) => Distinct(deposits))
    ensures cast.Some? ==> FairCast(cast.value, OwnerOf(h, cell), CapacityAt(cell), backed)
    ensures OutputsEvents(h, ballot, tx, |tx.outputs|) == CastEvents(cast)
  {
    if GroupOutputs(ballot, tx, |tx.outputs|) == [] {
      GroupIsEmpty(h, ballot, tx, |tx.outputs|);
      return None;
    }
    var j, vote := AcceptedVote(h, ballot, cell, tx);
    cast := Some(Cast(h(tx.outputs[j].lock), vote.direction, vote.amount, Deposits(tx, vote)));
  }

  // ----- The window is lawful -----

  ghost predicate Lawful(es: seq<Event>, owner: OutPoint -> Digest, capacity: OutPoint -> nat, backed: bool) {
    Owned(es, owner) && (backed ==> AllBacked(es, capacity))
  }

  /** One more event keeps a history lawful if it follows the rules itself. */
  lemma LawfulStep(es: seq<Event>, e: Event, owner: OutPoint -> Digest, capacity: OutPoint -> nat, backed: bool)
    requires Lawful(es, owner, capacity, backed)
    requires e.Record? ==> e.voter == owner(e.p)
    requires e.Cast? ==> (backed ==> Backed(e, capacity)) && forall p :: p in e.deposits ==> Record(p, e.voter) in es
    ensures Lawful(es + [e], owner, capacity, backed)
  {
    var all := es + [e];
    forall i | 0 <= i < |all| && all[i].Cast?
      ensures DepositsRecorded(all, i) && (backed ==> Backed(all[i], capacity))
    {
      if i < |es| {
        assert all[..i] == es[..i];
        assert DepositsRecorded(es, i);
      } else {
        assert all[..i] == es;
      }
    }
  }

  lemma {:induction false} LawfulSpends(
    es: seq<Event>, inputs: seq<OutPoint>, owner: OutPoint -> Digest, capacity: OutPoint -> nat, backed: bool)
    requires Lawful(es, owner, capacity, backed)
    ensures Lawful(es + Spends(inputs), owner, capacity, backed)
  {
    if inputs == [] {
      assert es + Spends(inputs) == es;
    } else {
      var n := |inputs| - 1;
      LawfulSpends(es, inputs[..n], owner, capacity, backed);
      LawfulStep(es + Spends(inputs[..n]), Spend(inputs[n]), owner, capacity, backed);
      assert es + Spends(inputs) == es + Spends(inputs[..n]) + [Spend(inputs[n])];
    }
  }

  lemma {:induction false} LawfulRecords(
    es: seq<Event>, deposits: seq<OutPoint>, v: Digest, owner: OutPoint -> Digest, capacity: OutPoint -> nat,
    backed: bool)
    requires Lawful(es, owner, capacity, backed)
    requires forall p :: p in deposits ==> owner(p) == v
    ensures Lawful(es + Records(deposits, v), owner, capacity, backed)
  {
    if deposits == [] {
      assert es + Records(deposits, v) == es;
    } else {
      var n := |deposits| - 1;
      LawfulRecords(es, deposits[..n], v, owner, capacity, backed);
      LawfulStep(es + Records(deposits[..n], v), Record(deposits[n], v), owner, capacity, backed);
      assert es + Records(deposits, v) == es + Records(deposits[..n], v) + [Record(deposits[n], v)];
    }
  }

  /** A vote whose deposits are owned, and sufficient where that is asked for. */
  lemma LawfulVote(
    es: seq<Event>, deposits: seq<OutPoint>, cast: Event, owner: OutPoint -> Digest, capacity: OutPoint -> nat,
    backed: bool)
    requires Lawful(es, owner, capacity, backed)
    requires FairCast(cast, owner, capacity, backed) && cast.deposits == deposits
    ensures Lawful(es + (Records(deposits, cast.voter) + [cast]), owner, capacity, backed)
  {
    var records := Records(deposits, cast.voter);
    LawfulRecords(es, deposits, cast.voter, owner, capacity, backed);
    forall p | p in deposits ensures Record(p, cast.voter) in es + records {
      var i :| 0 <= i < |deposits| && deposits[i] == p;
      assert records[i] == Record(p, cast.voter);
    }
    LawfulStep(es + records, cast, owner, capacity, backed);
    assert es + (records + [cast]) == es + records + [cast];
  }

  /** One more transaction: its spends, then at most one vote. */
  lemma LawfulTx(es: seq<Event>, inputs: seq<OutPoint>, cast: Option<Event>, owner: OutPoint -> Digest,
                 capacity: OutPoint -> nat, backed: bool)
    requires Lawful(es, owner, capacity, backed)
    requires cast.Some? ==> FairCast(cast.value, owner, capacity, backed)
    ensures Lawful(es + (Spends(inputs) + CastEvents(cast)), owner, capacity, backed)
  {
    var spent := es + Spends(inputs);
    LawfulSpends(es, inputs, owner, capacity, backed);
    assert es + (Spends(inputs) + CastEvents(cast)) == spent + CastEvents(cast);
    if cast.Some? {
      LawfulVote(spent, cast.value.deposits, cast.value, owner, capacity, backed);
    } else {
      assert spent + [] == spent;
    }
  }

  /** In a window of accepted vote cells every vote is for own deposits, and backed by them if they are distinct. */
  lemma {:induction false} WindowIsLawful(
    h: HashFn, ballot: Ballot, cell: OutPoint -> Cell, txs: seq<RawTx>, backed: bool)
    requires Enforced(h, ballot, cell, txs) && (backed ==> NamesDistinctDeps(ballot, txs))
    ensures Lawful(TxsEvents(h, ballot, txs), OwnerOf(h, cell), CapacityAt(cell), backed)
  {
    if txs != [] {
      var n := |txs| - 1;
      WindowIsLawful(h, ballot, cell, txs[..n], backed);
      var cast := AcceptedOutputs(h, ballot, cell, txs[n], backed);
      LawfulTx(TxsEvents(h, ballot, txs[..n]), txs[n].inputs, cast, OwnerOf(h, cell), CapacityAt(cell), backed);
    }
  }

  // ----- What is spent -----

  lemma {:induction false} OutputsSpendNothing(h: HashFn, ballot: Ballot, tx: RawTx, n: nat)
    requires n <= |tx.outputs|
    ensures forall e :: e in OutputsEvents(h, ballot, tx, n) ==> !e.Spend?
  {
    if n > 0 {
      OutputsSpendNothing(h, ballot, tx, n - 1);
    }
  }

  lemma {:induction false} SpendsComeFromInputs(h: HashFn, ballot: Ballot, txs: seq<RawTx>, p: OutPoint)
    requires Spend(p) in TxsEvents(h, ballot, txs)
    ensures exists s :: 0 <= s < |txs| && p in txs[s].inputs
  {
    var n := |txs| - 1;
    var prefix := txs[..n];
    if Spend(p) in TxsEvents(h, ballot, prefix) {
      SpendsComeFromInputs(h, ballot, prefix, p);
      var s :| 0 <= s < n && p in prefix[s].inputs;
      assert p in txs[s].inputs;
    } else {
      OutputsSpendNothing(h, ballot, txs[n], |txs[n].outputs|);
      assert p in txs[n].inputs;
    }
  }

  predicate CastMeets(e: Event, condition: seq<OutPoint> -> bool) {
    e.Cast? ==> condition(e.deposits)
  }

  lemma OutputMeets(h: HashFn, ballot: Ballot, tx: RawTx, condition: seq<OutPoint> -> bool, j: nat)
    requires j < |tx.outputs| && EachVote(ballot, tx, condition)
    ensures forall e :: e in OutputEvents(h, ballot, tx, j) ==> CastMeets(e, condition)
  {
  }

  /** What holds of the deposits of each vote holds of the deposits of each cast. */
  lemma {:induction false} OutputsMeet(
    h: HashFn, ballot: Ballot, tx: RawTx, condition: seq<OutPoint> -> bool, n: nat)
    requires n <= |tx.outputs| && EachVote(ballot, tx, condition)
    ensures forall e :: e in OutputsEvents(h, ballot, tx, n) ==> CastMeets(e, condition)
  {
    if n > 0 {
      OutputsMeet(h, ballot, tx, condition, n - 1);
      OutputMeets(h, ballot, tx, condition, n - 1);
    }
  }

  lemma LiveConcat(es: seq<Event>, more: seq<Event>)
    requires AllLive(es)
    requires forall k, p :: 0 <= k < |more| && more[k].Cast? && p in more[k].deposits ==>
               Spend(p) !in es && Spend(p) !in more
    ensures AllLive(es + more)
  {
    var all := es + more;
    forall i | 0 <= i < |all| && all[i].Cast? ensures DepositsLive(all, i) {
      if i < |es| {
        assert all[..i] == es[..i];
        assert DepositsLive(es, i);
      } else {
        assert all[..i] == es + more[..i - |es|];
        assert more[i - |es|] == all[i];
      }
    }
  }

  lemma LiveEvents(es: seq<Event>, spends: seq<Event>, outputs: seq<Event>, live: seq<OutPoint> -> bool)
    requires AllLive(es) && (forall e :: e in spends ==> !e.Cast?) && (forall e :: e in outputs ==> !e.Spend?)
    requires forall deposits, p :: live(deposits) && p in deposits ==> Spend(p) !in es && Spend(p) !in spends
    requires forall e :: e in outputs ==> CastMeets(e, live)
    ensures AllLive(es + (spends + outputs))
  {
    var more := spends + outputs;
    forall k, p | 0 <= k < |more| && more[k].Cast? && p in more[k].deposits
      ensures Spend(p) !in es && Spend(p) !in more
    {
      assert more[k] in outputs && CastMeets(more[k], live);
    }
    LiveConcat(es, more);
  }

  lemma LiveTx(h: HashFn, ballot: Ballot, es: seq<Event>, tx: RawTx)
    requires AllLive(es)
    requires EachVote(ballot, tx, (deposits: seq<OutPoint>) =>
               forall p :: p in deposits ==> p !in tx.inputs && Spend(p) !in es)
    ensures AllLive(es + TxEvents(h, ballot, tx))
  {
    var live := (deposits: seq<OutPoint>) => forall p :: p in deposits ==> p !in tx.inputs && Spend(p) !in es;
    assert EachVote(ballot, tx, live);
    OutputsSpendNothing(h, ballot, tx, |tx.outputs|);
    OutputsMeet(h, ballot, tx, live, |tx.outputs|);
    LiveEvents(es, Spends(tx.inputs), OutputsEvents(h, ballot, tx, |tx.outputs|), live);
  }

  lemma UnspentPrefix(ballot: Ballot, txs: seq<RawTx>, n: nat)
    requires NamesUnspentDeps(ballot, txs) && n <= |txs|
    ensures NamesUnspentDeps(ballot, txs[..n])
  {
    forall t, j | 0 <= t < n && 0 <= j < |txs[t].outputs| && VoteAt(ballot, txs[t], j).Some?
      ensures forall p :: p in Deposits(txs[t], VoteAt(ballot, txs[t], j).value) ==> !InputUpTo(txs[..n], t, p)
    {
      assert forall p :: InputUpTo(txs[..n], t, p) ==> InputUpTo(txs, t, p);
    }
  }

  /** Where no vote names an input of its own or an earlier transaction, the deposits of every vote are live. */
  lemma {:induction false} WindowIsLive(h: HashFn, ballot: Ballot, txs: seq<RawTx>)
    requires NamesUnspentDeps(ballot, txs)
    ensures AllLive(TxsEvents(h, ballot, txs))
  {
    if txs != [] {
      var n := |txs| - 1;
      var prefix := txs[..n];
      UnspentPrefix(ballot, txs, n);
      WindowIsLive(h, ballot, prefix);
      var es := TxsEvents(h, ballot, prefix);
      forall p | Spend(p) in es ensures InputUpTo(txs, n, p) {
        SpendsComeFromInputs(h, ballot, prefix, p);
        var s :| 0 <= s < n && p in prefix[s].inputs;
        assert p in txs[s].inputs;
      }
      LiveTx(h, ballot, es, txs[n]);
    }
  }

  lemma {:induction false} InputsAreSpends(h: HashFn, ballot: Ballot, txs: seq<RawTx>, t: nat, p: OutPoint)
    requires t < |txs|
    ensures p in txs[t].inputs ==> Spend(p) in TxsEvents(h, ballot, txs)
  {
    var n := |txs| - 1;
    if t < n {
      InputsAreSpends(h, ballot, txs[..n], t, p);
    } else if p in txs[n].inputs {
      var i :| 0 <= i < |txs[n].inputs| && txs[n].inputs[i] == p;
      assert Spends(txs[n].inputs)[i] == Spend(p);
      assert Spend(p) in TxEvents(h, ballot, txs[n]);
    }
  }

  lemma NeverSpentNeverInput(h: HashFn, ballot: Ballot, txs: seq<RawTx>, p: OutPoint)
    requires Spend(p) !in TxsEvents(h, ballot, txs)
    ensures forall t :: 0 <= t < |txs| ==> p !in txs[t].inputs
  {
    forall t | 0 <= t < |txs| ensures p !in txs[t].inputs {
      InputsAreSpends(h, ballot, txs, t, p);
    }
  }

  function EventsOf(h: HashFn, ballot: Ballot, window: Window): seq<Event> {
    TxsEvents(h, ballot, Flatten(window))
  }

  /** The deposits behind the counted votes are inputs of no transaction. */
  ghost predicate CountedAreNoInputs(es: seq<Event>, txs: seq<RawTx>) {
    forall v, p, t ::
      v in Run(es).votes && p in LastDeposits(es, v) && 0 <= t < |txs| ==> p !in txs[t].inputs
  }

  lemma UnspentAreNoInputs(h: HashFn, ballot: Ballot, txs: seq<RawTx>)
    requires CountedAreUnspent(TxsEvents(h, ballot, txs))
    ensures CountedAreNoInputs(TxsEvents(h, ballot, txs), txs)
  {
    var es := TxsEvents(h, ballot, txs);
    forall v, p | v in Run(es).votes && p in LastDeposits(es, v)
      ensures forall t :: 0 <= t < |txs| ==> p !in txs[t].inputs
    {
      NeverSpentNeverInput(h, ballot, txs, p);
    }
  }

  /**
   * At the end of a window of accepted vote cells the deposits behind the counted votes belong to their voters and are
   * pairwise disjoint. If no vote names a deposit twice, they hold at least what is counted for both sides together; if
   * none names an input of its own or an earlier transaction, they are inputs of no transaction of the window.
   */
  lemma NoDepositCountedTwice(h: HashFn, ballot: Ballot, cell: OutPoint -> Cell, window: Window)
    requires Enforced(h, ballot, cell, Flatten(window))
    ensures CountedAreOwned(EventsOf(h, ballot, window), OwnerOf(h, cell))
    ensures CountedAreDisjoint(EventsOf(h, ballot, window))
    ensures NamesDistinctDeps(ballot, Flatten(window)) ==>
              var votes := FinalState(h, ballot, window).votes;
              SideTotal(votes, true) + SideTotal(votes, false)
                <= Sum(DepositsOf(EventsOf(h, ballot, window), votes.Keys), CapacityAt(cell))
    ensures NamesUnspentDeps(ballot, Flatten(window)) ==>
              CountedAreNoInputs(EventsOf(h, ballot, window), Flatten(window))
  {
    var es, txs := EventsOf(h, ballot, window), Flatten(window);
    WindowIsLawful(h, ballot, cell, txs, false);
    NoDoubleCounting(es, OwnerOf(h, cell), CapacityAt(cell));
    if NamesDistinctDeps(ballot, txs) {
      WindowIsLawful(h, ballot, cell, txs, true);
      SidesAddUp(FinalState(h, ballot, window).votes);
    }
    if NamesUnspentDeps(ballot, txs) {
      WindowIsLive(h, ballot, txs);
      UnspentAreNoInputs(h, ballot, txs);
    }
  }
}
