/** The vote count over a window of blocks: its loops, proved against the event history and exact sums. */
module Tally {
  import opened Base
  import opened VoteTypes
  import opened Trace
  import opened Sums
  import opened Threshold

  // ----- Transactions as the count reads them -----

  /** The serialized lock script and the type script, if there is one. */
  datatype CellOutput = CellOutput(lock: Bytes, typ: Option<Script>)

  /** The parts of a raw transaction that the count reads; cell deps and inputs by the outpoint they name. */
  datatype RawTx = RawTx(
    cellDeps: seq<OutPoint>, inputs: seq<OutPoint>, outputs: seq<CellOutput>, outputsData: seq<Bytes>)

  type Window = seq<seq<RawTx>>

  /** The type script that marks the vote cells of one proposal. */
  datatype Ballot = Ballot(codeHash: Bytes, hashType: byte, args: Bytes)

  predicate Matches(ballot: Ballot, output: CellOutput) {
    && output.typ.Some?
    && output.typ.value.codeHash == ballot.codeHash
    && output.typ.value.hashType == ballot.hashType
    && output.typ.value.args == ballot.args
  }

  /** The vote in output j: a matching type script, data present, and data that decodes in compatible mode. */
  function VoteAt(ballot: Ballot, tx: RawTx, j: nat): Option<Vote>
    requires j < |tx.outputs|
  {
    if !Matches(ballot, tx.outputs[j]) || j >= |tx.outputsData| then None else ReadVote(tx.outputsData[j], true)
  }

  /** The deps that the first n indices name; an index past the end is skipped. */
  function NamedDeps(deps: seq<OutPoint>, indices: seq<nat>, n: nat): seq<OutPoint>
    requires n <= |indices|
  {
    if n == 0 then [] else
      NamedDeps(deps, indices, n - 1) + if indices[n - 1] < |deps| then [deps[indices[n - 1]]] else []
  }

  /** What is named, position by position; as many as indices where all of them are in range. */
  lemma {:induction false} NamedDepsInFields(deps: seq<OutPoint>, indices: seq<nat>, n: nat)
    requires n <= |indices|
    ensures forall p :: p in NamedDeps(deps, indices, n) <==>
              exists k :: 0 <= k < n && indices[k] < |deps| && deps[indices[k]] == p
    ensures (forall k :: 0 <= k < n ==> indices[k] < |deps|) ==>
              |NamedDeps(deps, indices, n)| == n &&
              forall k :: 0 <= k < n ==> NamedDeps(deps, indices, n)[k] == deps[indices[k]]
  {
    if n > 0 {
      NamedDepsInFields(deps, indices, n - 1);
    }
  }

  function Deposits(tx: RawTx, vote: Vote): seq<OutPoint> {
    NamedDeps(tx.cellDeps, vote.daoIndex, |vote.daoIndex|)
  }

  // ----- The events of a window -----

  function Spends(inputs: seq<OutPoint>): seq<Event> {
    seq(|inputs|, i requires 0 <= i < |inputs| => Spend(inputs[i]))
  }

  function Records(deposits: seq<OutPoint>, voter: Digest): seq<Event> {
    seq(|deposits|, i requires 0 <= i < |deposits| => Record(deposits[i], voter))
  }

  function OutputEvents(h: HashFn, ballot: Ballot, tx: RawTx, j: nat): seq<Event>
    requires j < |tx.outputs|
  {
    match VoteAt(ballot, tx, j)
    case None => []
    case Some(vote) =>
      var voter := h(tx.outputs[j].lock);
      var deposits := Deposits(tx, vote);
      Records(deposits, voter) + [Cast(voter, vote.direction, vote.amount, deposits)]
  }

  /** Only an output with the ballot's code hash, hash type and args in its type script, and a vote, is counted. */
  lemma OutputInFields(h: HashFn, ballot: Ballot, tx: RawTx, j: nat)
    requires j < |tx.outputs|
    ensures OutputEvents(h, ballot, tx, j) != [] <==>
              && tx.outputs[j].typ.Some?
              && tx.outputs[j].typ.value.codeHash == ballot.codeHash
              && tx.outputs[j].typ.value.hashType == ballot.hashType
              && tx.outputs[j].typ.value.args == ballot.args
              && j < |tx.outputsData| && ReadVote(tx.outputsData[j], true).Some?
    ensures OutputEvents(h, ballot, tx, j) != [] ==>
              var events, vote := OutputEvents(h, ballot, tx, j), ReadVote(tx.outputsData[j], true).value;
              var deposits := Deposits(tx, vote);
              && |events| == |deposits| + 1
              && (forall k :: 0 <= k < |deposits| ==> events[k] == Record(deposits[k], h(tx.outputs[j].lock)))
              && events[|deposits|] == Cast(h(tx.outputs[j].lock), vote.direction, vote.amount, deposits)
  {
  }

  function OutputsEvents(h: HashFn, ballot: Ballot, tx: RawTx, n: nat): seq<Event>
    requires n <= |tx.outputs|
  {
    if n == 0 then [] else OutputsEvents(h, ballot, tx, n - 1) + OutputEvents(h, ballot, tx, n - 1)
  }

  lemma OutputsOfOne(h: HashFn, ballot: Ballot, tx: RawTx)
    requires |tx.outputs| == 1
    ensures OutputsEvents(h, ballot, tx, 1) == OutputEvents(h, ballot, tx, 0)
  {
    assert OutputsEvents(h, ballot, tx, 0) == [];
    assert [] + OutputEvents(h, ballot, tx, 0) == OutputEvents(h, ballot, tx, 0);
  }

  /** Inputs first, then outputs. */
  function TxEvents(h: HashFn, ballot: Ballot, tx: RawTx): seq<Event> {
    Spends(tx.inputs) + OutputsEvents(h, ballot, tx, |tx.outputs|)
  }

  function TxsEvents(h: HashFn, ballot: Ballot, txs: seq<RawTx>): seq<Event> {
    if txs == [] then [] else
      TxsEvents(h, ballot, txs[..|txs| - 1]) + TxEvents(h, ballot, txs[|txs| - 1])
  }

  /** All transactions of a window in order; how they are grouped into blocks is forgotten. */
  function Flatten(window: Window): seq<RawTx> {
    if window == [] then [] else Flatten(window[..|window| - 1]) + window[|window| - 1]
  }

  lemma FlattenOne(txs: seq<RawTx>)
    ensures Flatten([txs]) == txs
  {
    assert [txs][..0] == [] && Flatten([]) == [];
    assert [] + txs == txs;
  }

  lemma {:induction false} TxsEventsConcat(h: HashFn, ballot: Ballot, a: seq<RawTx>, b: seq<RawTx>)
    ensures TxsEvents(h, ballot, a + b) == TxsEvents(h, ballot, a) + TxsEvents(h, ballot, b)
  {
    if b == [] {
      assert a + b == a;
    } else {
      var n := |b| - 1;
      TxsEventsConcat(h, ballot, a, b[..n]);
      assert (a + b)[..|a + b| - 1] == a + b[..n] && (a + b)[|a + b| - 1] == b[n];
      Associative(TxsEvents(h, ballot, a), TxsEvents(h, ballot, b[..n]), TxEvents(h, ballot, b[n]));
    }
  }

  /** The transaction without the type scripts that are not this one. */
  function WithoutOthers(codeHash: Bytes, hashType: byte, args: Bytes, tx: RawTx): (r: RawTx)
    ensures |r.outputs| == |tx.outputs|
  {
    tx.(outputs := seq(|tx.outputs|, j requires 0 <= j < |tx.outputs| =>
      var output := tx.outputs[j];
      if && output.typ.Some? && output.typ.value.codeHash == codeHash
         && output.typ.value.hashType == hashType && output.typ.value.args == args
      then output else CellOutput(output.lock, None)))
  }

  function AllWithoutOthers(codeHash: Bytes, hashType: byte, args: Bytes, txs: seq<RawTx>): (r: seq<RawTx>)
    ensures |r| == |txs|
  {
    seq(|txs|, t requires 0 <= t < |txs| => WithoutOthers(codeHash, hashType, args, txs[t]))
  }

  lemma OtherOutput(h: HashFn, ballot: Ballot, tx: RawTx, j: nat)
    requires j < |tx.outputs|
    ensures var kept := WithoutOthers(ballot.codeHash, ballot.hashType, ballot.args, tx);
            OutputEvents(h, ballot, kept, j) == OutputEvents(h, ballot, tx, j)
  {
    OutputInFields(h, ballot, tx, j);
    OutputInFields(h, ballot, WithoutOthers(ballot.codeHash, ballot.hashType, ballot.args, tx), j);
  }

  ghost predicate SameAt(h: HashFn, ballot: Ballot, a: RawTx, b: RawTx, j: nat)
    requires j < |a.outputs| && j < |b.outputs|
  {
    OutputEvents(h, ballot, a, j) == OutputEvents(h, ballot, b, j)
  }

  lemma {:induction false} SameOutputs(h: HashFn, ballot: Ballot, a: RawTx, b: RawTx, n: nat)
    requires n <= |a.outputs| && n <= |b.outputs| && forall j :: 0 <= j < n ==> SameAt(h, ballot, a, b, j)
    ensures OutputsEvents(h, ballot, a, n) == OutputsEvents(h, ballot, b, n)
  {
    if n > 0 {
      SameOutputs(h, ballot, a, b, n - 1);
      assert SameAt(h, ballot, a, b, n - 1);
    }
  }

  lemma OthersCauseNothing(h: HashFn, ballot: Ballot, tx: RawTx)
    ensures TxEvents(h, ballot, WithoutOthers(ballot.codeHash, ballot.hashType, ballot.args, tx))
         == TxEvents(h, ballot, tx)
  {
    var kept := WithoutOthers(ballot.codeHash, ballot.hashType, ballot.args, tx);
    forall j | 0 <= j < |tx.outputs| ensures SameAt(h, ballot, kept, tx, j) {
      OtherOutput(h, ballot, tx, j);
    }
    SameOutputs(h, ballot, kept, tx, |tx.outputs|);
  }

  lemma {:induction false} OthersRunNothing(h: HashFn, ballot: Ballot, txs: seq<RawTx>)
    ensures TxsEvents(h, ballot, AllWithoutOthers(ballot.codeHash, ballot.hashType, ballot.args, txs))
         == TxsEvents(h, ballot, txs)
  {
    if txs != [] {
      var n := |txs| - 1;
      var kept := AllWithoutOthers(ballot.codeHash, ballot.hashType, ballot.args, txs);
      OthersRunNothing(h, ballot, txs[..n]);
      assert kept[..n] == AllWithoutOthers(ballot.codeHash, ballot.hashType, ballot.args, txs[..n]);
      OthersCauseNothing(h, ballot, txs[n]);
    }
  }

  // ----- The loops of the count -----

  /** Each spent outpoint that is recorded removes its entry and its voter's vote. */
  method InvalidateSpent(inputs: seq<OutPoint>, votes: Votes, owners: Owners) returns (votes': Votes, owners': Owners)
    ensures State(votes', owners') == RunFrom(State(votes, owners), Spends(inputs))
  {
    votes', owners' := votes, owners;
    ghost var events := Spends(inputs);
    for i := 0 to |inputs|
      invariant State(votes', owners') == RunFrom(State(votes, owners), events[..i])
    {
      RunStep(State(votes, owners), events[..i], events[i]);
      assert events[..i + 1] == events[..i] + [events[i]];
      if inputs[i] in owners' {
        var voter := owners'[inputs[i]];
        owners' := owners' - {inputs[i]};
        votes' := votes' - {voter};
      }
    }
    assert events[..|inputs|] == events;
  }

  method RecordDeposits(deps: seq<OutPoint>, indices: seq<nat>, voter: Digest, ghost votes: Votes, owners: Owners)
    returns (owners': Owners)
    ensures State(votes, owners')
         == RunFrom(State(votes, owners), Records(NamedDeps(deps, indices, |indices|), voter))
  {
    owners' := owners;
    ghost var start := State(votes, owners);
    for i := 0 to |indices|
      invariant State(votes, owners') == RunFrom(start, Records(NamedDeps(deps, indices, i), voter))
    {
      ghost var done := NamedDeps(deps, indices, i);
      if indices[i] < |deps| {
        owners' := owners'[deps[indices[i]] := voter];
        assert Records(done + [deps[indices[i]]], voter) == Records(done, voter) + [Record(deps[indices[i]], voter)];
        RunStep(start, Records(done, voter), Record(deps[indices[i]], voter));
      } else {
        assert done + [] == done;
      }
    }
  }

  /** One iteration over the outputs: skipped, or its deposits and its vote are recorded. */
  method RecordOutput(h: HashFn, ballot: Ballot, tx: RawTx, j: nat, votes: Votes, owners: Owners)
    returns (votes': Votes, owners': Owners)
    requires j < |tx.outputs|
    ensures State(votes', owners') == RunFrom(State(votes, owners), OutputEvents(h, ballot, tx, j))
  {
    votes', owners' := votes, owners;
    if !Matches(ballot, tx.outputs[j]) { return; }
    if j >= |tx.outputsData| { return; }
    var vote := ReadVote(tx.outputsData[j], true);
    if vote.None? { return; }
    var voter := h(tx.outputs[j].lock);
    ghost var deposits := Deposits(tx, vote.value);
    RunStep(State(votes, owners), Records(deposits, voter),
            Cast(voter, vote.value.direction, vote.value.amount, deposits));
    owners' := RecordDeposits(tx.cellDeps, vote.value.daoIndex, voter, votes, owners);
    votes' := votes[voter := (vote.value.direction, vote.value.amount)];
  }

  method RecordVotes(h: HashFn, ballot: Ballot, tx: RawTx, votes: Votes, owners: Owners)
    returns (votes': Votes, owners': Owners)
    ensures State(votes', owners') == RunFrom(State(votes, owners), OutputsEvents(h, ballot, tx, |tx.outputs|))
  {
    votes', owners' := votes, owners;
    for j := 0 to |tx.outputs|
      invariant State(votes', owners') == RunFrom(State(votes, owners), OutputsEvents(h, ballot, tx, j))
    {
      RunConcat(State(votes, owners), OutputsEvents(h, ballot, tx, j), OutputEvents(h, ballot, tx, j));
      votes', owners' := RecordOutput(h, ballot, tx, j, votes', owners');
    }
  }

  /** The transactions of one block, in order. */
  method CountBlock(h: HashFn, ballot: Ballot, txs: seq<RawTx>, votes: Votes, owners: Owners)
    returns (votes': Votes, owners': Owners)
    ensures State(votes', owners') == RunFrom(State(votes, owners), TxsEvents(h, ballot, txs))
  {
    votes', owners' := votes, owners;
    for t := 0 to |txs|
      invariant State(votes', owners') == RunFrom(State(votes, owners), TxsEvents(h, ballot, txs[..t]))
    {
      assert txs[..t + 1][..t] == txs[..t];
      RunConcat(State(votes, owners), TxsEvents(h, ballot, txs[..t]), TxEvents(h, ballot, txs[t]));
      RunConcat(State(votes', owners'), Spends(txs[t].inputs),
                OutputsEvents(h, ballot, txs[t], |txs[t].outputs|));
      votes', owners' := InvalidateSpent(txs[t].inputs, votes', owners');
      votes', owners' := RecordVotes(h, ballot, txs[t], votes', owners');
    }
    assert txs[..|txs|] == txs;
  }

  // ----- The sums -----

  /** Any direction other than 1 counts as NO. */
  function AmountFor(votes: Votes, yes: bool): Digest -> nat {
    v => if v in votes && (votes[v].0 == 1) == yes then votes[v].1 else 0
  }

  ghost function SideTotal(votes: Votes, yes: bool): nat {
    Sum(votes.Keys, AmountFor(votes, yes))
  }

  lemma NoVotes()
    ensures SideTotal(map[], true) == SideTotal(map[], false) == 0
  {
  }

  /** Each voter counts once, for YES iff the direction is 1 and for NO otherwise. */
  lemma NewVoter(votes: Votes, voter: Digest, direction: byte, amount: nat)
    requires voter !in votes
    ensures var after := votes[voter := (direction, amount)];
            && SideTotal(after, true) == SideTotal(votes, true) + (if direction == 1 then amount else 0)
            && SideTotal(after, false) == SideTotal(votes, false) + (if direction == 1 then 0 else amount)
  {
    var after := votes[voter := (direction, amount)];
    assert after.Keys == votes.Keys + {voter};
    SumSame(votes.Keys, AmountFor(after, true), AmountFor(votes, true));
    SumSame(votes.Keys, AmountFor(after, false), AmountFor(votes, false));
    SumInsert(votes.Keys, AmountFor(after, true), voter);
    SumInsert(votes.Keys, AmountFor(after, false), voter);
  }

  /** Both sides together are the sum of all counted amounts. */
  lemma SidesAddUp(votes: Votes)
    ensures SideTotal(votes, true) + SideTotal(votes, false) == Sum(votes.Keys, AmountIn(votes))
  {
    SumAdd(votes.Keys, AmountFor(votes, true), AmountFor(votes, false), AmountIn(votes));
  }

  /** The sum over some of the voters, cut at 2^64 - 1. */
  ghost function CutSum(votes: Votes, yes: bool, voters: set<Digest>): nat {
    Min(Sum(voters, AmountFor(votes, yes)), U64_MAX)
  }

  lemma CutSumInsert(votes: Votes, yes: bool, voters: set<Digest>, voter: Digest)
    requires voter in votes && voter !in voters
    ensures CutSum(votes, yes, voters + {voter})
         == if (votes[voter].0 == 1) == yes then SaturatingAdd(CutSum(votes, yes, voters), votes[voter].1)
            else CutSum(votes, yes, voters)
  {
    SumInsert(voters, AmountFor(votes, yes), voter);
    SaturatingStep(Sum(voters, AmountFor(votes, yes)), votes[voter].1);
  }

  /** In whatever order the map is walked, each saturating sum is the exact sum cut at 2^64 - 1. */
  method SumVotes(votes: Votes) returns (yes: nat, no: nat)
    ensures yes == CutSum(votes, true, votes.Keys) == Min(SideTotal(votes, true), U64_MAX)
    ensures no == CutSum(votes, false, votes.Keys) == Min(SideTotal(votes, false), U64_MAX)
  {
    yes, no := 0, 0;
    var rest := votes.Keys;
    ghost var done: set<Digest> := {};
    while rest != {}
      invariant done <= votes.Keys && rest == votes.Keys - done
      invariant yes == CutSum(votes, true, done) && no == CutSum(votes, false, done)
      decreases rest
    {
      var voter :| voter in rest;
      CutSumInsert(votes, true, done, voter);
      CutSumInsert(votes, false, done, voter);
      var (direction, amount) := votes[voter];
      if direction == 1 {
        yes := SaturatingAdd(yes, amount);
      } else {
        no := SaturatingAdd(no, amount);
      }
      rest, done := rest - {voter}, done + {voter};
    }
    assert done == votes.Keys;
  }

  // ----- The proposal -----

  /** Output j of transaction t carries the proposal script. */
  predicate CarriesScript(txs: seq<RawTx>, script: Bytes, t: nat, j: nat)
    requires t < |txs| && j < |txs[t].outputs|
  {
    txs[t].outputs[j].typ.Some? && txs[t].outputs[j].typ.value.slice == script
  }

  /** The first output, in transaction and output order, that carries the proposal script. */
  ghost predicate FirstCarrier(txs: seq<RawTx>, script: Bytes, t: nat, j: nat) {
    && t < |txs| && j < |txs[t].outputs| && CarriesScript(txs, script, t, j)
    && (forall i :: 0 <= i < j ==> !CarriesScript(txs, script, t, i))
    && (forall s, i :: 0 <= s < t && 0 <= i < |txs[s].outputs| ==> !CarriesScript(txs, script, s, i))
  }

  lemma FirstCarrierUnique(txs: seq<RawTx>, script: Bytes, t: nat, j: nat, t': nat, j': nat)
    requires FirstCarrier(txs, script, t, j) && FirstCarrier(txs, script, t', j')
    ensures t == t' && j == j'
  {
  }

  ghost predicate NoCarrier(txs: seq<RawTx>, script: Bytes) {
    forall t, j :: 0 <= t < |txs| && 0 <= j < |txs[t].outputs| ==> !CarriesScript(txs, script, t, j)
  }

  /** The proposal is decoded from the data of the first carrier in the first block, or there is none. */
  ghost function ProposalOf(window: Window, script: Bytes): Option<Proposal> {
    if window == [] || NoCarrier(window[0], script) then None
    else if exists t: nat, j: nat :: FirstCarrier(window[0], script, t, j) then
      var t: nat, j: nat :| FirstCarrier(window[0], script, t, j);
      var data := window[0][t].outputsData;
      if j >= |data| then None else ReadProposal(data[j])
    else None
  }

  lemma FirstCarrierDecides(window: Window, script: Bytes, t: nat, j: nat)
    requires window != [] && FirstCarrier(window[0], script, t, j)
    ensures var data := window[0][t].outputsData;
            ProposalOf(window, script) == if j >= |data| then None else ReadProposal(data[j])
  {
    forall t': nat, j': nat | FirstCarrier(window[0], script, t', j') ensures t' == t && j' == j {
      FirstCarrierUnique(window[0], script, t, j, t', j');
    }
  }

  /** Output j of transaction t of the first block is the first there whose type script is this one. */
  ghost predicate FirstWithScript(window: Window, script: Bytes, t: nat, j: nat) {
    && window != [] && t < |window[0]| && j < |window[0][t].outputs|
    && window[0][t].outputs[j].typ.Some? && window[0][t].outputs[j].typ.value.slice == script
    && forall s, i :: 0 <= s <= t && 0 <= i < |window[0][s].outputs| && (s < t || i < j) ==>
         window[0][s].outputs[i].typ.None? || window[0][s].outputs[i].typ.value.slice != script
  }

  lemma FirstInFields(window: Window, script: Bytes, t: nat, j: nat)
    requires window != []
    ensures FirstWithScript(window, script, t, j) <==> FirstCarrier(window[0], script, t, j)
  {
    if FirstWithScript(window, script, t, j) {
      assert forall s, i :: 0 <= s < t && 0 <= i < |window[0][s].outputs| ==> !CarriesScript(window[0], script, s, i);
      assert forall i :: 0 <= i < j ==> !CarriesScript(window[0], script, t, i);
    }
    if FirstCarrier(window[0], script, t, j) {
      forall s, i | 0 <= s <= t && 0 <= i < |window[0][s].outputs| && (s < t || i < j)
        ensures window[0][s].outputs[i].typ.None? || window[0][s].outputs[i].typ.value.slice != script
      {
        assert !CarriesScript(window[0], script, s, i);
      }
    }
  }

  /** A proposal is found iff such an output exists and its data is there and reads as that proposal. */
  lemma ProposalInFields(window: Window, script: Bytes, p: Proposal)
    ensures ProposalOf(window, script) == Some(p) <==>
              exists t: nat, j: nat :: FirstWithScript(window, script, t, j) &&
                j < |window[0][t].outputsData| && ReadProposal(window[0][t].outputsData[j]) == Some(p)
  {
    if window != [] {
      forall t: nat, j: nat ensures FirstWithScript(window, script, t, j) <==> FirstCarrier(window[0], script, t, j) {
        FirstInFields(window, script, t, j);
      }
      forall t: nat, j: nat | FirstCarrier(window[0], script, t, j)
        ensures var data := window[0][t].outputsData;
                ProposalOf(window, script) == if j >= |data| then None else ReadProposal(data[j])
      {
        FirstCarrierDecides(window, script, t, j);
      }
    }
  }

  method FindProposal(window: Window, script: Bytes) returns (r: Option<Proposal>)
    ensures r == ProposalOf(window, script)
  {
    if |window| == 0 {
      return None;
    }
    var txs := window[0];
    for t := 0 to |txs|
      invariant forall s, i :: 0 <= s < t && 0 <= i < |txs[s].outputs| ==> !CarriesScript(txs, script, s, i)
    {
      for j := 0 to |txs[t].outputs|
        invariant forall i :: 0 <= i < j ==> !CarriesScript(txs, script, t, i)
      {
        if txs[t].outputs[j].typ.Some? && txs[t].outputs[j].typ.value.slice == script {
          assert CarriesScript(txs, script, t, j);
          assert FirstCarrier(txs, script, t, j);
          FirstCarrierDecides(window, script, t, j);
          if j >= |txs[t].outputsData| {
            return None;
          }
          return ReadProposal(txs[t].outputsData[j]);
        }
      }
    }
    return None;
  }

  // ----- The count -----

  datatype VoteResult = VoteResult(proposal: Bytes, yesVote: nat, noVote: nat, passed: bool)

  function BallotOf(h: HashFn, proposal: Proposal, script: Bytes): Ballot {
    Ballot(proposal.voteCodeHash, proposal.voteHashType, Blake160(h, script))
  }

  /** The two maps at the end of the window. */
  function FinalState(h: HashFn, ballot: Ballot, window: Window): State {
    Run(TxsEvents(h, ballot, Flatten(window)))
  }

  /** One more block continues from the state before it. */
  lemma FinalStateStep(h: HashFn, ballot: Ballot, window: Window, i: nat)
    requires i < |window|
    ensures FinalState(h, ballot, window[..i + 1])
         == RunFrom(FinalState(h, ballot, window[..i]), TxsEvents(h, ballot, window[i]))
  {
    assert window[..i + 1][..i] == window[..i];
    TxsEventsConcat(h, ballot, Flatten(window[..i]), window[i]);
    RunConcat(EMPTY, TxsEvents(h, ballot, Flatten(window[..i])), TxsEvents(h, ballot, window[i]));
  }

  ghost function CountResult(h: HashFn, window: Window, script: Bytes): (r: VoteResult)
    ensures r.yesVote <= U64_MAX && r.noVote <= U64_MAX
  {
    match ProposalOf(window, script)
    case None => VoteResult(DEFAULT_PROPOSAL, 0, 0, false)
    case Some(p) =>
      if |window| != p.duration + 1 then VoteResult(p.slice, 0, 0, false)
      else
        var votes := FinalState(h, BallotOf(h, p, script), window).votes;
        var yes := SideTotal(votes, true);
        var no := SideTotal(votes, false);
        VoteResult(p.slice, Min(yes, U64_MAX), Min(no, U64_MAX), PassesSaturated(yes, no, p.minimalRequirement))
  }

  /** The three outcomes of a count, with the passing rule on 64-bit numbers. */
  lemma CountInFields(h: HashFn, window: Window, script: Bytes)
    ensures ProposalOf(window, script).None? ==>
              CountResult(h, window, script) == VoteResult(DEFAULT_PROPOSAL, 0, 0, false)
    ensures ProposalOf(window, script).Some? ==>
              var p, r := ProposalOf(window, script).value, CountResult(h, window, script);
              && r.proposal == p.slice
              && (|window| != p.duration + 1 ==> r.yesVote == r.noVote == 0 && !r.passed)
              && (|window| == p.duration + 1 ==>
                    var ballot := Ballot(p.voteCodeHash, p.voteHashType, h(script)[..20]);
                    var votes := FinalState(h, ballot, window).votes;
                    && r.yesVote == Min(SideTotal(votes, true), U64_MAX)
                    && r.noVote == Min(SideTotal(votes, false), U64_MAX)
                    && (r.passed <==>
                          && r.yesVote > r.noVote
                          && Min(r.yesVote + r.noVote, U64_MAX)
                               > p.minimalRequirement * 100_000_000 % 0x1_0000_0000_0000_0000))
  {
  }

  /** Outputs with another code hash, hash type or args than the proposal's vote script have no influence. */
  lemma OtherScriptsIgnored(h: HashFn, p: Proposal, script: Bytes, window: Window)
    ensures var ballot := BallotOf(h, p, script);
            var kept := AllWithoutOthers(p.voteCodeHash, p.voteHashType, h(script)[..20], Flatten(window));
            FinalState(h, ballot, [kept]) == FinalState(h, ballot, window)
  {
    OthersRunNothing(h, BallotOf(h, p, script), Flatten(window));
    FlattenOne(AllWithoutOthers(p.voteCodeHash, p.voteHashType, h(script)[..20], Flatten(window)));
  }

  method CountVote(h: HashFn, window: Window, script: Bytes) returns (r: VoteResult)
    ensures r == CountResult(h, window, script)
  {
    var found := FindProposal(window, script);
    if found.None? {
      return VoteResult(DEFAULT_PROPOSAL, 0, 0, false);
    }
    var proposal := found.value;
    if |window| != proposal.duration + 1 {
      return VoteResult(proposal.slice, 0, 0, false);
    }
    var ballot := BallotOf(h, proposal, script);
    var votes: Votes, owners: Owners := map[], map[];
    for i := 0 to |window|
      invariant State(votes, owners) == FinalState(h, ballot, window[..i])
    {
      FinalStateStep(h, ballot, window, i);
      votes, owners := CountBlock(h, ballot, window[i], votes, owners);
    }
    assert window[..|window|] == window;
    var yes, no := SumVotes(votes);
    r := VoteResult(proposal.slice, yes, no, Passes(yes, no, proposal.minimalRequirement));
  }
}
