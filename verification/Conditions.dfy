/**
 * Transactions that the vote script accepts and that show what the conditions of the count's results are for: a deposit
 * named twice, a deposit spent by the very transaction that votes with it, an older deposit spent after a newer vote.
 */
module Conditions {
  import opened Base
  import opened VoteTypes
  import opened Sums
  import opened Trace
  import opened Tally
  import opened DoubleCount

  const DAO_SCRIPT := BuildScript(VoteContract.DAO_CODE_HASH, VoteContract.DAO_HASH_TYPE, [])

  /** One vote cell; cell dep 0 is the voter's deposit and cell dep 1 the proposal cell. */
  function VotingTx(voteScript: Script, lock: Bytes, input: OutPoint, deposit: OutPoint, proposal: OutPoint, vote: Vote)
    : RawTx
  {
    RawTx([deposit, proposal], [input], [CellOutput(lock, Some(voteScript))], [WriteVote(vote)])
  }

  function BallotFrom(voteScript: Script): Ballot {
    Ballot(voteScript.codeHash, voteScript.hashType, voteScript.args)
  }

  /** The deposit is named once or twice, and the vote is small enough to be read back. */
  predicate NamesDeposit(vote: Vote) {
    (vote.daoIndex == [0] || vote.daoIndex == [0, 0]) && vote.amount <= U64_MAX && vote.direction <= 1
  }

  lemma VoteReads(vote: Vote, compatible: bool)
    requires NamesDeposit(vote)
    ensures ReadVote(WriteVote(vote), compatible) == Some(vote)
  {
    VoteSize(vote);
    VoteRoundTrip(vote, compatible);
  }

  /** The deposits of the vote: the one deposit, as often as it is named. */
  function Named(deposit: OutPoint, vote: Vote): seq<OutPoint> {
    seq(|vote.daoIndex|, _ => deposit)
  }

  lemma FirstDep(deps: seq<OutPoint>, indices: seq<nat>)
    requires |deps| > 0 && (indices == [0] || indices == [0, 0])
    ensures NamedDeps(deps, indices, |indices|) == if |indices| == 1 then [deps[0]] else [deps[0], deps[0]]
  {
    assert NamedDeps(deps, indices, 0) == [];
    assert NamedDeps(deps, indices, 1) == [] + [deps[0]];
  }

  lemma NamedDepositOnly(voteScript: Script, lock: Bytes, input: OutPoint, deposit: OutPoint, proposal: OutPoint,
                         vote: Vote)
    requires NamesDeposit(vote)
    ensures Deposits(VotingTx(voteScript, lock, input, deposit, proposal, vote), vote) == Named(deposit, vote)
  {
    FirstDep([deposit, proposal], vote.daoIndex);
    assert Named(deposit, vote) == if |vote.daoIndex| == 1 then [deposit] else [deposit, deposit];
  }

  lemma VotingTxEvents(h: HashFn, voteScript: Script, lock: Bytes, input: OutPoint, deposit: OutPoint,
                       proposal: OutPoint, vote: Vote)
    requires NamesDeposit(vote)
    ensures TxEvents(h, BallotFrom(voteScript), VotingTx(voteScript, lock, input, deposit, proposal, vote))
         == [Spend(input)] + (Records(Named(deposit, vote), h(lock)) +
              [Cast(h(lock), vote.direction, vote.amount, Named(deposit, vote))])
  {
    var tx, ballot := VotingTx(voteScript, lock, input, deposit, proposal, vote), BallotFrom(voteScript);
    VoteReads(vote, true);
    NamedDepositOnly(voteScript, lock, input, deposit, proposal, vote);
    assert Spends(tx.inputs) == [Spend(input)];
    OutputsOfOne(h, ballot, tx);
  }

  /** The voter owns the deposit and the input, and the proposal cell is the one that the vote script names. */
  ghost predicate Setting(h: HashFn, cell: OutPoint -> Cell, voteScript: Script, lock: Bytes, input: OutPoint,
                          deposit: OutPoint, proposal: OutPoint) {
    && cell(deposit).lock == lock && cell(deposit).typ == Some(DAO_SCRIPT) && cell(input).lock == lock
    && cell(proposal).typ.Some? && voteScript.args == Blake160(h, cell(proposal).typ.value.slice)
  }

  lemma NamedCapacity(deps: seq<Cell>, vote: Vote)
    requires |deps| > 0 && NamesDeposit(vote)
    ensures VoteContract.CapacityOf(deps, vote.daoIndex, |vote.daoIndex|) == |vote.daoIndex| * deps[0].capacity
  {
    assert VoteContract.CapacityOf(deps, vote.daoIndex, 1) == deps[0].capacity;
    if |vote.daoIndex| == 2 {
      assert VoteContract.CapacityOf(deps, vote.daoIndex, 2) == deps[0].capacity + deps[0].capacity;
    }
  }

  lemma SingleVoteValid(h: HashFn, ctx: VoteContract.Context, lock: Bytes, data: Bytes, vote: Vote)
    requires ctx.outputs == [VoteContract.GroupOutput(lock, data)] && ReadVote(data, false) == Some(vote)
    requires |ctx.args| == 20 && VoteContract.ProposalPresent(h, ctx) && lock in ctx.inputLocks
    requires |ctx.deps| > 0 && VoteContract.OwnedDaoDep(ctx.deps[0], lock)
    requires NamesDeposit(vote)
    requires 0 < vote.amount == VoteContract.CapacityOf(ctx.deps, vote.daoIndex, |vote.daoIndex|)
    ensures VoteContract.Accepts(h, ctx)
  {
    assert forall i :: 0 <= i < |vote.daoIndex| ==> vote.daoIndex[i] == 0;
    assert VoteContract.OwnedDeps(ctx.deps, vote.daoIndex, lock, |vote.daoIndex|);
    assert VoteContract.DepositsAccepted(ctx, vote);
  }

  lemma GroupOfOne(ballot: Ballot, tx: RawTx)
    requires |tx.outputs| == 1 && |tx.outputsData| == 1 && Matches(ballot, tx.outputs[0])
    ensures GroupOutputs(ballot, tx, 1) == [VoteContract.GroupOutput(tx.outputs[0].lock, tx.outputsData[0])]
  {
    assert GroupOutputs(ballot, tx, 0) == [];
  }

  /** The script accepts the vote if its amount is the deposit's capacity for each time the deposit is named. */
  lemma VotingTxAccepted(h: HashFn, cell: OutPoint -> Cell, voteScript: Script, lock: Bytes, input: OutPoint,
                         deposit: OutPoint, proposal: OutPoint, vote: Vote)
    requires Setting(h, cell, voteScript, lock, input, deposit, proposal)
    requires NamesDeposit(vote) && 0 < vote.amount == |vote.daoIndex| * cell(deposit).capacity
    ensures VoteContract.Accepts(h, ContextOf(BallotFrom(voteScript), cell,
                                              VotingTx(voteScript, lock, input, deposit, proposal, vote)))
  {
    var tx, ballot := VotingTx(voteScript, lock, input, deposit, proposal, vote), BallotFrom(voteScript);
    var ctx := ContextOf(ballot, cell, tx);
    GroupOfOne(ballot, tx);
    VoteReads(vote, false);
    assert ctx.deps[1] == cell(proposal) && ctx.deps[0] == cell(deposit) && ctx.inputLocks[0] == lock;
    NamedCapacity(ctx.deps, vote);
    SingleVoteValid(h, ctx, lock, WriteVote(vote), vote);
  }

  // ----- What the count makes of it -----

  lemma RecordsRun(s: State, deposit: OutPoint, voter: Digest, vote: Vote)
    requires NamesDeposit(vote)
    ensures RunFrom(s, Records(Named(deposit, vote), voter)) == s.(owners := s.owners[deposit := voter])
  {
    var e := Record(deposit, voter);
    RunStep(s, [], e);
    RunStep(s, [e], e);
    assert [] + [e] == [e];
    assert Records(Named(deposit, vote), voter) == if |vote.daoIndex| == 1 then [e] else [e] + [e];
  }

  /** The vote is counted whatever its input is, as long as that is no recorded deposit. */
  lemma VotingTxRuns(h: HashFn, s: State, voteScript: Script, lock: Bytes, input: OutPoint, deposit: OutPoint,
                     proposal: OutPoint, vote: Vote)
    requires NamesDeposit(vote) && input !in s.owners
    ensures RunFrom(s, TxEvents(h, BallotFrom(voteScript), VotingTx(voteScript, lock, input, deposit, proposal, vote)))
         == State(s.votes[h(lock) := (vote.direction, vote.amount)], s.owners[deposit := h(lock)])
  {
    var records := Records(Named(deposit, vote), h(lock));
    var cast := Cast(h(lock), vote.direction, vote.amount, Named(deposit, vote));
    VotingTxEvents(h, voteScript, lock, input, deposit, proposal, vote);
    RunConcat(s, [Spend(input)], records + [cast]);
    RunStep(s, [], Spend(input));
    assert [] + [Spend(input)] == [Spend(input)];
    RunStep(s, records, cast);
    RecordsRun(s, deposit, h(lock), vote);
  }

  lemma SingleTx(h: HashFn, ballot: Ballot, tx: RawTx)
    ensures Flatten([[tx]]) == [tx]
    ensures EventsOf(h, ballot, [[tx]]) == TxEvents(h, ballot, tx)
  {
    FlattenOne([tx]);
    assert [tx][..0] == [] && TxsEvents(h, ballot, []) == [];
    assert [] + TxEvents(h, ballot, tx) == TxEvents(h, ballot, tx);
  }

  /** A window of this one transaction counts its vote, for this one deposit. */
  lemma SingleVoteCounted(h: HashFn, voteScript: Script, lock: Bytes, input: OutPoint, deposit: OutPoint,
                          proposal: OutPoint, vote: Vote)
    requires NamesDeposit(vote)
    ensures var ballot := BallotFrom(voteScript);
            var window := [[VotingTx(voteScript, lock, input, deposit, proposal, vote)]];
            && FinalState(h, ballot, window).votes == map[h(lock) := (vote.direction, vote.amount)]
            && LastDeposits(EventsOf(h, ballot, window), h(lock)) == {deposit}
  {
    var ballot, tx := BallotFrom(voteScript), VotingTx(voteScript, lock, input, deposit, proposal, vote);
    SingleTx(h, ballot, tx);
    VotingTxRuns(h, EMPTY, voteScript, lock, input, deposit, proposal, vote);
    VotingTxEvents(h, voteScript, lock, input, deposit, proposal, vote);
    assert deposit in Elements(Named(deposit, vote)) by {
      assert Named(deposit, vote)[0] == deposit;
    }
    assert Elements(Named(deposit, vote)) == {deposit};
  }

  lemma SumOfOne<T>(x: T, f: T -> nat)
    ensures Sum({x}, f) == f(x)
  {
    var none: set<T> := {};
    SumInsert(none, f, x);
    assert none + {x} == {x};
  }

  lemma OneVoteTotals(es: seq<Event>, votes: Votes, v: Digest, amount: nat, deposit: OutPoint,
                      capacity: OutPoint -> nat)
    requires votes == map[v := (1, amount)] && LastDeposits(es, v) == {deposit}
    ensures SideTotal(votes, true) == amount
    ensures Sum(DepositsOf(es, votes.Keys), capacity) == capacity(deposit)
  {
    assert votes.Keys == {v};
    SumOfOne(v, AmountFor(votes, true));
    assert DepositsOf(es, {v}) == {deposit};
    SumOfOne(deposit, capacity);
  }

  lemma InputOfOne(tx: RawTx, p: OutPoint)
    ensures InputUpTo([tx], 0, p) <==> p in tx.inputs
  {
    assert [tx][0] == tx;
  }

  lemma EachOfOne(ballot: Ballot, tx: RawTx, vote: Vote, condition: seq<OutPoint> -> bool)
    requires |tx.outputs| == 1 && VoteAt(ballot, tx, 0) == Some(vote)
    ensures EachVote(ballot, tx, condition) <==> condition(Deposits(tx, vote))
  {
  }

  lemma DistinctOfOne(ballot: Ballot, tx: RawTx, vote: Vote)
    requires |tx.outputs| == 1 && VoteAt(ballot, tx, 0) == Some(vote)
    ensures NamesDistinctDeps(ballot, [tx]) <==> Distinct(Deposits(tx, vote))
  {
    var condition := (deposits: seq<OutPoint>) => Distinct(deposits);
    EachOfOne(ballot, tx, vote, condition);
    assert NamesDistinctDeps(ballot, [tx]) <==> EachVote(ballot, [tx][0], condition);
  }

  lemma UnspentOfOne(ballot: Ballot, tx: RawTx, vote: Vote, p: OutPoint)
    requires |tx.outputs| == 1 && VoteAt(ballot, tx, 0) == Some(vote)
    requires forall q :: q in Deposits(tx, vote) <==> q == p
    ensures NamesUnspentDeps(ballot, [tx]) <==> p !in tx.inputs
  {
    var condition := (deposits: seq<OutPoint>) => forall q :: q in deposits ==> !InputUpTo([tx], 0, q);
    EachOfOne(ballot, tx, vote, condition);
    InputOfOne(tx, p);
    assert NamesUnspentDeps(ballot, [tx]) <==> EachVote(ballot, [tx][0], condition);
  }

  lemma NamedOften(deposit: OutPoint, vote: Vote)
    requires NamesDeposit(vote)
    ensures Distinct(Named(deposit, vote)) <==> |vote.daoIndex| == 1
    ensures forall p :: p in Named(deposit, vote) <==> p == deposit
  {
    var deposits := Named(deposit, vote);
    assert deposits[0] == deposit;
    assert |vote.daoIndex| == 2 ==> deposits[0] == deposits[1];
  }

  /** The conditions on the deps of this one transaction: named once, and not its own input. */
  lemma SingleConditions(voteScript: Script, lock: Bytes, input: OutPoint, deposit: OutPoint, proposal: OutPoint,
                         vote: Vote)
    requires NamesDeposit(vote)
    ensures var ballot, tx := BallotFrom(voteScript), VotingTx(voteScript, lock, input, deposit, proposal, vote);
            && (NamesDistinctDeps(ballot, [tx]) <==> |vote.daoIndex| == 1)
            && (NamesUnspentDeps(ballot, [tx]) <==> input != deposit)
  {
    var ballot, tx := BallotFrom(voteScript), VotingTx(voteScript, lock, input, deposit, proposal, vote);
    VoteReads(vote, true);
    NamedDepositOnly(voteScript, lock, input, deposit, proposal, vote);
    NamedOften(deposit, vote);
    DistinctOfOne(ballot, tx, vote);
    UnspentOfOne(ballot, tx, vote, deposit);
  }

  /** Without distinct deps: an accepted vote that names its deposit twice counts for twice what the deposit holds. */
  lemma RepeatedDepositCounted(h: HashFn, cell: OutPoint -> Cell, voteScript: Script, lock: Bytes, input: OutPoint,
                               deposit: OutPoint, proposal: OutPoint)
    requires Setting(h, cell, voteScript, lock, input, deposit, proposal)
    requires 0 < cell(deposit).capacity && 2 * cell(deposit).capacity <= U64_MAX
    ensures var capacity := cell(deposit).capacity;
            var tx := VotingTx(voteScript, lock, input, deposit, proposal, Vote(1, 2 * capacity, [0, 0]));
            var ballot := BallotFrom(voteScript);
            var votes := FinalState(h, ballot, [[tx]]).votes;
            && Enforced(h, ballot, cell, Flatten([[tx]])) && !NamesDistinctDeps(ballot, Flatten([[tx]]))
            && (input != deposit ==> NamesUnspentDeps(ballot, Flatten([[tx]])))
            && SideTotal(votes, true) == 2 * capacity
            && Sum(DepositsOf(EventsOf(h, ballot, [[tx]]), votes.Keys), CapacityAt(cell)) == capacity
  {
    var vote := Vote(1, 2 * cell(deposit).capacity, [0, 0]);
    var tx, ballot := VotingTx(voteScript, lock, input, deposit, proposal, vote), BallotFrom(voteScript);
    SingleTx(h, ballot, tx);
    VotingTxAccepted(h, cell, voteScript, lock, input, deposit, proposal, vote);
    SingleVoteCounted(h, voteScript, lock, input, deposit, proposal, vote);
    SingleConditions(voteScript, lock, input, deposit, proposal, vote);
    OneVoteTotals(EventsOf(h, ballot, [[tx]]), FinalState(h, ballot, [[tx]]).votes, h(lock), vote.amount, deposit,
                  CapacityAt(cell));
  }

  /** Without unspent deps: an accepted vote whose deposit is an input of its own transaction is counted. */
  lemma OwnInputCounted(h: HashFn, cell: OutPoint -> Cell, voteScript: Script, lock: Bytes, deposit: OutPoint,
                        proposal: OutPoint)
    requires Setting(h, cell, voteScript, lock, deposit, deposit, proposal)
    requires 0 < cell(deposit).capacity <= U64_MAX
    ensures var tx := VotingTx(voteScript, lock, deposit, deposit, proposal, Vote(1, cell(deposit).capacity, [0]));
            var ballot := BallotFrom(voteScript);
            && Enforced(h, ballot, cell, Flatten([[tx]])) && NamesDistinctDeps(ballot, Flatten([[tx]]))
            && !NamesUnspentDeps(ballot, Flatten([[tx]]))
            && h(lock) in FinalState(h, ballot, [[tx]]).votes
            && LastDeposits(EventsOf(h, ballot, [[tx]]), h(lock)) == {deposit} && deposit in tx.inputs
  {
    var vote := Vote(1, cell(deposit).capacity, [0]);
    SingleTx(h, BallotFrom(voteScript), VotingTx(voteScript, lock, deposit, deposit, proposal, vote));
    VotingTxAccepted(h, cell, voteScript, lock, deposit, deposit, proposal, vote);
    SingleVoteCounted(h, voteScript, lock, deposit, deposit, proposal, vote);
    SingleConditions(voteScript, lock, deposit, deposit, proposal, vote);
  }

  /** The transaction that spends a deposit and does nothing else. */
  function SpendingTx(p: OutPoint): RawTx {
    RawTx([], [p], [], [])
  }

  lemma SpendingTxEvents(h: HashFn, ballot: Ballot, p: OutPoint)
    ensures TxEvents(h, ballot, SpendingTx(p)) == [Spend(p)]
  {
    assert Spends([p]) == [Spend(p)];
    assert OutputsEvents(h, ballot, SpendingTx(p), 0) == [];
  }

  lemma OneMoreTx(h: HashFn, ballot: Ballot, txs: seq<RawTx>, tx: RawTx, before: State, after: State)
    requires Run(TxsEvents(h, ballot, txs)) == before && RunFrom(before, TxEvents(h, ballot, tx)) == after
    ensures Run(TxsEvents(h, ballot, txs + [tx])) == after
  {
    assert (txs + [tx])[..|txs|] == txs;
    RunConcat(EMPTY, TxsEvents(h, ballot, txs), TxEvents(h, ballot, tx));
  }

  lemma ThreeTxs(h: HashFn, ballot: Ballot, a: RawTx, b: RawTx, c: RawTx, afterA: State, afterB: State, afterC: State)
    requires RunFrom(EMPTY, TxEvents(h, ballot, a)) == afterA
    requires RunFrom(afterA, TxEvents(h, ballot, b)) == afterB
    requires RunFrom(afterB, TxEvents(h, ballot, c)) == afterC
    ensures Run(TxsEvents(h, ballot, [a] + [b] + [c])) == afterC
  {
    SingleTx(h, ballot, a);
    OneMoreTx(h, ballot, [a], b, afterA, afterB);
    OneMoreTx(h, ballot, [a] + [b], c, afterB, afterC);
  }

  lemma SpendsOlder(v: Digest, p: OutPoint, q: OutPoint, choice: (byte, nat))
    requires p != q
    ensures RunFrom(State(map[v := choice], map[p := v, q := v]), [Spend(p)]) == State(map[], map[q := v])
  {
    RunStep(State(map[v := choice], map[p := v, q := v]), [], Spend(p));
    assert [] + [Spend(p)] == [Spend(p)];
  }

  /**
   * A voter votes with p, then again with q, then spends p: the newer vote is gone, while its own deposit q is recorded
   * and unspent.
   */
  lemma OlderDepositRemovesNewerVote(h: HashFn, voteScript: Script, lock: Bytes, input: OutPoint, input': OutPoint,
                                     p: OutPoint, q: OutPoint, proposal: OutPoint, older: Vote, newer: Vote)
    requires NamesDeposit(older) && NamesDeposit(newer)
    requires p != q && p != input' && q !in {input, input'}
    ensures var txs := [VotingTx(voteScript, lock, input, p, proposal, older)]
                       + [VotingTx(voteScript, lock, input', q, proposal, newer)] + [SpendingTx(p)];
            Run(TxsEvents(h, BallotFrom(voteScript), txs)) == State(map[], map[q := h(lock)])
  {
    var ballot, v := BallotFrom(voteScript), h(lock);
    var first := VotingTx(voteScript, lock, input, p, proposal, older);
    var second := VotingTx(voteScript, lock, input', q, proposal, newer);
    var afterFirst := State(map[v := (older.direction, older.amount)], map[p := v]);
    var afterSecond := State(map[v := (newer.direction, newer.amount)], map[p := v, q := v]);
    VotingTxRuns(h, EMPTY, voteScript, lock, input, p, proposal, older);
    VotingTxRuns(h, afterFirst, voteScript, lock, input', q, proposal, newer);
    assert afterFirst.votes[v := (newer.direction, newer.amount)] == afterSecond.votes;
    SpendingTxEvents(h, ballot, p);
    SpendsOlder(v, p, q, (newer.direction, newer.amount));
    ThreeTxs(h, ballot, first, second, SpendingTx(p), afterFirst, afterSecond, State(map[], map[q := v]));
  }
}
