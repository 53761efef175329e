/** The test tool that turns template blocks into a window with one proposal and one YES vote per later block. */
module Generator {
  import opened Base
  import opened Layout
  import opened Schema
  import opened VoteTypes
  import opened Merkle
  import opened Integrity
  import opened Trace
  import opened Tally
  import opened Sums
  import opened Threshold
  import opened Settlement
  import Slicing

  /** Serializes a raw transaction. */
  type Build = RawTx -> Bytes

  /** A transaction with this raw part and no witnesses. */
  function BuildTx(build: Build, tx: RawTx): Tx {
    Tx(build(tx), Assemble([build(tx), Assemble([])]))
  }

  datatype ProposalFields = ProposalFields(
    voteCodeHash: Digest, voteHashType: byte, description: Bytes, receiver: Bytes, amount: nat, minimalRequirement: nat)

  const VOTE_AMOUNT := 100

  // ----- What is generated -----

  /** The proposal with its duration set to one less than the number of blocks, as a 32-bit number. */
  function StampedProposal(fields: ProposalFields, count: nat): Bytes
    requires count > 0
  {
    Assemble(ProposalParts(count - 1, fields.voteCodeHash, fields.voteHashType, fields.description, fields.receiver,
                           fields.amount, fields.minimalRequirement))
  }

  function ProposalScript(h: HashFn, proposal: Bytes): Script {
    BuildScript(h(proposal), 0, [])
  }

  function VoteScript(h: HashFn, fields: ProposalFields, proposalScript: Script): Script {
    BuildScript(fields.voteCodeHash, fields.voteHashType, Blake160(h, proposalScript.slice))
  }

  function ProposalTx(proposal: Bytes, proposalScript: Script): RawTx {
    RawTx([], [], [CellOutput(DEFAULT_SCRIPT.slice, Some(proposalScript))], [proposal])
  }

  /** Each voter's lock has the block index as its args. */
  function VoterLock(index: nat): Bytes {
    BuildScript(ZERO_DIGEST, 0, Le(index, 8)).slice
  }

  function VoteTx(voteScript: Script, index: nat): RawTx {
    RawTx([], [], [CellOutput(VoterLock(index), Some(voteScript))], [WriteVote(Vote(1, VOTE_AMOUNT, []))])
  }

  function ExtraTx(h: HashFn, fields: ProposalFields, count: nat, index: nat): RawTx
    requires count > 0
  {
    var proposal := StampedProposal(fields, count);
    var script := ProposalScript(h, proposal);
    if index == 0 then ProposalTx(proposal, script) else VoteTx(VoteScript(h, fields, script), index)
  }

  /** The readers show each appended transaction as it was built. */
  ghost predicate ReadsBack(h: HashFn, fields: ProposalFields, count: nat, build: Build, view: View)
    requires count > 0
  {
    forall i: nat :: i < count ==> view(build(ExtraTx(h, fields, count, i))) == ExtraTx(h, fields, count, i)
  }

  /** The generated proposal script and the type script that marks its votes. */
  function ScriptFor(h: HashFn, fields: ProposalFields, count: nat): Bytes
    requires count > 0
  {
    ProposalScript(h, StampedProposal(fields, count)).slice
  }

  function BallotFor(h: HashFn, fields: ProposalFields, count: nat): Ballot
    requires count > 0
  {
    Ballot(fields.voteCodeHash, fields.voteHashType, Blake160(h, ScriptFor(h, fields, count)))
  }

  function WithTransactionsRoot(header: Header, root: Digest): (r: Header)
    ensures TransactionsRoot(r) == root && ParentHash(r) == ParentHash(header)
    ensures forall k :: 0 <= k < 64 || 96 <= k < 208 ==> r[k] == header[k]
  {
    header[..64] + root + header[96..]
  }

  function WithParentHash(header: Header, parent: Digest): (r: Header)
    ensures ParentHash(r) == parent && TransactionsRoot(r) == TransactionsRoot(header)
    ensures forall k :: 0 <= k < 32 || 64 <= k < 208 ==> r[k] == header[k]
  {
    header[..32] + parent + header[64..]
  }

  method RebuildBlock(h: HashFn, template: Block, extra: Tx) returns (r: Block)
    ensures r.txs == template.txs + [extra]
    ensures CommitsToBothTrees(h, r)
    ensures r.header == WithTransactionsRoot(template.header, TransactionsRoot(r.header))
  {
    var txs := template.txs + [extra];
    var witnessRoot, _ := MerkleRoot(h, WitnessHashes(h, txs));
    var root := CalcTransactionsRoot(h, Block(template.header, txs), witnessRoot);
    r := Block(WithTransactionsRoot(template.header, root), txs);
  }

  /** Each block is its template with one more transaction, committed to by the header. */
  ghost predicate Generated(
    h: HashFn, build: Build, fields: ProposalFields, templates: seq<Block>, blocks: seq<Block>)
    requires templates != []
  {
    && |blocks| == |templates|
    && forall i :: 0 <= i < |blocks| ==>
         blocks[i].txs == templates[i].txs + [BuildTx(build, ExtraTx(h, fields, |templates|, i))]
  }

  /** `extra` makes the transaction for each block index. */
  method AppendTransactions(h: HashFn, extra: nat -> Tx, templates: seq<Block>) returns (blocks: seq<Block>)
    ensures |blocks| == |templates|
    ensures forall i :: 0 <= i < |blocks| ==> blocks[i].txs == templates[i].txs + [extra(i)]
    ensures forall i :: 0 <= i < |blocks| ==>
              blocks[i].header == WithTransactionsRoot(templates[i].header, TransactionsRoot(blocks[i].header))
    ensures forall i :: 0 <= i < |blocks| ==> CommitsToBothTrees(h, blocks[i])
  {
    blocks := [];
    for i := 0 to |templates|
      invariant |blocks| == i
      invariant forall k :: 0 <= k < i ==> blocks[k].txs == templates[k].txs + [extra(k)]
      invariant forall k :: 0 <= k < i ==>
                  blocks[k].header == WithTransactionsRoot(templates[k].header, TransactionsRoot(blocks[k].header))
      invariant forall k :: 0 <= k < i ==> CommitsToBothTrees(h, blocks[k])
    {
      var block := RebuildBlock(h, templates[i], extra(i));
      blocks := blocks + [block];
    }
  }

  /** The block after a given one: only its parent hash is replaced. */
  function Relinked(h: HashFn, block: Block, previous: Block): Block {
    Block(WithParentHash(block.header, h(previous.header)), block.txs)
  }

  lemma StillCommits(h: HashFn, block: Block, previous: Block)
    requires CommitsToBothTrees(h, block)
    ensures CommitsToBothTrees(h, Relinked(h, block, previous))
  {
  }

  /**
   * The parent hashes are recomputed from the second block on: changing a header changes the hash that the next block
   * must name, so the loop links the blocks in order.
   */
  method LinkBlocks(h: HashFn, unlinked: seq<Block>) returns (blocks: seq<Block>)
    ensures |blocks| == |unlinked|
    ensures |blocks| > 0 ==> blocks[0] == unlinked[0]
    ensures forall i :: 0 < i < |blocks| ==> blocks[i] == Relinked(h, unlinked[i], blocks[i - 1])
    ensures LinkedBelow(h, blocks, |blocks|)
  {
    blocks := unlinked;
    if |blocks| == 0 {
      return;
    }
    for i := 1 to |blocks|
      invariant |blocks| == |unlinked|
      invariant blocks[0] == unlinked[0]
      invariant forall k :: i <= k < |blocks| ==> blocks[k] == unlinked[k]
      invariant forall k :: 0 < k < i ==> blocks[k] == Relinked(h, unlinked[k], blocks[k - 1])
    {
      var parentHash := h(blocks[i - 1].header);
      blocks := blocks[i := Block(WithParentHash(blocks[i].header, parentHash), blocks[i].txs)];
    }
  }

  /** One transaction is appended to each block, the blocks are linked, and the witness roots are computed. */
  method Generate(h: HashFn, build: Build, fields: ProposalFields, templates: seq<Block>)
    returns (blocks: seq<Block>, roots: seq<Digest>, proposalScript: Bytes)
    requires templates != []
    ensures proposalScript == ScriptFor(h, fields, |templates|)
    ensures Generated(h, build, fields, templates, blocks)
    ensures roots == TrueWitnessRoots(h, blocks)
    ensures IntegrityHolds(h, blocks, roots)
  {
    proposalScript := ScriptFor(h, fields, |templates|);
    var appended := AppendTransactions(h, (i: nat) => BuildTx(build, ExtraTx(h, fields, |templates|, i)), templates);
    blocks := LinkBlocks(h, appended);
    forall i | 0 <= i < |blocks| ensures blocks[i].txs == appended[i].txs && CommitsToBothTrees(h, blocks[i]) {
      if i > 0 {
        StillCommits(h, appended[i], blocks[i - 1]);
      }
    }
    roots := PrepareWitnessRoots(h, blocks);
    PreparedRootsAreExact(h, blocks);
  }

  // ----- What it counts to -----

  /** The sizes and the receiver script of a proposal that was verified when it was built. */
  ghost predicate WellFormed(fields: ProposalFields, count: nat) {
    && 0 < count <= U32_LIMIT
    && Verify(SCRIPT, fields.receiver, true).Ok?
    && fields.minimalRequirement <= U64_MAX
    && TotalSize(ProposalParts(count - 1, fields.voteCodeHash, fields.voteHashType, fields.description,
                               fields.receiver, fields.amount, fields.minimalRequirement)) < U32_LIMIT
  }

  lemma StampedProposalReads(fields: ProposalFields, count: nat)
    requires WellFormed(fields, count)
    ensures ReadProposal(StampedProposal(fields, count))
         == Some(Proposal(StampedProposal(fields, count), count - 1, fields.voteCodeHash, fields.voteHashType,
                          fields.minimalRequirement))
  {
    ProposalRoundTrip(count - 1, fields.voteCodeHash, fields.voteHashType, fields.description, fields.receiver,
                      fields.amount, fields.minimalRequirement);
  }

  lemma LockEndsInIndex(i: nat)
    ensures |VoterLock(i)| >= 8 && VoterLock(i)[|VoterLock(i)| - 8..] == Le(i, 8)
  {
    var args := WriteBytes(Le(i, 8));
    var parts := [ZERO_DIGEST, [0], args];
    assert parts[..2] + [args] == parts;
    assert Join(parts) == Join(parts[..2]) + args;
  }

  /** The stamped proposal by field: only the duration is the generator's. */
  lemma StampedFields(fields: ProposalFields, count: nat)
    requires WellFormed(fields, count)
    ensures var b := StampedProposal(fields, count);
            && FieldUnchecked(b, 7, 0) == Some(Le(count - 1, 4))
            && FieldUnchecked(b, 7, 1) == Some(fields.voteCodeHash)
            && FieldUnchecked(b, 7, 2) == Some([fields.voteHashType])
            && FieldUnchecked(b, 7, 3) == Some(Le(|fields.description|, 4) + fields.description)
            && FieldUnchecked(b, 7, 4) == Some(fields.receiver)
            && FieldUnchecked(b, 7, 5) == Some(Le(fields.amount, 8))
            && FieldUnchecked(b, 7, 6) == Some(Le(fields.minimalRequirement, 8))
  {
    StampedProposalReads(fields, count);
    BuiltFields(PROPOSAL.fields, ProposalParts(count - 1, fields.voteCodeHash, fields.voteHashType, fields.description,
                                               fields.receiver, fields.amount, fields.minimalRequirement), true);
  }

  lemma ScriptFields(codeHash: Digest, hashType: byte, args: Bytes)
    requires |args| < U32_LIMIT - 100
    ensures var b := BuildScript(codeHash, hashType, args).slice;
            && FieldUnchecked(b, 3, 0) == Some(codeHash) && FieldUnchecked(b, 3, 1) == Some([hashType])
            && FieldUnchecked(b, 3, 2) == Some(Le(|args|, 4) + args)
  {
    var parts := [codeHash, [hashType], WriteBytes(args)];
    JoinOfThree(codeHash, [hashType], WriteBytes(args));
    BuiltPart(parts, 3, 0);
    BuiltPart(parts, 3, 1);
    BuiltPart(parts, 3, 2);
  }

  lemma VoteDataReads()
    ensures ReadVote(WriteVote(Vote(1, VOTE_AMOUNT, [])), true) == Some(Vote(1, VOTE_AMOUNT, []))
  {
    VoteSize(Vote(1, VOTE_AMOUNT, []));
    VoteRoundTrip(Vote(1, VOTE_AMOUNT, []), true);
  }

  /** The appended transactions in their fields: the proposal cell in the first block, a vote cell in each later one. */
  lemma ExtraTxInFields(h: HashFn, fields: ProposalFields, count: nat, index: nat)
    requires count > 0
    ensures var tx, script := ExtraTx(h, fields, count, index), ScriptFor(h, fields, count);
            && tx.cellDeps == [] && tx.inputs == [] && |tx.outputs| == |tx.outputsData| == 1 && tx.outputs[0].typ.Some?
            && FieldUnchecked(script, 3, 0) == Some(h(StampedProposal(fields, count)))
            && (index == 0 ==>
                  && tx.outputs[0].typ.value.slice == script && tx.outputsData[0] == StampedProposal(fields, count)
                  && tx.outputs[0].lock == DEFAULT_SCRIPT.slice)
            && (index > 0 ==>
                  && tx.outputs[0].typ.value.codeHash == fields.voteCodeHash
                  && tx.outputs[0].typ.value.hashType == fields.voteHashType
                  && tx.outputs[0].typ.value.args == h(script)[..20]
                  && ReadVote(tx.outputsData[0], true) == Some(Vote(1, 100, []))
                  && FieldUnchecked(tx.outputs[0].lock, 3, 0) == Some(ZERO_DIGEST)
                  && FieldUnchecked(tx.outputs[0].lock, 3, 1) == Some([0])
                  && FieldUnchecked(tx.outputs[0].lock, 3, 2) == Some(Le(8, 4) + Le(index, 8)))
  {
    ScriptFields(h(StampedProposal(fields, count)), 0, []);
    ScriptFields(ZERO_DIGEST, 0, Le(index, 8));
    VoteDataReads();
  }

  /** Any two generated locks differ, so equal voter hashes would be a collision. */
  lemma VoterLocksDiffer(i: nat, j: nat)
    requires i < j < U64_MAX
    ensures VoterLock(i) != VoterLock(j)
  {
    LockEndsInIndex(i);
    LockEndsInIndex(j);
    Ranges();
    if Le(i, 8) == Le(j, 8) {
      LeInjective(i, j, 8);
      assert false;
    }
  }

  /** The voter of each block index, as the count computes it. */
  function VoterOf(h: HashFn): nat -> Digest {
    i => h(VoterLock(i))
  }

  ghost predicate DistinctVoters(voter: nat -> Digest, count: nat) {
    forall i: nat, j: nat :: 1 <= i < j < count ==> voter(i) != voter(j)
  }

  /** The templates contain no vote for the generated proposal, and their first block no cell with its script. */
  ghost predicate CleanTemplates(view: View, ballot: Ballot, script: Bytes, templates: seq<Block>) {
    && (forall i, t :: 0 <= i < |templates| && 0 <= t < |templates[i].txs| ==>
          !Slicing.CreatesVote(ballot, view(templates[i].txs[t].raw)))
    && (templates != [] ==> NoCarrier(WindowOf(view, templates)[0], script))
  }

  /** The votes after the blocks before `count`. */
  function ExpectedVotes(voter: nat -> Digest, count: nat): Votes {
    if count <= 1 then map[] else ExpectedVotes(voter, count - 1)[voter(count - 1) := (1, VOTE_AMOUNT)]
  }

  lemma {:induction false} ExpectedVoter(voter: nat -> Digest, count: nat, v: Digest) returns (i: nat)
    requires v in ExpectedVotes(voter, count)
    ensures 1 <= i < count && v == voter(i)
  {
    if v == voter(count - 1) {
      i := count - 1;
    } else {
      i := ExpectedVoter(voter, count - 1, v);
    }
  }

  lemma {:induction false} ExpectedTotals(voter: nat -> Digest, count: nat)
    requires DistinctVoters(voter, count)
    ensures SideTotal(ExpectedVotes(voter, count), true) == VOTE_AMOUNT * (if count == 0 then 0 else count - 1)
    ensures SideTotal(ExpectedVotes(voter, count), false) == 0
  {
    if count <= 1 {
      NoVotes();
    } else {
      ExpectedTotals(voter, count - 1);
      var before := ExpectedVotes(voter, count - 1);
      if voter(count - 1) in before {
        var i := ExpectedVoter(voter, count - 1, voter(count - 1));
        assert false;
      }
      NewVoter(before, voter(count - 1), 1, VOTE_AMOUNT);
    }
  }

  lemma ProposalTxEvents(h: HashFn, ballot: Ballot, proposal: Bytes)
    requires ballot.args != []
    ensures TxEvents(h, ballot, ProposalTx(proposal, ProposalScript(h, proposal))) == []
  {
    var tx := ProposalTx(proposal, ProposalScript(h, proposal));
    OutputsOfOne(h, ballot, tx);
  }

  lemma VoteTxEvents(h: HashFn, ballot: Ballot, script: Script, index: nat)
    requires ballot == Ballot(script.codeHash, script.hashType, script.args)
    ensures TxEvents(h, ballot, VoteTx(script, index)) == [Cast(h(VoterLock(index)), 1, VOTE_AMOUNT, [])]
  {
    var tx := VoteTx(script, index);
    VoteDataReads();
    assert Spends(tx.inputs) == [];
    OutputsOfOne(h, ballot, tx);
    assert Records([], h(VoterLock(index))) == [];
  }

  /** What the appended transaction of a block does: nothing in the first block, one vote in each later one. */
  function TurnEvents(voter: nat -> Digest, index: nat): seq<Event> {
    if index == 0 then [] else [Cast(voter(index), 1, VOTE_AMOUNT, [])]
  }

  lemma ExtraTxEvents(h: HashFn, fields: ProposalFields, count: nat, index: nat)
    requires count > 0
    ensures TxEvents(h, BallotFor(h, fields, count), ExtraTx(h, fields, count, index)) == TurnEvents(VoterOf(h), index)
  {
    var proposal := StampedProposal(fields, count);
    if index == 0 {
      ProposalTxEvents(h, BallotFor(h, fields, count), proposal);
    } else {
      VoteTxEvents(h, BallotFor(h, fields, count), VoteScript(h, fields, ProposalScript(h, proposal)), index);
    }
  }

  /** Transactions that create no vote leave a state without recorded deposits as it is. */
  lemma {:induction false} TemplateTxsRun(h: HashFn, ballot: Ballot, s: State, txs: seq<RawTx>)
    requires s.owners == map[] && forall t :: 0 <= t < |txs| ==> !Slicing.CreatesVote(ballot, txs[t])
    ensures RunFrom(s, TxsEvents(h, ballot, txs)) == s
  {
    if txs != [] {
      var n := |txs| - 1;
      TemplateTxsRun(h, ballot, s, txs[..n]);
      RunConcat(s, TxsEvents(h, ballot, txs[..n]), TxEvents(h, ballot, txs[n]));
      Slicing.InertStep(h, ballot, {}, s, txs[n]);
    }
  }

  lemma GeneratedWindow(
    h: HashFn, build: Build, view: View, fields: ProposalFields, templates: seq<Block>, blocks: seq<Block>, i: nat)
    requires templates != [] && Generated(h, build, fields, templates, blocks) && i < |blocks|
    requires ReadsBack(h, fields, |templates|, build, view)
    ensures WindowOf(view, blocks)[i] == WindowOf(view, templates)[i] + [ExtraTx(h, fields, |templates|, i)]
  {
  }

  lemma CleanBlock(view: View, ballot: Ballot, script: Bytes, templates: seq<Block>, i: nat)
    requires CleanTemplates(view, ballot, script, templates) && i < |templates|
    ensures forall t :: 0 <= t < |WindowOf(view, templates)[i]| ==>
              !Slicing.CreatesVote(ballot, WindowOf(view, templates)[i][t])
  {
  }

  ghost predicate CreatesNoVotes(ballot: Ballot, txs: seq<RawTx>) {
    forall t :: 0 <= t < |txs| ==> !Slicing.CreatesVote(ballot, txs[t])
  }

  ghost predicate RunsBlock(h: HashFn, ballot: Ballot, block: seq<RawTx>, before: State, after: State) {
    after == RunFrom(before, TxsEvents(h, ballot, block))
  }

  /** The block casts the vote of its index and does nothing else. */
  ghost predicate BlockCasts(h: HashFn, voter: nat -> Digest, ballot: Ballot, block: seq<RawTx>, index: nat) {
    RunsBlock(h, ballot, block, State(ExpectedVotes(voter, index), map[]),
              State(ExpectedVotes(voter, index + 1), map[]))
  }

  /** The template's transactions change nothing, the appended one casts the vote of its index. */
  lemma TurnCasts(h: HashFn, voter: nat -> Digest, ballot: Ballot, txs: seq<RawTx>, extra: RawTx, index: nat)
    requires CreatesNoVotes(ballot, txs) && TxEvents(h, ballot, extra) == TurnEvents(voter, index)
    ensures BlockCasts(h, voter, ballot, txs + [extra], index)
  {
    var s := State(ExpectedVotes(voter, index), map[]);
    assert (txs + [extra])[..|txs|] == txs;
    RunConcat(s, TxsEvents(h, ballot, txs), TxEvents(h, ballot, extra));
    TemplateTxsRun(h, ballot, s, txs);
    if index > 0 {
      RunStep(s, [], TurnEvents(voter, index)[0]);
      assert [] + [TurnEvents(voter, index)[0]] == TurnEvents(voter, index);
    }
  }

  /** The states between the blocks. */
  ghost predicate RunsThrough(h: HashFn, ballot: Ballot, window: Window, states: seq<State>) {
    && |states| == |window| + 1 && states[0] == EMPTY
    && forall i {:trigger window[i]} :: 0 <= i < |window| ==> RunsBlock(h, ballot, window[i], states[i], states[i + 1])
  }

  predicate Follows(states: seq<State>, expected: nat -> State, i: nat)
    requires i + 1 < |states|
  {
    states[i] == expected(i) ==> states[i + 1] == expected(i + 1)
  }

  lemma {:induction false} AllAsExpected(states: seq<State>, expected: nat -> State, n: nat)
    requires n < |states| && states[0] == expected(0)
    requires forall i: nat :: i + 1 < |states| ==> Follows(states, expected, i)
    ensures states[n] == expected(n)
  {
    if n > 0 {
      AllAsExpected(states, expected, n - 1);
      assert Follows(states, expected, n - 1);
    }
  }

  lemma WholeWindow(window: Window)
    ensures window[..|window|] == window
  {
  }

  lemma WindowStates(h: HashFn, ballot: Ballot, window: Window) returns (states: seq<State>)
    ensures RunsThrough(h, ballot, window, states) && states[|window|] == FinalState(h, ballot, window)
  {
    states := seq(|window| + 1, i requires 0 <= i <= |window| => FinalState(h, ballot, window[..i]));
    forall i | 0 <= i < |window| ensures RunsBlock(h, ballot, window[i], states[i], states[i + 1]) {
      FinalStateStep(h, ballot, window, i);
    }
    WholeWindow(window);
  }

  lemma RunsBlockFollows(h: HashFn, ballot: Ballot, window: Window, states: seq<State>, expected: nat -> State, i: nat)
    requires i < |window| && RunsThrough(h, ballot, window, states)
    requires RunsBlock(h, ballot, window[i], expected(i), expected(i + 1))
    ensures Follows(states, expected, i)
  {
    assert RunsBlock(h, ballot, window[i], states[i], states[i + 1]);
  }

  lemma EndsAsExpected(h: HashFn, ballot: Ballot, window: Window, expected: nat -> State)
    requires expected(0) == EMPTY
    requires forall i :: 0 <= i < |window| ==> RunsBlock(h, ballot, window[i], expected(i), expected(i + 1))
    ensures FinalState(h, ballot, window) == expected(|window|)
  {
    var states := WindowStates(h, ballot, window);
    forall i: nat | i + 1 < |states| ensures Follows(states, expected, i) {
      RunsBlockFollows(h, ballot, window, states, expected, i);
    }
    AllAsExpected(states, expected, |window|);
  }

  lemma TurnsEnd(h: HashFn, voter: nat -> Digest, ballot: Ballot, window: Window)
    requires forall i :: 0 <= i < |window| ==> BlockCasts(h, voter, ballot, window[i], i)
    ensures FinalState(h, ballot, window) == State(ExpectedVotes(voter, |window|), map[])
  {
    var expected := (i: nat) => State(ExpectedVotes(voter, i), map[]);
    forall i | 0 <= i < |window| ensures RunsBlock(h, ballot, window[i], expected(i), expected(i + 1)) {
      assert BlockCasts(h, voter, ballot, window[i], i);
    }
    EndsAsExpected(h, ballot, window, expected);
  }

  lemma GeneratedTurn(
    h: HashFn, build: Build, view: View, fields: ProposalFields, templates: seq<Block>, blocks: seq<Block>,
    ballot: Ballot, script: Bytes, i: nat)
    requires templates != [] && Generated(h, build, fields, templates, blocks) && i < |blocks|
    requires ReadsBack(h, fields, |templates|, build, view) && CleanTemplates(view, ballot, script, templates)
    requires TxEvents(h, ballot, ExtraTx(h, fields, |templates|, i)) == TurnEvents(VoterOf(h), i)
    ensures BlockCasts(h, VoterOf(h), ballot, WindowOf(view, blocks)[i], i)
  {
    GeneratedWindow(h, build, view, fields, templates, blocks, i);
    CleanBlock(view, ballot, script, templates, i);
    TurnCasts(h, VoterOf(h), ballot, WindowOf(view, templates)[i], ExtraTx(h, fields, |templates|, i), i);
  }

  lemma GeneratedState(
    h: HashFn, build: Build, view: View, fields: ProposalFields, templates: seq<Block>, blocks: seq<Block>)
    requires templates != [] && Generated(h, build, fields, templates, blocks)
    requires ReadsBack(h, fields, |templates|, build, view)
    requires CleanTemplates(view, BallotFor(h, fields, |templates|), ScriptFor(h, fields, |templates|), templates)
    ensures FinalState(h, BallotFor(h, fields, |templates|), WindowOf(view, blocks))
         == State(ExpectedVotes(VoterOf(h), |templates|), map[])
  {
    var n := |templates|;
    var ballot, script := BallotFor(h, fields, n), ScriptFor(h, fields, n);
    var window := WindowOf(view, blocks);
    forall i | 0 <= i < |window| ensures BlockCasts(h, VoterOf(h), ballot, window[i], i) {
      ExtraTxEvents(h, fields, n, i);
      GeneratedTurn(h, build, view, fields, templates, blocks, ballot, script, i);
    }
    TurnsEnd(h, VoterOf(h), ballot, window);
  }

  lemma GeneratedProposal(
    h: HashFn, build: Build, view: View, fields: ProposalFields, templates: seq<Block>, blocks: seq<Block>)
    requires templates != [] && Generated(h, build, fields, templates, blocks)
    requires ReadsBack(h, fields, |templates|, build, view)
    requires NoCarrier(WindowOf(view, templates)[0], ScriptFor(h, fields, |templates|))
    ensures ProposalOf(WindowOf(view, blocks), ScriptFor(h, fields, |templates|))
         == ReadProposal(StampedProposal(fields, |templates|))
  {
    var script := ScriptFor(h, fields, |templates|);
    var prior, txs := WindowOf(view, templates)[0], WindowOf(view, blocks)[0];
    GeneratedWindow(h, build, view, fields, templates, blocks, 0);
    forall s, i | 0 <= s < |prior| && 0 <= i < |txs[s].outputs| ensures !CarriesScript(txs, script, s, i) {
      assert txs[s] == prior[s];
      assert !CarriesScript(prior, script, s, i);
    }
    assert CarriesScript(txs, script, |prior|, 0);
    assert FirstCarrier(txs, script, |prior|, 0);
    FirstCarrierDecides(WindowOf(view, blocks), script, |prior|, 0);
  }

  /**
   * The generated window counts to one hundred shannons of YES for each block after the first and nothing against it;
   * it passes iff there is a second block and the sum exceeds the requirement.
   */
  lemma GeneratedCount(
    h: HashFn, build: Build, view: View, fields: ProposalFields, templates: seq<Block>, blocks: seq<Block>)
    requires templates != [] && Generated(h, build, fields, templates, blocks)
    requires ReadsBack(h, fields, |templates|, build, view) && WellFormed(fields, |templates|)
    requires DistinctVoters(VoterOf(h), |templates|)
    requires CleanTemplates(view, BallotFor(h, fields, |templates|), ScriptFor(h, fields, |templates|), templates)
    ensures CountResult(h, WindowOf(view, blocks), ScriptFor(h, fields, |templates|))
         == VoteResult(StampedProposal(fields, |templates|), VOTE_AMOUNT * (|templates| - 1), 0,
                       && |templates| >= 2
                       && VOTE_AMOUNT * (|templates| - 1) > MinShannon(fields.minimalRequirement))
  {
    var n := |templates|;
    GeneratedProposal(h, build, view, fields, templates, blocks);
    StampedProposalReads(fields, n);
    GeneratedState(h, build, view, fields, templates, blocks);
    ExpectedTotals(VoterOf(h), n);
  }
}
