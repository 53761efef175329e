/** The guest program, and what an accepted consumption of a proposal cell says about a window and about the chain. */
module Settlement {
  import opened Base
  import opened Layout
  import opened Schema
  import opened VoteTypes
  import opened Shallow
  import opened Integrity
  import opened Trace
  import opened Tally
  import opened Sums
  import opened Threshold
  import DoubleCount
  import ProposalContract

  /** What the readers show of a raw transaction's bytes. */
  type View = Bytes -> RawTx

  function WindowOf(view: View, blocks: seq<Block>): Window {
    seq(|blocks|, i requires 0 <= i < |blocks| =>
      seq(|blocks[i].txs|, t requires 0 <= t < |blocks[i].txs| => view(blocks[i].txs[t].raw)))
  }

  // ----- The guest program -----

  /** The `raw` accessor of a transaction, which is not verified: None where its slice would be out of bounds. */
  function RawPart(tx: Bytes): Option<Bytes> {
    FieldUnchecked(tx, 2, 0)
  }

  predicate RawPartsReadable(blocks: seq<BlockSlices>) {
    forall i, t :: 0 <= i < |blocks| && 0 <= t < |blocks[i].transactions| ==> RawPart(blocks[i].transactions[t]).Some?
  }

  function ToBlock(b: BlockSlices): Block
    requires |b.header| == HEADER_SIZE
    requires forall t :: 0 <= t < |b.transactions| ==> RawPart(b.transactions[t]).Some?
  {
    Block(b.header, seq(|b.transactions|, t requires 0 <= t < |b.transactions| =>
      Tx(RawPart(b.transactions[t]).value, b.transactions[t])))
  }

  function ToBlocks(blocks: seq<BlockSlices>): (r: seq<Block>)
    requires RawPartsReadable(blocks) && forall i :: 0 <= i < |blocks| ==> |blocks[i].header| == HEADER_SIZE
    ensures |r| == |blocks|
  {
    seq(|blocks|, i requires 0 <= i < |blocks| => ToBlock(blocks[i]))
  }

  datatype Arguments = Arguments(blocks: Bytes, witnessRoots: seq<Digest>, proposalScript: Bytes)

  function ToDigests(items: seq<Bytes>): (r: seq<Digest>)
    requires forall i :: 0 <= i < |items| ==> |items[i]| == 32
    ensures r == items
  {
    if items == [] then [] else
      var last: Digest := items[|items| - 1];
      ToDigests(items[..|items| - 1]) + [last]
  }

  /** Strictly verified arguments; the block bytes are opaque to this verification. */
  function ReadArguments(b: Bytes): Option<Arguments> {
    if Verify(GUEST_ARGUMENTS, b, false).Err? then
      None
    else
      var f := Pieces(GUEST_ARGUMENTS, b, false);
      assert Verify(BYTES, f[0], false).Ok? && Verify(FixVec(32), f[1], false).Ok?;
      Some(Arguments(RawData(f[0]), ToDigests(FixVecItems(32, f[1])), f[2]))
  }

  function BuildArguments(args: Arguments): Bytes {
    Assemble([WriteBytes(args.blocks), WriteFixVec(args.witnessRoots), args.proposalScript])
  }

  /** Arguments prepared by the host are read back by the guest, which is strict. */
  lemma ArgumentsRoundTrip(args: Arguments)
    requires Verify(SCRIPT, args.proposalScript, false).Ok?
    requires |BuildArguments(args)| < U32_LIMIT
    ensures ReadArguments(BuildArguments(args)) == Some(args)
  {
    var parts := [WriteBytes(args.blocks), WriteFixVec(args.witnessRoots), args.proposalScript];
    AssembleSize(parts);
    PartSmaller(parts, 0);
    PartSmaller(parts, 1);
    BytesRoundTrip(args.blocks, false);
    FixVecRoundTrip(32, args.witnessRoots);
    BuiltRecord(GUEST_ARGUMENTS.fields, parts, false);
  }

  lemma TransactionsVerified(uncle: Type, transaction: Type, b: Bytes)
    requires Verify(BlockType(uncle, transaction), b, true).Ok?
    ensures VerifyBlockShallow(b, false).Ok?
    ensures forall t :: 0 <= t < |ReadBlock(b).transactions| ==>
              Verify(transaction, ReadBlock(b).transactions[t], true).Ok?
  {
    DeepBlockIsShallow(uncle, transaction, b, false);
    var p := Pieces(BlockType(uncle, transaction), b, true);
    assert Verify(DynVec(transaction), p[2], true).Ok?;
    assert Pieces(DynVec(transaction), p[2], true) == ReadBlock(b).transactions;
  }

  /** The blocks the guest works on, if it gets that far. */
  function GuestBlocks(args: Arguments): Option<seq<Block>> {
    if VerifyBlockVec(args.blocks, false).Err? then None
    else
      var slices := ReadBlocks(args.blocks, false);
      if RawPartsReadable(slices) then Some(ToBlocks(slices)) else None
  }

  /** Blocks that full verification accepts, whose transactions have a raw part and witnesses, are readable. */
  lemma FullyVerifiedBlocksAreReadable(uncle: Type, raw: Type, witnesses: Type, args: Arguments)
    requires Verify(DynVec(BlockType(uncle, TableOf([raw, witnesses]))), args.blocks, true).Ok?
    ensures GuestBlocks(args).Some?
    ensures |GuestBlocks(args).value| == |Split(Vector, args.blocks).value|
  {
    var transaction := TableOf([raw, witnesses]);
    DeepIsShallow(uncle, transaction, args.blocks, false);
    var slices := Pieces(DynVec(BlockType(uncle, transaction)), args.blocks, true);
    var blocks := ReadBlocks(args.blocks, false);
    forall i, t | 0 <= i < |blocks| && 0 <= t < |blocks[i].transactions|
      ensures RawPart(blocks[i].transactions[t]).Some?
    {
      TransactionsVerified(uncle, transaction, slices[i]);
      AccessorsAreSafe([raw, witnesses], blocks[i].transactions[t], true);
    }
  }

  ghost function PublicValuesFor(h: HashFn, view: View, blocks: seq<Block>, script: Bytes): PublicValues
    requires blocks != []
  {
    var result := CountResult(h, WindowOf(view, blocks), script);
    PublicValues(result.proposal, h(blocks[0].header), h(blocks[|blocks| - 1].header), script,
                 if result.passed then 1 else 0, result.yesVote, result.noVote)
  }

  /** The bytes the guest commits; None where it stops without committing. */
  ghost function Commit(h: HashFn, view: View, input: Bytes): Option<Bytes> {
    match ReadArguments(input)
    case None => None
    case Some(args) =>
      match GuestBlocks(args)
      case None => None
      case Some(blocks) =>
        if IntegrityHolds(h, blocks, args.witnessRoots) then
          Some(WritePublicValues(PublicValuesFor(h, view, blocks, args.proposalScript)))
        else None
  }

  /** Given this input the guest works on these blocks, with these roots, for this script. */
  ghost predicate GuestReads(input: Bytes, blocks: seq<Block>, roots: seq<Digest>, script: Bytes) {
    && ReadArguments(input).Some?
    && var args := ReadArguments(input).value;
       GuestBlocks(args) == Some(blocks) && args.witnessRoots == roots && args.proposalScript == script
  }

  /** The arguments by field: the blocks after their length, the roots after their count, the script. */
  lemma ArgumentsByField(b: Bytes)
    requires ReadArguments(b).Some?
    ensures var args := ReadArguments(b).value;
            && FieldUnchecked(b, 3, 0) == Some(Le(|args.blocks|, 4) + args.blocks)
            && FieldUnchecked(b, 3, 1) == Some(Le(|args.witnessRoots|, 4) + Join(args.witnessRoots))
            && FieldUnchecked(b, 3, 2) == Some(args.proposalScript)
  {
    var f := Pieces(GUEST_ARGUMENTS, b, false);
    AccessorAt(GUEST_ARGUMENTS.fields, 3, b, false, 0);
    AccessorAt(GUEST_ARGUMENTS.fields, 3, b, false, 1);
    AccessorAt(GUEST_ARGUMENTS.fields, 3, b, false, 2);
    BytesCanonical(f[0]);
    FixVecCanonical(32, f[1]);
  }

  /** A block of the guest by the accessors: its header, and for each transaction the whole and its raw part. */
  ghost predicate BlockByField(slice: Bytes, block: Block) {
    && FieldUnchecked(slice, 4, 0) == Some(block.header)
    && FieldUnchecked(slice, 4, 2).Some?
    && var transactions := FieldUnchecked(slice, 4, 2).value;
       && CountUnchecked(transactions) == Some(|block.txs|)
       && forall t :: 0 <= t < |block.txs| ==>
            && ItemUnchecked(transactions, t) == Some(block.txs[t].full)
            && FieldUnchecked(block.txs[t].full, 2, 0) == Some(block.txs[t].raw)
  }

  lemma SafeBlockByField(slice: Bytes, found: BlockSlices)
    requires SafeBlock(slice, found)
    requires forall t :: 0 <= t < |found.transactions| ==> RawPart(found.transactions[t]).Some?
    ensures BlockByField(slice, ToBlock(found))
  {
  }

  /** The guest works on what the accessors find in the bytes. */
  lemma GuestBlocksByField(args: Arguments)
    requires GuestBlocks(args).Some?
    ensures Split(Vector, args.blocks).Ok? && |GuestBlocks(args).value| == |Split(Vector, args.blocks).value|
    ensures forall i :: 0 <= i < |GuestBlocks(args).value| ==>
              BlockByField(Split(Vector, args.blocks).value[i], GuestBlocks(args).value[i])
  {
    ShallowSuffices(args.blocks, false);
    var slices, found := Split(Vector, args.blocks).value, ReadBlocks(args.blocks, false);
    forall i | 0 <= i < |found| ensures BlockByField(slices[i], ToBlock(found[i])) {
      SafeBlockByField(slices[i], found[i]);
    }
  }

  /**
   * What the guest commits, by field and without reference to how it is put together: the proposal, the hashes of the
   * first and the last header, the script, the decision and the two sums.
   */
  lemma CommittedInFields(h: HashFn, view: View, input: Bytes, publicValues: Bytes, blocks: seq<Block>,
                          roots: seq<Digest>, script: Bytes)
    requires Commit(h, view, input) == Some(publicValues) && Verify(PUBLIC_VALUES, publicValues, false).Ok?
    requires GuestReads(input, blocks, roots, script)
    ensures blocks != []
    ensures var result := CountResult(h, WindowOf(view, blocks), script);
            && FieldUnchecked(publicValues, 7, 0) == Some(result.proposal)
            && FieldUnchecked(publicValues, 7, 1) == Some(h(blocks[0].header))
            && FieldUnchecked(publicValues, 7, 2) == Some(h(blocks[|blocks| - 1].header))
            && FieldUnchecked(publicValues, 7, 3) == Some(script)
            && FieldUnchecked(publicValues, 7, 4) == Some([if result.passed then 1 else 0])
            && FieldUnchecked(publicValues, 7, 5) == Some(Le(result.yesVote, 8))
            && FieldUnchecked(publicValues, 7, 6) == Some(Le(result.noVote, 8))
  {
    PublicValuesByField(PublicValuesFor(h, view, blocks, script), false);
  }

  lemma TotalsFor(h: HashFn, view: View, blocks: seq<Block>, script: Bytes, p: Proposal)
    requires ProposalOf(WindowOf(view, blocks), script) == Some(p) && |blocks| == p.duration + 1
    ensures var ballot := Ballot(p.voteCodeHash, p.voteHashType, h(script)[..20]);
            var votes := FinalState(h, ballot, WindowOf(view, blocks)).votes;
            var pv := PublicValuesFor(h, view, blocks, script);
            && pv.proposal == p.slice
            && pv.yesVote == Min(SideTotal(votes, true), U64_MAX) && pv.noVote == Min(SideTotal(votes, false), U64_MAX)
  {
    CountInFields(h, WindowOf(view, blocks), script);
  }

  lemma CommittedRecord(h: HashFn, view: View, input: Bytes, publicValues: Bytes, blocks: seq<Block>,
                        roots: seq<Digest>, script: Bytes)
    requires Commit(h, view, input) == Some(publicValues) && GuestReads(input, blocks, roots, script)
    ensures blocks != [] && publicValues == WritePublicValues(PublicValuesFor(h, view, blocks, script))
    ensures PublicValuesFor(h, view, blocks, script).yesVote <= U64_MAX
    ensures PublicValuesFor(h, view, blocks, script).noVote <= U64_MAX
  {
  }

  lemma RecordRead(pv: PublicValues, publicValues: Bytes)
    requires publicValues == WritePublicValues(pv) && Verify(PUBLIC_VALUES, publicValues, false).Ok?
    requires pv.yesVote <= U64_MAX && pv.noVote <= U64_MAX
    ensures ReadPublicValues(publicValues) == pv
  {
    PublicValuesRoundTrip(pv);
  }

  /** The committed sums of a window that was counted: each side's exact total, cut at 2^64 - 1. */
  lemma CommittedTotals(h: HashFn, view: View, input: Bytes, publicValues: Bytes, blocks: seq<Block>,
                        roots: seq<Digest>, script: Bytes, p: Proposal)
    requires Commit(h, view, input) == Some(publicValues) && Verify(PUBLIC_VALUES, publicValues, false).Ok?
    requires GuestReads(input, blocks, roots, script)
    requires ProposalOf(WindowOf(view, blocks), script) == Some(p) && |blocks| == p.duration + 1
    ensures var ballot := Ballot(p.voteCodeHash, p.voteHashType, h(script)[..20]);
            var votes := FinalState(h, ballot, WindowOf(view, blocks)).votes;
            && ReadPublicValues(publicValues).proposal == p.slice
            && ReadPublicValues(publicValues).yesVote == Min(SideTotal(votes, true), U64_MAX)
            && ReadPublicValues(publicValues).noVote == Min(SideTotal(votes, false), U64_MAX)
  {
    CommittedRecord(h, view, input, publicValues, blocks, roots, script);
    RecordRead(PublicValuesFor(h, view, blocks, script), publicValues);
    TotalsFor(h, view, blocks, script, p);
  }

  // ----- Settlement -----

  /** An accepted proof under this key hash means that some run of the guest committed these public values. */
  ghost predicate ProofsAreSound(h: HashFn, view: View, proofHolds: ProposalContract.ProofCheck, keyHash: Bytes) {
    forall proof, publicValues :: proofHolds(proof, publicValues, keyHash) ==>
      exists input :: Commit(h, view, input) == Some(publicValues)
  }

  ghost predicate SameHeader(h: HashFn, a: Bytes, b: Bytes) {
    a == b || Collide(h, a, b)
  }

  /**
   * A window of blocks that justifies the consumption of a proposal cell with this script and data: as many linked and
   * committed blocks as the proposal asks for, from one header dep to the other; the first of them creates this very
   * cell; and the votes in them pass the proposal.
   */
  ghost predicate Justifies(
    h: HashFn, view: View, blocks: seq<Block>, roots: seq<Digest>, script: Bytes, data: Bytes, start: Bytes, end: Bytes)
  {
    && IntegrityHolds(h, blocks, roots)
    && SameHeader(h, blocks[0].header, start)
    && SameHeader(h, blocks[|blocks| - 1].header, end)
    && ReadProposal(data).Some?
    && var proposal := ReadProposal(data).value;
       var window := WindowOf(view, blocks);
       var votes := FinalState(h, BallotOf(h, proposal, script), window).votes;
       && |blocks| == proposal.duration + 1
       && (exists t: nat, j: nat :: FirstWithScript(window, script, t, j) &&
             window[0][t].outputs[j].typ.Some? && window[0][t].outputs[j].typ.value.slice == script &&
             j < |window[0][t].outputsData| && window[0][t].outputsData[j] == data)
       && PassesSaturated(SideTotal(votes, true), SideTotal(votes, false), proposal.minimalRequirement)
  }

  /** A count that passes has found the proposal and counted the whole window. */
  lemma PassedCount(h: HashFn, window: Window, script: Bytes)
    requires CountResult(h, window, script).passed
    ensures ProposalOf(window, script).Some?
    ensures var p := ProposalOf(window, script).value;
            && CountResult(h, window, script).proposal == p.slice && ReadProposal(p.slice) == Some(p)
            && |window| == p.duration + 1
            && (exists t: nat, j: nat :: FirstWithScript(window, script, t, j) &&
                  j < |window[0][t].outputsData| && window[0][t].outputsData[j] == p.slice)
            && var votes := FinalState(h, BallotOf(h, p, script), window).votes;
               PassesSaturated(SideTotal(votes, true), SideTotal(votes, false), p.minimalRequirement)
  {
    ProposalInFields(window, script, ProposalOf(window, script).value);
  }

  /** What a committed record with passed == 1 says, once it has been accepted as a record at all. */
  lemma CommittedPass(h: HashFn, view: View, blocks: seq<Block>, script: Bytes)
    requires blocks != []
    requires Verify(PUBLIC_VALUES, WritePublicValues(PublicValuesFor(h, view, blocks, script)), false).Ok?
    requires ReadPublicValues(WritePublicValues(PublicValuesFor(h, view, blocks, script))).passed == 1
    ensures ReadPublicValues(WritePublicValues(PublicValuesFor(h, view, blocks, script)))
         == PublicValuesFor(h, view, blocks, script)
    ensures CountResult(h, WindowOf(view, blocks), script).passed
  {
    PublicValuesRoundTrip(PublicValuesFor(h, view, blocks, script));
  }

  /** Where committed bytes come from. */
  lemma CommittedBy(h: HashFn, view: View, input: Bytes, publicValues: Bytes)
    returns (blocks: seq<Block>, roots: seq<Digest>, script: Bytes)
    requires Commit(h, view, input) == Some(publicValues)
    ensures GuestReads(input, blocks, roots, script) && IntegrityHolds(h, blocks, roots)
    ensures publicValues == WritePublicValues(PublicValuesFor(h, view, blocks, script))
  {
    var args := ReadArguments(input).value;
    blocks, roots, script := GuestBlocks(args).value, args.witnessRoots, args.proposalScript;
  }

  /** Public values committed with passed == 1 justify the consumption of a cell with their script and data. */
  lemma CommittedPassJustifies(
    h: HashFn, view: View, blocks: seq<Block>, roots: seq<Digest>, script: Bytes, start: Bytes, end: Bytes)
    requires IntegrityHolds(h, blocks, roots) && CountResult(h, WindowOf(view, blocks), script).passed
    requires h(blocks[0].header) == h(start) && h(blocks[|blocks| - 1].header) == h(end)
    ensures var data := CountResult(h, WindowOf(view, blocks), script).proposal;
            Justifies(h, view, blocks, roots, script, data, start, end)
  {
    PassedCount(h, WindowOf(view, blocks), script);
  }

  predicate Settled(
    h: HashFn, proofHolds: ProposalContract.ProofCheck, ctx: ProposalContract.Context)
  {
    ProposalContract.Run(h, proofHolds, ctx).Ok? && !ProposalContract.InOutputs(h, ctx)
  }

  /** On this input the guest commits the public values that the witness carries. */
  ghost predicate RunBehind(h: HashFn, view: View, ctx: ProposalContract.Context, input: Bytes) {
    && ctx.inputType.Some? && Verify(PROPOSAL_WITNESS, ctx.inputType.value, false).Ok?
    && Commit(h, view, input) == Some(ProposalContract.PublicValuesOf(ctx.inputType.value))
  }

  /** The window that the guest worked on when the proof of an accepted consumption was made justifies it. */
  lemma SettledBy(h: HashFn, view: View, proofHolds: ProposalContract.ProofCheck, ctx: ProposalContract.Context,
                  input: Bytes) returns (blocks: seq<Block>, roots: seq<Digest>)
    requires Settled(h, proofHolds, ctx) && RunBehind(h, view, ctx, input)
    ensures GuestReads(input, blocks, roots, ctx.script.slice)
    ensures ctx.inputData.Some? && |ctx.headerDeps| >= 2
    ensures Justifies(h, view, blocks, roots, ctx.script.slice, ctx.inputData.value,
                      ctx.headerDeps[0], ctx.headerDeps[1])
  {
    var publicValues := ProposalContract.PublicValuesOf(ctx.inputType.value);
    var script;
    blocks, roots, script := CommittedBy(h, view, input, publicValues);
    CommittedPass(h, view, blocks, script);
    CommittedPassJustifies(h, view, blocks, roots, script, ctx.headerDeps[0], ctx.headerDeps[1]);
  }

  /** An accepted consumption is justified by a window that the integrity check accepts. */
  lemma SettlementIsSound(
    h: HashFn, view: View, proofHolds: ProposalContract.ProofCheck, ctx: ProposalContract.Context)
    requires Settled(h, proofHolds, ctx)
    requires ProofsAreSound(h, view, proofHolds, ctx.script.args[20..52])
    ensures ctx.inputData.Some? && |ctx.headerDeps| >= 2
    ensures exists input, blocks, roots ::
              && RunBehind(h, view, ctx, input) && GuestReads(input, blocks, roots, ctx.script.slice)
              && Justifies(h, view, blocks, roots, ctx.script.slice, ctx.inputData.value,
                           ctx.headerDeps[0], ctx.headerDeps[1])
  {
    assert ProposalContract.ProofAccepted(proofHolds, ctx);
    var publicValues := ProposalContract.PublicValuesOf(ctx.inputType.value);
    var input :| Commit(h, view, input) == Some(publicValues);
    var blocks, roots := SettledBy(h, view, proofHolds, ctx, input);
  }

  /**
   * A justified settlement whose requirement is within the bound passed by the exact rule, and if the vote script was
   * enforced in the window and no vote names a deposit twice, the counted voters' deposits exceed the requirement.
   */
  lemma SettlementIsBacked(
    h: HashFn, view: View, cell: OutPoint -> DoubleCount.Cell, blocks: seq<Block>, roots: seq<Digest>, script: Bytes,
    data: Bytes, start: Bytes, end: Bytes)
    requires Justifies(h, view, blocks, roots, script, data, start, end)
    requires ReadProposal(data).value.minimalRequirement <= LARGEST_REQUIREMENT
    requires var ballot := BallotOf(h, ReadProposal(data).value, script);
             var txs := Flatten(WindowOf(view, blocks));
             DoubleCount.Enforced(h, ballot, cell, txs) && DoubleCount.NamesDistinctDeps(ballot, txs)
    ensures var proposal := ReadProposal(data).value;
            var ballot := BallotOf(h, proposal, script);
            var window := WindowOf(view, blocks);
            var votes := FinalState(h, ballot, window).votes;
            && PassesExactly(SideTotal(votes, true), SideTotal(votes, false), proposal.minimalRequirement)
            && proposal.minimalRequirement * SHANNONS_PER_CKB <
                 Sum(DepositsOf(DoubleCount.EventsOf(h, ballot, window), votes.Keys), DoubleCount.CapacityAt(cell))
  {
    var proposal := ReadProposal(data).value;
    var ballot := BallotOf(h, proposal, script);
    var window := WindowOf(view, blocks);
    var votes := FinalState(h, ballot, window).votes;
    SaturationIsSound(SideTotal(votes, true), SideTotal(votes, false), proposal.minimalRequirement);
    DoubleCount.NoDepositCountedTwice(h, ballot, cell, window);
  }

  // ----- An honest settlement goes through -----

  function BuildWitness(proof: Bytes, publicValues: Bytes): Bytes {
    Assemble([WriteBytes(proof), publicValues])
  }

  lemma WitnessReads(proof: Bytes, publicValues: Bytes)
    requires Verify(PUBLIC_VALUES, publicValues, false).Ok?
    requires TotalSize([WriteBytes(proof), publicValues]) < U32_LIMIT
    ensures Verify(PROPOSAL_WITNESS, BuildWitness(proof, publicValues), false).Ok?
    ensures ProposalContract.ProofOf(BuildWitness(proof, publicValues)) == proof
    ensures ProposalContract.PublicValuesOf(BuildWitness(proof, publicValues)) == publicValues
  {
    var parts := [WriteBytes(proof), publicValues];
    PartSmaller(parts, 0);
    BytesRoundTrip(proof, false);
    BuiltRecord(PROPOSAL_WITNESS.fields, parts, false);
  }

  lemma PublicValuesFieldsVerify(parts: seq<Bytes>)
    requires |parts| == 7 && Verify(PROPOSAL, parts[0], false).Ok? && Verify(SCRIPT, parts[3], false).Ok?
    requires |parts[1]| == 32 && |parts[2]| == 32 && |parts[4]| == 1 && |parts[5]| == 8 && |parts[6]| == 8
    ensures forall i :: 0 <= i < 7 ==> Verify(PUBLIC_VALUES.fields[i], parts[i], false).Ok?
  {
    var fs := PUBLIC_VALUES.fields;
    assert fs[0] == PROPOSAL && fs[1] == Fixed(32) && fs[2] == Fixed(32) && fs[3] == SCRIPT;
    assert fs[4] == Fixed(1) && fs[5] == Fixed(8) && fs[6] == Fixed(8);
  }

  /** A record whose proposal and script are accepted by themselves is accepted and read back. */
  lemma PublicValuesAccepted(pv: PublicValues)
    requires Verify(PROPOSAL, pv.proposal, false).Ok? && Verify(SCRIPT, pv.proposalScript, false).Ok?
    requires |pv.startBlockHash| == 32 && |pv.endBlockHash| == 32 && pv.yesVote <= U64_MAX && pv.noVote <= U64_MAX
    requires TotalSize(PublicValuesParts(pv)) < U32_LIMIT
    ensures Verify(PUBLIC_VALUES, WritePublicValues(pv), false).Ok?
    ensures ReadPublicValues(WritePublicValues(pv)) == pv
  {
    PublicValuesFieldsVerify(PublicValuesParts(pv));
    BuiltRecord(PUBLIC_VALUES.fields, PublicValuesParts(pv), false);
    PublicValuesRoundTrip(pv);
  }

  /** The transaction consumes the cell with this data, under this script, against the two ends of the window. */
  ghost predicate Settles(
    h: HashFn, ctx: ProposalContract.Context, blocks: seq<Block>, data: Bytes, proof: Bytes, publicValues: Bytes)
    requires blocks != []
  {
    && |ctx.script.args| == 52 && !ProposalContract.InOutputs(h, ctx)
    && ctx.inputData == Some(data)
    && |ctx.headerDeps| >= 2
    && ctx.headerDeps[0] == blocks[0].header && ctx.headerDeps[1] == blocks[|blocks| - 1].header
    && ctx.inputType == Some(BuildWitness(proof, publicValues))
  }

  lemma WitnessClaims(
    proofHolds: ProposalContract.ProofCheck, ctx: ProposalContract.Context, proof: Bytes, pv: PublicValues)
    requires ctx.inputType == Some(BuildWitness(proof, WritePublicValues(pv))) && |ctx.script.args| == 52
    requires Verify(PUBLIC_VALUES, WritePublicValues(pv), false).Ok? && ReadPublicValues(WritePublicValues(pv)) == pv
    requires TotalSize([WriteBytes(proof), WritePublicValues(pv)]) < U32_LIMIT
    ensures ProposalContract.Claimed(ctx) == Some(pv)
    ensures ProposalContract.ProofAccepted(proofHolds, ctx) <==>
              proofHolds(proof, WritePublicValues(pv), ctx.script.args[20..52])
  {
    WitnessReads(proof, WritePublicValues(pv));
  }

  /**
   * The converse of soundness: what the guest commits for a window that passes is accepted together with its proof, for
   * a cell whose data the script accepted at its creation and whose script and witness are well-formed.
   */
  lemma HonestSettlementIsAccepted(
    h: HashFn, view: View, proofHolds: ProposalContract.ProofCheck, ctx: ProposalContract.Context, blocks: seq<Block>,
    pv: PublicValues, proof: Bytes)
    requires blocks != [] && pv == PublicValuesFor(h, view, blocks, ctx.script.slice)
    requires CountResult(h, WindowOf(view, blocks), ctx.script.slice).passed
    requires Verify(PROPOSAL, pv.proposal, false).Ok? && Verify(SCRIPT, ctx.script.slice, false).Ok?
    requires TotalSize([WriteBytes(proof), WritePublicValues(pv)]) < U32_LIMIT
    requires Settles(h, ctx, blocks, pv.proposal, proof, WritePublicValues(pv))
    requires proofHolds(proof, WritePublicValues(pv), ctx.script.args[20..52])
    ensures ProposalContract.Run(h, proofHolds, ctx).Ok?
  {
    PartSmaller([WriteBytes(proof), WritePublicValues(pv)], 1);
    AssembleSize(PublicValuesParts(pv));
    PublicValuesAccepted(pv);
    WitnessClaims(proofHolds, ctx, proof, pv);
  }

  // ----- The last header binds the result -----

  /** Windows with equal headers and raw transactions have the same count for every proposal script. */
  lemma SameWindowSameCount(h: HashFn, view: View, a: seq<Block>, b: seq<Block>, script: Bytes)
    requires SameContent(a, b)
    ensures CountResult(h, WindowOf(view, a), script) == CountResult(h, WindowOf(view, b), script)
  {
    var x, y := WindowOf(view, a), WindowOf(view, b);
    forall i | 0 <= i < |a| ensures x[i] == y[i] {
      assert forall t :: 0 <= t < |x[i]| ==> x[i][t] == y[i][t];
    }
    assert x == y;
  }

  /**
   * The committed end hash fixes what the guest counts in a window of given length, unless the two runs contain a hash
   * collision or read a block as different numbers of transactions.
   */
  lemma EndHashBindsCount(
    h: HashFn, view: View, a: seq<Block>, aRoots: seq<Digest>, b: seq<Block>, bRoots: seq<Digest>, script: Bytes)
    requires IntegrityHolds(h, a, aRoots) && IntegrityHolds(h, b, bRoots) && |a| == |b|
    requires h(a[|a| - 1].header) == h(b[|b| - 1].header)
    ensures || PublicValuesFor(h, view, a, script) == PublicValuesFor(h, view, b, script)
            || ChecksCollide(h, a, aRoots, b, bRoots) || ShapesDiffer(h, a, aRoots, b, bRoots)
  {
    WindowBinding(h, a, aRoots, b, bRoots);
    if SameContent(a, b) {
      SameWindowSameCount(h, view, a, b, script);
    }
  }

  // ----- The chain -----

  /** The count of a justifying window is the one that the public values tell of. */
  lemma JustifiedCountPasses(h: HashFn, view: View, blocks: seq<Block>, roots: seq<Digest>, script: Bytes, data: Bytes,
                             start: Bytes, end: Bytes)
    requires Justifies(h, view, blocks, roots, script, data, start, end)
    ensures CountResult(h, WindowOf(view, blocks), script).passed
    ensures CountResult(h, WindowOf(view, blocks), script).proposal == data
  {
    ProposalInFields(WindowOf(view, blocks), script, ReadProposal(data).value);
  }

  /** The votes on the chain pass the proposal with this data, and its window begins at this header. */
  ghost predicate PassesOn(h: HashFn, view: View, chain: seq<Block>, script: Bytes, data: Bytes, start: Bytes)
    requires chain != []
  {
    && CountResult(h, WindowOf(view, chain), script).passed
    && CountResult(h, WindowOf(view, chain), script).proposal == data
    && SameHeader(h, chain[0].header, start)
  }

  /** A justifying window and the chain that ends in the same header dep agree, with the exceptions of the binding. */
  lemma ChainAgrees(
    h: HashFn, view: View, blocks: seq<Block>, roots: seq<Digest>, chain: seq<Block>, chainRoots: seq<Digest>,
    script: Bytes, data: Bytes, start: Bytes, end: Bytes)
    requires Justifies(h, view, blocks, roots, script, data, start, end)
    requires IntegrityHolds(h, chain, chainRoots) && |chain| == |blocks| && chain[|chain| - 1].header == end
    ensures || (SameContent(blocks, chain) && PassesOn(h, view, chain, script, data, start))
            || ChecksCollide(h, blocks, roots, chain, chainRoots) || ShapesDiffer(h, blocks, roots, chain, chainRoots)
    ensures SameShape(blocks, chain) || (Unambiguous(blocks) && Unambiguous(chain)) ==>
              || (SameContent(blocks, chain) && PassesOn(h, view, chain, script, data, start))
              || ChecksCollide(h, blocks, roots, chain, chainRoots)
  {
    JustifiedCountPasses(h, view, blocks, roots, script, data, start, end);
    WindowBinding(h, blocks, roots, chain, chainRoots);
    if SameShape(blocks, chain) || (Unambiguous(blocks) && Unambiguous(chain)) {
      UnambiguousBinding(h, blocks, roots, chain, chainRoots);
    }
    if SameContent(blocks, chain) {
      SameWindowSameCount(h, view, blocks, chain, script);
    }
  }

  /**
   * An accepted consumption against the actual chain: if `duration + 1` blocks of the chain end in the second header
   * dep, their votes pass the proposal of this cell, or the guest's run and the check of the chain contain a collision,
   * or they read a block of the chain as different numbers of transactions.
   */
  lemma SettlementHoldsOnChain(
    h: HashFn, view: View, proofHolds: ProposalContract.ProofCheck, ctx: ProposalContract.Context, input: Bytes,
    blocks: seq<Block>, roots: seq<Digest>, chain: seq<Block>, chainRoots: seq<Digest>)
    requires Settled(h, proofHolds, ctx) && RunBehind(h, view, ctx, input)
    requires GuestReads(input, blocks, roots, ctx.script.slice)
    requires ctx.inputData.Some? && ReadProposal(ctx.inputData.value).Some? && |ctx.headerDeps| >= 2
    requires IntegrityHolds(h, chain, chainRoots)
    requires |chain| == ReadProposal(ctx.inputData.value).value.duration + 1
    requires chain[|chain| - 1].header == ctx.headerDeps[1]
    ensures || PassesOn(h, view, chain, ctx.script.slice, ctx.inputData.value, ctx.headerDeps[0])
            || ChecksCollide(h, blocks, roots, chain, chainRoots) || ShapesDiffer(h, blocks, roots, chain, chainRoots)
    ensures Unambiguous(blocks) && Unambiguous(chain) ==>
              || PassesOn(h, view, chain, ctx.script.slice, ctx.inputData.value, ctx.headerDeps[0])
              || ChecksCollide(h, blocks, roots, chain, chainRoots)
  {
    var blocks', roots' := SettledBy(h, view, proofHolds, ctx, input);
    assert blocks' == blocks && roots' == roots;
    ChainAgrees(h, view, blocks, roots, chain, chainRoots, ctx.script.slice, ctx.inputData.value,
                ctx.headerDeps[0], ctx.headerDeps[1]);
  }
}
