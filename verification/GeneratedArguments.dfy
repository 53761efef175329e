/**
 * From template bytes to argument bytes: the generator reads a block vector, and the guest that reads what it writes
 * commits the count of the generated window.
 */
module GeneratedArguments {
  import opened Base
  import opened Layout
  import opened Schema
  import opened VoteTypes
  import opened Shallow
  import opened Integrity
  import opened Tally
  import opened Threshold
  import opened Settlement
  import opened Generator

  /** The parts of a template block that are carried over unread. A block extension is not among them. */
  datatype Rest = Rest(uncles: Bytes, proposals: Bytes)

  predicate WellFormedRest(rest: Rest) {
    Split(Vector, rest.uncles).Ok? && VerifyFixVec(10, rest.proposals).Ok?
  }

  /** The raw part of the transaction is the one that the accessor finds in its serialized form. */
  predicate ConsistentTx(tx: Tx) {
    RawPart(tx.full) == Some(tx.raw)
  }

  predicate Consistent(blocks: seq<Block>) {
    forall i, t :: 0 <= i < |blocks| && 0 <= t < |blocks[i].txs| ==> ConsistentTx(blocks[i].txs[t])
  }

  // ----- Writing -----

  function FullTxs(txs: seq<Tx>): (r: seq<Bytes>)
    ensures |r| == |txs|
  {
    seq(|txs|, t requires 0 <= t < |txs| => txs[t].full)
  }

  function SlicesOf(blocks: seq<Block>, rests: seq<Rest>): (r: seq<BlockSlices>)
    requires |blocks| == |rests|
    ensures |r| == |blocks|
  {
    seq(|blocks|, i requires 0 <= i < |blocks| =>
      BlockSlices(blocks[i].header, rests[i].uncles, FullTxs(blocks[i].txs)))
  }

  function ProposalsOf(rests: seq<Rest>): (r: seq<Bytes>)
    ensures |r| == |rests|
  {
    seq(|rests|, i requires 0 <= i < |rests| => rests[i].proposals)
  }

  function ArgumentsOf(blocks: seq<Block>, rests: seq<Rest>, roots: seq<Digest>, script: Bytes): Arguments
    requires |blocks| == |rests|
  {
    Arguments(Assemble(WriteBlocks(SlicesOf(blocks, rests), ProposalsOf(rests))), roots, script)
  }

  lemma BlocksFit(args: Arguments)
    ensures |args.blocks| < |BuildArguments(args)|
  {
    var parts := [WriteBytes(args.blocks), WriteFixVec(args.witnessRoots), args.proposalScript];
    AssembleSize(parts);
    PartSmaller(parts, 0);
  }

  /** Each transaction is shorter than the blocks it is in. */
  lemma TxFits(blocks: seq<Block>, rests: seq<Rest>, i: nat, t: nat)
    requires |blocks| == |rests| && i < |blocks| && t < |blocks[i].txs|
    ensures |blocks[i].txs[t].full| < |Assemble(WriteBlocks(SlicesOf(blocks, rests), ProposalsOf(rests)))|
  {
    var slices := WriteBlocks(SlicesOf(blocks, rests), ProposalsOf(rests));
    var txs := FullTxs(blocks[i].txs);
    var parts := [blocks[i].header, rests[i].uncles, Assemble(txs), rests[i].proposals];
    AssembleSize(slices);
    AssembleSize(txs);
    AssembleSize(parts);
    PartSmaller(slices, i);
    PartSmaller(parts, 2);
    PartSmaller(txs, t);
  }

  lemma BlocksOfSlices(blocks: seq<Block>, rests: seq<Rest>)
    requires |blocks| == |rests| && Consistent(blocks)
    ensures RawPartsReadable(SlicesOf(blocks, rests)) && ToBlocks(SlicesOf(blocks, rests)) == blocks
  {
    var slices := SlicesOf(blocks, rests);
    forall i | 0 <= i < |blocks| ensures ToBlock(slices[i]) == blocks[i] {
      assert forall t :: 0 <= t < |blocks[i].txs| ==> slices[i].transactions[t] == blocks[i].txs[t].full;
      assert ToBlock(slices[i]).txs == blocks[i].txs;
    }
  }

  /** The guest reads the blocks, the roots and the script that the host wrote. */
  lemma WrittenArgumentsRead(blocks: seq<Block>, rests: seq<Rest>, roots: seq<Digest>, script: Bytes)
    requires |blocks| == |rests| && forall i :: 0 <= i < |rests| ==> WellFormedRest(rests[i])
    requires Consistent(blocks) && Verify(SCRIPT, script, false).Ok?
    requires |BuildArguments(ArgumentsOf(blocks, rests, roots, script))| < U32_LIMIT
    ensures ReadArguments(BuildArguments(ArgumentsOf(blocks, rests, roots, script)))
         == Some(ArgumentsOf(blocks, rests, roots, script))
    ensures GuestBlocks(ArgumentsOf(blocks, rests, roots, script)) == Some(blocks)
  {
    var args := ArgumentsOf(blocks, rests, roots, script);
    ArgumentsRoundTrip(args);
    BlocksFit(args);
    WrittenBlocksRead(SlicesOf(blocks, rests), ProposalsOf(rests), false);
    BlocksOfSlices(blocks, rests);
  }

  /** What the guest commits for arguments that the host wrote. */
  lemma WrittenArgumentsCommit(
    h: HashFn, view: View, blocks: seq<Block>, rests: seq<Rest>, roots: seq<Digest>, script: Bytes)
    requires |blocks| == |rests| && forall i :: 0 <= i < |rests| ==> WellFormedRest(rests[i])
    requires Consistent(blocks) && Verify(SCRIPT, script, false).Ok? && IntegrityHolds(h, blocks, roots)
    requires |BuildArguments(ArgumentsOf(blocks, rests, roots, script))| < U32_LIMIT
    ensures Commit(h, view, BuildArguments(ArgumentsOf(blocks, rests, roots, script)))
         == Some(WritePublicValues(PublicValuesFor(h, view, blocks, script)))
  {
    WrittenArgumentsRead(blocks, rests, roots, script);
  }

  /** Each written block by its fields, those that are carried over included. */
  lemma WrittenByField(blocks: seq<Block>, rests: seq<Rest>, i: nat)
    requires |blocks| == |rests| && i < |blocks|
    requires |Assemble(WriteBlocks(SlicesOf(blocks, rests), ProposalsOf(rests)))| < U32_LIMIT
    ensures var slices := WriteBlocks(SlicesOf(blocks, rests), ProposalsOf(rests));
            && |slices| == |blocks| && Split(Vector, Assemble(slices)) == Ok(slices)
            && FieldUnchecked(slices[i], 4, 0) == Some(blocks[i].header)
            && FieldUnchecked(slices[i], 4, 1) == Some(rests[i].uncles)
            && FieldUnchecked(slices[i], 4, 2) == Some(Assemble(FullTxs(blocks[i].txs)))
            && FieldUnchecked(slices[i], 4, 3) == Some(rests[i].proposals)
  {
    var slices := WriteBlocks(SlicesOf(blocks, rests), ProposalsOf(rests));
    var parts := [blocks[i].header, rests[i].uncles, Assemble(FullTxs(blocks[i].txs)), rests[i].proposals];
    AssembleSize(slices);
    SplitOfAssemble(Vector, slices);
    PartSmaller(slices, i);
    AssembleSize(parts);
    assert slices[i] == Assemble(parts);
    BuiltPart(parts, 4, 0);
    BuiltPart(parts, 4, 1);
    BuiltPart(parts, 4, 2);
    BuiltPart(parts, 4, 3);
  }

  // ----- Reading the templates -----

  /** The fully verified block vector; what uncles, raw transactions and witnesses are made of does not matter. */
  function TemplateType(uncle: Type, raw: Type, witnesses: Type): Type {
    DynVec(BlockType(uncle, TableOf([raw, witnesses])))
  }

  /** CKB's block vector is such a type. */
  lemma TemplatesAreBlocks()
    ensures TemplateType(UNCLE, RAW_TRANSACTION, DynVec(BYTES)) == DynVec(BLOCK)
    ensures Valid(DynVec(BLOCK))
  {
    BlockIsValid();
  }

  function ReadRest(b: Bytes): Rest
    requires Split(Table(4, true), b).Ok?
  {
    AssembleOfSplit(Table(4, true), b);
    var f := Split(Table(4, true), b).value;
    Rest(f[1], f[3])
  }

  function ReadRests(uncle: Type, raw: Type, witnesses: Type, b: Bytes): (r: seq<Rest>)
    requires Verify(TemplateType(uncle, raw, witnesses), b, true).Ok?
    ensures |r| == |Split(Vector, b).value|
    ensures forall i :: 0 <= i < |r| ==> WellFormedRest(r[i])
  {
    var slices := Pieces(TemplateType(uncle, raw, witnesses), b, true);
    seq(|slices|, i requires 0 <= i < |slices| =>
      DeepFields(uncle, TableOf([raw, witnesses]), slices[i]);
      ReadRest(slices[i]))
  }

  /** What is carried over of a template: fields 1 and 3 of its block. */
  lemma RestsByField(uncle: Type, raw: Type, witnesses: Type, b: Bytes, i: nat)
    requires Verify(TemplateType(uncle, raw, witnesses), b, true).Ok? && i < |Split(Vector, b).value|
    ensures var slice, rest := Split(Vector, b).value[i], ReadRests(uncle, raw, witnesses, b)[i];
            FieldUnchecked(slice, 4, 1) == Some(rest.uncles) && FieldUnchecked(slice, 4, 3) == Some(rest.proposals)
  {
    var slices := Pieces(TemplateType(uncle, raw, witnesses), b, true);
    DeepFields(uncle, TableOf([raw, witnesses]), slices[i]);
    FieldsAreParts(slices[i], 4, true);
  }

  function ReadTemplates(uncle: Type, raw: Type, witnesses: Type, b: Bytes): (r: seq<Block>)
    requires Verify(TemplateType(uncle, raw, witnesses), b, true).Ok?
    ensures |r| == |Split(Vector, b).value|
    ensures Consistent(r)
  {
    FullyVerifiedBlocksAreReadable(uncle, raw, witnesses, Arguments(b, [], []));
    GuestBlocks(Arguments(b, [], [])).value
  }

  /** The window and the carried-over parts are ones that the generator makes from templates it accepts. */
  ghost predicate GeneratedFrom(h: HashFn, build: Build, fields: ProposalFields, templates: seq<Block>,
                                rests: seq<Rest>, blocks: seq<Block>) {
    && templates != [] && |rests| == |templates| && Generated(h, build, fields, templates, blocks)
    && Consistent(templates) && (forall i :: 0 <= i < |rests| ==> WellFormedRest(rests[i]))
    && IntegrityHolds(h, blocks, TrueWitnessRoots(h, blocks))
  }

  function InputOf(h: HashFn, blocks: seq<Block>, rests: seq<Rest>, script: Bytes): Bytes
    requires |blocks| == |rests|
  {
    BuildArguments(ArgumentsOf(blocks, rests, TrueWitnessRoots(h, blocks), script))
  }

  /** With overflow checks, one less than no blocks stops the generator. */
  datatype Outcome = Refused(error: VerifyError) | Underflowed | Written(arguments: Bytes)

  /**
   * `generate_from_templates`: the error of the verifier, or the argument bytes of a linked and committed window over
   * the templates, with their uncles and proposals.
   */
  method GenerateFromTemplates(
    h: HashFn, build: Build, fields: ProposalFields, uncle: Type, raw: Type, witnesses: Type, templateBytes: Bytes)
    returns (r: Outcome, ghost blocks: seq<Block>)
    ensures r.Refused? <==> Verify(TemplateType(uncle, raw, witnesses), templateBytes, true).Err?
    ensures r.Refused? ==> Verify(TemplateType(uncle, raw, witnesses), templateBytes, true) == Err(r.error)
    ensures r.Underflowed? <==> !r.Refused? && ReadTemplates(uncle, raw, witnesses, templateBytes) == []
    ensures r.Written? ==>
              var templates := ReadTemplates(uncle, raw, witnesses, templateBytes);
              var rests := ReadRests(uncle, raw, witnesses, templateBytes);
              && GeneratedFrom(h, build, fields, templates, rests, blocks)
              && r.arguments == InputOf(h, blocks, rests, ScriptFor(h, fields, |templates|))
  {
    var verified := Verify(TemplateType(uncle, raw, witnesses), templateBytes, true);
    if verified.Err? {
      return Refused(verified.error), [];
    }
    var templates := ReadTemplates(uncle, raw, witnesses, templateBytes);
    if |templates| == 0 {
      return Underflowed, [];
    }
    var rests := ReadRests(uncle, raw, witnesses, templateBytes);
    var window, roots, script := Generate(h, build, fields, templates);
    blocks := window;
    r := Written(BuildArguments(ArgumentsOf(window, rests, roots, script)));
  }

  // ----- What the guest makes of it -----

  lemma BuiltTxReads(build: Build, tx: RawTx)
    requires |BuildTx(build, tx).full| < U32_LIMIT
    ensures RawPart(BuildTx(build, tx).full) == Some(BuildTx(build, tx).raw)
  {
    var parts := [build(tx), Assemble([])];
    AssembleSize(parts);
    SplitOfAssemble(Table(2, true), parts);
    FieldsAreParts(Assemble(parts), 2, true);
  }

  lemma AppendedConsistent(templates: seq<Block>, extra: nat -> Tx, blocks: seq<Block>)
    requires |blocks| == |templates| && Consistent(templates)
    requires forall i: nat :: i < |blocks| ==> blocks[i].txs == templates[i].txs + [extra(i)] && ConsistentTx(extra(i))
    ensures Consistent(blocks)
  {
    forall i, t | 0 <= i < |blocks| && 0 <= t < |blocks[i].txs| ensures ConsistentTx(blocks[i].txs[t]) {
      if t < |templates[i].txs| {
        assert blocks[i].txs[t] == templates[i].txs[t];
      } else {
        assert blocks[i].txs[t] == extra(i);
      }
    }
  }

  lemma GeneratedConsistent(h: HashFn, build: Build, fields: ProposalFields, templates: seq<Block>,
                            rests: seq<Rest>, blocks: seq<Block>)
    requires templates != [] && Generated(h, build, fields, templates, blocks) && Consistent(templates)
    requires |rests| == |templates|
    requires |Assemble(WriteBlocks(SlicesOf(blocks, rests), ProposalsOf(rests)))| < U32_LIMIT
    ensures Consistent(blocks)
  {
    var extra := (i: nat) => BuildTx(build, ExtraTx(h, fields, |templates|, i));
    forall i: nat | i < |blocks|
      ensures blocks[i].txs == templates[i].txs + [extra(i)] && ConsistentTx(extra(i))
    {
      TxFits(blocks, rests, i, |templates[i].txs|);
      BuiltTxReads(build, ExtraTx(h, fields, |templates|, i));
    }
    AppendedConsistent(templates, extra, blocks);
  }

  lemma ScriptVerifies(codeHash: Digest, hashType: byte)
    ensures Verify(SCRIPT, BuildScript(codeHash, hashType, []).slice, false).Ok?
  {
    var parts := [codeHash, [hashType], WriteBytes([])];
    BytesRoundTrip([], false);
    JoinOfThree(codeHash, [hashType], WriteBytes([]));
    BuiltRecord(SCRIPT.fields, parts, false);
  }

  lemma GeneratedInputCommits(h: HashFn, build: Build, view: View, fields: ProposalFields, templates: seq<Block>,
                              rests: seq<Rest>, blocks: seq<Block>)
    requires GeneratedFrom(h, build, fields, templates, rests, blocks)
    requires |InputOf(h, blocks, rests, ScriptFor(h, fields, |templates|))| < U32_LIMIT
    ensures Commit(h, view, InputOf(h, blocks, rests, ScriptFor(h, fields, |templates|)))
         == Some(WritePublicValues(PublicValuesFor(h, view, blocks, ScriptFor(h, fields, |templates|))))
  {
    var script, roots := ScriptFor(h, fields, |templates|), TrueWitnessRoots(h, blocks);
    BlocksFit(ArgumentsOf(blocks, rests, roots, script));
    GeneratedConsistent(h, build, fields, templates, rests, blocks);
    ScriptVerifies(h(StampedProposal(fields, |templates|)), 0);
    WrittenArgumentsCommit(h, view, blocks, rests, roots, script);
  }

  function ExpectedPublicValues(h: HashFn, fields: ProposalFields, blocks: seq<Block>): PublicValues
    requires blocks != []
  {
    var n := |blocks|;
    var passed := n >= 2 && VOTE_AMOUNT * (n - 1) > MinShannon(fields.minimalRequirement);
    PublicValues(StampedProposal(fields, n), h(blocks[0].header), h(blocks[n - 1].header), ScriptFor(h, fields, n),
                 if passed then 1 else 0, VOTE_AMOUNT * (n - 1), 0)
  }

  lemma GeneratedPublicValues(h: HashFn, build: Build, view: View, fields: ProposalFields, templates: seq<Block>,
                              blocks: seq<Block>)
    requires templates != [] && Generated(h, build, fields, templates, blocks)
    requires ReadsBack(h, fields, |templates|, build, view) && WellFormed(fields, |templates|)
    requires DistinctVoters(VoterOf(h), |templates|)
    requires CleanTemplates(view, BallotFor(h, fields, |templates|), ScriptFor(h, fields, |templates|), templates)
    ensures PublicValuesFor(h, view, blocks, ScriptFor(h, fields, |templates|))
         == ExpectedPublicValues(h, fields, blocks)
  {
    GeneratedCount(h, build, view, fields, templates, blocks);
  }

  /**
   * The guest that is given the generated arguments commits the stamped proposal, the two ends of the window, the
   * generated script, one hundred shannons of YES for each block after the first, and nothing against it.
   */
  lemma GeneratedArgumentsCommit(h: HashFn, build: Build, view: View, fields: ProposalFields, templates: seq<Block>,
                                 rests: seq<Rest>, blocks: seq<Block>)
    requires GeneratedFrom(h, build, fields, templates, rests, blocks)
    requires |InputOf(h, blocks, rests, ScriptFor(h, fields, |templates|))| < U32_LIMIT
    requires ReadsBack(h, fields, |templates|, build, view) && WellFormed(fields, |templates|)
    requires DistinctVoters(VoterOf(h), |templates|)
    requires CleanTemplates(view, BallotFor(h, fields, |templates|), ScriptFor(h, fields, |templates|), templates)
    ensures Commit(h, view, InputOf(h, blocks, rests, ScriptFor(h, fields, |templates|)))
         == Some(WritePublicValues(ExpectedPublicValues(h, fields, blocks)))
  {
    GeneratedInputCommits(h, build, view, fields, templates, rests, blocks);
    GeneratedPublicValues(h, build, view, fields, templates, blocks);
  }
}
