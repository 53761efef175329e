/** The proposal cell's type script: creation, and consumption against a proof and its public values. */
module ProposalContract {
  import opened Base
  import opened Layout
  import opened Schema
  import opened VoteTypes

  /** Whether a proof is accepted for public values under a verifying key hash; the PLONK verifier is not modelled. */
  type ProofCheck = (Bytes, Bytes, Bytes) -> bool

  /** What the script loads. `inputType` is the input_type field of the group's first witness, where there is one. */
  datatype Context = Context(
    script: Script,
    inputTypes: seq<Option<Digest>>,
    outputTypes: seq<Option<Digest>>,
    inputType: Option<Bytes>,
    inputData: Option<Bytes>,
    outputData: Option<Bytes>,
    headerDeps: seq<Bytes>,
    typeIdHolds: bool)

  datatype Error =
    | AppearsOnBothSides
    | TypeIdInvalid
    | ArgsInvalid
    | WitnessInvalid
    | ProofVerifyFailed
    | ProposalMismatch
    | HeaderDepMissing
    | HeaderMismatch
    | ScriptMismatch
    | NotPassed
    | MultipleProposalOutputs
    | ProposalDataInvalid

  type Verdict = Result<(), Error>

  function CountOf(types: seq<Option<Digest>>, hash: Digest): nat {
    if types == [] then 0 else CountOf(types[..|types| - 1], hash) + if types[|types| - 1] == Some(hash) then 1 else 0
  }

  function Positions(types: seq<Option<Digest>>, hash: Digest): set<nat> {
    set i: nat | i < |types| && types[i] == Some(hash)
  }

  /** Every position that holds the hash is counted once. */
  lemma {:induction false} CountOfPositions(types: seq<Option<Digest>>, hash: Digest)
    ensures CountOf(types, hash) == |Positions(types, hash)|
  {
    if types == [] {
      assert Positions(types, hash) == {};
    } else {
      var n: nat := |types| - 1;
      CountOfPositions(types[..n], hash);
      if types[n] == Some(hash) {
        assert Positions(types, hash) == Positions(types[..n], hash) + {n};
      } else {
        assert Positions(types, hash) == Positions(types[..n], hash);
      }
    }
  }

  /** The proof and the public values of an accepted witness. */
  function ProofOf(witnessBytes: Bytes): Bytes
    requires Verify(PROPOSAL_WITNESS, witnessBytes, false).Ok?
  {
    assert Verify(BYTES, Pieces(PROPOSAL_WITNESS, witnessBytes, false)[0], false).Ok?;
    RawData(Pieces(PROPOSAL_WITNESS, witnessBytes, false)[0])
  }

  function PublicValuesOf(witnessBytes: Bytes): (r: Bytes)
    requires Verify(PROPOSAL_WITNESS, witnessBytes, false).Ok?
    ensures Verify(PUBLIC_VALUES, r, false).Ok?
  {
    Pieces(PROPOSAL_WITNESS, witnessBytes, false)[1]
  }

  /** What the witness claims the guest has committed, if there is a well-formed witness. */
  function Claimed(ctx: Context): Option<PublicValues> {
    if ctx.inputType.None? || Verify(PROPOSAL_WITNESS, ctx.inputType.value, false).Err? then None
    else Some(ReadPublicValues(PublicValuesOf(ctx.inputType.value)))
  }

  /** The proof of a well-formed witness is accepted for its public values under the key hash in the args. */
  predicate ProofAccepted(proofHolds: ProofCheck, ctx: Context) {
    && |ctx.script.args| == 52 && ctx.inputType.Some? && Verify(PROPOSAL_WITNESS, ctx.inputType.value, false).Ok?
    && proofHolds(ProofOf(ctx.inputType.value), PublicValuesOf(ctx.inputType.value), ctx.script.args[20..52])
  }

  /** The validators of the proposal's fields accept everything for now, so its form alone is checked. */
  predicate ProposalWellFormed(ctx: Context) {
    ctx.outputData.Some? && Verify(PROPOSAL, ctx.outputData.value, false).Ok?
  }

  // ----- What is accepted -----

  predicate InInputs(h: HashFn, ctx: Context) {
    Some(h(ctx.script.slice)) in ctx.inputTypes
  }

  predicate InOutputs(h: HashFn, ctx: Context) {
    Some(h(ctx.script.slice)) in ctx.outputTypes
  }

  predicate Creates(h: HashFn, ctx: Context) {
    |ctx.script.args| == 52 && InOutputs(h, ctx) && !InInputs(h, ctx)
  }

  predicate Consumes(h: HashFn, ctx: Context) {
    |ctx.script.args| == 52 && !InOutputs(h, ctx)
  }

  predicate SingleOutput(h: HashFn, ctx: Context) {
    CountOf(ctx.outputTypes, h(ctx.script.slice)) == 1
  }

  predicate OfThisCell(ctx: Context, pv: PublicValues) {
    ctx.inputData == Some(pv.proposal)
  }

  predicate BetweenHeaders(h: HashFn, ctx: Context, pv: PublicValues) {
    && |ctx.headerDeps| >= 2
    && pv.startBlockHash == h(ctx.headerDeps[0]) && pv.endBlockHash == h(ctx.headerDeps[1])
  }

  predicate OfThisScript(ctx: Context, pv: PublicValues) {
    pv.proposalScript == ctx.script.slice
  }

  /** The claimed public values are of this cell, the two header deps, this script and a pass. */
  predicate ValidClaim(h: HashFn, ctx: Context, pv: PublicValues) {
    OfThisCell(ctx, pv) && BetweenHeaders(h, ctx, pv) && OfThisScript(ctx, pv) && pv.passed == 1
  }

  /**
   * The decision, given what the witness claims, whether its proof is accepted and whether the created data is a
   * proposal. Each error is returned exactly when its check fails and those before it hold.
   */
  function Decide(h: HashFn, ctx: Context, claimed: Option<PublicValues>, proofOk: bool, proposalOk: bool): (r: Verdict)
    ensures r.Ok? <==>
              || (Creates(h, ctx) && ctx.typeIdHolds && SingleOutput(h, ctx) && proposalOk)
              || (Consumes(h, ctx) && claimed.Some? && ValidClaim(h, ctx, claimed.value) && proofOk)
    ensures r == Err(ArgsInvalid) <==> |ctx.script.args| != 52
    ensures r == Err(AppearsOnBothSides) <==> |ctx.script.args| == 52 && InInputs(h, ctx) && InOutputs(h, ctx)
    ensures r == Err(TypeIdInvalid) <==> Creates(h, ctx) && !ctx.typeIdHolds
    ensures r == Err(MultipleProposalOutputs) <==> Creates(h, ctx) && ctx.typeIdHolds && !SingleOutput(h, ctx)
    ensures r == Err(ProposalDataInvalid) <==>
              Creates(h, ctx) && ctx.typeIdHolds && SingleOutput(h, ctx) && !proposalOk
    ensures r == Err(WitnessInvalid) <==> Consumes(h, ctx) && claimed.None?
    ensures r == Err(ProposalMismatch) <==> Consumes(h, ctx) && claimed.Some? && !OfThisCell(ctx, claimed.value)
    ensures r == Err(HeaderDepMissing) <==>
              Consumes(h, ctx) && claimed.Some? && OfThisCell(ctx, claimed.value) && |ctx.headerDeps| < 2
    ensures r == Err(HeaderMismatch) <==>
              && Consumes(h, ctx) && claimed.Some? && OfThisCell(ctx, claimed.value) && |ctx.headerDeps| >= 2
              && !BetweenHeaders(h, ctx, claimed.value)
    ensures r == Err(ScriptMismatch) <==>
              && Consumes(h, ctx) && claimed.Some? && OfThisCell(ctx, claimed.value)
              && BetweenHeaders(h, ctx, claimed.value) && !OfThisScript(ctx, claimed.value)
    ensures r == Err(NotPassed) <==>
              && Consumes(h, ctx) && claimed.Some? && OfThisCell(ctx, claimed.value)
              && BetweenHeaders(h, ctx, claimed.value) && OfThisScript(ctx, claimed.value) && claimed.value.passed != 1
    ensures r == Err(ProofVerifyFailed) <==>
              Consumes(h, ctx) && claimed.Some? && ValidClaim(h, ctx, claimed.value) && !proofOk
  {
    var scriptHash := h(ctx.script.slice);
    var inInputs := Some(scriptHash) in ctx.inputTypes;
    var inOutputs := Some(scriptHash) in ctx.outputTypes;
    if |ctx.script.args| != 52 then Err(ArgsInvalid)
    else if inInputs && inOutputs then Err(AppearsOnBothSides)
    else if inOutputs then
      if !ctx.typeIdHolds then Err(TypeIdInvalid)
      else if CountOf(ctx.outputTypes, scriptHash) != 1 then Err(MultipleProposalOutputs)
      else if !proposalOk then Err(ProposalDataInvalid)
      else Ok(())
    else if claimed.None? then Err(WitnessInvalid)
    else
      var pv := claimed.value;
      if ctx.inputData != Some(pv.proposal) then Err(ProposalMismatch)
      else if |ctx.headerDeps| < 2 then Err(HeaderDepMissing)
      else if pv.startBlockHash != h(ctx.headerDeps[0]) then Err(HeaderMismatch)
      else if pv.endBlockHash != h(ctx.headerDeps[1]) then Err(HeaderMismatch)
      else if pv.proposalScript != ctx.script.slice then Err(ScriptMismatch)
      else if pv.passed != 1 then Err(NotPassed)
      else if !proofOk then Err(ProofVerifyFailed)
      else Ok(())
  }

  /** Accepted iff the cell is created or consumed, never both, and everything asked of the one that happens holds. */
  function Run(h: HashFn, proofHolds: ProofCheck, ctx: Context): (r: Verdict)
    ensures r.Ok? <==>
              || (Creates(h, ctx) && ctx.typeIdHolds && SingleOutput(h, ctx) && ProposalWellFormed(ctx))
              || (Consumes(h, ctx) && Claimed(ctx).Some? && ValidClaim(h, ctx, Claimed(ctx).value)
                  && ProofAccepted(proofHolds, ctx))
  {
    Decide(h, ctx, Claimed(ctx), ProofAccepted(proofHolds, ctx), ProposalWellFormed(ctx))
  }

  lemma {:induction false} CountPositive(types: seq<Option<Digest>>, hash: Digest)
    ensures Some(hash) in types <==> CountOf(types, hash) > 0
  {
    if types != [] {
      CountPositive(types[..|types| - 1], hash);
    }
  }

  /** The cell is never updated in place: one is created and none consumed, or none is created. */
  lemma NeverUpdatedInPlace(h: HashFn, proofHolds: ProofCheck, ctx: Context)
    requires Run(h, proofHolds, ctx).Ok?
    ensures var hash := h(ctx.script.slice);
            if Some(hash) in ctx.outputTypes
            then CountOf(ctx.outputTypes, hash) == 1 && CountOf(ctx.inputTypes, hash) == 0 && ctx.typeIdHolds
            else CountOf(ctx.outputTypes, hash) == 0
  {
    CountPositive(ctx.inputTypes, h(ctx.script.slice));
    CountPositive(ctx.outputTypes, h(ctx.script.slice));
  }

  /** A created cell holds the one serialization of a proposal. */
  lemma CreatedDataIsCanonical(h: HashFn, proofHolds: ProofCheck, ctx: Context)
    requires Run(h, proofHolds, ctx).Ok? && InOutputs(h, ctx)
    ensures exists v :: HasType(PROPOSAL, v) && ctx.outputData == Some(Encode(PROPOSAL, v))
  {
    Canonical(PROPOSAL, ctx.outputData.value);
  }

  /** The checks of an accepted consumption, in the fields of the witness and of the public values in it. */
  lemma ConsumptionInFields(h: HashFn, proofHolds: ProofCheck, ctx: Context)
    requires Run(h, proofHolds, ctx).Ok? && !InOutputs(h, ctx)
    ensures ctx.inputType.Some? && |ctx.headerDeps| >= 2 && |ctx.script.args| == 52
    ensures var w := ctx.inputType.value;
            && FieldUnchecked(w, 2, 0).Some? && |FieldUnchecked(w, 2, 0).value| >= 4
            && FieldUnchecked(w, 2, 1).Some?
            && var pv := FieldUnchecked(w, 2, 1).value;
               && FieldUnchecked(pv, 7, 0) == ctx.inputData
               && FieldUnchecked(pv, 7, 1) == Some(h(ctx.headerDeps[0]))
               && FieldUnchecked(pv, 7, 2) == Some(h(ctx.headerDeps[1]))
               && FieldUnchecked(pv, 7, 3) == Some(ctx.script.slice)
               && FieldUnchecked(pv, 7, 4) == Some([1])
               && proofHolds(FieldUnchecked(w, 2, 0).value[4..], pv, ctx.script.args[20..52])
    ensures exists v :: HasType(PROPOSAL_WITNESS, v) && ctx.inputType == Some(Encode(PROPOSAL_WITNESS, v))
  {
    var w := ctx.inputType.value;
    AccessorAt(PROPOSAL_WITNESS.fields, 2, w, false, 0);
    AccessorAt(PROPOSAL_WITNESS.fields, 2, w, false, 1);
    PublicValuesFields(PublicValuesOf(w));
    Canonical(PROPOSAL_WITNESS, w);
  }
}
