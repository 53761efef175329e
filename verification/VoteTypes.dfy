/** The types of the vote system's schema file, and typed readers and builders over the generic codec. */
module VoteTypes {
  import opened Base
  import opened Layout
  import opened Schema

  const BYTES := FixVec(1)
  const SCRIPT := TableOf([Fixed(32), Fixed(1), BYTES])
  const VOTE := TableOf([Fixed(1), Fixed(8), FixVec(2)])
  const PROPOSAL := TableOf([Fixed(4), Fixed(32), Fixed(1), BYTES, SCRIPT, Fixed(8), Fixed(8)])
  const PUBLIC_VALUES := TableOf([PROPOSAL, Fixed(32), Fixed(32), SCRIPT, Fixed(1), Fixed(8), Fixed(8)])
  const PROPOSAL_WITNESS := TableOf([BYTES, PUBLIC_VALUES])
  const GUEST_ARGUMENTS := TableOf([BYTES, FixVec(32), SCRIPT])

  /** A block over any item types: its header has a fixed size, its uncles and transactions are vectors. */
  function BlockType(uncle: Type, transaction: Type): Type {
    TableOf([Fixed(208), DynVec(uncle), DynVec(transaction), FixVec(10)])
  }

  // CKB's own types, down to the optional type script of a cell.
  const CELL_OUTPUT := TableOf([Fixed(8), SCRIPT, Opt(SCRIPT)])
  const RAW_TRANSACTION := TableOf([Fixed(4), FixVec(37), FixVec(32), FixVec(44), DynVec(CELL_OUTPUT), DynVec(BYTES)])
  const TRANSACTION := TableOf([RAW_TRANSACTION, DynVec(BYTES)])
  const UNCLE := TableOf([Fixed(208), FixVec(10)])
  const BLOCK := BlockType(UNCLE, TRANSACTION)

  /** The types are well-formed, so that every result about schema types holds for whole blocks of transactions. */
  lemma BlockIsValid()
    ensures Valid(BLOCK) && Valid(DynVec(BLOCK)) && Valid(RAW_TRANSACTION)
  {
    assert Valid(SCRIPT) && NeverEmpty(SCRIPT) && Valid(Opt(SCRIPT));
    assert Valid(CELL_OUTPUT);
    assert Valid(DynVec(CELL_OUTPUT)) && Valid(DynVec(BYTES));
    assert Valid(RAW_TRANSACTION);
    assert Valid(TRANSACTION);
    assert Valid(UNCLE);
    assert Valid(DynVec(UNCLE)) && Valid(DynVec(TRANSACTION));
  }

  function WriteBytes(data: Bytes): Bytes {
    PackNumber(|data|) + data
  }

  function RawData(b: Bytes): Bytes
    requires |b| >= NUMBER_SIZE
  {
    b[NUMBER_SIZE..]
  }

  lemma BytesRoundTrip(data: Bytes, compatible: bool)
    requires |data| + NUMBER_SIZE < U32_LIMIT
    ensures Verify(BYTES, WriteBytes(data), compatible).Ok?
    ensures RawData(WriteBytes(data)) == data
  {
    UnpackOfPack(|data|, data);
  }

  lemma BytesCanonical(b: Bytes)
    requires Verify(BYTES, b, false).Ok?
    ensures b == Le(|RawData(b)|, 4) + RawData(b)
  {
    PackOfUnpack(b);
    assert b == b[..NUMBER_SIZE] + b[NUMBER_SIZE..];
  }

  // ----- Scripts -----

  /** A script as the readers show it: its serialized form and its three fields. */
  datatype Script = Script(slice: Bytes, codeHash: Bytes, hashType: byte, args: Bytes)

  function BuildScript(codeHash: Bytes, hashType: byte, args: Bytes): Script {
    Script(Assemble([codeHash, [hashType], WriteBytes(args)]), codeHash, hashType, args)
  }

  // ----- Votes -----

  datatype Vote = Vote(direction: byte, amount: nat, daoIndex: seq<nat>)

  function ReadIndex(b: Bytes): (n: nat)
    requires |b| == 2
    ensures n < 65536
  {
    LeOfFromLe(b);
    Ranges();
    FromLe(b)
  }

  function ReadIndices(b: Bytes): (r: seq<nat>)
    requires VerifyFixVec(2, b).Ok?
    ensures forall i :: 0 <= i < |r| ==> r[i] < 65536
  {
    var items := FixVecItems(2, b);
    seq(|items|, i requires 0 <= i < |items| => ReadIndex(items[i]))
  }

  lemma IndicesByPosition(b: Bytes)
    requires VerifyFixVec(2, b).Ok?
    ensures |b| == 4 + 2 * |ReadIndices(b)| && FromLe(b[..4]) == |ReadIndices(b)|
    ensures forall k :: 0 <= k < |ReadIndices(b)| ==> FromLe(b[4 + 2 * k..6 + 2 * k]) == ReadIndices(b)[k]
  {
    FixVecCanonical(2, b);
    forall k | 0 <= k < |ReadIndices(b)| ensures FromLe(b[4 + 2 * k..6 + 2 * k]) == ReadIndices(b)[k] {
      FixVecItemsAreSafe(2, b, k);
    }
  }

  /** `Vote::from_slice` (strict) or `Vote::from_compatible_slice`, then the three accessors. */
  function ReadVote(b: Bytes, compatible: bool): (r: Option<Vote>)
    ensures r.Some? <==> Verify(VOTE, b, compatible).Ok?
    ensures r.Some? ==> r.value.amount <= U64_MAX
  {
    if Verify(VOTE, b, compatible).Err? then
      None
    else
      var f := Pieces(VOTE, b, compatible);
      assert Verify(Fixed(1), f[0], compatible).Ok? && Verify(Fixed(8), f[1], compatible).Ok?;
      LeOfFromLe(f[1]);
      Ranges();
      Some(Vote(f[0][0], FromLe(f[1]), ReadIndices(f[2])))
  }

  /** What a vote is read from: field 0 is the direction, field 1 the amount, field 2 a count and the indices. */
  lemma VoteByField(b: Bytes, compatible: bool)
    requires ReadVote(b, compatible).Some?
    ensures var v := ReadVote(b, compatible).value;
            && FieldUnchecked(b, 3, 0) == Some([v.direction])
            && FieldUnchecked(b, 3, 1) == Some(Le(v.amount, 8))
            && FieldUnchecked(b, 3, 2).Some?
            && var indices := FieldUnchecked(b, 3, 2).value;
               && |indices| == 4 + 2 * |v.daoIndex| && FromLe(indices[..4]) == |v.daoIndex|
               && forall k :: 0 <= k < |v.daoIndex| ==> FromLe(indices[4 + 2 * k..6 + 2 * k]) == v.daoIndex[k]
  {
    var f := Pieces(VOTE, b, compatible);
    AccessorAt(VOTE.fields, 3, b, compatible, 0);
    AccessorAt(VOTE.fields, 3, b, compatible, 1);
    AccessorAt(VOTE.fields, 3, b, compatible, 2);
    assert f[0] == [f[0][0]];
    LeOfFromLe(f[1]);
    IndicesByPosition(f[2]);
  }

  function IndexBytes(indices: seq<nat>): (r: seq<Bytes>)
    ensures |r| == |indices| && forall i :: 0 <= i < |r| ==> |r[i]| == 2
  {
    seq(|indices|, i requires 0 <= i < |indices| => Le(indices[i], 2))
  }

  function WriteVote(v: Vote): Bytes {
    Assemble([[v.direction], Le(v.amount, 8), WriteFixVec(IndexBytes(v.daoIndex))])
  }

  /** A built vote is read back field by field, in either mode. */
  lemma VoteRoundTrip(v: Vote, compatible: bool)
    requires v.amount <= U64_MAX && forall i :: 0 <= i < |v.daoIndex| ==> v.daoIndex[i] < 65536
    requires |WriteVote(v)| < U32_LIMIT
    ensures ReadVote(WriteVote(v), compatible) == Some(v)
  {
    var indices := IndexBytes(v.daoIndex);
    var parts := [[v.direction], Le(v.amount, 8), WriteFixVec(indices)];
    AssembleSize(parts);
    PartSmaller(parts, 2);
    FixVecRoundTrip(2, indices);
    BuiltRecord(VOTE.fields, parts, compatible);
    Ranges();
    FromLeOfLe(v.amount, 8);
    forall i | 0 <= i < |indices| ensures FromLe(indices[i]) == v.daoIndex[i] {
      FromLeOfLe(v.daoIndex[i], 2);
    }
    assert ReadIndices(parts[2]) == v.daoIndex;
  }

  lemma JoinOfThree(a: Bytes, b: Bytes, c: Bytes)
    ensures Join([a, b, c]) == a + b + c
  {
    JoinStep([a, b, c], 0);
    JoinStep([a, b, c], 1);
    JoinStep([a, b, c], 2);
    assert [a, b, c][..0] == [] && [a, b, c][..3] == [a, b, c];
    assert [] + a == a;
  }

  lemma VoteSize(v: Vote)
    ensures |WriteVote(v)| == 29 + 2 * |v.daoIndex|
  {
    var direction, amount, indices := [v.direction], Le(v.amount, 8), WriteFixVec(IndexBytes(v.daoIndex));
    JoinUniform(IndexBytes(v.daoIndex), 2);
    AssembleSize([direction, amount, indices]);
    JoinOfThree(direction, amount, indices);
  }

  lemma IndicesCanonical(b: Bytes)
    requires VerifyFixVec(2, b).Ok?
    ensures WriteFixVec(IndexBytes(ReadIndices(b))) == b
  {
    FixVecCanonical(2, b);
    var items := FixVecItems(2, b);
    forall i | 0 <= i < |items| ensures Le(ReadIndices(b)[i], 2) == items[i] {
      LeOfFromLe(items[i]);
    }
    assert IndexBytes(ReadIndices(b)) == items;
  }

  /** A strictly read vote is rebuilt byte for byte. */
  lemma VoteCanonical(b: Bytes)
    requires ReadVote(b, false).Some?
    ensures WriteVote(ReadVote(b, false).value) == b
  {
    var f := Pieces(VOTE, b, false);
    var v := ReadVote(b, false).value;
    RecordCanonical(VOTE.fields, b);
    assert f[0] == [v.direction];
    assert f[1] == Le(v.amount, 8) by { LeOfFromLe(f[1]); }
    assert f[2] == WriteFixVec(IndexBytes(v.daoIndex)) by { IndicesCanonical(f[2]); }
    assert f == [[v.direction], Le(v.amount, 8), WriteFixVec(IndexBytes(v.daoIndex))];
  }

  /** What the guest reads from a vote cell is what the vote script read when it accepted the cell. */
  lemma VoteModesAgree(b: Bytes)
    requires ReadVote(b, false).Some?
    ensures ReadVote(b, true) == ReadVote(b, false)
  {
    StrictIsCompatible(VOTE, b);
    SplitIgnoresMode(3, b);
    assert Pieces(VOTE, b, true) == Pieces(VOTE, b, false);
  }

  // ----- Proposals -----

  /** The fields the guest uses, with the whole serialized proposal. */
  datatype Proposal = Proposal(
    slice: Bytes, duration: nat, voteCodeHash: Bytes, voteHashType: byte, minimalRequirement: nat)

  /** `Proposal::from_compatible_slice(..).ok()` and the accessors of the four fields. */
  function ReadProposal(b: Bytes): (r: Option<Proposal>)
    ensures r.Some? <==> Verify(PROPOSAL, b, true).Ok?
    ensures r.Some? ==> r.value.slice == b && r.value.duration < U32_LIMIT && r.value.minimalRequirement <= U64_MAX
  {
    if Verify(PROPOSAL, b, true).Err? then
      None
    else
      var f := Pieces(PROPOSAL, b, true);
      assert Verify(Fixed(4), f[0], true).Ok? && Verify(Fixed(1), f[2], true).Ok? && Verify(Fixed(8), f[6], true).Ok?;
      LeOfFromLe(f[0]);
      LeOfFromLe(f[6]);
      Ranges();
      Some(Proposal(b, FromLe(f[0]), f[1], f[2][0], FromLe(f[6])))
  }

  lemma SmallFields(four: Bytes, one: Bytes, eight: Bytes)
    requires |four| == 4 && |one| == 1 && |eight| == 8
    ensures Le(FromLe(four), 4) == four && one == [one[0]] && Le(FromLe(eight), 8) == eight
  {
    LeOfFromLe(four);
    LeOfFromLe(eight);
  }

  /** What the guest reads of a proposal: fields 0, 1, 2 and 6. */
  lemma ProposalByField(b: Bytes)
    requires ReadProposal(b).Some?
    ensures var p := ReadProposal(b).value;
            && p.slice == b
            && FieldUnchecked(b, 7, 0) == Some(Le(p.duration, 4))
            && FieldUnchecked(b, 7, 1) == Some(p.voteCodeHash) && |p.voteCodeHash| == 32
            && FieldUnchecked(b, 7, 2) == Some([p.voteHashType])
            && FieldUnchecked(b, 7, 6) == Some(Le(p.minimalRequirement, 8))
  {
    var f := Pieces(PROPOSAL, b, true);
    AccessorAt(PROPOSAL.fields, 7, b, true, 0);
    AccessorAt(PROPOSAL.fields, 7, b, true, 1);
    AccessorAt(PROPOSAL.fields, 7, b, true, 2);
    AccessorAt(PROPOSAL.fields, 7, b, true, 6);
    SmallFields(f[0], f[2], f[6]);
  }

  /** The seven fields of a proposal, for the builder. */
  function ProposalParts(duration: nat, voteCodeHash: Bytes, voteHashType: byte, description: Bytes, receiver: Bytes,
                         amount: nat, minimalRequirement: nat): seq<Bytes> {
    [Le(duration, 4), voteCodeHash, [voteHashType], WriteBytes(description), receiver, Le(amount, 8),
     Le(minimalRequirement, 8)]
  }

  /** The parts of a proposal pass their verifiers, the numbers being of the right width by construction. */
  lemma ProposalFieldsVerify(parts: seq<Bytes>, description: Bytes, compatible: bool)
    requires |parts| == 7 && |parts[0]| == 4 && |parts[1]| == 32 && |parts[2]| == 1
    requires |parts[5]| == 8 && |parts[6]| == 8
    requires parts[3] == WriteBytes(description) && |parts[3]| < U32_LIMIT
    requires Verify(SCRIPT, parts[4], compatible).Ok?
    ensures forall i :: 0 <= i < 7 ==> Verify(PROPOSAL.fields[i], parts[i], compatible).Ok?
  {
    BytesRoundTrip(description, compatible);
    var fs := PROPOSAL.fields;
    assert fs[0] == Fixed(4) && fs[1] == Fixed(32) && fs[2] == Fixed(1) && fs[3] == BYTES && fs[4] == SCRIPT;
    assert fs[5] == Fixed(8) && fs[6] == Fixed(8);
  }

  lemma ProposalFromPieces(b: Bytes, parts: seq<Bytes>, duration: nat, requirement: nat)
    requires Verify(PROPOSAL, b, true).Ok? && Pieces(PROPOSAL, b, true) == parts
    requires |parts| == 7 && |parts[2]| == 1 && parts[0] == Le(duration, 4) && parts[6] == Le(requirement, 8)
    requires duration < U32_LIMIT && requirement <= U64_MAX
    ensures ReadProposal(b) == Some(Proposal(b, duration, parts[1], parts[2][0], requirement))
  {
    Ranges();
    FromLeOfLe(duration, 4);
    FromLeOfLe(requirement, 8);
  }

  /** A built proposal is accepted, and the fields the guest uses are read back. */
  lemma ProposalRoundTrip(duration: nat, voteCodeHash: Bytes, voteHashType: byte, description: Bytes, receiver: Bytes,
                          amount: nat, minimalRequirement: nat)
    requires duration < U32_LIMIT && |voteCodeHash| == 32 && minimalRequirement <= U64_MAX
    requires Verify(SCRIPT, receiver, true).Ok?
    requires TotalSize(ProposalParts(duration, voteCodeHash, voteHashType, description, receiver, amount,
                                     minimalRequirement)) < U32_LIMIT
    ensures var b := Assemble(ProposalParts(duration, voteCodeHash, voteHashType, description, receiver, amount,
                                            minimalRequirement));
            ReadProposal(b) == Some(Proposal(b, duration, voteCodeHash, voteHashType, minimalRequirement))
  {
    var parts := ProposalParts(duration, voteCodeHash, voteHashType, description, receiver, amount, minimalRequirement);
    PartSmaller(parts, 3);
    ProposalFieldsVerify(parts, description, true);
    BuiltRecord(PROPOSAL.fields, parts, true);
    ProposalFromPieces(Assemble(parts), parts, duration, minimalRequirement);
  }

  const DEFAULT_SCRIPT := BuildScript(ZERO_DIGEST, 0, [])
  const DEFAULT_PROPOSAL := Assemble(ProposalParts(0, ZERO_DIGEST, 0, [], DEFAULT_SCRIPT.slice, 0, 0))

  lemma DefaultScript()
    ensures Verify(SCRIPT, DEFAULT_SCRIPT.slice, false).Ok? && |DEFAULT_SCRIPT.slice| == 53
  {
    var parts := [ZERO_DIGEST, [0], WriteBytes([])];
    BytesRoundTrip([], false);
    JoinOfThree(ZERO_DIGEST, [0], WriteBytes([]));
    AssembleSize(parts);
    BuiltRecord(SCRIPT.fields, parts, false);
  }

  lemma DefaultSize(parts: seq<Bytes>)
    requires parts == ProposalParts(0, ZERO_DIGEST, 0, [], DEFAULT_SCRIPT.slice, 0, 0)
    ensures |Join(parts)| == 57 + |DEFAULT_SCRIPT.slice|
  {
    assert parts[..0] == [] && parts[..7] == parts;
    JoinStep(parts, 0);
    JoinStep(parts, 1);
    JoinStep(parts, 2);
    JoinStep(parts, 3);
    JoinStep(parts, 4);
    JoinStep(parts, 5);
    JoinStep(parts, 6);
  }

  /** What the count returns without a proposal: well-formed, with zeros for all that the guest would read of it. */
  lemma DefaultProposal()
    ensures Verify(PROPOSAL, DEFAULT_PROPOSAL, false).Ok? && |DEFAULT_PROPOSAL| == 142
    ensures ReadProposal(DEFAULT_PROPOSAL) == Some(Proposal(DEFAULT_PROPOSAL, 0, ZERO_DIGEST, 0, 0))
  {
    var parts := ProposalParts(0, ZERO_DIGEST, 0, [], DEFAULT_SCRIPT.slice, 0, 0);
    DefaultScript();
    DefaultSize(parts);
    AssembleSize(parts);
    ProposalFieldsVerify(parts, [], false);
    BuiltRecord(PROPOSAL.fields, parts, false);
    StrictIsCompatible(SCRIPT, DEFAULT_SCRIPT.slice);
    ProposalRoundTrip(0, ZERO_DIGEST, 0, [], DEFAULT_SCRIPT.slice, 0, 0);
  }

  // ----- Public values -----

  datatype PublicValues = PublicValues(
    proposal: Bytes, startBlockHash: Bytes, endBlockHash: Bytes, proposalScript: Bytes, passed: byte, yesVote: nat,
    noVote: nat)

  function PublicValuesParts(pv: PublicValues): seq<Bytes> {
    [pv.proposal, pv.startBlockHash, pv.endBlockHash, pv.proposalScript, [pv.passed], Le(pv.yesVote, 8),
     Le(pv.noVote, 8)]
  }

  function WritePublicValues(pv: PublicValues): Bytes {
    Assemble(PublicValuesParts(pv))
  }

  /** The accessors of an accepted public-values record. */
  function ReadPublicValues(b: Bytes): PublicValues
    requires Verify(PUBLIC_VALUES, b, false).Ok?
  {
    var f := Pieces(PUBLIC_VALUES, b, false);
    assert Verify(Fixed(1), f[4], false).Ok?;
    PublicValues(f[0], f[1], f[2], f[3], f[4][0], FromLe(f[5]), FromLe(f[6]))
  }

  /** The host reads exactly what the guest committed, whenever the host accepts the bytes at all. */
  lemma PublicValuesRoundTrip(pv: PublicValues)
    requires pv.yesVote <= U64_MAX && pv.noVote <= U64_MAX
    requires Verify(PUBLIC_VALUES, WritePublicValues(pv), false).Ok?
    ensures ReadPublicValues(WritePublicValues(pv)) == pv
  {
    BuiltFrom(PUBLIC_VALUES.fields, PublicValuesParts(pv), false);
    Ranges();
    FromLeOfLe(pv.yesVote, 8);
    FromLeOfLe(pv.noVote, 8);
  }

  // ----- Accessors of the concrete tables -----

  /** What the host reads of an accepted record, by field. */
  lemma PublicValuesFields(b: Bytes)
    requires Verify(PUBLIC_VALUES, b, false).Ok?
    ensures var pv := ReadPublicValues(b);
            && FieldUnchecked(b, 7, 0) == Some(pv.proposal)
            && FieldUnchecked(b, 7, 1) == Some(pv.startBlockHash) && FieldUnchecked(b, 7, 2) == Some(pv.endBlockHash)
            && FieldUnchecked(b, 7, 3) == Some(pv.proposalScript) && FieldUnchecked(b, 7, 4) == Some([pv.passed])
            && FieldUnchecked(b, 7, 5) == Some(Le(pv.yesVote, 8)) && FieldUnchecked(b, 7, 6) == Some(Le(pv.noVote, 8))
  {
    var f := Pieces(PUBLIC_VALUES, b, false);
    AccessorsAreSafe(PUBLIC_VALUES.fields, b, false);
    assert Verify(Fixed(1), f[4], false).Ok? && Verify(Fixed(8), f[5], false).Ok? && Verify(Fixed(8), f[6], false).Ok?;
    assert f[4] == [f[4][0]];
    LeOfFromLe(f[5]);
    LeOfFromLe(f[6]);
  }

  /** The committed record by its fields, in the order of the schema. */
  lemma PublicValuesByField(pv: PublicValues, compatible: bool)
    requires Verify(PUBLIC_VALUES, WritePublicValues(pv), compatible).Ok?
    ensures var b := WritePublicValues(pv);
            && FieldUnchecked(b, 7, 0) == Some(pv.proposal)
            && FieldUnchecked(b, 7, 1) == Some(pv.startBlockHash) && FieldUnchecked(b, 7, 2) == Some(pv.endBlockHash)
            && FieldUnchecked(b, 7, 3) == Some(pv.proposalScript)
            && FieldUnchecked(b, 7, 4) == Some([pv.passed])
            && FieldUnchecked(b, 7, 5) == Some(Le(pv.yesVote, 8)) && FieldUnchecked(b, 7, 6) == Some(Le(pv.noVote, 8))
  {
    BuiltFields(PUBLIC_VALUES.fields, PublicValuesParts(pv), compatible);
  }

  /** The seven accessors of public values agree with the checked reader and never go out of bounds. */
  lemma PublicValuesAccessors(b: Bytes, compatible: bool)
    requires Verify(PUBLIC_VALUES, b, compatible).Ok?
    ensures forall i :: 0 <= i < 7 ==> FieldUnchecked(b, 7, i) == Some(Pieces(PUBLIC_VALUES, b, compatible)[i])
    ensures Verify(PROPOSAL, Pieces(PUBLIC_VALUES, b, compatible)[0], compatible).Ok?
  {
    AccessorsAreSafe(PUBLIC_VALUES.fields, b, compatible);
  }
}
