/** The hand-written verifier the guest runs on the block bytes, which skips the contents of transactions and uncles. */
module Shallow {
  import opened Base
  import opened Layout
  import opened Schema
  import opened VoteTypes

  const HEADER_SIZE := 208

  function VerifyVectorShallow(b: Bytes): Check {
    match Split(Vector, b)
    case Err(e) => Err(e)
    case Ok(_) => Ok(())
  }

  /** At least four fields; a fifth one, a block extension, is let through in either mode. */
  function VerifyBlockShallow(b: Bytes, compatible: bool): Check {
    match Split(Table(4, true), b)
    case Err(e) => Err(e)
    case Ok(f) =>
      AssembleOfSplit(Table(4, true), b);
      if |f[0]| != HEADER_SIZE then Err(TotalSizeNotMatch(HEADER_SIZE, |f[0]|))
      else FirstError([VerifyVectorShallow(f[1]), VerifyVectorShallow(f[2]), Verify(FixVec(10), f[3], compatible)])
  }

  function BlockChecks(blocks: seq<Bytes>, compatible: bool): (r: seq<Check>)
    ensures |r| == |blocks|
    ensures forall i :: 0 <= i < |r| ==> r[i] == VerifyBlockShallow(blocks[i], compatible)
  {
    seq(|blocks|, i requires 0 <= i < |blocks| => VerifyBlockShallow(blocks[i], compatible))
  }

  function VerifyBlockVec(b: Bytes, compatible: bool): Check {
    match Split(Vector, b)
    case Err(e) => Err(e)
    case Ok(blocks) => FirstError(BlockChecks(blocks, compatible))
  }

  // ----- Reading accepted bytes -----

  datatype BlockSlices = BlockSlices(header: Bytes, uncles: Bytes, transactions: seq<Bytes>)

  lemma BlockFields(b: Bytes)
    requires exists compatible :: VerifyBlockShallow(b, compatible).Ok?
    ensures Split(Table(4, true), b).Ok? && |Split(Table(4, true), b).value| >= 4
    ensures |Split(Table(4, true), b).value[0]| == HEADER_SIZE
    ensures Split(Vector, Split(Table(4, true), b).value[1]).Ok?
    ensures Split(Vector, Split(Table(4, true), b).value[2]).Ok?
  {
    var compatible :| VerifyBlockShallow(b, compatible).Ok?;
    AssembleOfSplit(Table(4, true), b);
    var f := Split(Table(4, true), b).value;
    var checks := [VerifyVectorShallow(f[1]), VerifyVectorShallow(f[2]), Verify(FixVec(10), f[3], compatible)];
    assert checks[0].Ok? && checks[1].Ok?;
  }

  function ReadBlock(b: Bytes): (r: BlockSlices)
    requires exists compatible :: VerifyBlockShallow(b, compatible).Ok?
    ensures |r.header| == HEADER_SIZE
  {
    AssembleOfSplit(Table(4, true), b);
    var f := Split(Table(4, true), b).value;
    assert [VerifyVectorShallow(f[1]), VerifyVectorShallow(f[2])][1] == VerifyVectorShallow(f[2]);
    BlockFields(b);
    BlockSlices(f[0], f[1], Split(Vector, f[2]).value)
  }

  function ReadBlocks(b: Bytes, compatible: bool): (r: seq<BlockSlices>)
    requires VerifyBlockVec(b, compatible).Ok?
    ensures |r| == |Split(Vector, b).value|
  {
    var slices := Split(Vector, b).value;
    assert forall i :: 0 <= i < |slices| ==> BlockChecks(slices, compatible)[i].Ok?;
    seq(|slices|, i requires 0 <= i < |slices| => ReadBlock(slices[i]))
  }

  // ----- Shallow verification is enough to read safely -----

  /**
   * The unchecked readers see a vector of exactly these items, every access stays in bounds, and the items cover the
   * bytes from the first offset to the end with no gap and no overlap.
   */
  ghost predicate Tiled(b: Bytes, items: seq<Bytes>) {
    && CountUnchecked(b) == Some(|items|)
    && (forall i :: 0 <= i < |items| ==> ItemUnchecked(b, i) == Some(items[i]))
    && HeaderSize(items) <= |b|
    && b[HeaderSize(items)..] == Join(items)
  }

  lemma SplitTiles(b: Bytes)
    requires Split(Vector, b).Ok?
    ensures Tiled(b, Split(Vector, b).value)
  {
    ItemsAreParts(Vector, b);
    PartsTile(Vector, b);
  }

  /** The accessors of one accepted block: a 208-byte header, and two vectors that are tiled by their items. */
  ghost predicate SafeBlock(b: Bytes, r: BlockSlices) {
    && FieldUnchecked(b, 4, 0) == Some(r.header)
    && |r.header| == HEADER_SIZE
    && FieldUnchecked(b, 4, 1) == Some(r.uncles)
    && (exists uncles :: Tiled(r.uncles, uncles))
    && FieldUnchecked(b, 4, 2).Some?
    && Tiled(FieldUnchecked(b, 4, 2).value, r.transactions)
    && FieldUnchecked(b, 4, 3).Some?
    && VerifyFixVec(10, FieldUnchecked(b, 4, 3).value).Ok?
  }

  lemma ProposalsField(b: Bytes)
    requires exists compatible :: VerifyBlockShallow(b, compatible).Ok?
    ensures Split(Table(4, true), b).Ok? && |Split(Table(4, true), b).value| >= 4
    ensures VerifyFixVec(10, Split(Table(4, true), b).value[3]).Ok?
  {
    var compatible :| VerifyBlockShallow(b, compatible).Ok?;
    AssembleOfSplit(Table(4, true), b);
    var f := Split(Table(4, true), b).value;
    var checks := [VerifyVectorShallow(f[1]), VerifyVectorShallow(f[2]), Verify(FixVec(10), f[3], compatible)];
    assert checks[2].Ok?;
  }

  /** Acceptance of the whole byte string makes every block, header, uncle and transaction slice safe to take. */
  lemma ShallowSuffices(b: Bytes, compatible: bool)
    requires VerifyBlockVec(b, compatible).Ok?
    ensures Tiled(b, Split(Vector, b).value)
    ensures forall i :: 0 <= i < |Split(Vector, b).value| ==>
              SafeBlock(Split(Vector, b).value[i], ReadBlocks(b, compatible)[i])
  {
    SplitTiles(b);
    var slices := Split(Vector, b).value;
    forall i | 0 <= i < |slices| ensures SafeBlock(slices[i], ReadBlocks(b, compatible)[i]) {
      assert BlockChecks(slices, compatible)[i].Ok?;
      BlockFields(slices[i]);
      FieldsAreParts(slices[i], 4, true);
      ProposalsField(slices[i]);
      SplitTiles(Split(Table(4, true), slices[i]).value[1]);
      SplitTiles(Split(Table(4, true), slices[i]).value[2]);
    }
  }

  // ----- Written blocks are read back -----

  function WriteBlock(r: BlockSlices, proposals: Bytes): Bytes {
    Assemble([r.header, r.uncles, Assemble(r.transactions), proposals])
  }

  function WriteBlocks(blocks: seq<BlockSlices>, proposals: seq<Bytes>): (slices: seq<Bytes>)
    requires |blocks| == |proposals|
    ensures |slices| == |blocks|
  {
    seq(|blocks|, i requires 0 <= i < |blocks| => WriteBlock(blocks[i], proposals[i]))
  }

  /** A header, uncles that can be split, and proposals that are accepted. */
  predicate Writable(r: BlockSlices, proposals: Bytes) {
    |r.header| == HEADER_SIZE && Split(Vector, r.uncles).Ok? && VerifyFixVec(10, proposals).Ok?
  }

  /** A built block is accepted and its header, uncles and transactions are found again. */
  lemma WrittenBlockReads(r: BlockSlices, proposals: Bytes, compatible: bool)
    requires Writable(r, proposals) && |WriteBlock(r, proposals)| < U32_LIMIT
    ensures VerifyBlockShallow(WriteBlock(r, proposals), compatible).Ok?
    ensures ReadBlock(WriteBlock(r, proposals)) == r
  {
    var parts := [r.header, r.uncles, Assemble(r.transactions), proposals];
    AssembleSize(parts);
    PartSmaller(parts, 2);
    AssembleSize(r.transactions);
    SplitOfAssemble(Table(4, true), parts);
    SplitOfAssemble(Vector, r.transactions);
  }

  /** The proposals are carried over as well. */
  lemma WrittenProposals(r: BlockSlices, proposals: Bytes)
    requires |WriteBlock(r, proposals)| < U32_LIMIT
    ensures FieldUnchecked(WriteBlock(r, proposals), 4, 3) == Some(proposals)
  {
    var parts := [r.header, r.uncles, Assemble(r.transactions), proposals];
    AssembleSize(parts);
    SplitOfAssemble(Table(4, true), parts);
    FieldsAreParts(Assemble(parts), 4, true);
  }

  lemma SlicesRead(b: Bytes, slices: seq<Bytes>, blocks: seq<BlockSlices>, compatible: bool)
    requires Split(Vector, b) == Ok(slices) && |blocks| == |slices|
    requires forall i :: 0 <= i < |slices| ==>
               VerifyBlockShallow(slices[i], compatible).Ok? && ReadBlock(slices[i]) == blocks[i]
    ensures VerifyBlockVec(b, compatible).Ok? && ReadBlocks(b, compatible) == blocks
  {
    assert FirstError(BlockChecks(slices, compatible)).Ok?;
  }

  /** The same for a whole block vector. */
  lemma WrittenBlocksRead(blocks: seq<BlockSlices>, proposals: seq<Bytes>, compatible: bool)
    requires |blocks| == |proposals| && forall i :: 0 <= i < |blocks| ==> Writable(blocks[i], proposals[i])
    requires |Assemble(WriteBlocks(blocks, proposals))| < U32_LIMIT
    ensures VerifyBlockVec(Assemble(WriteBlocks(blocks, proposals)), compatible).Ok?
    ensures ReadBlocks(Assemble(WriteBlocks(blocks, proposals)), compatible) == blocks
  {
    var slices := WriteBlocks(blocks, proposals);
    AssembleSize(slices);
    SplitOfAssemble(Vector, slices);
    forall i | 0 <= i < |slices|
      ensures VerifyBlockShallow(slices[i], compatible).Ok? && ReadBlock(slices[i]) == blocks[i]
    {
      PartSmaller(slices, i);
      WrittenBlockReads(blocks[i], proposals[i], compatible);
    }
    SlicesRead(Assemble(slices), slices, blocks, compatible);
  }

  // ----- What exactly is accepted -----

  /**
   * A block in its parts: a header of 208 bytes, any uncles and any transactions, proposal ids of ten bytes, and
   * whatever follows.
   */
  ghost predicate MadeOf(b: Bytes, header: Bytes, uncles: seq<Bytes>, transactions: seq<Bytes>, ids: seq<Bytes>,
                         extra: seq<Bytes>) {
    && |header| == 208 && (forall i :: 0 <= i < |ids| ==> |ids[i]| == 10)
    && b == Assemble([header, Assemble(uncles), Assemble(transactions), Le(|ids|, 4) + Join(ids)] + extra)
  }

  /** The fields of an accepted block, each with its form. */
  ghost predicate FieldsMade(f: seq<Bytes>) {
    && |f| >= 4 && |f[0]| == HEADER_SIZE
    && Split(Vector, f[1]).Ok? && Split(Vector, f[2]).Ok? && VerifyFixVec(10, f[3]).Ok?
  }

  lemma FieldsGiveParts(b: Bytes, f: seq<Bytes>)
    requires FieldsMade(f) && b == Assemble(f)
    ensures exists header, uncles, transactions, ids, extra :: MadeOf(b, header, uncles, transactions, ids, extra)
  {
    AssembleOfSplit(Vector, f[1]);
    AssembleOfSplit(Vector, f[2]);
    FixVecCanonical(10, f[3]);
    assert f == [f[0], f[1], f[2], f[3]] + f[4..];
    assert MadeOf(b, f[0], Split(Vector, f[1]).value, Split(Vector, f[2]).value, FixVecItems(10, f[3]), f[4..]);
  }

  lemma AcceptedFields(b: Bytes, compatible: bool)
    requires VerifyBlockShallow(b, compatible).Ok?
    ensures Split(Table(4, true), b).Ok? && FieldsMade(Split(Table(4, true), b).value)
  {
    BlockFields(b);
    ProposalsField(b);
  }

  lemma AcceptedIsMade(b: Bytes, compatible: bool)
    requires VerifyBlockShallow(b, compatible).Ok?
    ensures exists header, uncles, transactions, ids, extra :: MadeOf(b, header, uncles, transactions, ids, extra)
  {
    AcceptedFields(b, compatible);
    AssembleOfSplit(Table(4, true), b);
    FieldsGiveParts(b, Split(Table(4, true), b).value);
  }

  lemma VectorAmongParts(parts: seq<Bytes>, i: nat, items: seq<Bytes>)
    requires |Assemble(parts)| < U32_LIMIT && i < |parts| && parts[i] == Assemble(items)
    ensures Split(Vector, parts[i]).Ok?
  {
    AssembleSize(parts);
    AssembleSize(items);
    PartSmaller(parts, i);
    SplitOfAssemble(Vector, items);
  }

  lemma MadeFieldsAccepted(b: Bytes, f: seq<Bytes>, compatible: bool)
    requires Split(Table(4, true), b) == Ok(f) && FieldsMade(f)
    ensures VerifyBlockShallow(b, compatible).Ok?
  {
  }

  lemma MadeIsAccepted(b: Bytes, header: Bytes, uncles: seq<Bytes>, transactions: seq<Bytes>, ids: seq<Bytes>,
                       extra: seq<Bytes>, compatible: bool)
    requires |b| < U32_LIMIT && MadeOf(b, header, uncles, transactions, ids, extra)
    ensures VerifyBlockShallow(b, compatible).Ok?
  {
    var parts := [header, Assemble(uncles), Assemble(transactions), WriteFixVec(ids)] + extra;
    assert parts[1] == Assemble(uncles) && parts[2] == Assemble(transactions) && parts[3] == WriteFixVec(ids);
    AssembleSize(parts);
    PartSmaller(parts, 3);
    FixVecRoundTrip(10, ids);
    VectorAmongParts(parts, 1, uncles);
    VectorAmongParts(parts, 2, transactions);
    SplitOfAssemble(Table(4, true), parts);
    MadeFieldsAccepted(b, parts, compatible);
  }

  /** The shallow verifier accepts exactly such blocks, in either mode. */
  lemma ShallowAcceptsExactly(b: Bytes, compatible: bool)
    requires |b| < U32_LIMIT
    ensures VerifyBlockShallow(b, compatible).Ok? <==>
              exists header, uncles, transactions, ids, extra :: MadeOf(b, header, uncles, transactions, ids, extra)
  {
    if VerifyBlockShallow(b, compatible).Ok? {
      AcceptedIsMade(b, compatible);
    }
    if header, uncles, transactions, ids, extra :| MadeOf(b, header, uncles, transactions, ids, extra) {
      MadeIsAccepted(b, header, uncles, transactions, ids, extra, compatible);
    }
  }

  // ----- Shallow verification refuses nothing that full verification accepts -----

  lemma DeepFields(uncle: Type, transaction: Type, b: Bytes)
    requires Verify(BlockType(uncle, transaction), b, true).Ok?
    ensures Split(Table(4, true), b).Ok? && |Split(Table(4, true), b).value| >= 4
    ensures var f := Split(Table(4, true), b).value;
            && Verify(Fixed(208), f[0], true).Ok? && Verify(DynVec(uncle), f[1], true).Ok?
            && Verify(DynVec(transaction), f[2], true).Ok? && Verify(FixVec(10), f[3], true).Ok?
  {
    AssembleOfSplit(Table(4, true), b);
    var fs := BlockType(uncle, transaction).fields;
    var checks := FieldChecks(fs, Split(Table(4, true), b).value, true);
    assert checks[0].Ok? && checks[1].Ok? && checks[2].Ok? && checks[3].Ok?;
  }

  lemma DeepBlockIsShallow(uncle: Type, transaction: Type, b: Bytes, compatible: bool)
    requires Verify(BlockType(uncle, transaction), b, true).Ok?
    ensures VerifyBlockShallow(b, compatible).Ok?
  {
    DeepFields(uncle, transaction, b);
  }

  /** Whatever the uncle and transaction types are, the generated `BlockVec` verifier is the stricter one. */
  lemma DeepIsShallow(uncle: Type, transaction: Type, b: Bytes, compatible: bool)
    requires Verify(DynVec(BlockType(uncle, transaction)), b, true).Ok?
    ensures VerifyBlockVec(b, compatible).Ok?
  {
    var slices := Pieces(DynVec(BlockType(uncle, transaction)), b, true);
    forall i | 0 <= i < |slices| ensures BlockChecks(slices, compatible)[i].Ok? {
      DeepBlockIsShallow(uncle, transaction, slices[i], compatible);
    }
  }
}
