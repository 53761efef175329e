/** Hash-linked blocks that commit to their transactions: the integrity check, its inputs, and what it binds. */
module Integrity {
  import opened Base
  import opened Merkle

  /** A header struct: five numbers, then the parent hash, the transactions root, three more digests and the nonce. */
  type Header = b: Bytes | |b| == 208 witness seq(208, _ => 0)

  function ParentHash(header: Header): Digest {
    header[32..64]
  }

  function TransactionsRoot(header: Header): Digest {
    header[64..96]
  }

  /** The header struct by its fields: which bytes are the parent hash and the transactions root. */
  lemma HeaderLayout(header: Header, version: Bytes, compactTarget: Bytes, timestamp: Bytes, number: Bytes,
                     epoch: Bytes, parentHash: Bytes, transactionsRoot: Bytes, rest: Bytes)
    requires |version| == |compactTarget| == 4 && |timestamp| == |number| == |epoch| == 8
    requires |parentHash| == |transactionsRoot| == 32
    requires header == version + compactTarget + timestamp + number + epoch + parentHash + transactionsRoot + rest
    ensures ParentHash(header) == parentHash && TransactionsRoot(header) == transactionsRoot
  {
    var before := version + compactTarget + timestamp + number + epoch;
    assert header == before + parentHash + (transactionsRoot + rest);
    Middle(before, parentHash, transactionsRoot + rest);
    assert header == (before + parentHash) + transactionsRoot + rest;
    Middle(before + parentHash, transactionsRoot, rest);
  }

  /** A transaction's serialized raw part, and its whole serialization with the witnesses. */
  datatype Tx = Tx(raw: Bytes, full: Bytes)

  datatype Block = Block(header: Header, txs: seq<Tx>)

  function TxHash(h: HashFn, tx: Tx): Digest {
    h(tx.raw)
  }

  function WitnessHash(h: HashFn, tx: Tx): Digest {
    h(tx.full)
  }

  function TxHashes(h: HashFn, txs: seq<Tx>): (r: seq<Digest>)
    ensures |r| == |txs| && forall t :: 0 <= t < |txs| ==> r[t] == h(txs[t].raw)
  {
    seq<Digest>(|txs|, i requires 0 <= i < |txs| => TxHash(h, txs[i]))
  }

  function WitnessHashes(h: HashFn, txs: seq<Tx>): (r: seq<Digest>)
    ensures |r| == |txs| && forall t :: 0 <= t < |txs| ==> r[t] == h(txs[t].full)
  {
    seq<Digest>(|txs|, i requires 0 <= i < |txs| => WitnessHash(h, txs[i]))
  }

  /** RFC 0027: the root over the root of the transaction hashes and the root of the witness hashes. */
  function RootOfBlock(h: HashFn, block: Block, witnessRoot: Digest): Digest {
    Root(h, [Root(h, TxHashes(h, block.txs)), witnessRoot])
  }

  method CalcTransactionsRoot(h: HashFn, block: Block, witnessRoot: Digest) returns (root: Digest)
    ensures root == h(Root(h, TxHashes(h, block.txs)) + witnessRoot)
    ensures root == RootOfBlock(h, block, witnessRoot)
  {
    var rawRoot, _ := MerkleRoot(h, TxHashes(h, block.txs));
    ghost var merges;
    root, merges := MerkleRoot(h, [rawRoot, witnessRoot]);
    RootOfTwo(h, rawRoot, witnessRoot);
  }

  // ----- The check -----

  datatype Error = EmptyBlocks | ParentHashMismatch(blockIndex: nat) | TransactionsRootMismatch(blockIndex: nat)

  /** The `expect` on a missing witness root stops the program. */
  datatype Outcome = Passed | Failed(error: Error) | Panicked

  predicate Linked(h: HashFn, blocks: seq<Block>, i: nat)
    requires 0 < i < |blocks|
  {
    h(blocks[i - 1].header) == ParentHash(blocks[i].header)
  }

  predicate LinkedBelow(h: HashFn, blocks: seq<Block>, n: nat)
    requires n <= |blocks|
  {
    forall i :: 0 < i < n ==> Linked(h, blocks, i)
  }

  predicate Committed(h: HashFn, blocks: seq<Block>, roots: seq<Digest>, i: nat)
    requires i < |blocks| && i < |roots|
  {
    TransactionsRoot(blocks[i].header) == RootOfBlock(h, blocks[i], roots[i])
  }

  predicate CommittedBelow(h: HashFn, blocks: seq<Block>, roots: seq<Digest>, n: nat)
    requires n <= |blocks| && n <= |roots|
  {
    forall i :: 0 <= i < n ==> Committed(h, blocks, roots, i)
  }

  predicate IntegrityHolds(h: HashFn, blocks: seq<Block>, roots: seq<Digest>) {
    && 0 < |blocks| <= |roots|
    && LinkedBelow(h, blocks, |blocks|)
    && CommittedBelow(h, blocks, roots, |blocks|)
  }

  /** What is accepted, in bytes: as many roots as blocks, each parent hash, and each commitment to the two roots. */
  lemma IntegrityInBytes(h: HashFn, blocks: seq<Block>, roots: seq<Digest>)
    ensures IntegrityHolds(h, blocks, roots) <==>
              && 0 < |blocks| <= |roots|
              && (forall i :: 0 < i < |blocks| ==> blocks[i].header[32..64] == h(blocks[i - 1].header))
              && (forall i :: 0 <= i < |blocks| ==>
                    blocks[i].header[64..96] == h(Root(h, TxHashes(h, blocks[i].txs)) + roots[i]))
  {
    forall i | 0 <= i < |blocks| && i < |roots|
      ensures Committed(h, blocks, roots, i) <==>
                blocks[i].header[64..96] == h(Root(h, TxHashes(h, blocks[i].txs)) + roots[i])
    {
      RootOfTwo(h, Root(h, TxHashes(h, blocks[i].txs)), roots[i]);
    }
    if LinkedBelow(h, blocks, |blocks|) {
      forall i | 0 < i < |blocks| ensures blocks[i].header[32..64] == h(blocks[i - 1].header) {
        assert Linked(h, blocks, i);
      }
    }
    if IntegrityHolds(h, blocks, roots) {
      assert forall i :: 0 <= i < |blocks| ==> Committed(h, blocks, roots, i);
    }
  }

  /** Each of the outcomes has its exact condition: the least bad index, and links before roots. */
  method VerifyBlockIntegrity(h: HashFn, blocks: seq<Block>, roots: seq<Digest>) returns (r: Outcome)
    ensures r == Passed <==> IntegrityHolds(h, blocks, roots)
    ensures r == Failed(EmptyBlocks) <==> blocks == []
    ensures forall i: nat :: r == Failed(ParentHashMismatch(i)) <==>
              0 < i < |blocks| && LinkedBelow(h, blocks, i) && !Linked(h, blocks, i)
    ensures forall i: nat :: r == Failed(TransactionsRootMismatch(i)) <==>
              && i < |blocks| && i < |roots| && LinkedBelow(h, blocks, |blocks|)
              && CommittedBelow(h, blocks, roots, i) && !Committed(h, blocks, roots, i)
    ensures r == Panicked <==>
              && |roots| < |blocks| && LinkedBelow(h, blocks, |blocks|)
              && CommittedBelow(h, blocks, roots, |roots|)
  {
    if |blocks| == 0 {
      return Failed(EmptyBlocks);
    }
    for i := 1 to |blocks|
      invariant LinkedBelow(h, blocks, i)
    {
      if h(blocks[i - 1].header) != ParentHash(blocks[i].header) {
        assert !Linked(h, blocks, i);
        return Failed(ParentHashMismatch(i));
      }
    }
    for i := 0 to |blocks|
      invariant i <= |roots| && CommittedBelow(h, blocks, roots, i)
    {
      if i >= |roots| {
        return Panicked;
      }
      var actualRoot := CalcTransactionsRoot(h, blocks[i], roots[i]);
      if TransactionsRoot(blocks[i].header) != actualRoot {
        assert !Committed(h, blocks, roots, i);
        return Failed(TransactionsRootMismatch(i));
      }
    }
    return Passed;
  }

  // ----- The witness roots the host prepares -----

  function TrueWitnessRoots(h: HashFn, blocks: seq<Block>): (r: seq<Digest>)
    ensures |r| == |blocks|
  {
    seq(|blocks|, i requires 0 <= i < |blocks| => Root(h, WitnessHashes(h, blocks[i].txs)))
  }

  method PrepareWitnessRoots(h: HashFn, blocks: seq<Block>) returns (roots: seq<Digest>)
    ensures roots == TrueWitnessRoots(h, blocks)
  {
    roots := [];
    for i := 0 to |blocks|
      invariant |roots| == i
      invariant forall k :: 0 <= k < i ==> roots[k] == Root(h, WitnessHashes(h, blocks[k].txs))
    {
      var root, _ := MerkleRoot(h, WitnessHashes(h, blocks[i].txs));
      roots := roots + [root];
    }
  }

  /** The header commits to the tree over the transaction hashes and the tree over the witness hashes. */
  ghost predicate CommitsToBothTrees(h: HashFn, block: Block) {
    TransactionsRoot(block.header)
      == h(Root(h, TxHashes(h, block.txs)) + Root(h, WitnessHashes(h, block.txs)))
  }

  /** With the prepared roots, acceptance says that every header commits to both true trees, and conversely. */
  lemma PreparedRootsAreExact(h: HashFn, blocks: seq<Block>)
    ensures IntegrityHolds(h, blocks, TrueWitnessRoots(h, blocks)) <==>
              && blocks != [] && LinkedBelow(h, blocks, |blocks|)
              && forall i :: 0 <= i < |blocks| ==> CommitsToBothTrees(h, blocks[i])
  {
    var roots := TrueWitnessRoots(h, blocks);
    forall i | 0 <= i < |blocks| ensures Committed(h, blocks, roots, i) <==> CommitsToBothTrees(h, blocks[i]) {
      RootOfTwo(h, Root(h, TxHashes(h, blocks[i].txs)), roots[i]);
    }
  }

  // ----- Binding -----

  /** The strings that the integrity check feeds to the hash function when it runs on these arguments. */
  ghost predicate Hashed(h: HashFn, blocks: seq<Block>, roots: seq<Digest>, i: nat, s: Bytes) {
    && i < |blocks| && i < |roots|
    && var hashes := TxHashes(h, blocks[i].txs);
       || s == blocks[i].header
       || s == MergeInput(Root(h, hashes), roots[i])
       || (exists t :: 0 <= t < |blocks[i].txs| && s == blocks[i].txs[t].raw)
       || (exists k: nat :: k < |hashes| - 1 && s == InputAt(h, hashes, k))
  }

  /** The two checks hash two different strings to one digest. */
  ghost predicate ChecksCollide(
    h: HashFn, a: seq<Block>, aRoots: seq<Digest>, b: seq<Block>, bRoots: seq<Digest>)
  {
    exists i: nat, x, y :: Hashed(h, a, aRoots, i, x) && Hashed(h, b, bRoots, i, y) && Collide(h, x, y)
  }

  lemma {:induction false} HeadersAgree(
    h: HashFn, a: seq<Block>, aRoots: seq<Digest>, b: seq<Block>, bRoots: seq<Digest>, i: nat)
    requires IntegrityHolds(h, a, aRoots) && IntegrityHolds(h, b, bRoots) && |a| == |b| && i < |a|
    requires h(a[|a| - 1].header) == h(b[|b| - 1].header)
    requires !ChecksCollide(h, a, aRoots, b, bRoots)
    ensures a[i].header == b[i].header
    decreases |a| - i
  {
    if i < |a| - 1 {
      HeadersAgree(h, a, aRoots, b, bRoots, i + 1);
      assert Linked(h, a, i + 1) && Linked(h, b, i + 1);
    }
    assert Hashed(h, a, aRoots, i, a[i].header) && Hashed(h, b, bRoots, i, b[i].header);
    assert !Collide(h, a[i].header, b[i].header);
  }

  /** The trees over the transaction hashes have equal roots and contain no collision of their own. */
  lemma RawRootsAgree(
    h: HashFn, a: seq<Block>, aRoots: seq<Digest>, b: seq<Block>, bRoots: seq<Digest>, i: nat)
    requires i < |a| && i < |b| && i < |aRoots| && i < |bRoots|
    requires Committed(h, a, aRoots, i) && Committed(h, b, bRoots, i) && a[i].header == b[i].header
    requires !ChecksCollide(h, a, aRoots, b, bRoots)
    ensures Root(h, TxHashes(h, a[i].txs)) == Root(h, TxHashes(h, b[i].txs))
    ensures !TreesCollide(h, TxHashes(h, a[i].txs), TxHashes(h, b[i].txs))
  {
    var xs, ys := TxHashes(h, a[i].txs), TxHashes(h, b[i].txs);
    RootOfTwo(h, Root(h, xs), aRoots[i]);
    RootOfTwo(h, Root(h, ys), bRoots[i]);
    var x, y := MergeInput(Root(h, xs), aRoots[i]), MergeInput(Root(h, ys), bRoots[i]);
    assert Hashed(h, a, aRoots, i, x) && Hashed(h, b, bRoots, i, y);
    assert !Collide(h, x, y);
    MergeInputInjective(Root(h, xs), aRoots[i], Root(h, ys), bRoots[i]);
    if TreesCollide(h, xs, ys) {
      var k: nat :| k < |xs| - 1 && k < |ys| - 1 && Collide(h, InputAt(h, xs, k), InputAt(h, ys, k));
      assert Hashed(h, a, aRoots, i, InputAt(h, xs, k)) && Hashed(h, b, bRoots, i, InputAt(h, ys, k));
      assert false;
    }
  }

  lemma TransactionsAgree(
    h: HashFn, a: seq<Block>, aRoots: seq<Digest>, b: seq<Block>, bRoots: seq<Digest>, i: nat)
    requires i < |a| && i < |b| && i < |aRoots| && i < |bRoots|
    requires Committed(h, a, aRoots, i) && Committed(h, b, bRoots, i)
    requires a[i].header == b[i].header && |a[i].txs| == |b[i].txs|
    requires !ChecksCollide(h, a, aRoots, b, bRoots)
    ensures forall t :: 0 <= t < |a[i].txs| ==> a[i].txs[t].raw == b[i].txs[t].raw
  {
    var xs, ys := TxHashes(h, a[i].txs), TxHashes(h, b[i].txs);
    RawRootsAgree(h, a, aRoots, b, bRoots, i);
    RootBinds(h, xs, ys);
    forall t | 0 <= t < |a[i].txs| ensures a[i].txs[t].raw == b[i].txs[t].raw {
      assert xs[t] == h(a[i].txs[t].raw) && ys[t] == h(b[i].txs[t].raw);
      assert Hashed(h, a, aRoots, i, a[i].txs[t].raw) && Hashed(h, b, bRoots, i, b[i].txs[t].raw);
      assert !Collide(h, a[i].txs[t].raw, b[i].txs[t].raw);
    }
  }

  /** In block i, a raw transaction of one window is the string that makes an inner node over the other's. */
  ghost predicate TxIsInnerNode(h: HashFn, a: seq<Block>, b: seq<Block>, i: nat)
    requires i < |a| && i < |b|
  {
    exists t, k: nat :: 0 <= t < |a[i].txs| && k < |b[i].txs| - 1 &&
                        a[i].txs[t].raw == InputAt(h, TxHashes(h, b[i].txs), k)
  }

  /** Block i of one window has no transactions, and a string hashed for that of the other has digest zero. */
  ghost predicate EmptyAgainstZero(h: HashFn, a: seq<Block>, b: seq<Block>, bRoots: seq<Digest>, i: nat)
    requires i < |a|
  {
    a[i].txs == [] && exists s :: Hashed(h, b, bRoots, i, s) && h(s) == ZERO_DIGEST
  }

  /** The two ways in which one commitment can be read as different numbers of transactions. */
  ghost predicate ReadsShorter(h: HashFn, a: seq<Block>, b: seq<Block>, bRoots: seq<Digest>, i: nat)
    requires i < |a| && i < |b|
  {
    |a[i].txs| < |b[i].txs| && (TxIsInnerNode(h, a, b, i) || EmptyAgainstZero(h, a, b, bRoots, i))
  }

  ghost predicate ShapesDiffer(h: HashFn, a: seq<Block>, aRoots: seq<Digest>, b: seq<Block>, bRoots: seq<Digest>) {
    exists i :: 0 <= i < |a| && i < |b| && (ReadsShorter(h, a, b, bRoots, i) || ReadsShorter(h, b, a, aRoots, i))
  }

  /** Under one header a block with fewer transactions contains an inner node of the other as a transaction. */
  lemma FewerTransactions(
    h: HashFn, a: seq<Block>, aRoots: seq<Digest>, b: seq<Block>, bRoots: seq<Digest>, i: nat)
    requires i < |a| && i < |b| && i < |aRoots| && i < |bRoots|
    requires Committed(h, a, aRoots, i) && Committed(h, b, bRoots, i) && a[i].header == b[i].header
    requires |a[i].txs| < |b[i].txs| && !ChecksCollide(h, a, aRoots, b, bRoots)
    ensures ReadsShorter(h, a, b, bRoots, i)
  {
    var xs, ys := TxHashes(h, a[i].txs), TxHashes(h, b[i].txs);
    RawRootsAgree(h, a, aRoots, b, bRoots, i);
    if xs == [] {
      var s := if |ys| == 1 then b[i].txs[0].raw else InputAt(h, ys, 0);
      assert Hashed(h, b, bRoots, i, s) && h(s) == ZERO_DIGEST;
    } else {
      var x, y := a[i].txs[0].raw, InputAt(h, ys, |xs| - 1);
      FirstLeafIsInner(h, xs, ys);
      assert Hashed(h, a, aRoots, i, x) && Hashed(h, b, bRoots, i, y);
      assert !Collide(h, x, y);
    }
  }

  lemma CollideEitherWay(h: HashFn, a: seq<Block>, aRoots: seq<Digest>, b: seq<Block>, bRoots: seq<Digest>)
    requires ChecksCollide(h, b, bRoots, a, aRoots)
    ensures ChecksCollide(h, a, aRoots, b, bRoots)
  {
    var i: nat, x, y :| Hashed(h, b, bRoots, i, x) && Hashed(h, a, aRoots, i, y) && Collide(h, x, y);
    assert Collide(h, y, x);
  }

  ghost predicate SameShape(a: seq<Block>, b: seq<Block>) {
    |a| == |b| && forall i :: 0 <= i < |a| ==> |a[i].txs| == |b[i].txs|
  }

  /** Equal headers and, transaction by transaction, equal raw parts; witnesses are not bound by the check. */
  ghost predicate SameContent(a: seq<Block>, b: seq<Block>) {
    && SameShape(a, b)
    && forall i :: 0 <= i < |a| ==>
         a[i].header == b[i].header && forall t :: 0 <= t < |a[i].txs| ==> a[i].txs[t].raw == b[i].txs[t].raw
  }

  lemma BlockBinding(
    h: HashFn, a: seq<Block>, aRoots: seq<Digest>, b: seq<Block>, bRoots: seq<Digest>, i: nat)
    requires IntegrityHolds(h, a, aRoots) && IntegrityHolds(h, b, bRoots) && |a| == |b| && i < |a|
    requires h(a[|a| - 1].header) == h(b[|b| - 1].header)
    requires !ChecksCollide(h, a, aRoots, b, bRoots) && !ShapesDiffer(h, a, aRoots, b, bRoots)
    ensures a[i].header == b[i].header && |a[i].txs| == |b[i].txs|
    ensures forall t :: 0 <= t < |a[i].txs| ==> a[i].txs[t].raw == b[i].txs[t].raw
  {
    HeadersAgree(h, a, aRoots, b, bRoots, i);
    assert Committed(h, a, aRoots, i) && Committed(h, b, bRoots, i);
    if |a[i].txs| < |b[i].txs| {
      FewerTransactions(h, a, aRoots, b, bRoots, i);
      assert false;
    }
    if |b[i].txs| < |a[i].txs| {
      if ChecksCollide(h, b, bRoots, a, aRoots) {
        CollideEitherWay(h, a, aRoots, b, bRoots);
      }
      FewerTransactions(h, b, bRoots, a, aRoots, i);
      assert false;
    }
    TransactionsAgree(h, a, aRoots, b, bRoots, i);
  }

  /**
   * The hash of the last header binds windows of one length, with two exceptions: the two accepting runs contain a
   * collision, or some block is read as different numbers of transactions, one of which is an inner node of the other's
   * tree.
   */
  lemma WindowBinding(h: HashFn, a: seq<Block>, aRoots: seq<Digest>, b: seq<Block>, bRoots: seq<Digest>)
    requires IntegrityHolds(h, a, aRoots) && IntegrityHolds(h, b, bRoots) && |a| == |b|
    requires h(a[|a| - 1].header) == h(b[|b| - 1].header)
    ensures || SameContent(a, b) || ChecksCollide(h, a, aRoots, b, bRoots) || ShapesDiffer(h, a, aRoots, b, bRoots)
  {
    if !ChecksCollide(h, a, aRoots, b, bRoots) && !ShapesDiffer(h, a, aRoots, b, bRoots) {
      forall i | 0 <= i < |a|
        ensures a[i].header == b[i].header && |a[i].txs| == |b[i].txs|
        ensures forall t :: 0 <= t < |a[i].txs| ==> a[i].txs[t].raw == b[i].txs[t].raw
      {
        BlockBinding(h, a, aRoots, b, bRoots, i);
      }
    }
  }

  /** The size of what a merge hashes. */
  const MERGE_SIZE := 64

  /** No block is empty, and no raw transaction has the size of two digests. */
  predicate Unambiguous(blocks: seq<Block>) {
    forall i :: 0 <= i < |blocks| ==>
      blocks[i].txs != [] && forall t :: 0 <= t < |blocks[i].txs| ==> |blocks[i].txs[t].raw| != MERGE_SIZE
  }

  /** Windows that differ in no number of transactions, or in which no transaction can be an inner node, are bound. */
  lemma UnambiguousBinding(h: HashFn, a: seq<Block>, aRoots: seq<Digest>, b: seq<Block>, bRoots: seq<Digest>)
    requires IntegrityHolds(h, a, aRoots) && IntegrityHolds(h, b, bRoots) && |a| == |b|
    requires h(a[|a| - 1].header) == h(b[|b| - 1].header)
    requires SameShape(a, b) || (Unambiguous(a) && Unambiguous(b))
    ensures SameContent(a, b) || ChecksCollide(h, a, aRoots, b, bRoots)
  {
    WindowBinding(h, a, aRoots, b, bRoots);
    if Unambiguous(a) && Unambiguous(b) {
      forall i | 0 <= i < |a| && i < |b|
        ensures !ReadsShorter(h, a, b, bRoots, i) && !ReadsShorter(h, b, a, aRoots, i)
      {
        assert !TxIsInnerNode(h, a, b, i) && !TxIsInnerNode(h, b, a, i);
      }
    }
  }

  /** Two transactions whose raw parts, whatever is around them, are the inner nodes under a root of four. */
  function TwoForFour(h: HashFn, block: Block, leftFull: Bytes, rightFull: Bytes): Block
    requires |block.txs| == 4
  {
    var hashes := TxHashes(h, block.txs);
    var left, right := MergeInput(hashes[0], hashes[1]), MergeInput(hashes[2], hashes[3]);
    Block(block.header, [Tx(left, leftFull), Tx(right, rightFull)])
  }

  /** The exception on numbers of transactions is real: the check accepts either block with the same witness root. */
  lemma TwoForFourIsAccepted(
    h: HashFn, blocks: seq<Block>, roots: seq<Digest>, i: nat, leftFull: Bytes, rightFull: Bytes)
    requires IntegrityHolds(h, blocks, roots) && i < |blocks| && |blocks[i].txs| == 4
    ensures var other := blocks[i := TwoForFour(h, blocks[i], leftFull, rightFull)];
            && IntegrityHolds(h, other, roots) && !SameContent(blocks, other)
            && ReadsShorter(h, other, blocks, roots, i)
  {
    var block, other := blocks[i], TwoForFour(h, blocks[i], leftFull, rightFull);
    var hashes := TxHashes(h, block.txs);
    assert hashes == [hashes[0], hashes[1], hashes[2], hashes[3]];
    RootOfFour(h, hashes[0], hashes[1], hashes[2], hashes[3]);
    RootOfTwo(h, TxHash(h, other.txs[0]), TxHash(h, other.txs[1]));
    assert TxHashes(h, other.txs) == [TxHash(h, other.txs[0]), TxHash(h, other.txs[1])];
    assert RootOfBlock(h, other, roots[i]) == RootOfBlock(h, block, roots[i]);
    var after := blocks[i := other];
    forall k | 0 < k < |after| ensures Linked(h, after, k) {
      assert Linked(h, blocks, k);
    }
    forall k | 0 <= k < |after| ensures Committed(h, after, roots, k) {
      assert Committed(h, blocks, roots, k);
    }
    assert Node(h, hashes, 3) == hashes[0] && Node(h, hashes, 4) == hashes[1];
    assert after[i].txs[0].raw == InputAt(h, hashes, 1);
  }
}
