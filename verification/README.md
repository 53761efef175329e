# A verified model of the zkVM vote counter

The system counts votes on CKB proposals inside a zero-knowledge virtual machine. Voters create vote cells that name their
Nervos DAO deposits; a guest program reads a window of blocks, checks that they are hash-linked and commit to their
transactions, counts the votes and commits the result; the type script of the proposal cell releases the cell against a
proof of that run. This project models the byte formats, the count, the integrity check, both type scripts, the guest
program that composes them, and three tools around them, and proves what they guarantee together.

## Reading order

| modules | what they model |
|---|---|
| `Base`, `Sums` | bytes, digests, little-endian numbers, concatenation; sums over finite sets in any order |
| `Layout`, `Schema`, `VoteTypes`, `Shallow` | the molecule codec: the offset-table layout once, every schema type over it, the vote system's types, the shallow block verifier |
| `Merkle`, `Integrity` | the Complete Binary Merkle Tree of RFC 0006, the `transactions_root` rule of RFC 0027, the header chain, and what they bind |
| `Trace`, `Tally`, `Slicing`, `Threshold` | the count's history, its loops, what it does not depend on, and the passing rule |
| `VoteContract`, `DoubleCount`, `Conditions`, `ProposalContract`, `Settlement` | both type scripts, and the two composed results: no deposit is counted twice, with the transactions its conditions are for, and an accepted consumption is justified by an accepted window, which agrees with the chain up to explicit exceptions |
| `Generator`, `GeneratedArguments`, `Wire`, `WorkerPool` | the block-window generator from template bytes to argument bytes, the protobuf and gRPC encoder and decoder, the block dumper's workers |

## Main results

- `Trace.History`: after any sequence of events both maps of the count are characterised by the whole history, in both
  directions.
- `DoubleCount.NoDepositCountedTwice`: where the vote script was enforced, the deposits behind all counted votes are owned
  and disjoint; if no vote names a deposit twice they hold at least what is counted, and if none names a spent one they
  are unspent. `Conditions` shows that neither condition can be dropped, and `Trace.SpentOnlyBefore` and
  `VoteContract.AcceptedAmountWithinTotal` say exactly what holds without them.
- `Settlement.SettlementIsSound` and `Settlement.SettlementIsBacked`: an accepted consumption implies an accepted window of
  `duration + 1` linked blocks that creates this very cell and passes it; with a requirement of at most 184467440737,
  enforced vote scripts and distinct deps the voters' deposits exceed the requirement.
  `Settlement.HonestSettlementIsAccepted` is the converse.
- `Settlement.SettlementHoldsOnChain`: that window and the blocks of the chain that end in the same header dep agree, so
  the votes on the chain pass, or the two runs contain an explicit hash collision, or a block is read as different numbers
  of transactions.
- `Integrity.WindowBinding` and `Settlement.EndHashBindsCount`: among windows of one length the last header's hash fixes
  the content and the count, with the same two exceptions. `Integrity.TwoForFourIsAccepted` shows that the second one is
  real, and `Integrity.UnambiguousBinding` gives a condition that rules it out.
- `Schema.RoundTrip`, `Schema.Canonical` and `Schema.StrictAcceptsExactly`: for every schema type and below 2^32 bytes,
  strict verification accepts exactly the built values, and reading inverts building.
- `Merkle.MerkleRoot`, `Shallow.ShallowSuffices`, `Threshold.RequirementBoundIsExact`,
  `Slicing.OnlyRelevantTransactionsMatter`, `GeneratedArguments.GeneratedArgumentsCommit`, `Wire.FramesRoundTrip` and
  `WorkerPool.EveryInterleaving` are the central results of the remaining parts.

## How things are represented

- blake2b is a parameter `h` of every member that hashes, and is never looked into. A result that depends on its strength
  is stated as "equal, or these two strings collide", where the two strings are among those that the runs in question
  actually hash.
- The readers of the contents of raw transactions come from an outside crate. They are the parameter `view`, a function
  from the bytes of a raw transaction to the parts that the count reads. The layout of the bytes around them is modelled.
- A slice index out of bounds is `None` in the unchecked accessors, and the results say that it does not occur. The
  `expect` on a missing witness root is the outcome `Panicked`. The guest's `expect`s are the `None` of `Settlement.Commit`.
- Loops over local variables are methods, specified by functions of the events or values, about which the results are
  proved. The decoder of `Wire` is a class with its position, and the dumped blocks are an array.
- Cooperative workers are a state machine whose steps are the stretches between two awaits; the command itself is a method
  whose schedule is an arbitrary choice.
- `usize` is taken to be 64 bits wide. Numbers of 16, 32 and 64 bits are bounded, saturated or reduced where the code does
  so.

## Where the code and its documentation differ

- `docs/vote-type-script.md` asks for the total capacity of the matching deposits. The loop adds a dep's capacity once for
  each time the dep is named: `VoteContract.SumIsTotalUnlessRepeated` says exactly when the two agree, and
  `Conditions.RepeatedDepositCounted` gives an accepted and counted transaction for which they do not.
- The multiplication of the requirement by 100,000,000 is unchecked. The contracts are built with overflow checks and the
  guest program is not, so it wraps around; `Threshold.RequirementBoundIsExact` gives the exact bound up to which a pass is
  always a pass by the rule on integers.
- Spending a recorded deposit removes only that deposit's entry. Older entries of the same voter stay and can remove a
  newer vote, as `Conditions.OlderDepositRemovesNewerVote` shows; `Trace.History` is stated accordingly.
- `docs/proposal-type-script.md` says at line 92 that the witness is read from `output_type`, and shows it in `input_type`
  at line 34; the code reads `input_type`, and so does the model.
- A comment on `verify_block_vec` says that transactions are constrained by the transaction hash, so that their contents
  need no verification. The hash does not fix how many transactions there are: see `Integrity.WindowBinding`.
- `verify_block_shallow` lets further fields through in strict mode as well. The model does the same.

## Model

| member | source | states |
|---|---|---|
| Layout.Measure | crates/types/src/molecules/types.rs:266-275 | the running total and the recorded offsets are the sizes of the header and of all earlier parts, for any number of parts |
| Layout.Write | crates/types/src/molecules/types.rs:266-292 | what is appended to the writer is the total size, one offset per part, and the parts in order |
| Layout.AssembleInBytes | crates/types/src/molecules/types.rs:266-292 | the written bytes: the total size and the offset of each part as little-endian numbers of four bytes, and each part where its offset says |
| Layout.SplitOfAssemble | crates/types/src/molecules/types.rs:184-226 | below 2^32 bytes every built vector or table passes the offset checks and splits into the parts it was built from |
| Layout.AssembleOfSplit | crates/types/src/molecules/types.rs:184-226 | bytes that pass the offset checks are, byte for byte, the built form of the slices between their offsets |
| Layout.SplitAcceptsExactly | crates/types/src/molecules/types.rs:1087-1119 | the offset checks accept exactly the strings that a builder can write with an admissible number of parts |
| Layout.SplitErrors | crates/types/src/molecules/types.rs:184-225 | each error of the offset checks, with its numbers, in terms of the bytes and in the order of the checks |
| Layout.SplitIgnoresMode | crates/types/src/molecules/types.rs:1108-1113 | a table accepted in strict mode is split the same way in compatible mode |
| Layout.ItemsAreParts | crates/types/src/molecules/types.rs:138-170 | after acceptance the item count and every unchecked item access are in bounds and give exactly the parts |
| Layout.FieldsAreParts | crates/types/src/molecules/types.rs:1052-1073 | after acceptance every table accessor is in bounds and gives its field, whether or not extra fields follow |
| Layout.BuiltPart | crates/types/src/molecules/types.rs:1052-1073 | every accessor of a built table returns the part it was built from |
| Layout.PartsTile | crates/types/src/molecules/types.rs:206-225 | the parts cover the bytes after the offset table without gap or overlap |
| Schema.FixVecRoundTrip | crates/types/src/molecules/types.rs:814-820 | a built vector of fixed-size items is accepted and its items are found again |
| Schema.FixVecCanonical | crates/types/src/molecules/types.rs:760-779 | an accepted vector of fixed-size items is its count followed by its items |
| Schema.FixVecErrors | crates/types/src/molecules/types.rs:760-779 | the exact verdict on a vector of fixed-size items, with the numbers in its errors |
| Schema.FixVecItemsAreSafe | crates/types/src/molecules/types.rs:742-746 | the index arithmetic of the unchecked item access stays in bounds and selects the item the reader sees |
| Schema.RoundTrip | crates/types/src/molecules/types.rs:1166-1183 | for every schema type, a value that encodes below 2^32 bytes is accepted in both modes and decodes to itself |
| Schema.Canonical | crates/types/src/molecules/types.rs:1087-1125 | for every schema type, a strictly accepted string is the encoding of what it decodes to |
| Schema.StrictAcceptsExactly | crates/types/src/molecules/types.rs:2193-2235 | for every schema type, strict verification accepts a string iff some well-typed value encodes to it |
| Schema.DecodeInjective | crates/types/src/molecules/types.rs:2193-2235 | two strictly accepted strings with the same value are the same string |
| Schema.EmptyIsRefused | crates/types/molecules/blockchain.mol:19 | the verifiers refuse the empty string for exactly the types that can be the item of an option |
| Schema.BuiltRecord | crates/types/src/molecules/types.rs:2312-2341 | a table built from fields that pass their verifiers is accepted and its fields are found again |
| Schema.BuiltFrom | crates/types/src/molecules/types.rs:2312-2341 | an accepted table that was built from as many parts as it has fields has exactly those parts as its fields |
| Schema.StrictIsCompatible | crates/types/src/molecules/types.rs:1087-1125 | compatible verification accepts whatever strict verification accepts, at every depth, and decodes it the same way |
| Schema.AccessorsAreSafe | crates/types/src/molecules/types.rs:1716-1761 | in either mode every accessor of an accepted table slices in bounds and returns a field that passes its own verifier |
| Schema.ItemsAreSafe | crates/types/src/molecules/types.rs:138-170 | the same for the items of an accepted dynamic vector and its item count |
| Schema.ExtraFieldsIgnored | crates/types/src/molecules/types.rs:2508-2523 | replacing the extra fields of an accepted table by any others changes nothing that is read from it |
| VoteTypes.VoteRoundTrip | crates/types/src/molecules/types.rs:1166-1183 | a built vote is read back with its direction, amount and deposit indices, in either mode |
| VoteTypes.VoteCanonical | crates/types/src/molecules/types.rs:1087-1125 | a strictly read vote is rebuilt byte for byte from its three fields |
| VoteTypes.VoteByField | crates/types/src/molecules/types.rs:1052-1073 | a vote is read from its fields by number: the direction, the amount in little-endian order, and the two-byte indices after their count |
| VoteTypes.VoteModesAgree | contracts/vote-type-script/src/main.rs:85-86 | what the guest reads from a vote cell is what the script read when it accepted the cell |
| VoteTypes.ProposalRoundTrip | crates/types/src/molecules/types.rs:1894-1923 | a built proposal is accepted and its duration, vote script and requirement are read back |
| VoteTypes.ProposalByField | crates/types/src/molecules/types.rs:1716-1761 | the guest reads fields 0, 1, 2 and 6 of a proposal |
| VoteTypes.DefaultProposal | crates/types/src/molecules/types.rs:1537-1553 | the proposal that stands for none has 142 bytes, is accepted strictly and holds zeros |
| VoteTypes.PublicValuesRoundTrip | crates/types/src/molecules/types.rs:2134-2179 | whenever the host accepts the committed record at all, it reads the seven values that the guest committed |
| VoteTypes.PublicValuesFields | crates/types/src/molecules/types.rs:2134-2179 | what the host reads of an accepted record is what the seven accessors find |
| VoteTypes.PublicValuesByField | crates/types/src/molecules/types.rs:2312-2341 | each value of the committed record stands in the field that the schema gives it |
| VoteTypes.PublicValuesAccessors | crates/types/src/molecules/types.rs:2134-2179 | the seven accessors of accepted public values agree with the checked reader, and the nested proposal is itself accepted |
| VoteTypes.BlockIsValid | crates/types/molecules/blockchain.mol:25-101 | the block type with its transactions, cells and optional type scripts is a well-formed schema type |
| Shallow.ShallowSuffices | crates/types/src/molecules/mod.rs:11-126 | after the shallow check all block slices tile the body, every header has 208 bytes, the uncles and transactions of each block tile their vectors, and the proposal ids are a vector of ten-byte items; no unchecked access is out of bounds |
| Shallow.BlockFields | crates/types/src/molecules/mod.rs:114-122 | a block accepted in either mode has at least four fields, a header of 208 bytes, and uncle and transaction vectors that can be split |
| Shallow.ShallowAcceptsExactly | crates/types/src/molecules/mod.rs:62-126 | in either mode a block is accepted iff it is the built form of a header of 208 bytes, some uncles, some transactions, proposal ids of ten bytes and whatever follows |
| Shallow.WrittenBlockReads | crates/testtool/src/lib.rs:128-133 | a built block passes the shallow verifier and its header, uncles and transactions are read back |
| Shallow.WrittenBlocksRead | crates/testtool/src/lib.rs:227-230 | a built block vector passes the shallow verifier and its blocks are read back |
| Shallow.DeepBlockIsShallow | crates/types/src/molecules/mod.rs:62-126 | a block that full verification accepts passes the shallow verifier, whatever the uncle and transaction types are |
| Shallow.DeepIsShallow | crates/types/src/molecules/mod.rs:11-60 | the shallow verifier refuses no block vector that full verification accepts |
| Merkle.PairLeaves | crates/verification/src/lib.rs:42-50 | the first pass merges each pair of leaves once and leaves a queue of half the leaves, rounded up, that holds one full run of tree nodes in descending order |
| Merkle.MerkleRoot | crates/verification/src/lib.rs:37-59 | the queue algorithm returns node 0 of the array-form tree; its merges, counted one by one in both passes, are one less than the leaves, and the queue never exceeds its reserved capacity |
| Merkle.TreeInBytes | crates/verification/src/lib.rs:29-59 | the tree in bytes: an inner node is the hash of its left child followed by its right child, leaf j stands at n - 1 + j, the root is node 0 |
| Merkle.EmptyRoot | crates/verification/src/lib.rs:38-40 | the root over no leaves is thirty-two zero bytes |
| Merkle.RootOfTwo | crates/verification/src/lib.rs:29-59 | the root over two leaves is the hash of the first followed by the second |
| Merkle.ParentsBindChildren | crates/verification/src/lib.rs:29-34 | equal inner nodes have equal children, or their two merge inputs collide |
| Merkle.NodesAgree | crates/verification/src/lib.rs:29-59 | equal roots make all nodes of the smaller tree equal to those at the same places of the larger one, or two merge inputs collide |
| Merkle.FirstLeafIsInner | crates/verification/src/lib.rs:29-59 | with equal roots and fewer leaves, the first leaf is the hash of an inner merge input of the other tree |
| Merkle.RootBinds | crates/verification/src/lib.rs:29-59 | equal roots over equally many leaves mean equal leaves, or two different merge inputs of the two trees have the same hash |
| Integrity.CalcTransactionsRoot | crates/verification/src/lib.rs:79-88 | the root is the hash of the root over the hashes of the raw transactions followed by the witness root |
| Integrity.VerifyBlockIntegrity | crates/verification/src/lib.rs:307-346 | the exact condition of every outcome: acceptance, the empty list, the least unlinked index, the least uncommitted index once all links hold, and the panic on a missing witness root |
| Integrity.IntegrityInBytes | crates/verification/src/lib.rs:307-346 | what is accepted, in bytes of the headers: bytes 32 to 64 are the hash of the header before, bytes 64 to 96 the hash of the two roots |
| Integrity.HeaderLayout | crates/types/molecules/blockchain.mol:71-87 | those bytes are the parent hash and the transactions root of the header struct |
| Integrity.WitnessHashes | crates/verification/src/lib.rs:75-77 | the witness hash of a transaction is the hash of its whole serialization |
| Integrity.PrepareWitnessRoots | crates/verification/src/lib.rs:351-361 | one root per block, the tree root over the hashes of its whole transactions |
| Integrity.PreparedRootsAreExact | crates/verification/src/lib.rs:348-382 | with the prepared roots, the check passes iff the blocks are linked and each header commits to both of its true trees |
| Integrity.HeadersAgree | crates/verification/src/lib.rs:317-325 | from equal last hashes back to the first block, the headers of two accepted windows are equal, or the runs collide |
| Integrity.TransactionsAgree | crates/verification/src/lib.rs:331-341 | equal headers over equally many transactions mean equal raw transactions, or the runs collide |
| Integrity.FewerTransactions | crates/verification/src/lib.rs:331-341 | under one header, a block with fewer transactions has a transaction that is an inner merge input of the other block, or is empty while the other hashes a string to zero, or the runs collide |
| Integrity.WindowBinding | crates/verification/src/lib.rs:307-346 | two accepted windows of one length with the same last header hash have equal headers and raw transactions, or the two runs hash two different strings to one digest, or a block with fewer transactions has an inner node of the other as a transaction, or an empty one stands against a string of digest zero |
| Integrity.UnambiguousBinding | crates/verification/src/lib.rs:307-346 | windows with equally many transactions in each block, or with no empty block and no raw transaction of 64 bytes, are bound up to collisions |
| Integrity.TwoForFourIsAccepted | crates/verification/src/lib.rs:71-88 | in any accepted window a block of four transactions can be replaced by one of two, made of the inner merge inputs, and the window is still accepted |
| Trace.OwnerHistory | crates/verification/src/lib.rs:196-205 | the deposit map sends a deposit to a voter iff the last event that concerns it recorded it to that voter |
| Trace.VoteHistory | crates/verification/src/lib.rs:184-265 | a voter has a vote iff it is the voter's last one and no deposit recorded to the voter at that moment was spent since |
| Trace.History | crates/verification/src/lib.rs:182-265 | both characterisations for all deposits, voters and votes after any history |
| Trace.OlderRecordRemovesNewerVote | crates/verification/src/lib.rs:202-204 | a history in which the last vote's own deposits are never spent and the vote is removed all the same |
| Trace.SpendInvalidates | crates/verification/src/lib.rs:202-204 | where records follow ownership, the first spend of a vote's deposit comes after the vote and removes its voter |
| Trace.SpentOnlyBefore | crates/verification/src/lib.rs:196-205 | the exact form of unspent: a deposit behind a counted vote is spent in the history iff it is spent before the vote |
| Trace.CountedVoter | crates/verification/src/lib.rs:196-262 | behind each counted voter stands a last vote whose deposits the voter owns, and which are spent in the history only if they were spent before that vote |
| Trace.NoDoubleCounting | crates/verification/src/lib.rs:196-262 | where records follow ownership the deposits of different counted voters are disjoint; if every vote is backed they hold the sum of all counted amounts, and if every vote names live deposits none is spent |
| Tally.InvalidateSpent | crates/verification/src/lib.rs:196-205 | the loop over the inputs runs their spend events |
| Tally.RecordDeposits | crates/verification/src/lib.rs:249-260 | the loop over the indices records each named cell dep in order, skips an index past the end, and leaves the votes alone |
| Tally.NamedDepsInFields | crates/verification/src/lib.rs:249-260 | the deposits of a vote are the outpoints of the cell deps at its indices that are in range, in order |
| Tally.RecordOutput | crates/verification/src/lib.rs:212-263 | an output that does not match, has no data or does not decode does nothing; any other records its deposits and its vote |
| Tally.OutputInFields | crates/verification/src/lib.rs:212-263 | an output counts iff its type script has the code hash, the hash type and the args of the vote script and its data is there and decodes; then it records its deposits and casts its direction and amount for the hash of its lock |
| Tally.OtherScriptsIgnored | crates/verification/src/lib.rs:219-227 | type scripts that differ from the vote script in code hash, hash type or args can be taken away from the window without any influence on the maps |
| Tally.CountBlock | crates/verification/src/lib.rs:189-265 | the transactions of a block run their events, inputs before outputs, from any state |
| Tally.SumVotes | crates/verification/src/lib.rs:267-275 | in any map order each saturating sum is the exact sum of its side cut at 2^64 - 1, and any direction but 1 is a NO |
| Tally.NewVoter | crates/verification/src/lib.rs:269-275 | one more voter adds the amount to YES iff the direction is 1 and to NO otherwise |
| Tally.SidesAddUp | crates/verification/src/lib.rs:269-275 | both sides together are the sum of all counted amounts |
| Tally.FindProposal | crates/verification/src/lib.rs:102-119 | the proposal is the decoded data of the first output of the first block, in order, that carries the script, and there is none if that output has no data or it does not decode |
| Tally.ProposalInFields | crates/verification/src/lib.rs:102-119 | a proposal is found iff some output of the first block is the first there whose type script has the bytes of the proposal script, and its data is there and reads as that proposal |
| Tally.CountVote | crates/verification/src/lib.rs:122-305 | the result in each case: no proposal, a wrong number of blocks, or the exact sums over the final state of the whole window, saturated, with the decision |
| Tally.CountInFields | crates/verification/src/lib.rs:126-173 | the three outcomes by their fields: the default proposal and zeros, the proposal and zeros, or both sums over the vote script of the proposal with the decision on 64-bit numbers |
| Slicing.CuttingABlock | crates/verification/src/lib.rs:189-192 | cutting a block in two at any transaction leaves both maps as they are |
| Slicing.RelevantRuns | crates/verification/src/lib.rs:192-265 | leaving out the irrelevant transactions of any list changes neither map |
| Slicing.RelevantInFields | crates/verification/src/lib.rs:196-237 | the relevant transactions are exactly those with a recorded input or a decodable vote |
| Slicing.OnlyRelevantTransactionsMatter | crates/verification/src/lib.rs:189-265 | only transactions that spend a recorded deposit or create a decodable vote influence the maps |
| Threshold.SaturationIsSound | crates/verification/src/lib.rs:277-280 | up to a requirement of 184467440737 the code passes iff the rule on integers passes and the NO sum is below 2^64 - 1; the two coincide when the total fits in 64 bits |
| Threshold.WrappedRequirementPassesTooMuch | crates/verification/src/lib.rs:279-280 | above that requirement there is a tally that the code passes and the rule on integers refuses |
| Threshold.RequirementWrapsToZero | crates/verification/src/lib.rs:279-280 | the requirement 2^56 becomes zero, so that one shannon of YES passes it |
| Threshold.RequirementBoundIsExact | crates/verification/src/lib.rs:277-280 | every pass of the code is a pass of the rule on integers iff the requirement is at most 184467440737 |
| VoteContract.SumDeposits | contracts/vote-type-script/src/main.rs:107-138 | the early-exit loop succeeds iff indices are given, every one names an owned DAO deposit and the capacities are positive, and then returns their sum cut at 2^64 - 1 |
| VoteContract.SumIsTotalUnlessRepeated | contracts/vote-type-script/src/main.rs:110-135 | the sum is at least the total capacity of the named deposits, and equal to it iff none that holds anything is named twice |
| VoteContract.NamedTwiceSummedTwice | contracts/vote-type-script/src/main.rs:110-135 | one deposit named twice is summed twice |
| VoteContract.AcceptedAmountWithinTotal | contracts/vote-type-script/src/main.rs:136-142 | the amount of an accepted vote is within the total capacity of its deposits, each taken once, iff none that holds anything is named twice or that total reaches 2^64 - 1 |
| VoteContract.Run | contracts/vote-type-script/src/main.rs:50-145 | acceptance iff nothing is created or the creation meets the declared conditions, and the exact condition of each of the seven errors |
| VoteContract.AcceptsInFields | contracts/vote-type-script/src/main.rs:50-145 | acceptance in the fields of the cells: a dep whose type script hashes to the args, an input with the lock of the output, and named deps with that lock and the DAO script, hash type and empty args |
| VoteContract.AcceptedDataIsCanonical | contracts/vote-type-script/src/main.rs:85-89 | the data of an accepted vote cell is the one serialization of its vote |
| DoubleCount.NamedDepsOwned | contracts/vote-type-script/src/main.rs:110-135 | accepted deps belong to the voter, and if they are distinct the script's sum is the sum of their capacities |
| DoubleCount.AcceptedVote | contracts/vote-type-script/src/main.rs:98-142 | an accepted transaction casts one vote, for own deposits, which hold at least its amount if none is named twice |
| DoubleCount.AcceptedOutputs | contracts/vote-type-script/src/main.rs:60-67 | the count sees at most one vote in an accepted transaction |
| DoubleCount.WindowIsLawful | crates/verification/src/lib.rs:189-265 | in a window of accepted vote cells every record follows ownership and precedes its vote, and every vote is backed if its deps are distinct |
| DoubleCount.WindowIsLive | crates/verification/src/lib.rs:192-262 | if no vote names an input of its own or an earlier transaction, no vote names a deposit that was spent before it |
| DoubleCount.NoDepositCountedTwice | crates/verification/src/lib.rs:196-262 | at the end of a window of accepted vote cells the counted deposits are owned by their voters and pairwise disjoint; with distinct deps the counted amounts of both sides are within their capacities, and with unspent deps they are inputs of no transaction |
| Conditions.VotingTxAccepted | contracts/vote-type-script/src/main.rs:50-145 | the script accepts a vote that names one owned deposit once or twice if its amount is the deposit's capacity that many times, whichever of the voter's cells is the input |
| Conditions.RepeatedDepositCounted | crates/verification/src/lib.rs:249-262 | without distinct deps, though with unspent ones: an accepted vote that names its deposit twice is counted with twice what the deposit holds |
| Conditions.OwnInputCounted | crates/verification/src/lib.rs:196-262 | without unspent deps, though with distinct ones: an accepted vote whose deposit is an input of its own transaction is counted |
| Conditions.OlderDepositRemovesNewerVote | crates/verification/src/lib.rs:196-262 | three transactions, a vote with p, a vote with q and a spend of p, leave no vote and the record of q |
| ProposalContract.Run | contracts/proposal-type-script/src/main.rs:44-156 | accepted iff the args have 52 bytes and either a valid creation without an input or a valid consumption takes place |
| ProposalContract.Decide | contracts/proposal-type-script/src/main.rs:44-179 | the exact condition of each of the twelve errors: its check fails and those before it hold |
| ProposalContract.ConsumptionInFields | contracts/proposal-type-script/src/main.rs:74-155 | the checks of an accepted consumption by the fields of the witness and of the public values in it, and that the witness is the one serialization of its contents |
| ProposalContract.CreatedDataIsCanonical | contracts/proposal-type-script/src/main.rs:168-170 | the data of a created cell is the one serialization of a proposal |
| ProposalContract.CountOfPositions | contracts/proposal-type-script/src/main.rs:161-166 | every output with the script is counted once |
| ProposalContract.NeverUpdatedInPlace | contracts/proposal-type-script/src/main.rs:60-72 | an accepted transaction creates exactly one cell and consumes none, or creates none |
| Settlement.ArgumentsRoundTrip | sp1/ckb-vote-verification/program/src/main.rs:11-19 | arguments built by the host are read back by the strict reader of the guest |
| Settlement.FullyVerifiedBlocksAreReadable | sp1/ckb-vote-verification/program/src/main.rs:15-18 | blocks that full verification accepts never stop the guest at the shallow check or at an unchecked transaction accessor |
| Settlement.ArgumentsByField | sp1/ckb-vote-verification/program/src/main.rs:11-19 | the guest takes blocks, roots and script from the first three fields of its arguments |
| Settlement.GuestBlocksByField | crates/verification/src/lib.rs:67-77 | the guest works on what the accessors find: the header, each whole transaction and its raw part |
| Settlement.CommittedInFields | sp1/ckb-vote-verification/program/src/main.rs:24-47 | what is committed, by field: the proposal, the hashes of the first and the last header, the script, the decision and the two sums |
| Settlement.CommittedTotals | sp1/ckb-vote-verification/program/src/main.rs:31-47 | for a window that was counted the host reads from the committed bytes both exact totals of the final state, cut at 2^64 - 1 |
| Settlement.PassedCount | crates/verification/src/lib.rs:102-176 | a count that passes has found the proposal in the first block, has seen duration + 1 blocks, and passes on the final state |
| Settlement.CommittedPass | contracts/proposal-type-script/src/main.rs:142-145 | a committed record that the host reads as passed comes from a count that passed |
| Settlement.CommittedPassJustifies | sp1/ckb-vote-verification/program/src/main.rs:21-48 | a window with a passed count justifies a consumption against headers with the committed hashes |
| Settlement.SettledBy | contracts/proposal-type-script/src/main.rs:103-153 | the window that the guest read from a given input justifies every accepted consumption with the public values committed for that input |
| Settlement.SettlementIsSound | contracts/proposal-type-script/src/main.rs:103-153 | if accepted proofs come from runs of the guest, an accepted consumption has such a run, and its window justifies it: exactly duration + 1 linked and committed blocks between the two header deps, whose first block carries this script with the consumed cell's data and whose votes pass |
| Settlement.SettlementIsBacked | contracts/proposal-type-script/src/main.rs:103-153 | with a requirement within the bound, an enforced vote script and distinct deps, a settlement passes by the rule on integers and the counted voters' deposits, each taken once, exceed the requirement |
| Settlement.PublicValuesAccepted | sp1/ckb-vote-verification/program/src/main.rs:33-47 | a committed record is accepted and read back by the host whenever its proposal and script are accepted by themselves |
| Settlement.HonestSettlementIsAccepted | contracts/proposal-type-script/src/main.rs:74-155 | the converse of soundness: what the guest commits for a window that passes is accepted with its proof and that window's headers |
| Settlement.SameWindowSameCount | crates/verification/src/lib.rs:122-305 | windows with equal headers and raw transactions have the same count for every proposal script |
| Settlement.EndHashBindsCount | sp1/ckb-vote-verification/program/src/main.rs:27-45 | two accepted windows of one length with the same end hash commit the same public values, or the runs collide or read a block as different numbers of transactions |
| Settlement.ChainAgrees | crates/types/src/molecules/mod.rs:9-10 | a justifying window and the chain ending in the same header have equal content, and the votes on the chain pass, with the exceptions of the binding |
| Settlement.SettlementHoldsOnChain | contracts/proposal-type-script/src/main.rs:103-153 | an accepted consumption against the chain: the chain's own blocks up to the second header dep pass this proposal, or the guest's run and the chain collide, or they read a block as different numbers of transactions; the last cannot occur where no block is empty and no raw transaction has 64 bytes |
| Generator.RebuildBlock | crates/testtool/src/lib.rs:97-134 | the rebuilt block has the template's transactions and the extra one, commits to both of its trees, and differs in no other header field |
| Generator.AppendTransactions | crates/testtool/src/lib.rs:171-181 | every block is its template with its own extra transaction, differs in no header field but the root, and commits to both trees |
| Generator.LinkBlocks | crates/testtool/src/lib.rs:183-210 | the in-place loop keeps the first block and replaces in every later one the parent hash, and nothing else, by the hash of its predecessor's final header |
| Generator.Generate | crates/testtool/src/lib.rs:153-221 | the generated blocks with the generated witness roots pass the integrity check |
| Generator.VoterLocksDiffer | crates/testtool/src/lib.rs:67-81 | different block indices give different voter locks, so equal voters would be a hash collision |
| Generator.StampedFields | crates/testtool/src/lib.rs:153-157 | the stamped proposal has the given fields but for the duration |
| Generator.ExtraTxInFields | crates/testtool/src/lib.rs:46-95 | the appended transactions by their fields: the proposal script and the proposal in the first block, the vote script, a YES of 100 and the index as the args of the lock in each later one |
| Generator.ExtraTxEvents | crates/testtool/src/lib.rs:175-179 | the appended transaction does nothing in the first block and casts one YES vote of 100 in each later one |
| Generator.ExpectedTotals | crates/testtool/src/lib.rs:67-95 | with distinct voters the expected votes add up to 100 for each block after the first, all on one side |
| Generator.GeneratedProposal | crates/testtool/src/lib.rs:153-166 | the count finds the stamped proposal in the first generated block |
| Generator.GeneratedState | crates/testtool/src/lib.rs:171-210 | the final state of a generated window has one vote per later block and no recorded deposit |
| Generator.GeneratedCount | crates/testtool/src/lib.rs:136-145 | the count of a generated window is yes = 100 (n - 1) and no = 0, and it passes iff there are two blocks and the sum exceeds the requirement |
| GeneratedArguments.WrittenArgumentsRead | sp1/ckb-vote-verification/program/src/main.rs:11-19 | the guest finds in the argument bytes exactly the blocks, roots and script that were written |
| GeneratedArguments.WrittenArgumentsCommit | sp1/ckb-vote-verification/program/src/main.rs:10-48 | for any written window that passes the integrity check the guest commits its public values |
| GeneratedArguments.GenerateFromTemplates | crates/testtool/src/lib.rs:145-237 | from template bytes: the error of the verifier, the underflow on no blocks, or the argument bytes of a linked and committed window over the templates with their uncles and proposals |
| GeneratedArguments.RestsByField | crates/testtool/src/lib.rs:128-133 | uncles and proposals are taken from fields 1 and 3 of each template |
| GeneratedArguments.WrittenByField | crates/testtool/src/lib.rs:204-230 | each written block has its header, uncles, transactions and proposals in their fields |
| GeneratedArguments.TemplatesAreBlocks | crates/types/molecules/types.mol:3 | the block vector of the chain, with optional type scripts in its cells, is a well-formed instance of the template type |
| GeneratedArguments.GeneratedArgumentsCommit | crates/testtool/src/lib.rs:136-145 | the guest given the generated argument bytes commits the stamped proposal, both ends, the generated script, yes = 100 (n - 1), no = 0 and the decision |
| Wire.EncodeVarint | tools/fetch-proofs/fetch_proofs.py:73-79 | the loop writes seven bits a byte, least significant first |
| Wire.VarintInBytes | tools/fetch-proofs/fetch_proofs.py:73-79 | the first byte holds the lowest seven bits, and every byte but the last has its top bit set |
| Wire.VarintRoundTrip | tools/fetch-proofs/fetch_proofs.py:73-79 | an encoded number between any other bytes is read back, and reading stops exactly after it |
| Wire.Decoder.ReadVarint | tools/fetch-proofs/fetch_proofs.py:129-136 | the loop returns the number at the position and moves just past it, or fails exactly where the data ends inside it |
| Wire.Decoder.ReadBytes | tools/fetch-proofs/fetch_proofs.py:138-141 | by index: the bytes at the position in order, n of them where they exist and otherwise those that are left, none past the end; the position moves by n even then |
| Wire.Decoder.DecodeAllFields | tools/fetch-proofs/fetch_proofs.py:143-161 | the map groups the values of all fields up to the end or the first unknown wire type by number, in order; every iteration consumes a byte |
| Wire.FieldsRoundTrip | tools/fetch-proofs/fetch_proofs.py:143-161 | decoding concatenated fields of all wire types, followed by nothing or by a field that is not understood, gives their values in order |
| Wire.RequestRoundTrip | tools/fetch-proofs/fetch_proofs.py:92-109 | the encoded request decodes to status, limit and page under tags 2, 10 and 11 |
| Wire.DefaultRequest | tools/fetch-proofs/fetch_proofs.py:92-109 | the six bytes of the request with the default arguments |
| Wire.ParseFrames | tools/fetch-proofs/fetch_proofs.py:290-305 | the loop returns the messages from the start of the response, skipping flagged ones and stopping at a trailer |
| Wire.FramesRoundTrip | tools/fetch-proofs/fetch_proofs.py:290-305 | concatenated frames below 2^32 bytes, with a trailer frame or less than a frame header after them, parse to the messages of those without a flag, and to all messages if they were framed by the tool |
| Wire.FrameInBytes | tools/fetch-proofs/fetch_proofs.py:87-89 | a frame is a zero, the length in big-endian order and the message |
| Wire.CutFrame | tools/fetch-proofs/fetch_proofs.py:301-304 | a last frame that is cut off gives the part of its message that is there |
| WorkerPool.StepKeeps | sdk/src/cli/commands/dump-blocks.ts:105-122 | every step keeps: filled slots are right and counted by `done`, and every other claimed index is held by exactly one worker |
| WorkerPool.StepKeepsSlots | sdk/src/cli/commands/dump-blocks.ts:109-113 | no step writes a filled slot again |
| WorkerPool.StoppedIsComplete | sdk/src/cli/commands/dump-blocks.ts:124-126 | when all workers have left their loops the array is full and in order |
| WorkerPool.EveryInterleaving | sdk/src/cli/commands/dump-blocks.ts:101-126 | all of this after every possible schedule of any number of workers |
| WorkerPool.RunsAreBounded | sdk/src/cli/commands/dump-blocks.ts:105-124 | no schedule is longer than the number of blocks and twice the number of workers |
| WorkerPool.RunWorker | sdk/src/cli/commands/dump-blocks.ts:107-113 | one stretch of the loop on the shared array and counters is one step of the state machine |
| WorkerPool.DumpBlocks | sdk/src/cli/commands/dump-blocks.ts:87-126 | the command follows a possible schedule and succeeds iff that holds no rejection; then all workers have stopped, and every block is there in order iff there was a worker or nothing to fetch |

## Left out

- blake2b itself, the PLONK verifier with its key and the Type ID check: libraries outside the repository; a function parameter, the parameter `proofHolds` and a field of the context stand for them.
- The validators of the key hash, vote script, duration, amount and requirement at proposal creation: they accept everything for now; that the args hold the guest's key is the hypothesis `ProofsAreSound`.
- Panics inside the readers of a raw transaction whose bytes are malformed: `view` is total; that such bytes cannot occur on the chain is not part of this model.
- Uncles, proposals and extensions of blocks, and header fields other than the parent hash and the transactions root: neither the count nor the integrity check interprets them.
- Dep groups: every dep is a plain one, and the vote script's documentation excludes groups.
- DoubleCount.NoDepositCountedTwice: backing and non-spending are stated under the conditions that no vote names a deposit twice and that none names an input of its own or an earlier transaction; the scripts do not check the first, the chain rules that imply most of the second are outside the repository, and what fails without them is stated in `Conditions`.
- GeneratedArguments.GenerateFromTemplates: the underflow on no blocks is modelled with overflow checks; without them the original goes on with a wrapped duration and no blocks.
- GeneratedArguments.GeneratedArgumentsCommit: assumes that the readers show each appended transaction as it was built (`ReadsBack`), that no template creates a vote or carries the script, that the voters' lock hashes differ, and that the arguments stay below 2^32 bytes.
- Generator.GeneratedCount: has the same assumptions on readers, templates and voters.
- WorkerPool.DumpBlocks: the percentage output, and what other workers still do after the first rejection, are not modelled.
- Wire.EncodeVarint: negative numbers, on which the original writes a single byte, are not modelled; or-ing disjoint bits is written as addition.
- Wire.Decoder.ReadVarint: the position after a failure is not specified, as the original raises out of the decoder.
- Display, debug and hex formatting, entity and builder conversions and iterators of the generated types; profiling output.
- SDK transaction builders, configuration, queries, HTTP transport, fee estimates in floating point and deployment scripts: thin layers without a law of their own.
