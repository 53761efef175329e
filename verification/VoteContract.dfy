/** The vote cell's type script: what it accepts, and with which error it refuses. */
module VoteContract {
  import opened Base
  import opened VoteTypes
  import opened Sums

  /** A live cell as the script loads it. */
  datatype Cell = Cell(capacity: nat, lock: Bytes, typ: Option<Script>)

  datatype GroupOutput = GroupOutput(lock: Bytes, data: Bytes)

  /** What the running script can see: its args, its group's outputs, the resolved cell deps and the input locks. */
  datatype Context = Context(args: Bytes, outputs: seq<GroupOutput>, deps: seq<Cell>, inputLocks: seq<Bytes>)

  datatype Error =
    | ArgsInvalid
    | ProposalNotFound
    | VoterLockNotFound
    | VoteDataInvalid
    | DaoDepInvalid
    | AmountMismatch
    | MultipleVoteOutputs

  /** The Nervos DAO type script of RFC 0024. */
  const DAO_CODE_HASH: Bytes := [
    0x82, 0xd7, 0x6d, 0x1b, 0x75, 0xfe, 0x2f, 0xd9, 0xa2, 0x7d, 0xfb, 0xaa, 0x65, 0xa0, 0x39, 0x22,
    0x1a, 0x38, 0x0d, 0x76, 0xc9, 0x26, 0xf3, 0x78, 0xd3, 0xf8, 0x1c, 0xf3, 0xe7, 0xe1, 0x3f, 0x2e]
  const DAO_HASH_TYPE: byte := 1

  // ----- The conditions -----

  predicate ProposalPresent(h: HashFn, ctx: Context) {
    exists i :: 0 <= i < |ctx.deps| && ctx.deps[i].typ.Some? && Blake160(h, ctx.deps[i].typ.value.slice) == ctx.args
  }

  predicate OwnedDaoDep(cell: Cell, lock: Bytes) {
    && cell.lock == lock
    && cell.typ.Some?
    && cell.typ.value.codeHash == DAO_CODE_HASH
    && cell.typ.value.hashType == DAO_HASH_TYPE
    && cell.typ.value.args == []
  }

  predicate OwnedDeps(deps: seq<Cell>, indices: seq<nat>, lock: Bytes, n: nat)
    requires n <= |indices|
  {
    forall i :: 0 <= i < n ==> indices[i] < |deps| && OwnedDaoDep(deps[indices[i]], lock)
  }

  /** The capacities of the first n indexed deps, a dep counting once for each time it is named. */
  function CapacityOf(deps: seq<Cell>, indices: seq<nat>, n: nat): nat
    requires n <= |indices|
  {
    if n == 0 then 0 else
      CapacityOf(deps, indices, n - 1) + if indices[n - 1] < |deps| then deps[indices[n - 1]].capacity else 0
  }

  /** The deps named by the first n indices, each taken once. */
  function NamedOnce(indices: seq<nat>, n: nat): set<nat>
    requires n <= |indices|
  {
    if n == 0 then {} else NamedOnce(indices, n - 1) + {indices[n - 1]}
  }

  function CapacityAt(deps: seq<Cell>): nat -> nat {
    (i: nat) => if i < |deps| then deps[i].capacity else 0
  }

  /** No dep that holds anything is named twice. */
  predicate NoRepeats(deps: seq<Cell>, indices: seq<nat>, n: nat)
    requires n <= |indices|
  {
    forall i, j :: 0 <= i < j < n && indices[i] == indices[j] ==> CapacityAt(deps)(indices[j]) == 0
  }

  lemma {:induction false} NamedOnceMembers(indices: seq<nat>, n: nat)
    requires n <= |indices|
    ensures forall k :: k in NamedOnce(indices, n) <==> exists i :: 0 <= i < n && indices[i] == k
  {
    if n > 0 {
      NamedOnceMembers(indices, n - 1);
    }
  }

  /**
   * The documentation asks for the total capacity of the matching deposits. The loop's sum is never less, and it is
   * that total exactly when no deposit is named twice.
   */
  lemma {:induction false} SumIsTotalUnlessRepeated(deps: seq<Cell>, indices: seq<nat>, n: nat)
    requires n <= |indices|
    ensures CapacityOf(deps, indices, n) >= Sum(NamedOnce(indices, n), CapacityAt(deps))
    ensures NoRepeats(deps, indices, n) <==>
              CapacityOf(deps, indices, n) == Sum(NamedOnce(indices, n), CapacityAt(deps))
  {
    if n > 0 {
      var before, last := NamedOnce(indices, n - 1), indices[n - 1];
      SumIsTotalUnlessRepeated(deps, indices, n - 1);
      NamedOnceMembers(indices, n - 1);
      if last in before {
        assert before + {last} == before;
      } else {
        SumInsert(before, CapacityAt(deps), last);
      }
    }
  }

  /** One deposit named twice is summed twice. */
  lemma NamedTwiceSummedTwice(deposit: Cell)
    ensures CapacityOf([deposit], [0, 0], 2) == 2 * deposit.capacity
    ensures Sum(NamedOnce([0, 0], 2), CapacityAt([deposit])) == deposit.capacity
  {
    assert CapacityOf([deposit], [0, 0], 1) == deposit.capacity;
    var none: set<nat> := {};
    assert NamedOnce([0, 0], 1) == none + {0};
    assert NamedOnce([0, 0], 2) == none + {0};
    SumInsert(none, CapacityAt([deposit]), 0);
  }

  predicate WellFormedVote(data: Bytes) {
    ReadVote(data, false).Some? && ReadVote(data, false).value.direction <= 1
  }

  predicate DepositsAccepted(ctx: Context, vote: Vote)
    requires |ctx.outputs| == 1
  {
    && vote.daoIndex != []
    && OwnedDeps(ctx.deps, vote.daoIndex, ctx.outputs[0].lock, |vote.daoIndex|)
    && CapacityOf(ctx.deps, vote.daoIndex, |vote.daoIndex|) > 0
  }

  /** One vote cell is created, for a proposal that is present, by the owner of the deposits it names, for their sum. */
  predicate ValidCreation(h: HashFn, ctx: Context) {
    && |ctx.outputs| == 1
    && ProposalPresent(h, ctx)
    && WellFormedVote(ctx.outputs[0].data)
    && ctx.outputs[0].lock in ctx.inputLocks
    && var vote := ReadVote(ctx.outputs[0].data, false).value;
       && DepositsAccepted(ctx, vote)
       && vote.amount == Min(CapacityOf(ctx.deps, vote.daoIndex, |vote.daoIndex|), U64_MAX)
  }

  /**
   * The amount of an accepted vote is within the total capacity of the deposits it names exactly when none of them is
   * named twice, or when that total alone reaches the largest amount there is.
   */
  lemma AcceptedAmountWithinTotal(h: HashFn, ctx: Context)
    requires ValidCreation(h, ctx)
    ensures var vote := ReadVote(ctx.outputs[0].data, false).value;
            var total := Sum(NamedOnce(vote.daoIndex, |vote.daoIndex|), CapacityAt(ctx.deps));
            vote.amount <= total <==> NoRepeats(ctx.deps, vote.daoIndex, |vote.daoIndex|) || total >= U64_MAX
  {
    var vote := ReadVote(ctx.outputs[0].data, false).value;
    SumIsTotalUnlessRepeated(ctx.deps, vote.daoIndex, |vote.daoIndex|);
  }

  /** The loop over the named deps: refused at the first one that is missing or not an owned DAO deposit. */
  method SumDeposits(deps: seq<Cell>, indices: seq<nat>, lock: Bytes) returns (r: Result<nat, Error>)
    ensures r.Ok? <==>
              && indices != [] && OwnedDeps(deps, indices, lock, |indices|)
              && CapacityOf(deps, indices, |indices|) > 0
    ensures r.Ok? ==> r.value == Min(CapacityOf(deps, indices, |indices|), U64_MAX)
    ensures r.Err? ==> r.error == DaoDepInvalid
  {
    var daoDepCount: nat, totalCapacity: nat := 0, 0;
    for i := 0 to |indices|
      invariant daoDepCount == i
      invariant OwnedDeps(deps, indices, lock, i)
      invariant totalCapacity == Min(CapacityOf(deps, indices, i), U64_MAX)
    {
      daoDepCount := daoDepCount + 1;
      var index := indices[i];
      if index >= |deps| || deps[index].typ.None? {
        return Err(DaoDepInvalid);
      }
      var depType := deps[index].typ.value;
      if deps[index].lock != lock || depType.codeHash != DAO_CODE_HASH || depType.hashType != DAO_HASH_TYPE
         || depType.args != []
      {
        return Err(DaoDepInvalid);
      }
      SaturatingStep(CapacityOf(deps, indices, i), deps[index].capacity);
      totalCapacity := SaturatingAdd(totalCapacity, deps[index].capacity);
    }
    if daoDepCount == 0 || totalCapacity == 0 {
      return Err(DaoDepInvalid);
    }
    return Ok(totalCapacity);
  }

  predicate Accepts(h: HashFn, ctx: Context) {
    |ctx.args| == 20 && (ctx.outputs == [] || ValidCreation(h, ctx))
  }

  /** Acceptance in the fields of the cells, the lock and the type script of every named dep included. */
  lemma AcceptsInFields(h: HashFn, ctx: Context)
    ensures Accepts(h, ctx) <==>
              && |ctx.args| == 20
              && (ctx.outputs == [] ||
                  (&& |ctx.outputs| == 1
                   && (exists i :: 0 <= i < |ctx.deps| && ctx.deps[i].typ.Some? &&
                                   h(ctx.deps[i].typ.value.slice)[..20] == ctx.args)
                   && (exists k :: 0 <= k < |ctx.inputLocks| && ctx.inputLocks[k] == ctx.outputs[0].lock)
                   && ReadVote(ctx.outputs[0].data, false).Some?
                   && var vote := ReadVote(ctx.outputs[0].data, false).value;
                      && (vote.direction == 0 || vote.direction == 1)
                      && |vote.daoIndex| > 0
                      && (forall k :: 0 <= k < |vote.daoIndex| ==>
                            && vote.daoIndex[k] < |ctx.deps|
                            && var dep := ctx.deps[vote.daoIndex[k]];
                               && dep.lock == ctx.outputs[0].lock && dep.typ.Some?
                               && dep.typ.value.codeHash == DAO_CODE_HASH && dep.typ.value.hashType == 1
                               && dep.typ.value.args == [])
                      && var total := CapacityOf(ctx.deps, vote.daoIndex, |vote.daoIndex|);
                         total > 0 && vote.amount == Min(total, U64_MAX)))
  {
  }

  /** An accepted vote cell holds the one serialization of its vote, and nothing more. */
  lemma AcceptedDataIsCanonical(h: HashFn, ctx: Context)
    requires ValidCreation(h, ctx)
    ensures ctx.outputs[0].data == WriteVote(ReadVote(ctx.outputs[0].data, false).value)
  {
    VoteCanonical(ctx.outputs[0].data);
  }

  /** Accepted iff nothing is created or the creation is valid; every error has its exact condition as well. */
  method Run(h: HashFn, ctx: Context) returns (r: Result<(), Error>)
    ensures r.Ok? <==> Accepts(h, ctx)
    ensures r == Err(ArgsInvalid) <==> |ctx.args| != 20
    ensures r == Err(MultipleVoteOutputs) <==> |ctx.args| == 20 && |ctx.outputs| > 1
    ensures r == Err(ProposalNotFound) <==> |ctx.args| == 20 && |ctx.outputs| == 1 && !ProposalPresent(h, ctx)
    ensures r == Err(VoteDataInvalid) <==>
              && |ctx.args| == 20 && |ctx.outputs| == 1 && ProposalPresent(h, ctx)
              && !WellFormedVote(ctx.outputs[0].data)
    ensures r == Err(VoterLockNotFound) <==>
              && |ctx.args| == 20 && |ctx.outputs| == 1 && ProposalPresent(h, ctx)
              && WellFormedVote(ctx.outputs[0].data) && ctx.outputs[0].lock !in ctx.inputLocks
    ensures r == Err(DaoDepInvalid) <==>
              && |ctx.args| == 20 && |ctx.outputs| == 1 && ProposalPresent(h, ctx)
              && WellFormedVote(ctx.outputs[0].data) && ctx.outputs[0].lock in ctx.inputLocks
              && !DepositsAccepted(ctx, ReadVote(ctx.outputs[0].data, false).value)
    ensures r == Err(AmountMismatch) <==>
              && |ctx.args| == 20 && |ctx.outputs| == 1 && ProposalPresent(h, ctx)
              && WellFormedVote(ctx.outputs[0].data) && ctx.outputs[0].lock in ctx.inputLocks
              && DepositsAccepted(ctx, ReadVote(ctx.outputs[0].data, false).value)
              && !ValidCreation(h, ctx)
  {
    if |ctx.args| != 20 {
      return Err(ArgsInvalid);
    }
    if |ctx.outputs| == 0 {
      return Ok(());
    }
    if |ctx.outputs| > 1 {
      return Err(MultipleVoteOutputs);
    }
    if !ProposalPresent(h, ctx) {
      return Err(ProposalNotFound);
    }
    var lock := ctx.outputs[0].lock;
    var read := ReadVote(ctx.outputs[0].data, false);
    if read.None? {
      return Err(VoteDataInvalid);
    }
    var vote := read.value;
    if vote.direction != 0 && vote.direction != 1 {
      return Err(VoteDataInvalid);
    }
    if lock !in ctx.inputLocks {
      return Err(VoterLockNotFound);
    }
    var sum := SumDeposits(ctx.deps, vote.daoIndex, lock);
    if sum.Err? {
      return Err(sum.error);
    }
    var totalCapacity := sum.value;
    if totalCapacity != vote.amount {
      return Err(AmountMismatch);
    }
    return Ok(());
  }
}
