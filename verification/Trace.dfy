/**
 * The history behind a vote count. A window of blocks is a sequence of events; the count keeps two maps, and this
 * module says what the maps hold in terms of the whole history rather than of the steps that built them.
 */
module Trace {
  import opened Base
  import opened Sums

  /** A cast carries the deposits that were recorded for it; the maps do not look at them. */
  datatype Event =
    | Spend(p: OutPoint)
    | Record(p: OutPoint, voter: Digest)
    | Cast(voter: Digest, direction: byte, amount: nat, deposits: seq<OutPoint>)

  type Votes = map<Digest, (byte, nat)>
  type Owners = map<OutPoint, Digest>

  /** Voter to direction and amount, and DAO deposit to voter. */
  datatype State = State(votes: Votes, owners: Owners)

  const EMPTY := State(map[], map[])

  function Step(s: State, e: Event): State {
    match e
    case Spend(p) => if p in s.owners then State(s.votes - {s.owners[p]}, s.owners - {p}) else s
    case Record(p, v) => s.(owners := s.owners[p := v])
    case Cast(v, d, a, _) => s.(votes := s.votes[v := (d, a)])
  }

  function RunFrom(s: State, es: seq<Event>): State {
    if es == [] then s else Step(RunFrom(s, es[..|es| - 1]), es[|es| - 1])
  }

  function Run(es: seq<Event>): State {
    RunFrom(EMPTY, es)
  }

  lemma {:induction false} RunConcat(s: State, a: seq<Event>, b: seq<Event>)
    ensures RunFrom(s, a + b) == RunFrom(RunFrom(s, a), b)
  {
    if b == [] {
      assert a + b == a;
    } else {
      var n := |b| - 1;
      RunConcat(s, a, b[..n]);
      assert (a + b)[..|a + b| - 1] == a + b[..n];
    }
  }

  lemma RunStep(s: State, es: seq<Event>, e: Event)
    ensures RunFrom(s, es + [e]) == Step(RunFrom(s, es), e)
  {
    assert (es + [e])[..|es|] == es;
  }

  // ----- What the maps hold, by history -----

  predicate Touches(e: Event, p: OutPoint) {
    (e.Spend? && e.p == p) || (e.Record? && e.p == p)
  }

  /** The last event that concerns the deposit recorded it to this voter. */
  ghost predicate RecordedTo(es: seq<Event>, p: OutPoint, v: Digest) {
    exists i :: 0 <= i < |es| && es[i] == Record(p, v) && forall j :: i < j < |es| ==> !Touches(es[j], p)
  }

  predicate IsCast(e: Event, v: Digest) {
    e.Cast? && e.voter == v
  }

  /** At this point a deposit is spent that was then recorded to the voter. */
  ghost predicate Invalidates(es: seq<Event>, k: nat, v: Digest)
    requires k < |es|
  {
    es[k].Spend? && RecordedTo(es[..k], es[k].p, v)
  }

  /** The voter's last cast, with nothing after it that invalidates the voter. */
  ghost predicate Stands(es: seq<Event>, i: nat, v: Digest) {
    && i < |es| && IsCast(es[i], v)
    && (forall j :: i < j < |es| ==> !IsCast(es[j], v))
    && (forall k :: i < k < |es| ==> !Invalidates(es, k, v))
  }

  ghost predicate CastStands(es: seq<Event>, v: Digest, d: byte, a: nat) {
    exists i :: 0 <= i < |es| && Stands(es, i, v) && es[i].direction == d && es[i].amount == a
  }

  lemma {:induction false} OwnerHistory(es: seq<Event>, p: OutPoint, v: Digest)
    ensures (p in Run(es).owners && Run(es).owners[p] == v) <==> RecordedTo(es, p, v)
  {
    if es != [] {
      var n := |es| - 1;
      var prefix := es[..n];
      OwnerHistory(prefix, p, v);
      if Touches(es[n], p) {
        assert RecordedTo(es, p, v) ==> es[n] == Record(p, v);
      } else {
        if RecordedTo(prefix, p, v) {
          var i :| 0 <= i < n && prefix[i] == Record(p, v) && forall j :: i < j < n ==> !Touches(prefix[j], p);
          assert es[i] == Record(p, v) && forall j :: i < j < |es| ==> !Touches(es[j], p);
        }
        if RecordedTo(es, p, v) {
          var i :| 0 <= i < |es| && es[i] == Record(p, v) && forall j :: i < j < |es| ==> !Touches(es[j], p);
          assert prefix[i] == Record(p, v) && forall j :: i < j < n ==> !Touches(prefix[j], p);
        }
      }
    }
  }

  lemma InvalidatesInPrefix(es: seq<Event>, k: nat, n: nat, v: Digest)
    requires k < n <= |es|
    ensures Invalidates(es, k, v) <==> Invalidates(es[..n], k, v)
  {
    assert es[..n][..k] == es[..k];
  }

  /** Standing carries over one more event exactly if that event neither casts for the voter nor invalidates it. */
  lemma StandsStep(es: seq<Event>, i: nat, v: Digest)
    requires i < |es| - 1
    ensures Stands(es, i, v) <==>
              && Stands(es[..|es| - 1], i, v)
              && !IsCast(es[|es| - 1], v) && !Invalidates(es, |es| - 1, v)
  {
    var n := |es| - 1;
    forall k | 0 <= k < n ensures Invalidates(es, k, v) <==> Invalidates(es[..n], k, v) {
      InvalidatesInPrefix(es, k, n, v);
    }
  }

  lemma {:induction false} VoteHistory(es: seq<Event>, v: Digest, d: byte, a: nat)
    ensures (v in Run(es).votes && Run(es).votes[v] == (d, a)) <==> CastStands(es, v, d, a)
  {
    if es != [] {
      var n := |es| - 1;
      var prefix := es[..n];
      VoteHistory(prefix, v, d, a);
      forall i | 0 <= i < n
        ensures Stands(es, i, v) <==> Stands(prefix, i, v) && !IsCast(es[n], v) && !Invalidates(es, n, v)
      {
        StandsStep(es, i, v);
      }
      if es[n].Spend? {
        OwnerHistory(prefix, es[n].p, v);
      }
      if IsCast(es[n], v) {
        assert Stands(es, n, v);
      }
    }
  }

  /**
   * The whole meaning of the two maps. A deposit is mapped to a voter iff the last event that concerns it recorded it
   * to that voter; a voter has a vote iff it is the voter's last cast and no deposit recorded to the voter was spent
   * later.
   */
  lemma History(es: seq<Event>)
    ensures forall p, v :: (p in Run(es).owners && Run(es).owners[p] == v) <==> RecordedTo(es, p, v)
    ensures forall v, d, a: nat :: (v in Run(es).votes && Run(es).votes[v] == (d, a)) <==> CastStands(es, v, d, a)
  {
    forall p, v ensures (p in Run(es).owners && Run(es).owners[p] == v) <==> RecordedTo(es, p, v) {
      OwnerHistory(es, p, v);
    }
    forall v, d, a: nat ensures (v in Run(es).votes && Run(es).votes[v] == (d, a)) <==> CastStands(es, v, d, a) {
      VoteHistory(es, v, d, a);
    }
  }

  /** The index of the cast behind a counted vote. */
  lemma CountedCast(es: seq<Event>, v: Digest) returns (i: nat)
    requires v in Run(es).votes
    ensures Stands(es, i, v) && Run(es).votes[v] == (es[i].direction, es[i].amount)
  {
    var (d, a) := Run(es).votes[v];
    VoteHistory(es, v, d, a);
    i :| 0 <= i < |es| && Stands(es, i, v) && es[i].direction == d && es[i].amount == a;
  }

  // ----- A record outlives the vote it was made for -----

  /** No deposit named by the voter's last cast is ever spent. */
  ghost predicate LastDepositsUnspent(es: seq<Event>, v: Digest) {
    exists i :: 0 <= i < |es| && IsCast(es[i], v) && (forall j :: i < j < |es| ==> !IsCast(es[j], v)) &&
                forall k, p :: 0 <= k < |es| && p in es[i].deposits ==> es[k] != Spend(p)
  }

  /**
   * Only the spent key leaves the deposit map, so an older record of the same voter stays and can remove a newer vote:
   * that the last vote's own deposits are untouched does not by itself keep the vote.
   */
  lemma OlderRecordRemovesNewerVote(v: Digest, p: OutPoint, q: OutPoint)
    requires p != q
    ensures var es := [Record(p, v), Cast(v, 1, 5, [p]), Record(q, v), Cast(v, 1, 7, [q]), Spend(p)];
            LastDepositsUnspent(es, v) && v !in Run(es).votes && Run(es).owners == map[q := v]
  {
    var es := [Record(p, v), Cast(v, 1, 5, [p]), Record(q, v), Cast(v, 1, 7, [q]), Spend(p)];
    assert es == [] + [es[0]] + [es[1]] + [es[2]] + [es[3]] + [es[4]];
    RunStep(EMPTY, [], es[0]);
    RunStep(EMPTY, [es[0]], es[1]);
    RunStep(EMPTY, [es[0]] + [es[1]], es[2]);
    RunStep(EMPTY, [es[0]] + [es[1]] + [es[2]], es[3]);
    RunStep(EMPTY, [es[0]] + [es[1]] + [es[2]] + [es[3]], es[4]);
    assert IsCast(es[3], v) && forall k, r :: 0 <= k < |es| && r in es[3].deposits ==> es[k] != Spend(r);
  }

  // ----- No deposit is counted twice -----

  /** Each deposit is only ever recorded to its owner. */
  ghost predicate RecordsFollowOwner(es: seq<Event>, owner: OutPoint -> Digest) {
    forall i :: 0 <= i < |es| && es[i].Record? ==> es[i].voter == owner(es[i].p)
  }

  /** A cast's deposits are recorded to its voter before it. */
  ghost predicate DepositsRecorded(es: seq<Event>, i: nat)
    requires i < |es| && es[i].Cast?
  {
    forall p :: p in es[i].deposits ==> Record(p, es[i].voter) in es[..i]
  }

  /** None of a cast's deposits is spent before it. */
  ghost predicate DepositsLive(es: seq<Event>, i: nat)
    requires i < |es| && es[i].Cast?
  {
    forall p :: p in es[i].deposits ==> Spend(p) !in es[..i]
  }

  ghost predicate Owned(es: seq<Event>, owner: OutPoint -> Digest) {
    && RecordsFollowOwner(es, owner)
    && forall i :: 0 <= i < |es| && es[i].Cast? ==> DepositsRecorded(es, i)
  }

  ghost predicate AllLive(es: seq<Event>) {
    forall i :: 0 <= i < |es| && es[i].Cast? ==> DepositsLive(es, i)
  }

  function Elements(deposits: seq<OutPoint>): set<OutPoint> {
    set p | p in deposits
  }

  /** A cast's amount is at most what its deposits, each taken once, hold. */
  ghost predicate Backed(e: Event, capacity: OutPoint -> nat)
    requires e.Cast?
  {
    e.amount <= Sum(Elements(e.deposits), capacity)
  }

  ghost predicate AllBacked(es: seq<Event>, capacity: OutPoint -> nat) {
    forall i :: 0 <= i < |es| && es[i].Cast? ==> Backed(es[i], capacity)
  }

  lemma {:induction false} UnspentRecordStays(es: seq<Event>, p: OutPoint, owner: OutPoint -> Digest)
    requires RecordsFollowOwner(es, owner)
    requires Record(p, owner(p)) in es && Spend(p) !in es
    ensures p in Run(es).owners && Run(es).owners[p] == owner(p)
  {
    var n := |es| - 1;
    var prefix := es[..n];
    if es[n].Record? && es[n].p == p {
      assert es[n].voter == owner(p);
    } else {
      assert Record(p, owner(p)) in prefix;
      UnspentRecordStays(prefix, p, owner);
    }
  }

  lemma {:induction false} FirstSpend(es: seq<Event>, p: OutPoint) returns (k: nat)
    requires Spend(p) in es
    ensures k < |es| && es[k] == Spend(p) && Spend(p) !in es[..k]
  {
    var n := |es| - 1;
    if Spend(p) in es[..n] {
      k := FirstSpend(es[..n], p);
      assert es[..n][..k] == es[..k];
    } else {
      k := n;
    }
  }

  /** Spending a cast's live deposit for the first time comes after the cast and invalidates its voter. */
  lemma SpendInvalidates(es: seq<Event>, owner: OutPoint -> Digest, i: nat, p: OutPoint, k: nat)
    requires RecordsFollowOwner(es, owner)
    requires i < |es| && es[i].Cast? && Record(p, es[i].voter) in es[..i] && Spend(p) !in es[..i]
    requires k < |es| && es[k] == Spend(p) && Spend(p) !in es[..k]
    ensures owner(p) == es[i].voter
    ensures i < k && Invalidates(es, k, es[i].voter)
  {
    var v := es[i].voter;
    var r :| 0 <= r < i && es[..i][r] == Record(p, v);
    assert es[r].voter == owner(es[r].p);
    assert forall j :: 0 <= j < i ==> es[..i][j] in es[..i];
    assert k > i;
    assert es[..k][r] == Record(p, v);
    UnspentRecordStays(es[..k], p, owner);
    OwnerHistory(es[..k], p, v);
  }

  /** The deposits behind a counted vote are the voter's, and are spent only if they were spent before the vote. */
  lemma SpentOnlyBefore(es: seq<Event>, owner: OutPoint -> Digest, v: Digest, i: nat)
    requires Owned(es, owner) && Stands(es, i, v)
    ensures forall p :: p in es[i].deposits ==> owner(p) == v && (Spend(p) in es <==> Spend(p) in es[..i])
  {
    forall p | p in es[i].deposits ensures owner(p) == v && (Spend(p) in es <==> Spend(p) in es[..i]) {
      var r :| 0 <= r < i && es[..i][r] == Record(p, v);
      assert es[r].voter == owner(es[r].p);
      if Spend(p) in es && Spend(p) !in es[..i] {
        var k := FirstSpend(es, p);
        SpendInvalidates(es, owner, i, p, k);
        assert false;
      }
    }
  }

  /** The deposits of a voter's last cast. */
  function LastDeposits(es: seq<Event>, v: Digest): set<OutPoint> {
    if es == [] then {}
    else if IsCast(es[|es| - 1], v) then Elements(es[|es| - 1].deposits)
    else LastDeposits(es[..|es| - 1], v)
  }

  lemma {:induction false} LastDepositsAt(es: seq<Event>, v: Digest, i: nat)
    requires i < |es| && IsCast(es[i], v) && forall j :: i < j < |es| ==> !IsCast(es[j], v)
    ensures LastDeposits(es, v) == Elements(es[i].deposits)
  {
    if i < |es| - 1 {
      LastDepositsAt(es[..|es| - 1], v, i);
    }
  }

  /** All deposits behind the votes of a set of voters. */
  ghost function DepositsOf(es: seq<Event>, voters: set<Digest>): set<OutPoint> {
    set v, p | v in voters && p in LastDeposits(es, v) :: p
  }

  function AmountIn(votes: Votes): Digest -> nat {
    v => if v in votes then votes[v].1 else 0
  }

  /** The cast behind a counted voter: its deposits are owned, and spent only if they were spent before it. */
  lemma CountedVoter(es: seq<Event>, owner: OutPoint -> Digest, v: Digest) returns (i: nat)
    requires Owned(es, owner) && v in Run(es).votes
    ensures Stands(es, i, v) && Run(es).votes[v] == (es[i].direction, es[i].amount)
    ensures LastDeposits(es, v) == Elements(es[i].deposits)
    ensures forall p :: p in LastDeposits(es, v) ==> owner(p) == v && (Spend(p) in es <==> Spend(p) in es[..i])
  {
    i := CountedCast(es, v);
    LastDepositsAt(es, v, i);
    SpentOnlyBefore(es, owner, v, i);
  }

  /** One more counted voter brings deposits that stand behind no other. */
  lemma DepositsSplit(es: seq<Event>, owner: OutPoint -> Digest, rest: set<Digest>, v: Digest)
    requires Owned(es, owner) && rest + {v} <= Run(es).votes.Keys && v !in rest
    ensures LastDeposits(es, v) !! DepositsOf(es, rest)
    ensures DepositsOf(es, rest + {v}) == LastDeposits(es, v) + DepositsOf(es, rest)
  {
    var i := CountedVoter(es, owner, v);
    forall p | p in LastDeposits(es, v) ensures p !in DepositsOf(es, rest) {
      if p in DepositsOf(es, rest) {
        var w :| w in rest && p in LastDeposits(es, w);
        var j := CountedVoter(es, owner, w);
      }
    }
  }

  lemma {:induction false} AmountsWithinDeposits(
    es: seq<Event>, owner: OutPoint -> Digest, capacity: OutPoint -> nat, voters: set<Digest>)
    requires Owned(es, owner) && AllBacked(es, capacity) && voters <= Run(es).votes.Keys
    ensures Sum(voters, AmountIn(Run(es).votes)) <= Sum(DepositsOf(es, voters), capacity)
    decreases |voters|
  {
    var amount := AmountIn(Run(es).votes);
    if voters != {} {
      var v :| v in voters;
      var rest := voters - {v};
      AmountsWithinDeposits(es, owner, capacity, rest);
      SumRemove(voters, amount, v);
      var i := CountedVoter(es, owner, v);
      assert Backed(es[i], capacity);
      DepositsSplit(es, owner, rest, v);
      assert rest + {v} == voters;
      SumUnion(LastDeposits(es, v), DepositsOf(es, rest), capacity);
    }
  }

  /** The deposits behind each counted vote belong to its voter. */
  ghost predicate CountedAreOwned(es: seq<Event>, owner: OutPoint -> Digest) {
    forall v, p :: v in Run(es).votes && p in LastDeposits(es, v) ==> owner(p) == v
  }

  /** No deposit stands behind two counted votes. */
  ghost predicate CountedAreDisjoint(es: seq<Event>) {
    forall v, w :: v in Run(es).votes && w in Run(es).votes && v != w ==> LastDeposits(es, v) !! LastDeposits(es, w)
  }

  ghost predicate CountedAreUnspent(es: seq<Event>) {
    forall v, p :: v in Run(es).votes && p in LastDeposits(es, v) ==> Spend(p) !in es
  }

  /** The counted amounts are within what the deposits behind the counted votes hold, each deposit taken once. */
  ghost predicate CountedAreBacked(es: seq<Event>, capacity: OutPoint -> nat) {
    Sum(Run(es).votes.Keys, AmountIn(Run(es).votes)) <= Sum(DepositsOf(es, Run(es).votes.Keys), capacity)
  }

  /**
   * Where records follow ownership the counted voters' deposits are their own and pairwise disjoint. If every cast is
   * backed, they together hold at least the sum of all counted amounts; if all casts' deposits are live, none is spent.
   */
  lemma NoDoubleCounting(es: seq<Event>, owner: OutPoint -> Digest, capacity: OutPoint -> nat)
    requires Owned(es, owner)
    ensures CountedAreOwned(es, owner) && CountedAreDisjoint(es)
    ensures AllBacked(es, capacity) ==> CountedAreBacked(es, capacity)
    ensures AllLive(es) ==> CountedAreUnspent(es)
  {
    forall v | v in Run(es).votes
      ensures forall p :: p in LastDeposits(es, v) ==> owner(p) == v && (AllLive(es) ==> Spend(p) !in es)
    {
      var i := CountedVoter(es, owner, v);
      assert AllLive(es) ==> DepositsLive(es, i);
    }
    if AllBacked(es, capacity) {
      AmountsWithinDeposits(es, owner, capacity, Run(es).votes.Keys);
    }
  }

  // ----- Events without effect -----

  /** A deposit is in the map only if the history recorded it. */
  lemma {:induction false} OwnersWereRecorded(es: seq<Event>, p: OutPoint)
    requires p in Run(es).owners
    ensures exists v :: Record(p, v) in es
  {
    var v := Run(es).owners[p];
    OwnerHistory(es, p, v);
    assert Record(p, v) in es;
  }
}
