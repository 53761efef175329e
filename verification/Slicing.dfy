/** What a count does not depend on: the grouping into blocks, and the transactions that concern no vote. */
module Slicing {
  import opened Base
  import opened Trace
  import opened Tally

  // ----- Grouping -----

  lemma {:induction false} FlattenConcat(a: Window, b: Window)
    ensures Flatten(a + b) == Flatten(a) + Flatten(b)
  {
    if b == [] {
      assert a + b == a;
    } else {
      var n := |b| - 1;
      FlattenConcat(a, b[..n]);
      assert (a + b)[..|a + b| - 1] == a + b[..n];
    }
  }

  /** Cutting a block in two at any transaction leaves both maps as they are. */
  lemma CuttingABlock(h: HashFn, ballot: Ballot, window: Window, i: nat, t: nat)
    requires i < |window| && t <= |window[i]|
    ensures FinalState(h, ballot, window[..i] + [window[i][..t], window[i][t..]] + window[i + 1..])
         == FinalState(h, ballot, window)
  {
    var two := [window[i][..t], window[i][t..]];
    assert Flatten(two) == window[i] by {
      assert two[..1] == [window[i][..t]] && [window[i][..t]][..0] == [];
      assert Flatten([]) == [] && Flatten([window[i][..t]]) == [] + window[i][..t];
      assert window[i][..t] + window[i][t..] == window[i];
    }
    assert Flatten([window[i]]) == window[i] by {
      FlattenOne(window[i]);
    }
    FlattenConcat(window[..i] + two, window[i + 1..]);
    FlattenConcat(window[..i], two);
    FlattenConcat(window[..i] + [window[i]], window[i + 1..]);
    FlattenConcat(window[..i], [window[i]]);
    assert window == window[..i] + [window[i]] + window[i + 1..];
  }

  // ----- Transactions without effect -----

  predicate CreatesVote(ballot: Ballot, tx: RawTx) {
    exists j :: 0 <= j < |tx.outputs| && VoteAt(ballot, tx, j).Some?
  }

  predicate SpendsAny(recorded: set<OutPoint>, tx: RawTx) {
    exists i :: 0 <= i < |tx.inputs| && tx.inputs[i] in recorded
  }

  /** Every outpoint that the history records anywhere. */
  ghost function RecordedIn(es: seq<Event>): set<OutPoint> {
    set e | e in es && e.Record? :: e.p
  }

  function Relevant(ballot: Ballot, recorded: set<OutPoint>, txs: seq<RawTx>): seq<RawTx> {
    if txs == [] then [] else
      var last := txs[|txs| - 1];
      Relevant(ballot, recorded, txs[..|txs| - 1]) +
        if CreatesVote(ballot, last) || SpendsAny(recorded, last) then [last] else []
  }

  lemma {:induction false} RelevantMembers(ballot: Ballot, recorded: set<OutPoint>, txs: seq<RawTx>, tx: RawTx)
    ensures tx in Relevant(ballot, recorded, txs) <==>
              tx in txs && (CreatesVote(ballot, tx) || SpendsAny(recorded, tx))
  {
    if txs != [] {
      var n := |txs| - 1;
      RelevantMembers(ballot, recorded, txs[..n], tx);
      assert txs == txs[..n] + [txs[n]];
    }
  }

  /** What is kept: exactly the transactions with a decodable vote under the ballot's script or a recorded input. */
  lemma RelevantInFields(ballot: Ballot, recorded: set<OutPoint>, txs: seq<RawTx>, tx: RawTx)
    ensures tx in Relevant(ballot, recorded, txs) <==>
              && tx in txs
              && ((exists i :: 0 <= i < |tx.inputs| && tx.inputs[i] in recorded)
                  || exists j :: 0 <= j < |tx.outputs| && VoteAt(ballot, tx, j).Some?)
  {
    RelevantMembers(ballot, recorded, txs, tx);
  }

  lemma {:induction false} NoVoteNoEvents(h: HashFn, ballot: Ballot, tx: RawTx, n: nat)
    requires n <= |tx.outputs| && !CreatesVote(ballot, tx)
    ensures OutputsEvents(h, ballot, tx, n) == []
  {
    if n > 0 {
      NoVoteNoEvents(h, ballot, tx, n - 1);
    }
  }

  lemma {:induction false} UnrecordedSpends(s: State, inputs: seq<OutPoint>)
    requires forall p :: p in inputs ==> p !in s.owners
    ensures RunFrom(s, Spends(inputs)) == s
  {
    if inputs != [] {
      var n := |inputs| - 1;
      assert Spends(inputs)[..n] == Spends(inputs[..n]);
      UnrecordedSpends(s, inputs[..n]);
    }
  }

  lemma InertStep(h: HashFn, ballot: Ballot, recorded: set<OutPoint>, s: State, tx: RawTx)
    requires s.owners.Keys <= recorded
    requires !CreatesVote(ballot, tx) && !SpendsAny(recorded, tx)
    ensures RunFrom(s, TxEvents(h, ballot, tx)) == s
  {
    NoVoteNoEvents(h, ballot, tx, |tx.outputs|);
    assert TxEvents(h, ballot, tx) == Spends(tx.inputs);
    UnrecordedSpends(s, tx.inputs);
  }

  lemma {:induction false} RelevantRuns(h: HashFn, ballot: Ballot, recorded: set<OutPoint>, txs: seq<RawTx>)
    requires RecordedIn(TxsEvents(h, ballot, txs)) <= recorded
    ensures Run(TxsEvents(h, ballot, Relevant(ballot, recorded, txs))) == Run(TxsEvents(h, ballot, txs))
  {
    if txs != [] {
      var n := |txs| - 1;
      var prefix, last := txs[..n], txs[n];
      var before := TxsEvents(h, ballot, prefix);
      assert forall e :: e in before ==> e in TxsEvents(h, ballot, txs);
      RelevantRuns(h, ballot, recorded, prefix);
      RunConcat(EMPTY, before, TxEvents(h, ballot, last));
      var kept := Relevant(ballot, recorded, prefix);
      if CreatesVote(ballot, last) || SpendsAny(recorded, last) {
        assert (kept + [last])[..|kept|] == kept;
        RunConcat(EMPTY, TxsEvents(h, ballot, kept), TxEvents(h, ballot, last));
      } else {
        assert kept + [] == kept;
        forall p | p in Run(before).owners ensures p in recorded {
          OwnersWereRecorded(before, p);
          var v :| Record(p, v) in before;
          assert Record(p, v).p in RecordedIn(TxsEvents(h, ballot, txs));
        }
        InertStep(h, ballot, recorded, Run(before), last);
      }
    }
  }

  /**
   * Leaving out every transaction that spends no outpoint recorded anywhere in the window and creates no decodable vote
   * changes neither map, hence neither total.
   */
  lemma OnlyRelevantTransactionsMatter(h: HashFn, ballot: Ballot, window: Window)
    ensures var recorded := RecordedIn(TxsEvents(h, ballot, Flatten(window)));
            FinalState(h, ballot, [Relevant(ballot, recorded, Flatten(window))]) == FinalState(h, ballot, window)
  {
    var recorded := RecordedIn(TxsEvents(h, ballot, Flatten(window)));
    var kept := Relevant(ballot, recorded, Flatten(window));
    RelevantRuns(h, ballot, recorded, Flatten(window));
    FlattenOne(kept);
  }
}
