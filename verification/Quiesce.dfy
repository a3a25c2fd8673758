/** Waiting for the engine to give everything back. */
module Quiesce {
  import opened Options
  import opened IoUnits
  import opened UnitPool
  import opened UnitFiles
  import opened UnitRuns

  /** Answers the engine can give, one list of events per wait, while the loop goes on. */
  ghost predicate Possible(td: Td, answers: seq<seq<Event>>)
    decreases |answers|
  {
    answers == [] || td.inFlight == 0 ||
    (Owed(td, answers[0]) && Possible(Reap(td, answers[0]), answers[1..]))
  }

  /** The engine returns something whenever it owes something and is asked for one event. */
  ghost predicate Cooperative(td: Td, answers: seq<seq<Event>>)
    requires Possible(td, answers)
    decreases |answers|
  {
    answers == [] || td.inFlight == 0 ||
    ((td.engine != {} ==> answers[0] != []) && Cooperative(Reap(td, answers[0]), answers[1..]))
  }

  /** The loop of `io_u_quiesce`: the state it returns in, or none if it is still waiting
      when the answers run out. */
  ghost function Drain(td: Td, answers: seq<seq<Event>>): Option<Td>
    requires Possible(td, answers)
    decreases |answers|
  {
    if td.inFlight == 0 then Some(td)
    else if answers == [] then None
    else Drain(Reap(td, answers[0]), answers[1..])
  }

  lemma {:induction false} CompleteAllFrame(td: Td, events: seq<Event>)
    requires Ready(td, events)
    ensures var td' := CompleteAll(td, events);
            td'.engine == td.engine && td'.queued == td.queued && td'.inFlight == td.inFlight
    decreases |events|
  {
    if events != [] {
      CompleteFrame(td, events[0]);
      ReadyRest(td, events);
      CompleteAllFrame(Complete(td, events[0]), events[1..]);
    }
  }

  /** A wait takes what it returns from what is owed and leaves the queued count alone. */
  lemma ReapCounts(td: Td, events: seq<Event>, m: Refs)
    requires Inv(td, {}, m) && Owed(td, events)
    ensures var td' := Reap(td, events);
            Inv(td', {}, m) && td'.queued == td.queued && |td'.engine| == |td.engine| - |events|
  {
    ReapInv(td, events, m);
    CompleteAllFrame(Returned(td, events), events);
    OwedSize(td, events);
  }

  lemma NoneHeldNoneOwed(td: Td, m: Refs)
    requires Inv(td, {}, m) && td.curDepth == 0
    ensures td.engine == {}
  {
    assert td.engine <= Held(td.units);
  }

  lemma Started(td: Td, m: Refs)
    requires Inv(td, {}, m)
    ensures Inv(Commit(td), {}, m) && Commit(td).engine == td.engine
    ensures Commit(td).queued == 0 <==> td.curDepth > 0 || td.queued == 0
    ensures Commit(td).queued == 0 ==> Commit(td).inFlight == |td.engine|
  {
    CommitInv(td, {}, m);
  }

  /** Whenever the loop returns, the engine owes nothing. */
  lemma {:induction false} DrainLeavesNothing(td: Td, answers: seq<seq<Event>>, m: Refs)
    requires Inv(td, {}, m) && Possible(td, answers) && (td.queued == 0 || td.engine == {})
    ensures Drain(td, answers).Some? ==> Inv(Drain(td, answers).value, {}, m) && Drain(td, answers).value.engine == {}
    decreases |answers|
  {
    if td.inFlight != 0 && answers != [] {
      ReapCounts(td, answers[0], m);
      DrainLeavesNothing(Reap(td, answers[0]), answers[1..], m);
    }
  }

  lemma QuiesceLeavesNothing(td: Td, answers: seq<seq<Event>>, m: Refs)
    requires Inv(td, {}, m) && Possible(Commit(td), answers)
    ensures Drain(Commit(td), answers).Some? ==> Drain(Commit(td), answers).value.engine == {}
  {
    Started(td, m);
    if td.curDepth == 0 {
      NoneHeldNoneOwed(td, m);
    }
    DrainLeavesNothing(Commit(td), answers, m);
  }

  /** With nothing left queued, one wait per owed unit is enough. */
  lemma {:induction false} DrainEnds(td: Td, answers: seq<seq<Event>>, m: Refs)
    requires Inv(td, {}, m) && td.queued == 0
    requires Possible(td, answers) && Cooperative(td, answers) && |answers| >= |td.engine|
    ensures Drain(td, answers).Some?
    decreases |answers|
  {
    assert td.inFlight == |td.engine|;
    if td.inFlight != 0 {
      ReapCounts(td, answers[0], m);
      DrainEnds(Reap(td, answers[0]), answers[1..], m);
    }
  }

  /** With a stale queued count and nothing owed, no wait changes anything. */
  lemma {:induction false} DrainHangs(td: Td, answers: seq<seq<Event>>, m: Refs)
    requires Inv(td, {}, m) && td.queued != 0 && td.engine == {} && Possible(td, answers)
    ensures Drain(td, answers).None?
    decreases |answers|
  {
    assert td.inFlight != 0;
    if answers != [] {
      assert answers[0] == [];
      assert td.engine - EventUnits([]) == td.engine;
      assert Reap(td, []) == td;
      DrainHangs(td, answers[1..], m);
    }
  }

  /** `io_u_quiesce` returns, given an engine that goes on delivering, exactly when a unit
      is held or nothing is queued as it is called. */
  lemma QuiesceReturnsIff(td: Td, answers: seq<seq<Event>>, m: Refs)
    requires Inv(td, {}, m) && Possible(Commit(td), answers)
    requires Cooperative(Commit(td), answers) && |answers| >= |td.engine|
    ensures Drain(Commit(td), answers).Some? <==> td.curDepth > 0 || td.queued == 0
  {
    Started(td, m);
    if td.curDepth > 0 || td.queued == 0 {
      DrainEnds(Commit(td), answers, m);
    } else {
      NoneHeldNoneOwed(td, m);
      DrainHangs(Commit(td), answers, m);
    }
  }
}
