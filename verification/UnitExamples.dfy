/** Jobs that reach the states in which the code goes wrong: two units, one file of 4096
    bytes and a batch size of two. */
module UnitExamples {
  import opened Bits
  import opened Options
  import opened IoUnits
  import opened UnitFiles
  import opened UnitRuns
  import opened Quiesce

  function SmallJob(): Config {
    Config(2, [4096], 2, None, false)
  }

  function Blank(free: bool, inDepth: bool): IoU {
    IoU(free, false, inDepth, false, None, false, 0, 0, 0)
  }

  /** A read of 512 bytes at the start of the file. */
  function Block(free: bool, flight: bool, file: Option<nat>): IoU {
    IoU(free, flight, true, false, file, true, 0, 512, 512)
  }

  /** The job with its second unit `x` in hand or not, and `refs` references on the file. */
  function Job(x: IoU, refs: int): Td {
    Td([Blank(true, false), x], if x.free then [0, 1] else [0], [], if x.free then 0 else 1, 0, 0, {},
       [FioFile(true, false, refs, 4096, false)], 1, 2, None, false)
  }

  function Filled(): Td {
    Job(Block(false, false, Some(0)), 2)
  }

  /** Open the file, take a unit, set it on the file. */
  lemma FilledReached()
    ensures Reached(Filled())
  {
    OpenedReached();
    TakenReached();
    ReachedStep(Job(Blank(false, true), 1), FillUnit(1, 0, true, 0, 512), Filled());
  }

  lemma OpenedReached()
    ensures Reached(Job(Blank(true, false), 1))
  {
    var td := Init(SmallJob());
    ReachedInit(SmallJob());
    assert td.units == [Blank(true, false), Blank(true, false)] && td.freelist == [0, 1];
    ReachedStep(td, Open(0), Job(Blank(true, false), 1));
  }

  lemma TakenReached()
    requires Reached(Job(Blank(true, false), 1))
    ensures Reached(Job(Blank(false, true), 1))
  {
    ReachedStep(Job(Blank(true, false), 1), Take, Job(Blank(false, true), 1));
  }

  /** The unit has been queued, which is less than a batch, and reaped by a wait. */
  function Stuck(): Td {
    Job(Block(true, false, None), 1).(queued := 1, inFlight := U32 - 1)
  }

  lemma StuckReached()
    ensures Reached(Stuck())
  {
    var td := Job(Block(false, true, Some(0)), 2).(queued := 1, engine := {1});
    QueuedReached(td);
    ReapedReached(td);
  }

  lemma QueuedReached(td: Td)
    requires td == Job(Block(false, true, Some(0)), 2).(queued := 1, engine := {1})
    ensures Reached(td)
  {
    FilledReached();
    ReachedStep(Filled(), SubmitUnit(1, Queued), td);
  }

  lemma ReapedReached(td: Td)
    requires td == Job(Block(false, true, Some(0)), 2).(queued := 1, engine := {1}) && Reached(td)
    ensures Reached(Stuck())
  {
    ReapLone(td);
    ReachedStep(td, ReapEvents([Event(1, false, 0)]), Stuck());
  }

  lemma ReapLone(td: Td)
    requires td == Job(Block(false, true, Some(0)), 2).(queued := 1, engine := {1})
    ensures Owed(td, [Event(1, false, 0)]) && Reap(td, [Event(1, false, 0)]) == Stuck()
  {
    var e := Event(1, false, 0);
    assert EventUnits([e]) == {1};
    var td1 := Returned(td, [e]);
    assert td1.engine == {} && td1.inFlight == U32 - 1;
    var x := td1.units[1].(flight := false);
    assert With(td1, 1, x).units == [Blank(true, false), Block(false, false, Some(0))];
    var td2 := Put(With(td1, 1, x), 1);
    assert td2.units == [Blank(true, false), Block(true, false, None)] && td2.freelist == [0, 1];
    assert td2 == Stuck();
    assert Complete(td1, e) == td2;
    assert [e][1..] == [];
    assert CompleteAll(td1, [e]) == td2;
  }

  /** There `io_u_quiesce` waits for ever: whatever the engine answers, it has not returned. */
  lemma QuiesceHangs(answers: seq<seq<Event>>)
    requires Possible(Commit(Stuck()), answers)
    ensures Reached(Stuck()) && Drain(Commit(Stuck()), answers).None?
  {
    StuckReached();
    ReachedInv(Stuck());
    DrainHangs(Stuck(), answers, Exact);
  }

  /** The engine has refused the unit, which waits on the ring. */
  function Waiting(): Td {
    Filled().(units := [Blank(true, false), Block(true, false, Some(0))], requeues := [1], curDepth := 0)
  }

  lemma WaitingReached()
    ensures Reached(Waiting())
  {
    FilledReached();
    ReachedInv(Filled());
    assert [] + [1] == [1];
    assert Submit(Filled(), 1, Busy).units == Waiting().units;
    ReachedStep(Filled(), SubmitUnit(1, Busy), Waiting());
  }

  /** There the file has two references, and no unit without the FREE flag is on it. */
  lemma ReferenceOfFreeUnit()
    ensures Reached(Waiting()) && Waiting().files[0].refs == 2 && HeldUsers(Waiting().units, 0) == {}
  {
    WaitingReached();
  }

  /** A sync of the file takes the waiting unit and leaves a reference nobody holds. */
  lemma SyncLosesReference()
    ensures Reached(Waiting()) && Get(Waiting()).1 == Some(1)
    ensures Users(Borrowed(Waiting(), 0).units, 0) == {} && Borrowed(Waiting(), 0).files[0].refs == 2
  {
    WaitingReached();
    ReachedInv(Waiting());
  }

  /** The file has been closed with the unit still on it. */
  function Closing(): Td {
    Filled().(files := [FioFile(true, true, 1, 4096, false)])
  }

  lemma ClosingReached()
    ensures Reached(Closing())
  {
    FilledReached();
    ReachedStep(Filled(), Close(0), Closing());
  }

  /** There a second close really closes the file under the unit. */
  lemma SecondCloseUnderUnit()
    ensures Reached(Closing()) && Uses(Closing().units[1], 0) && !CloseFile(Closing(), 0).files[0].open
  {
    ClosingReached();
  }
}
