/** All of it together: every step of a job keeps every invariant, so every run does. */
module UnitRuns {
  import opened Bits
  import opened Options
  import opened IoUnits
  import opened UnitPool
  import opened UnitFlight
  import opened UnitFiles
  import opened UnitRanges

  ghost predicate Inv(td: Td, extra: set<nat>, m: Refs) {
    PoolInv(td) && FlightInv(td, extra) && FileInv(td, m) && RangeInv(td)
  }

  lemma PutInv(td: Td, extra: set<nat>, u: nat, m: Refs)
    requires Inv(td, extra, m) && u < |td.units| && !td.units[u].free && !td.units[u].flight
    ensures Inv(Put(td, u), extra, m)
  {
    PutPool(td, u);
    PutFlight(td, extra, u);
    PutFiles(td, u, m);
    GroundRange(td, u, td.units[u].(file := None, free := true));
  }

  lemma RequeueInv(td: Td, extra: set<nat>, u: nat, m: Refs)
    requires Inv(td, extra, m) && u < |td.units| && !td.units[u].free && u !in td.engine
    requires !td.units[u].noPut && td.units[u].file.Some?
    ensures Inv(Requeue(td, u), extra - {u}, m)
  {
    RequeuePool(td, u);
    RequeueFlight(td, extra, u);
    RequeueFiles(td, u, m);
    GroundRange(td, u, td.units[u].(free := true, flight := false));
  }

  /** A unit handed back is taken out of flight, moved on if its transfer was short. */
  lemma LandInv(td: Td, extra: set<nat>, u: nat, x: IoU, m: Refs)
    requires Inv(td, extra, m) && u < |td.units| && u !in td.engine && !x.flight && UnitOk(x)
    requires x.free == td.units[u].free && x.inDepth == td.units[u].inDepth
    requires x.file == td.units[u].file && x.noPut == td.units[u].noPut
    ensures Inv(With(td, u, x), extra - {u}, m)
  {
    PoolUpdate(td, u, x);
    LandFlight(td, extra, u, x);
    UpdateFiles(td, u, x, m);
    GroundRange(td, u, x);
  }

  lemma CommitInv(td: Td, extra: set<nat>, m: Refs)
    requires Inv(td, extra, m)
    ensures Inv(Commit(td), extra, m)
  {
    CommitFlight(td, extra);
  }

  /** A unit handed back and done with goes to the free stack. */
  lemma DoneInv(td: Td, extra: set<nat>, u: nat, m: Refs)
    requires Inv(td, extra, m) && u < |td.units| && u in extra
    ensures FileInRange(td, u) && Inv(Put(With(td, u, td.units[u].(flight := false)), u), extra - {u}, m)
  {
    var x := td.units[u].(flight := false);
    LandInv(td, extra, u, x, m);
    PutInv(With(td, u, x), extra - {u}, u, m);
  }

  /** A short one is moved on, and may be put or requeued. */
  lemma ShortInv(td: Td, extra: set<nat>, u: nat, resid: nat, m: Refs)
    requires Inv(td, extra, m) && u < |td.units| && u in extra && td.units[u].rw && 0 < resid < td.units[u].xfer
    ensures FileInRange(td, u)
    ensures Inv(Put(With(td, u, Shifted(td.units[u].(flight := false), resid)), u), extra - {u}, m)
    ensures Inv(Requeue(With(td, u, Shifted(td.units[u].(flight := false), resid)), u), extra - {u}, m)
  {
    var x := Shifted(td.units[u].(flight := false), resid);
    LandInv(td, extra, u, x, m);
    PutInv(With(td, u, x), extra - {u}, u, m);
    RequeueInv(With(td, u, x), extra - {u}, u, m);
    assert extra - {u} - {u} == extra - {u};
  }

  lemma CompleteInv(td: Td, extra: set<nat>, e: Event, m: Refs)
    requires Inv(td, extra, m) && EventOk(td, e) && e.unit in extra
    ensures Inv(Complete(td, e), extra - {e.unit}, m)
  {
    var x := td.units[e.unit].(flight := false);
    if x.rw && !e.error && 0 < e.resid < x.xfer {
      ShortInv(td, extra, e.unit, e.resid, m);
      var td1 := With(td, e.unit, Shifted(x, e.resid));
      assert Complete(td, e) == Requeue(td1, e.unit) || Complete(td, e) == Put(td1, e.unit);
    } else {
      DoneInv(td, extra, e.unit, m);
      assert Complete(td, e) == Put(With(td, e.unit, x), e.unit);
    }
  }

  /** What `td_io_queue` asserts of the unit's file. */
  ghost predicate OnOpenFile(td: Td, u: nat)
    requires u < |td.units|
  {
    td.units[u].file.Some? && td.units[u].file.value < |td.files| && td.files[td.units[u].file.value].open
  }

  ghost predicate MaySubmit(td: Td, u: nat) {
    u < |td.units| && !td.units[u].free && !td.units[u].flight && td.units[u].file.Some?
  }

  /** A read, write or trim that `io_u_submit` lets through. */
  ghost predicate Passes(td: Td, u: nat)
    requires u < |td.units|
  {
    td.serialize && td.units[u].rw ==> td.curDepth <= 1 || !Overlap(td, u)
  }

  lemma FlyUnitInv(td: Td, u: nat, m: Refs)
    requires Inv(td, {}, m) && MaySubmit(td, u)
    requires Passes(td, u)
    ensures var td' := With(td, u, td.units[u].(flight := true)); PoolInv(td') && FileInv(td', m) && RangeInv(td')
  {
    var x := td.units[u];
    PoolUpdate(td, u, x.(flight := true));
    UpdateFiles(td, u, x.(flight := true), m);
    forall v: nat | td.serialize && x.rw && v < |td.units| && v != u && Flying(td.units[v])
      ensures Apart(x, td.units[v])
    {
      PassMeetsNone(td, u, v);
    }
    FlyRange(td, u);
  }

  lemma AcceptInv(td: Td, u: nat, m: Refs)
    requires Inv(td, {}, m) && MaySubmit(td, u)
    requires Passes(td, u)
    ensures Inv(Accepted(td, u), {}, m)
  {
    FlyUnitInv(td, u, m);
    AcceptFlight(td, {}, u);
    SameUnits(With(td, u, td.units[u].(flight := true)), Accepted(td, u), m);
  }

  /** Places, files and ranges do not depend on the engine's side of the state. */
  lemma SameUnits(td: Td, td': Td, m: Refs)
    requires td' == td.(engine := td'.engine, queued := td'.queued, inFlight := td'.inFlight)
    ensures PoolInv(td) == PoolInv(td') && FileInv(td, m) == FileInv(td', m) && RangeInv(td) == RangeInv(td')
  {
  }

  lemma FlyInv(td: Td, u: nat, m: Refs)
    requires Inv(td, {}, m) && MaySubmit(td, u)
    requires Passes(td, u)
    ensures Inv(With(td, u, td.units[u].(flight := true)), {u}, m)
  {
    FlyUnitInv(td, u, m);
    FlyFlight(td, {}, u);
    assert {} + {u} == {u};
  }

  lemma SubmitQueuedInv(td: Td, u: nat, m: Refs)
    requires Inv(td, {}, m) && MaySubmit(td, u)
    requires Passes(td, u)
    ensures Inv(Queue(td, u, Queued), {}, m)
  {
    AcceptInv(td, u, m);
    CommitInv(Accepted(td, u), {}, m);
  }

  lemma SubmitCompletedInv(td: Td, u: nat, error: bool, resid: nat, m: Refs)
    requires Inv(td, {}, m) && MaySubmit(td, u) && AnswerOk(td, u, Completed(error, resid))
    requires Passes(td, u)
    ensures FileInRange(td, u)
    ensures var a := Completed(error, resid); Inv(QueueEvent(Queue(td, u, a), u, a), {}, m)
  {
    FlyInv(td, u, m);
    var td1 := With(td, u, td.units[u].(flight := true));
    assert {u} - {u} == {};
    DoneInv(td1, {u}, u, m);
    if !error && resid > 0 {
      ShortInv(td1, {u}, u, resid, m);
    }
  }

  /** A refused unit goes to the ring whether or not it was a sync. */
  lemma BusyInv(td: Td, u: nat, flight: bool, m: Refs)
    requires Inv(td, {}, m) && MaySubmit(td, u) && !td.units[u].noPut
    ensures FileInRange(td, u) && Inv(QueueEvent(With(td, u, td.units[u].(flight := flight)), u, Busy), {}, m)
  {
    RequeueInv(td, {}, u, m);
    var td1 := With(td, u, td.units[u].(flight := flight));
    assert Requeue(td1, u) == Requeue(td, u) by {
      var x := td.units[u].(free := true, flight := false);
      assert td1.units[u := x] == td.units[u := x];
    }
    assert {} - {u} == {};
    CommitInv(Requeue(td, u), {}, m);
  }

  /** Submission keeps the invariants whatever the engine answers. */
  lemma SubmitInv(td: Td, u: nat, a: Answer, m: Refs)
    requires Inv(td, {}, m) && MaySubmit(td, u) && AnswerOk(td, u, a) && !td.units[u].noPut
    ensures FileInRange(td, u) && Inv(Submit(td, u, a), {}, m)
  {
    BusyInv(td, u, false, m);
    BusyInv(td, u, true, m);
    assert td.units[u := td.units[u].(flight := false)] == td.units;
    assert With(td, u, td.units[u].(flight := false)) == td;
    if !(td.serialize && td.curDepth > 1 && Overlap(td, u)) {
      match a
      case Queued => SubmitQueuedInv(td, u, m);
      case Busy =>
      case Completed(error, resid) => SubmitCompletedInv(td, u, error, resid, m);
    }
  }

  lemma EventUnitsRest(events: seq<Event>)
    requires events != [] && forall i, j :: 0 <= i < j < |events| ==> events[i].unit != events[j].unit
    ensures EventUnits(events) == {events[0].unit} + EventUnits(events[1..])
    ensures events[0].unit !in EventUnits(events[1..])
  {
    assert events == [events[0]] + events[1..];
    forall e | e in events[1..]
      ensures e.unit != events[0].unit
    {
      var i :| 0 <= i < |events[1..]| && events[1..][i] == e;
    }
  }

  lemma {:induction false} EventUnitsSize(events: seq<Event>)
    requires forall i, j :: 0 <= i < j < |events| ==> events[i].unit != events[j].unit
    ensures |EventUnits(events)| == |events|
  {
    if events != [] {
      EventUnitsRest(events);
      EventUnitsSize(events[1..]);
    }
  }

  lemma {:induction false} CompleteAllInv(td: Td, extra: set<nat>, events: seq<Event>, m: Refs)
    requires Inv(td, extra, m) && Ready(td, events) && EventUnits(events) == extra
    ensures Inv(CompleteAll(td, events), {}, m)
    decreases |events|
  {
    if events != [] {
      var td' := Complete(td, events[0]);
      EventUnitsRest(events);
      CompleteInv(td, extra, events[0], m);
      ReadyRest(td, events);
      assert extra - {events[0].unit} == EventUnits(events[1..]);
      CompleteAllInv(td', extra - {events[0].unit}, events[1..], m);
    }
  }

  lemma CountBack(a: nat, b: nat, n: nat, k: nat)
    requires (a + b) % U32 == n && k <= n
    ensures ((a - k) % U32 + b) % U32 == n - k
  {
  }

  lemma ReturnedFlight(td: Td, events: seq<Event>)
    requires FlightInv(td, {}) && Owed(td, events)
    ensures FlightInv(Returned(td, events), EventUnits(events))
  {
    OwedSize(td, events);
    CountBack(td.inFlight, td.queued, |td.engine|, |events|);
  }

  lemma OwedSize(td: Td, events: seq<Event>)
    requires Owed(td, events)
    ensures EventUnits(events) <= td.engine && |td.engine - EventUnits(events)| == |td.engine| - |events|
  {
    var back := EventUnits(events);
    forall u | u in back
      ensures u in td.engine
    {
      var e :| e in events && e.unit == u;
    }
    EventUnitsSize(events);
    assert td.engine == (td.engine - back) + back;
  }

  lemma ReapInv(td: Td, events: seq<Event>, m: Refs)
    requires Inv(td, {}, m) && Owed(td, events)
    ensures Inv(Reap(td, events), {}, m)
  {
    var td1 := Returned(td, events);
    ReturnedFlight(td, events);
    SameUnits(td, td1, m);
    CompleteAllInv(td1, EventUnits(events), events, m);
  }

  lemma GetInv(td: Td, m: Refs)
    requires Inv(td, {}, m)
    ensures Inv(Get(td).0, {}, m)
  {
    GetPool(td);
    GetFlight(td, {});
    GetFiles(td, m);
    GetRange(td);
  }

  /** A unit taken for a new block, and a file that `get_next_file` offers. */
  ghost predicate MayFill(td: Td, u: nat, f: nat) {
    && u < |td.units| && !td.units[u].free && !td.units[u].flight && td.units[u].file.None?
    && f < |td.files| && td.files[f].open && !td.files[f].closing
  }

  lemma FillInv(td: Td, u: nat, f: nat, rw: bool, offset: nat, len: nat, m: Refs)
    requires Inv(td, {}, m) && MayFill(td, u, f) && len < LIMIT && offset + len <= LIMIT
    ensures Inv(Fill(td, u, f, rw, offset, len), {}, m)
  {
    var td' := Fill(td, u, f, rw, offset, len);
    var x := td'.units[u];
    assert td.units[u := x] == td'.units;
    FillFiles(td, u, f, rw, offset, len, m);
    PoolUpdate(td, u, x);
    LandFlight(td, {}, u, x);
    GroundRange(td, u, x);
    assert {} - {u} == {};
    SameFiles(With(td, u, x), td');
  }

  /** Places, flight and ranges do not depend on the files. */
  lemma SameFiles(td: Td, td': Td)
    requires td' == td.(files := td'.files, nrOpen := td'.nrOpen)
    ensures PoolInv(td) == PoolInv(td') && FlightInv(td, {}) == FlightInv(td', {}) && RangeInv(td) == RangeInv(td')
  {
  }

  // ---- Syncs outside the submit loop ----

  /** What a sync is answered with, failures apart: they end the job. */
  predicate SyncAnswer(a: Answer) {
    a == Queued || a == Busy || a == Completed(false, 0)
  }

  /** `fio_io_sync` up to the point where the engine has answered and been asked to commit,
      or the unit has been completed. After BUSY the code goes back and queues the unit again. */
  function Sync(td: Td, f: nat, a: Answer): Td
    requires PoolInv(td) && PlacesOk(td) && f < |td.files| && SyncAnswer(a)
  {
    if Get(td).1.None? then td
    else
      GotUnit(td);
      var u := Get(td).1.value;
      var td1 := Queue(Borrowed(td, f), u, a);
      if a != Completed(false, 0) then Commit(td1) else Put(With(td1, u, td1.units[u].(flight := false)), u)
  }

  function Borrowed(td: Td, f: nat): Td
    requires PoolInv(td) && PlacesOk(td) && Get(td).1.Some?
  {
    GotUnit(td);
    SetSync(Get(td).0, Get(td).1.value, f)
  }

  lemma GotUnit(td: Td)
    requires PoolInv(td) && PlacesOk(td) && Get(td).1.Some?
    ensures var (td1, got) := Get(td);
            var u := got.value;
            && u < |td.units| == |td1.units| && !td1.units[u].free && td1.units[u].inDepth
            && td1.files == td.files && (td.requeues == [] ==> td1.units[u].file.None? && td1.requeues == [])
  {
    if td.requeues != [] {
      assert td.requeues[0] in td.requeues;
    } else {
      assert td.freelist[|td.freelist| - 1] in td.freelist;
    }
  }

  /** A sync keeps everything if it starts with an empty requeue ring, and all but the
      exact references in any case. */
  lemma SyncInv(td: Td, f: nat, a: Answer, m: Refs)
    requires Inv(td, {}, m) && f < |td.files| && (a == Queued || a == Completed(false, 0))
    requires m.Exact? ==> td.requeues == []
    ensures Inv(Sync(td, f, a), {}, m)
  {
    var (td1, got) := Get(td);
    GetInv(td, m);
    if got.Some? {
      var u := got.value;
      GotUnit(td);
      GotNotFlying(td, m);
      SetSyncInv(td1, u, f, m);
      var td2 := SetSync(td1, u, f);
      if a == Queued {
        SubmitQueuedInv(td2, u, m);
        CommitInv(Queue(td2, u, a), {}, m);
      } else {
        FlyInv(td2, u, m);
        assert {u} - {u} == {};
        DoneInv(Queue(td2, u, a), {u}, u, m);
      }
    }
  }

  lemma SetSyncInv(td: Td, u: nat, f: nat, m: Refs)
    requires Inv(td, {}, m) && u < |td.units| && !td.units[u].free && f < |td.files|
    requires !td.units[u].flight && (m.Exact? ==> td.units[u].file.None?)
    ensures Inv(SetSync(td, u, f), {}, m) && MaySubmit(SetSync(td, u, f), u)
  {
    var x := td.units[u].(file := Some(f), rw := false, noPut := true);
    PoolUpdate(td, u, x);
    LandFlight(td, {}, u, x);
    assert {} - {u} == {};
    SetSyncFiles(td, u, f, m);
    GroundRange(td, u, x);
  }

  /** With a unit waiting on the ring it loses that unit's file reference: the counts stay
      right exactly when the ring is empty. */
  lemma SyncKeepsReferencesIff(td: Td, f: nat)
    requires Inv(td, {}, Exact) && f < |td.files| && Get(td).1.Some?
    ensures FileInv(Borrowed(td, f), Exact) <==> td.requeues == []
  {
    var (td1, got) := Get(td);
    var u := got.value;
    GotUnit(td);
    GetInv(td, Exact);
    if td.requeues == [] {
      GotNotFlying(td, Exact);
      SetSyncInv(td1, u, f, Exact);
    } else {
      assert u in td.requeues;
      var x := td1.units[u];
      var g := x.file.value;
      UsersUpdate(td1.units, u, x.(file := Some(f), rw := false, noPut := true), g);
      assert FileOk(td1.units, td1.files[g], g, Exact);
      assert !FileOk(SetSync(td1, u, f).units, td1.files[g], g, Exact);
    }
  }

  /** A unit that `td_io_queue` accepted once may be handed to it again after BUSY and a
      commit, with FLIGHT clear as it insists, exactly when it is not a sync. */
  lemma RetryAllowedIff(td: Td, u: nat)
    requires MaySubmit(td, u)
    ensures MaySubmit(Commit(Queue(td, u, Busy)), u) <==> td.units[u].rw
  {
  }

  lemma RefusedFlight(td: Td, u: nat, f: nat)
    requires FlightInv(td, {}) && u < |td.units| && !td.units[u].flight && !td.units[u].free
    ensures FlightInv(Commit(Queue(SetSync(td, u, f), u, Busy)), {u})
  {
    LandFlight(td, {}, u, SetSync(td, u, f).units[u]);
    assert {} - {u} == {} && {} + {u} == {u};
    QueueFlight(SetSync(td, u, f), {}, u, Busy);
    CommitFlight(Queue(SetSync(td, u, f), u, Busy), {u});
  }

  /** So the retry of `fio_io_sync` fails that assertion in every state: FLIGHT then marks the
      unit although the engine does not owe it. */
  lemma SyncRetryFails(td: Td, f: nat, m: Refs)
    requires Inv(td, {}, m) && f < |td.files| && Get(td).1.Some?
    ensures MaySubmit(Borrowed(td, f), Get(td).1.value) && !MaySubmit(Sync(td, f, Busy), Get(td).1.value)
    ensures FlightInv(Sync(td, f, Busy), {Get(td).1.value})
  {
    var u := Get(td).1.value;
    GotUnit(td);
    GetInv(td, m);
    GotNotFlying(td, m);
    RetryAllowedIff(Borrowed(td, f), u);
    RefusedFlight(Get(td).0, u, f);
  }

  lemma GotNotFlying(td: Td, m: Refs)
    requires Inv(td, {}, m) && Get(td).1.Some?
    ensures Get(td).1.value < |Get(td).0.units| && !Get(td).0.units[Get(td).1.value].flight
  {
    if td.requeues != [] {
      assert td.requeues[0] in td.requeues;
    } else {
      assert td.freelist[|td.freelist| - 1] in td.freelist;
    }
  }

  // ---- References and the FREE flag ----

  function HeldUsers(units: seq<IoU>, f: nat): set<nat> {
    set u: nat | u < |units| && Uses(units[u], f) && !units[u].free
  }

  /** A file's references are the units on it without the FREE flag, plus one while it is
      open and not closing, exactly when no unit on the requeue ring is on the file. */
  lemma ReferencesCountHeldIff(td: Td, f: nat)
    requires Inv(td, {}, Exact) && f < |td.files|
    ensures (td.files[f].refs == |HeldUsers(td.units, f)| + (if td.files[f].open && !td.files[f].closing then 1 else 0))
            <==> forall u: nat :: u < |td.units| && u in td.requeues ==> !Uses(td.units[u], f)
  {
    assert FileOk(td.units, td.files[f], f, Exact);
    var held, users := HeldUsers(td.units, f), Users(td.units, f);
    SubsetSize(held, users);
    if held == users {
      forall u: nat | u < |td.units| && u in td.requeues
        ensures !Uses(td.units[u], f)
      {
        assert u in users <==> u in held;
      }
    } else {
      var u :| u in users && u !in held;
      assert u in td.requeues;
    }
  }

  // ---- Runs ----

  datatype Op =
    | Take
    | FillUnit(u: nat, f: nat, rw: bool, offset: nat, len: nat)
    | GiveUpFile(f: nat)
    | Return(u: nat)
    | SubmitUnit(u: nat, answer: Answer)
    | ReapEvents(events: seq<Event>)
    | CommitQueued
    | Open(f: nat)
    | Close(f: nat)
    | SyncFile(f: nat, answer: Answer)
    | MoveLimit(qd: nat)

  /** When a job may take a step: what the code's callers and the engine respect. The guards
      on syncs and closes are those that keep references as `m` says; with `Loose` there are
      none, and a unit whose file has been closed under it cannot be submitted. */
  ghost predicate Enabled(td: Td, op: Op, m: Refs) {
    match op
    case Take => true
    case FillUnit(u, f, rw, offset, len) => MayFill(td, u, f) && len < LIMIT && offset + len <= LIMIT
    case GiveUpFile(f) => f < |td.files| && td.files[f].open && !td.files[f].closing
    case Return(u) => u < |td.units| && !td.units[u].free && !td.units[u].flight
    case SubmitUnit(u, a) =>
      MaySubmit(td, u) && AnswerOk(td, u, a) && !td.units[u].noPut && (m.Loose? ==> OnOpenFile(td, u))
    case ReapEvents(events) => Owed(td, events)
    case CommitQueued => true
    case Open(f) => f < |td.files| && (td.files[f].open <==> td.files[f].closing)
    case Close(f) => f < |td.files| && (m.Loose? || (td.files[f].open && !td.files[f].closing))
    case SyncFile(f, a) =>
      && f < |td.files| && td.files[f].open && (a == Queued || a == Completed(false, 0))
      && (m.Exact? ==> td.requeues == [])
    case MoveLimit(qd) => td.latencyQd.Some?
  }

  ghost function Apply(td: Td, op: Op, m: Refs): Td
    requires Inv(td, {}, m) && Enabled(td, op, m)
  {
    match op
    case Take => Get(td).0
    case FillUnit(u, f, rw, offset, len) => Fill(td, u, f, rw, offset, len)
    case GiveUpFile(f) => GiveUp(td, f)
    case Return(u) => Put(td, u)
    case SubmitUnit(u, a) => Submit(td, u, a)
    case ReapEvents(events) => Reap(td, events)
    case CommitQueued => Commit(td)
    case Open(f) => OpenFile(td, f)
    case Close(f) => CloseFile(td, f)
    case SyncFile(f, a) => Sync(td, f, a)
    case MoveLimit(qd) => td.(latencyQd := Some(qd))
  }

  lemma FilesOpInv(td: Td, td': Td, m: Refs)
    requires Inv(td, {}, m) && FileInv(td', m) && td' == td.(files := td'.files, nrOpen := td'.nrOpen)
    ensures Inv(td', {}, m)
  {
    SameFiles(td, td');
  }

  lemma FileStepInv(td: Td, op: Op, m: Refs)
    requires Inv(td, {}, m) && Enabled(td, op, m) && (op.GiveUpFile? || op.Open? || op.Close?)
    ensures Inv(Apply(td, op, m), {}, m)
  {
    if op.GiveUpFile? {
      GiveUpFiles(td, op.f, m);
    } else if op.Open? {
      OpenKeeps(td, op.f, m);
    } else {
      CloseKeeps(td, op.f, m);
    }
    FilesOpInv(td, Apply(td, op, m), m);
  }

  lemma LimitInv(td: Td, qd: nat, m: Refs)
    requires Inv(td, {}, m)
    ensures Inv(td.(latencyQd := Some(qd)), {}, m)
  {
  }

  lemma ApplyInv(td: Td, op: Op, m: Refs)
    requires Inv(td, {}, m) && Enabled(td, op, m)
    ensures Inv(Apply(td, op, m), {}, m)
  {
    match op
    case Take => GetInv(td, m);
    case FillUnit(u, f, rw, offset, len) => FillInv(td, u, f, rw, offset, len, m);
    case GiveUpFile(f) => FileStepInv(td, op, m);
    case Return(u) => PutInv(td, {}, u, m);
    case SubmitUnit(u, a) => SubmitInv(td, u, a, m);
    case ReapEvents(events) => ReapInv(td, events, m);
    case CommitQueued => CommitInv(td, {}, m);
    case Open(f) => FileStepInv(td, op, m);
    case Close(f) => FileStepInv(td, op, m);
    case SyncFile(f, a) => SyncInv(td, f, a, m);
    case MoveLimit(qd) => LimitInv(td, qd, m);
  }

  /** A run of steps, each possible in the state it is taken in. */
  ghost predicate Run(td: Td, ops: seq<Op>, td': Td, m: Refs)
    requires Inv(td, {}, m)
    decreases |ops|
  {
    if ops == [] then td' == td
    else
      Enabled(td, ops[0], m) && (ApplyInv(td, ops[0], m); Run(Apply(td, ops[0], m), ops[1..], td', m))
  }

  lemma {:induction false} RunInv(td: Td, ops: seq<Op>, td': Td, m: Refs)
    requires Inv(td, {}, m) && Run(td, ops, td', m)
    ensures Inv(td', {}, m)
    decreases |ops|
  {
    if ops != [] {
      ApplyInv(td, ops[0], m);
      RunInv(Apply(td, ops[0], m), ops[1..], td', m);
    }
  }

  /** A job's options: pool size, files, batch size, depth limit and overlap check. */
  datatype Config = Config(iodepth: nat, sizes: seq<nat>, batch: nat, latencyQd: Option<nat>, serialize: bool) {
    /** The pool size is a C `int` when the units are made. */
    predicate Ok() {
      iodepth < 0x8000_0000
    }

    /** What option parsing makes of the batch size. */
    predicate Clamped() {
      Ok() && 1 <= batch <= iodepth
    }
  }

  /** `init_io_u`: all units on the free stack; no file open yet. */
  function Init(c: Config): Td {
    Td(seq(c.iodepth, _ => IoU(true, false, false, false, None, false, 0, 0, 0)), seq(c.iodepth, i => i),
       [], 0, 0, 0, {},
       seq(|c.sizes|, i requires 0 <= i < |c.sizes| => FioFile(false, false, 0, c.sizes[i], false)),
       0, c.batch, c.latencyQd, c.serialize)
  }

  lemma InitInv(c: Config, m: Refs)
    requires c.Ok()
    ensures Inv(Init(c), {}, m)
  {
    var td := Init(c);
    forall u: nat | u < c.iodepth
      ensures u in td.freelist
    {
      assert td.freelist[u] == u;
    }
    assert Held(td.units) == {};
    assert OpenFiles(td.files) == {};
    forall f: nat | f < |td.files|
      ensures FileOk(td.units, td.files[f], f, m)
    {
      assert Users(td.units, f) == {};
    }
  }

  ghost predicate RunsFrom(c: Config, ops: seq<Op>, td: Td, m: Refs)
    requires c.Ok()
  {
    InitInv(c, m);
    Run(Init(c), ops, td, m)
  }

  /** What every reachable state of every job guarantees, with references as far as `m` goes. */
  ghost predicate Safe(td: Td, m: Refs) {
    && Distinct(td.freelist) && Distinct(td.requeues)
    && (forall u :: u in td.freelist ==> u < |td.units| && u !in td.requeues)
    && (forall u :: u in td.requeues ==> u < |td.units|)
    && (forall u: nat :: u < |td.units| ==> (u in td.freelist || u in td.requeues <==> td.units[u].free))
    && td.curDepth == |Held(td.units)| && |td.freelist| + |td.requeues| + td.curDepth == |td.units|
    && (forall u :: u in td.engine ==> u < |td.units|)
    && (forall u: nat :: u < |td.units| ==> (td.units[u].flight <==> u in td.engine))
    && (forall u: nat :: u < |td.units| ==> td.units[u].flight ==> !td.units[u].free)
    && (td.inFlight + td.queued) % U32 == |td.engine|
    && (td.serialize ==> FlyingApart(td.units))
    && (forall f: nat :: f < |td.files| ==> FileOk(td.units, td.files[f], f, m))
    && td.nrOpen == |OpenFiles(td.files)|
  }

  lemma InvIsSafe(td: Td, m: Refs)
    requires Inv(td, {}, m)
    ensures Safe(td, m)
  {
    PoolAddsUp(td);
  }

  lemma EveryRunIsSafe(c: Config, ops: seq<Op>, td: Td, m: Refs)
    requires c.Ok() && RunsFrom(c, ops, td, m)
    ensures Safe(td, m)
  {
    InitInv(c, m);
    RunInv(Init(c), ops, td, m);
    InvIsSafe(td, m);
  }

  /** States that a job with real options can be in. */
  ghost predicate Reached(td: Td) {
    exists c: Config, ops :: c.Clamped() && RunsFrom(c, ops, td, Exact)
  }

  lemma {:induction false} RunAppend(td: Td, ops: seq<Op>, td1: Td, op: Op)
    requires Inv(td, {}, Exact) && Run(td, ops, td1, Exact) && Inv(td1, {}, Exact) && Enabled(td1, op, Exact)
    ensures Run(td, ops + [op], Apply(td1, op, Exact), Exact)
    decreases |ops|
  {
    if ops == [] {
      assert ([] + [op])[1..] == [];
      ApplyInv(td, op, Exact);
    } else {
      assert (ops + [op])[1..] == ops[1..] + [op];
      ApplyInv(td, ops[0], Exact);
      RunAppend(Apply(td, ops[0], Exact), ops[1..], td1, op);
    }
  }

  lemma ReachedInv(td: Td)
    requires Reached(td)
    ensures Inv(td, {}, Exact)
  {
    var c: Config, ops :| c.Clamped() && RunsFrom(c, ops, td, Exact);
    InitInv(c, Exact);
    RunInv(Init(c), ops, td, Exact);
  }

  lemma ReachedInit(c: Config)
    requires c.Clamped()
    ensures Reached(Init(c))
  {
    InitInv(c, Exact);
    assert RunsFrom(c, [], Init(c), Exact);
  }

  lemma ReachedStep(td: Td, op: Op, td': Td)
    requires Reached(td) && Enabled(td, op, Exact) && (ReachedInv(td); td' == Apply(td, op, Exact))
    ensures Reached(td')
  {
    ReachedInv(td);
    var c: Config, ops :| c.Clamped() && RunsFrom(c, ops, td, Exact);
    InitInv(c, Exact);
    RunAppend(Init(c), ops, td, op);
    assert RunsFrom(c, ops + [op], td', Exact);
  }
}
