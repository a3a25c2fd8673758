/** The job's thread: the code that moves units, in the order it works, proved to do what
    the steps of `IoUnits` say and to keep all of their invariants. The engine's answers are
    parameters. */
module ThreadData {
  import opened Bits
  import opened Options
  import opened IoUnits
  import opened UnitPool
  import opened UnitFiles
  import opened UnitRuns
  import opened Quiesce

  /** What `__get_io_u` asserts of a unit on the stack or the ring. */
  ghost predicate ListedFree(td: Td)
    requires InRange(td)
  {
    (forall u :: u in td.freelist ==> td.units[u].free) && (forall u :: u in td.requeues ==> td.units[u].free)
  }

  /** The unit a sync takes can be queued and returned. */
  ghost predicate SyncOk(td: Td)
    requires InRange(td) && Get(td).1.Some?
  {
    var (td1, u) := (Get(td).0, Get(td).1.value);
    u < |td1.units| && !td1.units[u].flight && |td1.freelist| < |td1.units| && |td1.requeues| < |td1.units|
  }

  /** What `put_io_u` relies on. */
  ghost predicate PutOk(td: Td, u: nat) {
    && u < |td.units| && FileInRange(td, u) && |td.freelist| < |td.units|
    && (td.units[u].file.Some? && td.files[td.units[u].file.value].open ==> td.files[td.units[u].file.value].refs > 0)
  }

  /** Each event in turn finds its unit in flight and returnable, and the last leads to `goal`. */
  ghost predicate Reaping(td: Td, events: seq<Event>, goal: Td)
    decreases |events|
  {
    if events == [] then td == goal
    else
      var e := events[0];
      && EventOk(td, e) && td.units[e.unit].flight && PutOk(td, e.unit) && |td.requeues| < |td.units|
      && Reaping(Complete(td, e), events[1..], goal)
  }

  /** What the code of each step relies on, and the state it leads to. */
  ghost predicate Fit(td: Td, op: Op, goal: Td) {
    match op
    case Take => InRange(td) && ListedFree(td) && goal == Get(td).0
    case FillUnit(u, f, rw, offset, len) =>
      u < |td.units| && f < |td.files| && td.files[f].open && goal == Fill(td, u, f, rw, offset, len)
    case GiveUpFile(f) => f < |td.files| && td.files[f].open && td.files[f].refs > 0 && goal == GiveUp(td, f)
    case Return(u) => PutOk(td, u) && goal == Put(td, u)
    case SubmitUnit(u, a) =>
      && PutOk(td, u) && AnswerOk(td, u, a) && |td.requeues| < |td.units| && !td.units[u].flight && OnOpenFile(td, u)
      && goal == Submit(td, u, a)
    case ReapEvents(events) => Reaping(Returned(td, events), events, goal)
    case CommitQueued => goal == Commit(td)
    case Open(f) => f < |td.files| && (td.files[f].closing <==> td.files[f].open) && goal == OpenFile(td, f)
    case Close(f) => f < |td.files| && (td.files[f].open ==> td.files[f].refs > 0) && goal == CloseFile(td, f)
    case SyncFile(f, a) =>
      && PoolInv(td) && PlacesOk(td) && f < |td.files| && td.files[f].open && td.files[f].refs > 0
      && SyncAnswer(a) && (Get(td).1.Some? ==> SyncOk(td)) && goal == Sync(td, f, a)
    case MoveLimit(qd) => goal == td.(latencyQd := Some(qd))
  }

  lemma SyncIsFit(td: Td, f: nat, m: Refs)
    requires Inv(td, {}, m) && f < |td.files| && td.files[f].open
    ensures td.files[f].refs > 0 && (Get(td).1.Some? ==> SyncOk(td))
  {
    assert FileOk(td.units, td.files[f], f, m);
    if Get(td).1.Some? {
      var u := Get(td).1.value;
      GotUnit(td);
      GetInv(td, m);
      HeldHasRoom(Get(td).0, u);
      GotNotFlying(td, m);
    }
  }

  /** In every state the invariants allow, a held unit may be returned or requeued. */
  lemma HeldIsPutOk(td: Td, extra: set<nat>, u: nat, m: Refs)
    requires Inv(td, extra, m) && u < |td.units| && !td.units[u].free
    ensures PutOk(td, u) && |td.requeues| < |td.units|
  {
    HeldHasRoom(td, u);
    if td.units[u].file.Some? {
      var f := td.units[u].file.value;
      assert FileOk(td.units, td.files[f], f, m);
    }
  }

  lemma {:induction false} ReadyIsReaping(td: Td, events: seq<Event>, m: Refs)
    requires Inv(td, EventUnits(events), m) && Ready(td, events)
    ensures Reaping(td, events, CompleteAll(td, events))
    decreases |events|
  {
    if events != [] {
      var u := events[0].unit;
      EventUnitsRest(events);
      HeldIsPutOk(td, EventUnits(events), u, m);
      CompleteInv(td, EventUnits(events), events[0], m);
      assert EventUnits(events) - {u} == EventUnits(events[1..]);
      ReadyRest(td, events);
      ReadyIsReaping(Complete(td, events[0]), events[1..], m);
    }
  }

  lemma CanReap(td: Td, events: seq<Event>, m: Refs)
    requires Inv(td, {}, m) && Owed(td, events)
    ensures Reaping(Returned(td, events), events, Reap(td, events))
  {
    ReturnedFlight(td, events);
    SameUnits(td, Returned(td, events), m);
    ReadyIsReaping(Returned(td, events), events, m);
  }

  lemma EnabledIsFit(td: Td, op: Op, m: Refs)
    requires Inv(td, {}, m) && Enabled(td, op, m)
    ensures Fit(td, op, Apply(td, op, m))
  {
    match op
    case Take =>
    case FillUnit(u, f, rw, offset, len) =>
    case GiveUpFile(f) => assert FileOk(td.units, td.files[f], f, m);
    case Return(u) => HeldIsPutOk(td, {}, u, m);
    case SubmitUnit(u, a) =>
      HeldIsPutOk(td, {}, u, m);
      if !m.Loose? {
        UserHasOpenFile(td, u, m);
      }
    case ReapEvents(events) => CanReap(td, events, m);
    case CommitQueued =>
    case Open(f) => assert FileOk(td.units, td.files[f], f, m);
    case Close(f) => assert FileOk(td.units, td.files[f], f, m);
    case SyncFile(f, a) => SyncIsFit(td, f, m);
    case MoveLimit(qd) =>
  }

  lemma GotOrNot(td: Td)
    requires PoolInv(td) && PlacesOk(td)
    ensures Get(td).1.Some? ==> Get(td).1.value < |td.units| == |Get(td).0.units|
  {
    if Get(td).1.Some? {
      GotUnit(td);
    }
  }

  /** Each wait in turn can be served, and the loop ends as `goal` says. */
  ghost predicate Draining(td: Td, answers: seq<seq<Event>>, goal: Option<Td>)
    decreases |answers|
  {
    if td.inFlight == 0 then goal == Some(td)
    else if answers == [] then goal == None
    else
      var a := answers[0];
      Ready(td, a) && Reaping(Returned(td, a), a, Reap(td, a)) && Draining(Reap(td, a), answers[1..], goal)
  }

  lemma {:induction false} PossibleIsDraining(td: Td, answers: seq<seq<Event>>, m: Refs)
    requires Inv(td, {}, m) && Possible(td, answers)
    ensures Draining(td, answers, Drain(td, answers))
    decreases |answers|
  {
    if answers != [] && td.inFlight != 0 {
      CanReap(td, answers[0], m);
      ReapInv(td, answers[0], m);
      PossibleIsDraining(Reap(td, answers[0]), answers[1..], m);
    }
  }

  lemma GiveUpIsClose(td: Td, f: nat)
    requires f < |td.files| && td.files[f].open && td.files[f].refs > 0
    ensures var td1 := CloseFile(td, f); GiveUp(td, f) == td1.(files := td1.files[f := td1.files[f].(done := true)])
  {
    assert PutFile(GetFile(td, f), f).files == td.files;
  }

  datatype Block = Block(rw: bool, offset: nat, len: nat)

  /** A file `get_next_file` offers and the block, if any, `fill_io_u` finds in it. */
  datatype Try = Try(f: nat, block: Option<Block>)

  ghost predicate Offered(td: Td, u: nat, tries: seq<Try>)
    decreases |tries|
  {
    tries == [] ||
    (MayFill(td, u, tries[0].f) && td.files[tries[0].f].refs > 0 &&
     match tries[0].block
     case Some(b) => b.len < LIMIT && b.offset + b.len <= LIMIT
     case None => Offered(GiveUp(td, tries[0].f), u, tries[1..]))
  }

  function Served(td: Td, u: nat, tries: seq<Try>): (Td, bool)
    requires Offered(td, u, tries)
    decreases |tries|
  {
    if tries == [] then (td, false)
    else
      match tries[0].block
      case Some(b) => (Fill(td, u, tries[0].f, b.rw, b.offset, b.len), true)
      case None => Served(GiveUp(td, tries[0].f), u, tries[1..])
  }

  /** The first file offered that has a block. */
  function FirstBlock(tries: seq<Try>): (i: nat)
    ensures i <= |tries| && (i < |tries| ==> tries[i].block.Some?)
    ensures forall j :: 0 <= j < i ==> tries[j].block.None?
  {
    if tries == [] || tries[0].block.Some? then 0 else 1 + FirstBlock(tries[1..])
  }

  /** The unit is served exactly if some file offered has a block, and then with the first
      such block; the files tried before it are done. */
  lemma {:induction false} FirstBlockServed(td: Td, u: nat, tries: seq<Try>)
    requires Offered(td, u, tries) && u < |td.units|
    ensures var i, (td', ok) := FirstBlock(tries), Served(td, u, tries);
            && (ok <==> i < |tries|) && |td'.units| == |td.units| && |td'.files| == |td.files|
            && (ok ==> var b := tries[i].block.value;
                       var buflen := if b.rw then b.len else td.units[u].buflen;
                       td'.units[u] == td.units[u].(file := Some(tries[i].f), rw := b.rw, offset := b.offset,
                                                    buflen := buflen, xfer := buflen))
            && (!ok ==> td'.units[u] == td.units[u])
            && forall j :: 0 <= j < i ==> tries[j].f < |td'.files| && td'.files[tries[j].f].done
    decreases |tries|
  {
    if tries != [] && tries[0].block.None? {
      var f := tries[0].f;
      var td1, rest := GiveUp(td, f), tries[1..];
      GiveUpIsClose(td, f);
      FirstBlockServed(td1, u, rest);
      DoneStays(td1, u, rest, f);
    }
  }

  lemma {:induction false} DoneStays(td: Td, u: nat, tries: seq<Try>, f: nat)
    requires Offered(td, u, tries) && f < |td.files| && td.files[f].done
    ensures f < |Served(td, u, tries).0.files| && Served(td, u, tries).0.files[f].done
    decreases |tries|
  {
    if tries != [] && tries[0].block.None? {
      GiveUpIsClose(td, tries[0].f);
      DoneStays(GiveUp(td, tries[0].f), u, tries[1..], f);
    }
  }

  /** However many files are tried, everything is kept, and a unit that is served is on a
      file that is open. */
  lemma {:induction false} ServedInv(td: Td, u: nat, tries: seq<Try>, m: Refs)
    requires Inv(td, {}, m) && Offered(td, u, tries)
    ensures Inv(Served(td, u, tries).0, {}, m)
    ensures Served(td, u, tries).1 ==> u < |Served(td, u, tries).0.units| && OnOpenFile(Served(td, u, tries).0, u)
    decreases |tries|
  {
    if tries != [] {
      var f := tries[0].f;
      match tries[0].block
      case Some(b) => FillInv(td, u, f, b.rw, b.offset, b.len, m);
      case None =>
        ApplyInv(td, GiveUpFile(f), m);
        ServedInv(GiveUp(td, f), u, tries[1..], m);
    }
  }

  /** `requeue_io_u` clears FLIGHT itself. */
  lemma RequeueShifted(td: Td, u: nat)
    requires u < |td.units|
    ensures Requeue(td, u) == Requeue(With(td, u, td.units[u].(flight := false)), u)
  {
    var x := td.units[u].(free := true, flight := false);
    assert td.units[u := td.units[u].(flight := false)][u := x] == td.units[u := x];
  }

  class Thread {
    var units: seq<IoU>
    var freelist: seq<nat>
    var requeues: seq<nat>
    var curDepth: int
    var queued: nat
    var inFlight: nat
    var engine: set<nat>
    var files: seq<FioFile>
    var nrOpen: int
    var latencyQd: Option<nat>
    const batch: nat
    const serialize: bool

    function State(): Td
      reads this
    {
      Td(units, freelist, requeues, curDepth, queued, inFlight, engine, files, nrOpen, batch, latencyQd, serialize)
    }

    /** `init_io_u`. */
    constructor (c: Config)
      requires c.Ok()
      ensures State() == Init(c) && Inv(State(), {}, Exact)
    {
      batch, serialize, latencyQd := c.batch, c.serialize, c.latencyQd;
      requeues, curDepth, queued, inFlight, engine, nrOpen := [], 0, 0, 0, {}, 0;
      files := Init(c).files;
      units, freelist := [], [];
      new;
      var i: nat := 0;
      while i < c.iodepth
        invariant i <= c.iodepth && |units| == |freelist| == i
        invariant forall j: nat :: j < i ==> freelist[j] == j && units[j] == Init(c).units[j]
        invariant State() == Init(c).(units := units, freelist := freelist)
      {
        units := units + [IoU(true, false, false, false, None, false, 0, 0, 0)];
        freelist := freelist + [i];
        i := i + 1;
      }
      assert units == Init(c).units && freelist == Init(c).freelist;
      InitInv(c, Exact);
    }

    /** Takes another reference on an open file. */
    method GetFileRef(f: nat)
      requires f < |files| && files[f].open
      modifies this`files
      ensures State() == GetFile(old(State()), f)
    {
      files := files[f := files[f].(refs := files[f].refs + 1)];
    }

    /** Drops a reference that somebody holds. */
    method PutFileRef(f: nat)
      requires f < |files| && (files[f].open ==> files[f].refs > 0)
      modifies this`files, this`nrOpen
      ensures State() == PutFile(old(State()), f)
    {
      if !files[f].open {
        return;
      }
      files := files[f := files[f].(refs := files[f].refs - 1)];
      if files[f].refs != 0 {
        return;
      }
      nrOpen := nrOpen - 1;
      files := files[f := files[f].(closing := false)];
      files := files[f := files[f].(open := false)];
    }

    /** Returns a unit: the free stack has room, and a reference to be dropped is there. */
    method PutIoU(u: nat)
      requires PutOk(State(), u)
      modifies this
      ensures State() == Put(old(State()), u)
    {
      ghost var x := units[u];
      if units[u].file.Some? && !units[u].noPut {
        PutFileRef(units[u].file.value);
      }
      units := units[u := units[u].(file := None)];
      units := units[u := units[u].(free := true)];
      if units[u].inDepth {
        curDepth := curDepth - 1;
      }
      freelist := freelist + [u];
      assert units == old(units)[u := x.(file := None, free := true)];
    }

    method RequeueIoU(u: nat)
      requires u < |units| && |requeues| < |units|
      modifies this`units, this`curDepth, this`requeues
      ensures State() == Requeue(old(State()), u)
    {
      ghost var x := units[u];
      units := units[u := units[u].(free := true)];
      units := units[u := units[u].(flight := false)];
      if units[u].inDepth {
        curDepth := curDepth - 1;
      }
      requeues := requeues + [u];
      assert units == old(units)[u := x.(free := true, flight := false)];
    }

    /** `queue_full`. */
    method QueueIsFull() returns (full: bool)
      ensures full <==> QueueFull(State())
    {
      if freelist == [] {
        return true;
      }
      if latencyQd.None? {
        return false;
      }
      return curDepth >= latencyQd.value;
    }

    method GetIoU() returns (got: Option<nat>)
      requires InRange(State()) && ListedFree(State())
      modifies this`units, this`freelist, this`requeues, this`curDepth
      ensures got == Get(old(State())).1 && State() == Get(old(State())).0
    {
      got := None;
      if requeues != [] {
        got := Some(requeues[0]);
        assert requeues[0] in requeues;
        requeues := requeues[1..];
      } else {
        var full := QueueIsFull();
        if !full {
          var n := |freelist| - 1;
          got := Some(freelist[n]);
          assert freelist[n] in freelist;
          freelist := freelist[..n];
          units := units[got.value := units[got.value].(file := None, buflen := 0)];
        }
      }
      if got.Some? {
        var u := got.value;
        assert units[u].free;
        units := units[u := units[u].(free := false, noPut := false)];
        curDepth := curDepth + 1;
        units := units[u := units[u].(inDepth := true)];
        assert units == Get(old(State())).0.units;
      }
    }

    method TdIoCommit()
      modifies this`inFlight, this`queued
      ensures State() == Commit(old(State()))
    {
      if curDepth == 0 || queued == 0 {
        return;
      }
      inFlight := (inFlight + queued) % U32;
      queued := 0;
    }

    /** Looks for a unit in flight whose range meets that of `u`. */
    method InFlightOverlap(u: nat) returns (overlap: bool)
      requires u < |units|
      ensures overlap <==> Overlap(State(), u)
    {
      var x1, x2 := units[u].offset, (units[u].offset + units[u].buflen) % U64;
      var i: nat := 0;
      while i < |units|
        invariant 0 <= i <= |units|
        invariant forall v: nat :: v < i ==> !(units[v].flight && Meet(units[u], units[v]))
      {
        if units[i].flight {
          var y1, y2 := units[i].offset, (units[i].offset + units[i].buflen) % U64;
          if x1 < y2 && y1 < x2 {
            return true;
          }
        }
        i := i + 1;
      }
      return false;
    }

    /** Hands a unit that is not in flight, on an open file, to the engine. */
    method TdIoQueue(u: nat, a: Answer)
      requires u < |units| && !units[u].flight && OnOpenFile(State(), u)
      modifies this`units, this`engine, this`queued, this`inFlight
      ensures State() == Queue(old(State()), u, a)
    {
      ghost var x := units[u];
      units := units[u := units[u].(flight := true)];
      match a
      case Completed(_, _) =>
      case Busy =>
        if units[u].rw {
          units := units[u := units[u].(flight := false)];
        }
        assert units == old(units)[u := x.(flight := !x.rw)];
      case Queued =>
        engine := engine + {u};
        queued := (queued + 1) % U32;
        if queued >= batch {
          TdIoCommit();
        }
    }

    /** `io_completed`, and `put_io_u` unless it requeued the unit. */
    method IoCompleted(e: Event)
      requires EventOk(State(), e) && units[e.unit].flight && PutOk(State(), e.unit) && |requeues| < |units|
      modifies this
      ensures State() == Complete(old(State()), e)
    {
      var u := e.unit;
      ghost var x := units[u].(flight := false);
      units := units[u := units[u].(flight := false)];
      if units[u].rw && !e.error {
        var bytes := units[u].xfer - e.resid;
        if bytes > 0 && e.resid > 0 {
          units := units[u := units[u].(xfer := e.resid)];
          units := units[u := units[u].(offset := units[u].offset + bytes)];
          assert units == old(units)[u := Shifted(x, e.resid)];
          if units[u].offset < files[units[u].file.value].size {
            RequeueIoU(u);
            return;
          }
        }
      }
      PutIoU(u);
    }

    method IosCompleted(events: seq<Event>, ghost goal: Td)
      requires Reaping(State(), events, goal)
      modifies this
      ensures State() == goal
    {
      var i := 0;
      while i < |events|
        invariant 0 <= i <= |events| && Reaping(State(), events[i..], goal)
      {
        assert events[i..][1..] == events[i + 1..];
        IoCompleted(events[i]);
        i := i + 1;
      }
    }

    /** `io_u_queued_complete`: the engine returns `events`. */
    method QueuedComplete(events: seq<Event>, ghost goal: Td)
      requires Reaping(Returned(State(), events), events, goal)
      modifies this
      ensures State() == goal
    {
      engine := engine - EventUnits(events);
      inFlight := (inFlight - |events|) % U32;
      assert State() == Returned(old(State()), events);
      IosCompleted(events, goal);
    }

    method IoQueueEvent(u: nat, a: Answer)
      requires AnswerOk(State(), u, a) && PutOk(State(), u) && |requeues| < |units|
      requires a.Completed? ==> units[u].flight
      modifies this
      ensures State() == QueueEvent(old(State()), u, a)
    {
      ghost var x := units[u].(flight := false);
      match a
      case Queued =>
      case Busy =>
        RequeueIoU(u);
        TdIoCommit();
      case Completed(error, resid) =>
        if error {
          units := units[u := units[u].(flight := false)];
          PutIoU(u);
        } else if resid > 0 {
          var bytes := units[u].xfer - resid;
          units := units[u := units[u].(xfer := resid)];
          units := units[u := units[u].(offset := units[u].offset + bytes)];
          assert units[u := units[u].(flight := false)] == old(units)[u := Shifted(x, resid)];
          if units[u].offset == files[units[u].file.value].size {
            IoCompleted(Event(u, false, resid));
          } else {
            RequeueShifted(State(), u);
            RequeueIoU(u);
          }
        } else {
          IoCompleted(Event(u, false, 0));
        }
    }

    /** `io_u_submit`, then `io_queue_event`. */
    method IoUSubmit(u: nat, a: Answer)
      requires AnswerOk(State(), u, a) && PutOk(State(), u) && |requeues| < |units|
      requires !units[u].flight && OnOpenFile(State(), u)
      modifies this
      ensures State() == Submit(old(State()), u, a)
    {
      if serialize && curDepth > 1 {
        var overlap := InFlightOverlap(u);
        if overlap {
          IoQueueEvent(u, Busy);
          return;
        }
      }
      TdIoQueue(u, a);
      IoQueueEvent(u, a);
    }

    /** Opens a file, or undoes a close that has not happened yet. */
    method TdIoOpenFile(f: nat)
      requires f < |files| && (files[f].closing ==> files[f].open) && (files[f].open ==> files[f].closing)
      modifies this`files, this`nrOpen
      ensures State() == OpenFile(old(State()), f)
    {
      if files[f].closing {
        files := files[f := files[f].(closing := false)];
        GetFileRef(f);
        return;
      }
      files := files[f := files[f].(open := true)];
      files := files[f := files[f].(closing := false)];
      nrOpen := nrOpen + 1;
      GetFileRef(f);
    }

    method TdIoCloseFile(f: nat)
      requires f < |files| && (files[f].open ==> files[f].refs > 0)
      modifies this`files, this`nrOpen
      ensures State() == CloseFile(old(State()), f)
    {
      files := files[f := files[f].(closing := true)];
      PutFileRef(f);
    }

    /** Tries files until one has a block for unit `u`; a file that has none is closed. */
    method SetIoUFile(u: nat, tries: seq<Try>) returns (ok: bool)
      requires Offered(State(), u, tries)
      modifies this`units, this`files, this`nrOpen
      ensures (State(), ok) == Served(old(State()), u, tries)
    {
      ghost var goal := Served(State(), u, tries);
      assert tries[0..] == tries;
      ok := false;
      var i := 0;
      while i < |tries| && !ok
        invariant 0 <= i <= |tries|
        invariant if ok then (State(), true) == goal
                  else Offered(State(), u, tries[i..]) && Served(State(), u, tries[i..]) == goal
      {
        assert tries[i..][1..] == tries[i + 1..];
        if tries[i].block.Some? {
          FillFrom(u, tries[i].f, tries[i].block.value);
          ok := true;
        } else {
          GiveUpOn(u, tries[i].f);
        }
        i := i + 1;
      }
    }

    method FillFrom(u: nat, f: nat, b: Block)
      requires u < |units| && f < |files| && files[f].open
      modifies this`units, this`files
      ensures State() == Fill(old(State()), u, f, b.rw, b.offset, b.len)
    {
      ghost var td := State();
      units := units[u := units[u].(file := Some(f))];
      GetFileRef(f);
      FillBlock(u, b);
      assert units == Fill(td, u, f, b.rw, b.offset, b.len).units;
    }

    method GiveUpOn(u: nat, f: nat)
      requires u < |units| && units[u].file.None? && f < |files| && files[f].open && files[f].refs > 0
      modifies this`units, this`files, this`nrOpen
      ensures State() == GiveUp(old(State()), f)
    {
      GiveUpIsClose(State(), f);
      units := units[u := units[u].(file := Some(f))];
      HoldAndDrop(f);
      units := units[u := units[u].(file := None)];
      assert units == old(units);
      CloseDone(f);
    }

    method HoldAndDrop(f: nat)
      requires f < |files| && files[f].open && files[f].refs > 0
      modifies this`files, this`nrOpen
      ensures files == old(files) && nrOpen == old(nrOpen)
    {
      GetFileRef(f);
      PutFileRef(f);
    }

    method CloseDone(f: nat)
      requires f < |files| && files[f].open && files[f].refs > 0
      modifies this`files, this`nrOpen
      ensures var td := CloseFile(old(State()), f); State() == td.(files := td.files[f := td.files[f].(done := true)])
    {
      TdIoCloseFile(f);
      files := files[f := files[f].(done := true)];
    }

    /** `fill_io_u` and what `get_io_u` sets after it. */
    method FillBlock(u: nat, b: Block)
      requires u < |units|
      modifies this`units
      ensures var buflen := if b.rw then b.len else old(units[u]).buflen;
              units == old(units)[u := old(units[u]).(rw := b.rw, offset := b.offset, buflen := buflen, xfer := buflen)]
    {
      units := units[u := units[u].(rw := b.rw, offset := b.offset)];
      if b.rw {
        units := units[u := units[u].(buflen := b.len)];
      }
      units := units[u := units[u].(xfer := units[u].buflen)];
    }

    method Borrow(f: nat) returns (got: Option<nat>)
      requires PoolInv(State()) && PlacesOk(State())
      modifies this`units, this`freelist, this`requeues, this`curDepth
      ensures got == Get(old(State())).1
      ensures State() == if got.None? then old(State()) else Borrowed(old(State()), f)
    {
      GotOrNot(State());
      got := GetIoU();
      if got.Some? {
        var u := got.value;
        units := units[u := units[u].(rw := false)];
        units := units[u := units[u].(file := Some(f))];
        units := units[u := units[u].(noPut := true)];
        assert units == Borrowed(old(State()), f).units;
      }
    }

    /** `fio_io_sync`; `ok` is false where the retry after BUSY finds FLIGHT set, which
        `td_io_queue` asserts it is not. */
    method FioIoSync(f: nat, a: Answer) returns (ok: bool)
      requires PoolInv(State()) && PlacesOk(State()) && f < |files| && files[f].open && files[f].refs > 0
      requires SyncAnswer(a) && (Get(State()).1.Some? ==> SyncOk(State()))
      modifies this
      ensures State() == Sync(old(State()), f, a)
      ensures ok <==> !(a == Busy && Get(old(State())).1.Some?)
    {
      var got := Borrow(f);
      if got.None? {
        return true;
      }
      var u := got.value;
      TdIoQueue(u, a);
      if a.Completed? {
        IoCompleted(Event(u, false, 0));
        return true;
      }
      TdIoCommit();
      ok := a == Queued || !units[u].flight;
    }

    /** `io_u_quiesce` against an engine that gives `answers`, one per wait. */
    method IoUQuiesce(answers: seq<seq<Event>>, ghost goal: Option<Td>) returns (done: bool)
      requires Draining(Commit(State()), answers, goal)
      modifies this
      ensures done <==> goal.Some?
      ensures done ==> State() == goal.value
    {
      if queued > 0 || curDepth > 0 {
        TdIoCommit();
      }
      assert answers[0..] == answers;
      var i := 0;
      while inFlight != 0 && i < |answers|
        invariant 0 <= i <= |answers| && Draining(State(), answers[i..], goal)
        decreases |answers| - i
      {
        assert answers[i..][1..] == answers[i + 1..];
        QueuedComplete(answers[i], Reap(State(), answers[i]));
        i := i + 1;
      }
      return inFlight == 0;
    }

    /** Any step a job may take: none of the assertions on flags, files, references and queues
        fails, and all invariants are kept. */
    method Step(op: Op, ghost m: Refs)
      requires Inv(State(), {}, m) && Enabled(State(), op, m)
      modifies this
      ensures State() == Apply(old(State()), op, m) && Inv(State(), {}, m)
    {
      ApplyInv(State(), op, m);
      EnabledIsFit(State(), op, m);
      Perform(op, Apply(State(), op, m));
    }

    method Perform(op: Op, ghost goal: Td)
      requires Fit(State(), op, goal)
      modifies this
      ensures State() == goal
    {
      match op
      case Take =>
        var _ := GetIoU();
      case FillUnit(u, f, rw, offset, len) => FillFrom(u, f, Block(rw, offset, len));
      case GiveUpFile(f) => CloseGivenUp(f);
      case Return(u) => PutIoU(u);
      case SubmitUnit(u, a) => IoUSubmit(u, a);
      case ReapEvents(events) => QueuedComplete(events, goal);
      case CommitQueued => TdIoCommit();
      case Open(f) => TdIoOpenFile(f);
      case Close(f) => TdIoCloseFile(f);
      case SyncFile(f, a) =>
        var _ := FioIoSync(f, a);
      case MoveLimit(qd) => latencyQd := Some(qd);
    }

    method CloseGivenUp(f: nat)
      requires f < |files| && files[f].open && files[f].refs > 0
      modifies this`files, this`nrOpen
      ensures State() == GiveUp(old(State()), f)
    {
      GiveUpIsClose(State(), f);
      HoldAndDrop(f);
      CloseDone(f);
    }

    method CloseFiles()
      requires FileInv(State(), Loose)
      modifies this`files, this`nrOpen
      ensures State() == CloseFrom(old(State()), 0)
    {
      var f: nat := 0;
      while f < |files|
        invariant f <= |files| && CloseFrom(State(), f) == CloseFrom(old(State()), 0)
        invariant |files| == old(|files|) && forall g: nat :: f <= g < |files| ==> files[g] == old(files)[g]
      {
        if files[f].open {
          assert FileOk(old(units), old(files)[f], f, Loose);
          TdIoCloseFile(f);
        }
        f := f + 1;
      }
    }
  }
}
