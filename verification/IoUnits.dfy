/** The life of fio's I/O units. A fixed pool of units moves between the free stack, the
    requeue ring, the hands of the submitting thread and the engine, while counters and
    per-file reference counts summarise where everything is. The engine is arbitrary: it
    answers each unit as it likes and returns owed units in any order. */
module IoUnits {
  import opened Bits
  import opened Options

  /** Offsets and lengths stay below 2^63, as file sizes do. */
  const LIMIT: nat := 0x8000_0000_0000_0000

  /** `struct io_u`; `rw` tells a read, write or trim from a sync. */
  datatype IoU = IoU(free: bool, flight: bool, inDepth: bool, noPut: bool, file: Option<nat>,
                     rw: bool, offset: nat, buflen: nat, xfer: nat)

  datatype FioFile = FioFile(open: bool, closing: bool, refs: int, size: nat, done: bool)

  /** The parts of `struct thread_data` that I/O units touch. `engine` holds the units the
      engine has accepted and not yet handed back. */
  datatype Td = Td(units: seq<IoU>, freelist: seq<nat>, requeues: seq<nat>, curDepth: int,
                   queued: nat, inFlight: nat, engine: set<nat>, files: seq<FioFile>, nrOpen: int,
                   batch: nat, latencyQd: Option<nat>, serialize: bool)

  datatype Answer = Completed(error: bool, resid: nat) | Queued | Busy

  /** An event the engine returns: which unit, whether it failed, and how much is left. */
  datatype Event = Event(unit: nat, error: bool, resid: nat)

  function With(td: Td, u: nat, x: IoU): Td
    requires u < |td.units|
  {
    td.(units := td.units[u := x])
  }

  /** `put_file`: drops a reference, really closing the file with the last one. */
  function PutFile(td: Td, f: nat): Td
    requires f < |td.files|
  {
    var file := td.files[f];
    if !file.open then td
    else if file.refs == 1
    then td.(files := td.files[f := file.(refs := 0, open := false, closing := false)], nrOpen := td.nrOpen - 1)
    else td.(files := td.files[f := file.(refs := file.refs - 1)])
  }

  /** `put_io_u`. */
  function Put(td: Td, u: nat): (td': Td)
    requires u < |td.units| && FileInRange(td, u)
    ensures |td'.units| == |td.units| && |td'.files| == |td.files|
  {
    var x := td.units[u];
    var td1 := if x.file.Some? && !x.noPut then PutFile(td, x.file.value) else td;
    td1.(units := td.units[u := x.(file := None, free := true)],
         curDepth := if x.inDepth then td.curDepth - 1 else td.curDepth, freelist := td.freelist + [u])
  }

  ghost predicate FileInRange(td: Td, u: nat)
    requires u < |td.units|
  {
    td.units[u].file.Some? ==> td.units[u].file.value < |td.files|
  }

  /** `requeue_io_u`. */
  function Requeue(td: Td, u: nat): Td
    requires u < |td.units|
  {
    var x := td.units[u];
    With(td, u, x.(free := true, flight := false)).(
    curDepth := if x.inDepth then td.curDepth - 1 else td.curDepth, requeues := td.requeues + [u])
  }

  predicate QueueFull(td: Td) {
    td.freelist == [] || (td.latencyQd.Some? && td.curDepth >= td.latencyQd.value)
  }

  ghost predicate InRange(td: Td) {
    (forall u :: u in td.freelist ==> u < |td.units|) && (forall u :: u in td.requeues ==> u < |td.units|)
  }

  function TakeRequeued(td: Td): (td': Td)
    requires InRange(td) && td.requeues != []
    ensures |td'.units| == |td.units|
  {
    var u := td.requeues[0];
    assert u in td.requeues;
    With(td, u, td.units[u].(free := false, noPut := false, inDepth := true)).(
    requeues := td.requeues[1..], curDepth := td.curDepth + 1)
  }

  function TakeFree(td: Td): (td': Td)
    requires InRange(td) && td.freelist != []
    ensures |td'.units| == |td.units|
  {
    var n := |td.freelist| - 1;
    var u := td.freelist[n];
    assert u in td.freelist;
    With(td, u, td.units[u].(free := false, noPut := false, inDepth := true, file := None, buflen := 0)).(
    freelist := td.freelist[..n], curDepth := td.curDepth + 1)
  }

  /** `__get_io_u`: requeued units first, in order. */
  function Get(td: Td): (Td, Option<nat>)
    requires InRange(td)
  {
    if td.requeues != [] then (TakeRequeued(td), Some(td.requeues[0]))
    else if QueueFull(td) then (td, None)
    else (TakeFree(td), Some(td.freelist[|td.freelist| - 1]))
  }

  /** `td_io_commit`. */
  function Commit(td: Td): Td {
    if td.curDepth == 0 || td.queued == 0 then td
    else td.(inFlight := (td.inFlight + td.queued) % U32, queued := 0)
  }

  function Accepted(td: Td, u: nat): Td
    requires u < |td.units|
  {
    With(td, u, td.units[u].(flight := true)).(queued := (td.queued + 1) % U32, engine := td.engine + {u})
  }

  /** `td_io_queue`. A refused sync keeps its FLIGHT flag. */
  function Queue(td: Td, u: nat, a: Answer): Td
    requires u < |td.units|
  {
    var x := td.units[u];
    match a
    case Completed(_, _) => With(td, u, x.(flight := true))
    case Busy => With(td, u, x.(flight := !x.rw))
    case Queued =>
      var td1 := Accepted(td, u);
      if td1.queued >= td.batch then Commit(td1) else td1
  }

  /** A short transfer moves the unit on to what is left. */
  function Shifted(x: IoU, resid: nat): IoU
    requires resid <= x.xfer
  {
    x.(offset := x.offset + (x.xfer - resid), xfer := resid)
  }

  /** `io_completed` and the `put_io_u` its callers add unless the unit was requeued. */
  function Complete(td: Td, e: Event): (td': Td)
    requires EventOk(td, e)
    ensures |td'.units| == |td.units| && |td'.files| == |td.files|
  {
    var x := td.units[e.unit].(flight := false);
    if x.rw && !e.error && 0 < e.resid < x.xfer then
      var td1 := With(td, e.unit, Shifted(x, e.resid));
      if x.offset + (x.xfer - e.resid) < td.files[x.file.value].size then Requeue(td1, e.unit) else Put(td1, e.unit)
    else Put(With(td, e.unit, x), e.unit)
  }

  /** What the engine may report: a unit with a file, no more left than was asked for. */
  predicate EventOk(td: Td, e: Event) {
    e.unit < |td.units| && td.units[e.unit].file.Some? && td.units[e.unit].file.value < |td.files| &&
    if td.units[e.unit].rw then e.resid <= td.units[e.unit].xfer else e.resid == 0
  }

  predicate Ready(td: Td, events: seq<Event>) {
    && (forall i :: 0 <= i < |events| ==> EventOk(td, events[i]))
    && (forall i, j :: 0 <= i < j < |events| ==> events[i].unit != events[j].unit)
  }

  /** Completing a unit touches no other. */
  lemma CompleteFrame(td: Td, e: Event)
    requires EventOk(td, e)
    ensures var td' := Complete(td, e);
            && |td'.units| == |td.units| && |td'.files| == |td.files|
            && td'.engine == td.engine && td'.queued == td.queued && td'.inFlight == td.inFlight
            && forall v: nat :: v < |td.units| && v != e.unit ==> td'.units[v] == td.units[v]
  {
  }

  lemma ReadyRest(td: Td, events: seq<Event>)
    requires Ready(td, events) && events != []
    ensures Ready(Complete(td, events[0]), events[1..])
  {
    CompleteFrame(td, events[0]);
  }

  /** `ios_completed`. */
  function CompleteAll(td: Td, events: seq<Event>): (td': Td)
    requires Ready(td, events)
    ensures |td'.units| == |td.units| && |td'.files| == |td.files|
    decreases |events|
  {
    if events == [] then td
    else
      ReadyRest(td, events);
      CompleteAll(Complete(td, events[0]), events[1..])
  }

  function EventUnits(events: seq<Event>): set<nat> {
    set e | e in events :: e.unit
  }

  /** The engine hands back units it owes, in any order. */
  predicate Owed(td: Td, events: seq<Event>) {
    Ready(td, events) && forall i :: 0 <= i < |events| ==> events[i].unit in td.engine
  }

  function Returned(td: Td, events: seq<Event>): Td {
    td.(engine := td.engine - EventUnits(events), inFlight := (td.inFlight - |events|) % U32)
  }

  /** `io_u_queued_complete`: `td_io_getevents` takes the count, `ios_completed` the units. */
  function Reap(td: Td, events: seq<Event>): Td
    requires Ready(td, events)
  {
    CompleteAll(Returned(td, events), events)
  }

  /** `io_queue_event`. */
  function QueueEvent(td: Td, u: nat, a: Answer): Td
    requires u < |td.units| && FileInRange(td, u) && AnswerOk(td, u, a)
  {
    match a
    case Queued => td
    case Busy => Commit(Requeue(td, u))
    case Completed(error, resid) =>
      var x := td.units[u].(flight := false);
      if error || resid == 0 then Put(With(td, u, x), u)
      else
        var td1 := With(td, u, Shifted(x, resid));
        if td1.units[u].offset == td.files[x.file.value].size then Put(td1, u) else Requeue(td1, u)
  }

  /** A transfer that moved nothing ends the job. */
  predicate AnswerOk(td: Td, u: nat, a: Answer) {
    u < |td.units| && td.units[u].file.Some? &&
    (a.Completed? && a.resid > 0 && !a.error ==> td.units[u].rw && a.resid < td.units[u].xfer)
  }

  predicate Meet(x: IoU, y: IoU) {
    x.offset < (y.offset + y.buflen) % U64 && y.offset < (x.offset + x.buflen) % U64
  }

  /** `in_flight_overlap`. */
  predicate Overlap(td: Td, u: nat)
    requires u < |td.units|
  {
    exists v: nat | v < |td.units| :: td.units[v].flight && Meet(td.units[u], td.units[v])
  }

  /** `io_u_submit` followed by `io_queue_event`. */
  function Submit(td: Td, u: nat, a: Answer): Td
    requires u < |td.units| && FileInRange(td, u) && AnswerOk(td, u, a)
  {
    if td.serialize && td.curDepth > 1 && Overlap(td, u) then QueueEvent(td, u, Busy)
    else QueueEvent(Queue(td, u, a), u, a)
  }

  function GetFile(td: Td, f: nat): Td
    requires f < |td.files|
  {
    td.(files := td.files[f := td.files[f].(refs := td.files[f].refs + 1)])
  }

  /** `td_io_open_file` when the engine opens the file: opening a closing file undoes the close. */
  function OpenFile(td: Td, f: nat): Td
    requires f < |td.files|
  {
    var file := td.files[f];
    td.(files := td.files[f := file.(open := file.open || !file.closing, closing := false, refs := file.refs + 1)],
        nrOpen := if file.closing then td.nrOpen else td.nrOpen + 1)
  }

  /** `td_io_close_file`: the real close waits for the last reference. */
  function CloseFile(td: Td, f: nat): Td
    requires f < |td.files|
  {
    PutFile(td.(files := td.files[f := td.files[f].(closing := true)]), f)
  }

  /** `set_io_u_file` when the file yields a block, or a sync, for unit `u`. */
  function Fill(td: Td, u: nat, f: nat, rw: bool, offset: nat, len: nat): Td
    requires u < |td.units| && f < |td.files|
  {
    var buflen := if rw then len else td.units[u].buflen;
    GetFile(With(td, u, td.units[u].(file := Some(f), rw := rw, offset := offset, buflen := buflen, xfer := buflen)), f)
  }

  /** `set_io_u_file` when it does not: the reference goes back and the file is closed. */
  function GiveUp(td: Td, f: nat): Td
    requires f < |td.files|
  {
    var td1 := CloseFile(PutFile(GetFile(td, f), f), f);
    td1.(files := td1.files[f := td1.files[f].(done := true)])
  }

  /** The set-up of `fio_io_sync`, which borrows the caller's reference. */
  function SetSync(td: Td, u: nat, f: nat): Td
    requires u < |td.units|
  {
    With(td, u, td.units[u].(file := Some(f), rw := false, noPut := true))
  }
}
