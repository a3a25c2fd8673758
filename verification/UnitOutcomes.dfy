/** What the steps come to: which bytes of a unit's range are transferred, when the engine is
    asked at all, when a batch is committed and how many units can be out at once. */
module UnitOutcomes {
  import opened Bits
  import opened Options
  import opened IoUnits
  import opened UnitPool
  import opened UnitFiles
  import opened UnitRanges
  import opened UnitRuns

  // ---- One completion ----

  function FileSize(td: Td, u: nat): nat
    requires u < |td.units| && td.units[u].file.Some? && td.units[u].file.value < |td.files|
  {
    td.files[td.units[u].file.value].size
  }

  /** The end of what is to be transferred. */
  function End(x: IoU): nat {
    x.offset + x.xfer
  }

  /** An event moves a unit on by what was transferred and no more: the end stays, what is
      left is the residual. The unit is requeued exactly if something was transferred,
      something is left and the file goes on; otherwise it is free. */
  lemma CompleteMoves(td: Td, e: Event)
    requires EventOk(td, e)
    ensures var x, td' := td.units[e.unit], Complete(td, e);
            var x' := td'.units[e.unit];
            var short := x.rw && !e.error && 0 < e.resid < x.xfer;
            && End(x') == End(x) && x'.xfer == (if short then e.resid else x.xfer)
            && (td'.requeues == td.requeues + [e.unit] <==> short && x'.offset < FileSize(td, e.unit))
            && (td'.freelist == td.freelist + [e.unit] <==> !(short && x'.offset < FileSize(td, e.unit)))
  {
    var x, td' := td.units[e.unit], Complete(td, e);
    assert td'.requeues == td.requeues || td'.requeues == td.requeues + [e.unit];
    assert |td.requeues + [e.unit]| == |td.requeues| + 1;
    assert |td.freelist + [e.unit]| == |td.freelist| + 1;
  }

  /** The same where the engine completes a unit at once, except that the unit is requeued
      unless it has come to the very end of the file. */
  lemma QueueEventMoves(td: Td, u: nat, error: bool, resid: nat)
    requires u < |td.units| && FileInRange(td, u) && AnswerOk(td, u, Completed(error, resid))
    ensures var x, td' := td.units[u], QueueEvent(td, u, Completed(error, resid));
            var x' := td'.units[u];
            var short := !error && resid > 0;
            && End(x') == End(x) && x'.xfer == (if short then resid else x.xfer)
            && (td'.requeues == td.requeues + [u] <==> short && x'.offset != FileSize(td, u))
            && (td'.freelist == td.freelist + [u] <==> !(short && x'.offset != FileSize(td, u)))
  {
    assert |td.requeues + [u]| == |td.requeues| + 1;
    assert |td.freelist + [u]| == |td.freelist| + 1;
  }

  /** A unit set on a file has the whole of its range to transfer. */
  lemma FillRange(td: Td, u: nat, f: nat, rw: bool, offset: nat, len: nat)
    requires u < |td.units| && f < |td.files|
    ensures var x := Fill(td, u, f, rw, offset, len).units[u];
            && x.file == Some(f) && x.rw == rw && x.offset == offset
            && x.xfer == x.buflen == (if rw then len else td.units[u].buflen)
  {
  }

  // ---- A unit's transfers over a run ----

  /** A read, write or trim on its way, not on the free stack. */
  ghost predicate UnderWay(td: Td, u: nat) {
    u < |td.units| && u !in td.freelist && td.units[u].rw && td.units[u].file.Some?
  }

  /** Bytes of unit `x` that an answer reports transferred. */
  function Reported(x: IoU, error: bool, resid: nat): nat {
    if error || resid > x.xfer then 0 else x.xfer - resid
  }

  function ReportedIn(x: IoU, u: nat, events: seq<Event>): nat {
    if events == [] then 0
    else if events[0].unit == u then Reported(x, events[0].error, events[0].resid)
    else ReportedIn(x, u, events[1..])
  }

  /** Bytes of unit `u` that a step reports transferred. */
  ghost function MovedBy(td: Td, op: Op, u: nat): nat
    requires u < |td.units|
  {
    match op
    case ReapEvents(events) => ReportedIn(td.units[u], u, events)
    case SubmitUnit(v, Completed(error, resid)) =>
      if v == u && !(td.serialize && td.curDepth > 1 && Overlap(td, u)) then Reported(td.units[u], error, resid) else 0
    case _ => 0
  }

  /** Units on the free stack stay there while events are completed. */
  lemma {:induction false} CompleteAllFree(td: Td, events: seq<Event>, u: nat)
    requires Ready(td, events) && u in td.freelist
    ensures u in CompleteAll(td, events).freelist
    decreases |events|
  {
    if events != [] {
      ReadyRest(td, events);
      CompleteAllFree(Complete(td, events[0]), events[1..], u);
    }
  }

  lemma {:induction false} CompleteAllOthers(td: Td, events: seq<Event>, u: nat)
    requires Ready(td, events) && u < |td.units| && forall i :: 0 <= i < |events| ==> events[i].unit != u
    ensures CompleteAll(td, events).units[u] == td.units[u]
    decreases |events|
  {
    if events != [] {
      CompleteFrame(td, events[0]);
      ReadyRest(td, events);
      CompleteAllOthers(Complete(td, events[0]), events[1..], u);
    }
  }

  /** Where a unit goes on: the range is moved on by what was reported. */
  predicate MovedOn(x: IoU, x': IoU, bytes: nat) {
    x'.offset == x.offset + bytes && End(x') == End(x) && x'.file == x.file
  }

  lemma OneMoves(td: Td, e: Event)
    requires EventOk(td, e) && td.units[e.unit].rw && e.unit !in Complete(td, e).freelist
    ensures MovedOn(td.units[e.unit], Complete(td, e).units[e.unit], Reported(td.units[e.unit], e.error, e.resid))
  {
    CompleteMoves(td, e);
    assert e.unit in td.freelist + [e.unit];
  }

  /** Of several events the one for unit `u`, if any, decides. */
  lemma {:induction false} ReapMoves(td: Td, events: seq<Event>, u: nat)
    requires Ready(td, events) && u < |td.units| && td.units[u].rw && u !in CompleteAll(td, events).freelist
    ensures MovedOn(td.units[u], CompleteAll(td, events).units[u], ReportedIn(td.units[u], u, events))
    decreases |events|
  {
    if events != [] {
      var e, td1 := events[0], Complete(td, events[0]);
      ReadyRest(td, events);
      if e.unit == u {
        if u in td1.freelist {
          CompleteAllFree(td1, events[1..], u);
        }
        OneMoves(td, e);
        CompleteAllOthers(td1, events[1..], u);
      } else {
        CompleteFrame(td, e);
        ReapMoves(td1, events[1..], u);
      }
    }
  }

  /** Submission touches no other unit. */
  lemma SubmitFrame(td: Td, v: nat, a: Answer, u: nat)
    requires v < |td.units| && FileInRange(td, v) && AnswerOk(td, v, a) && u < |td.units| && u != v
    ensures |Submit(td, v, a).units| == |td.units| && Submit(td, v, a).units[u] == td.units[u]
  {
  }

  lemma SubmitMoves(td: Td, u: nat, a: Answer)
    requires UnderWay(td, u) && FileInRange(td, u) && AnswerOk(td, u, a) && u !in Submit(td, u, a).freelist
    ensures |Submit(td, u, a).units| == |td.units|
    ensures MovedOn(td.units[u], Submit(td, u, a).units[u], MovedBy(td, SubmitUnit(u, a), u))
  {
    if a.Completed? && !(td.serialize && td.curDepth > 1 && Overlap(td, u)) {
      var td1 := Queue(td, u, a);
      QueueEventMoves(td1, u, a.error, a.resid);
      assert u in td1.freelist + [u];
    }
  }

  lemma TakeMoves(td: Td, u: nat)
    requires PoolInv(td) && UnderWay(td, u)
    ensures |Get(td).0.units| == |td.units| && MovedOn(td.units[u], Get(td).0.units[u], 0)
  {
    if td.requeues == [] && !QueueFull(td) {
      assert td.freelist[|td.freelist| - 1] in td.freelist;
    }
  }

  lemma SyncMoves(td: Td, u: nat, f: nat, a: Answer)
    requires PoolInv(td) && PlacesOk(td) && UnderWay(td, u) && f < |td.files|
    requires a == Queued || a == Completed(false, 0)
    requires UnderWay(Sync(td, f, a), u)
    ensures MovedOn(td.units[u], Sync(td, f, a).units[u], 0)
  {
    TakeMoves(td, u);
    if Get(td).1.Some? {
      GotUnit(td);
    }
  }

  lemma PutMoves(td: Td, v: nat, u: nat)
    requires v < |td.units| && FileInRange(td, v) && UnderWay(td, u) && UnderWay(Put(td, v), u)
    ensures MovedOn(td.units[u], Put(td, v).units[u], 0)
  {
    assert v in Put(td, v).freelist;
  }

  /** A step leaves a unit under way where it was, moved on by what the step reports. */
  lemma StepMoves(td: Td, op: Op, u: nat, m: Refs)
    requires Inv(td, {}, m) && Enabled(td, op, m) && UnderWay(td, u) && UnderWay(Apply(td, op, m), u)
    ensures MovedOn(td.units[u], Apply(td, op, m).units[u], MovedBy(td, op, u))
  {
    match op
    case Take => TakeMoves(td, u);
    case FillUnit(v, f, rw, offset, len) =>
    case GiveUpFile(f) =>
    case Return(v) => PutMoves(td, v, u);
    case SubmitUnit(v, a) =>
      if v == u {
        SubmitMoves(td, u, a);
      } else {
        SubmitFrame(td, v, a, u);
      }
    case ReapEvents(events) => ReapMoves(Returned(td, events), events, u);
    case CommitQueued =>
    case Open(f) =>
    case Close(f) =>
    case SyncFile(f, a) => SyncMoves(td, u, f, a);
    case MoveLimit(qd) =>
  }

  /** Unit `u` is under way from beginning to end of the run. */
  ghost predicate Throughout(td: Td, ops: seq<Op>, td': Td, u: nat, m: Refs)
    requires Inv(td, {}, m) && Run(td, ops, td', m)
    decreases |ops|
  {
    UnderWay(td, u) &&
    (ops == [] || (ApplyInv(td, ops[0], m); Throughout(Apply(td, ops[0], m), ops[1..], td', u, m)))
  }

  /** The ranges reported transferred, one per step that reports any: each starts where the
      unit stood when it was submitted. */
  ghost function Pieces(td: Td, ops: seq<Op>, td': Td, u: nat, m: Refs): seq<(nat, nat)>
    requires Inv(td, {}, m) && Run(td, ops, td', m) && Throughout(td, ops, td', u, m)
    decreases |ops|
  {
    if ops == [] then []
    else
      ApplyInv(td, ops[0], m);
      var moved := MovedBy(td, ops[0], u);
      (if moved > 0 then [(td.units[u].offset, moved)] else []) + Pieces(Apply(td, ops[0], m), ops[1..], td', u, m)
  }

  /** The pieces follow each other without gap or overlap from `lo` to `hi`. */
  ghost predicate Tile(pieces: seq<(nat, nat)>, lo: nat, hi: nat) {
    if pieces == [] then lo == hi else pieces[0].0 == lo && Tile(pieces[1..], lo + pieces[0].1, hi)
  }

  /** While a unit is under way, over any run, the pieces transferred tile the part of its
      range before where it stands, and what is left is the rest of that range. */
  lemma {:induction false} TransfersTile(td: Td, ops: seq<Op>, td': Td, u: nat, m: Refs)
    requires Inv(td, {}, m) && Run(td, ops, td', m) && Throughout(td, ops, td', u, m)
    ensures u < |td'.units| && td'.units[u].file == td.units[u].file && End(td'.units[u]) == End(td.units[u])
    ensures Tile(Pieces(td, ops, td', u, m), td.units[u].offset, td'.units[u].offset)
    decreases |ops|
  {
    if ops != [] {
      var td1 := Apply(td, ops[0], m);
      ApplyInv(td, ops[0], m);
      StepMoves(td, ops[0], u, m);
      TransfersTile(td1, ops[1..], td', u, m);
      var rest := Pieces(td1, ops[1..], td', u, m);
      var moved := MovedBy(td, ops[0], u);
      assert ([(td.units[u].offset, moved)] + rest)[1..] == rest;
      assert [] + rest == rest;
    }
  }

  /** From the moment it is filled until a step reports the last byte, a unit's transfers tile
      exactly the range it was filled with. */
  lemma WholeRangeTransferred(td: Td, ops: seq<Op>, td': Td, u: nat, op: Op, m: Refs)
    requires Inv(td, {}, m) && Run(td, ops, td', m) && Throughout(td, ops, td', u, m)
    requires u < |td'.units| && MovedBy(td', op, u) == td'.units[u].xfer
    ensures Tile(Pieces(td, ops, td', u, m) + [(td'.units[u].offset, MovedBy(td', op, u))],
                 td.units[u].offset, td.units[u].offset + td.units[u].xfer)
  {
    TransfersTile(td, ops, td', u, m);
    TileAppend(Pieces(td, ops, td', u, m), td.units[u].offset, td'.units[u].offset, MovedBy(td', op, u));
  }

  lemma {:induction false} TileAppend(pieces: seq<(nat, nat)>, lo: nat, mid: nat, len: nat)
    requires Tile(pieces, lo, mid)
    ensures Tile(pieces + [(mid, len)], lo, mid + len)
    decreases |pieces|
  {
    if pieces == [] {
      assert [] + [(mid, len)] == [(mid, len)];
      assert [(mid, len)][1..] == [];
    } else {
      assert (pieces + [(mid, len)])[1..] == pieces[1..] + [(mid, len)];
      TileAppend(pieces[1..], lo + pieces[0].1, mid, len);
    }
  }

  // ---- Asking the engine ----

  /** With or without the shortcut on `cur_depth`, the engine is asked exactly unless overlaps
      are serialized and the unit meets one in flight. */
  lemma EngineAskedIff(td: Td, u: nat, m: Refs)
    requires Inv(td, {}, m) && MaySubmit(td, u) && FileInRange(td, u)
    ensures u in Submit(td, u, Queued).engine <==> !(td.serialize && Overlap(td, u))
  {
    if Overlap(td, u) && td.curDepth <= 1 {
      var v: nat :| v < |td.units| && td.units[v].flight && Meet(td.units[u], td.units[v]);
      AloneInDepth(td, {}, u, v);
    }
  }

  // ---- Batches ----

  /** A unit that fills the batch is committed with all that was queued; before that nothing is. */
  lemma FullBatchCommitted(td: Td, u: nat)
    requires PoolInv(td) && u < |td.units| && !td.units[u].free && td.queued + 1 < U32
    ensures var td' := Queue(td, u, Queued);
            if td.queued + 1 >= td.batch then td'.queued == 0 && td'.inFlight == (td.inFlight + td.queued + 1) % U32
            else td'.queued == td.queued + 1 && td'.inFlight == td.inFlight
  {
    HeldHasRoom(td, u);
  }

  /** A refused unit is put back, and whatever else was queued is committed, unless no unit is
      held any more. */
  lemma RefusalCommits(td: Td, u: nat)
    requires u < |td.units| && FileInRange(td, u) && AnswerOk(td, u, Busy)
    ensures var td' := QueueEvent(td, u, Busy);
            && td'.requeues == td.requeues + [u] && td'.freelist == td.freelist
            && td'.queued == (if td'.curDepth == 0 then td.queued else 0)
            && (td'.inFlight + td'.queued) % U32 == (td.inFlight + td.queued) % U32
  {
  }

  // ---- Taking a unit ----

  /** `__get_io_u` finds nothing exactly when nothing waits to be tried again and the stack is
      empty or `latency_qd` units are held. A unit tried again has its file and its range; a
      fresh one has neither. */
  lemma TakenUnit(td: Td)
    requires InRange(td)
    ensures var (td', got) := Get(td);
            && (got.None? <==> td.requeues == []
                               && (td.freelist == [] || (td.latencyQd.Some? && td.latencyQd.value <= td.curDepth)))
            && (got.Some? ==>
                  got.value < |td.units| == |td'.units| &&
                  var x, x' := td.units[got.value], td'.units[got.value];
                  && !x'.free && !x'.noPut && x'.inDepth
                  && if td.requeues == [] then x'.file.None? && x'.buflen == 0
                     else x' == x.(free := false, noPut := false, inDepth := true))
  {
    if td.requeues != [] {
      assert td.requeues[0] in td.requeues;
    } else if td.freelist != [] {
      assert td.freelist[|td.freelist| - 1] in td.freelist;
    }
  }

  // ---- The latency limit ----

  /** Units off the free stack. */
  function Out(td: Td): int {
    |td.units| - |td.freelist|
  }

  predicate Limited(td: Td, q: nat) {
    td.latencyQd.Some? && td.latencyQd.value <= q && Out(td) <= q
  }

  /** The pool and the limit are as before, and no unit has left the stack. */
  predicate NoneLeaves(td: Td, td': Td) {
    |td'.units| == |td.units| && |td'.freelist| >= |td.freelist| && td'.latencyQd == td.latencyQd
  }

  lemma PutStays(td: Td, u: nat)
    requires u < |td.units| && FileInRange(td, u)
    ensures NoneLeaves(td, Put(td, u)) && |Put(td, u).freelist| == |td.freelist| + 1
  {
  }

  lemma CompleteStays(td: Td, e: Event)
    requires EventOk(td, e)
    ensures NoneLeaves(td, Complete(td, e))
  {
  }

  lemma {:induction false} CompleteAllStays(td: Td, events: seq<Event>)
    requires Ready(td, events)
    ensures NoneLeaves(td, CompleteAll(td, events))
    decreases |events|
  {
    if events != [] {
      CompleteStays(td, events[0]);
      ReadyRest(td, events);
      CompleteAllStays(Complete(td, events[0]), events[1..]);
    }
  }

  lemma QueueStays(td: Td, u: nat, a: Answer)
    requires u < |td.units|
    ensures NoneLeaves(td, Queue(td, u, a)) && Queue(td, u, a).files == td.files
    ensures var x, x' := td.units[u], Queue(td, u, a).units[u];
            x'.file == x.file && x'.rw == x.rw && x'.xfer == x.xfer
  {
  }

  lemma QueueEventStays(td: Td, u: nat, a: Answer)
    requires u < |td.units| && FileInRange(td, u) && AnswerOk(td, u, a)
    ensures NoneLeaves(td, QueueEvent(td, u, a))
  {
  }

  lemma SubmitStays(td: Td, u: nat, a: Answer)
    requires u < |td.units| && FileInRange(td, u) && AnswerOk(td, u, a)
    ensures NoneLeaves(td, Submit(td, u, a))
  {
    QueueStays(td, u, a);
    QueueEventStays(td, u, Busy);
    QueueEventStays(Queue(td, u, a), u, a);
  }

  /** A unit leaves the stack only while fewer than `latency_qd` are off it. */
  lemma TakeLimited(td: Td, q: nat)
    requires PoolInv(td) && Limited(td, q)
    ensures Limited(Get(td).0, q)
  {
    PoolAddsUp(td);
  }

  lemma SyncLimited(td: Td, f: nat, a: Answer, q: nat)
    requires PoolInv(td) && PlacesOk(td) && f < |td.files| && SyncAnswer(a) && Limited(td, q)
    ensures Limited(Sync(td, f, a), q)
  {
    TakeLimited(td, q);
    if Get(td).1.Some? {
      GotUnit(td);
      QueueStays(Borrowed(td, f), Get(td).1.value, a);
    }
  }

  lemma StepLimited(td: Td, op: Op, q: nat, m: Refs)
    requires Inv(td, {}, m) && Enabled(td, op, m) && Limited(td, q) && (op.MoveLimit? ==> op.qd <= q)
    ensures Limited(Apply(td, op, m), q)
  {
    match op
    case Take => TakeLimited(td, q);
    case FillUnit(v, f, rw, offset, len) =>
    case GiveUpFile(f) =>
    case Return(v) => PutStays(td, v);
    case SubmitUnit(v, a) => SubmitStays(td, v, a);
    case ReapEvents(events) => CompleteAllStays(Returned(td, events), events);
    case CommitQueued =>
    case Open(f) =>
    case Close(f) =>
    case SyncFile(f, a) => SyncLimited(td, f, a, q);
    case MoveLimit(qd) =>
  }

  lemma {:induction false} RunLimited(td: Td, ops: seq<Op>, td': Td, q: nat, m: Refs)
    requires Inv(td, {}, m) && Run(td, ops, td', m) && Limited(td, q)
    requires forall i :: 0 <= i < |ops| && ops[i].MoveLimit? ==> ops[i].qd <= q
    ensures Limited(td', q)
    decreases |ops|
  {
    if ops != [] {
      StepLimited(td, ops[0], q, m);
      ApplyInv(td, ops[0], m);
      RunLimited(Apply(td, ops[0], m), ops[1..], td', q, m);
    }
  }

  /** A run that starts with at most `q` units off the stack and never moves `latency_qd` above `q`
      never has more than `q` units held or waiting to be tried again, nor more than `q` with
      the engine. */
  lemma DepthStaysBelowLimit(td: Td, ops: seq<Op>, td': Td, q: nat, m: Refs)
    requires Inv(td, {}, m) && Run(td, ops, td', m) && Limited(td, q)
    requires forall i :: 0 <= i < |ops| && ops[i].MoveLimit? ==> ops[i].qd <= q
    ensures td'.curDepth + |td'.requeues| <= q && |td'.engine| <= q
  {
    RunLimited(td, ops, td', q, m);
    RunInv(td, ops, td', m);
    PoolAddsUp(td');
    SubsetSize(td'.engine, Held(td'.units));
  }
}
