/** File references: who holds them and when a file is really closed. */
module UnitFiles {
  import opened Options
  import opened IoUnits
  import opened UnitPool

  predicate Uses(x: IoU, f: nat) {
    x.file == Some(f) && !x.noPut
  }

  function Users(units: seq<IoU>, f: nat): set<nat> {
    set u: nat | u < |units| && Uses(units[u], f)
  }

  function OpenFiles(files: seq<FioFile>): set<nat> {
    set f: nat | f < |files| && files[f].open
  }

  /** How much a run lets one say of a file's references. They are `Exact` as long as no
      sync takes a requeued unit and no closing or closed file is closed again. Such syncs
      leave references that nobody drops, so that the count is `AtLeast` what it should be;
      such closes drop references that somebody holds, and leave the count `Loose`. */
  datatype Refs = Exact | AtLeast | Loose

  /** One reference per unit on the file, and one for being open and not closing. */
  ghost function Due(units: seq<IoU>, file: FioFile, f: nat): nat {
    |Users(units, f)| + (if file.open && !file.closing then 1 else 0)
  }

  /** A file is really open exactly while it has references. */
  ghost predicate FileOk(units: seq<IoU>, file: FioFile, f: nat, m: Refs) {
    && file.refs >= 0 && (file.open <==> file.refs > 0)
    && (!m.Loose? ==> file.refs >= Due(units, file, f) && (file.closing ==> file.open))
    && (m.Exact? ==> file.refs == Due(units, file, f))
  }

  ghost predicate FilesOk(units: seq<IoU>, files: seq<FioFile>, nrOpen: int, m: Refs) {
    nrOpen == |OpenFiles(files)| && forall f: nat :: f < |files| ==> FileOk(units, files[f], f, m)
  }

  /** Free units have no file; requeued ones keep theirs and its reference. */
  ghost predicate PlacesOk(td: Td) {
    && (forall u: nat :: u < |td.units| ==> td.units[u].file.Some? ==> td.units[u].file.value < |td.files|)
    && (forall u: nat :: u < |td.units| && u in td.freelist ==> td.units[u].file.None?)
    && (forall u: nat :: u < |td.units| && u in td.requeues ==> !td.units[u].noPut && td.units[u].file.Some?)
  }

  ghost predicate FileInv(td: Td, m: Refs) {
    FilesOk(td.units, td.files, td.nrOpen, m) && PlacesOk(td)
  }

  lemma UsersUpdate(units: seq<IoU>, u: nat, x: IoU, f: nat)
    requires u < |units|
    ensures |Users(units[u := x], f)|
            == |Users(units, f)| + (if Uses(x, f) then 1 else 0) - (if Uses(units[u], f) then 1 else 0)
  {
    var s, s' := Users(units, f), Users(units[u := x], f);
    forall v: nat
      ensures v in s' <==> if v == u then Uses(x, f) else v in s
    {
    }
    if Uses(x, f) {
      assert s' == s + {u};
    } else {
      assert s' == s - {u};
    }
  }

  lemma OpenUpdate(files: seq<FioFile>, f: nat, x: FioFile)
    requires f < |files|
    ensures |OpenFiles(files[f := x])|
            == |OpenFiles(files)| + (if x.open then 1 else 0) - (if files[f].open then 1 else 0)
  {
    var s, s' := OpenFiles(files), OpenFiles(files[f := x]);
    forall v: nat
      ensures v in s' <==> if v == f then x.open else v in s
    {
    }
    if x.open {
      assert s' == s + {f};
    } else {
      assert s' == s - {f};
    }
  }

  /** A change to unit `u` and file `f` that balances for `f`, where `u` uses no other file. */
  lemma Balanced(units: seq<IoU>, files: seq<FioFile>, nrOpen: int, u: nat, x: IoU, f: nat, file: FioFile, m: Refs)
    requires FilesOk(units, files, nrOpen, m) && u < |units| && f < |files|
    requires forall g: nat :: g != f ==> Uses(x, g) == Uses(units[u], g)
    requires FileOk(units[u := x], file, f, m)
    ensures FilesOk(units[u := x], files[f := file],
                    nrOpen + (if file.open then 1 else 0) - (if files[f].open then 1 else 0), m)
  {
    OpenUpdate(files, f, file);
    forall g: nat | g < |files| && g != f
      ensures FileOk(units[u := x], files[g], g, m)
    {
      UsersUpdate(units, u, x, g);
    }
  }

  /** A change to a unit that leaves its file alone, or that drops it with the reference still
      counted. */
  lemma FileUnchanged(units: seq<IoU>, files: seq<FioFile>, nrOpen: int, u: nat, x: IoU, m: Refs)
    requires FilesOk(units, files, nrOpen, m) && u < |units|
    requires forall g: nat :: Uses(x, g) == Uses(units[u], g) || (!m.Exact? && !Uses(x, g))
    ensures FilesOk(units[u := x], files, nrOpen, m)
  {
    forall g: nat | g < |files|
      ensures FileOk(units[u := x], files[g], g, m)
    {
      UsersUpdate(units, u, x, g);
    }
  }

  lemma PutFiles(td: Td, u: nat, m: Refs)
    requires FileInv(td, m) && u < |td.units| && u !in td.requeues && u !in td.freelist
    ensures FileInv(Put(td, u), m)
  {
    assert FileInRange(td, u);
    var x, td' := td.units[u], Put(td, u);
    var x' := x.(file := None, free := true);
    if x.file.Some? && !x.noPut {
      var f := x.file.value;
      assert FileOk(td.units, td.files[f], f, m) && u in Users(td.units, f);
      UsersUpdate(td.units, u, x', f);
      Balanced(td.units, td.files, td.nrOpen, u, x', f, td'.files[f], m);
    } else {
      FileUnchanged(td.units, td.files, td.nrOpen, u, x', m);
    }
    PutPlaces(td, u);
  }

  lemma PutPlaces(td: Td, u: nat)
    requires PlacesOk(td) && u < |td.units| && u !in td.requeues && FileInRange(td, u)
    ensures PlacesOk(Put(td, u))
  {
  }

  lemma UpdateFiles(td: Td, u: nat, x: IoU, m: Refs)
    requires FileInv(td, m) && u < |td.units| && x.file == td.units[u].file && x.noPut == td.units[u].noPut
    ensures FileInv(With(td, u, x), m)
  {
    FileUnchanged(td.units, td.files, td.nrOpen, u, x, m);
  }

  lemma RequeueFiles(td: Td, u: nat, m: Refs)
    requires FileInv(td, m) && u < |td.units| && u !in td.freelist && !td.units[u].noPut && td.units[u].file.Some?
    ensures FileInv(Requeue(td, u), m)
  {
    UpdateFiles(td, u, td.units[u].(free := true, flight := false), m);
  }

  lemma GetFiles(td: Td, m: Refs)
    requires FileInv(td, m) && PoolInv(td)
    ensures FileInv(Get(td).0, m)
  {
    if td.requeues != [] {
      var u := td.requeues[0];
      assert u in td.requeues;
      FileUnchanged(td.units, td.files, td.nrOpen, u, td.units[u].(free := false, noPut := false, inDepth := true), m);
      DropFirst(td.requeues);
    } else if !QueueFull(td) {
      var u := td.freelist[|td.freelist| - 1];
      assert u in td.freelist;
      FileUnchanged(td.units, td.files, td.nrOpen, u,
                    td.units[u].(free := false, noPut := false, inDepth := true, file := None, buflen := 0), m);
      DropLast(td.freelist);
    }
  }

  lemma FillFiles(td: Td, u: nat, f: nat, rw: bool, offset: nat, len: nat, m: Refs)
    requires FileInv(td, m) && u < |td.units| && f < |td.files| && td.files[f].open
    requires td.units[u].file.None? && !td.units[u].noPut && u !in td.freelist
    ensures FileInv(Fill(td, u, f, rw, offset, len), m)
  {
    var td' := Fill(td, u, f, rw, offset, len);
    var x := td'.units[u];
    assert FileOk(td.units, td.files[f], f, m);
    UsersUpdate(td.units, u, x, f);
    Balanced(td.units, td.files, td.nrOpen, u, x, f, td'.files[f], m);
    assert td.units[u := x] == td'.units;
  }

  lemma SetSyncFiles(td: Td, u: nat, f: nat, m: Refs)
    requires FileInv(td, m) && u < |td.units| && f < |td.files|
    requires u !in td.freelist && u !in td.requeues && (m.Exact? ==> td.units[u].file.None?)
    ensures FileInv(SetSync(td, u, f), m)
  {
    FileUnchanged(td.units, td.files, td.nrOpen, u, td.units[u].(file := Some(f), rw := false, noPut := true), m);
  }

  /** A change to a file that leaves the units alone. */
  lemma FileChanged(td: Td, f: nat, file: FioFile, nrOpen: int, m: Refs)
    requires FileInv(td, m) && f < |td.files| && FileOk(td.units, file, f, m)
    requires nrOpen == td.nrOpen + (if file.open then 1 else 0) - (if td.files[f].open then 1 else 0)
    ensures FileInv(td.(files := td.files[f := file], nrOpen := nrOpen), m)
  {
    OpenUpdate(td.files, f, file);
  }

  lemma OpenKeeps(td: Td, f: nat, m: Refs)
    requires FileInv(td, m) && f < |td.files| && (td.files[f].open <==> td.files[f].closing)
    ensures FileInv(OpenFile(td, f), m)
  {
    var td' := OpenFile(td, f);
    assert FileOk(td.units, td.files[f], f, m);
    FileChanged(td, f, td'.files[f], td'.nrOpen, m);
  }

  lemma CloseKeeps(td: Td, f: nat, m: Refs)
    requires FileInv(td, m) && f < |td.files| && (m.Loose? || (td.files[f].open && !td.files[f].closing))
    ensures FileInv(CloseFile(td, f), m)
  {
    var td' := CloseFile(td, f);
    assert FileOk(td.units, td.files[f], f, m);
    FileChanged(td, f, td'.files[f], td'.nrOpen, m);
    assert td'.files == td.files[f := td'.files[f]];
  }

  /** Closing keeps the reference counts right exactly when the file is open and not
      already closing. */
  lemma CloseKeepsIff(td: Td, f: nat)
    requires FileInv(td, Exact) && f < |td.files|
    ensures FileInv(CloseFile(td, f), Exact) <==> td.files[f].open && !td.files[f].closing
  {
    var td' := CloseFile(td, f);
    assert FileOk(td.units, td.files[f], f, Exact);
    if td.files[f].open && !td.files[f].closing {
      CloseKeeps(td, f, Exact);
    } else {
      assert !FileOk(td'.units, td'.files[f], f, Exact);
    }
  }

  /** `close_files` from file `f` on. */
  function CloseFrom(td: Td, f: nat): Td
    requires f <= |td.files|
    decreases |td.files| - f
  {
    if f == |td.files| then td
    else CloseFrom(if td.files[f].open then CloseFile(td, f) else td, f + 1)
  }

  lemma {:induction false} CloseFromFile(td: Td, f: nat, g: nat)
    requires f <= |td.files| && g < |td.files|
    ensures var td' := CloseFrom(td, f);
            && td'.units == td.units && |td'.files| == |td.files|
            && td'.files[g] == if g >= f && td.files[g].open then CloseFile(td, g).files[g] else td.files[g]
    decreases |td.files| - f
  {
    if f < |td.files| {
      CloseFromFile(if td.files[f].open then CloseFile(td, f) else td, f + 1, g);
    }
  }

  lemma {:induction false} CloseFromKeeps(td: Td, f: nat)
    requires FileInv(td, Exact) && f <= |td.files| && forall g: nat :: g < |td.files| && g >= f ==> !td.files[g].closing
    ensures FileInv(CloseFrom(td, f), Exact)
    decreases |td.files| - f
  {
    if f < |td.files| {
      CloseKeepsIff(td, f);
      CloseFromKeeps(if td.files[f].open then CloseFile(td, f) else td, f + 1);
    }
  }

  /** `close_files` keeps the reference counts right exactly when no file is closing already. */
  lemma CloseAllKeepsIff(td: Td)
    requires FileInv(td, Exact)
    ensures FileInv(CloseFrom(td, 0), Exact) <==> forall f: nat :: f < |td.files| ==> !td.files[f].closing
  {
    if f: nat :| f < |td.files| && td.files[f].closing {
      CloseFromFile(td, 0, f);
      assert FileOk(td.units, td.files[f], f, Exact);
      assert !FileOk(CloseFrom(td, 0).units, CloseFrom(td, 0).files[f], f, Exact);
    } else {
      CloseFromKeeps(td, 0);
    }
  }

  /** Then afterwards just the files some unit still uses are open, and those are closing. */
  lemma ClosedButForUsers(td: Td, f: nat)
    requires FileInv(td, Exact) && f < |td.files| && forall g: nat :: g < |td.files| ==> !td.files[g].closing
    ensures var file := (CloseFromFile(td, 0, f); CloseFrom(td, 0).files[f]);
            file.closing == file.open && (file.open <==> Users(td.units, f) != {})
  {
    CloseFromFile(td, 0, f);
    assert FileOk(td.units, td.files[f], f, Exact);
  }

  lemma GiveUpFiles(td: Td, f: nat, m: Refs)
    requires FileInv(td, m) && f < |td.files| && td.files[f].open && !td.files[f].closing
    ensures FileInv(GiveUp(td, f), m)
    ensures GiveUp(td, f).files[f].done && GiveUp(td, f).files[f].closing == GiveUp(td, f).files[f].open
  {
    var td' := GiveUp(td, f);
    assert FileOk(td.units, td.files[f], f, m);
    FileChanged(td, f, td'.files[f], td'.nrOpen, m);
    assert td'.files == td.files[f := td'.files[f]];
  }

  /** A file with no unit on it is not stuck in the closing state. */
  lemma NoneLeftClosing(td: Td, f: nat)
    requires FileInv(td, Exact) && f < |td.files| && forall u: nat :: u < |td.units| ==> !Uses(td.units[u], f)
    ensures !td.files[f].closing && (td.files[f].open ==> td.files[f].refs == 1)
  {
    assert FileOk(td.units, td.files[f], f, Exact);
    assert Users(td.units, f) == {};
  }

  /** A unit that holds a reference has its file open. */
  lemma UserHasOpenFile(td: Td, u: nat, m: Refs)
    requires FileInv(td, m) && !m.Loose? && u < |td.units| && td.units[u].file.Some? && !td.units[u].noPut
    ensures FileInRange(td, u) && td.files[td.units[u].file.value].open
  {
    var f := td.units[u].file.value;
    assert FileInRange(td, u);
    assert FileOk(td.units, td.files[f], f, m) && u in Users(td.units, f);
  }
}
