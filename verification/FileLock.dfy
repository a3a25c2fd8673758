/** fio's file locks: a table of reference-counted entries under one main lock, each entry
    with a semaphore of its own that is taken outside the main lock. A client is one
    `lock`/`trylock` call together with the `unlock` that ends it; a step is what a client
    does between two points at which others can run. */
module FileLock {
  import opened Options

  type Client = nat
  type Entry = nat
  type Hash = nat

  datatype Pc =
    | Idle
    | Want(h: Hash, try: bool)                          // about to take the main lock
    | Looking(h: Hash, try: bool)                       // looks the hash up
    | Allocating(h: Hash, try: bool, retry: bool)       // not there: takes a free entry
    | Napping(h: Hash)                                  // none free: main lock dropped
    | Got(h: Hash, try: bool, retry: bool, e: Entry)    // has one, not yet installed
    | Found(h: Hash, e: Entry, try: bool)               // about to count its reference
    | Waiting(h: Hash, e: Entry)                        // blocks on the entry's semaphore
    | Trying(h: Hash, e: Entry)                         // tries it once
    | Failed(h: Hash, e: Entry)                         // tried in vain; wants the main lock
    | Rechecking(h: Hash, e: Entry)                     // looks whether it is alone
    | Holding(h: Hash, e: Entry)
    | Unlocking(h: Hash, e: Entry)                      // has the main lock again

  datatype Table = Table(
    main: Option<Client>,
    active: seq<Entry>,
    free: seq<Entry>,
    hash: seq<Hash>,
    refs: seq<int>,
    value: seq<nat>,
    pc: seq<Pc>)

  predicate Wf(s: Table) {
    && |s.hash| == |s.refs| == |s.value|
    && (s.main.Some? ==> s.main.value < |s.pc|)
    && (forall i :: 0 <= i < |s.active| ==> s.active[i] < |s.hash|)
    && (forall i :: 0 <= i < |s.free| ==> s.free[i] < |s.hash|)
    && (forall t :: 0 <= t < |s.pc| ==> EntryInRange(s.pc[t], |s.hash|))
  }

  predicate EntryInRange(p: Pc, n: nat) {
    !p.Idle? && !p.Want? && !p.Looking? && !p.Allocating? && !p.Napping? ==> p.e < n
  }

  /** `fio_hash_find`: the first active entry with hash `h`. */
  function Find(active: seq<Entry>, hash: seq<Hash>, h: Hash): (r: Option<Entry>)
    requires forall i :: 0 <= i < |active| ==> active[i] < |hash|
    ensures r.Some? ==> r.value in active && r.value < |hash| && hash[r.value] == h
    ensures r.None? ==> forall i :: 0 <= i < |active| ==> hash[active[i]] != h
  {
    if active == [] then None
    else if hash[active[0]] == h then Some(active[0])
    else Find(active[1..], hash, h)
  }

  /** `flist_del` of the one occurrence of `e`. */
  function Without(xs: seq<Entry>, e: Entry): seq<Entry> {
    if xs == [] then [] else if xs[0] == e then xs[1..] else [xs[0]] + Without(xs[1..], e)
  }

  ghost predicate NoDup(xs: seq<Entry>) {
    forall i, j :: 0 <= i < j < |xs| ==> xs[i] != xs[j]
  }

  /** A client can move: the lock it wants is free or its semaphore is up. */
  predicate CanGo(s: Table, t: Client)
    requires Wf(s)
  {
    t < |s.pc| &&
    match s.pc[t]
    case Idle => false
    case Want(_, _) => s.main.None?
    case Napping(_) => s.main.None?
    case Failed(_, _) => s.main.None?
    case Holding(_, _) => s.main.None?
    case Waiting(_, e) => s.value[e] > 0
    case _ => true
  }

  function At(s: Table, t: Client, p: Pc): Table
    requires t < |s.pc|
  {
    s.(pc := s.pc[t := p])
  }

  function Enter(s: Table, t: Client, p: Pc): Table
    requires t < |s.pc|
  {
    At(s, t, p).(main := Some(t))
  }

  function Exit(s: Table, t: Client, p: Pc): Table
    requires t < |s.pc|
  {
    At(s, t, p).(main := None)
  }

  function TookFree(s: Table, t: Client, h: Hash, try: bool, retry: bool): Table
    requires t < |s.pc| && s.free != []
  {
    At(s.(free := s.free[1..]), t, Got(h, try, retry, s.free[0]))
  }

  function ReturnedFree(s: Table, t: Client, h: Hash, e: Entry, there: Entry, try: bool): Table
    requires t < |s.pc|
  {
    At(s.(free := [e] + s.free), t, Found(h, there, try))
  }

  function Installed(s: Table, t: Client, h: Hash, e: Entry, try: bool): Table
    requires t < |s.pc| && e < |s.hash| == |s.refs|
  {
    At(s.(hash := s.hash[e := h], refs := s.refs[e := 0], active := [e] + s.active), t, Found(h, e, try))
  }

  function Counted(s: Table, t: Client, e: Entry, next: Pc): Table
    requires t < |s.pc| && e < |s.refs|
  {
    Exit(s.(refs := s.refs[e := s.refs[e] + 1]), t, next)
  }

  function Taken(s: Table, t: Client, h: Hash, e: Entry): Table
    requires t < |s.pc| && e < |s.value| && s.value[e] > 0
  {
    At(s.(value := s.value[e := s.value[e] - 1]), t, Holding(h, e))
  }

  function GaveBack(s: Table, t: Client, e: Entry): Table
    requires t < |s.pc| && e < |s.refs|
  {
    Exit(s.(refs := s.refs[e := s.refs[e] - 1]), t, Idle)
  }

  /** One step of client `t`. */
  function Go(s: Table, t: Client): Table
    requires Wf(s) && CanGo(s, t)
  {
    match s.pc[t]
    case Want(h, try) => Enter(s, t, Looking(h, try))
    case Looking(h, try) =>
      (match Find(s.active, s.hash, h)
       case Some(e) => At(s, t, Found(h, e, try))
       case None => At(s, t, Allocating(h, try, false)))
    case Allocating(h, try, retry) =>
      if s.free != [] then TookFree(s, t, h, try, retry)
      else Exit(s, t, if try then Idle else Napping(h))
    case Napping(h) => Enter(s, t, Allocating(h, false, true))
    case Got(h, try, retry, e) =>
      var there := Find(s.active, s.hash, h);
      if retry && there.Some? then ReturnedFree(s, t, h, e, there.value, try)
      else Installed(s, t, h, e, try)
    case Found(h, e, try) =>
      Counted(s, t, e, if try then Trying(h, e) else Waiting(h, e))
    case Waiting(h, e) => Taken(s, t, h, e)
    case Trying(h, e) =>
      if s.value[e] > 0 then Taken(s, t, h, e) else At(s, t, Failed(h, e))
    case Failed(h, e) => Enter(s, t, Rechecking(h, e))
    case Rechecking(h, e) =>
      if s.refs[e] != 1 then GaveBack(s, t, e)
      else Exit(s, t, Waiting(h, e))
    case Holding(h, e) => Enter(s, t, Unlocking(h, e))
    case Unlocking(h, _) =>
      (match Find(s.active, s.hash, h)
       case Some(e) => Unlock(s, t, e)
       case None => Exit(s, t, Idle))
  }

  /** The critical section of `fio_unlock_file` on the entry it found. */
  function Unlock(s: Table, t: Client, e: Entry): Table
    requires Wf(s) && t < |s.pc| && e < |s.hash|
  {
    var u := s.(refs := s.refs[e := s.refs[e] - 1], value := s.value[e := s.value[e] + 1]);
    var v := if u.refs[e] == 0 then u.(active := Without(u.active, e), free := [e] + u.free) else u;
    Exit(v, t, Idle)
  }

  predicate Critical(p: Pc) {
    p.Looking? || p.Allocating? || p.Got? || p.Found? || p.Rechecking? || p.Unlocking?
  }

  /** The client's reference on `e` has been counted and not yet given back. */
  predicate Refers(p: Pc, e: Entry) {
    (p.Waiting? || p.Trying? || p.Failed? || p.Rechecking? || p.Holding? || p.Unlocking?) && p.e == e
  }

  /** The client has its lock: it may not have given it back yet. */
  predicate HasLock(p: Pc) {
    p.Holding? || p.Unlocking?
  }

  predicate Holds(p: Pc, e: Entry) {
    HasLock(p) && p.e == e
  }

  ghost function Referrers(pc: seq<Pc>, e: Entry): set<Client> {
    set t | 0 <= t < |pc| && Refers(pc[t], e)
  }

  ghost function Holders(pc: seq<Pc>, e: Entry): set<Client> {
    set t | 0 <= t < |pc| && Holds(pc[t], e)
  }

  /** The main lock's holder is about to count a reference on `e`. */
  predicate Arriving(s: Table, e: Entry) {
    s.main.Some? && s.main.value < |s.pc| && s.pc[s.main.value].Found? && s.pc[s.main.value].e == e
  }

  /** The main lock's holder has taken `e` off the free list and not yet installed it. */
  predicate InTransit(s: Table, e: Entry) {
    s.main.Some? && s.main.value < |s.pc| && s.pc[s.main.value].Got? && s.pc[s.main.value].e == e
  }

  ghost predicate ListsOk(s: Table) {
    && NoDup(s.active) && NoDup(s.free)
    && forall e, e' ::
         e in s.active && e' in s.active && e < |s.hash| && e' < |s.hash| && s.hash[e] == s.hash[e'] ==> e == e'
  }

  ghost predicate EntryOk(s: Table, e: Entry)
    requires e < |s.value| && e < |s.refs|
  {
    && s.value[e] + |Holders(s.pc, e)| == 1
    && (e in s.active ==> s.refs[e] == |Referrers(s.pc, e)|)
    && (e in s.active ==> Referrers(s.pc, e) != {} || Arriving(s, e))
    && (e !in s.active ==> Referrers(s.pc, e) == {} && s.refs[e] == 0)
    && (e in s.active || e in s.free || InTransit(s, e))
    && !(e in s.active && e in s.free)
  }

  ghost predicate ClientOk(s: Table, t: Client)
    requires Wf(s) && t < |s.pc|
  {
    var p := s.pc[t];
    && (Critical(p) <==> s.main == Some(t))
    && (p.Waiting? || p.Trying? || p.Failed? || p.Rechecking? || p.Holding? || p.Unlocking? || p.Found? ==>
          p.e in s.active && s.hash[p.e] == p.h)
    && (p.Got? ==> p.e !in s.active && p.e !in s.free)
    && ((p.Allocating? || p.Got?) && !p.retry ==> Find(s.active, s.hash, p.h).None?)
  }

  ghost predicate Inv(s: Table) {
    && Wf(s) && ListsOk(s)
    && (forall e :: 0 <= e < |s.hash| ==> EntryOk(s, e))
    && (forall t :: 0 <= t < |s.pc| ==> ClientOk(s, t))
  }

  lemma {:induction false} WithoutRemoves(xs: seq<Entry>, e: Entry)
    requires NoDup(xs)
    ensures NoDup(Without(xs, e))
    ensures forall x :: x in Without(xs, e) <==> x in xs && x != e
  {
    if xs != [] {
      var rest := xs[1..];
      assert xs == [xs[0]] + rest;
      assert xs[0] !in rest;
      if xs[0] != e {
        WithoutRemoves(rest, e);
        var r := Without(rest, e);
        forall i, j | 0 <= i < j < |[xs[0]] + r| ensures ([xs[0]] + r)[i] != ([xs[0]] + r)[j] {
          assert r[j - 1] in r;
        }
      }
    }
  }

  lemma NoDupCons(e: Entry, xs: seq<Entry>)
    requires NoDup(xs) && e !in xs
    ensures NoDup([e] + xs)
    ensures forall x :: x in [e] + xs <==> x == e || x in xs
  {
  }

  /** What one client's move does to the two sets of an entry. */
  lemma SetsAfterMove(pc: seq<Pc>, t: Client, p: Pc, e: Entry)
    requires t < |pc|
    ensures Referrers(pc[t := p], e) == if Refers(p, e) then Referrers(pc, e) + {t} else Referrers(pc, e) - {t}
    ensures Holders(pc[t := p], e) == if Holds(p, e) then Holders(pc, e) + {t} else Holders(pc, e) - {t}
    ensures t in Referrers(pc, e) <==> Refers(pc[t], e)
    ensures t in Holders(pc, e) <==> Holds(pc[t], e)
  {
  }

  lemma MoreReferrers(pc: seq<Pc>, t: Client, p: Pc, e: Entry)
    requires t < |pc| && !Refers(pc[t], e) && Refers(p, e) && !Holds(p, e)
    ensures |Referrers(pc[t := p], e)| == |Referrers(pc, e)| + 1
    ensures Referrers(pc[t := p], e) != {}
    ensures Holders(pc[t := p], e) == Holders(pc, e)
  {
    SetsAfterMove(pc, t, p, e);
  }

  lemma FewerReferrers(pc: seq<Pc>, t: Client, p: Pc, e: Entry)
    requires t < |pc| && Refers(pc[t], e) && !Refers(p, e) && !Holds(pc[t], e)
    ensures |Referrers(pc[t := p], e)| == |Referrers(pc, e)| - 1
    ensures Holders(pc[t := p], e) == Holders(pc, e)
  {
    SetsAfterMove(pc, t, p, e);
  }

  /** The main lock changes hands only by `t` taking or releasing it. */
  predicate MainMoves(s: Table, s': Table, t: Client) {
    s'.main == s.main || (s.main.None? && s'.main == Some(t)) || (s.main == Some(t) && s'.main.None?)
  }

  /** Other clients are untouched by a step that leaves the hashes and the active list, and
      every entry in transit, as they were. */
  lemma OthersOk(s: Table, s': Table, t: Client, u: Client)
    requires Inv(s) && Wf(s') && t < |s.pc| && u < |s.pc| && u != t
    requires MainMoves(s, s', t) && |s'.pc| == |s.pc| && s'.pc[u] == s.pc[u]
    requires s'.hash == s.hash && s'.active == s.active
    requires s'.free == s.free || (s.main == Some(t))
    ensures ClientOk(s', u)
  {
    assert ClientOk(s, u);
  }

  /** A move that changes no list, no counter and neither of any entry's sets. */
  ghost predicate Quiet(s: Table, s': Table, t: Client) {
    && t < |s.pc| == |s'.pc|
    && s' == s.(main := s'.main, pc := s.pc[t := s'.pc[t]]) && MainMoves(s, s', t)
    && (forall e :: Refers(s'.pc[t], e) == Refers(s.pc[t], e) && Holds(s'.pc[t], e) == Holds(s.pc[t], e))
    && !s.pc[t].Found? && !s.pc[t].Got? && !s'.pc[t].Got?
  }

  lemma SetsKept(pc: seq<Pc>, pc': seq<Pc>, t: Client, e: Entry)
    requires t < |pc| == |pc'| && pc' == pc[t := pc'[t]]
    requires Refers(pc'[t], e) == Refers(pc[t], e) && Holds(pc'[t], e) == Holds(pc[t], e)
    ensures Referrers(pc', e) == Referrers(pc, e) && Holders(pc', e) == Holders(pc, e)
  {
    forall u | 0 <= u < |pc| ensures Refers(pc'[u], e) == Refers(pc[u], e) && Holds(pc'[u], e) == Holds(pc[u], e) {
    }
  }

  /** An entry that keeps its counters, its place and its two sets stays in order. */
  lemma EntryFrame(s: Table, s': Table, t: Client, e: Entry)
    requires t < |s.pc| == |s'.pc| && e < |s.value| == |s'.value| && e < |s.refs| == |s'.refs| && EntryOk(s, e)
    requires s'.pc == s.pc[t := s'.pc[t]]
    requires Refers(s'.pc[t], e) == Refers(s.pc[t], e) && Holds(s'.pc[t], e) == Holds(s.pc[t], e)
    requires s'.value[e] == s.value[e] && s'.refs[e] == s.refs[e]
    requires (e in s'.active <==> e in s.active) && (e in s'.free <==> e in s.free)
    requires (Arriving(s, e) ==> Arriving(s', e)) && (InTransit(s, e) ==> InTransit(s', e))
    ensures EntryOk(s', e)
  {
    SetsKept(s.pc, s'.pc, t, e);
  }

  lemma QuietMove(s: Table, s': Table, t: Client)
    requires Inv(s) && Wf(s') && Quiet(s, s', t) && ClientOk(s', t)
    ensures Inv(s')
  {
    forall e | 0 <= e < |s'.hash| ensures EntryOk(s', e) {
      assert EntryOk(s, e);
      EntryFrame(s, s', t, e);
    }
    forall u | 0 <= u < |s'.pc| ensures ClientOk(s', u) {
      if u != t {
        OthersOk(s, s', t, u);
      }
    }
  }

  /** Steps that only move the client or the main lock. */
  lemma QuietStepsKeepInv(s: Table, t: Client)
    requires Inv(s) && CanGo(s, t)
    requires var p := s.pc[t];
             p.Want? || p.Looking? || p.Napping? || p.Failed? || p.Holding?
             || (p.Allocating? && s.free == []) || (p.Trying? && s.value[p.e] == 0)
             || (p.Rechecking? && s.refs[p.e] == 1)
    ensures Inv(Go(s, t))
  {
    var s' := Go(s, t);
    assert ClientOk(s, t);
    QuietMove(s, s', t);
  }

  lemma ClientsOk(s: Table, s': Table, t: Client)
    requires Inv(s) && Wf(s') && t < |s.pc| == |s'.pc| && ClientOk(s', t)
    requires MainMoves(s, s', t) && s'.pc == s.pc[t := s'.pc[t]]
    requires s'.hash == s.hash && s'.active == s.active
    requires s'.free == s.free || (s.main == Some(t))
    ensures forall u :: 0 <= u < |s'.pc| ==> ClientOk(s', u)
  {
    forall u | 0 <= u < |s'.pc| && u != t ensures ClientOk(s', u) {
      OthersOk(s, s', t, u);
    }
  }

  /** Entries other than the one a step is about. */
  lemma OtherEntriesOk(s: Table, s': Table, t: Client, e: Entry)
    requires Inv(s) && t < |s.pc| == |s'.pc| && s'.pc == s.pc[t := s'.pc[t]]
    requires |s.hash| == |s'.value| == |s'.refs|
    requires MainMoves(s, s', t) && ClientOk(s, t)
    requires forall x :: x != e ==> !Refers(s.pc[t], x) && !Refers(s'.pc[t], x)
    requires (s.pc[t].Found? || s.pc[t].Got?) ==> s.pc[t].e == e
    requires forall x :: 0 <= x < |s.hash| && x != e ==> s'.value[x] == s.value[x] && s'.refs[x] == s.refs[x]
    requires forall x :: x != e ==> (x in s'.active <==> x in s.active) && (x in s'.free <==> x in s.free)
    ensures forall x :: 0 <= x < |s.hash| && x != e ==> EntryOk(s', x)
  {
    forall x | 0 <= x < |s.hash| && x != e ensures EntryOk(s', x) {
      assert EntryOk(s, x);
      EntryFrame(s, s', t, x);
    }
  }

  /** A client takes the semaphore of its entry. */
  lemma TakenKeepsInv(s: Table, t: Client, h: Hash, e: Entry)
    requires Inv(s) && t < |s.pc| && (s.pc[t] == Waiting(h, e) || s.pc[t] == Trying(h, e))
    requires e < |s.value| && s.value[e] > 0
    ensures Inv(Taken(s, t, h, e))
  {
    var s' := Taken(s, t, h, e);
    assert ClientOk(s, t);
    OtherEntriesOk(s, s', t, e);
    TakenEntry(s, t, h, e);
    ClientsOk(s, s', t);
  }

  lemma TakenEntry(s: Table, t: Client, h: Hash, e: Entry)
    requires t < |s.pc| && e < |s.value| && s.value[e] > 0 && e < |s.refs| && EntryOk(s, e)
    requires s.pc[t] == Waiting(h, e) || s.pc[t] == Trying(h, e)
    ensures EntryOk(Taken(s, t, h, e), e)
  {
    SetsAfterMove(s.pc, t, Holding(h, e), e);
    assert Referrers(Taken(s, t, h, e).pc, e) == Referrers(s.pc, e);
  }

  /** The arriving client's reference is counted as it leaves the main lock. */
  lemma CountedKeepsInv(s: Table, t: Client, h: Hash, e: Entry, try: bool, next: Pc)
    requires Inv(s) && t < |s.pc| && s.pc[t] == Found(h, e, try) && (next == Trying(h, e) || next == Waiting(h, e))
    ensures e < |s.refs| && Inv(Counted(s, t, e, next))
  {
    assert ClientOk(s, t);
    var s' := Counted(s, t, e, next);
    OtherEntriesOk(s, s', t, e);
    assert EntryOk(s, e);
    CountedEntry(s, t, h, e, try, next);
    ClientsOk(s, s', t);
  }

  lemma CountedEntry(s: Table, t: Client, h: Hash, e: Entry, try: bool, next: Pc)
    requires t < |s.pc| && e < |s.value| && e < |s.refs| && EntryOk(s, e) && e in s.active
    requires s.pc[t] == Found(h, e, try) && (next == Trying(h, e) || next == Waiting(h, e))
    ensures EntryOk(Counted(s, t, e, next), e)
  {
    MoreReferrers(s.pc, t, next, e);
  }

  /** A failed trylock gives its reference back while others keep theirs. */
  lemma GaveBackKeepsInv(s: Table, t: Client, h: Hash, e: Entry)
    requires Inv(s) && t < |s.pc| && s.pc[t] == Rechecking(h, e) && e < |s.refs| && s.refs[e] != 1
    ensures Inv(GaveBack(s, t, e))
  {
    assert ClientOk(s, t);
    var s' := GaveBack(s, t, e);
    OtherEntriesOk(s, s', t, e);
    assert EntryOk(s, e);
    GaveBackEntry(s, t, h, e);
    ClientsOk(s, s', t);
  }

  lemma GaveBackEntry(s: Table, t: Client, h: Hash, e: Entry)
    requires t < |s.pc| && e < |s.value| && e < |s.refs| && EntryOk(s, e) && e in s.active
    requires s.pc[t] == Rechecking(h, e) && s.refs[e] != 1
    ensures EntryOk(GaveBack(s, t, e), e)
  {
    FewerReferrers(s.pc, t, Idle, e);
  }

  /** An entry leaves the free list. */
  lemma TookFreeKeepsInv(s: Table, t: Client, h: Hash, try: bool, retry: bool)
    requires Inv(s) && t < |s.pc| && s.pc[t] == Allocating(h, try, retry) && s.free != []
    ensures Inv(TookFree(s, t, h, try, retry))
  {
    assert ClientOk(s, t);
    var s' := TookFree(s, t, h, try, retry);
    var e := s.free[0];
    assert EntryOk(s, e);
    assert s.free == [e] + s'.free && e !in s'.free;
    OtherEntriesOk(s, s', t, e);
    SetsKept(s.pc, s'.pc, t, e);
    assert EntryOk(s', e);
    ClientsOk(s, s', t);
  }

  /** Somebody installed the hash meanwhile: the fresh entry goes back. */
  lemma ReturnedFreeKeepsInv(s: Table, t: Client, h: Hash, e: Entry, there: Entry, try: bool)
    requires Inv(s) && t < |s.pc| && s.pc[t] == Got(h, try, true, e)
    requires Find(s.active, s.hash, h) == Some(there)
    ensures Inv(ReturnedFree(s, t, h, e, there, try))
  {
    assert ClientOk(s, t);
    var s' := ReturnedFree(s, t, h, e, there, try);
    assert EntryOk(s, e);
    NoDupCons(e, s.free);
    OtherEntriesOk(s, s', t, e);
    SetsKept(s.pc, s'.pc, t, e);
    assert EntryOk(s', e);
    ClientsOk(s, s', t);
  }

  /** The fresh entry is installed under its hash. */
  lemma InstalledKeepsInv(s: Table, t: Client, h: Hash, e: Entry, try: bool, retry: bool)
    requires Inv(s) && t < |s.pc| && s.pc[t] == Got(h, try, retry, e) && Find(s.active, s.hash, h).None?
    ensures e < |s.hash| && Inv(Installed(s, t, h, e, try))
  {
    assert ClientOk(s, t);
    var s' := Installed(s, t, h, e, try);
    assert EntryOk(s, e);
    NoDupCons(e, s.active);
    OtherEntriesOk(s, s', t, e);
    SetsKept(s.pc, s'.pc, t, e);
    assert EntryOk(s', e);
    InstalledListsOk(s, h, e);
    forall u | 0 <= u < |s'.pc| && u != t ensures ClientOk(s', u) {
      assert ClientOk(s, u);
    }
  }

  lemma InstalledListsOk(s: Table, h: Hash, e: Entry)
    requires Wf(s) && ListsOk(s) && e < |s.hash| && e !in s.active && Find(s.active, s.hash, h).None?
    ensures ListsOk(s.(hash := s.hash[e := h], active := [e] + s.active))
  {
    NoDupCons(e, s.active);
    var hash, active := s.hash[e := h], [e] + s.active;
    forall x, y | x in active && y in active && x < |hash| && y < |hash| && hash[x] == hash[y] ensures x == y {
    }
  }

  lemma UnlockLists(s: Table, t: Client, e: Entry)
    requires Wf(s) && ListsOk(s) && t < |s.pc| && e < |s.hash| && e in s.active && e !in s.free
    ensures var s' := Unlock(s, t, e);
            && Wf(s') && ListsOk(s')
            && (forall x :: x != e ==> (x in s'.active <==> x in s.active) && (x in s'.free <==> x in s.free))
  {
    WithoutRemoves(s.active, e);
    NoDupCons(e, s.free);
    var s' := Unlock(s, t, e);
    forall i | 0 <= i < |s'.active| ensures s'.active[i] < |s.hash| {
      assert s'.active[i] in s'.active;
    }
    forall i | 0 <= i < |s'.free| ensures s'.free[i] < |s.hash| {
      assert s'.free[i] in s'.free;
    }
  }

  /** The holder's lookup finds the entry it holds. */
  lemma HolderFindsEntry(s: Table, t: Client, h: Hash, e: Entry)
    requires Inv(s) && t < |s.pc| && s.pc[t] == Unlocking(h, e)
    ensures Find(s.active, s.hash, h) == Some(e) && e in s.active && e < |s.hash| && e !in s.free
  {
    assert ClientOk(s, t);
    assert EntryOk(s, e);
    var r := Find(s.active, s.hash, h);
    assert r.Some? ==> s.hash[r.value] == s.hash[e];
  }

  /** The holder gives reference and semaphore back, and frees the entry if nobody else
      refers to it. */
  lemma UnlockKeepsInv(s: Table, t: Client, h: Hash, e: Entry)
    requires Inv(s) && t < |s.pc| && s.pc[t] == Unlocking(h, e) && e in s.active && e < |s.hash| && e !in s.free
    ensures Inv(Unlock(s, t, e))
  {
    assert ClientOk(s, t) && EntryOk(s, e);
    UnlockLists(s, t, e);
    var s' := Unlock(s, t, e);
    OtherEntriesOk(s, s', t, e);
    UnlockEntry(s, t, h, e);
    forall u | 0 <= u < |s'.pc| && u != t ensures ClientOk(s', u) {
      UnlockClient(s, t, h, e, u);
    }
    assert ClientOk(s', t);
  }

  lemma UnlockEntry(s: Table, t: Client, h: Hash, e: Entry)
    requires Wf(s) && t < |s.pc| && e < |s.hash| && EntryOk(s, e) && NoDup(s.active) && e in s.active
    requires s.pc[t] == Unlocking(h, e)
    ensures EntryOk(Unlock(s, t, e), e)
  {
    WithoutRemoves(s.active, e);
    SetsAfterMove(s.pc, t, Idle, e);
    var pc' := Unlock(s, t, e).pc;
    assert |Referrers(pc', e)| == |Referrers(s.pc, e)| - 1;
    assert |Holders(pc', e)| == |Holders(s.pc, e)| - 1;
  }

  lemma UnlockClient(s: Table, t: Client, h: Hash, e: Entry, u: Client)
    requires Inv(s) && t < |s.pc| && u < |s.pc| && u != t && s.pc[t] == Unlocking(h, e) && e < |s.hash|
    requires e in s.active && Wf(Unlock(s, t, e))
    ensures ClientOk(Unlock(s, t, e), u)
  {
    assert ClientOk(s, u) && ClientOk(s, t) && EntryOk(s, e);
    WithoutRemoves(s.active, e);
    if Refers(s.pc[u], e) {
      assert {t, u} <= Referrers(s.pc, e);
      CardAtLeastTwo(Referrers(s.pc, e), t, u);
    }
  }

  lemma CardAtLeastTwo(a: set<Client>, t: Client, u: Client)
    requires t in a && u in a && t != u
    ensures |a| >= 2
  {
    assert |a - {t}| == |a| - 1 && u in a - {t};
  }

  lemma StepKeepsInv(s: Table, t: Client)
    requires Inv(s) && CanGo(s, t)
    ensures Inv(Go(s, t))
  {
    match s.pc[t]
    case Allocating(h, try, retry) =>
      if s.free != [] { TookFreeKeepsInv(s, t, h, try, retry); } else { QuietStepsKeepInv(s, t); }
    case Got(h, try, retry, e) =>
      assert ClientOk(s, t);
      if retry && Find(s.active, s.hash, h).Some? {
        ReturnedFreeKeepsInv(s, t, h, e, Find(s.active, s.hash, h).value, try);
      } else {
        InstalledKeepsInv(s, t, h, e, try, retry);
      }
    case Found(h, e, try) => CountedKeepsInv(s, t, h, e, try, if try then Trying(h, e) else Waiting(h, e));
    case Waiting(h, e) => TakenKeepsInv(s, t, h, e);
    case Trying(h, e) => if s.value[e] > 0 { TakenKeepsInv(s, t, h, e); } else { QuietStepsKeepInv(s, t); }
    case Rechecking(h, e) => if s.refs[e] != 1 { GaveBackKeepsInv(s, t, h, e); } else { QuietStepsKeepInv(s, t); }
    case Unlocking(h, e) =>
      HolderFindsEntry(s, t, h, e);
      UnlockKeepsInv(s, t, h, e);
    case _ => QuietStepsKeepInv(s, t);
  }

  /** A fresh table of `n` entries and `c` idle clients: `fio_filelock_init`. */
  ghost function Fresh(n: nat, c: nat): Table {
    Table(None, [], seq(n, i => i), seq(n, _ => 0), seq(n, _ => 0), seq(n, _ => 1), seq(c, _ => Idle))
  }

  lemma FreshOk(n: nat, c: nat)
    ensures Inv(Fresh(n, c))
  {
    var s := Fresh(n, c);
    forall e | 0 <= e < n ensures EntryOk(s, e) {
      assert Holders(s.pc, e) == {} && Referrers(s.pc, e) == {};
      assert s.free[e] == e;
    }
  }

  /** An event is a client starting a call or taking its next step. */
  datatype Event = Start(t: Client, h: Hash, try: bool) | Step(t: Client)

  predicate Enabled(s: Table, ev: Event)
    requires Wf(s)
  {
    match ev
    case Start(t, _, _) => t < |s.pc| && s.pc[t].Idle?
    case Step(t) => CanGo(s, t)
  }

  function Apply(s: Table, ev: Event): Table
    requires Wf(s) && Enabled(s, ev)
  {
    match ev
    case Start(t, h, try) => At(s, t, Want(h, try))
    case Step(t) => Go(s, t)
  }

  lemma ApplyKeepsInv(s: Table, ev: Event)
    requires Inv(s) && Enabled(s, ev)
    ensures Inv(Apply(s, ev))
  {
    match ev
    case Start(t, h, try) =>
      assert ClientOk(s, t);
      QuietMove(s, Apply(s, ev), t);
    case Step(t) => StepKeepsInv(s, t);
  }

  /** The states `events` leads to, if each is enabled in turn. */
  ghost predicate Leads(s: Table, events: seq<Event>, s': Table)
    decreases |events|
  {
    if events == [] then s' == s
    else Wf(s) && Enabled(s, events[0]) && Leads(Apply(s, events[0]), events[1..], s')
  }

  lemma {:induction false} RunKeepsInv(s: Table, events: seq<Event>, s': Table)
    requires Inv(s) && Leads(s, events, s')
    ensures Inv(s')
    decreases |events|
  {
    if events != [] {
      ApplyKeepsInv(s, events[0]);
      RunKeepsInv(Apply(s, events[0]), events[1..], s');
    }
  }

  /** The last two clauses keep every entry's semaphore at one or below and show each up to
      raise it from zero: it is used as one that loses no wake-up. */
  ghost predicate SafeTable(s: Table)
    requires Wf(s)
  {
    && (forall t, u ::
          0 <= t < |s.pc| && 0 <= u < |s.pc| && HasLock(s.pc[t]) && HasLock(s.pc[u]) && s.pc[t].h == s.pc[u].h
          ==> t == u)
    && (forall e, e' ::
          e in s.active && e' in s.active && e < |s.hash| && e' < |s.hash| && s.hash[e] == s.hash[e']
          ==> e == e')
    && (forall e :: e in s.active && e < |s.refs| ==> s.refs[e] == |Referrers(s.pc, e)|)
    && (forall e :: e in s.free && e < |s.value| ==> Referrers(s.pc, e) == {} && s.refs[e] == 0 && s.value[e] == 1)
    && (forall e: Entry :: e < |s.value| ==> s.value[e] <= 1)
    && (forall t :: 0 <= t < |s.pc| && s.pc[t].Unlocking? ==> s.value[s.pc[t].e] == 0)
  }

  /** In every state reached by any interleaving of lock, trylock and unlock calls: one
      holder per hash, one active entry per hash, references that count exactly the
      clients past their lookup, and free entries that are unreferenced and up. */
  lemma ReachableIsSafe(n: nat, c: nat, events: seq<Event>, s: Table)
    requires Leads(Fresh(n, c), events, s)
    ensures Wf(s) && SafeTable(s)
  {
    FreshOk(n, c);
    RunKeepsInv(Fresh(n, c), events, s);
    forall e | e in s.active && e < |s.refs| ensures s.refs[e] == |Referrers(s.pc, e)| {
      assert EntryOk(s, e);
    }
    forall e | e in s.free && e < |s.value| ensures Referrers(s.pc, e) == {} && s.refs[e] == 0 && s.value[e] == 1 {
      assert EntryOk(s, e);
      assert Holders(s.pc, e) <= Referrers(s.pc, e);
    }
    forall e: Entry | e < |s.value| ensures s.value[e] <= 1 {
      assert EntryOk(s, e);
    }
    forall t | 0 <= t < |s.pc| && s.pc[t].Unlocking? ensures s.value[s.pc[t].e] == 0 {
      assert EntryOk(s, s.pc[t].e) && t in Holders(s.pc, s.pc[t].e);
    }
    forall t, u | 0 <= t < |s.pc| && 0 <= u < |s.pc| && HasLock(s.pc[t]) && HasLock(s.pc[u])
                  && s.pc[t].h == s.pc[u].h
      ensures t == u
    {
      OneHolder(s, t, u);
    }
  }

  lemma OneHolder(s: Table, t: Client, u: Client)
    requires Inv(s) && t < |s.pc| && u < |s.pc| && HasLock(s.pc[t]) && HasLock(s.pc[u]) && s.pc[t].h == s.pc[u].h
    ensures t == u
  {
    assert ClientOk(s, t) && ClientOk(s, u);
    var e := s.pc[t].e;
    assert e == s.pc[u].e;
    assert EntryOk(s, e);
    if t != u {
      CardAtLeastTwo(Holders(s.pc, e), t, u);
      HolderBound(s, e);
    }
  }

  lemma HolderBound(s: Table, e: Entry)
    requires Inv(s) && e < |s.hash|
    ensures |Holders(s.pc, e)| <= 1
  {
    assert EntryOk(s, e);
  }

  /** No deadlock and no idle spinning: while any client is inside a call or holds a lock,
      some client can move, and not merely by napping again on an empty free list. */
  lemma SomeoneProgresses(s: Table, t: Client)
    requires Inv(s) && |s.hash| > 0 && t < |s.pc| && !s.pc[t].Idle?
    ensures exists u: Client :: CanGo(s, u) && !(s.pc[u].Napping? && s.free == [])
  {
    assert ClientOk(s, t);
    if s.main.Some? {
      assert ClientOk(s, s.main.value);
      assert CanGo(s, s.main.value);
    } else if s.pc[t].Napping? && s.free == [] {
      assert EntryOk(s, 0);
      var u :| u in Referrers(s.pc, 0);
      ReferrerOrHolderMoves(s, u, 0);
    } else if s.pc[t].Waiting? {
      ReferrerOrHolderMoves(s, t, s.pc[t].e);
    } else {
      assert CanGo(s, t);
    }
  }

  lemma ReferrerOrHolderMoves(s: Table, t: Client, e: Entry)
    requires Inv(s) && t < |s.pc| && s.main.None? && Refers(s.pc[t], e)
    ensures exists u: Client :: CanGo(s, u) && !s.pc[u].Napping?
  {
    assert ClientOk(s, t);
    if s.pc[t].Waiting? && s.value[e] == 0 {
      assert EntryOk(s, e);
      var u :| u in Holders(s.pc, e);
      assert ClientOk(s, u);
      assert CanGo(s, u);
    } else {
      assert CanGo(s, t);
    }
  }

  // ---- What a call comes to ----

  /** Inside a blocking call for `h` that does not have the lock yet. */
  predicate InLock(p: Pc, h: Hash) {
    match p
    case Want(g, try) => g == h && !try
    case Looking(g, try) => g == h && !try
    case Allocating(g, try, _) => g == h && !try
    case Napping(g) => g == h
    case Got(g, try, _, _) => g == h && !try
    case Found(g, _, try) => g == h && !try
    case Waiting(g, _) => g == h
    case _ => false
  }

  /** Inside a trylock call for `h` that has not been decided. */
  predicate InTrylock(p: Pc, h: Hash) {
    match p
    case Want(g, try) => g == h && try
    case Looking(g, try) => g == h && try
    case Allocating(g, try, _) => g == h && try
    case Got(g, try, _, _) => g == h && try
    case Found(g, _, try) => g == h && try
    case Trying(g, _) => g == h
    case Failed(g, _) => g == h
    case Rechecking(g, _) => g == h
    case _ => false
  }

  predicate LocksHash(p: Pc, h: Hash) {
    HasLock(p) && p.h == h
  }

  /** A lookup stops at the active entry of its hash, and asks for a free one only if there
      is none. */
  lemma LookupStep(s: Table, t: Client, e: Entry)
    requires Inv(s) && CanGo(s, t) && s.pc[t].Looking?
    ensures var p, p' := s.pc[t], Go(s, t).pc[t];
            && Go(s, t).free == s.free
            && (e in s.active && s.hash[e] == p.h ==> p' == Found(p.h, e, p.try))
            && (p' == Allocating(p.h, p.try, false) || (p'.Found? && p'.e in s.active && s.hash[p'.e] == p.h))
  {
  }

  /** A blocking call goes on until it has its lock. It naps exactly when it finds no free
      entry, and takes the lock exactly when its entry's semaphore lets it. */
  lemma LockStep(s: Table, t: Client, h: Hash)
    requires Inv(s) && CanGo(s, t) && InLock(s.pc[t], h)
    ensures var p' := Go(s, t).pc[t];
            && (InLock(p', h) || LocksHash(p', h))
            && (p'.Napping? <==> s.pc[t].Allocating? && s.free == [])
            && (p'.Holding? <==> s.pc[t].Waiting?)
  {
  }

  /** A trylock never naps. It fails exactly when it finds no free entry or, at its second
      look, another reference to the entry; alone with the entry it goes to wait on a
      semaphore that is up; otherwise it takes the lock exactly when it is free. */
  lemma TrylockStep(s: Table, t: Client, h: Hash)
    requires Inv(s) && CanGo(s, t) && InTrylock(s.pc[t], h)
    ensures var p, p' := s.pc[t], Go(s, t).pc[t];
            && (InTrylock(p', h) || LocksHash(p', h) || p'.Idle? || (p'.Waiting? && p'.h == h))
            && (p'.Idle? <==> (p.Allocating? && s.free == []) || (p.Rechecking? && Referrers(s.pc, p.e) != {t}))
            && (p'.Waiting? <==> p.Rechecking? && Referrers(s.pc, p.e) == {t})
            && (p'.Waiting? ==> s.value[p.e] == 1)
            && (p'.Holding? <==> p.Trying? && s.value[p.e] == 1)
  {
    var p := s.pc[t];
    assert ClientOk(s, t);
    if p.Rechecking? {
      RecheckAlone(s, t);
    }
    if p.Trying? {
      assert EntryOk(s, p.e);
    }
  }

  lemma RecheckAlone(s: Table, t: Client)
    requires Inv(s) && t < |s.pc| && s.pc[t].Rechecking?
    ensures var e := s.pc[t].e;
            && (s.refs[e] == 1 <==> Referrers(s.pc, e) == {t})
            && (s.refs[e] == 1 ==> s.value[e] == 1)
  {
    var e := s.pc[t].e;
    assert ClientOk(s, t) && EntryOk(s, e);
    var all := Referrers(s.pc, e);
    assert t in all;
    if |all| == 1 {
      forall u | u in all
        ensures u == t
      {
        if u != t {
          CardAtLeastTwo(all, t, u);
        }
      }
      assert all == {t};
      assert Holders(s.pc, e) <= all && t !in Holders(s.pc, e);
      assert Holders(s.pc, e) == {};
    }
  }

  /** Steps of others leave a client where it is. */
  lemma OthersStayPut(s: Table, ev: Event, t: Client)
    requires Wf(s) && Enabled(s, ev) && t < |s.pc| && ev.t != t
    ensures |Apply(s, ev).pc| == |s.pc| && Apply(s, ev).pc[t] == s.pc[t]
  {
    if ev.Step? {
      GoMovesOne(s, ev.t);
      var pc := Go(s, ev.t).pc;
      assert pc == s.pc[ev.t := pc[ev.t]];
    }
  }

  lemma GoMovesOne(s: Table, u: Client)
    requires Wf(s) && CanGo(s, u)
    ensures |Go(s, u).pc| == |s.pc| && Go(s, u).pc == s.pc[u := Go(s, u).pc[u]]
  {
    match s.pc[u]
    case Want(h, try) =>
    case Looking(h, try) =>
    case Allocating(h, try, retry) =>
    case Napping(h) =>
    case Got(h, try, retry, e) =>
    case Found(h, e, try) =>
    case Waiting(h, e) =>
    case Trying(h, e) =>
    case Failed(h, e) =>
    case Rechecking(h, e) =>
    case Holding(h, e) =>
    case Unlocking(h, e) =>
  }

  /** At some point of the run client `t` has the lock for `h`. */
  ghost predicate GetsLock(s: Table, events: seq<Event>, t: Client, h: Hash)
    decreases |events|
  {
    (t < |s.pc| && LocksHash(s.pc[t], h)) ||
    (events != [] && Wf(s) && Enabled(s, events[0]) && GetsLock(Apply(s, events[0]), events[1..], t, h))
  }

  /** A blocking call that has returned, whatever the others did, had its lock. */
  lemma {:induction false} LockReturnsWithLock(s: Table, events: seq<Event>, s': Table, t: Client, h: Hash)
    requires Inv(s) && Leads(s, events, s') && t < |s.pc| && InLock(s.pc[t], h)
    requires t < |s'.pc| && s'.pc[t].Idle?
    ensures GetsLock(s, events, t, h)
    decreases |events|
  {
    var ev := events[0];
    var s1 := Apply(s, ev);
    ApplyKeepsInv(s, ev);
    if ev.t == t {
      LockStep(s, t, h);
    } else {
      OthersStayPut(s, ev, t);
    }
    if InLock(s1.pc[t], h) {
      LockReturnsWithLock(s1, events[1..], s', t, h);
    }
  }

  /** Where a client can be that started a trylock and no other call since. */
  predicate AfterTrylock(p: Pc, h: Hash) {
    InTrylock(p, h) || LocksHash(p, h) || p.Idle? || (p.Waiting? && p.h == h)
  }

  /** Whenever client `t` goes to wait it is its entry's one referrer. */
  ghost predicate WaitsAlone(s: Table, events: seq<Event>, t: Client)
    decreases |events|
  {
    events == [] ||
    (Wf(s) && Enabled(s, events[0]) && t < |s.pc| &&
     var s1 := Apply(s, events[0]);
     && t < |s1.pc|
     && (!s.pc[t].Waiting? && s1.pc[t].Waiting? ==> Referrers(s.pc, s1.pc[t].e) == {t})
     && WaitsAlone(s1, events[1..], t))
  }

  /** A trylock goes to wait only alone with its entry. */
  lemma {:induction false} TrylockWaitsAlone(s: Table, events: seq<Event>, s': Table, t: Client, h: Hash)
    requires Inv(s) && Leads(s, events, s') && t < |s.pc| && AfterTrylock(s.pc[t], h)
    requires forall i :: 0 <= i < |events| ==> !(events[i].Start? && events[i].t == t)
    ensures WaitsAlone(s, events, t)
    decreases |events|
  {
    if events != [] {
      var ev := events[0];
      ApplyKeepsInv(s, ev);
      if ev.t != t {
        OthersStayPut(s, ev, t);
      } else {
        AfterTrylockStep(s, t, h);
      }
      TrylockWaitsAlone(Apply(s, ev), events[1..], s', t, h);
    }
  }

  lemma AfterTrylockStep(s: Table, t: Client, h: Hash)
    requires Inv(s) && CanGo(s, t) && AfterTrylock(s.pc[t], h)
    ensures var p' := Go(s, t).pc[t];
            |Go(s, t).pc| == |s.pc| && AfterTrylock(p', h) && (p'.Waiting? ==> Referrers(s.pc, p'.e) == {t})
  {
    if InTrylock(s.pc[t], h) {
      TrylockStep(s, t, h);
    } else if s.pc[t].Unlocking? {
      HolderFindsEntry(s, t, s.pc[t].h, s.pc[t].e);
    }
  }

  /** Both together, from the call: a lock returns with the lock, and a trylock waits only
      for an entry nobody else refers to. */
  lemma CallsComeOut(s: Table, t: Client, h: Hash, try: bool, events: seq<Event>, s': Table)
    requires Inv(s) && Enabled(s, Start(t, h, try)) && Leads(Apply(s, Start(t, h, try)), events, s')
    requires forall i :: 0 <= i < |events| ==> !(events[i].Start? && events[i].t == t)
    ensures !try && t < |s'.pc| && s'.pc[t].Idle? ==> GetsLock(Apply(s, Start(t, h, try)), events, t, h)
    ensures try ==> WaitsAlone(Apply(s, Start(t, h, try)), events, t)
  {
    var s1 := Apply(s, Start(t, h, try));
    ApplyKeepsInv(s, Start(t, h, try));
    if try {
      TrylockWaitsAlone(s1, events, s', t, h);
    } else if t < |s'.pc| && s'.pc[t].Idle? {
      LockReturnsWithLock(s1, events, s', t, h);
    }
  }
}
