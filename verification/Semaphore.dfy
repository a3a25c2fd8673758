/** fio's semaphore: a counter and a count of waiters under a mutex, with a condition
    variable. Each event below is one critical section of one thread; between two events
    any other thread may run. */
module Semaphore {

  type Tid = nat

  /** `sleeping` threads are blocked in `pthread_cond_wait`; `woken` ones have been
      unblocked and not yet run. `downs` and `ups` count completed operations. */
  datatype Sem = Sem(value: nat, waiters: int, sleeping: set<Tid>, woken: set<Tid>, downs: nat, ups: nat)

  datatype Event =
    | Down(t: Tid)            // enter fio_sem_down
    | Resume(t: Tid)          // a woken thread gets the mutex back
    | TryDown                 // fio_sem_down_trylock
    | Up(signalled: set<Tid>) // fio_sem_up; the threads its signal unblocks, if it signals
    | Spurious(t: Tid)        // a wake-up without a signal

  function Init(value: nat): Sem {
    Sem(value, 0, {}, {}, 0, 0)
  }

  predicate Signals(s: Sem) {
    s.value == 0 && s.waiters != 0
  }

  /** POSIX lets a signal unblock one or more of the blocked threads, at least one if there
      are any. */
  predicate Enabled(s: Sem, e: Event) {
    match e
    case Down(t) => t !in s.sleeping && t !in s.woken
    case Resume(t) => t in s.woken
    case TryDown => true
    case Up(signalled) =>
      if Signals(s) then signalled <= s.sleeping && (s.sleeping != {} ==> signalled != {})
      else signalled == {}
    case Spurious(t) => t in s.sleeping
  }

  /** The test at the head of the wait loop: take the semaphore or go to sleep. */
  function TakeOrSleep(s: Sem, t: Tid): Sem {
    if s.value != 0 then s.(value := s.value - 1, downs := s.downs + 1)
    else s.(waiters := s.waiters + 1, sleeping := s.sleeping + {t})
  }

  function Apply(s: Sem, e: Event): Sem
    requires Enabled(s, e)
  {
    match e
    case Down(t) => TakeOrSleep(s, t)
    case Resume(t) => TakeOrSleep(s.(waiters := s.waiters - 1, woken := s.woken - {t}), t)
    case TryDown => if s.value != 0 then s.(value := s.value - 1, downs := s.downs + 1) else s
    case Up(signalled) =>
      s.(value := s.value + 1, ups := s.ups + 1,
         sleeping := s.sleeping - signalled, woken := s.woken + signalled)
    case Spurious(t) => s.(sleeping := s.sleeping - {t}, woken := s.woken + {t})
  }

  /** Conservation, and the meaning of `waiters`. */
  ghost predicate Counted(s: Sem, initial: nat) {
    && s.sleeping !! s.woken
    && s.waiters == |s.sleeping| + |s.woken|
    && s.value + s.downs == initial + s.ups
  }

  lemma TakeKeepsCounts(s: Sem, t: Tid, initial: nat)
    requires Counted(s, initial) && t !in s.sleeping && t !in s.woken
    ensures Counted(TakeOrSleep(s, t), initial)
  {
  }

  lemma ApplyKeepsCounts(s: Sem, e: Event, initial: nat)
    requires Counted(s, initial) && Enabled(s, e)
    ensures Counted(Apply(s, e), initial)
  {
    match e
    case Down(t) => TakeKeepsCounts(s, t, initial);
    case Resume(t) => TakeKeepsCounts(s.(waiters := s.waiters - 1, woken := s.woken - {t}), t, initial);
    case TryDown =>
    case Up(signalled) => MoveKeepsCount(s.sleeping, s.woken, signalled);
    case Spurious(t) => MoveKeepsCount(s.sleeping, s.woken, {t});
  }

  lemma MoveKeepsCount(a: set<Tid>, b: set<Tid>, moved: set<Tid>)
    requires a !! b && moved <= a
    ensures |a - moved| + |b + moved| == |a| + |b|
  {
    assert a == (a - moved) + moved;
  }

  /** A down or a resumed down completes at once exactly when the semaphore is available, and
      otherwise leaves its thread asleep; a trylock never sleeps and takes it exactly when it
      is available. */
  lemma TakesIffAvailable(s: Sem, e: Event)
    requires Enabled(s, e) && (e.Down? || e.Resume? || e.TryDown?)
    ensures Apply(s, e).downs == s.downs + (if s.value > 0 then 1 else 0)
    ensures Apply(s, e).value == s.value - (if s.value > 0 then 1 else 0)
    ensures Apply(s, e).sleeping == if e.TryDown? || s.value > 0 then s.sleeping else s.sleeping + {e.t}
  {
  }

  /** `events` is a run from `s` in which no `Up` lifts the value above `cap`. */
  ghost predicate Run(s: Sem, events: seq<Event>, cap: nat)
    decreases |events|
  {
    events == [] ||
    (Enabled(s, events[0]) && (events[0].Up? ==> s.value < cap) && Run(Apply(s, events[0]), events[1..], cap))
  }

  ghost function After(s: Sem, events: seq<Event>, cap: nat): Sem
    requires Run(s, events, cap)
    decreases |events|
  {
    if events == [] then s else After(Apply(s, events[0]), events[1..], cap)
  }

  /** In every run, value plus successful downs equals the initial value plus ups, and
      `waiters` counts the threads that sleep or have been woken and not run. */
  lemma {:induction false} RunKeepsCounts(s: Sem, events: seq<Event>, cap: nat, initial: nat)
    requires Counted(s, initial) && Run(s, events, cap)
    ensures Counted(After(s, events, cap), initial)
    decreases |events|
  {
    if events != [] {
      ApplyKeepsCounts(s, events[0], initial);
      RunKeepsCounts(Apply(s, events[0]), events[1..], cap, initial);
    }
  }

  /** No wake-up is lost: if the semaphore is available and a thread sleeps on it, another
      thread has been woken and will test the value. */
  ghost predicate NoLostWakeup(s: Sem) {
    s.value > 0 && s.sleeping != {} ==> s.woken != {}
  }

  lemma {:induction false} BinaryRunLosesNothing(s: Sem, events: seq<Event>, initial: nat)
    requires Counted(s, initial) && s.value <= 1 && NoLostWakeup(s) && Run(s, events, 1)
    ensures NoLostWakeup(After(s, events, 1))
    decreases |events|
  {
    if events != [] {
      ApplyKeepsCounts(s, events[0], initial);
      assert NoLostWakeup(Apply(s, events[0])) by {
        if events[0].Up? && s.sleeping != {} {
          var signalled := events[0].signalled;
          assert s.waiters != 0;
          assert signalled <= Apply(s, events[0]).woken;
        }
      }
      BinaryRunLosesNothing(Apply(s, events[0]), events[1..], initial);
    }
  }

  /** One `Up` too many: with one thread woken and another asleep, raising the value from
      one to two sends no signal, and once the woken thread has run the sleeper is left
      behind with the semaphore available. */
  lemma SecondUpLosesWakeup(s: Sem, t: Tid)
    requires s.value == 1 && s.woken == {t} && s.sleeping != {}
    ensures Enabled(s, Up({})) && Enabled(Apply(s, Up({})), Resume(t))
    ensures !NoLostWakeup(Apply(Apply(s, Up({})), Resume(t)))
  {
  }

  /** Over all runs from a locked semaphore, no wake-up is ever lost exactly when the value
      is kept at one or below. */
  lemma NothingLostIffBinary(cap: nat)
    ensures (forall events :: Run(Init(0), events, cap) ==> NoLostWakeup(After(Init(0), events, cap))) <==> cap <= 1
  {
    if cap <= 1 {
      forall events | Run(Init(0), events, cap) ensures NoLostWakeup(After(Init(0), events, cap)) {
        CapIsMonotone(Init(0), events, cap, 1);
        BinaryRunLosesNothing(Init(0), events, 0);
      }
    } else {
      LostWakeupRun(cap);
    }
  }

  lemma {:induction false} CapIsMonotone(s: Sem, events: seq<Event>, cap: nat, cap': nat)
    requires cap <= cap' && Run(s, events, cap)
    ensures Run(s, events, cap') && After(s, events, cap') == After(s, events, cap)
    decreases |events|
  {
    if events != [] {
      CapIsMonotone(Apply(s, events[0]), events[1..], cap, cap');
    }
  }

  lemma RunCons(s: Sem, e: Event, events: seq<Event>, cap: nat)
    requires Enabled(s, e) && (e.Up? ==> s.value < cap) && Run(Apply(s, e), events, cap)
    ensures Run(s, [e] + events, cap)
    ensures After(s, [e] + events, cap) == After(Apply(s, e), events, cap)
  {
    assert ([e] + events)[1..] == events;
  }

  lemma LostWakeupRun(cap: nat)
    requires cap >= 2
    ensures exists events :: Run(Init(0), events, cap) && !NoLostWakeup(After(Init(0), events, cap))
  {
    var s1 := Apply(Init(0), Down(1));
    var s2 := Apply(s1, Down(2));
    var s3 := Apply(s2, Up({1}));
    var s4 := Apply(s3, Up({}));
    RunCons(s4, Resume(1), [], cap);
    RunCons(s3, Up({}), [Resume(1)] + [], cap);
    RunCons(s2, Up({1}), [Up({})] + ([Resume(1)] + []), cap);
    RunCons(s1, Down(2), [Up({1})] + ([Up({})] + ([Resume(1)] + [])), cap);
    RunCons(Init(0), Down(1), [Down(2)] + ([Up({1})] + ([Up({})] + ([Resume(1)] + []))), cap);
    assert 2 in Apply(s4, Resume(1)).sleeping;
  }
}
