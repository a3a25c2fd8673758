/** Flow throttling: jobs of one flow share a counter and a total weight; a job stalls while
    its share of the counter exceeds its share of the weight. Every atomic operation of a
    job is an event of its own, so jobs interleave between any two of them. Ratios are
    compared as exact rationals. */
module Flow {

  /** Where a job is in `flow_init_job`, `flow_threshold_exceeded` or `flow_exit_job`. */
  datatype Phase =
    | Absent               // not in the flow
    | Joining              // reference taken, weight not yet added
    | Running              // between two calls
    | Sampled(seen: int)   // shared counter loaded
    | Passed               // found not to exceed its share
    | Half                 // shared counter incremented, own counter not yet
    | Leaving              // own count taken out of the shared counter
    | Left                 // weight taken out as well

  datatype Job = Job(weight: nat, count: nat, phase: Phase)

  /** One flow; its storage exists while `refs > 0`. */
  datatype Flow = Flow(refs: int, counter: int, total: int, jobs: seq<Job>)

  datatype Event =
    | Join(i: nat, weight: nat)
    | AddWeight(i: nat)
    | LoadCounter(i: nat)
    | Decide(i: nat)
    | AddShared(i: nat)
    | AddOwn(i: nat)
    | Leave(i: nat)
    | DropWeight(i: nat)
    | DropRef(i: nat)

  /** What job `j` has put into the shared counter. */
  function Contribution(j: Job): int {
    if j.phase.Absent? || j.phase.Leaving? || j.phase.Left? then 0
    else if j.phase.Half? then j.count + 1 else j.count
  }

  /** The count a job compares with the shared counter. */
  function Own(j: Job): int {
    if j.phase.Absent? || j.phase.Leaving? || j.phase.Left? then 0 else j.count
  }

  predicate Registered(j: Job) {
    !j.phase.Absent? && !j.phase.Joining? && !j.phase.Left?
  }

  function Weight(j: Job): int {
    if Registered(j) then j.weight else 0
  }

  function Reference(j: Job): int {
    if j.phase.Absent? then 0 else 1
  }

  /** `count / counter > weight / total`, multiplied out. */
  predicate Exceeds(count: int, weight: int, counter: int, total: int) {
    count * total > weight * counter
  }

  /** The flow lock is held by a job inside `flow_put`. */
  ghost predicate LockFree(f: Flow) {
    forall k :: 0 <= k < |f.jobs| ==> !f.jobs[k].phase.Leaving? && !f.jobs[k].phase.Left?
  }

  predicate At(f: Flow, i: nat, p: Phase) {
    i < |f.jobs| && f.jobs[i].phase == p
  }

  ghost predicate Enabled(f: Flow, e: Event) {
    match e
    case Join(i, w) => At(f, i, Absent) && w > 0 && LockFree(f)
    case AddWeight(i) => At(f, i, Joining)
    case LoadCounter(i) => At(f, i, Running)
    case Decide(i) => i < |f.jobs| && f.jobs[i].phase.Sampled?
    case AddShared(i) => At(f, i, Passed)
    case AddOwn(i) => At(f, i, Half)
    case Leave(i) => At(f, i, Running) && LockFree(f)
    case DropWeight(i) => At(f, i, Leaving)
    case DropRef(i) => At(f, i, Left)
  }

  function Move(f: Flow, i: nat, p: Phase): Flow
    requires i < |f.jobs|
  {
    f.(jobs := f.jobs[i := f.jobs[i].(phase := p)])
  }

  ghost function Apply(f: Flow, e: Event): Flow
    requires Enabled(f, e)
  {
    match e
    case Join(i, w) =>
      var g := if f.refs == 0 then f.(counter := 1, total := 0) else f;
      g.(refs := g.refs + 1, jobs := g.jobs[i := Job(w, 0, Joining)])
    case AddWeight(i) => Move(f.(total := f.total + f.jobs[i].weight), i, Running)
    case LoadCounter(i) => Move(f, i, Sampled(f.counter))
    case Decide(i) =>
      var j := f.jobs[i];
      Move(f, i, if Exceeds(j.count, j.weight, j.phase.seen, f.total) then Running else Passed)
    case AddShared(i) => Move(f.(counter := f.counter + 1), i, Half)
    case AddOwn(i) =>
      f.(jobs := f.jobs[i := f.jobs[i].(count := f.jobs[i].count + 1, phase := Running)])
    case Leave(i) => Move(f.(counter := f.counter - f.jobs[i].count), i, Leaving)
    case DropWeight(i) => Move(f.(total := f.total - f.jobs[i].weight), i, Left)
    case DropRef(i) => Move(f.(refs := f.refs - 1), i, Absent)
  }

  ghost function Sum(xs: seq<int>): int {
    if xs == [] then 0 else xs[0] + Sum(xs[1..])
  }

  ghost function Each(jobs: seq<Job>, f: Job -> int): (xs: seq<int>)
    ensures |xs| == |jobs| && forall k :: 0 <= k < |xs| ==> xs[k] == f(jobs[k])
  {
    seq(|jobs|, k requires 0 <= k < |jobs| => f(jobs[k]))
  }

  lemma {:induction false} SumUpdate(xs: seq<int>, i: nat, v: int)
    requires i < |xs|
    ensures Sum(xs[i := v]) == Sum(xs) - xs[i] + v
  {
    if i == 0 {
      assert xs[i := v][1..] == xs[1..];
    } else {
      SumUpdate(xs[1..], i - 1, v);
      assert xs[i := v][1..] == xs[1..][i - 1 := v];
    }
  }

  /** Replacing one job changes a total by the difference that job makes. */
  lemma EachUpdate(jobs: seq<Job>, i: nat, j: Job, f: Job -> int)
    requires i < |jobs|
    ensures Sum(Each(jobs[i := j], f)) == Sum(Each(jobs, f)) - f(jobs[i]) + f(j)
  {
    SumUpdate(Each(jobs, f), i, f(j));
    assert Each(jobs[i := j], f) == Each(jobs, f)[i := f(j)];
  }

  /** Conservation: the shared counter is one plus what the members put in, the total is
      the weight of the registered members, the references count the members. */
  ghost predicate Conserved(f: Flow) {
    && f.refs == Sum(Each(f.jobs, Reference))
    && (f.refs > 0 ==> f.counter == 1 + Sum(Each(f.jobs, Contribution)))
    && (f.refs > 0 ==> f.total == Sum(Each(f.jobs, Weight)))
    && forall k :: 0 <= k < |f.jobs| ==> JobOk(f.jobs[k])
  }

  predicate JobOk(j: Job) {
    (Registered(j) ==> j.weight > 0) && (j.phase.Joining? ==> j.weight > 0 && j.count == 0)
  }

  lemma {:induction false} SumNonNegative(xs: seq<int>, i: nat)
    requires i < |xs| && forall k :: 0 <= k < |xs| ==> xs[k] >= 0
    ensures 0 <= xs[i] <= Sum(xs)
  {
    SumAtLeastZero(xs[1..]);
    if i > 0 {
      SumNonNegative(xs[1..], i - 1);
    }
  }

  lemma {:induction false} SumAtLeastZero(xs: seq<int>)
    requires forall k :: 0 <= k < |xs| ==> xs[k] >= 0
    ensures Sum(xs) >= 0
  {
    if xs != [] {
      SumAtLeastZero(xs[1..]);
    }
  }

  lemma {:induction false} SumZero(xs: seq<int>)
    requires forall k :: 0 <= k < |xs| ==> xs[k] == 0
    ensures Sum(xs) == 0
  {
    if xs != [] {
      SumZero(xs[1..]);
    }
  }

  /** With no references left nobody is in the flow. */
  lemma NobodyLeft(f: Flow)
    requires Conserved(f) && f.refs == 0
    ensures forall k :: 0 <= k < |f.jobs| ==> f.jobs[k].phase.Absent?
    ensures Sum(Each(f.jobs, Contribution)) == 0 && Sum(Each(f.jobs, Weight)) == 0
  {
    forall k | 0 <= k < |f.jobs| ensures f.jobs[k].phase.Absent? {
      SumNonNegative(Each(f.jobs, Reference), k);
    }
    SumZero(Each(f.jobs, Contribution));
    SumZero(Each(f.jobs, Weight));
  }

  lemma JobChange(f: Flow, i: nat, j: Job)
    requires i < |f.jobs|
    ensures var jobs := f.jobs[i := j];
            && Sum(Each(jobs, Reference)) == Sum(Each(f.jobs, Reference)) - Reference(f.jobs[i]) + Reference(j)
            && Sum(Each(jobs, Contribution))
               == Sum(Each(f.jobs, Contribution)) - Contribution(f.jobs[i]) + Contribution(j)
            && Sum(Each(jobs, Weight)) == Sum(Each(f.jobs, Weight)) - Weight(f.jobs[i]) + Weight(j)
  {
    EachUpdate(f.jobs, i, j, Reference);
    EachUpdate(f.jobs, i, j, Contribution);
    EachUpdate(f.jobs, i, j, Weight);
  }

  lemma MemberMeansRefs(f: Flow, i: nat)
    requires Conserved(f) && i < |f.jobs| && !f.jobs[i].phase.Absent?
    ensures f.refs > 0
  {
    SumNonNegative(Each(f.jobs, Reference), i);
  }

  lemma ApplyConserves(f: Flow, e: Event)
    requires Conserved(f) && Enabled(f, e)
    ensures Conserved(Apply(f, e))
  {
    var g := Apply(f, e);
    JobChange(f, e.i, g.jobs[e.i]);
    SumAtLeastZero(Each(f.jobs, Reference));
    if e.Join? {
      if f.refs == 0 {
        NobodyLeft(f);
      }
    } else {
      MemberMeansRefs(f, e.i);
    }
  }

  ghost predicate Run(f: Flow, events: seq<Event>)
    decreases |events|
  {
    events == [] || (Enabled(f, events[0]) && Run(Apply(f, events[0]), events[1..]))
  }

  ghost function After(f: Flow, events: seq<Event>): Flow
    requires Run(f, events)
    decreases |events|
  {
    if events == [] then f else After(Apply(f, events[0]), events[1..])
  }

  lemma {:induction false} RunConserves(f: Flow, events: seq<Event>)
    requires Conserved(f) && Run(f, events)
    ensures Conserved(After(f, events))
    decreases |events|
  {
    if events != [] {
      ApplyConserves(f, events[0]);
      RunConserves(Apply(f, events[0]), events[1..]);
    }
  }

  /** The events of others leave a job as it is. */
  lemma {:induction false} OthersLeaveJob(f: Flow, events: seq<Event>, i: nat)
    requires Run(f, events) && i < |f.jobs| && forall k :: 0 <= k < |events| ==> events[k].i != i
    ensures i < |After(f, events).jobs| && After(f, events).jobs[i] == f.jobs[i]
    decreases |events|
  {
    if events != [] {
      assert Apply(f, events[0]).jobs[i] == f.jobs[i];
      OthersLeaveJob(Apply(f, events[0]), events[1..], i);
    }
  }

  /** Whatever others do between a job's look at the counter and its decision, it goes on
      exactly if its count does not exceed its share of the counter it saw. */
  lemma DecidedOnSample(f: Flow, events: seq<Event>, i: nat)
    requires At(f, i, Running) && Run(Apply(f, LoadCounter(i)), events)
    requires forall k :: 0 <= k < |events| ==> events[k].i != i
    ensures var g := After(Apply(f, LoadCounter(i)), events);
            && Enabled(g, Decide(i))
            && (At(Apply(g, Decide(i)), i, Passed) <==> !Exceeds(f.jobs[i].count, f.jobs[i].weight, f.counter, g.total))
            && (At(Apply(g, Decide(i)), i, Running) <==> Exceeds(f.jobs[i].count, f.jobs[i].weight, f.counter, g.total))
  {
    OthersLeaveJob(Apply(f, LoadCounter(i)), events, i);
  }

  /** A flow nobody has joined, with room for `n` jobs. */
  ghost function Unused(n: nat): Flow {
    Flow(0, 0, 0, seq(n, _ => Job(0, 0, Absent)))
  }

  /** In every run from an unused flow the totals are conserved, and whenever no job is
      half-way out and some job can run, one that can run is not throttled. */
  lemma EveryRun(n: nat, events: seq<Event>)
    requires Run(Unused(n), events)
    ensures var f := After(Unused(n), events);
            && Conserved(f)
            && (NobodyLeaving(f) && (exists i :: 0 <= i < |f.jobs| && CanRun(f.jobs[i])) ==>
                 exists k :: 0 <= k < |f.jobs| && CanRun(f.jobs[k]) && !Throttled(f, k))
  {
    SumZero(Each(Unused(n).jobs, Reference));
    RunConserves(Unused(n), events);
    var f := After(Unused(n), events);
    if i :| NobodyLeaving(f) && 0 <= i < |f.jobs| && CanRun(f.jobs[i]) {
      SomeoneMayRun(f, i);
    }
  }

  /** A member that has not begun to leave. */
  predicate CanRun(j: Job) {
    Registered(j) && !j.phase.Leaving?
  }

  ghost predicate NobodyLeaving(f: Flow) {
    forall k :: 0 <= k < |f.jobs| ==> !f.jobs[k].phase.Leaving?
  }

  /** The assertion in `flow_put`: whoever drops the last reference finds the counter back
      at one. */
  lemma LastPutSeesOne(f: Flow, i: nat)
    requires Conserved(f) && At(f, i, Left) && f.refs == 1
    ensures f.counter == 1 && f.total == 0
  {
    var g := Apply(f, DropRef(i));
    ApplyConserves(f, DropRef(i));
    NobodyLeft(g);
    JobChange(f, i, g.jobs[i]);
  }

  ghost predicate Throttled(f: Flow, k: nat)
    requires k < |f.jobs|
  {
    Exceeds(Own(f.jobs[k]), f.jobs[k].weight, f.counter, f.total)
  }

  lemma {:induction false} SumsOrdered(jobs: seq<Job>, t: int, c: int)
    requires forall k :: 0 <= k < |jobs| ==> Contribution(jobs[k]) * t >= Weight(jobs[k]) * c
    ensures Sum(Each(jobs, Contribution)) * t >= Sum(Each(jobs, Weight)) * c
  {
    if jobs != [] {
      SumsOrdered(jobs[1..], t, c);
      assert Each(jobs, Contribution)[1..] == Each(jobs[1..], Contribution);
      assert Each(jobs, Weight)[1..] == Each(jobs[1..], Weight);
      Distribute(Contribution(jobs[0]), Sum(Each(jobs[1..], Contribution)), t);
      Distribute(Weight(jobs[0]), Sum(Each(jobs[1..], Weight)), c);
    }
  }

  lemma Distribute(a: int, b: int, t: int)
    ensures (a + b) * t == a * t + b * t
  {
  }

  /** A throttled job has put in at least its share. */
  lemma ThrottledIsAhead(f: Flow, k: nat)
    requires k < |f.jobs| && f.total > 0 && (Registered(f.jobs[k]) ==> Throttled(f, k))
    requires f.counter > 0
    ensures Contribution(f.jobs[k]) * f.total >= Weight(f.jobs[k]) * f.counter
  {
    var j := f.jobs[k];
    if j.phase.Half? {
      Distribute(j.count, 1, f.total);
    } else if !Registered(j) {
      assert Weight(j) * f.counter == 0;
    }
  }

  /** While nobody is half-way out, the jobs that can run are not all throttled at once. */
  lemma SomeoneMayRun(f: Flow, i: nat)
    requires Conserved(f) && NobodyLeaving(f) && i < |f.jobs| && CanRun(f.jobs[i])
    ensures exists k :: 0 <= k < |f.jobs| && CanRun(f.jobs[k]) && !Throttled(f, k)
  {
    MemberMeansRefs(f, i);
    SumNonNegative(Each(f.jobs, Weight), i);
    SumAtLeastZero(Each(f.jobs, Contribution));
    Distribute(f.counter, -1, f.total);
    if forall k :: 0 <= k < |f.jobs| && CanRun(f.jobs[k]) ==> Throttled(f, k) {
      forall k | 0 <= k < |f.jobs| ensures Contribution(f.jobs[k]) * f.total >= Weight(f.jobs[k]) * f.counter {
        ThrottledIsAhead(f, k);
      }
      SumsOrdered(f.jobs, f.total, f.counter);
    }
  }

  lemma {:induction false} SumsStrict(jobs: seq<Job>, o: nat, t: int, c: int)
    requires o < |jobs| && Contribution(jobs[o]) * t > Weight(jobs[o]) * c
    requires forall k :: 0 <= k < |jobs| ==> Contribution(jobs[k]) * t >= Weight(jobs[k]) * c
    ensures Sum(Each(jobs, Contribution)) * t > Sum(Each(jobs, Weight)) * c
  {
    assert Each(jobs, Contribution)[1..] == Each(jobs[1..], Contribution);
    assert Each(jobs, Weight)[1..] == Each(jobs[1..], Weight);
    Distribute(Contribution(jobs[0]), Sum(Each(jobs[1..], Contribution)), t);
    Distribute(Weight(jobs[0]), Sum(Each(jobs[1..], Weight)), c);
    if o == 0 {
      SumsOrdered(jobs[1..], t, c);
    } else {
      SumsStrict(jobs[1..], o - 1, t, c);
    }
  }

  /** While job `l` is leaving, all the others can be throttled at once, but only while the
      weight still registered for `l`, times the counter, exceeds the total. */
  lemma OthersThrottledMidExit(f: Flow, l: nat, o: nat)
    requires Conserved(f) && At(f, l, Leaving) && o < |f.jobs| && o != l && Registered(f.jobs[o])
    requires forall k :: 0 <= k < |f.jobs| && k != l && Registered(f.jobs[k]) ==> Throttled(f, k)
    ensures f.jobs[l].weight * f.counter > f.total
  {
    MemberMeansRefs(f, l);
    SumNonNegative(Each(f.jobs, Weight), l);
    SumAtLeastZero(Each(f.jobs, Contribution));
    var g := Move(f, l, Left);
    JobChange(f, l, g.jobs[l]);
    forall k | 0 <= k < |g.jobs| ensures Contribution(g.jobs[k]) * f.total >= Weight(g.jobs[k]) * f.counter {
      if k != l {
        ThrottledIsAhead(f, k);
      }
    }
    ThrottledIsStrictlyAhead(f, o);
    SumsStrict(g.jobs, o, f.total, f.counter);
    ShareLeft(f.counter, f.total, f.jobs[l].weight);
  }

  lemma ThrottledIsStrictlyAhead(f: Flow, k: nat)
    requires k < |f.jobs| && f.total > 0 && Registered(f.jobs[k]) && Throttled(f, k) && f.counter > 0
    ensures Contribution(f.jobs[k]) * f.total > Weight(f.jobs[k]) * f.counter
  {
    if f.jobs[k].phase.Half? {
      Distribute(f.jobs[k].count, 1, f.total);
    }
  }

  /** Job `o` is the only registered one besides `l`. */
  ghost predicate OnlyOther(f: Flow, l: nat, o: nat) {
    o < |f.jobs| && CanRun(f.jobs[o]) && forall k :: 0 <= k < |f.jobs| && k != l && k != o ==> !Registered(f.jobs[k])
  }

  /** With one other job, between calls or at its check, that is exactly when it is throttled. */
  lemma OnlyOtherThrottledIff(f: Flow, l: nat, o: nat)
    requires Conserved(f) && At(f, l, Leaving) && o != l && OnlyOther(f, l, o) && !f.jobs[o].phase.Half?
    ensures Throttled(f, o) <==> f.jobs[l].weight * f.counter > f.total
  {
    MemberMeansRefs(f, l);
    var g := Move(f, l, Left);
    JobChange(f, l, g.jobs[l]);
    var h := Move(g, o, Left);
    JobChange(g, o, h.jobs[o]);
    SumZero(Each(h.jobs, Weight));
    SumZero(Each(h.jobs, Contribution));
    assert f.total == f.jobs[l].weight + f.jobs[o].weight && f.counter == 1 + f.jobs[o].count;
    ShareOfTwo(f.jobs[o].count, f.jobs[o].weight, f.jobs[l].weight);
  }

  lemma ShareOfTwo(n: int, w: int, leaving: int)
    ensures n * (leaving + w) > w * (1 + n) <==> leaving * (1 + n) > leaving + w
  {
  }

  lemma ShareLeft(c: int, t: int, w: int)
    requires (c - 1) * t > (t - w) * c
    ensures w * c > t
  {
  }

  ghost predicate Reaches(f: Flow, events: seq<Event>, g: Flow) {
    Run(f, events) && After(f, events) == g
  }

  lemma {:induction false} Chain(f: Flow, first: seq<Event>, g: Flow, rest: seq<Event>, h: Flow)
    requires Reaches(f, first, g) && Reaches(g, rest, h)
    ensures Reaches(f, first + rest, h)
    decreases |first|
  {
    if first == [] {
      assert first + rest == rest;
    } else {
      assert (first + rest)[1..] == first[1..] + rest;
      Chain(Apply(f, first[0]), first[1..], g, rest, h);
    }
  }

  lemma One(f: Flow, e: Event)
    requires Enabled(f, e)
    ensures Reaches(f, [e], Apply(f, e))
  {
    assert [e][1..] == [];
  }

  /** A call of `flow_threshold_exceeded` that nobody disturbs and that lets the job go. */
  lemma Passes(f: Flow, i: nat) returns (events: seq<Event>)
    requires At(f, i, Running) && !Throttled(f, i)
    ensures var jobs := f.jobs[i := f.jobs[i].(count := f.jobs[i].count + 1)];
            Reaches(f, events, f.(counter := f.counter + 1, jobs := jobs))
  {
    var f1 := Apply(f, LoadCounter(i));
    var f2 := Apply(f1, Decide(i));
    var f3 := Apply(f2, AddShared(i));
    var f4 := Apply(f3, AddOwn(i));
    One(f, LoadCounter(i));
    One(f1, Decide(i));
    One(f2, AddShared(i));
    One(f3, AddOwn(i));
    Chain(f, [LoadCounter(i)], f1, [Decide(i)], f2);
    Chain(f, [LoadCounter(i)] + [Decide(i)], f2, [AddShared(i)], f3);
    Chain(f, [LoadCounter(i)] + [Decide(i)] + [AddShared(i)], f3, [AddOwn(i)], f4);
    events := [LoadCounter(i)] + [Decide(i)] + [AddShared(i)] + [AddOwn(i)];
    assert f4.jobs == f.jobs[i := f.jobs[i].(count := f.jobs[i].count + 1)];
  }

  /** ... which does happen: of two jobs of weight one, the first passes twice and the second
      leaves; between the second's two subtractions the first, the only one left, is throttled. */
  lemma MidExitStallReached()
    ensures exists events, f: Flow :: Reaches(Unused(2), events, f) && |f.jobs| == 2 && At(f, 1, Leaving)
                                      && Registered(f.jobs[0]) && Throttled(f, 0)
  {
    var f0, e0 := TwoJoined();
    var e1 := Passes(f0, 0);
    var f1 := Flow(2, 2, 2, [Job(1, 1, Running), Job(1, 0, Running)]);
    Chain(Unused(2), e0, f0, e1, f1);
    var e2 := Passes(f1, 0);
    var f2 := Flow(2, 3, 2, [Job(1, 2, Running), Job(1, 0, Running)]);
    Chain(Unused(2), e0 + e1, f1, e2, f2);
    var f3 := Flow(2, 3, 2, [Job(1, 2, Running), Job(1, 0, Leaving)]);
    One(f2, Leave(1));
    Chain(Unused(2), e0 + e1 + e2, f2, [Leave(1)], f3);
    assert Reaches(Unused(2), e0 + e1 + e2 + [Leave(1)], f3);
  }

  lemma TwoJoined() returns (f: Flow, events: seq<Event>)
    ensures f == Flow(2, 1, 2, [Job(1, 0, Running), Job(1, 0, Running)]) && Reaches(Unused(2), events, f)
  {
    var u := Unused(2);
    assert u.jobs == [Job(0, 0, Absent), Job(0, 0, Absent)];
    var f1 := Flow(1, 1, 0, [Job(1, 0, Joining), Job(0, 0, Absent)]);
    var f2 := Flow(1, 1, 1, [Job(1, 0, Running), Job(0, 0, Absent)]);
    var f3 := Flow(2, 1, 1, [Job(1, 0, Running), Job(1, 0, Joining)]);
    f := Flow(2, 1, 2, [Job(1, 0, Running), Job(1, 0, Running)]);
    One(u, Join(0, 1));
    One(f1, AddWeight(0));
    One(f2, Join(1, 1));
    One(f3, AddWeight(1));
    Chain(u, [Join(0, 1)], f1, [AddWeight(0)], f2);
    Chain(u, [Join(0, 1)] + [AddWeight(0)], f2, [Join(1, 1)], f3);
    Chain(u, [Join(0, 1)] + [AddWeight(0)] + [Join(1, 1)], f3, [AddWeight(1)], f);
    events := [Join(0, 1)] + [AddWeight(0)] + [Join(1, 1)] + [AddWeight(1)];
  }

  /** Fixed membership: every job is registered and only increments and checks happen. */
  predicate Steady(e: Event) {
    e.LoadCounter? || e.Decide? || e.AddShared? || e.AddOwn?
  }

  ghost predicate SteadyRun(f: Flow, events: seq<Event>) {
    Run(f, events) && forall k :: 0 <= k < |events| ==> Steady(events[k])
  }

  /** The upper half of fairness, with the obligations a job carries between its checks. */
  predicate JobFair(j: Job, counter: int, total: int) {
    && (j.phase.Running? || j.phase.Sampled? || j.phase.Passed? || j.phase.Half?)
    && (j.phase.Sampled? ==> j.phase.seen <= counter)
    && (j.phase.Passed? ==> j.count * total <= j.weight * counter)
    && Ahead(j, counter, total) <= total - j.weight
  }

  /** How far job `j` is ahead of its share, scaled by counter and total weight. */
  function Ahead(j: Job, counter: int, total: int): int {
    Contribution(j) * total - j.weight * counter
  }

  ghost predicate AllFair(f: Flow) {
    && Conserved(f) && f.refs > 0 && f.total > 0
    && forall k :: 0 <= k < |f.jobs| ==> JobFair(f.jobs[k], f.counter, f.total)
  }

  lemma WeightTimesStep(w: nat, c: int)
    ensures w * (c + 1) == w * c + w
  {
  }

  lemma JobFairStays(j: Job, c: int, t: int)
    requires JobFair(j, c, t)
    ensures JobFair(j, c + 1, t)
  {
    WeightTimesStep(j.weight, c);
  }

  lemma ScaleMono(w: nat, a: int, b: int)
    requires a <= b
    ensures w * a <= w * b
  {
  }

  lemma PassedMayAdd(j: Job, c: int, t: int)
    requires j.phase.Passed? && JobFair(j, c, t)
    ensures JobFair(j.(phase := Half), c + 1, t)
  {
    WeightTimesStep(j.weight, c);
    Distribute(j.count, 1, t);
  }

  lemma MovedJobFair(f: Flow, e: Event)
    requires AllFair(f) && Enabled(f, e) && Steady(e)
    ensures var g := Apply(f, e); JobFair(g.jobs[e.i], g.counter, g.total)
  {
    var j := f.jobs[e.i];
    assert JobFair(j, f.counter, f.total);
    match e
    case LoadCounter(i) =>
    case Decide(i) => ScaleMono(j.weight, j.phase.seen, f.counter);
    case AddShared(i) => PassedMayAdd(j, f.counter, f.total);
    case AddOwn(i) =>
  }

  lemma StepKeepsFair(f: Flow, e: Event)
    requires AllFair(f) && Enabled(f, e) && Steady(e)
    ensures AllFair(Apply(f, e))
  {
    var g := Apply(f, e);
    ApplyConserves(f, e);
    MovedJobFair(f, e);
    forall k | 0 <= k < |g.jobs| ensures JobFair(g.jobs[k], g.counter, g.total) {
      if k != e.i && e.AddShared? {
        JobFairStays(f.jobs[k], f.counter, f.total);
      }
    }
  }

  lemma {:induction false} SteadyRunFair(f: Flow, events: seq<Event>)
    requires AllFair(f) && SteadyRun(f, events)
    ensures AllFair(After(f, events)) && |After(f, events).jobs| == |f.jobs|
    decreases |events|
  {
    if events != [] {
      StepKeepsFair(f, events[0]);
      SteadyRunFair(Apply(f, events[0]), events[1..]);
    }
  }

  ghost function Aheads(jobs: seq<Job>, c: int, t: int): (xs: seq<int>)
    ensures |xs| == |jobs| && forall k :: 0 <= k < |xs| ==> xs[k] == Ahead(jobs[k], c, t)
  {
    seq(|jobs|, k requires 0 <= k < |jobs| => Ahead(jobs[k], c, t))
  }

  lemma {:induction false} AheadsSum(jobs: seq<Job>, c: int, t: int)
    requires forall k :: 0 <= k < |jobs| ==> Registered(jobs[k])
    ensures Sum(Aheads(jobs, c, t)) == Sum(Each(jobs, Contribution)) * t - Sum(Each(jobs, Weight)) * c
  {
    if jobs != [] {
      AheadsSum(jobs[1..], c, t);
      assert Aheads(jobs, c, t)[1..] == Aheads(jobs[1..], c, t);
      assert Each(jobs, Contribution)[1..] == Each(jobs[1..], Contribution);
      assert Each(jobs, Weight)[1..] == Each(jobs[1..], Weight);
      Distribute(Contribution(jobs[0]), Sum(Each(jobs[1..], Contribution)), t);
      Distribute(Weight(jobs[0]), Sum(Each(jobs[1..], Weight)), c);
    }
  }

  /** If every job is at most `total - weight` ahead, the sum of all but one is bounded. */
  lemma {:induction false} AheadsBounded(jobs: seq<Job>, c: int, t: int)
    requires forall k :: 0 <= k < |jobs| ==> Registered(jobs[k]) && Ahead(jobs[k], c, t) <= t - jobs[k].weight
    ensures Sum(Aheads(jobs, c, t)) <= |jobs| * t - Sum(Each(jobs, Weight))
  {
    if jobs != [] {
      AheadsBounded(jobs[1..], c, t);
      assert Aheads(jobs, c, t)[1..] == Aheads(jobs[1..], c, t);
      assert Each(jobs, Weight)[1..] == Each(jobs[1..], Weight);
      Distribute(|jobs| - 1, 1, t);
    }
  }

  lemma {:induction false} OneAgainstTheRest(jobs: seq<Job>, i: nat, c: int, t: int)
    requires i < |jobs|
    requires forall k :: 0 <= k < |jobs| ==> Registered(jobs[k]) && Ahead(jobs[k], c, t) <= t - jobs[k].weight
    ensures Sum(Aheads(jobs, c, t)) - Ahead(jobs[i], c, t)
            <= (|jobs| - 1) * t - Sum(Each(jobs, Weight)) + jobs[i].weight
  {
    assert Aheads(jobs, c, t)[1..] == Aheads(jobs[1..], c, t);
    assert Each(jobs, Weight)[1..] == Each(jobs[1..], Weight);
    if i == 0 {
      AheadsBounded(jobs[1..], c, t);
    } else {
      OneAgainstTheRest(jobs[1..], i - 1, c, t);
      Distribute(|jobs| - 2, 1, t);
    }
  }

  /** Two-sided fairness, in every reachable state of a flow with fixed membership and even
      though a job's check, shared increment and own increment are separate steps: each of
      `n` jobs is at most `total - weight` ahead of its share and at most
      `(n - 1) * total + weight` behind it. A job between its two increments is taken to
      have made both. */
  lemma FlowIsFair(f: Flow, events: seq<Event>, i: nat)
    requires AllFair(f) && SteadyRun(f, events) && i < |f.jobs|
    ensures var g := After(f, events);
            && |g.jobs| == |f.jobs|
            && FairShare(g.jobs[i], |f.jobs|, g.counter, g.total)
  {
    SteadyRunFair(f, events);
    FairImpliesShare(After(f, events), i);
  }

  predicate FairShare(j: Job, n: nat, c: int, t: int) {
    0 - (n - 1) * t - j.weight <= Ahead(j, c, t) <= t - j.weight
  }

  lemma FairImpliesShare(g: Flow, i: nat)
    requires AllFair(g) && i < |g.jobs|
    ensures FairShare(g.jobs[i], |g.jobs|, g.counter, g.total)
  {
    AheadsSum(g.jobs, g.counter, g.total);
    OneAgainstTheRest(g.jobs, i, g.counter, g.total);
    SumOfAheads(g.counter, g.total);
  }

  lemma SumOfAheads(c: int, t: int)
    ensures (c - 1) * t - t * c == 0 - t
  {
  }

  /** A flow whose members have all just joined starts out fair. */
  lemma FreshFlowIsFair(f: Flow)
    requires Conserved(f) && f.jobs != []
    requires forall k :: 0 <= k < |f.jobs| ==> f.jobs[k].phase.Running? && f.jobs[k].count == 0
    ensures AllFair(f) && f.counter == 1
  {
    MemberMeansRefs(f, 0);
    SumZero(Each(f.jobs, Contribution));
    forall k | 0 <= k < |f.jobs| ensures f.jobs[k].weight <= f.total {
      SumNonNegative(Each(f.jobs, Weight), k);
    }
  }
}
