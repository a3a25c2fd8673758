/** The queue-depth search behind `latency_target`: depth doubles until a latency window
    fails and is then bisected. One step per latency window. */
module LatencyTarget {

  datatype Search = Search(qd: nat, low: nat, high: nat, stable: nat, endRun: bool, done: bool)

  /** `lat_target_init` on a fresh job. */
  function Init(depth: nat): Search {
    Search(1, 1, depth, 0, false, false)
  }

  /** `__lat_target_failed`: halve the distance to the last depth that passed. */
  function Failed(s: Search): Search
    requires s.low >= 1
  {
    if s.qd == 1 then s
    else
      var low := if s.qd == s.low then s.low - 1 else s.low;
      s.(high := s.qd, low := low, qd := (s.qd + low) / 2, stable := 0)
  }

  /** `lat_target_success`. */
  function Succeeded(s: Search, depth: nat, latencyRun: bool): Search {
    var nearHigh := s.qd + 1 == s.high;
    var bump := nearHigh && s.stable + 1 >= 3;
    var high := if bump then s.high + 1 else s.high;
    var stable := if bump then 0 else if nearHigh then s.stable + 1 else s.stable;
    var up := if high != depth then (s.qd + high) / 2 else s.qd * 2;
    var qd := if up > depth then depth else up;
    var settled := !latencyRun && qd == s.qd;
    Search(qd, s.qd, high, stable, s.endRun || settled, s.done || (settled && s.endRun))
  }

  predicate InRange(s: Search, depth: nat) {
    1 <= s.low <= s.qd <= s.high && s.qd <= depth && s.high <= depth + 2
  }

  function Window(s: Search, ok: bool, depth: nat, latencyRun: bool): Search
    requires s.low >= 1
  {
    if ok then Succeeded(s, depth, latencyRun) else Failed(s)
  }

  lemma WindowInRange(s: Search, ok: bool, depth: nat, latencyRun: bool)
    requires InRange(s, depth)
    ensures InRange(Window(s, ok, depth, latencyRun), depth)
  {
  }

  /** The search after a sequence of windows, `true` for one that met the target. Whatever
      the windows report, every depth used lies between one and the job's `iodepth` and
      inside the bracket, and the bracket overshoots by at most two. */
  function Windows(s: Search, oks: seq<bool>, depth: nat, latencyRun: bool): (r: Search)
    requires InRange(s, depth)
    ensures InRange(r, depth)
    decreases |oks|
  {
    if oks == [] then s
    else
      WindowInRange(s, oks[0], depth, latencyRun);
      Windows(Window(s, oks[0], depth, latencyRun), oks[1..], depth, latencyRun)
  }

  lemma {:induction false} DoneStays(s: Search, oks: seq<bool>, depth: nat, latencyRun: bool)
    requires InRange(s, depth) && s.done
    ensures Windows(s, oks, depth, latencyRun).done
    decreases |oks|
  {
    if oks != [] {
      WindowInRange(s, oks[0], depth, latencyRun);
      DoneStays(Window(s, oks[0], depth, latencyRun), oks[1..], depth, latencyRun);
    }
  }

  /** With `latency_run` off, `iodepth - qd + 2` windows that all meet the target end the
      search, one fewer when the final run has already begun. */
  lemma {:induction false} SuccessesEndSearch(s: Search, depth: nat, oks: seq<bool>)
    requires InRange(s, depth) && (forall i :: 0 <= i < |oks| ==> oks[i])
    requires |oks| >= depth - s.qd + (if s.endRun then 1 else 2)
    ensures Windows(s, oks, depth, false).done
    decreases |oks|
  {
    var s' := Window(s, oks[0], depth, false);
    WindowInRange(s, oks[0], depth, false);
    if s'.done {
      DoneStays(s', oks[1..], depth, false);
    } else {
      SuccessesEndSearch(s', depth, oks[1..]);
    }
  }

  /** With `latency_run` on the search never ends, whatever the windows report. */
  lemma {:induction false} LatencyRunNeverEnds(s: Search, oks: seq<bool>, depth: nat)
    requires InRange(s, depth)
    ensures Windows(s, oks, depth, true).endRun == s.endRun && Windows(s, oks, depth, true).done == s.done
    decreases |oks|
  {
    if oks != [] {
      WindowInRange(s, oks[0], depth, true);
      LatencyRunNeverEnds(Window(s, oks[0], depth, true), oks[1..], depth);
    }
  }

  /** Just below an upper end that failed, the search stays for two good windows and a third
      in a row lifts that end by one, so that the depth above is tried again. */
  lemma ThreeGoodWindowsLift(s: Search, depth: nat)
    requires InRange(s, depth) && s.qd + 1 == s.high < depth && s.stable == 0
    ensures var two := Windows(s, [true, true], depth, true);
            var three := Windows(s, [true, true, true], depth, true);
            && two.qd == s.qd && two.high == s.high
            && three.high == s.high + 1 && three.stable == 0
            && three.qd == (if three.high != depth then s.qd + 1 else if 2 * s.qd > depth then depth else 2 * s.qd)
  {
    var s1 := Window(s, true, depth, true);
    var s2 := Window(s1, true, depth, true);
    WindowInRange(s, true, depth, true);
    WindowInRange(s1, true, depth, true);
    WindowInRange(s2, true, depth, true);
    assert [true, true][1..] == [true] && [true][1..] == [] && [true, true, true][1..] == [true, true];
    var s3 := Window(s2, true, depth, true);
    assert Windows(s2, [], depth, true) == s2;
    assert Windows(s1, [true], depth, true) == s2;
    assert Windows(s2, [true], depth, true) == s3;
    assert Windows(s1, [true, true], depth, true) == s3;
  }

  /** As many windows that miss the target as the depth is above one bring it down to one. */
  lemma {:induction false} FailuresReachOne(s: Search, oks: seq<bool>, depth: nat, latencyRun: bool)
    requires InRange(s, depth) && (forall i :: 0 <= i < |oks| ==> !oks[i]) && |oks| >= s.qd - 1
    ensures Windows(s, oks, depth, latencyRun).qd == 1
    decreases |oks|
  {
    if oks != [] {
      WindowInRange(s, oks[0], depth, latencyRun);
      FailuresReachOne(Window(s, oks[0], depth, latencyRun), oks[1..], depth, latencyRun);
    }
  }

  /** How many of the windows are measured just below the upper end. */
  function NearTop(s: Search, oks: seq<bool>, depth: nat, latencyRun: bool): nat
    requires InRange(s, depth)
    decreases |oks|
  {
    if oks == [] then 0
    else
      WindowInRange(s, oks[0], depth, latencyRun);
      (if s.qd + 1 == s.high then 1 else 0)
      + NearTop(Window(s, oks[0], depth, latencyRun), oks[1..], depth, latencyRun)
  }

  /** Among windows that all meet the target every third one measured just below the upper
      end lifts it by one; the others in between do not disturb the count. */
  lemma {:induction false} GoodWindowsAddUp(s: Search, oks: seq<bool>, depth: nat, latencyRun: bool)
    requires InRange(s, depth) && s.stable < 3 && forall i :: 0 <= i < |oks| ==> oks[i]
    ensures var r := Windows(s, oks, depth, latencyRun);
            r.stable < 3 && 3 * r.high + r.stable == 3 * s.high + s.stable + NearTop(s, oks, depth, latencyRun)
    decreases |oks|
  {
    if oks != [] {
      WindowInRange(s, oks[0], depth, latencyRun);
      GoodWindowsAddUp(Window(s, oks[0], depth, latencyRun), oks[1..], depth, latencyRun);
    }
  }

  /** Window `i` meets the target and leaves the depth as it is. */
  predicate Settles(s: Search, oks: seq<bool>, i: nat, depth: nat, latencyRun: bool)
    requires InRange(s, depth) && i < |oks|
  {
    oks[i] && Windows(s, oks[..i + 1], depth, latencyRun).qd == Windows(s, oks[..i], depth, latencyRun).qd
  }

  lemma SettlesLater(s: Search, oks: seq<bool>, i: nat, depth: nat, latencyRun: bool)
    requires InRange(s, depth) && 1 <= i < |oks|
    ensures var s1 := Window(s, oks[0], depth, latencyRun);
            && InRange(s1, depth)
            && Windows(s, oks[..i], depth, latencyRun) == Windows(s1, oks[1..][..i - 1], depth, latencyRun)
            && (Settles(s, oks, i, depth, latencyRun) <==> Settles(s1, oks[1..], i - 1, depth, latencyRun))
  {
    WindowInRange(s, oks[0], depth, latencyRun);
    assert oks[..i][1..] == oks[1..][..i - 1];
    assert oks[..i + 1][1..] == oks[1..][..i];
  }

  lemma SettlesNow(s: Search, oks: seq<bool>, depth: nat, latencyRun: bool)
    requires InRange(s, depth) && oks != []
    ensures Settles(s, oks, 0, depth, latencyRun) <==> oks[0] && Window(s, true, depth, latencyRun).qd == s.qd
    ensures Windows(s, oks[..0], depth, latencyRun) == s
  {
    WindowInRange(s, oks[0], depth, latencyRun);
    var s1 := Window(s, oks[0], depth, latencyRun);
    assert oks[..1] == [oks[0]] && [oks[0]][1..] == [];
    assert Windows(s1, [], depth, latencyRun) == s1;
    assert Windows(s, [oks[0]], depth, latencyRun) == s1;
  }

  /** The final run begins only with a good window that leaves the depth as it is. */
  lemma {:induction false} FinalRunIsSettled(s: Search, oks: seq<bool>, depth: nat, latencyRun: bool) returns (i: nat)
    requires InRange(s, depth) && !s.endRun && Windows(s, oks, depth, latencyRun).endRun
    ensures i < |oks| && Settles(s, oks, i, depth, latencyRun)
    decreases |oks|
  {
    var s1 := Window(s, oks[0], depth, latencyRun);
    WindowInRange(s, oks[0], depth, latencyRun);
    if s1.endRun {
      i := 0;
      SettlesNow(s, oks, depth, latencyRun);
    } else {
      var j := FinalRunIsSettled(s1, oks[1..], depth, latencyRun);
      i := j + 1;
      SettlesLater(s, oks, i, depth, latencyRun);
    }
  }

  lemma {:induction false} EndIsConfirmed(s: Search, oks: seq<bool>, depth: nat, latencyRun: bool) returns (i: nat)
    requires InRange(s, depth) && !s.done && Windows(s, oks, depth, latencyRun).done
    ensures i < |oks| && Settles(s, oks, i, depth, latencyRun) && Windows(s, oks[..i], depth, latencyRun).endRun
    decreases |oks|
  {
    var s1 := Window(s, oks[0], depth, latencyRun);
    WindowInRange(s, oks[0], depth, latencyRun);
    if s1.done {
      i := 0;
      SettlesNow(s, oks, depth, latencyRun);
    } else {
      var j := EndIsConfirmed(s1, oks[1..], depth, latencyRun);
      i := j + 1;
      SettlesLater(s, oks, i, depth, latencyRun);
    }
  }

  /** A search ends only after two good windows that leave the depth as it is: one begins the
      final run and a later one confirms it. */
  lemma EndNeedsTwoSettled(s: Search, oks: seq<bool>, depth: nat, latencyRun: bool) returns (j: nat, i: nat)
    requires InRange(s, depth) && !s.endRun && !s.done && Windows(s, oks, depth, latencyRun).done
    ensures j < i < |oks| && Settles(s, oks, j, depth, latencyRun) && Settles(s, oks, i, depth, latencyRun)
  {
    i := EndIsConfirmed(s, oks, depth, latencyRun);
    j := FinalRunIsSettled(s, oks[..i], depth, latencyRun);
    assert oks[..i][..j] == oks[..j] && oks[..i][..j + 1] == oks[..j + 1];
  }

  /** A device that meets the target exactly at depths up to `limit`. */
  function OnDevice(s: Search, limit: nat, depth: nat, n: nat): (r: Search)
    requires InRange(s, depth)
    ensures InRange(r, depth)
    decreases n
  {
    if n == 0 then s
    else
      WindowInRange(s, s.qd <= limit, depth, false);
      OnDevice(Window(s, s.qd <= limit, depth, false), limit, depth, n - 1)
  }

  /** What holds before the search settles: the lower end passes, and the upper end either
      failed or is still the configured depth. */
  predicate Seeking(s: Search, limit: nat, depth: nat) {
    && InRange(s, depth) && !s.endRun && !s.done
    && s.low <= limit && s.high <= depth
    && (s.high < depth ==> limit < s.high && s.qd < s.high)
    && s.stable <= (if s.qd == depth then 1 else 0)
  }

  /** Windows still needed before the bracket itself shrinks. */
  function Rank(s: Search, depth: nat): nat {
    if s.qd == s.low then 2 else if s.qd == depth then 1 else 0
  }

  /** The search reaches the device's limit and stops there. */
  lemma {:induction false} SettlesFrom(s: Search, limit: nat, depth: nat) returns (n: nat)
    requires Seeking(s, limit, depth) && 1 <= limit <= depth && limit != depth - 1
    ensures OnDevice(s, limit, depth, n).done && OnDevice(s, limit, depth, n).qd == limit
    decreases s.high - s.low, Rank(s, depth)
  {
    var s1 := Window(s, s.qd <= limit, depth, false);
    WindowInRange(s, s.qd <= limit, depth, false);
    if s1.endRun {
      var s2 := Window(s1, s1.qd <= limit, depth, false);
      WindowInRange(s1, s1.qd <= limit, depth, false);
      assert OnDevice(s1, limit, depth, 1) == OnDevice(s2, limit, depth, 0);
      n := 2;
    } else {
      var m := SettlesFrom(s1, limit, depth);
      n := m + 1;
    }
  }

  /** The lower of the two depths the search swings between when the limit is `depth - 1`. */
  function Swing(depth: nat): Search
    requires depth >= 2
  {
    Search(depth - 1, depth - 1, depth, 0, false, false)
  }

  /** From there every second window brings the search back. */
  lemma {:induction false} SwingsForever(depth: nat, n: nat)
    requires depth >= 2
    ensures OnDevice(Swing(depth), depth - 1, depth, 2 * n) == Swing(depth)
    ensures OnDevice(Swing(depth), depth - 1, depth, 2 * n + 1).qd == depth
  {
    var s := Swing(depth);
    var up := Window(s, true, depth, false);
    WindowInRange(s, true, depth, false);
    assert up.qd == depth && Window(up, false, depth, false) == s;
    if n > 0 {
      SwingsForever(depth, n - 1);
      assert OnDevice(s, depth - 1, depth, 2 * n) == OnDevice(up, depth - 1, depth, 2 * n - 1);
      assert OnDevice(up, depth - 1, depth, 2 * n - 1) == OnDevice(s, depth - 1, depth, 2 * (n - 1));
      assert OnDevice(s, depth - 1, depth, 2 * n + 1) == OnDevice(up, depth - 1, depth, 2 * n);
      assert OnDevice(up, depth - 1, depth, 2 * n) == OnDevice(s, depth - 1, depth, 2 * (n - 1) + 1);
    } else {
      assert OnDevice(s, depth - 1, depth, 1) == OnDevice(up, depth - 1, depth, 0);
    }
  }

  /** And the search gets there. */
  lemma {:induction false} SwingReached(s: Search, depth: nat) returns (n: nat)
    requires depth >= 2 && Seeking(s, depth - 1, depth) && s.high == depth
    ensures OnDevice(s, depth - 1, depth, n) == Swing(depth)
    decreases s.high - s.low, if s == Swing(depth) then 0 else 1 + Rank(s, depth)
  {
    if s == Swing(depth) {
      n := 0;
    } else {
      WindowInRange(s, s.qd <= depth - 1, depth, false);
      var m := SwingReached(Window(s, s.qd <= depth - 1, depth, false), depth);
      n := m + 1;
    }
  }

  lemma {:induction false} NeverSettlesFrom(s: Search, depth: nat, n: nat)
    requires depth >= 2 && Seeking(s, depth - 1, depth) && s.high == depth
    ensures !OnDevice(s, depth - 1, depth, n).done
    decreases n
  {
    if n > 0 {
      WindowInRange(s, s.qd <= depth - 1, depth, false);
      NeverSettlesFrom(Window(s, s.qd <= depth - 1, depth, false), depth, n - 1);
    }
  }

  /** On a device that meets the target up to some depth `limit` and never beyond, the
      search ends at `limit` for every limit but one: with `limit == iodepth - 1` a failure
      at `iodepth` looks like no failure at all, and the search alternates forever. */
  lemma SettlesIffLimitNotOneBelow(limit: nat, depth: nat)
    requires 1 <= limit <= depth
    ensures (exists n :: OnDevice(Init(depth), limit, depth, n).done) <==> limit != depth - 1
    ensures limit != depth - 1 ==>
              exists n :: OnDevice(Init(depth), limit, depth, n).done
                       && OnDevice(Init(depth), limit, depth, n).qd == limit
  {
    if limit != depth - 1 {
      var n := SettlesFrom(Init(depth), limit, depth);
    } else {
      forall n ensures !OnDevice(Init(depth), limit, depth, n).done {
        NeverSettlesFrom(Init(depth), depth, n);
      }
    }
  }

  /** A device that misses the target even at depth one keeps the search there. */
  lemma {:induction false} HopelessDeviceStaysAtOne(depth: nat, n: nat)
    requires depth >= 1
    ensures OnDevice(Init(depth), 0, depth, n) == Init(depth)
  {
    if n > 0 {
      HopelessDeviceStaysAtOne(depth, n - 1);
    }
  }

  /** The controller as the source holds it: fields of the job updated in place. */
  class Controller {
    const depth: nat
    const latencyRun: bool
    var qd: nat
    var low: nat
    var high: nat
    var stable: nat
    var endRun: bool
    var done: bool

    function State(): Search
      reads this
    {
      Search(qd, low, high, stable, endRun, done)
    }

    constructor (depth: nat, latencyRun: bool)
      ensures this.depth == depth && this.latencyRun == latencyRun
      ensures State() == Init(depth)
    {
      this.depth := depth;
      this.latencyRun := latencyRun;
      qd, low, high, stable := 1, 1, depth, 0;
      endRun, done := false, false;
    }

    /** Returns true when even depth one misses the target. */
    method TargetFailed() returns (giveUp: bool)
      requires low >= 1
      modifies this
      ensures giveUp <==> old(qd) == 1
      ensures State() == Failed(old(State()))
    {
      if qd == 1 {
        return true;
      }
      high := qd;
      if qd == low {
        low := low - 1;
      }
      qd := (qd + low) / 2;
      stable := 0;
      return false;
    }

    method TargetSucceeded()
      modifies this
      ensures State() == Succeeded(old(State()), depth, latencyRun)
    {
      var before := qd;
      low := qd;
      if qd + 1 == high {
        stable := stable + 1;
        if stable >= 3 {
          high := high + 1;
          stable := 0;
        }
      }
      if high != depth {
        qd := (qd + high) / 2;
      } else {
        qd := qd * 2;
      }
      if qd > depth {
        qd := depth;
      }
      if !latencyRun && qd == before {
        if endRun {
          done := true;
        } else {
          endRun := true;
        }
      }
    }

    /** One window after another, `true` for one that met the target. */
    method RunWindows(oks: seq<bool>)
      requires InRange(State(), depth)
      modifies this
      ensures State() == Windows(old(State()), oks, depth, latencyRun) && InRange(State(), depth)
    {
      var i := 0;
      while i < |oks|
        invariant 0 <= i <= |oks| && InRange(State(), depth)
        invariant Windows(State(), oks[i..], depth, latencyRun) == Windows(old(State()), oks, depth, latencyRun)
      {
        assert oks[i..][1..] == oks[i + 1..];
        WindowInRange(State(), oks[i], depth, latencyRun);
        if oks[i] {
          TargetSucceeded();
        } else {
          var _ := TargetFailed();
        }
        i := i + 1;
      }
    }
  }
}
