/** An epoch advance and a reclaim in the midst of other threads: whatever those do between its
    steps, the outcome is decided by what the thread saw of each slot when it came by. */
module EpochRcuAmid {
  import opened EpochRcu
  import opened EpochManager
  import Alone = EpochRcuAlone

  /** One thread's steps: `others(k, _)` is what the other threads do before its step k, and
      `late(k)` the answer of the timeout test if step k makes it. */
  datatype Course = Course(start: State, t: nat, others: (nat, State) -> State, late: nat -> bool)

  /** The others leave the thread alone and keep the numbers of threads and slots. */
  ghost predicate Beside(c: Course) {
    && c.t < |c.start.threads| && |c.start.slots| == MAX_THREADS
    && forall k: nat, s: State {:trigger c.others(k, s)} :: c.t < |s.threads| ==>
         var s' := c.others(k, s);
         |s'.threads| == |s.threads| && |s'.slots| == |s.slots| && s'.threads[c.t] == s.threads[c.t]
  }

  function Next(s: State, t: nat, timedOut: bool): (r: State)
    ensures |r.threads| == |s.threads| && |r.slots| == |s.slots|
  {
    Step(s, t, Continue(timedOut))
  }

  /** The state after k steps of the thread, and the state in which it takes step k. */
  function After(c: Course, k: nat): State
    decreases k, 0
  {
    if k == 0 then c.start else Next(Seen(c, k - 1), c.t, c.late(k - 1))
  }

  function Seen(c: Course, k: nat): State
    decreases k, 1
  {
    c.others(k, After(c, k))
  }

  lemma {:induction false} SeenBeside(c: Course, k: nat)
    requires Beside(c)
    ensures |After(c, k).threads| == |Seen(c, k).threads| == |c.start.threads|
    ensures |After(c, k).slots| == |Seen(c, k).slots| == MAX_THREADS
    ensures Seen(c, k).threads[c.t] == After(c, k).threads[c.t]
  {
    hide Next;
    if k > 0 { SeenBeside(c, k - 1); }
  }

  ghost function PcAt(c: Course, k: nat): Pc
    requires Beside(c)
  {
    SeenBeside(c, k);
    Seen(c, k).threads[c.t].pc
  }

  lemma Resumes(s: State, t: nat, timedOut: bool)
    requires t < |s.threads| && |s.slots| == MAX_THREADS
    ensures Step(s, t, Continue(timedOut)) == Resume(s.(now := s.now + 1), t, timedOut)
  {
    hide Resume, Begin;
  }

  /** One step: the thread's own record and the shared state, from what it sees. */
  lemma OneStep(c: Course, k: nat)
    requires Beside(c)
    ensures |Seen(c, k).threads| == |c.start.threads| && |Seen(c, k).slots| == MAX_THREADS
    ensures After(c, k + 1) == Resume(Seen(c, k).(now := Seen(c, k).now + 1), c.t, c.late(k))
    ensures |After(c, k + 1).threads| == |c.start.threads| && PcAt(c, k + 1) == After(c, k + 1).threads[c.t].pc
  {
    assert c.t < |c.start.threads|;
    hide Resume, Begin, Seen, Beside, Step;
    SeenBeside(c, k);
    SeenBeside(c, k + 1);
    Resumes(Seen(c, k), c.t, c.late(k));
  }

  /** Whatever happens beside it, `enter` publishes the epoch it loaded first, and only then sets
      the slot's flag. */
  lemma EnterAmid(c: Course, slot: nat, e: nat)
    requires Beside(c) && slot < MAX_THREADS
    requires c.start.threads[c.t].reg == Registered(slot) && c.start.threads[c.t].pc == EnterLoaded(e)
    ensures |Seen(c, 0).slots| == |Seen(c, 1).slots| == MAX_THREADS
    ensures After(c, 1).slots == Seen(c, 0).slots[slot := Seen(c, 0).slots[slot].(epoch := e)]
    ensures After(c, 2).slots == Seen(c, 1).slots[slot := Seen(c, 1).slots[slot].(active := true)]
    ensures |After(c, 2).threads| == |c.start.threads|
    ensures After(c, 2).threads[c.t].held == c.start.threads[c.t].held + [slot] && PcAt(c, 2) == Idle
  {
    assert After(c, 0) == c.start;
    SeenBeside(c, 0);
    SeenBeside(c, 1);
    hide After, Seen, Stale, Fresh;
    OneStep(c, 0);
    OneStep(c, 1);
  }

  // ----- The advance -----

  /** Step visits[i] loads the active flag of slot i. */
  ghost predicate Visited(c: Course, visits: seq<nat>, r: bool, e: nat, n: nat)
    requires Beside(c)
  {
    forall i :: 0 <= i < |visits| ==> PcAt(c, visits[i]) == AdvanceScan(r, e, n, i)
  }

  /** Slot i, visited at step k: seen active, and then in an epoch before e and not timed out. */
  ghost predicate Stops(c: Course, e: nat, i: nat, k: nat)
    requires Beside(c)
  {
    SeenBeside(c, k);
    SeenBeside(c, k + 1);
    i < MAX_THREADS && Seen(c, k).slots[i].active && Seen(c, k + 1).slots[i].epoch < e && !c.late(k + 1)
  }

  lemma VisitOne(c: Course, m: nat, r: bool, e: nat, n: nat, i: nat) returns (k: nat)
    requires Beside(c) && PcAt(c, m) == AdvanceScan(r, e, n, i) && i < n <= MAX_THREADS
    ensures k > 0 && |Seen(c, k - 1).threads| == |c.start.threads|
    ensures if Stops(c, e, i, m) then After(c, k) == Alone.Later(Seen(c, k - 1), c.t, 1, Alone.After(r))
            else PcAt(c, k) == AdvanceScan(r, e, n, i + 1)
  {
    hide After, Seen;
    OneStep(c, m);
    k := m + 1;
    if Seen(c, m).slots[i].active {
      OneStep(c, m + 1);
      k := m + 2;
    }
  }

  lemma {:induction false} ScanAmid(c: Course, m: nat, r: bool, e: nat, n: nat, before: seq<nat>)
    returns (k: nat, visits: seq<nat>)
    requires Beside(c) && |before| <= n <= MAX_THREADS && PcAt(c, m) == AdvanceScan(r, e, n, |before|)
    requires Visited(c, before, r, e, n) && forall i :: 0 <= i < |before| ==> !Stops(c, e, i, before[i])
    ensures k > 0 && |visits| <= n && Visited(c, visits, r, e, n)
    ensures forall i :: 0 <= i < |visits| - 1 ==> !Stops(c, e, i, visits[i])
    ensures var last := Seen(c, k - 1);
      && |last.threads| == |c.start.threads|
      && if visits != [] && Stops(c, e, |visits| - 1, visits[|visits| - 1])
         then After(c, k) == Alone.Later(last, c.t, 1, Alone.After(r))
         else |visits| == n
              && After(c, k) == Alone.Later(last.(globalEpoch := last.globalEpoch + 1), c.t, 1, Alone.After(r))
    decreases n - |before|
  {
    hide After, Seen, Stops, PcAt;
    var i := |before|;
    if i == n {
      LastStep(c, m, r, e, n);
      k, visits := m + 1, before;
    } else {
      k := VisitOne(c, m, r, e, n, i);
      visits := before + [m];
      if !Stops(c, e, i, m) { k, visits := ScanAmid(c, k, r, e, n, visits); }
    }
  }

  lemma LastStep(c: Course, m: nat, r: bool, e: nat, n: nat)
    requires Beside(c) && PcAt(c, m) == AdvanceScan(r, e, n, n)
    ensures var last := Seen(c, m);
      && |last.threads| == |c.start.threads|
      && After(c, m + 1) == Alone.Later(last.(globalEpoch := last.globalEpoch + 1), c.t, 1, Alone.After(r))
  {
    hide After, Seen;
    OneStep(c, m);
  }

  /** Whatever happens beside it, `try_advance_epoch` visits the slots handed out, in order, and its
      last step raises the epoch by one, unless the last slot it visited was active, in an epoch
      before the one loaded at the start, and not timed out; then it changes nothing. */
  lemma AdvanceAmid(c: Course, r: bool) returns (k: nat, visits: seq<nat>)
    requires Beside(c) && c.start.threads[c.t].pc == AdvanceStart(r)
    ensures k > 0 && |Seen(c, k - 1).threads| == |c.start.threads|
    ensures var e, n, last := Seen(c, 0).globalEpoch, Min(Seen(c, 1).taken, 64), Seen(c, k - 1);
      && |visits| <= n && Visited(c, visits, r, e, n)
      && (forall i :: 0 <= i < |visits| - 1 ==> !Stops(c, e, i, visits[i]))
      && if visits != [] && Stops(c, e, |visits| - 1, visits[|visits| - 1])
         then After(c, k) == Alone.Later(last, c.t, 1, Alone.After(r))
         else |visits| == n
              && After(c, k) == Alone.Later(last.(globalEpoch := last.globalEpoch + 1), c.t, 1, Alone.After(r))
  {
    AdvanceBegins(c, r);
    hide After, Seen, Stops, PcAt;
    k, visits := ScanAmid(c, 2, r, Seen(c, 0).globalEpoch, Min(Seen(c, 1).taken, 64), []);
  }

  lemma AdvanceBegins(c: Course, r: bool)
    requires Beside(c) && c.start.threads[c.t].pc == AdvanceStart(r)
    ensures PcAt(c, 2) == AdvanceScan(r, Seen(c, 0).globalEpoch, Min(Seen(c, 1).taken, 64), 0)
  {
    assert After(c, 0) == c.start;
    SeenBeside(c, 0);
    hide After, Seen;
    OneStep(c, 0);
    OneStep(c, 1);
  }

  // ----- The sweep -----

  /** What step k, and step k + 1 if the flag was set, saw of slot i. */
  ghost function ViewOf(c: Course, i: nat, k: nat): Slot
    requires Beside(c) && i < MAX_THREADS
  {
    SeenBeside(c, k);
    SeenBeside(c, k + 1);
    Slot(Seen(c, k + 1).slots[i].epoch, Seen(c, k).slots[i].active)
  }

  /** Slot i was viewed at step visits[i]. */
  ghost predicate Viewed(c: Course, visits: seq<nat>, views: seq<Slot>)
    requires Beside(c)
  {
    |visits| == |views| <= MAX_THREADS
    && forall i :: 0 <= i < |visits| ==>
         && views[i] == ViewOf(c, i, visits[i])
         && PcAt(c, visits[i]).MinScan? && PcAt(c, visits[i]).i == i
  }

  lemma ViewOne(c: Course, m: nat, min: nat, n: nat, i: nat) returns (k: nat)
    requires Beside(c) && PcAt(c, m) == MinScan(min, n, i) && i < n <= MAX_THREADS
    ensures var v := ViewOf(c, i, m);
      PcAt(c, k) == MinScan(if v.active then Min(min, v.epoch) else min, n, i + 1)
  {
    hide After, Seen, Stale, Fresh;
    OneStep(c, m);
    k := m + 1;
    if Seen(c, m).slots[i].active {
      OneStep(c, m + 1);
      k := m + 2;
    }
  }

  lemma {:induction false} MinAmid(c: Course, m: nat, epoch: nat, n: nat, visits0: seq<nat>, views0: seq<Slot>)
    returns (k: nat, visits: seq<nat>, views: seq<Slot>)
    requires Beside(c) && Viewed(c, visits0, views0) && |views0| <= n <= MAX_THREADS
    requires PcAt(c, m) == MinScan(MinActive(views0, epoch), n, |views0|)
    ensures Viewed(c, visits, views) && |views| == n && PcAt(c, k) == MinScan(MinActive(views, epoch), n, n)
    decreases n - |views0|
  {
    hide After, Seen, ViewOf, PcAt;
    k, visits, views := m, visits0, views0;
    var i := |views0|;
    if i < n {
      k := ViewOne(c, m, MinActive(views0, epoch), n, i);
      visits, views := visits0 + [m], views0 + [ViewOf(c, i, m)];
      assert views[..i] == views0;
      k, visits, views := MinAmid(c, k, epoch, n, visits, views);
    }
  }

  /** Whatever happens beside it, the sweep of a reclaim splits the retired list it finds by the
      minimum of the epoch loaded first and the epochs of the slots it saw active. */
  lemma SweepAmid(c: Course) returns (k: nat, visits: seq<nat>, views: seq<Slot>)
    requires Beside(c) && c.start.threads[c.t].pc == MinStart
    ensures |views| == Min(Seen(c, 1).taken, 64) && Viewed(c, visits, views)
    ensures var last, min := Seen(c, k), MinActive(views, Seen(c, 0).globalEpoch);
      && |last.threads| == |c.start.threads|
      && After(c, k + 1) == Alone.Later(last.(retired := Fresh(last.retired, min)), c.t, 1,
                                        Running(Stale(last.retired, min)))
  {
    SweepBegins(c);
    hide After, Seen, ViewOf, PcAt, MinActive, Stale, Fresh;
    k, visits, views := MinAmid(c, 2, Seen(c, 0).globalEpoch, Min(Seen(c, 1).taken, 64), [], []);
    SplitStep(c, k, MinActive(views, Seen(c, 0).globalEpoch), |views|);
  }

  lemma SweepBegins(c: Course)
    requires Beside(c) && c.start.threads[c.t].pc == MinStart
    ensures PcAt(c, 2) == MinScan(MinActive([], Seen(c, 0).globalEpoch), Min(Seen(c, 1).taken, 64), 0)
  {
    assert After(c, 0) == c.start;
    SeenBeside(c, 0);
    hide After, Seen, Stale, Fresh;
    OneStep(c, 0);
    OneStep(c, 1);
  }

  lemma SplitStep(c: Course, m: nat, min: nat, n: nat)
    requires Beside(c) && PcAt(c, m) == MinScan(min, n, n)
    ensures var last := Seen(c, m);
      && |last.threads| == |c.start.threads|
      && After(c, m + 1) == Alone.Later(last.(retired := Fresh(last.retired, min)), c.t, 1,
                                        Running(Stale(last.retired, min)))
  {
    hide After, Seen, Stale, Fresh;
    OneStep(c, m);
  }
}
