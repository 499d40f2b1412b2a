/** Calls that nothing interrupts: run to its end by one thread, each operation of the step
    machine does what the call does to the manager object. */
module EpochRcuAlone {
  import opened EpochRcu
  import opened EpochManager

  // ----- A thread on its own -----

  /** The slot whose entry time the thread compares next. */
  function Visited(pc: Pc): nat { if pc.AdvanceSeen? then pc.i else 0 }

  /** One more step; `late(i)` says whether the reader in slot i has timed out when visited. */
  function Next(s: State, t: nat, late: nat -> bool): (r: State)
    requires t < |s.threads|
    ensures |r.threads| == |s.threads| && |r.slots| == |s.slots|
  {
    Step(s, t, Continue(late(Visited(s.threads[t].pc))))
  }

  /** n steps of thread t with no other thread in between. */
  function Continues(s: State, t: nat, late: nat -> bool, n: nat): (r: State)
    requires t < |s.threads|
    ensures |r.threads| == |s.threads| && |r.slots| == |s.slots|
    decreases n
  {
    if n == 0 then s else Continues(Next(s, t, late), t, late, n - 1)
  }

  ghost predicate Ready(s: State, t: nat) { t < |s.threads| && |s.slots| == MAX_THREADS }

  /** The state after t has taken n more steps and stands at pc, all else unchanged. */
  function Later(s: State, t: nat, n: nat, pc: Pc): State
    requires t < |s.threads|
  {
    At(s.(now := s.now + n), t, pc)
  }

  lemma {:induction false} ContinuesMore(s: State, t: nat, late: nat -> bool, m: nat, n: nat)
    requires t < |s.threads|
    ensures Continues(s, t, late, m + n) == Continues(Continues(s, t, late, m), t, late, n)
    decreases m
  {
    hide Next;
    if m > 0 { ContinuesMore(Next(s, t, late), t, late, m - 1, n); }
  }

  lemma FirstSteps(s: State, t: nat, late: nat -> bool)
    requires t < |s.threads|
    ensures Continues(s, t, late, 0) == s && Continues(s, t, late, 1) == Next(s, t, late)
    ensures Continues(s, t, late, 2) == Next(Next(s, t, late), t, late)
  {
    hide Next;
    assert Continues(Next(s, t, late), t, late, 1) == Next(Next(s, t, late), t, late);
  }

  // ----- The epoch advance -----

  /** Slot i, among the first n, holds the epoch back: active, older and not timed out. */
  ghost predicate Halts(s: State, epoch: nat, late: nat -> bool, from: nat, n: nat) {
    exists i :: from <= i < n && i < |s.slots| && s.slots[i].active && s.slots[i].epoch < epoch && !late(i)
  }

  function After(r: bool): Pc { if r then MinStart else Idle }

  lemma HaltsNext(s: State, epoch: nat, late: nat -> bool, i: nat, n: nat)
    requires i < n <= |s.slots|
    ensures Halts(s, epoch, late, i, n)
            <==> (s.slots[i].active && s.slots[i].epoch < epoch && !late(i)) || Halts(s, epoch, late, i + 1, n)
  {}

  /** One slot of the scan, in one step or two. */
  lemma ScanOne(s: State, t: nat, r: bool, e: nat, n: nat, i: nat, late: nat -> bool) returns (k: nat)
    requires Ready(s, t) && s.threads[t].pc == AdvanceScan(r, e, n, i) && i < n <= MAX_THREADS
    ensures Continues(s, t, late, k)
            == Later(s, t, k, if s.slots[i].active && s.slots[i].epoch < e && !late(i) then After(r)
                              else AdvanceScan(r, e, n, i + 1))
  {
    hide Continues;
    FirstSteps(s, t, late);
    k := if s.slots[i].active then 2 else 1;
    if s.slots[i].active { assert Next(s, t, late) == Later(s, t, 1, AdvanceSeen(r, e, n, i)); }
  }

  lemma {:induction false} ScanAlone(s: State, t: nat, r: bool, e: nat, n: nat, i: nat, late: nat -> bool)
    returns (k: nat)
    requires Ready(s, t) && s.threads[t].pc == AdvanceScan(r, e, n, i) && i <= n <= MAX_THREADS
    ensures var epoch := if Halts(s, e, late, i, n) then s.globalEpoch else s.globalEpoch + 1;
      Continues(s, t, late, k) == Later(s.(globalEpoch := epoch), t, k, After(r))
    decreases n - i
  {
    hide Continues, Stale, Fresh;
    if i == n {
      k := 1;
      FirstSteps(s, t, late);
    } else {
      hide Halts, Next;
      HaltsNext(s, e, late, i, n);
      k := ScanOne(s, t, r, e, n, i, late);
      if !(s.slots[i].active && s.slots[i].epoch < e && !late(i)) {
        var s' := Continues(s, t, late, k);
        var m := ScanAlone(s', t, r, e, n, i + 1, late);
        SameHalts(s, s', e, late, i + 1, n);
        ContinuesMore(s, t, late, k, m);
        k := k + m;
      }
    }
  }

  lemma SameHalts(s: State, s': State, epoch: nat, late: nat -> bool, i: nat, n: nat)
    requires s.slots == s'.slots
    ensures Halts(s, epoch, late, i, n) <==> Halts(s', epoch, late, i, n)
  {}

  /** The loads that start a scan. */
  lemma LoadStep(s: State, t: nat, late: nat -> bool)
    requires Ready(s, t)
    ensures var pc := s.threads[t].pc;
      && (pc.AdvanceStart? ==> Next(s, t, late) == Later(s, t, 1, AdvanceLoaded(pc.reclaiming, s.globalEpoch)))
      && (pc.AdvanceLoaded? ==>
            Next(s, t, late) == Later(s, t, 1, AdvanceScan(pc.reclaiming, pc.epoch, Min(s.taken, 64), 0)))
      && (pc.MinStart? ==> Next(s, t, late) == Later(s, t, 1, MinLoaded(s.globalEpoch)))
      && (pc.MinLoaded? ==> Next(s, t, late) == Later(s, t, 1, MinScan(pc.min, Min(s.taken, 64), 0)))
  {
    hide Stale, Fresh, Begin;
  }

  lemma AdvanceBegins(s: State, t: nat, r: bool, late: nat -> bool)
    requires Ready(s, t) && s.threads[t].pc == AdvanceStart(r)
    ensures Continues(s, t, late, 2) == Later(s, t, 2, AdvanceScan(r, s.globalEpoch, Min(s.taken, 64), 0))
  {
    hide Continues, Next;
    FirstSteps(s, t, late);
    LoadStep(s, t, late);
    LoadStep(Next(s, t, late), t, late);
  }

  /** The whole advance: the epoch moves on by one, unless some slot handed out is active, in an
      older epoch and not timed out when it is visited; nothing else changes. */
  lemma AdvanceAlone(s: State, t: nat, r: bool, late: nat -> bool) returns (k: nat)
    requires Ready(s, t) && s.threads[t].pc == AdvanceStart(r)
    ensures var halted := Halts(s, s.globalEpoch, late, 0, Min(s.taken, 64));
      Continues(s, t, late, k)
      == Later(s.(globalEpoch := s.globalEpoch + if halted then 0 else 1), t, k, After(r))
  {
    hide Continues, Halts, Next;
    AdvanceBegins(s, t, r, late);
    var s' := Continues(s, t, late, 2);
    var m := ScanAlone(s', t, r, s.globalEpoch, Min(s.taken, 64), 0, late);
    SameHalts(s, s', s.globalEpoch, late, 0, Min(s.taken, 64));
    ContinuesMore(s, t, late, 2, m);
    k := 2 + m;
  }

  // ----- The reclaim -----

  lemma MinOne(s: State, t: nat, min: nat, n: nat, i: nat, late: nat -> bool) returns (k: nat)
    requires Ready(s, t) && s.threads[t].pc == MinScan(min, n, i) && i < n <= MAX_THREADS
    ensures Continues(s, t, late, k)
            == Later(s, t, k, MinScan(if s.slots[i].active then Min(min, s.slots[i].epoch) else min, n, i + 1))
  {
    hide Continues, Stale, Fresh;
    FirstSteps(s, t, late);
    k := if s.slots[i].active then 2 else 1;
    if s.slots[i].active { assert Next(s, t, late) == Later(s, t, 1, MinSeen(min, n, i)); }
  }

  lemma MinActiveNext(slots: seq<Slot>, i: nat, epoch: nat)
    requires i < |slots|
    ensures MinActive(slots[..i + 1], epoch)
            == if slots[i].active then Min(MinActive(slots[..i], epoch), slots[i].epoch)
               else MinActive(slots[..i], epoch)
  {
    assert slots[..i + 1][..i] == slots[..i];
  }

  lemma {:induction false} MinAlone(s: State, t: nat, n: nat, i: nat, epoch: nat, late: nat -> bool) returns (k: nat)
    requires Ready(s, t) && i <= n <= MAX_THREADS
    requires s.threads[t].pc == MinScan(MinActive(s.slots[..i], epoch), n, i)
    ensures var min := MinActive(s.slots[..n], epoch);
      Continues(s, t, late, k) == Later(s.(retired := Fresh(s.retired, min)), t, k, Running(Stale(s.retired, min)))
    decreases n - i
  {
    hide MinActive, Stale, Fresh;
    if i == n {
      k := 1;
      FirstSteps(s, t, late);
    } else {
      hide Continues, Next;
      k := MinOne(s, t, MinActive(s.slots[..i], epoch), n, i, late);
      MinActiveNext(s.slots, i, epoch);
      var s' := Continues(s, t, late, k);
      var m := MinAlone(s', t, n, i + 1, epoch, late);
      ContinuesMore(s, t, late, k, m);
      k := k + m;
    }
  }

  lemma {:induction false} DeletersAlone(s: State, t: nat, todo: seq<Item>, late: nat -> bool)
    requires Ready(s, t) && s.threads[t].pc == Running(todo)
    ensures Continues(s, t, late, |todo| + 1) == Later(s.(ran := s.ran + todo), t, |todo| + 1, Idle)
    decreases |todo|
  {
    var s' := Next(s, t, late);
    if todo == [] {
      assert Continues(s', t, late, 0) == s';
    } else {
      assert s' == Later(s.(ran := s.ran + [todo[0]]), t, 1, Running(todo[1..]));
      DeletersAlone(s', t, todo[1..], late);
      assert s.ran + [todo[0]] + todo[1..] == s.ran + todo;
    }
  }

  lemma SweepBegins(s: State, t: nat, late: nat -> bool)
    requires Ready(s, t) && s.threads[t].pc == MinStart
    ensures Continues(s, t, late, 2)
            == Later(s, t, 2, MinScan(MinActive(s.slots[..0], s.globalEpoch), Min(s.taken, MAX_THREADS), 0))
  {
    hide Continues, Next;
    FirstSteps(s, t, late);
    LoadStep(s, t, late);
    LoadStep(Next(s, t, late), t, late);
  }

  lemma SweepAlone(s: State, t: nat, late: nat -> bool) returns (k: nat)
    requires Ready(s, t) && s.threads[t].pc == MinStart
    ensures var min := MinActive(Scanned(s.slots, s.taken), s.globalEpoch);
      Continues(s, t, late, k)
      == Later(s.(retired := Fresh(s.retired, min), ran := s.ran + Stale(s.retired, min)), t, k, Idle)
  {
    hide Continues, Next, MinActive, Stale, Fresh;
    var n := Min(s.taken, MAX_THREADS);
    SweepBegins(s, t, late);
    var m := MinAlone(Continues(s, t, late, 2), t, n, 0, s.globalEpoch, late);
    ContinuesMore(s, t, late, 2, m);
    var s' := Continues(s, t, late, 2 + m);
    var todo := s'.threads[t].pc.todo;
    DeletersAlone(s', t, todo, late);
    ContinuesMore(s, t, late, 2 + m, |todo| + 1);
    k := 2 + m + |todo| + 1;
  }

  /** The whole reclaim: the advance, and then the items older than every scanned active reader
      are run in order. */
  lemma ReclaimAlone(s: State, t: nat, late: nat -> bool) returns (k: nat)
    requires Ready(s, t) && s.threads[t].pc == AdvanceStart(true)
    ensures var halted := Halts(s, s.globalEpoch, late, 0, Min(s.taken, 64));
      var epoch := s.globalEpoch + if halted then 0 else 1;
      var min := MinActive(Scanned(s.slots, s.taken), epoch);
      Continues(s, t, late, k)
      == Later(s.(globalEpoch := epoch, retired := Fresh(s.retired, min), ran := s.ran + Stale(s.retired, min)),
               t, k, Idle)
  {
    hide Continues, Next, MinActive, Stale, Fresh, Halts, Scanned;
    var m := AdvanceAlone(s, t, true, late);
    var n := SweepAlone(Continues(s, t, late, m), t, late);
    ContinuesMore(s, t, late, m, n);
    k := m + n;
  }

  // ----- The manager object -----

  /** Items without the time of their epoch load, which only the machine records. */
  function Untimed(items: seq<Item>): (r: seq<Item>)
    ensures |r| == |items| && forall i :: 0 <= i < |items| ==> r[i] == Item(items[i].id, items[i].epoch, 0)
  {
    seq(|items|, i requires 0 <= i < |items| => Item(items[i].id, items[i].epoch, 0))
  }

  lemma {:induction false} SplitUntimed(items: seq<Item>, min: nat)
    ensures Stale(Untimed(items), min) == Untimed(Stale(items, min))
    ensures Fresh(Untimed(items), min) == Untimed(Fresh(items, min))
  {
    if items == [] {
      assert Untimed([]) == [];
    } else {
      hide Untimed;
      SplitUntimed(items[1..], min);
      UntimedFirst(items);
      UntimedSplits([items[0]], Stale(items[1..], min));
      UntimedSplits([items[0]], Fresh(items[1..], min));
      StaleFirst(items, min);
      StaleFirst(Untimed(items), min);
      hide Stale, Fresh;
    }
  }

  lemma UntimedFirst(items: seq<Item>)
    requires items != []
    ensures Untimed(items)[1..] == Untimed(items[1..]) && Untimed(items)[0].epoch == items[0].epoch
    ensures Untimed([items[0]]) == [Untimed(items)[0]]
  {}

  lemma StaleFirst(items: seq<Item>, min: nat)
    requires items != []
    ensures Stale(items, min) == if items[0].epoch < min then [items[0]] + Stale(items[1..], min)
                                 else Stale(items[1..], min)
    ensures Fresh(items, min) == if items[0].epoch < min then Fresh(items[1..], min)
                                 else [items[0]] + Fresh(items[1..], min)
  {}

  lemma UntimedSplits(a: seq<Item>, b: seq<Item>)
    ensures Untimed(a + b) == Untimed(a) + Untimed(b)
  {}

  /** The object is in the shared state of the machine. */
  ghost predicate Pictures(m: EpochReclaimer, s: State)
    reads m, m.slots
  {
    && m.globalEpoch == s.globalEpoch && m.slots[..] == s.slots && m.taken == s.taken
    && m.retired == Untimed(s.retired) && m.ran == Untimed(s.ran) && m.issued == |s.loaded|
  }

  /** Readers that entered at least `timeout` milliseconds before they are visited. */
  function TimedOut(entered: seq<nat>, timeout: nat, clock: nat -> nat): nat -> bool {
    (i: nat) => i >= |entered| || timeout == 0 || clock(i) - entered[i] >= timeout * 1_000_000
  }

  lemma HaltsIffBlocked(s: State, entered: seq<nat>, clock: nat -> nat, timeout: nat)
    requires |s.slots| == |entered| == MAX_THREADS
    ensures Halts(s, s.globalEpoch, TimedOut(entered, timeout, clock), 0, Min(s.taken, 64))
            <==> Blocked(s.slots, entered, clock, timeout, s.globalEpoch, Min(s.taken, MAX_THREADS))
  {
    var late, n := TimedOut(entered, timeout, clock), Min(s.taken, 64);
    if Halts(s, s.globalEpoch, late, 0, n) {
      var i :| 0 <= i < n && i < |s.slots| && s.slots[i].active && s.slots[i].epoch < s.globalEpoch && !late(i);
      assert clock(i) - entered[i] < timeout * 1_000_000;
    }
    if Blocked(s.slots, entered, clock, timeout, s.globalEpoch, n) {
      var i :| 0 <= i < n && s.slots[i].active && s.slots[i].epoch < s.globalEpoch
               && clock(i) - entered[i] < timeout * 1_000_000;
      assert !late(i);
    }
  }

  /** The slot numbers a thread holds are in range. */
  predicate InRange(th: Thread) {
    (th.reg.Registered? ==> th.reg.slot < MAX_THREADS) && forall h :: 0 <= h < |th.held| ==> th.held[h] < MAX_THREADS
  }

  /** A thread that may begin a call. */
  ghost predicate MayCall(s: State, t: nat) {
    Ready(s, t) && s.threads[t].pc.Idle? && InRange(s.threads[t])
  }

  /** The slots after a reader's call. */
  function SlotsAfter(slots: seq<Slot>, th: Thread, op: Op, epoch: nat): seq<Slot>
    requires |slots| == MAX_THREADS && InRange(th)
  {
    if op.Exit? && th.held != [] then
      var h := th.held[|th.held| - 1];
      slots[h := slots[h].(active := false)]
    else if th.reg.Unregistered? then slots
    else match op
      case Enter => slots[th.reg.slot := Slot(epoch, true)]
      case Exit => slots[th.reg.slot := slots[th.reg.slot].(active := false)]
      case Unregister => slots[th.reg.slot := Slot(0, false)]
      case _ => slots
  }

  /** What a reader's call does to the shared state, and to the thread's own registration and guards. */
  ghost predicate ReaderCallEffect(s: State, s': State, t: nat, op: Op)
    requires MayCall(s, t) && |s'.threads| == |s.threads|
  {
    && s'.threads[t].pc.Idle? && s'.slots == SlotsAfter(s.slots, s.threads[t], op, s.globalEpoch)
    && s' == s.(slots := s'.slots, taken := s'.taken, threads := s'.threads, now := s'.now)
    && s'.taken == s.taken + (if op.Register? && s.threads[t].reg.Unregistered? then 1 else 0)
    && var before, after := s.threads[t], s'.threads[t];
       && after.reg == (if op.Unregister? then Unregistered
                        else if op.Register? && before.reg.Unregistered?
                        then Registered(if s.taken < 64 then s.taken else 0)
                        else before.reg)
       && after.held == if op.Exit? && before.held != [] then before.held[..|before.held| - 1]
                        else if op.Enter? && before.reg.Registered? then before.held + [before.reg.slot]
                        else before.held
  }

  /** Calls that are over after one step, or two. */
  lemma ShortCall(s: State, t: nat, op: Op, late: nat -> bool) returns (k: nat)
    requires MayCall(s, t) && (op.Register? || op.Exit? || op.Unregister?)
    ensures ReaderCallEffect(s, Continues(Step(s, t, op), t, late, k), t, op)
  {
    hide Continues, Stale, Fresh;
    var first := Step(s, t, op);
    FirstSteps(first, t, late);
    k := if op.Unregister? && s.threads[t].reg.Registered? then 1 else 0;
  }

  lemma EnterCall(s: State, t: nat, late: nat -> bool) returns (k: nat)
    requires MayCall(s, t)
    ensures ReaderCallEffect(s, Continues(Step(s, t, Enter), t, late, k), t, Enter)
  {
    hide Continues, Stale, Fresh;
    var first := Step(s, t, Enter);
    FirstSteps(first, t, late);
    k := 0;
    if s.threads[t].reg.Registered? {
      var slot := s.threads[t].reg.slot;
      assert Next(first, t, late)
             == Later(s.(slots := s.slots[slot := s.slots[slot].(epoch := s.globalEpoch)]), t, 2, EnterStored);
      k := 2;
    }
  }

  method ReaderCall(m: EpochReclaimer, s: State, t: nat, op: Op, now: nat, ghost late: nat -> bool)
    returns (ghost k: nat)
    requires m.Valid() && Pictures(m, s) && MayCall(s, t)
    requires op.Register? || op.Enter? || op.Exit? || op.Unregister?
    modifies m, m.slots, m.entered
    ensures m.Valid() && m.slots == old(m.slots)
    ensures var s' := Continues(Step(s, t, op), t, late, k);
      Pictures(m, s') && s'.threads[t].pc.Idle?
  {
    hide Continues, Step, Untimed;
    var th := s.threads[t];
    if op.Enter? {
      k := EnterCall(s, t, late);
      if th.reg.Registered? { m.Enter(th.reg.slot, now); }
    } else {
      k := ShortCall(s, t, op, late);
      if op.Register? {
        var _ := m.RegisterThread(th.reg);
      } else if op.Exit? && th.held != [] {
        m.Exit(th.held[|th.held| - 1]);
      } else if th.reg.Registered? {
        if op.Exit? { m.Exit(th.reg.slot); } else { m.UnregisterThread(th.reg.slot); }
      }
    }
  }

  lemma RetireAlone(s: State, t: nat, late: nat -> bool)
    requires MayCall(s, t)
    ensures var item := Item(|s.loaded|, s.globalEpoch, s.now + 1);
      Continues(Step(s, t, Retire), t, late, 1)
      == Later(s.(loaded := s.loaded + [item], retired := s.retired + [item]), t, 2, Idle)
  {
    hide Continues, Stale, Fresh;
    FirstSteps(Step(s, t, Retire), t, late);
  }

  lemma Begun(s: State, t: nat, op: Op)
    requires MayCall(s, t) && (op.TryAdvance? || op.Reclaim?)
    ensures Step(s, t, op) == Later(s, t, 1, AdvanceStart(op.Reclaim?))
  {}

  method AdvanceCall(m: EpochReclaimer, s: State, t: nat, clock: nat -> nat) returns (ghost k: nat)
    requires m.Valid() && Pictures(m, s) && MayCall(s, t)
    modifies m
    ensures m.Valid() && m.slots == old(m.slots)
    ensures var s' := Continues(Step(s, t, TryAdvance), t, TimedOut(old(m.entered[..]), m.timeout, clock), k);
      Pictures(m, s') && s'.threads[t].pc.Idle?
  {
    hide Continues, Step, Untimed, Halts, Blocked, TimedOut;
    ghost var late := TimedOut(m.entered[..], m.timeout, clock);
    Begun(s, t, TryAdvance);
    k := AdvanceAlone(Step(s, t, TryAdvance), t, false, late);
    HaltsIffBlocked(Step(s, t, TryAdvance), m.entered[..], clock, m.timeout);
    var _ := m.TryAdvanceEpoch(clock);
  }

  method ReclaimCall(m: EpochReclaimer, s: State, t: nat, clock: nat -> nat) returns (ghost k: nat)
    requires m.Valid() && Pictures(m, s) && MayCall(s, t)
    modifies m
    ensures m.Valid() && m.slots == old(m.slots)
    ensures var s' := Continues(Step(s, t, Reclaim), t, TimedOut(old(m.entered[..]), m.timeout, clock), k);
      Pictures(m, s') && s'.threads[t].pc.Idle?
  {
    hide Continues, Step, Untimed, Halts, Blocked, TimedOut, MinActive, Scanned, HeldBack, Stale, Fresh;
    ghost var late := TimedOut(m.entered[..], m.timeout, clock);
    Begun(s, t, Reclaim);
    k := ReclaimAlone(Step(s, t, Reclaim), t, late);
    HaltsIffBlocked(Step(s, t, Reclaim), m.entered[..], clock, m.timeout);
    var _ := m.Reclaim(clock);
    ghost var min := MinActive(Scanned(m.slots[..], m.taken), m.globalEpoch);
    SplitUntimed(s.retired, min);
    UntimedSplits(s.ran, Stale(s.retired, min));
  }

  /** For every operation: the machine, run by one thread until the operation ends, and the call
      on the object take the same state to the same state. */
  method CallAgrees(m: EpochReclaimer, s: State, t: nat, op: Op, now: nat, clock: nat -> nat) returns (ghost k: nat)
    requires m.Valid() && Pictures(m, s) && MayCall(s, t) && !op.Continue?
    modifies m, m.slots, m.entered
    ensures m.Valid() && m.slots == old(m.slots)
    ensures var s' := Continues(Step(s, t, op), t, TimedOut(old(m.entered[..]), m.timeout, clock), k);
      Pictures(m, s') && s'.threads[t].pc.Idle?
  {
    hide Continues, Step, TimedOut;
    ghost var late := TimedOut(m.entered[..], m.timeout, clock);
    if op.TryAdvance? {
      k := AdvanceCall(m, s, t, clock);
    } else if op.Reclaim? {
      k := ReclaimCall(m, s, t, clock);
    } else if op.Retire? {
      RetireAlone(s, t, late);
      k := 1;
      m.Retire(true);
    } else {
      k := ReaderCall(m, s, t, op, now, late);
    }
  }
}
