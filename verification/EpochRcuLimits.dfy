/** Exactly how far the safety of epoch-based reclamation reaches: which uses of guards,
    registration and unregistration keep every schedule safe, and a failing run for each
    that does not. */
module EpochRcuLimits {
  import opened EpochRcu

  /** What threads may do: hold up to `depth` guards at once, register up to `registrations`
      times in all, and unregister with a guard alive or not. */
  datatype Policy = Policy(depth: nat, registrations: nat, unregisterInside: bool)

  predicate AllowedStep(p: Policy, s: State, t: nat, op: Op) {
    t < |s.threads| && s.threads[t].pc.Idle? ==>
      && (op.Enter? ==> |s.threads[t].held| < p.depth)
      && (op.Unregister? ==> s.threads[t].held == [] || p.unregisterInside)
  }

  predicate Allowed(p: Policy, n: nat, schedule: Schedule) {
    schedule == [] ||
    (Allowed(p, n, schedule[..|schedule| - 1])
     && var last := schedule[|schedule| - 1];
        AllowedStep(p, Run(n, schedule[..|schedule| - 1]), last.0, last.1))
  }

  predicate Follows(p: Policy, n: nat, schedule: Schedule) {
    Allowed(p, n, schedule) && Run(n, schedule).taken <= p.registrations
  }

  ghost predicate AlwaysSafe(p: Policy) {
    forall n: nat, schedule: Schedule :: Follows(p, n, schedule) ==> Safe(Run(n, schedule))
  }

  // ----- Policies that are safe -----

  lemma StepKeepsTaken(s: State, t: nat, op: Op)
    ensures s.taken <= Step(s, t, op).taken && |Step(s, t, op).slots| == |s.slots|
  {}

  lemma StepIsDisciplined(p: Policy, s: State, t: nat, op: Op)
    requires p.depth <= 1 && !p.unregisterInside && AllowedStep(p, s, t, op)
    requires |s.slots| == MAX_THREADS && Step(s, t, op).taken <= MAX_THREADS
    ensures DisciplinedStep(s, t, op)
  {}

  lemma {:induction false} FollowingIsDisciplined(p: Policy, n: nat, schedule: Schedule)
    requires p.depth <= 1 && p.registrations <= MAX_THREADS && !p.unregisterInside && Follows(p, n, schedule)
    ensures Disciplined(n, schedule) && |Run(n, schedule).slots| == MAX_THREADS
  {
    if schedule != [] {
      hide Step, AllowedStep, DisciplinedStep;
      var before, last := schedule[..|schedule| - 1], schedule[|schedule| - 1];
      StepKeepsTaken(Run(n, before), last.0, last.1);
      FollowingIsDisciplined(p, n, before);
      StepIsDisciplined(p, Run(n, before), last.0, last.1);
    }
  }

  /** Nobody is in a critical section or on the way into one. */
  predicate Calm(p: Policy, s: State) {
    forall t :: 0 <= t < |s.threads| ==>
      var th := s.threads[t];
      && th.held == [] && !th.pc.EnterLoaded? && !th.pc.EnterStored?
      && (p.registrations == 0 ==> th.reg.Unregistered?)
  }

  lemma StepKeepsCalm(p: Policy, s: State, t: nat, op: Op)
    requires p.depth == 0 || p.registrations == 0
    requires Calm(p, s) && AllowedStep(p, s, t, op) && Step(s, t, op).taken <= p.registrations
    ensures Calm(p, Step(s, t, op))
  {
    if t < |s.threads| && |s.slots| == MAX_THREADS {
      var s' := Step(s, t, op);
      assert s'.threads == s.threads[t := s'.threads[t]] by { OneThreadMoves(s, t, op); }
    }
  }

  lemma OneThreadMoves(s: State, t: nat, op: Op)
    requires t < |s.threads| && |s.slots| == MAX_THREADS
    ensures |Step(s, t, op).threads| == |s.threads|
    ensures Step(s, t, op).threads == s.threads[t := Step(s, t, op).threads[t]]
  {}

  lemma {:induction false} RunStaysCalm(p: Policy, n: nat, schedule: Schedule)
    requires (p.depth == 0 || p.registrations == 0) && Follows(p, n, schedule)
    ensures Calm(p, Run(n, schedule))
  {
    if schedule != [] {
      hide Step, AllowedStep, Calm;
      var before, last := schedule[..|schedule| - 1], schedule[|schedule| - 1];
      StepKeepsTaken(Run(n, before), last.0, last.1);
      RunStaysCalm(p, n, before);
      StepKeepsCalm(p, Run(n, before), last.0, last.1);
    }
  }

  lemma CalmIsSafe(p: Policy, s: State)
    requires Calm(p, s)
    ensures Safe(s)
  {}

  // ----- Building failing runs -----

  /** Append one allowed step. */
  lemma Then(p: Policy, n: nat, schedule: Schedule, t: nat, op: Op) returns (longer: Schedule)
    requires Allowed(p, n, schedule) && AllowedStep(p, Run(n, schedule), t, op)
    ensures Allowed(p, n, longer) && Run(n, longer) == Step(Run(n, schedule), t, op)
  {
    longer := schedule + [(t, op)];
    assert longer[..|longer| - 1] == schedule;
  }

  lemma HandedOver(s: State, t: nat, r: nat, item: Item)
    requires r < |s.threads| && s.threads[r].pc.Running? && item in s.threads[r].pc.todo && Guarded(s, t, item)
    ensures !Safe(s)
  {
    assert Doomed(s, item);
  }

  /** A reader is in its critical section but no slot says so; a second thread is idle. */
  predicate Exposed(s: State) {
    && |s.slots| == MAX_THREADS && (forall i :: 0 <= i < MAX_THREADS ==> !s.slots[i].active)
    && s.retired == s.loaded == s.ran == [] && |s.threads| == 2
    && s.threads[0].held != [] && s.threads[0].since <= s.now && s.threads[1].pc.Idle?
  }

  function Victim(s: State): Item { Item(0, s.globalEpoch, s.now + 1) }

  /** The second thread has retired an item and is inside a reclaim. */
  function Reclaiming(s: State, epoch: nat, pc: Pc, elapsed: nat): State
    requires Exposed(s)
  {
    State(epoch, s.slots, s.taken, [Victim(s)], [s.threads[0], s.threads[1].(pc := pc)],
          s.now + elapsed, [Victim(s)], [])
  }

  lemma RetireAndBegin(p: Policy, start: Schedule) returns (schedule: Schedule)
    requires Allowed(p, 2, start) && Exposed(Run(2, start))
    ensures var s := Run(2, start);
      Allowed(p, 2, schedule) && Run(2, schedule) == Reclaiming(s, s.globalEpoch, AdvanceStart(true), 3)
  {
    hide Run, Allowed;
    var s := Run(2, start);
    schedule := Then(p, 2, start, 1, Retire);
    assert Run(2, schedule).loaded == [Victim(s)];
    schedule := Then(p, 2, schedule, 1, Continue(false));
    assert Run(2, schedule) == Reclaiming(s, s.globalEpoch, Idle, 2);
    schedule := Then(p, 2, schedule, 1, Reclaim);
  }

  lemma Scans(p: Policy, start: Schedule) returns (schedule: Schedule)
    requires Allowed(p, 2, start) && Exposed(Run(2, start))
    ensures var s := Run(2, start);
      && Allowed(p, 2, schedule)
      && Run(2, schedule) == Reclaiming(s, s.globalEpoch, AdvanceScan(true, s.globalEpoch, SlotCount(s), 0), 5)
  {
    hide Run, Allowed;
    var s := Run(2, start);
    schedule := RetireAndBegin(p, start);
    schedule := Then(p, 2, schedule, 1, Continue(false));
    assert Run(2, schedule) == Reclaiming(s, s.globalEpoch, AdvanceLoaded(true, s.globalEpoch), 4);
    schedule := Then(p, 2, schedule, 1, Continue(false));
  }

  /** With no active slot in the way, the scan for blocking readers runs through. */
  lemma {:induction false} AdvanceRunsThrough(p: Policy, start: Schedule, k: nat) returns (schedule: Schedule)
    requires Allowed(p, 2, start) && Exposed(Run(2, start)) && k <= SlotCount(Run(2, start))
    ensures var s := Run(2, start);
      && Allowed(p, 2, schedule)
      && Run(2, schedule) == Reclaiming(s, s.globalEpoch, AdvanceScan(true, s.globalEpoch, SlotCount(s), k), 5 + k)
  {
    hide Run, Allowed;
    if k == 0 {
      schedule := Scans(p, start);
    } else {
      schedule := AdvanceRunsThrough(p, start, k - 1);
      schedule := Then(p, 2, schedule, 1, Continue(false));
    }
  }

  lemma EpochMovesOn(p: Policy, start: Schedule) returns (schedule: Schedule)
    requires Allowed(p, 2, start) && Exposed(Run(2, start))
    ensures var s := Run(2, start);
      Allowed(p, 2, schedule) && Run(2, schedule) == Reclaiming(s, s.globalEpoch + 1, MinStart, 6 + SlotCount(s))
  {
    hide Run, Allowed;
    schedule := AdvanceRunsThrough(p, start, SlotCount(Run(2, start)));
    schedule := Then(p, 2, schedule, 1, Continue(false));
  }

  lemma MinimumStarts(p: Policy, start: Schedule) returns (schedule: Schedule)
    requires Allowed(p, 2, start) && Exposed(Run(2, start))
    ensures var s := Run(2, start);
      && Allowed(p, 2, schedule)
      && Run(2, schedule)
         == Reclaiming(s, s.globalEpoch + 1, MinScan(s.globalEpoch + 1, SlotCount(s), 0), 8 + SlotCount(s))
  {
    hide Run, Allowed;
    var s := Run(2, start);
    schedule := EpochMovesOn(p, start);
    schedule := Then(p, 2, schedule, 1, Continue(false));
    assert Run(2, schedule) == Reclaiming(s, s.globalEpoch + 1, MinLoaded(s.globalEpoch + 1), 7 + SlotCount(s));
    schedule := Then(p, 2, schedule, 1, Continue(false));
  }

  lemma {:induction false} MinimumRunsThrough(p: Policy, start: Schedule, k: nat) returns (schedule: Schedule)
    requires Allowed(p, 2, start) && Exposed(Run(2, start)) && k <= SlotCount(Run(2, start))
    ensures var s := Run(2, start);
      && Allowed(p, 2, schedule)
      && Run(2, schedule)
         == Reclaiming(s, s.globalEpoch + 1, MinScan(s.globalEpoch + 1, SlotCount(s), k), 8 + SlotCount(s) + k)
  {
    hide Run, Allowed;
    if k == 0 {
      schedule := MinimumStarts(p, start);
    } else {
      schedule := MinimumRunsThrough(p, start, k - 1);
      schedule := Then(p, 2, schedule, 1, Continue(false));
    }
  }

  /** An exposed reader loses an item that is retired while it is inside its section. */
  lemma ExposedIsUnsafe(p: Policy, start: Schedule) returns (schedule: Schedule)
    requires Allowed(p, 2, start) && Exposed(Run(2, start))
    ensures Allowed(p, 2, schedule) && Run(2, schedule).taken == Run(2, start).taken && !Safe(Run(2, schedule))
  {
    hide Run, Allowed, Safe;
    var s := Run(2, start);
    schedule := MinimumRunsThrough(p, start, SlotCount(s));
    schedule := Then(p, 2, schedule, 1, Continue(false));
    assert Stale([Victim(s)], s.globalEpoch + 1) == [Victim(s)];
    HandedOver(Run(2, schedule), 0, 1, Victim(s));
  }

  // ----- How a reader comes to be exposed -----

  const SLOTS := seq(MAX_THREADS, _ => Slot(0, false))
  const OPEN := SLOTS[0 := Slot(1, true)]
  const CLOSED := SLOTS[0 := Slot(1, false)]
  const OWNER := Thread(Registered(0), [], 0, Idle)

  lemma Enters(p: Policy, start: Schedule, t: nat) returns (schedule: Schedule)
    requires Allowed(p, 2, start) && t < 2 && |Run(2, start).threads| == 2 && |Run(2, start).slots| == MAX_THREADS
    requires var th := Run(2, start).threads[t];
      th.pc.Idle? && th.reg == Registered(0) && |th.held| < p.depth
    ensures var s := Run(2, start);
      var th := s.threads[t];
      && Allowed(p, 2, schedule)
      && Run(2, schedule)
         == s.(slots := s.slots[0 := Slot(s.globalEpoch, true)], now := s.now + 3,
               threads := s.threads[t := Thread(th.reg, th.held + [0],
                                                if th.held == [] then s.now + 3 else th.since, Idle)])
  {
    hide Run, Allowed;
    schedule := Then(p, 2, start, t, Enter);
    schedule := Then(p, 2, schedule, t, Continue(false));
    schedule := Then(p, 2, schedule, t, Continue(false));
  }

  /** Only slot 0 is active, and a reader is in its critical section. */
  predicate OneActive(s: State) {
    && |s.slots| == MAX_THREADS && (forall i :: 0 < i < MAX_THREADS ==> !s.slots[i].active)
    && s.retired == s.loaded == s.ran == [] && |s.threads| == 2
    && s.threads[0].held != [] && s.threads[0].since <= s.now && s.threads[1].pc.Idle?
  }

  /** Dropping a guard on slot 0 exposes a reader that still has another guard there. */
  lemma ExitExposes(p: Policy, start: Schedule, t: nat) returns (schedule: Schedule)
    requires Allowed(p, 2, start) && OneActive(Run(2, start)) && t < 2
    requires var th := Run(2, start).threads[t];
      th.pc.Idle? && th.held != [] && th.held[|th.held| - 1] == 0 && (t == 0 ==> |th.held| > 1)
    ensures Allowed(p, 2, schedule) && Exposed(Run(2, schedule)) && Run(2, schedule).taken == Run(2, start).taken
  {
    hide Run, Allowed;
    schedule := Then(p, 2, start, t, Exit);
  }

  lemma Registers(p: Policy) returns (schedule: Schedule)
    ensures Allowed(p, 2, schedule) && Run(2, schedule) == State(1, SLOTS, 1, [], [OWNER, NEW_THREAD], 2, [], [])
  {
    assert seq(2, _ => NEW_THREAD) == [NEW_THREAD, NEW_THREAD];
    schedule := Then(p, 2, [], 0, Register);
  }

  lemma EntersOnce(p: Policy) returns (schedule: Schedule)
    requires p.depth >= 1
    ensures Allowed(p, 2, schedule)
    ensures Run(2, schedule) == State(1, OPEN, 1, [], [OWNER.(held := [0], since := 5), NEW_THREAD], 5, [], [])
  {
    hide Run, Allowed;
    schedule := Registers(p);
    schedule := Enters(p, schedule, 0);
    assert OWNER.held + [0] == [0];
  }

  /** Guards do not nest: two guards on one slot and one registration, and dropping the inner
      guard leaves the outer section unprotected. */
  lemma NestedGuardsUnsafe(p: Policy) returns (schedule: Schedule)
    requires p.depth >= 2 && p.registrations >= 1
    ensures Follows(p, 2, schedule) && Run(2, schedule).taken == 1 && !Safe(Run(2, schedule))
  {
    hide Run, Allowed, Safe;
    schedule := EntersOnce(p);
    schedule := Enters(p, schedule, 0);
    schedule := ExitExposes(p, schedule, 0);
    schedule := ExposedIsUnsafe(p, schedule);
  }

  /** Unregistering with a guard alive clears the guard's flag: one registration suffices. */
  lemma UnregisterInsideUnsafe(p: Policy) returns (schedule: Schedule)
    requires p.depth >= 1 && p.registrations >= 1 && p.unregisterInside
    ensures Follows(p, 2, schedule) && Run(2, schedule).taken == 1 && !Safe(Run(2, schedule))
  {
    hide Run, Allowed, Safe;
    schedule := EntersOnce(p);
    schedule := Then(p, 2, schedule, 0, Unregister);
    schedule := UnregisterExposes(p, schedule);
  }

  lemma UnregisterExposes(p: Policy, start: Schedule) returns (schedule: Schedule)
    requires Allowed(p, 2, start)
    requires Run(2, start)
             == State(1, CLOSED, 1, [], [OWNER.(held := [0], since := 5, pc := Unregistering), NEW_THREAD], 6, [], [])
    ensures Allowed(p, 2, schedule) && Run(2, schedule).taken == 1 && !Safe(Run(2, schedule))
  {
    hide Run, Allowed, Safe;
    schedule := Then(p, 2, start, 0, Continue(false));
    schedule := ExposedIsUnsafe(p, schedule);
  }

  // ----- Shared slots -----

  /** One thread registers; another registers and unregisters k times, using up k slots. */
  lemma {:induction false} UseUpSlots(p: Policy, k: nat) returns (schedule: Schedule)
    requires k < MAX_THREADS
    ensures Allowed(p, 2, schedule)
    ensures Run(2, schedule) == State(1, SLOTS, 1 + k, [], [OWNER, NEW_THREAD], 2 + 3 * k, [], [])
  {
    hide Run, Allowed;
    if k == 0 {
      schedule := Registers(p);
    } else {
      schedule := UseUpSlots(p, k - 1);
      schedule := OneCycle(p, schedule, k);
    }
  }

  lemma OneCycle(p: Policy, before: Schedule, k: nat) returns (schedule: Schedule)
    requires 0 < k < MAX_THREADS && Allowed(p, 2, before)
    requires Run(2, before) == State(1, SLOTS, k, [], [OWNER, NEW_THREAD], 3 * k - 1, [], [])
    ensures Allowed(p, 2, schedule)
    ensures Run(2, schedule) == State(1, SLOTS, 1 + k, [], [OWNER, NEW_THREAD], 2 + 3 * k, [], [])
  {
    hide Run, Allowed;
    schedule := Then(p, 2, before, 1, Register);
    schedule := Then(p, 2, schedule, 1, Unregister);
    assert SLOTS[k := Slot(0, false)] == SLOTS;
    schedule := Then(p, 2, schedule, 1, Continue(false));
  }

  /** Unregistering gives no slot back: the 65th registration shares slot 0, and leaving one
      section ends the protection of the other thread's. */
  lemma SharedSlotUnsafe(p: Policy) returns (schedule: Schedule)
    requires p.depth >= 1 && p.registrations > MAX_THREADS
    ensures Follows(p, 2, schedule) && Run(2, schedule).taken == 65 && !Safe(Run(2, schedule))
  {
    hide Run, Allowed, Safe;
    schedule := UseUpSlots(p, 63);
    schedule := Then(p, 2, schedule, 1, Register);
    assert Run(2, schedule) == State(1, SLOTS, 65, [], [OWNER, OWNER], 192, [], []);
    schedule := Enters(p, schedule, 0);
    schedule := Enters(p, schedule, 1);
    schedule := ExitExposes(p, schedule, 1);
    schedule := ExposedIsUnsafe(p, schedule);
  }

  // ----- The exact condition -----

  /** Every schedule that follows a policy is safe exactly when the policy lets nobody enter,
      or keeps each slot to one thread, guards unnested, and slots registered inside sections. */
  lemma PolicySafeIff(p: Policy)
    ensures AlwaysSafe(p)
            <==> p.depth == 0 || p.registrations == 0
                 || (p.depth == 1 && p.registrations <= 64 && !p.unregisterInside)
  {
    hide Safe, Run, Allowed, Disciplined;
    if p.depth == 0 || p.registrations == 0 {
      forall n: nat, schedule: Schedule | Follows(p, n, schedule) ensures Safe(Run(n, schedule)) {
        RunStaysCalm(p, n, schedule);
        CalmIsSafe(p, Run(n, schedule));
      }
    } else if p.depth == 1 && p.registrations <= MAX_THREADS && !p.unregisterInside {
      forall n: nat, schedule: Schedule | Follows(p, n, schedule) ensures Safe(Run(n, schedule)) {
        FollowingIsDisciplined(p, n, schedule);
        ReclamationIsSafe(n, schedule);
      }
    } else {
      var schedule := FailingRun(p);
    }
  }

  lemma FailingRun(p: Policy) returns (schedule: Schedule)
    requires p.depth > 0 && p.registrations > 0
    requires p.depth > 1 || p.registrations > MAX_THREADS || p.unregisterInside
    ensures Follows(p, 2, schedule) && !Safe(Run(2, schedule))
  {
    if p.depth > 1 { schedule := NestedGuardsUnsafe(p); }
    else if p.unregisterInside { schedule := UnregisterInsideUnsafe(p); }
    else { schedule := SharedSlotUnsafe(p); }
  }

  /** With single guards and no unregistering inside sections, all schedules with at most
      `limit` registrations are safe exactly when there are as many slots. */
  lemma RegistrationLimitIff(limit: nat)
    ensures limit <= 64 <==> AlwaysSafe(Policy(1, limit, false))
  {
    PolicySafeIff(Policy(1, limit, false));
  }

  /** With exclusive slots, guards may be held `depth` deep exactly up to one. */
  lemma NestingLimitIff(depth: nat)
    ensures depth <= 1 <==> AlwaysSafe(Policy(depth, 64, false))
  {
    PolicySafeIff(Policy(depth, MAX_THREADS, false));
  }
}
