/** Epoch-based reclamation as a step machine: every atomic load, store or fetch-add of
    the code, and each critical section under its mutex, is one step, and any schedule of
    threads is allowed. Atomics are sequentially consistent and counters do not wrap. */
module EpochRcu {

  const MAX_THREADS: nat := 64

  datatype Slot = Slot(epoch: nat, active: bool)

  /** A retired resource; `loadedAt` is the time of the epoch load in `retire`. */
  datatype Item = Item(id: nat, epoch: nat, loadedAt: nat)

  /** Where a thread is inside an operation of the manager. */
  datatype Pc =
    | Idle
    | EnterLoaded(epoch: nat)
    | EnterStored
    | Unregistering
    | Retiring(item: Item)
    | AdvanceStart(reclaiming: bool)
    | AdvanceLoaded(reclaiming: bool, epoch: nat)
    | AdvanceScan(reclaiming: bool, epoch: nat, n: nat, i: nat)
    | AdvanceSeen(reclaiming: bool, epoch: nat, n: nat, i: nat)
    | MinStart
    | MinLoaded(min: nat)
    | MinScan(min: nat, n: nat, i: nat)
    | MinSeen(min: nat, n: nat, i: nat)
    | Running(todo: seq<Item>)

  datatype Registration = Unregistered | Registered(slot: nat)

  /** `held` lists the slots of the guards alive, innermost last; `since` is the time of the
      outermost active store. */
  datatype Thread = Thread(reg: Registration, held: seq<nat>, since: nat, pc: Pc)

  const NEW_THREAD := Thread(Unregistered, [], 0, Idle)

  datatype State = State(
    globalEpoch: nat, slots: seq<Slot>, taken: nat, retired: seq<Item>,
    threads: seq<Thread>,
    now: nat, loaded: seq<Item>, ran: seq<Item>)   // history: clock, items retired, deleters run

  function Initial(threads: nat): State {
    State(1, seq(MAX_THREADS, _ => Slot(0, false)), 0, [], seq(threads, _ => NEW_THREAD), 1, [], [])
  }

  datatype Op =
    | Register | Enter | Exit | Unregister | Retire | TryAdvance | Reclaim
    | Continue(timedOut: bool)   // next atomic step of the current operation

  function Min(a: nat, b: nat): nat { if a <= b then a else b }

  function SlotCount(s: State): nat { Min(s.taken, MAX_THREADS) }

  function At(s: State, t: nat, pc: Pc): State
    requires t < |s.threads|
  {
    s.(threads := s.threads[t := s.threads[t].(pc := pc)])
  }

  function Stale(items: seq<Item>, min: nat): seq<Item> {
    if items == [] then []
    else (if items[0].epoch < min then [items[0]] else []) + Stale(items[1..], min)
  }

  function Fresh(items: seq<Item>, min: nat): seq<Item> {
    if items == [] then []
    else (if items[0].epoch < min then [] else [items[0]]) + Fresh(items[1..], min)
  }

  /** Starting an operation; operations that are a single atomic step happen at once. */
  function Begin(s: State, t: nat, op: Op): State
    requires t < |s.threads| && |s.slots| == MAX_THREADS
  {
    var th := s.threads[t];
    match op
    case Register =>
      if th.reg.Registered? then s
      else
        var slot := if s.taken >= MAX_THREADS then 0 else s.taken;
        s.(taken := s.taken + 1, threads := s.threads[t := th.(reg := Registered(slot))])
    case Enter =>
      if th.reg.Unregistered? then s else At(s, t, EnterLoaded(s.globalEpoch))
    case Exit =>
      // the innermost guard's slot, or the thread's own when it calls exit without a guard
      if th.held == [] && th.reg.Unregistered? then s
      else
        var slot := if th.held == [] then th.reg.slot else th.held[|th.held| - 1];
        var held := if th.held == [] then [] else th.held[..|th.held| - 1];
        if slot >= MAX_THREADS then s
        else s.(slots := s.slots[slot := s.slots[slot].(active := false)], threads := s.threads[t := th.(held := held)])
    case Unregister =>
      if th.reg.Unregistered? || th.reg.slot >= MAX_THREADS then s
      else At(s.(slots := s.slots[th.reg.slot := s.slots[th.reg.slot].(active := false)]), t, Unregistering)
    case Retire =>
      var item := Item(|s.loaded|, s.globalEpoch, s.now);
      At(s.(loaded := s.loaded + [item]), t, Retiring(item))
    case TryAdvance => At(s, t, AdvanceStart(false))
    case Reclaim => At(s, t, AdvanceStart(true))
    case Continue(_) => s
  }

  /** The next atomic step of the operation a thread is in. */
  function Resume(s: State, t: nat, timedOut: bool): State
    requires t < |s.threads| && |s.slots| == MAX_THREADS
  {
    var th := s.threads[t];
    match th.pc
    case Idle => s
    case EnterLoaded(e) =>
      if th.reg.Unregistered? || th.reg.slot >= MAX_THREADS then s
      else At(s.(slots := s.slots[th.reg.slot := s.slots[th.reg.slot].(epoch := e)]), t, EnterStored)
    case EnterStored =>
      if th.reg.Unregistered? || th.reg.slot >= MAX_THREADS then s
      else s.(slots := s.slots[th.reg.slot := s.slots[th.reg.slot].(active := true)],
              threads := s.threads[t := Thread(th.reg, th.held + [th.reg.slot],
                                               if th.held == [] then s.now else th.since, Idle)])
    case Unregistering =>
      if th.reg.Unregistered? || th.reg.slot >= MAX_THREADS then s
      else s.(slots := s.slots[th.reg.slot := s.slots[th.reg.slot].(epoch := 0)],
              threads := s.threads[t := th.(reg := Unregistered, pc := Idle)])
    case Retiring(item) => At(s.(retired := s.retired + [item]), t, Idle)
    case AdvanceStart(r) => At(s, t, AdvanceLoaded(r, s.globalEpoch))
    case AdvanceLoaded(r, e) => At(s, t, AdvanceScan(r, e, SlotCount(s), 0))
    case AdvanceScan(r, e, n, i) =>
      if i < n && i < MAX_THREADS then
        At(s, t, if s.slots[i].active then AdvanceSeen(r, e, n, i) else AdvanceScan(r, e, n, i + 1))
      else At(s.(globalEpoch := s.globalEpoch + 1), t, if r then MinStart else Idle)
    case AdvanceSeen(r, e, n, i) =>
      if i < MAX_THREADS && s.slots[i].epoch < e && !timedOut then At(s, t, if r then MinStart else Idle)
      else At(s, t, AdvanceScan(r, e, n, i + 1))
    case MinStart => At(s, t, MinLoaded(s.globalEpoch))
    case MinLoaded(min) => At(s, t, MinScan(min, SlotCount(s), 0))
    case MinScan(min, n, i) =>
      if i < n && i < MAX_THREADS then
        At(s, t, if s.slots[i].active then MinSeen(min, n, i) else MinScan(min, n, i + 1))
      else At(s.(retired := Fresh(s.retired, min)), t, Running(Stale(s.retired, min)))
    case MinSeen(min, n, i) =>
      At(s, t, MinScan(if i < MAX_THREADS then Min(min, s.slots[i].epoch) else min, n, i + 1))
    case Running(todo) =>
      if todo == [] then At(s, t, Idle)
      else At(s.(ran := s.ran + [todo[0]]), t, Running(todo[1..]))
  }

  /** One step of thread `t`; disabled steps leave the state alone. */
  function Step(s: State, t: nat, op: Op): State {
    if t >= |s.threads| || |s.slots| != MAX_THREADS then s
    else
      var tick := s.(now := s.now + 1);
      if op.Continue? then Resume(tick, t, op.timedOut)
      else if s.threads[t].pc.Idle? then Begin(tick, t, op)
      else s
  }

  type Schedule = seq<(nat, Op)>

  function Run(n: nat, schedule: Schedule): State {
    if schedule == [] then Initial(n)
    else
      var last := schedule[|schedule| - 1];
      Step(Run(n, schedule[..|schedule| - 1]), last.0, last.1)
  }

  // ----- Safety -----

  /** A reader whose active store preceded the item's epoch load is still in that section. */
  predicate Guarded(s: State, t: nat, item: Item) {
    t < |s.threads| && s.threads[t].held != [] && s.threads[t].since < item.loadedAt
  }

  /** Items whose deleter has run or is about to be run by some reclaimer. */
  predicate Doomed(s: State, item: Item) {
    item in s.ran || exists t :: 0 <= t < |s.threads| && s.threads[t].pc.Running? && item in s.threads[t].pc.todo
  }

  /** No such reader exists for any item handed to its deleter. */
  ghost predicate Safe(s: State) {
    forall item, t :: Doomed(s, item) ==> !Guarded(s, t, item)
  }

  /** Slots are never shared, guards never nest, and a thread keeps its slot while it holds
      one: at most 64 registrations, and no `enter` or `unregister` inside a critical section. */
  predicate DisciplinedStep(s: State, t: nat, op: Op) {
    t < |s.threads| && s.threads[t].pc.Idle? ==>
      && (op.Register? && s.threads[t].reg.Unregistered? ==> s.taken < MAX_THREADS)
      && (op.Enter? || op.Unregister? ==> s.threads[t].held == [])
  }

  predicate Disciplined(n: nat, schedule: Schedule) {
    schedule == [] ||
    (Disciplined(n, schedule[..|schedule| - 1])
     && var last := schedule[|schedule| - 1];
        DisciplinedStep(Run(n, schedule[..|schedule| - 1]), last.0, last.1))
  }

  // ----- The invariant -----

  predicate ThreadOk(s: State, t: nat)
    requires t < |s.threads| && |s.slots| == MAX_THREADS && s.taken <= MAX_THREADS
  {
    var th := s.threads[t];
    && th.since <= s.now
    && (th.reg.Registered? ==> th.reg.slot < s.taken)
    && (th.held != [] ==> th.reg.Registered? && th.held == [th.reg.slot]
                          && s.slots[th.reg.slot].active && s.slots[th.reg.slot].epoch <= s.globalEpoch
                          && !th.pc.EnterLoaded? && !th.pc.EnterStored? && !th.pc.Unregistering?)
    && match th.pc
       case EnterLoaded(e) => e <= s.globalEpoch && th.reg.Registered?
       case EnterStored => th.reg.Registered? && s.slots[th.reg.slot].epoch <= s.globalEpoch
       case Unregistering => th.reg.Registered?
       case Retiring(item) => item in s.loaded
       case MinLoaded(min) => min <= s.globalEpoch
       case MinScan(min, n, i) => min <= s.globalEpoch && n <= MAX_THREADS
       case MinSeen(min, n, i) => min <= s.globalEpoch && n <= MAX_THREADS
       case Running(todo) => forall x :: x in todo ==> x in s.loaded
       case _ => true
  }

  predicate SlotsOwned(s: State) {
    forall t, u :: 0 <= t < u < |s.threads| && s.threads[t].reg.Registered? && s.threads[u].reg.Registered? ==>
      s.threads[t].reg.slot != s.threads[u].reg.slot
  }

  predicate ItemsOk(s: State) {
    && (forall k :: 0 <= k < |s.loaded| ==> s.loaded[k].epoch <= s.globalEpoch && s.loaded[k].loadedAt <= s.now)
    && (forall x :: x in s.retired ==> x in s.loaded)
    && (forall x :: x in s.ran ==> x in s.loaded)
  }

  /** A scanning reclaimer has accounted for the epoch, or has the slot still ahead. */
  predicate Covers(pc: Pc, slot: nat, epoch: nat) {
    match pc
    case MinScan(min, n, i) => min <= epoch || i <= slot < n
    case MinSeen(min, n, i) => min <= epoch || i <= slot < n
    case _ => true
  }

  /** What reader t holds of item x: its published epoch is not newer, and every
      reclaimer has seen it or will. */
  predicate Held(s: State, t: nat, x: Item)
    requires t < |s.threads|
  {
    && s.threads[t].reg.Registered? && s.threads[t].reg.slot < |s.slots|
    && s.slots[s.threads[t].reg.slot].epoch <= x.epoch
    && forall r :: 0 <= r < |s.threads| ==> Covers(s.threads[r].pc, s.threads[t].reg.slot, x.epoch)
  }

  ghost predicate Inv(s: State) {
    && |s.slots| == MAX_THREADS && s.taken <= MAX_THREADS
    && (forall t :: 0 <= t < |s.threads| ==> ThreadOk(s, t))
    && SlotsOwned(s) && ItemsOk(s)
    && (forall t, x :: 0 <= t < |s.threads| && x in s.loaded && Guarded(s, t, x) ==> Held(s, t, x))
    && Safe(s)
  }

  lemma {:induction false} SplitMembers(items: seq<Item>, min: nat, x: Item)
    ensures x in Stale(items, min) <==> x in items && x.epoch < min
    ensures x in Fresh(items, min) <==> x in items && x.epoch >= min
  {
    if items != [] {
      SplitMembers(items[1..], min, x);
      assert items == [items[0]] + items[1..];
    }
  }

  // ----- Every step keeps the invariant -----

  lemma TickKeepsInv(s: State)
    requires Inv(s)
    ensures Inv(s.(now := s.now + 1))
  {
    var s' := s.(now := s.now + 1);
    forall t | 0 <= t < |s'.threads| ensures ThreadOk(s', t) { assert ThreadOk(s, t); }
    forall t, x | 0 <= t < |s'.threads| && x in s'.loaded && Guarded(s', t, x) ensures Held(s', t, x) {
      assert Guarded(s, t, x) && Held(s, t, x);
    }
    forall x, t | Doomed(s', x) ensures !Guarded(s', t, x) { assert Doomed(s, x) && !Guarded(s, t, x); }
  }

  /** Steps that only move the program counter of one thread. */
  lemma MoveKeepsInv(s: State, t: nat, pc: Pc)
    requires Inv(s) && t < |s.threads| && ThreadOk(At(s, t, pc), t) && !pc.Running?
    requires forall u, x :: 0 <= u < |s.threads| && x in s.loaded && Guarded(s, u, x) ==>
      Covers(pc, s.threads[u].reg.slot, x.epoch)
    ensures Inv(At(s, t, pc))
  {
    var s' := At(s, t, pc);
    forall u | 0 <= u < |s'.threads| ensures ThreadOk(s', u) { assert u != t ==> ThreadOk(s, u); }
    forall u, x | 0 <= u < |s'.threads| && x in s'.loaded && Guarded(s', u, x) ensures Held(s', u, x) {
      assert Guarded(s, u, x) && Held(s, u, x);
    }
    forall x, u | Doomed(s', x) ensures !Guarded(s', u, x) { assert Doomed(s, x) && !Guarded(s, u, x); }
  }

  /** Steps of thread t that change its own slot and record while it holds no guard after. */
  lemma OwnSlotKeepsInv(s: State, t: nat, slot: Slot, th: Thread)
    requires Inv(s) && t < |s.threads| && s.threads[t].reg.Registered? && s.threads[t].reg.slot < MAX_THREADS
    requires th.held == [] && (th.reg == s.threads[t].reg || th.reg.Unregistered?)
    requires var s' := s.(slots := s.slots[s.threads[t].reg.slot := slot], threads := s.threads[t := th]);
      ThreadOk(s', t)
    requires th.pc.Idle? || th.pc.EnterStored? || th.pc.Unregistering? || th.pc == s.threads[t].pc
    ensures Inv(s.(slots := s.slots[s.threads[t].reg.slot := slot], threads := s.threads[t := th]))
  {
    assert ThreadOk(s, t);
    var s' := s.(slots := s.slots[s.threads[t].reg.slot := slot], threads := s.threads[t := th]);
    forall u | 0 <= u < |s'.threads| ensures ThreadOk(s', u) {
      if u != t { assert ThreadOk(s, u); OtherSlot(s, t, u); }
    }
    forall u, x | 0 <= u < |s'.threads| && x in s'.loaded && Guarded(s', u, x) ensures Held(s', u, x) {
      assert u != t && Guarded(s, u, x) && Held(s, u, x);
      OtherSlot(s, t, u);
    }
    forall x, u | Doomed(s', x) ensures !Guarded(s', u, x) { assert Doomed(s, x) && !Guarded(s, u, x); }
  }

  lemma OtherSlot(s: State, t: nat, u: nat)
    requires SlotsOwned(s) && t < |s.threads| && u < |s.threads| && t != u
    ensures s.threads[t].reg.Registered? && s.threads[u].reg.Registered? ==>
      s.threads[t].reg.slot != s.threads[u].reg.slot
  {
    if t < u {} else {}
  }

  lemma RegisterKeepsInv(s: State, t: nat)
    requires Inv(s) && t < |s.threads| && s.threads[t].pc.Idle?
    requires s.threads[t].reg.Unregistered? ==> s.taken < MAX_THREADS
    ensures Inv(Begin(s, t, Register))
  {
    assert ThreadOk(s, t);
    var s' := Begin(s, t, Register);
    forall u, v | 0 <= u < v < |s'.threads| && s'.threads[u].reg.Registered? && s'.threads[v].reg.Registered?
      ensures s'.threads[u].reg.slot != s'.threads[v].reg.slot
    {
      assert ThreadOk(s, u) && ThreadOk(s, v);
    }
    forall u | 0 <= u < |s'.threads| ensures ThreadOk(s', u) { assert ThreadOk(s, u); }
    forall u, x | 0 <= u < |s'.threads| && x in s'.loaded && Guarded(s', u, x) ensures Held(s', u, x) {
      assert Guarded(s, u, x) && Held(s, u, x);
    }
    forall x, u | Doomed(s', x) ensures !Guarded(s', u, x) { assert Doomed(s, x) && !Guarded(s, u, x); }
  }

  lemma RetireKeepsInv(s: State, t: nat)
    requires Inv(s) && t < |s.threads| && s.threads[t].pc.Idle?
    ensures Inv(Begin(s, t, Retire))
  {
    var item := Item(|s.loaded|, s.globalEpoch, s.now);
    var s' := Begin(s, t, Retire);
    assert item in s'.loaded;
    forall u | 0 <= u < |s'.threads| ensures ThreadOk(s', u) { assert ThreadOk(s, u); }
    forall u, x | 0 <= u < |s'.threads| && x in s'.loaded && Guarded(s', u, x) ensures Held(s', u, x) {
      assert ThreadOk(s, u);
      if x in s.loaded {
        assert Guarded(s, u, x) && Held(s, u, x);
      } else {
        assert x == item;
        forall r | 0 <= r < |s'.threads| ensures Covers(s'.threads[r].pc, s'.threads[u].reg.slot, x.epoch) {
          assert ThreadOk(s, r);
        }
      }
    }
    forall x, u | Doomed(s', x) ensures !Guarded(s', u, x) { assert Doomed(s, x) && !Guarded(s, u, x); }
  }

  lemma ActivateKeepsInv(s: State, t: nat)
    requires Inv(s) && t < |s.threads| && s.threads[t].pc.EnterStored?
    ensures Inv(Resume(s, t, false))
  {
    assert ThreadOk(s, t);
    var s' := Resume(s, t, false);
    forall u | 0 <= u < |s'.threads| ensures ThreadOk(s', u) {
      if u != t { assert ThreadOk(s, u); OtherSlot(s, t, u); }
    }
    forall u, x | 0 <= u < |s'.threads| && x in s'.loaded && Guarded(s', u, x) ensures Held(s', u, x) {
      assert u != t && Guarded(s, u, x) && Held(s, u, x);
      OtherSlot(s, t, u);
    }
    forall x, u | Doomed(s', x) ensures !Guarded(s', u, x) {
      assert Doomed(s, x) && !Guarded(s, u, x);
      assert x in s.loaded by { DoomedIsLoaded(s, x); }
    }
  }

  lemma DoomedIsLoaded(s: State, x: Item)
    requires Inv(s) && Doomed(s, x)
    ensures x in s.loaded
  {
    if x !in s.ran {
      var t :| 0 <= t < |s.threads| && s.threads[t].pc.Running? && x in s.threads[t].pc.todo;
      assert ThreadOk(s, t);
    }
  }

  lemma AdvanceKeepsInv(s: State, t: nat, pc: Pc)
    requires Inv(s) && t < |s.threads| && (pc.Idle? || pc.MinStart?)
    requires s.threads[t].pc.AdvanceScan?
    ensures Inv(At(s.(globalEpoch := s.globalEpoch + 1), t, pc))
  {
    var s' := At(s.(globalEpoch := s.globalEpoch + 1), t, pc);
    forall u | 0 <= u < |s'.threads| ensures ThreadOk(s', u) { assert ThreadOk(s, u); }
    forall u, x | 0 <= u < |s'.threads| && x in s'.loaded && Guarded(s', u, x) ensures Held(s', u, x) {
      assert Guarded(s, u, x) && Held(s, u, x);
    }
    forall x, u | Doomed(s', x) ensures !Guarded(s', u, x) { assert Doomed(s, x) && !Guarded(s, u, x); }
  }

  lemma PushKeepsInv(s: State, t: nat)
    requires Inv(s) && t < |s.threads| && s.threads[t].pc.Retiring?
    ensures Inv(Resume(s, t, false))
  {
    assert ThreadOk(s, t);
    var s' := Resume(s, t, false);
    forall u | 0 <= u < |s'.threads| ensures ThreadOk(s', u) { assert ThreadOk(s, u); }
    forall u, x | 0 <= u < |s'.threads| && x in s'.loaded && Guarded(s', u, x) ensures Held(s', u, x) {
      assert Guarded(s, u, x) && Held(s, u, x);
    }
    forall x, u | Doomed(s', x) ensures !Guarded(s', u, x) { assert Doomed(s, x) && !Guarded(s, u, x); }
  }

  lemma FinishedScan(s: State, t: nat, u: nat, x: Item)
    requires Inv(s) && t < |s.threads| && s.threads[t].pc.MinScan?
    requires s.threads[t].pc.i >= s.threads[t].pc.n || s.threads[t].pc.i >= MAX_THREADS
    requires x in s.loaded && Guarded(s, u, x)
    ensures s.threads[t].pc.min <= x.epoch
  {
    assert ThreadOk(s, u) && ThreadOk(s, t) && Held(s, u, x);
    assert Covers(s.threads[t].pc, s.threads[u].reg.slot, x.epoch);
  }

  /** The heart of the argument: what a finished scan lets through is guarded by nobody. */
  lemma SweepKeepsInv(s: State, t: nat)
    requires Inv(s) && t < |s.threads| && s.threads[t].pc.MinScan?
    requires s.threads[t].pc.i >= s.threads[t].pc.n || s.threads[t].pc.i >= MAX_THREADS
    ensures Inv(Resume(s, t, false))
  {
    assert ThreadOk(s, t);
    var s' := Resume(s, t, false);
    var min := s.threads[t].pc.min;
    forall x ensures x in s'.retired || x in s'.threads[t].pc.todo ==> x in s.loaded {
      SplitMembers(s.retired, min, x);
    }
    forall u | 0 <= u < |s'.threads| ensures ThreadOk(s', u) { assert ThreadOk(s, u); }
    forall u, x | 0 <= u < |s'.threads| && x in s'.loaded && Guarded(s', u, x) ensures Held(s', u, x) {
      assert Guarded(s, u, x) && Held(s, u, x);
    }
    forall x, u | Doomed(s', x) ensures !Guarded(s', u, x) {
      if Doomed(s, x) {
        assert !Guarded(s, u, x);
      } else {
        assert x in Stale(s.retired, min);
        SplitMembers(s.retired, min, x);
        if Guarded(s, u, x) { FinishedScan(s, t, u, x); }
      }
    }
  }

  lemma RunKeepsInv(s: State, t: nat)
    requires Inv(s) && t < |s.threads| && s.threads[t].pc.Running?
    ensures Inv(Resume(s, t, false))
  {
    assert ThreadOk(s, t);
    if s.threads[t].pc.todo == [] { MoveKeepsInv(s, t, Idle); } else { RunOneKeepsInv(s, t); }
  }

  lemma RunOneKeepsInv(s: State, t: nat)
    requires Inv(s) && t < |s.threads| && s.threads[t].pc.Running? && s.threads[t].pc.todo != []
    ensures Inv(Resume(s, t, false))
  {
    assert ThreadOk(s, t);
    var s', todo := Resume(s, t, false), s.threads[t].pc.todo;
    assert todo == [todo[0]] + todo[1..];
    forall u | 0 <= u < |s'.threads| ensures ThreadOk(s', u) { assert ThreadOk(s, u); }
    forall u, x | 0 <= u < |s'.threads| && x in s'.loaded && Guarded(s', u, x) ensures Held(s', u, x) {
      assert Guarded(s, u, x) && Held(s, u, x);
    }
    forall x, u | Doomed(s', x) ensures !Guarded(s', u, x) {
      RanWasDoomed(s, t, x);
      assert !Guarded(s, u, x);
    }
  }

  lemma RanWasDoomed(s: State, t: nat, x: Item)
    requires t < |s.threads| && |s.slots| == MAX_THREADS && s.threads[t].pc.Running? && s.threads[t].pc.todo != []
    requires Doomed(Resume(s, t, false), x)
    ensures Doomed(s, x)
  {
    var s', todo := Resume(s, t, false), s.threads[t].pc.todo;
    if x in s'.ran {
      if x !in s.ran { assert x == todo[0]; }
    } else {
      var u :| 0 <= u < |s'.threads| && s'.threads[u].pc.Running? && x in s'.threads[u].pc.todo;
      assert s.threads[u].pc.Running? && x in s.threads[u].pc.todo;
    }
  }

  lemma BeginKeepsInv(s: State, t: nat, op: Op)
    requires Inv(s) && t < |s.threads| && s.threads[t].pc.Idle?
    requires op.Register? && s.threads[t].reg.Unregistered? ==> s.taken < MAX_THREADS
    requires op.Enter? || op.Unregister? ==> s.threads[t].held == []
    ensures Inv(Begin(s, t, op))
  {
    var th := s.threads[t];
    assert ThreadOk(s, t);
    match op
    case Register => RegisterKeepsInv(s, t);
    case Retire => RetireKeepsInv(s, t);
    case Exit =>
      if th.reg.Registered? {
        OwnSlotKeepsInv(s, t, s.slots[th.reg.slot].(active := false), th.(held := []));
      }
    case Unregister =>
      if th.reg.Registered? {
        OwnSlotKeepsInv(s, t, s.slots[th.reg.slot].(active := false), th.(pc := Unregistering));
      }
    case Enter =>
      if th.reg.Registered? { MoveKeepsInv(s, t, EnterLoaded(s.globalEpoch)); }
    case TryAdvance => MoveKeepsInv(s, t, AdvanceStart(false));
    case Reclaim => MoveKeepsInv(s, t, AdvanceStart(true));
    case Continue(_) =>
  }

  lemma ScanStepCovers(s: State, t: nat, pc: Pc)
    requires Inv(s) && t < |s.threads|
    requires match s.threads[t].pc
      case MinLoaded(min) => pc == MinScan(min, SlotCount(s), 0)
      case MinScan(min, n, i) =>
        i < n && i < MAX_THREADS && pc == if s.slots[i].active then MinSeen(min, n, i) else MinScan(min, n, i + 1)
      case MinSeen(min, n, i) =>
        pc == MinScan(if i < MAX_THREADS then Min(min, s.slots[i].epoch) else min, n, i + 1)
      case _ => false
    ensures forall u, x :: 0 <= u < |s.threads| && x in s.loaded && Guarded(s, u, x) ==>
      Covers(pc, s.threads[u].reg.slot, x.epoch)
  {
    forall u, x | 0 <= u < |s.threads| && x in s.loaded && Guarded(s, u, x)
      ensures Covers(pc, s.threads[u].reg.slot, x.epoch)
    {
      assert ThreadOk(s, u) && Held(s, u, x);
      assert Covers(s.threads[t].pc, s.threads[u].reg.slot, x.epoch);
    }
  }

  lemma ReaderResumeKeepsInv(s: State, t: nat)
    requires Inv(s) && t < |s.threads|
    requires s.threads[t].pc.EnterLoaded? || s.threads[t].pc.EnterStored? || s.threads[t].pc.Unregistering?
    ensures Inv(Resume(s, t, false))
  {
    var th := s.threads[t];
    assert ThreadOk(s, t);
    match th.pc
    case EnterLoaded(e) =>
      OwnSlotKeepsInv(s, t, s.slots[th.reg.slot].(epoch := e), th.(pc := EnterStored));
    case EnterStored => ActivateKeepsInv(s, t);
    case Unregistering =>
      OwnSlotKeepsInv(s, t, s.slots[th.reg.slot].(epoch := 0), th.(reg := Unregistered, pc := Idle));
  }

  lemma AdvanceResumeKeepsInv(s: State, t: nat, timedOut: bool)
    requires Inv(s) && t < |s.threads|
    requires var pc := s.threads[t].pc; pc.AdvanceStart? || pc.AdvanceLoaded? || pc.AdvanceSeen? || pc.MinStart?
    ensures Inv(Resume(s, t, timedOut))
  {
    assert ThreadOk(s, t);
    match s.threads[t].pc
    case AdvanceStart(r) => MoveKeepsInv(s, t, AdvanceLoaded(r, s.globalEpoch));
    case AdvanceLoaded(r, e) => MoveKeepsInv(s, t, AdvanceScan(r, e, SlotCount(s), 0));
    case AdvanceSeen(r, e, n, i) =>
      MoveKeepsInv(s, t, if i < MAX_THREADS && s.slots[i].epoch < e && !timedOut
                         then (if r then MinStart else Idle) else AdvanceScan(r, e, n, i + 1));
    case MinStart => MoveKeepsInv(s, t, MinLoaded(s.globalEpoch));
  }

  lemma MinResumeKeepsInv(s: State, t: nat)
    requires Inv(s) && t < |s.threads|
    requires s.threads[t].pc.MinLoaded? || s.threads[t].pc.MinScan? || s.threads[t].pc.MinSeen?
    ensures Inv(Resume(s, t, false))
  {
    assert ThreadOk(s, t);
    match s.threads[t].pc
    case MinLoaded(min) =>
      ScanStepCovers(s, t, MinScan(min, SlotCount(s), 0));
      MoveKeepsInv(s, t, MinScan(min, SlotCount(s), 0));
    case MinScan(min, n, i) =>
      if i < n && i < MAX_THREADS {
        var pc := if s.slots[i].active then MinSeen(min, n, i) else MinScan(min, n, i + 1);
        ScanStepCovers(s, t, pc);
        MoveKeepsInv(s, t, pc);
      } else {
        SweepKeepsInv(s, t);
      }
    case MinSeen(min, n, i) =>
      var pc := MinScan(if i < MAX_THREADS then Min(min, s.slots[i].epoch) else min, n, i + 1);
      ScanStepCovers(s, t, pc);
      MoveKeepsInv(s, t, pc);
  }

  lemma TimeoutOnlyBlocksAdvance(s: State, t: nat, timedOut: bool)
    requires t < |s.threads| && |s.slots| == MAX_THREADS && !s.threads[t].pc.AdvanceSeen?
    ensures Resume(s, t, timedOut) == Resume(s, t, false)
  {}

  lemma ResumeKeepsInv(s: State, t: nat, timedOut: bool)
    requires Inv(s) && t < |s.threads|
    ensures Inv(Resume(s, t, timedOut))
  {
    if !s.threads[t].pc.AdvanceSeen? { TimeoutOnlyBlocksAdvance(s, t, timedOut); }
    if s.threads[t].pc.Idle? { assert Resume(s, t, timedOut) == s; }
    hide Inv, Resume;
    match s.threads[t].pc
    case Idle =>
    case EnterLoaded(_) => ReaderResumeKeepsInv(s, t);
    case EnterStored => ReaderResumeKeepsInv(s, t);
    case Unregistering => ReaderResumeKeepsInv(s, t);
    case Retiring(_) => PushKeepsInv(s, t);
    case AdvanceScan(_, _, _, _) => ScanAdvanceKeepsInv(s, t);
    case MinLoaded(_) => MinResumeKeepsInv(s, t);
    case MinScan(_, _, _) => MinResumeKeepsInv(s, t);
    case MinSeen(_, _, _) => MinResumeKeepsInv(s, t);
    case Running(_) => RunKeepsInv(s, t);
    case _ => AdvanceResumeKeepsInv(s, t, timedOut);
  }

  lemma ScanAdvanceKeepsInv(s: State, t: nat)
    requires Inv(s) && t < |s.threads| && s.threads[t].pc.AdvanceScan?
    ensures Inv(Resume(s, t, false))
  {
    assert ThreadOk(s, t);
    var AdvanceScan(r, e, n, i) := s.threads[t].pc;
    if i < n && i < MAX_THREADS {
      MoveKeepsInv(s, t, if s.slots[i].active then AdvanceSeen(r, e, n, i) else AdvanceScan(r, e, n, i + 1));
    } else {
      AdvanceKeepsInv(s, t, if r then MinStart else Idle);
    }
  }

  lemma StepKeepsInv(s: State, t: nat, op: Op)
    requires Inv(s) && DisciplinedStep(s, t, op)
    ensures Inv(Step(s, t, op))
  {
    TickKeepsInv(s);
    hide Inv, Begin, Resume;
    var tick := s.(now := s.now + 1);
    if t < |s.threads| {
      if op.Continue? { ResumeKeepsInv(tick, t, op.timedOut); }
      else if s.threads[t].pc.Idle? { BeginKeepsInv(tick, t, op); }
    }
  }

  lemma InitialInv(n: nat)
    ensures Inv(Initial(n))
  {
    var s := Initial(n);
    forall t | 0 <= t < n ensures ThreadOk(s, t) {}
  }

  lemma {:induction false} RunInv(n: nat, schedule: Schedule)
    requires Disciplined(n, schedule)
    ensures Inv(Run(n, schedule))
  {
    hide Inv, Step, DisciplinedStep;
    if schedule == [] {
      InitialInv(n);
    } else {
      var last := schedule[|schedule| - 1];
      RunInv(n, schedule[..|schedule| - 1]);
      StepKeepsInv(Run(n, schedule[..|schedule| - 1]), last.0, last.1);
    }
  }

  /** In every disciplined schedule, no deleter runs while a reader that was active at the
      item's epoch load is still in the same critical section, timed out or not. */
  lemma ReclamationIsSafe(n: nat, schedule: Schedule)
    requires Disciplined(n, schedule)
    ensures Safe(Run(n, schedule))
  {
    RunInv(n, schedule);
  }

  // ----- The same, without the history of the readers -----

  /** Thread t was inside a critical section after step k and after every step since. */
  ghost predicate InsideSince(n: nat, schedule: Schedule, t: nat, k: nat) {
    forall m :: k <= m <= |schedule| ==>
      var threads := Run(n, schedule[..m]).threads;
      t < |threads| && threads[t].held != []
  }

  lemma InsideNow(n: nat, schedule: Schedule, t: nat, k: nat, m: nat)
    requires InsideSince(n, schedule, t, k) && k <= m <= |schedule|
    ensures t < |Run(n, schedule[..m]).threads| && Run(n, schedule[..m]).threads[t].held != []
  {}

  lemma SectionUnbroken(s: State, t: nat, u: nat, op: Op)
    requires t < |s.threads| && s.threads[t].held != []
    ensures var s' := Step(s, u, op);
      |s'.threads| == |s.threads| && (s'.threads[t].held != [] ==> s'.threads[t].since == s.threads[t].since)
  {
    hide Begin, Resume;
    if u < |s.threads| && |s.slots| == MAX_THREADS {
      var tick := s.(now := s.now + 1);
      if op.Continue? { ResumeKeepsSince(tick, t, u, op.timedOut); } else { BeginKeepsSince(tick, t, u, op); }
    }
  }

  lemma BeginKeepsSince(s: State, t: nat, u: nat, op: Op)
    requires t < |s.threads| && u < |s.threads| && |s.slots| == MAX_THREADS
    ensures |Begin(s, u, op).threads| == |s.threads| && Begin(s, u, op).threads[t].since == s.threads[t].since
  {}

  lemma ResumeKeepsSince(s: State, t: nat, u: nat, timedOut: bool)
    requires t < |s.threads| && u < |s.threads| && |s.slots| == MAX_THREADS && s.threads[t].held != []
    ensures |Resume(s, u, timedOut).threads| == |s.threads|
    ensures Resume(s, u, timedOut).threads[t].since == s.threads[t].since
  {
    hide Stale, Fresh;
  }

  lemma {:induction false} SectionKept(n: nat, schedule: Schedule, t: nat, k: nat)
    requires k <= |schedule| && InsideSince(n, schedule, t, k)
    ensures t < |Run(n, schedule).threads| && t < |Run(n, schedule[..k]).threads|
    ensures Run(n, schedule).threads[t].since == Run(n, schedule[..k]).threads[t].since
    decreases |schedule|
  {
    hide Step;
    InsideNow(n, schedule, t, k, |schedule|);
    InsideNow(n, schedule, t, k, k);
    assert schedule[..|schedule|] == schedule;
    if k < |schedule| {
      var l := |schedule| - 1;
      assert schedule[..l][..k] == schedule[..k];
      InsideNow(n, schedule, t, k, l);
      forall m | k <= m <= l
        ensures t < |Run(n, schedule[..l][..m]).threads| && Run(n, schedule[..l][..m]).threads[t].held != []
      {
        assert schedule[..l][..m] == schedule[..m];
        InsideNow(n, schedule, t, k, m);
      }
      SectionKept(n, schedule[..l], t, k);
      SectionUnbroken(Run(n, schedule[..l]), t, schedule[l].0, schedule[l].1);
    }
  }

  lemma StepLoads(s: State, t: nat, op: Op, x: Item)
    ensures s.now <= Step(s, t, op).now
    ensures x in Step(s, t, op).loaded && x !in s.loaded ==> x.loadedAt > s.now
  {
    hide Stale, Fresh;
  }

  lemma {:induction false} LoadedLater(n: nat, schedule: Schedule, k: nat, x: Item)
    requires k <= |schedule|
    ensures Run(n, schedule[..k]).now <= Run(n, schedule).now
    ensures x in Run(n, schedule).loaded && x !in Run(n, schedule[..k]).loaded ==>
      x.loadedAt > Run(n, schedule[..k]).now
    decreases |schedule|
  {
    hide Step;
    assert schedule[..|schedule|] == schedule;
    if k < |schedule| {
      var l := |schedule| - 1;
      assert schedule[..l][..k] == schedule[..k];
      LoadedLater(n, schedule[..l], k, x);
      StepLoads(Run(n, schedule[..l]), schedule[l].0, schedule[l].1, x);
    }
  }

  lemma {:induction false} DisciplinedBefore(n: nat, schedule: Schedule, k: nat)
    requires Disciplined(n, schedule) && k <= |schedule|
    ensures Disciplined(n, schedule[..k])
    decreases |schedule|
  {
    hide Step, DisciplinedStep;
    if k < |schedule| {
      DisciplinedBefore(n, schedule[..|schedule| - 1], k);
      assert schedule[..|schedule| - 1][..k] == schedule[..k];
    } else {
      assert schedule[..k] == schedule;
    }
  }

  /** An item whose epoch is loaded while a reader is inside a critical section is not handed to
      its deleter for as long as that reader stays inside. */
  lemma InsideIsProtected(n: nat, schedule: Schedule, t: nat, k: nat, x: Item)
    requires Disciplined(n, schedule) && k <= |schedule| && InsideSince(n, schedule, t, k)
    requires x in Run(n, schedule).loaded && x !in Run(n, schedule[..k]).loaded
    ensures !Doomed(Run(n, schedule), x)
  {
    DisciplinedBefore(n, schedule, k);
    RunInv(n, schedule[..k]);
    hide Run, Disciplined, InsideSince, Doomed;
    InsideNow(n, schedule, t, k, k);
    InsideNow(n, schedule, t, k, |schedule|);
    assert schedule[..|schedule|] == schedule;
    assert ThreadOk(Run(n, schedule[..k]), t);
    SectionKept(n, schedule, t, k);
    LoadedLater(n, schedule, k, x);
    ReclamationIsSafe(n, schedule);
    assert Guarded(Run(n, schedule), t, x);
  }
}
