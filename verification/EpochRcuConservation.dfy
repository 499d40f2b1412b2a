/** Retired items are neither lost nor run twice. */
module EpochRcuConservation {
  import opened EpochRcu
  import opened Counting

  // ----- Where retired items are -----

  /** Items a thread carries between the shared list and the deleters. */
  function Carried(pc: Pc): multiset<Item> {
    match pc
    case Retiring(item) => multiset{item}
    case Running(todo) => multiset(todo)
    case _ => multiset{}
  }

  function InFlight(threads: seq<Thread>): multiset<Item> {
    if threads == [] then multiset{}
    else InFlight(threads[..|threads| - 1]) + Carried(threads[|threads| - 1].pc)
  }

  function Accounted(s: State): multiset<Item> {
    multiset(s.retired) + InFlight(s.threads) + multiset(s.ran)
  }

  lemma {:induction false} InFlightUpdate(threads: seq<Thread>, t: nat, th: Thread)
    requires t < |threads|
    ensures InFlight(threads[t := th]) + Carried(threads[t].pc) == InFlight(threads) + Carried(th.pc)
  {
    hide Carried;
    var n := |threads| - 1;
    if t < n {
      InFlightUpdate(threads[..n], t, th);
      assert threads[t := th][..n] == threads[..n][t := th];
      AddBoth(InFlight(threads[..n][t := th]), Carried(threads[t].pc), InFlight(threads[..n]), Carried(th.pc),
              Carried(threads[n].pc));
    } else {
      assert threads[t := th][..n] == threads[..n];
    }
  }

  lemma AddBoth<T>(a: multiset<T>, b: multiset<T>, c: multiset<T>, d: multiset<T>, e: multiset<T>)
    requires a + b == c + d
    ensures (a + e) + b == (c + e) + d
  {
    assert (a + e) + b == (a + b) + e;
  }

  lemma {:induction false} SplitConserves(items: seq<Item>, min: nat)
    ensures multiset(Stale(items, min)) + multiset(Fresh(items, min)) == multiset(items)
  {
    if items != [] {
      SplitConserves(items[1..], min);
      assert items == [items[0]] + items[1..];
    }
  }

  lemma {:induction false} NothingInFlight(n: nat)
    ensures InFlight(seq(n, _ => NEW_THREAD)) == multiset{}
  {
    if n > 0 {
      NothingInFlight(n - 1);
      assert seq(n, _ => NEW_THREAD)[..n - 1] == seq(n - 1, _ => NEW_THREAD);
    }
  }

  ghost predicate Conserved(s: State) {
    multiset(s.loaded) == Accounted(s) && Numbered(s.loaded, Id)
  }

  function Id(x: Item): nat { x.id }

  /** Items outside the other threads, as one step of thread t moves them around. */
  function Local(s: State, t: nat): multiset<Item>
    requires t < |s.threads|
  {
    multiset(s.retired) + Carried(s.threads[t].pc) + multiset(s.ran)
  }

  lemma LocalMoveConserves(s: State, s': State, t: nat, added: seq<Item>)
    requires Conserved(s) && t < |s.threads| == |s'.threads| && s'.threads == s.threads[t := s'.threads[t]]
    requires s'.loaded == s.loaded + added && (added == [] || (|added| == 1 && added[0].id == |s.loaded|))
    requires Local(s', t) == Local(s, t) + multiset(added)
    ensures Conserved(s')
  {
    hide InFlight, Carried, Numbered;
    InFlightUpdate(s.threads, t, s'.threads[t]);
    if added != [] {
      assert added == [added[0]];
      NumberedNext(s.loaded, Id, added[0]);
    } else {
      assert s.loaded + added == s.loaded;
    }
    Exchange(InFlight(s.threads), Carried(s.threads[t].pc), InFlight(s'.threads), Carried(s'.threads[t].pc),
             multiset(s.retired), multiset(s.ran), multiset(s'.retired), multiset(s'.ran), multiset(added));
    assert multiset(s'.loaded) == multiset(s.loaded) + multiset(added);
  }

  lemma Exchange<T>(f: multiset<T>, c: multiset<T>, f': multiset<T>, c': multiset<T>,
                    r: multiset<T>, d: multiset<T>, r': multiset<T>, d': multiset<T>, e: multiset<T>)
    requires f' + c == f + c'
    requires r' + c' + d' == r + c + d + e
    ensures r' + f' + d' == r + f + d + e
  {
    forall x: T ensures (r' + f' + d')[x] == (r + f + d + e)[x] {
      assert (f' + c)[x] == (f + c')[x];
      assert (r' + c' + d')[x] == (r + c + d + e)[x];
    }
  }

  lemma BeginConserves(s: State, t: nat, op: Op)
    requires Conserved(s) && t < |s.threads| && |s.slots| == MAX_THREADS && s.threads[t].pc.Idle?
    ensures Conserved(Begin(s, t, op))
  {
    var added := if op.Retire? then [Item(|s.loaded|, s.globalEpoch, s.now)] else [];
    BeginShape(s, t, op);
    hide Conserved, Begin;
    var s' := Begin(s, t, op);
    assert Local(s', t) == Local(s, t) + multiset(added);
    LocalMoveConserves(s, s', t, added);
  }

  lemma BeginShape(s: State, t: nat, op: Op)
    requires t < |s.threads| && |s.slots| == MAX_THREADS && s.threads[t].pc.Idle?
    ensures var s' := Begin(s, t, op);
      var added := if op.Retire? then [Item(|s.loaded|, s.globalEpoch, s.now)] else [];
      && |s'.threads| == |s.threads| && s'.threads == s.threads[t := s'.threads[t]]
      && s'.loaded == s.loaded + added && s'.retired == s.retired && s'.ran == s.ran
      && Carried(s'.threads[t].pc) == multiset(added)
  {}

  /** Steps of an operation that move items: push, sweep, run a deleter. */
  predicate MovesItems(pc: Pc) {
    pc.Retiring? || pc.Running? || (pc.MinScan? && !(pc.i < pc.n && pc.i < MAX_THREADS))
  }

  lemma ResumeShape(s: State, t: nat, timedOut: bool)
    requires t < |s.threads| && |s.slots| == MAX_THREADS
    ensures var s' := Resume(s, t, timedOut);
      && |s'.threads| == |s.threads| && s'.threads == s.threads[t := s'.threads[t]] && s'.loaded == s.loaded
      && (!MovesItems(s.threads[t].pc) ==>
            s'.retired == s.retired && s'.ran == s.ran
            && EmptyHanded(s.threads[t].pc) && EmptyHanded(s'.threads[t].pc))
  {}

  predicate EmptyHanded(pc: Pc) { !pc.Retiring? && !pc.Running? }

  lemma EmptyHandedCarries(pc: Pc)
    requires EmptyHanded(pc)
    ensures Carried(pc) == multiset{}
  {}

  lemma ResumeConserves(s: State, t: nat, timedOut: bool)
    requires Conserved(s) && t < |s.threads| && |s.slots| == MAX_THREADS
    ensures Conserved(Resume(s, t, timedOut))
  {
    hide Conserved, Resume, Carried, MovesItems, EmptyHanded;
    ResumeShape(s, t, timedOut);
    if MovesItems(s.threads[t].pc) {
      MovedItems(s, t, timedOut);
    } else {
      EmptyHandedCarries(s.threads[t].pc);
      EmptyHandedCarries(Resume(s, t, timedOut).threads[t].pc);
    }
    assert s.loaded + [] == s.loaded;
    LocalMoveConserves(s, Resume(s, t, timedOut), t, []);
  }

  lemma MovedItems(s: State, t: nat, timedOut: bool)
    requires t < |s.threads| && |s.slots| == MAX_THREADS && MovesItems(s.threads[t].pc)
    ensures |Resume(s, t, timedOut).threads| == |s.threads|
    ensures Local(Resume(s, t, timedOut), t) == Local(s, t)
  {
    hide Resume, Local;
    match s.threads[t].pc
    case Retiring(item) => PushConserves(s, t, timedOut);
    case MinScan(min, n, i) => SweepConserves(s, t, timedOut);
    case Running(todo) => RunsConserve(s, t, timedOut);
  }

  lemma PushConserves(s: State, t: nat, timedOut: bool)
    requires t < |s.threads| && |s.slots| == MAX_THREADS && s.threads[t].pc.Retiring?
    ensures |Resume(s, t, timedOut).threads| == |s.threads| && Local(Resume(s, t, timedOut), t) == Local(s, t)
  {
    PushMoves(s.retired, s.threads[t].pc.item, multiset(s.ran));
  }

  lemma SweepConserves(s: State, t: nat, timedOut: bool)
    requires t < |s.threads| && |s.slots| == MAX_THREADS && s.threads[t].pc.MinScan? && MovesItems(s.threads[t].pc)
    ensures |Resume(s, t, timedOut).threads| == |s.threads| && Local(Resume(s, t, timedOut), t) == Local(s, t)
  {
    hide Stale, Fresh;
    SplitConserves(s.retired, s.threads[t].pc.min);
    SweepMoves(multiset(Stale(s.retired, s.threads[t].pc.min)), multiset(Fresh(s.retired, s.threads[t].pc.min)),
               multiset(s.retired), multiset(s.ran));
  }

  lemma RunsConserve(s: State, t: nat, timedOut: bool)
    requires t < |s.threads| && |s.slots| == MAX_THREADS && s.threads[t].pc.Running?
    ensures |Resume(s, t, timedOut).threads| == |s.threads| && Local(Resume(s, t, timedOut), t) == Local(s, t)
  {
    if s.threads[t].pc.todo != [] {
      DeleterMoves(s.retired, s.threads[t].pc.todo, s.ran);
    } else {
      NothingToRun(multiset(s.retired), multiset(s.ran));
    }
  }

  lemma PushMoves<T>(pending: seq<T>, x: T, ran: multiset<T>)
    ensures multiset(pending + [x]) + multiset{} + ran == multiset(pending) + multiset{x} + ran
  {}

  lemma SweepMoves<T>(stale: multiset<T>, kept: multiset<T>, pending: multiset<T>, ran: multiset<T>)
    requires stale + kept == pending
    ensures kept + stale + ran == pending + multiset{} + ran
  {}

  lemma NothingToRun<T>(pending: multiset<T>, ran: multiset<T>)
    ensures pending + multiset([]) + ran == pending + multiset{} + ran
  {}

  lemma DeleterMoves<T>(pending: seq<T>, todo: seq<T>, ran: seq<T>)
    requires todo != []
    ensures multiset(pending) + multiset(todo[1..]) + multiset(ran + [todo[0]])
            == multiset(pending) + multiset(todo) + multiset(ran)
  {
    assert todo == [todo[0]] + todo[1..];
  }

  lemma TickConserves(s: State)
    requires Conserved(s)
    ensures Conserved(s.(now := s.now + 1))
  {
    hide InFlight, Numbered;
  }

  lemma StepConserves(s: State, t: nat, op: Op)
    requires Conserved(s)
    ensures Conserved(Step(s, t, op))
  {
    hide Conserved, Begin, Resume;
    var tick := s.(now := s.now + 1);
    TickConserves(s);
    if t < |s.threads| && |s.slots| == MAX_THREADS {
      if op.Continue? { ResumeConserves(tick, t, op.timedOut); }
      else if s.threads[t].pc.Idle? { BeginConserves(tick, t, op); }
    }
  }

  lemma {:induction false} RunConserves(n: nat, schedule: Schedule)
    ensures Conserved(Run(n, schedule))
  {
    if schedule == [] {
      NothingInFlight(n);
    } else {
      hide Conserved, Step;
      var last := schedule[|schedule| - 1];
      RunConserves(n, schedule[..|schedule| - 1]);
      StepConserves(Run(n, schedule[..|schedule| - 1]), last.0, last.1);
    }
  }

  /** In every schedule, with any number of concurrent reclaimers, each retired item is in
      exactly one place: being pushed, pending, held by one reclaimer, or run once. */
  lemma EachItemInOnePlace(n: nat, schedule: Schedule, x: Item)
    ensures var s := Run(n, schedule);
      multiset(s.retired)[x] + InFlight(s.threads)[x] + multiset(s.ran)[x] == if x in s.loaded then 1 else 0
  {
    RunConserves(n, schedule);
    hide Run, InFlight;
    NumberedCounts(Run(n, schedule).loaded, Id, x);
  }
}
