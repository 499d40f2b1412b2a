/** What the counters of the analyzer and the collector add up to over whole runs, counted from
    the events alone. */
module AccountingTotals {
  import opened MemoryAccounting

  // ----- Which objects stand, from the events -----

  /** The creation that stands for an object, and whether a migration of it completed since. */
  datatype Standing = Gone | Stands(created: Observation, moved: bool)

  function StandingOf(run: seq<Observation>, id: nat): Standing {
    if run == [] then Gone
    else
      var n := |run| - 1;
      var o, before := run[n], StandingOf(run[..n], id);
      if o.objectId != id then before
      else if o.kind == 0x0101 then Stands(o, false)
      else if o.kind == 0x0102 then Gone
      else if o.kind == 0x0203 && before.Stands? then before.(moved := true)
      else before
  }

  /** A migration is always booked as one to RAM, which is tier 1. */
  function EntryOf(s: Standing): Allocation
    requires s.Stands?
  {
    var o := s.created;
    Allocation(o.objectId, o.size, o.timestamp, if s.moved then 1 else o.tier, o.pid)
  }

  /** The active table holds exactly the standing objects. */
  lemma {:induction false} ActiveIsStanding(run: seq<Observation>, id: nat)
    ensures id in Run(run).a.active <==> StandingOf(run, id).Stands?
    ensures id in Run(run).a.active ==> Run(run).a.active[id] == EntryOf(StandingOf(run, id))
  {
    if run != [] {
      hide Reported, ReportOf;
      ActiveIsStanding(run[..|run| - 1], id);
    }
  }

  // ----- Totals -----

  datatype Totals = Totals(
    allocations: nat, bytesAllocated: nat, frees: nat, bytesFreed: nat, lifetime: nat, lifetimes: nat, strays: nat)

  function Lifetime(created: nat, destroyed: nat): nat {
    if destroyed > created then destroyed - created else 0
  }

  /** Sums over the created objects and over the destroyed ones; a stray is a destruction of an
      object that does not stand. */
  function Summed(run: seq<Observation>): Totals {
    if run == [] then Totals(0, 0, 0, 0, 0, 0, 0)
    else
      var n := |run| - 1;
      var o, t := run[n], Summed(run[..n]);
      if o.kind == 0x0101 then t.(allocations := t.allocations + 1, bytesAllocated := t.bytesAllocated + o.size)
      else if o.kind != 0x0102 then t
      else match StandingOf(run[..n], o.objectId)
        case Gone => t.(strays := t.strays + 1)
        case Stands(c, _) =>
          var life := Lifetime(c.timestamp, o.timestamp);
          t.(frees := t.frees + 1, bytesFreed := t.bytesFreed + c.size,
             lifetime := t.lifetime + life, lifetimes := t.lifetimes + if life > 0 then 1 else 0)
  }

  lemma AddsUp(a: nat, b: nat)
    ensures Add64(a % TWO_64, b) == (a + b) % TWO_64
  {}

  ghost predicate Totalled(c: Collector, t: Totals) {
    && c.totalAllocations == t.allocations % TWO_64 && c.bytesAllocated == t.bytesAllocated % TWO_64
    && c.totalFrees == t.frees % TWO_64 && c.bytesFreed == t.bytesFreed % TWO_64
    && c.totalLifetime == t.lifetime % TWO_64 && c.completedLifetimes == t.lifetimes % TWO_64
  }

  /** What one report adds to the sums. */
  function Counted(t: Totals, r: Report): Totals {
    match r
    case Silent => t
    case Alloc(_, size, _) => t.(allocations := t.allocations + 1, bytesAllocated := t.bytesAllocated + size)
    case Free(_, size, life, _) =>
      t.(frees := t.frees + 1, bytesFreed := t.bytesFreed + size,
         lifetime := t.lifetime + life, lifetimes := t.lifetimes + if life > 0 then 1 else 0)
  }

  lemma ReportTotals(c: Collector, t: Totals, r: Report)
    requires Totalled(c, t)
    ensures Totalled(Reported(c, r), Counted(t, r))
  {
    hide Add64, UsageUp, UsageDown, Raised, Lowered;
    AddsUp(t.allocations, 1);
    AddsUp(t.frees, 1);
    AddsUp(t.lifetimes, 1);
    match r
    case Silent =>
    case Alloc(_, size, _) => AddsUp(t.bytesAllocated, size);
    case Free(_, size, life, _) =>
      AddsUp(t.bytesFreed, size);
      AddsUp(t.lifetime, life);
  }

  lemma SummedByReport(run: seq<Observation>)
    requires run != []
    ensures var n := |run| - 1;
      Summed(run) == Counted(Summed(run[..n]), ReportOf(Run(run[..n]).a, run[n])).(strays := Summed(run).strays)
  {
    var n := |run| - 1;
    ActiveIsStanding(run[..n], run[n].objectId);
    hide Run, StandingOf;
  }

  lemma StraysIrrelevant(c: Collector, t: Totals, strays: nat)
    requires Totalled(c, t)
    ensures Totalled(c, t.(strays := strays))
  {}

  /** In every run the collector's totals are those sums, modulo 2^64. */
  lemma {:induction false} TotalsAreSums(run: seq<Observation>)
    ensures Totalled(Run(run).c, Summed(run))
  {
    hide Totalled, Reported, Analyzed, Summed, ReportOf, Counted;
    if run == [] {
      NothingTotalled();
    } else {
      var n := |run| - 1;
      var s := Run(run[..n]);
      TotalsAreSums(run[..n]);
      SummedByReport(run);
      ReportTotals(s.c, Summed(run[..n]), ReportOf(s.a, run[n]));
      StraysIrrelevant(Run(run).c, Counted(Summed(run[..n]), ReportOf(s.a, run[n])), Summed(run).strays);
    }
  }

  lemma NothingTotalled()
    ensures Totalled(EMPTY_COLLECTOR, Summed([]))
  {}

  // ----- Counts of one tier or process -----

  /** Creations of objects in the group, and destructions of objects that were in it. */
  function CreatedIn(run: seq<Observation>, g: Group): nat {
    if run == [] then 0
    else
      var n := |run| - 1;
      CreatedIn(run[..n], g) + if run[n].kind == 0x0101 && Member(g, EntryOf(Stands(run[n], false))) then 1 else 0
  }

  function DestroyedIn(run: seq<Observation>, g: Group): nat {
    if run == [] then 0
    else
      var n := |run| - 1;
      var s := StandingOf(run[..n], run[n].objectId);
      DestroyedIn(run[..n], g) + if run[n].kind == 0x0102 && s.Stands? && Member(g, EntryOf(s)) then 1 else 0
  }

  function UsageIn(c: Collector, g: Group): Usage
    requires g.InTier? || g.OfProcess?
  {
    if g.InTier? then UsageOf(c.tiers, g.tier) else UsageOf(c.processes, g.pid)
  }

  predicate About(r: Report, g: Group)
    requires g.InTier? || g.OfProcess?
  {
    !r.Silent? && if g.InTier? then r.tier == g.tier else r.pid == g.pid
  }

  lemma UsageReported(c: Collector, r: Report, g: Group)
    requires g.InTier? || (g.OfProcess? && g.pid != 0)
    ensures var before, after := UsageIn(c, g), UsageIn(Reported(c, r), g);
      && after.allocations == (if r.Alloc? && About(r, g) then Add64(before.allocations, 1) else before.allocations)
      && after.frees == if r.Free? && About(r, g) then Add64(before.frees, 1) else before.frees
  {
    hide Add64, Raised, Lowered, PoolOf;
  }

  lemma CountedByReport(run: seq<Observation>, g: Group)
    requires run != [] && (g.InTier? || g.OfProcess?)
    ensures var n := |run| - 1;
      var r := ReportOf(Run(run[..n]).a, run[n]);
      && CreatedIn(run, g) == CreatedIn(run[..n], g) + (if r.Alloc? && About(r, g) then 1 else 0)
      && DestroyedIn(run, g) == DestroyedIn(run[..n], g) + if r.Free? && About(r, g) then 1 else 0
  {
    var n := |run| - 1;
    ActiveIsStanding(run[..n], run[n].objectId);
    hide Run, StandingOf;
  }

  /** In every run, the counts kept for a tier or a known process are those, modulo 2^64. */
  lemma {:induction false} CountsAreSums(run: seq<Observation>, g: Group)
    requires g.InTier? || (g.OfProcess? && g.pid != 0)
    ensures UsageIn(Run(run).c, g).allocations == CreatedIn(run, g) % TWO_64
    ensures UsageIn(Run(run).c, g).frees == DestroyedIn(run, g) % TWO_64
  {
    hide Reported, ReportOf, Analyzed, UsageIn, Add64, CreatedIn, DestroyedIn, About;
    if run == [] {
      NothingCounted(g);
    } else {
      var n := |run| - 1;
      CountsAreSums(run[..n], g);
      CountedByReport(run, g);
      UsageReported(Run(run[..n]).c, ReportOf(Run(run[..n]).a, run[n]), g);
      AddsUp(CreatedIn(run[..n], g), 1);
      AddsUp(DestroyedIn(run[..n], g), 1);
    }
  }

  lemma NothingCounted(g: Group)
    requires g.InTier? || g.OfProcess?
    ensures UsageIn(EMPTY_COLLECTOR, g) == UNUSED && CreatedIn([], g) == DestroyedIn([], g) == 0
  {}

  // ----- Order of events -----

  function LatestTime(run: seq<Observation>): nat {
    if run == [] then 0 else Max(LatestTime(run[..|run| - 1]), run[|run| - 1].timestamp)
  }

  /** Events older than one before them. */
  function LateEvents(run: seq<Observation>): nat {
    if run == [] then 0
    else
      var n := |run| - 1;
      LateEvents(run[..n]) + if run[n].timestamp < LatestTime(run[..n]) then 1 else 0
  }

  /** In every run: events processed, the newest time seen, and as out of order the late events and
      the stray destructions, modulo 2^64; the active count is the size of the active table. */
  lemma {:induction false} OrderCounted(run: seq<Observation>)
    ensures var a := Run(run).a;
      && a.processed == |run| % TWO_64 && a.lastTimestamp == LatestTime(run)
      && a.outOfOrder == (LateEvents(run) + Summed(run).strays) % TWO_64
      && a.activeCount == |a.active|
  {
    hide Reported, ReportOf, Analyzed, Add64, Summed, StandingOf;
    if run == [] {
      NothingOrdered();
    } else {
      var n := |run| - 1;
      var a, o := Run(run[..n]).a, run[n];
      OrderCounted(run[..n]);
      OneMoreOrdered(a, o);
      OneMoreStray(run);
      var late := LateEvents(run[..n]) + Summed(run[..n]).strays;
      AddsUp(n, 1);
      AddsUp(late, 1);
      AddsUp(late + 1, 1);
    }
  }

  lemma NothingOrdered()
    ensures Summed([]).strays == 0
  {}

  lemma OneMoreOrdered(a: Analysis, o: Observation)
    requires a.activeCount == |a.active|
    ensures var a' := Analyzed(a, o);
      var late := if o.timestamp < a.lastTimestamp then Add64(a.outOfOrder, 1) else a.outOfOrder;
      && a'.processed == Add64(a.processed, 1) && a'.lastTimestamp == Max(a.lastTimestamp, o.timestamp)
      && a'.outOfOrder == (if o.kind == 0x0102 && o.objectId !in a.active then Add64(late, 1) else late)
      && a'.activeCount == |a'.active|
  {
    hide Add64;
    MigrationKeepsCount(a.active, o.objectId);
  }

  lemma OneMoreStray(run: seq<Observation>)
    requires run != []
    ensures var n := |run| - 1;
      Summed(run).strays
      == Summed(run[..n]).strays
         + if run[n].kind == 0x0102 && run[n].objectId !in Run(run[..n]).a.active then 1 else 0
  {
    ActiveIsStanding(run[..|run| - 1], run[|run| - 1].objectId);
    hide Run, StandingOf;
  }

  lemma MigrationKeepsCount(active: map<nat, Allocation>, id: nat)
    ensures id in active ==> |active[id := active[id].(tier := RAM)]| == |active|
  {
    if id in active { assert active[id := active[id].(tier := RAM)].Keys == active.Keys; }
  }
}
