/** When the analyzer's and the collector's books agree with the table of active
    allocations, over whole runs of events. */
module AccountingGuarantees {
  import opened MemoryAccounting

  /** The running total the code keeps for a group. */
  function Current(s: System, g: Group): nat {
    match g
    case Everything => s.a.activeBytes
    case InTier(t) => UsageOf(s.c.tiers, t).current
    case InPool(p) => LevelOf(s.c, p).current
    case OfProcess(pid) => UsageOf(s.c.processes, pid).current
  }

  function Peak(s: System, g: Group): nat {
    match g
    case Everything => s.a.peakBytes
    case InTier(t) => UsageOf(s.c.tiers, t).peak
    case InPool(p) => LevelOf(s.c, p).peak
    case OfProcess(pid) => UsageOf(s.c.processes, pid).peak
  }

  /** Process id 0 means "unknown" and is not tracked. */
  predicate Tracked(g: Group) { g != OfProcess(0) }

  predicate Creates(o: Observation) { o.kind == OBJECT_CREATED }
  predicate Destroys(s: System, o: Observation) { o.kind == OBJECT_DESTROYED && o.objectId in s.a.active }
  predicate Migrates(s: System, o: Observation) { o.kind == MIGRATION_COMPLETED && o.objectId in s.a.active }

  function Entry(o: Observation): Allocation { Allocation(o.objectId, o.size, o.timestamp, o.tier, o.pid) }

  // ----- One event, seen from one group -----

  lemma CurrentAfter(s: System, o: Observation, g: Group)
    requires Tracked(g)
    ensures Current(Step(s, o), g) ==
      if Creates(o) && Member(g, Entry(o)) then Add64(Current(s, g), o.size)
      else if Destroys(s, o) && Member(g, s.a.active[o.objectId])
      then Lowered(Current(s, g), s.a.active[o.objectId].size)
      else Current(s, g)
  {}

  lemma ActiveAfter(s: System, o: Observation)
    ensures Step(s, o).a.active ==
      if Creates(o) then s.a.active[o.objectId := Entry(o)]
      else if Destroys(s, o) then s.a.active - {o.objectId}
      else if Migrates(s, o) then s.a.active[o.objectId := s.a.active[o.objectId].(tier := RAM)]
      else s.a.active
  {
    hide Reported, ReportOf;
  }

  lemma CountsAfter(s: System, o: Observation)
    ensures var c := Step(s, o).c;
      && c.totalAllocations == (if Creates(o) then Add64(s.c.totalAllocations, 1) else s.c.totalAllocations)
      && c.totalFrees == if Destroys(s, o) then Add64(s.c.totalFrees, 1) else s.c.totalFrees
  {}

  lemma TotalAfter(s: System, o: Observation, g: Group)
    ensures var before, after := Total(s.a.active, g), Total(Step(s, o).a.active, g);
      && (Creates(o) && o.objectId !in s.a.active ==> after == before + Weight(g, Entry(o)))
      && (Creates(o) && o.objectId in s.a.active ==>
            after + Weight(g, s.a.active[o.objectId]) == before + Weight(g, Entry(o)))
      && (Destroys(s, o) ==> after + Weight(g, s.a.active[o.objectId]) == before)
      && (Migrates(s, o) ==> after + Weight(g, s.a.active[o.objectId])
                             == before + Weight(g, s.a.active[o.objectId].(tier := RAM)))
      && (!Creates(o) && !Destroys(s, o) && !Migrates(s, o) ==> after == before)
  {
    ActiveAfter(s, o);
    hide Step, Weight;
    if Creates(o) {
      if o.objectId in s.a.active { TotalUpdate(s.a.active, g, o.objectId, Entry(o)); }
      else { TotalAdd(s.a.active, g, o.objectId, Entry(o)); }
    } else if Destroys(s, o) {
      TotalRemove(s.a.active, g, o.objectId);
    } else if Migrates(s, o) {
      TotalUpdate(s.a.active, g, o.objectId, s.a.active[o.objectId].(tier := RAM));
    }
  }

  lemma {:induction false} TotalAtMost(m: map<nat, Allocation>, g: Group)
    ensures Total(m, g) <= Total(m, Everything)
    decreases |m|
  {
    if m != map[] {
      var k :| k in m;
      TotalRemove(m, g, k);
      TotalRemove(m, Everything, k);
      RemovedSize(m, k);
      TotalAtMost(m - {k}, g);
    }
  }

  // ----- Conservation of bytes -----

  function BytesCreated(run: seq<Observation>): nat {
    if run == [] then 0
    else BytesCreated(run[..|run| - 1]) + if Creates(run[|run| - 1]) then run[|run| - 1].size else 0
  }

  /** Bytes of live allocations replaced by a later creation under the same id. */
  function BytesOverwritten(run: seq<Observation>): nat {
    if run == [] then 0
    else
      var n := |run| - 1;
      var before, o := Run(run[..n]), run[n];
      BytesOverwritten(run[..n])
      + if Creates(o) && o.objectId in before.a.active then before.a.active[o.objectId].size else 0
  }

  function BytesDestroyed(run: seq<Observation>): nat {
    if run == [] then 0
    else
      var n := |run| - 1;
      var before, o := Run(run[..n]), run[n];
      BytesDestroyed(run[..n]) + if Destroys(before, o) then before.a.active[o.objectId].size else 0
  }

  predicate NoOverflow(run: seq<Observation>) {
    BytesCreated(run) < TWO_64 && |run| < TWO_64
  }

  /** For every run: bytes created are active, overwritten or destroyed, and the active
      byte counter exceeds the table exactly by the overwritten bytes. */
  lemma {:induction false} BytesConserved(run: seq<Observation>)
    requires NoOverflow(run)
    ensures var s := Run(run);
      && BytesCreated(run) == Total(s.a.active, Everything) + BytesOverwritten(run) + BytesDestroyed(run)
      && s.a.activeBytes == Total(s.a.active, Everything) + BytesOverwritten(run)
  {
    hide Step, Current;
    if run != [] {
      var n := |run| - 1;
      var s, o := Run(run[..n]), run[n];
      BytesConserved(run[..n]);
      TotalAfter(s, o, Everything);
      CurrentAfter(s, o, Everything);
      assert Current(s, Everything) == s.a.activeBytes
             && Current(Step(s, o), Everything) == Step(s, o).a.activeBytes by {
        CurrentIsBytes(s);
        CurrentIsBytes(Step(s, o));
      }
    }
  }

  lemma CurrentIsBytes(s: System)
    ensures Current(s, Everything) == s.a.activeBytes
  {}

  /** The zero clamp when an object is destroyed never fires. */
  lemma DestroyNeverClamps(run: seq<Observation>, o: Observation)
    requires NoOverflow(run) && Destroys(Run(run), o)
    ensures Run(run).a.activeBytes >= Run(run).a.active[o.objectId].size
  {
    BytesConserved(run);
    TotalRemove(Run(run).a.active, Everything, o.objectId);
  }

  /** The counter equals the table exactly when no live allocation of nonzero size was
      created again. */
  lemma ActiveBytesExactIff(run: seq<Observation>)
    requires NoOverflow(run)
    ensures Run(run).a.activeBytes == Total(Run(run).a.active, Everything) <==> BytesOverwritten(run) == 0
  {
    BytesConserved(run);
  }

  // ----- Agreement with the collector -----

  ghost predicate Agrees(s: System) {
    && (forall g :: Tracked(g) ==> Current(s, g) == Total(s.a.active, g))
    && s.c.totalAllocations == s.c.totalFrees + |s.a.active|
  }

  /** Live ids are not created again, and only RAM objects complete a migration. */
  predicate CleanEvent(s: System, o: Observation) {
    && (Creates(o) ==> o.objectId !in s.a.active)
    && (Migrates(s, o) ==> s.a.active[o.objectId].tier == RAM || s.a.active[o.objectId].size == 0)
  }

  predicate Clean(run: seq<Observation>) {
    run == [] || (Clean(run[..|run| - 1]) && CleanEvent(Run(run[..|run| - 1]), run[|run| - 1]))
  }

  ghost predicate AgreesThroughout(run: seq<Observation>) {
    Agrees(Run(run)) && (run == [] || AgreesThroughout(run[..|run| - 1]))
  }

  lemma {:induction false} CountsBounded(run: seq<Observation>)
    requires |run| < TWO_64
    ensures Run(run).c.totalAllocations <= |run| && Run(run).c.totalFrees <= |run|
  {
    hide Step;
    if run != [] {
      CountsBounded(run[..|run| - 1]);
      CountsAfter(Run(run[..|run| - 1]), run[|run| - 1]);
    }
  }

  lemma GroupStaysExact(run: seq<Observation>, o: Observation, g: Group)
    requires NoOverflow(run + [o]) && Agrees(Run(run)) && CleanEvent(Run(run), o) && Tracked(g)
    ensures Current(Step(Run(run), o), g) == Total(Step(Run(run), o).a.active, g)
  {
    hide Step, Current, Run, BytesCreated, Agrees, Member;
    var s := Run(run);
    CreatedOneMore(run, o);
    BytesConserved(run);
    TotalAtMost(s.a.active, g);
    TotalAfter(s, o, g);
    CurrentAfter(s, o, g);
    AgreesOn(s, g);
    if Creates(o) {
      assert Current(s, g) + Weight(g, Entry(o)) < TWO_64;
    } else if Destroys(s, o) {
      assert Weight(g, s.a.active[o.objectId]) <= Current(s, g);
    } else if Migrates(s, o) {
      RamOrEmpty(g, s.a.active[o.objectId]);
    }
  }

  lemma RamOrEmpty(g: Group, x: Allocation)
    requires x.tier == RAM || x.size == 0
    ensures Weight(g, x.(tier := RAM)) == Weight(g, x)
  {}

  lemma CreatedOneMore(run: seq<Observation>, o: Observation)
    ensures BytesCreated(run + [o]) == BytesCreated(run) + if Creates(o) then o.size else 0
  {
    assert (run + [o])[..|run|] == run;
  }

  lemma AgreesOn(s: System, g: Group)
    requires Agrees(s) && Tracked(g)
    ensures Current(s, g) == Total(s.a.active, g)
  {}

  lemma CountsStayExact(run: seq<Observation>, o: Observation)
    requires |run| + 1 < TWO_64 && CleanEvent(Run(run), o)
    requires Run(run).c.totalAllocations == Run(run).c.totalFrees + |Run(run).a.active|
    ensures var s := Step(Run(run), o); s.c.totalAllocations == s.c.totalFrees + |s.a.active|
  {
    hide *;
    NotCreatedTwice(Run(run), o);
    SizeAfter(Run(run), o);
    CountsAfter(Run(run), o);
    CountsBounded(run);
    SmallSum(Run(run).c.totalAllocations);
    SmallSum(Run(run).c.totalFrees);
    NotBoth(Run(run), o);
  }

  lemma SmallSum(a: nat)
    requires a + 1 < TWO_64
    ensures Add64(a, 1) == a + 1
  {}

  lemma NotBoth(s: System, o: Observation)
    ensures !(Creates(o) && Destroys(s, o))
  {}

  lemma SizeAfter(s: System, o: Observation)
    requires Creates(o) ==> o.objectId !in s.a.active
    ensures |Step(s, o).a.active| ==
      |s.a.active| + (if Creates(o) then 1 else 0) - (if Destroys(s, o) then 1 else 0)
  {
    ActiveAfter(s, o);
    hide Step;
    if Creates(o) {
      assert s.a.active[o.objectId := Entry(o)].Keys == s.a.active.Keys + {o.objectId};
    } else if Destroys(s, o) {
      RemovedSize(s.a.active, o.objectId);
    } else if Migrates(s, o) {
      SameKeys(s.a.active, o.objectId, s.a.active[o.objectId].(tier := RAM));
    }
  }

  lemma CleanEventKeepsAgreement(run: seq<Observation>, o: Observation)
    requires NoOverflow(run + [o]) && Agrees(Run(run)) && CleanEvent(Run(run), o)
    ensures Agrees(Step(Run(run), o))
  {
    hide Step, Current, Run, BytesCreated, CleanEvent, Creates;
    var s := Run(run);
    CreatedOneMore(run, o);
    forall g | Tracked(g) ensures Current(Step(s, o), g) == Total(Step(s, o).a.active, g) {
      GroupStaysExact(run, o, g);
    }
    CountsStayExact(run, o);
  }

  lemma NotCreatedTwice(s: System, o: Observation)
    requires CleanEvent(s, o)
    ensures Creates(o) ==> o.objectId !in s.a.active
  {}

  lemma SameKeys(m: map<nat, Allocation>, k: nat, x: Allocation)
    requires k in m
    ensures |m[k := x]| == |m|
  {
    assert m[k := x].Keys == m.Keys;
  }

  lemma UncleanEventBreaksAgreement(run: seq<Observation>, o: Observation)
    requires NoOverflow(run + [o]) && Agrees(Run(run)) && !CleanEvent(Run(run), o)
    ensures !Agrees(Step(Run(run), o))
  {
    hide Step, Current, Run;
    var s := Run(run);
    assert (run + [o])[..|run|] == run;
    ActiveAfter(s, o);
    if Creates(o) {
      CountsAfter(s, o);
      CountsBounded(run);
      SameKeys(s.a.active, o.objectId, Entry(o));
    } else {
      var x := s.a.active[o.objectId];
      TotalAfter(s, o, InTier(x.tier));
      CurrentAfter(s, o, InTier(x.tier));
      assert Tracked(InTier(x.tier));
    }
  }

  lemma TotalOfNothing(g: Group)
    ensures Total(map[], g) == 0
  {}

  /** Active bytes, per-tier, per-pool and per-process bytes and the allocation counts match
      the active table after every event exactly for the clean runs. */
  lemma {:induction false} AgreementIffClean(run: seq<Observation>)
    requires NoOverflow(run)
    ensures AgreesThroughout(run) <==> Clean(run)
  {
    if run == [] {
      forall g | Tracked(g) ensures Current(START, g) == Total(START.a.active, g) { TotalOfNothing(g); }
      assert Agrees(Run([]));
    } else {
      hide Step, Agrees, CleanEvent;
      var n := |run| - 1;
      assert run == run[..n] + [run[n]];
      AgreementIffClean(run[..n]);
      if Clean(run[..n]) {
        assert Agrees(Run(run[..n])) by { AtEnd(run[..n]); }
        if CleanEvent(Run(run[..n]), run[n]) { CleanEventKeepsAgreement(run[..n], run[n]); }
        else { UncleanEventBreaksAgreement(run[..n], run[n]); }
      }
    }
  }

  lemma AtEnd(run: seq<Observation>)
    requires AgreesThroughout(run)
    ensures Agrees(Run(run))
  {}

  /** In a clean run no clamp of the collector fires either. */
  lemma CleanRunNeverClamps(run: seq<Observation>, o: Observation, g: Group)
    requires NoOverflow(run) && Clean(run) && Destroys(Run(run), o)
    requires Tracked(g) && Member(g, Run(run).a.active[o.objectId])
    ensures Current(Run(run), g) >= Run(run).a.active[o.objectId].size
  {
    AgreementIffClean(run);
    AtEnd(run);
    hide Run, Current;
    TotalRemove(Run(run).a.active, g, o.objectId);
  }

  // ----- Peaks -----

  /** The largest value a running total had after any prefix of the run. */
  function MaxOverPrefixes(run: seq<Observation>, g: Group): nat {
    if run == [] then Current(START, g)
    else Max(MaxOverPrefixes(run[..|run| - 1], g), Current(Run(run), g))
  }

  lemma PeakRaised(s: System, o: Observation, g: Group)
    requires Tracked(g)
    ensures Peak(Step(s, o), g) ==
      if Creates(o) && Member(g, Entry(o)) then Max(Peak(s, g), Add64(Current(s, g), o.size)) else Peak(s, g)
  {}

  lemma PeakAfter(s: System, o: Observation, g: Group)
    requires Tracked(g) && Current(s, g) <= Peak(s, g)
    ensures Peak(Step(s, o), g) == Max(Peak(s, g), Current(Step(s, o), g))
  {
    hide Step, Current, Peak;
    PeakRaised(s, o, g);
    CurrentAfter(s, o, g);
  }

  /** In every run each peak is the maximum of its running total over all prefixes. */
  lemma {:induction false} PeakIsPrefixMaximum(run: seq<Observation>, g: Group)
    requires Tracked(g)
    ensures Peak(Run(run), g) == MaxOverPrefixes(run, g)
    ensures Current(Run(run), g) <= Peak(Run(run), g)
  {
    if run != [] {
      PeakIsPrefixMaximum(run[..|run| - 1], g);
      PeakAfter(Run(run[..|run| - 1]), run[|run| - 1], g);
      hide Step, Current, Peak;
    }
  }
}
