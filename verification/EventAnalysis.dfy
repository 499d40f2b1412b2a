/** The statistics collector and the event analyzer as objects, proved against the
    accounting functions. */
module EventAnalysis {
  import opened Crc
  import opened EventCodec
  import opened MemoryAccounting

  datatype Snapshot = Snapshot(
    currentRam: nat, peakRam: nat, currentVram: nat, peakVram: nat, currentSsd: nat, peakSsd: nat,
    totalAllocations: nat, totalFrees: nat, bytesAllocated: nat, bytesFreed: nat,
    averageSize: real, averageLifetime: real, activeCount: nat)

  class StatisticsCollector {
    var currentRam: nat
    var peakRam: nat
    var currentVram: nat
    var peakVram: nat
    var currentSsd: nat
    var peakSsd: nat
    var totalAllocations: nat
    var totalFrees: nat
    var bytesAllocated: nat
    var bytesFreed: nat
    var totalLifetime: nat
    var completedLifetimes: nat
    var tierStats: map<nat, Usage>
    var processStats: map<nat, Usage>

    function View(): Collector
      reads this
    {
      Collector(
        Level(currentRam, peakRam), Level(currentVram, peakVram), Level(currentSsd, peakSsd),
        totalAllocations, totalFrees, bytesAllocated, bytesFreed, totalLifetime, completedLifetimes,
        tierStats, processStats)
    }

    constructor ()
      ensures View() == EMPTY_COLLECTOR
    {
      currentRam, peakRam, currentVram, peakVram, currentSsd, peakSsd := 0, 0, 0, 0, 0, 0;
      totalAllocations, totalFrees, bytesAllocated, bytesFreed := 0, 0, 0, 0;
      totalLifetime, completedLifetimes := 0, 0;
      tierStats, processStats := map[], map[];
    }

    method RecordAllocation(tier: nat, size: nat, pid: nat)
      modifies this
      ensures View() == Allocated(old(View()), tier, size, pid)
    {
      hide UsageUp, UsageOf, Add64, Raised, WithLevel, PoolOf;
      RaisePool(tier, size);
      totalAllocations := Add64(totalAllocations, 1);
      bytesAllocated := Add64(bytesAllocated, size);
      tierStats := tierStats[tier := UsageUp(UsageOf(tierStats, tier), size)];
      if pid != 0 {
        processStats := processStats[pid := UsageUp(UsageOf(processStats, pid), size)];
      }
    }

    method RecordFree(tier: nat, size: nat, lifetime: nat, pid: nat)
      modifies this
      ensures View() == Freed(old(View()), tier, size, lifetime, pid)
    {
      hide UsageDown, UsageOf, Add64, Lowered, WithLevel, PoolOf;
      LowerPool(tier, size);
      totalFrees := Add64(totalFrees, 1);
      bytesFreed := Add64(bytesFreed, size);
      if lifetime > 0 {
        totalLifetime := Add64(totalLifetime, lifetime);
        completedLifetimes := Add64(completedLifetimes, 1);
      }
      tierStats := tierStats[tier := UsageDown(UsageOf(tierStats, tier), size)];
      if pid != 0 {
        processStats := processStats[pid := UsageDown(UsageOf(processStats, pid), size)];
      }
    }

    method RaisePool(tier: nat, size: nat)
      modifies `currentRam, `peakRam, `currentVram, `peakVram, `currentSsd, `peakSsd
      ensures View() == WithLevel(old(View()), PoolOf(tier), Raised(LevelOf(old(View()), PoolOf(tier)), size))
    {
      hide Add64, Max;
      if tier == VRAM {
        currentVram := Add64(currentVram, size);
        peakVram := Max(peakVram, currentVram);
      } else if tier == NVME {
        currentSsd := Add64(currentSsd, size);
        peakSsd := Max(peakSsd, currentSsd);
      } else {
        currentRam := Add64(currentRam, size);
        peakRam := Max(peakRam, currentRam);
      }
    }

    method LowerPool(tier: nat, size: nat)
      modifies `currentRam, `currentVram, `currentSsd
      ensures var level := LevelOf(old(View()), PoolOf(tier));
        View() == WithLevel(old(View()), PoolOf(tier), Level(Lowered(level.current, size), level.peak))
    {
      if tier == VRAM {
        if currentVram >= size { currentVram := currentVram - size; } else { currentVram := 0; }
      } else if tier == NVME {
        if currentSsd >= size { currentSsd := currentSsd - size; } else { currentSsd := 0; }
      } else {
        if currentRam >= size { currentRam := currentRam - size; } else { currentRam := 0; }
      }
    }

    method TakeSnapshot() returns (s: Snapshot)
      ensures s.activeCount ==
        if totalAllocations >= totalFrees then totalAllocations - totalFrees else 0
      ensures s.currentRam == LevelOf(View(), RamPool).current && s.peakRam == LevelOf(View(), RamPool).peak
      ensures s.currentVram == LevelOf(View(), VramPool).current && s.peakVram == LevelOf(View(), VramPool).peak
      ensures s.currentSsd == LevelOf(View(), SsdPool).current && s.peakSsd == LevelOf(View(), SsdPool).peak
      ensures s.totalAllocations == View().totalAllocations && s.totalFrees == View().totalFrees
      ensures s.bytesAllocated == View().bytesAllocated && s.bytesFreed == View().bytesFreed
      ensures if totalAllocations > 0 then s.averageSize * (totalAllocations as real) == bytesAllocated as real
              else s.averageSize == 0.0
      ensures if completedLifetimes > 0 then s.averageLifetime * (completedLifetimes as real) == totalLifetime as real
              else s.averageLifetime == 0.0
    {
      var averageSize, averageLifetime := 0.0, 0.0;
      if totalAllocations > 0 { averageSize := bytesAllocated as real / totalAllocations as real; }
      if completedLifetimes > 0 { averageLifetime := totalLifetime as real / completedLifetimes as real; }
      var activeCount := 0;
      if totalAllocations >= totalFrees { activeCount := totalAllocations - totalFrees; }
      s := Snapshot(currentRam, peakRam, currentVram, peakVram, currentSsd, peakSsd,
                    totalAllocations, totalFrees, bytesAllocated, bytesFreed,
                    averageSize, averageLifetime, activeCount);
    }
  }

  class EventAnalyzer {
    const stats: StatisticsCollector?
    var activeMap: map<nat, Allocation>
    var processed: nat
    var activeCount: nat
    var activeBytes: nat
    var peakBytes: nat
    var outOfOrder: nat
    var lastTimestamp: nat

    function View(): Analysis
      reads this
    {
      Analysis(activeMap, processed, activeCount, activeBytes, peakBytes, outOfOrder, lastTimestamp)
    }

    /** The analyzer together with its collector, if it has one. */
    function Books(): System
      reads this, stats
    {
      System(View(), if stats == null then EMPTY_COLLECTOR else stats.View())
    }

    constructor (collector: StatisticsCollector?)
      ensures stats == collector && View() == EMPTY_ANALYSIS
    {
      stats, activeMap := collector, map[];
      processed, activeCount, activeBytes, peakBytes, outOfOrder, lastTimestamp := 0, 0, 0, 0, 0, 0;
    }

    /** The size, tier and process id of an object event are bytes 0-7 and 12 of its payload and
        its sequence number. */
    method ProcessEvent(e: Event)
      modifies this, stats
      ensures Books() == Absorbed(stats != null, old(Books()), Observe(e))
      ensures e.kind == 0x0101 ==>
        activeMap == old(activeMap)[e.objectId as nat :=
          Allocation(e.objectId as nat, U64(e.payload[0..8]) as nat, e.timestamp as nat, e.payload[12] as nat,
                     e.sequenceNum as nat)]
      ensures e.kind == 0x0102 ==> activeMap == old(activeMap) - {e.objectId as nat}
      ensures e.kind == 0x0203 ==>
        && activeMap.Keys == old(activeMap).Keys
        && forall id :: id in activeMap ==>
             activeMap[id] == if id == e.objectId as nat then old(activeMap)[id].(tier := 1) else old(activeMap)[id]
      ensures e.kind != 0x0101 && e.kind != 0x0102 && e.kind != 0x0203 ==> activeMap == old(activeMap)
    {
      hide Analyzed, Reported, ReportOf, Observe, U64;
      ActiveAfter(View(), e);
      Process(Observe(e));
    }

    method Process(o: Observation)
      modifies this, stats
      ensures Books() == Absorbed(stats != null, old(Books()), o)
    {
      hide Allocated, Freed;
      processed := Add64(processed, 1);
      if o.timestamp < lastTimestamp {
        outOfOrder := Add64(outOfOrder, 1);
      } else {
        lastTimestamp := o.timestamp;
      }
      if o.kind == OBJECT_CREATED {
        HandleCreated(o);
      } else if o.kind == OBJECT_DESTROYED {
        HandleDestroyed(o);
      } else if o.kind == MIGRATION_COMPLETED {
        HandleMigrated(o);
      }
    }

    method HandleCreated(o: Observation)
      modifies this, stats
      ensures View() == Created(old(View()), o)
      ensures stats != null ==> stats.View() == Allocated(old(stats.View()), o.tier, o.size, o.pid)
    {
      hide Allocated;
      activeMap := activeMap[o.objectId := Allocation(o.objectId, o.size, o.timestamp, o.tier, o.pid)];
      activeCount := |activeMap|;
      activeBytes := Add64(activeBytes, o.size);
      peakBytes := Max(peakBytes, activeBytes);
      if stats != null { stats.RecordAllocation(o.tier, o.size, o.pid); }
    }

    method HandleDestroyed(o: Observation)
      modifies this, stats
      ensures View() == Destroyed(old(View()), o)
      ensures stats != null ==>
        stats.View() == if o.objectId !in old(activeMap) then old(stats.View())
                        else var x := old(activeMap)[o.objectId];
                          Freed(old(stats.View()), x.tier, x.size,
                                if o.timestamp >= x.allocatedAt then o.timestamp - x.allocatedAt else 0, x.pid)
    {
      hide Freed;
      if o.objectId !in activeMap {
        outOfOrder := Add64(outOfOrder, 1);
        return;
      }
      var x := activeMap[o.objectId];
      activeMap := activeMap - {o.objectId};
      var lifetime := 0;
      if o.timestamp >= x.allocatedAt { lifetime := o.timestamp - x.allocatedAt; }
      activeCount := |activeMap|;
      if activeBytes >= x.size { activeBytes := activeBytes - x.size; } else { activeBytes := 0; }
      if stats != null { stats.RecordFree(x.tier, x.size, lifetime, x.pid); }
    }

    method HandleMigrated(o: Observation)
      modifies this
      ensures View() == Migrated(old(View()), o)
    {
      if o.objectId in activeMap {
        activeMap := activeMap[o.objectId := activeMap[o.objectId].(tier := RAM)];
      }
    }
  }

  /** What becomes of the active table, from the fields of the event. */
  lemma ActiveAfter(a: Analysis, e: Event)
    ensures var active := Analyzed(a, Observe(e)).active;
      && (e.kind == 0x0101 ==>
            active == a.active[e.objectId as nat :=
              Allocation(e.objectId as nat, U64(e.payload[0..8]) as nat, e.timestamp as nat, e.payload[12] as nat,
                         e.sequenceNum as nat)])
      && (e.kind == 0x0102 ==> active == a.active - {e.objectId as nat})
      && (e.kind == 0x0203 ==>
            && active.Keys == a.active.Keys
            && forall id :: id in active ==>
                 active[id] == if id == e.objectId as nat then a.active[id].(tier := 1) else a.active[id])
      && (e.kind != 0x0101 && e.kind != 0x0102 && e.kind != 0x0203 ==> active == a.active)
  {
    hide U64, Observe, Analyzed;
    ObservedFields(e);
    TableAfter(a, Observe(e));
  }

  lemma ObservedFields(e: Event)
    ensures Observe(e) == Observation(e.kind, e.objectId as nat, e.timestamp as nat, U64(e.payload[0..8]) as nat,
                                      e.payload[12] as nat, e.sequenceNum as nat)
  {
    hide U64;
  }

  lemma TableAfter(a: Analysis, o: Observation)
    ensures var active := Analyzed(a, o).active;
      && (o.kind == 0x0101 ==>
            active == a.active[o.objectId := Allocation(o.objectId, o.size, o.timestamp, o.tier, o.pid)])
      && (o.kind == 0x0102 ==> active == a.active - {o.objectId})
      && (o.kind == 0x0203 ==>
            && active.Keys == a.active.Keys
            && forall id :: id in active ==>
                 active[id] == if id == o.objectId then a.active[id].(tier := 1) else a.active[id])
      && (o.kind != 0x0101 && o.kind != 0x0102 && o.kind != 0x0203 ==> active == a.active)
  {}

  /** One event as seen by an analyzer with or without a collector. */
  function Absorbed(hasStats: bool, s: System, o: Observation): System {
    System(Analyzed(s.a, o), if hasStats then Reported(s.c, ReportOf(s.a, o)) else s.c)
  }
}
