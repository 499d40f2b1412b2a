/** What the event analyzer and the statistics collector compute, on values: one event
    as a transition, a run of events as a fold. */
module MemoryAccounting {
  import opened Crc
  import opened EventCodec

  const TWO_64: nat := 0x1_0000_0000_0000_0000

  /** 64-bit unsigned addition wraps. */
  function Add64(a: nat, b: nat): nat { (a + b) % TWO_64 }

  function Max(a: nat, b: nat): nat { if a >= b then a else b }

  // ----- The part of an event the analyzer looks at -----

  const OBJECT_CREATED: bv16 := 0x0101
  const OBJECT_DESTROYED: bv16 := 0x0102
  const MIGRATION_COMPLETED: bv16 := 0x0203

  const VRAM: nat := 0
  const RAM: nat := 1
  const NVME: nat := 4

  datatype Observation = Observation(kind: bv16, objectId: nat, timestamp: nat, size: nat, tier: nat, pid: nat)

  function Observe(e: Event): Observation {
    Observation(e.kind, e.objectId as nat, e.timestamp as nat,
                U64(e.payload[0..8]) as nat, e.payload[12] as nat, e.sequenceNum as nat)
  }

  /** The bytes of the 128-byte image each of these is read from. */
  lemma ObservedBytes(e: Event, b: Bytes)
    requires b == Encode(e)
    ensures Observe(e).kind == U16(b[24..26]) && Observe(e).objectId == U64(b[16..24]) as nat
    ensures Observe(e).timestamp == U64(b[8..16]) as nat && Observe(e).size == U64(b[64..72]) as nat
    ensures Observe(e).tier == b[76] as nat && Observe(e).pid == U32(b[40..44]) as nat
  {
    hide U16, U32, U64, Decode, Encode;
    DecodeEncode(e);
    DecodedFields(b);
    SliceOfSlice(b, 64, 128, 0, 8);
  }

  /** What the analyzer sees of an object event as the factory makes it: a RAM object of the given
      size, and no process. */
  lemma ObservedFactoryEvent(id: bv64, time: bv64, kind: bv16, obj: bv64, tier: bv16, size: bv64, rest: Bytes)
    requires |rest| == 32
    ensures Observe(ObjectEvent(id, time, kind, obj, tier, size, rest))
            == Observation(kind, obj as nat, time as nat, size as nat, RAM, 0)
  {
    RoundTrip64(size);
    hide Le64, U64;
    assert ObjectEvent(id, time, kind, obj, tier, size, rest).payload[0..8] == Le64(size);
  }

  // ----- The collector -----

  datatype Usage = Usage(current: nat, peak: nat, allocations: nat, frees: nat)

  const UNUSED := Usage(0, 0, 0, 0)

  datatype Pool = VramPool | SsdPool | RamPool

  function PoolOf(tier: nat): (p: Pool)
    ensures (p == VramPool <==> tier == 0) && (p == SsdPool <==> tier == 4)
  {
    if tier == VRAM then VramPool else if tier == NVME then SsdPool else RamPool
  }

  datatype Level = Level(current: nat, peak: nat)

  datatype Collector = Collector(
    ram: Level, vram: Level, ssd: Level,
    totalAllocations: nat, totalFrees: nat, bytesAllocated: nat, bytesFreed: nat,
    totalLifetime: nat, completedLifetimes: nat,
    tiers: map<nat, Usage>, processes: map<nat, Usage>)

  const EMPTY_COLLECTOR := Collector(
    Level(0, 0), Level(0, 0), Level(0, 0),
    0, 0, 0, 0, 0, 0, map[], map[])

  function LevelOf(c: Collector, p: Pool): Level {
    match p
    case VramPool => c.vram
    case SsdPool => c.ssd
    case RamPool => c.ram
  }

  function WithLevel(c: Collector, p: Pool, l: Level): Collector {
    match p
    case VramPool => c.(vram := l)
    case SsdPool => c.(ssd := l)
    case RamPool => c.(ram := l)
  }

  function UsageOf(m: map<nat, Usage>, key: nat): Usage {
    if key in m then m[key] else UNUSED
  }

  function Raised(l: Level, size: nat): Level {
    var current := Add64(l.current, size);
    Level(current, Max(l.peak, current))
  }

  /** Subtraction clamps at zero. */
  function Lowered(current: nat, size: nat): nat {
    if current >= size then current - size else 0
  }

  function UsageUp(u: Usage, size: nat): Usage {
    var current := Add64(u.current, size);
    Usage(current, Max(u.peak, current), Add64(u.allocations, 1), u.frees)
  }

  function UsageDown(u: Usage, size: nat): Usage {
    u.(current := Lowered(u.current, size), frees := Add64(u.frees, 1))
  }

  /** The effect of `record_allocation`. */
  function Allocated(c: Collector, tier: nat, size: nat, pid: nat): Collector {
    WithLevel(c, PoolOf(tier), Raised(LevelOf(c, PoolOf(tier)), size)).
      (totalAllocations := Add64(c.totalAllocations, 1),
       bytesAllocated := Add64(c.bytesAllocated, size),
       tiers := c.tiers[tier := UsageUp(UsageOf(c.tiers, tier), size)],
       processes := if pid == 0 then c.processes else c.processes[pid := UsageUp(UsageOf(c.processes, pid), size)])
  }

  /** The effect of `record_free`. */
  function Freed(c: Collector, tier: nat, size: nat, lifetime: nat, pid: nat): Collector {
    var level := LevelOf(c, PoolOf(tier));
    WithLevel(c, PoolOf(tier), Level(Lowered(level.current, size), level.peak)).
      (totalFrees := Add64(c.totalFrees, 1),
       bytesFreed := Add64(c.bytesFreed, size),
       totalLifetime := if lifetime > 0 then Add64(c.totalLifetime, lifetime) else c.totalLifetime,
       completedLifetimes := if lifetime > 0 then Add64(c.completedLifetimes, 1) else c.completedLifetimes,
       tiers := c.tiers[tier := UsageDown(UsageOf(c.tiers, tier), size)],
       processes := if pid == 0 then c.processes else c.processes[pid := UsageDown(UsageOf(c.processes, pid), size)])
  }

  // ----- The analyzer -----

  datatype Allocation = Allocation(objectId: nat, size: nat, allocatedAt: nat, tier: nat, pid: nat)

  datatype Analysis = Analysis(
    active: map<nat, Allocation>,
    processed: nat, activeCount: nat, activeBytes: nat, peakBytes: nat, outOfOrder: nat,
    lastTimestamp: nat)

  const EMPTY_ANALYSIS := Analysis(map[], 0, 0, 0, 0, 0, 0)

  /** What the analyzer tells its collector about one event. */
  datatype Report =
    | Silent
    | Alloc(tier: nat, size: nat, pid: nat)
    | Free(tier: nat, size: nat, lifetime: nat, pid: nat)

  function Reported(c: Collector, r: Report): Collector {
    match r
    case Silent => c
    case Alloc(tier, size, pid) => Allocated(c, tier, size, pid)
    case Free(tier, size, lifetime, pid) => Freed(c, tier, size, lifetime, pid)
  }

  function Stamped(a: Analysis, o: Observation): Analysis {
    if o.timestamp < a.lastTimestamp
    then a.(processed := Add64(a.processed, 1), outOfOrder := Add64(a.outOfOrder, 1))
    else a.(processed := Add64(a.processed, 1), lastTimestamp := o.timestamp)
  }

  function Created(a: Analysis, o: Observation): Analysis {
    var active := a.active[o.objectId := Allocation(o.objectId, o.size, o.timestamp, o.tier, o.pid)];
    var bytes := Add64(a.activeBytes, o.size);
    a.(active := active, activeCount := |active|, activeBytes := bytes, peakBytes := Max(a.peakBytes, bytes))
  }

  function Destroyed(a: Analysis, o: Observation): Analysis {
    if o.objectId !in a.active then a.(outOfOrder := Add64(a.outOfOrder, 1))
    else
      var active := a.active - {o.objectId};
      a.(active := active, activeCount := |active|,
         activeBytes := Lowered(a.activeBytes, a.active[o.objectId].size))
  }

  function Migrated(a: Analysis, o: Observation): Analysis {
    if o.objectId !in a.active then a
    else a.(active := a.active[o.objectId := a.active[o.objectId].(tier := RAM)])
  }

  function Analyzed(a: Analysis, o: Observation): Analysis {
    var s := Stamped(a, o);
    if o.kind == OBJECT_CREATED then Created(s, o)
    else if o.kind == OBJECT_DESTROYED then Destroyed(s, o)
    else if o.kind == MIGRATION_COMPLETED then Migrated(s, o)
    else s
  }

  function ReportOf(a: Analysis, o: Observation): Report {
    if o.kind == OBJECT_CREATED then Alloc(o.tier, o.size, o.pid)
    else if o.kind == OBJECT_DESTROYED && o.objectId in a.active then
      var x := a.active[o.objectId];
      Free(x.tier, x.size, if o.timestamp >= x.allocatedAt then o.timestamp - x.allocatedAt else 0, x.pid)
    else Silent
  }

  // ----- Runs -----

  datatype System = System(a: Analysis, c: Collector)

  const START := System(EMPTY_ANALYSIS, EMPTY_COLLECTOR)

  function Step(s: System, o: Observation): System {
    System(Analyzed(s.a, o), Reported(s.c, ReportOf(s.a, o)))
  }

  function Run(run: seq<Observation>): System {
    if run == [] then START else Step(Run(run[..|run| - 1]), run[|run| - 1])
  }

  // ----- Sums over the active table -----

  datatype Group = Everything | InTier(tier: nat) | InPool(pool: Pool) | OfProcess(pid: nat)

  predicate Member(g: Group, x: Allocation) {
    match g
    case Everything => true
    case InTier(t) => x.tier == t
    case InPool(p) => PoolOf(x.tier) == p
    case OfProcess(pid) => x.pid == pid
  }

  function Weight(g: Group, x: Allocation): nat { if Member(g, x) then x.size else 0 }

  ghost function Total(m: map<nat, Allocation>, g: Group): nat
    decreases |m|
  {
    if m == map[] then 0
    else
      var k :| k in m;
      assert (m - {k}).Keys == m.Keys - {k};
      Weight(g, m[k]) + Total(m - {k}, g)
  }

  lemma RemovedSize(m: map<nat, Allocation>, k: nat)
    requires k in m
    ensures |m - {k}| == |m| - 1
  {
    assert (m - {k}).Keys == m.Keys - {k};
  }

  lemma {:induction false} TotalRemove(m: map<nat, Allocation>, g: Group, k: nat)
    requires k in m
    ensures Total(m, g) == Weight(g, m[k]) + Total(m - {k}, g)
    decreases |m|
  {
    hide Weight;
    var x :| x in m && Total(m, g) == Weight(g, m[x]) + Total(m - {x}, g);
    if x != k {
      RemovedSize(m, x);
      TotalRemove(m - {x}, g, k);
      RemovedSize(m, k);
      TotalRemove(m - {k}, g, x);
      assert m - {x} - {k} == m - {k} - {x};
    }
  }

  lemma TotalAdd(m: map<nat, Allocation>, g: Group, k: nat, x: Allocation)
    requires k !in m
    ensures Total(m[k := x], g) == Total(m, g) + Weight(g, x)
  {
    TotalRemove(m[k := x], g, k);
    assert m[k := x] - {k} == m;
  }

  lemma TotalUpdate(m: map<nat, Allocation>, g: Group, k: nat, x: Allocation)
    requires k in m
    ensures Total(m[k := x], g) + Weight(g, m[k]) == Total(m, g) + Weight(g, x)
  {
    TotalRemove(m, g, k);
    TotalRemove(m[k := x], g, k);
    assert m[k := x] - {k} == m - {k};
  }
}
