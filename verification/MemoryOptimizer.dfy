/** The tier optimizer: ageing, migration tasks, and their handover to the placement queue.
    Temperatures and costs are real numbers. */
module MemoryOptimizer {
  import opened MemoryPlacement

  datatype Residency = Residency(size: nat, tier: Tier, accesses: nat, temperature: real)

  datatype Task = Task(id: nat, obj: nat, source: Tier, target: Tier, size: nat, cost: real, priority: nat)

  // ----- Ageing and planning -----

  function Cooled(t: real, decay: real): real { if t - t * decay > 0.0 then t - t * decay else 0.0 }

  /** Ageing keeps temperatures within bounds exactly when the decay rate is not negative. */
  lemma CoolingBoundedIff(decay: real)
    ensures decay >= 0.0 <==> forall t: real :: 0.0 <= t <= 100.0 ==> 0.0 <= Cooled(t, decay) <= 100.0
  {
    if decay >= 0.0 {
      forall t: real | 0.0 <= t <= 100.0 ensures 0.0 <= Cooled(t, decay) <= 100.0 { assert t * decay >= 0.0; }
    } else {
      assert Cooled(100.0, decay) > 100.0;
    }
  }

  /** In microseconds: 10, and per byte 0.00005 between VRAM and RAM, 0.0004 from RAM to NVMe, and
      0.0001 otherwise. */
  function Cost(source: Tier, target: Tier, size: nat): (c: real)
    ensures {source, target} == {Vram, Ram} ==> c == size as real * 0.00005 + 10.0
    ensures source == Ram && target == Nvme ==> c == size as real * 0.0004 + 10.0
    ensures {source, target} != {Vram, Ram} && !(source == Ram && target == Nvme) ==> c == size as real * 0.0001 + 10.0
  {
    var perByte := if source == Vram && target == Ram then 0.00005
                   else if source == Ram && target == Vram then 0.00005
                   else if source == Ram && target == Nvme then 0.0004 else 0.0001;
    size as real * perByte + 10.0
  }

  predicate Cold(r: Residency) { r.temperature < 20.0 && r.tier == Vram }
  predicate Hot(r: Residency) { r.temperature > 80.0 && r.tier == Ram }

  function TaskFor(obj: nat, r: Residency, id: nat): Task
    requires Cold(r) || Hot(r)
  {
    if Cold(r) then Task(id, obj, Vram, Ram, r.size, Cost(Vram, Ram, r.size), 50)
    else Task(id, obj, Ram, Vram, r.size, Cost(Ram, Vram, r.size), 150)
  }

  function CoolAll(m: map<nat, Residency>, decay: real): map<nat, Residency> {
    map id | id in m :: CoolOne(m[id], decay)
  }

  /** Tasks for the cold and hot objects, visited in this order. */
  function Planned(order: seq<nat>, m: map<nat, Residency>, counter: nat): seq<Task> {
    if order == [] then []
    else
      var n := |order| - 1;
      var tasks := Planned(order[..n], m, counter);
      if order[n] in m && (Cold(m[order[n]]) || Hot(m[order[n]]))
      then tasks + [TaskFor(order[n], m[order[n]], counter + |tasks| + 1)] else tasks
  }

  lemma PlannedNext(order: seq<nat>, id: nat, m: map<nat, Residency>, counter: nat)
    requires id in m
    ensures var tasks, r := Planned(order, m, counter), m[id];
      Planned(order + [id], m, counter)
      == if Cold(r) || Hot(r) then tasks + [TaskFor(id, r, counter + |tasks| + 1)] else tasks
  {
    assert (order + [id])[..|order|] == order;
  }

  /** Each object gets at most one new task, and gets one exactly when it is cold or hot. */
  lemma {:induction false} PlannedIff(order: seq<nat>, m: map<nat, Residency>, counter: nat, id: nat)
    requires forall i, j :: 0 <= i < j < |order| ==> order[i] != order[j]
    ensures |Planned(order, m, counter)| <= |order|
    ensures Occurrences(Planned(order, m, counter), id)
            == if id in order && id in m && (Cold(m[id]) || Hot(m[id])) then 1 else 0
  {
    if order != [] {
      var n := |order| - 1;
      PlannedIff(order[..n], m, counter, id);
      assert order == order[..n] + [order[n]];
    }
  }

  /** Each new task moves a visited object below 20 degrees from VRAM to RAM, or one above 80 from
      RAM to VRAM, at 50 microseconds a megabyte and 10 more. */
  lemma {:induction false} PlannedTasks(order: seq<nat>, m: map<nat, Residency>, counter: nat, i: nat)
    requires i < |Planned(order, m, counter)|
    ensures var t := Planned(order, m, counter)[i];
      && t.obj in order && t.obj in m && t.id == counter + i + 1
      && var r := m[t.obj];
         var cost := r.size as real * 0.00005 + 10.0;
         || (r.tier == Vram && r.temperature < 20.0 && t == Task(t.id, t.obj, Vram, Ram, r.size, cost, 50))
         || (r.tier == Ram && r.temperature > 80.0 && t == Task(t.id, t.obj, Ram, Vram, r.size, cost, 150))
  {
    var n := |order| - 1;
    if i < |Planned(order[..n], m, counter)| { PlannedTasks(order[..n], m, counter, i); }
  }

  function Occurrences(tasks: seq<Task>, id: nat): nat {
    if tasks == [] then 0
    else Occurrences(tasks[..|tasks| - 1], id) + if tasks[|tasks| - 1].obj == id then 1 else 0
  }

  ghost predicate Enumerates(order: seq<nat>, keys: set<nat>) {
    && (forall i, j :: 0 <= i < j < |order| ==> order[i] != order[j])
    && (forall id :: id in order <==> id in keys)
  }

  // ----- Which tasks the placement queue takes -----

  function TaskObjects(tasks: seq<Task>): set<nat> {
    set i | 0 <= i < |tasks| :: tasks[i].obj
  }

  /** Tasks taken from a list, offered in order while `busy` objects are queued. */
  function Admitted(tasks: seq<Task>, busy: set<nat>): seq<Task> {
    if tasks == [] then []
    else
      var n := |tasks| - 1;
      var before := Admitted(tasks[..n], busy);
      if tasks[n].obj == 0 || tasks[n].obj in busy + TaskObjects(before) then before else before + [tasks[n]]
  }

  function Refused(tasks: seq<Task>, busy: set<nat>): seq<Task> {
    if tasks == [] then []
    else
      var n := |tasks| - 1;
      var before := Refused(tasks[..n], busy);
      if tasks[n].obj == 0 || tasks[n].obj in busy + TaskObjects(Admitted(tasks[..n], busy))
      then before + [tasks[n]] else before
  }

  lemma ObjectsNext(tasks: seq<Task>, t: Task)
    ensures TaskObjects(tasks + [t]) == TaskObjects(tasks) + {t.obj}
  {
    var longer := tasks + [t];
    forall i | 0 <= i < |tasks| ensures tasks[i].obj in TaskObjects(longer) {
      assert longer[i].obj in TaskObjects(longer);
    }
    assert longer[|tasks|].obj in TaskObjects(longer);
  }

  ghost predicate DistinctObjects(tasks: seq<Task>) {
    forall i, j :: 0 <= i < j < |tasks| ==> tasks[i].obj != tasks[j].obj
  }

  lemma DistinctNext(tasks: seq<Task>, t: Task)
    requires DistinctObjects(tasks) && t.obj !in TaskObjects(tasks)
    ensures DistinctObjects(tasks + [t])
  {
    forall i | 0 <= i < |tasks| ensures tasks[i].obj != t.obj { assert tasks[i].obj in TaskObjects(tasks); }
  }

  /** No object is taken twice, none is null or was queued before. */
  lemma {:induction false} AdmittedOnce(tasks: seq<Task>, busy: set<nat>)
    ensures DistinctObjects(Admitted(tasks, busy))
    ensures forall t :: t in Admitted(tasks, busy) ==> t.obj != 0 && t.obj !in busy
  {
    hide TaskObjects, DistinctObjects;
    if tasks != [] {
      var n := |tasks| - 1;
      AdmittedOnce(tasks[..n], busy);
      var before := Admitted(tasks[..n], busy);
      if tasks[n].obj !in TaskObjects(before) { DistinctNext(before, tasks[n]); }
    } else {
      NoneDistinct();
    }
  }

  lemma NoneDistinct()
    ensures DistinctObjects([])
  {}

  lemma AdmittedNext(tasks: seq<Task>, busy: set<nat>, k: nat)
    requires k < |tasks|
    ensures var a, r, t := Admitted(tasks[..k], busy), Refused(tasks[..k], busy), tasks[k];
      var refused := t.obj == 0 || t.obj in busy + TaskObjects(a);
      && Admitted(tasks[..k + 1], busy) == (if refused then a else a + [t])
      && Refused(tasks[..k + 1], busy) == (if refused then r + [t] else r)
  {
    assert tasks[..k + 1][..k] == tasks[..k];
  }

  /** Every offered task is either taken or kept, once. */
  lemma {:induction false} TasksConserved(tasks: seq<Task>, busy: set<nat>)
    ensures multiset(Admitted(tasks, busy)) + multiset(Refused(tasks, busy)) == multiset(tasks)
    ensures |Admitted(tasks, busy)| + |Refused(tasks, busy)| == |tasks|
  {
    hide TaskObjects;
    if tasks != [] {
      var n := |tasks| - 1;
      TasksConserved(tasks[..n], busy);
      assert tasks == tasks[..n] + [tasks[n]];
    }
  }

  /** A task is kept only for a null object, or one that is queued by the end of the pass. */
  lemma {:induction false} RefusedBecauseQueued(tasks: seq<Task>, busy: set<nat>, t: Task)
    requires t in Refused(tasks, busy)
    ensures t.obj == 0 || t.obj in busy + TaskObjects(Admitted(tasks, busy))
  {
    var n := |tasks| - 1;
    var before := Admitted(tasks[..n], busy);
    ObjectsNext(before, tasks[n]);
    if t in Refused(tasks[..n], busy) { RefusedBecauseQueued(tasks[..n], busy, t); }
  }

  /** The first task offered for an object is taken, unless the object is null or queued. */
  lemma {:induction false} FirstIsAdmitted(tasks: seq<Task>, busy: set<nat>, i: nat)
    requires i < |tasks| && tasks[i].obj != 0 && tasks[i].obj !in busy
    requires forall j :: 0 <= j < i ==> tasks[j].obj != tasks[i].obj
    ensures tasks[i] in Admitted(tasks, busy)
  {
    var n := |tasks| - 1;
    if i < n {
      FirstIsAdmitted(tasks[..n], busy, i);
    } else {
      AdmittedOffered(tasks[..n], busy);
    }
  }

  lemma {:induction false} AdmittedOffered(tasks: seq<Task>, busy: set<nat>)
    ensures forall t :: t in Admitted(tasks, busy) ==> t in tasks
    ensures TaskObjects(Admitted(tasks, busy)) <= TaskObjects(tasks)
  {
    if tasks != [] {
      var n := |tasks| - 1;
      AdmittedOffered(tasks[..n], busy);
      ObjectsNext(tasks[..n], tasks[n]);
      ObjectsNext(Admitted(tasks[..n], busy), tasks[n]);
      assert tasks == tasks[..n] + [tasks[n]];
    }
  }

  function DecisionFor(t: Task): Decision { Decision(t.obj, t.target, t.size, t.priority) }

  /** The requests handed to the placement queue: numbered on, each for its task's object, target
      tier, size and priority. */
  function Requests(tasks: seq<Task>, counter: nat): (r: seq<Request>)
    ensures |r| == |tasks| && forall i :: 0 <= i < |r| ==>
      && r[i].id == counter + i + 1 && r[i].decision.obj == tasks[i].obj && r[i].decision.tier == tasks[i].target
      && r[i].decision.size == tasks[i].size && r[i].decision.priority == tasks[i].priority
  {
    seq(|tasks|, i requires 0 <= i < |tasks| => Request(counter + i + 1, DecisionFor(tasks[i])))
  }

  function Moved(m: map<nat, Residency>, t: Task): map<nat, Residency> {
    if t.obj in m then m[t.obj := m[t.obj].(tier := t.target)] else m
  }

  function Relocated(m: map<nat, Residency>, tasks: seq<Task>): map<nat, Residency> {
    if tasks == [] then m
    else Moved(Relocated(m, tasks[..|tasks| - 1]), tasks[|tasks| - 1])
  }

  /** An object ends the pass in the tier of its one taken task, or where it was. */
  lemma {:induction false} RelocatedTier(m: map<nat, Residency>, tasks: seq<Task>, id: nat)
    requires DistinctObjects(tasks)
    ensures Relocated(m, tasks).Keys == m.Keys
    ensures id in m ==> Relocated(m, tasks)[id].(tier := m[id].tier) == m[id]
    ensures id in m && id !in TaskObjects(tasks) ==> Relocated(m, tasks)[id] == m[id]
    ensures forall i :: 0 <= i < |tasks| && tasks[i].obj == id && id in m ==>
              Relocated(m, tasks)[id].tier == tasks[i].target
  {
    if tasks != [] {
      var n := |tasks| - 1;
      RelocatedTier(m, tasks[..n], id);
      assert tasks == tasks[..n] + [tasks[n]];
      ObjectsNext(tasks[..n], tasks[n]);
    }
  }

  // ----- What a pass does to one object -----

  /** The tier an object ends in, from the tier it was in, its aged temperature, whether the queue
      can take it, and the oldest task that was waiting for it, if any. */
  function TierAfter(was: Tier, aged: real, free: bool, waiting: seq<Task>): Tier {
    if !free then was
    else if waiting != [] then waiting[0].target
    else if was == Vram && aged < 20.0 then Ram
    else if was == Ram && aged > 80.0 then Vram
    else was
  }

  function TasksOf(tasks: seq<Task>, id: nat): seq<Task> {
    if tasks == [] then []
    else TasksOf(tasks[..|tasks| - 1], id) + if tasks[|tasks| - 1].obj == id then [tasks[|tasks| - 1]] else []
  }

  lemma {:induction false} FirstOf(tasks: seq<Task>, id: nat) returns (i: nat)
    requires TasksOf(tasks, id) != []
    ensures i < |tasks| && tasks[i] == TasksOf(tasks, id)[0] && tasks[i].obj == id
    ensures forall j :: 0 <= j < i ==> tasks[j].obj != id
  {
    var n := |tasks| - 1;
    if TasksOf(tasks[..n], id) != [] {
      i := FirstOf(tasks[..n], id);
    } else {
      i := n;
      NoneOf(tasks[..n], id);
    }
  }

  lemma {:induction false} NoneOf(tasks: seq<Task>, id: nat)
    ensures TasksOf(tasks, id) == [] <==> forall j :: 0 <= j < |tasks| ==> tasks[j].obj != id
  {
    if tasks != [] { NoneOf(tasks[..|tasks| - 1], id); }
  }

  lemma {:induction false} TasksOfBoth(a: seq<Task>, b: seq<Task>, id: nat)
    ensures TasksOf(a + b, id) == TasksOf(a, id) + TasksOf(b, id)
  {
    if b == [] {
      assert a + b == a;
    } else {
      var n := |b| - 1;
      TasksOfBoth(a, b[..n], id);
      assert (a + b)[..|a| + n] == a + b[..n];
    }
  }

  /** An object is moved by the first of its tasks, if the queue can take it. */
  lemma MovedByFirst(m: map<nat, Residency>, tasks: seq<Task>, busy: set<nat>, id: nat)
    requires id in m
    ensures var after := Relocated(m, Admitted(tasks, busy));
      && id in after && after[id].(tier := m[id].tier) == m[id]
      && after[id].tier == if id == 0 || id in busy || TasksOf(tasks, id) == [] then m[id].tier
                           else TasksOf(tasks, id)[0].target
  {
    hide Admitted, Relocated, TasksOf;
    var taken := Admitted(tasks, busy);
    AdmittedOnce(tasks, busy);
    AdmittedOffered(tasks, busy);
    RelocatedTier(m, taken, id);
    NoneOf(tasks, id);
    if id != 0 && id !in busy && TasksOf(tasks, id) != [] {
      var i := FirstOf(tasks, id);
      FirstIsAdmitted(tasks, busy, i);
    }
  }

  /** The task an object gets when it is visited. */
  lemma {:induction false} PlannedFor(order: seq<nat>, m: map<nat, Residency>, counter: nat, id: nat)
    requires forall i, j :: 0 <= i < j < |order| ==> order[i] != order[j]
    ensures var own := TasksOf(Planned(order, m, counter), id);
      if id in order && id in m && m[id].tier == Vram && m[id].temperature < 20.0
      then |own| == 1 && own[0].target == Ram
      else if id in order && id in m && m[id].tier == Ram && m[id].temperature > 80.0
      then |own| == 1 && own[0].target == Vram
      else own == []
  {
    if order != [] {
      var n := |order| - 1;
      PlannedFor(order[..n], m, counter, id);
      assert order == order[..n] + [order[n]];
      var tasks := Planned(order[..n], m, counter);
      if order[n] in m && (Cold(m[order[n]]) || Hot(m[order[n]])) {
        TasksOfBoth(tasks, [TaskFor(order[n], m[order[n]], counter + |tasks| + 1)], id);
      }
    }
  }

  /** A whole pass, for one object. */
  lemma PassMoves(m: map<nat, Residency>, waiting: seq<Task>, order: seq<nat>, decay: real, counter: nat,
                  busy: set<nat>, id: nat)
    requires id in m && Enumerates(order, m.Keys)
    ensures var cooled := CoolAll(m, decay);
      var after := Relocated(cooled, Admitted(waiting + Planned(order, cooled, counter), busy));
      var rest := m[id].temperature - m[id].temperature * decay;
      var aged := if rest > 0.0 then rest else 0.0;
      && id in after
      && after[id] == Residency(m[id].size, TierAfter(m[id].tier, aged, id != 0 && id !in busy, TasksOf(waiting, id)),
                                m[id].accesses, aged)
  {
    hide Admitted, Relocated, TasksOf, Planned;
    var cooled := CoolAll(m, decay);
    var planned := Planned(order, cooled, counter);
    MovedByFirst(cooled, waiting + planned, busy, id);
    TasksOfBoth(waiting, planned, id);
    PlannedFor(order, cooled, counter, id);
  }

  /** Every object has cooled by the decay rate, and only its tier has changed besides. */
  ghost predicate Passed(before: map<nat, Residency>, after: map<nat, Residency>, decay: real, busy: set<nat>,
                         waiting: seq<Task>) {
    && after.Keys == before.Keys
    && forall id :: id in before ==>
         var was, rest := before[id], before[id].temperature * (1.0 - decay);
         var aged, free := if rest > 0.0 then rest else 0.0, id != 0 && id !in busy;
         after[id] == Residency(was.size, TierAfter(was.tier, aged, free, TasksOf(waiting, id)), was.accesses, aged)
  }

  lemma PassMovesAll(m: map<nat, Residency>, waiting: seq<Task>, order: seq<nat>, decay: real, counter: nat,
                     busy: set<nat>)
    requires Enumerates(order, m.Keys)
    ensures var cooled := CoolAll(m, decay);
      Passed(m, Relocated(cooled, Admitted(waiting + Planned(order, cooled, counter), busy)), decay, busy, waiting)
  {
    hide Admitted, Relocated, Planned, TierAfter, TasksOf, Enumerates;
    var cooled := CoolAll(m, decay);
    var tasks := waiting + Planned(order, cooled, counter);
    AdmittedOnce(tasks, busy);
    RelocatedTier(cooled, Admitted(tasks, busy), 0);
    forall id | id in m
      ensures var was, rest := m[id], m[id].temperature * (1.0 - decay);
        var aged, free := if rest > 0.0 then rest else 0.0, id != 0 && id !in busy;
        Relocated(cooled, Admitted(tasks, busy))[id]
        == Residency(was.size, TierAfter(was.tier, aged, free, TasksOf(waiting, id)), was.accesses, aged)
    {
      PassMoves(m, waiting, order, decay, counter, busy, id);
      Factor(m[id].temperature, decay);
    }
  }

  lemma Factor(t: real, decay: real)
    ensures t * (1.0 - decay) == t - t * decay
  {}

  function TotalSize(tasks: seq<Task>): nat {
    if tasks == [] then 0 else TotalSize(tasks[..|tasks| - 1]) + tasks[|tasks| - 1].size
  }

  /** Estimated migration time, each task's rounded down to whole microseconds. */
  function TotalTime(tasks: seq<Task>): int {
    if tasks == [] then 0 else TotalTime(tasks[..|tasks| - 1]) + tasks[|tasks| - 1].cost.Floor
  }

  lemma TakenNext(tasks: seq<Task>, t: Task, m: map<nat, Residency>, counter: nat)
    ensures Requests(tasks + [t], counter)
            == Requests(tasks, counter) + [Request(counter + |tasks| + 1, DecisionFor(t))]
    ensures Relocated(m, tasks + [t]) == Moved(Relocated(m, tasks), t)
    ensures TotalSize(tasks + [t]) == TotalSize(tasks) + t.size
    ensures TotalTime(tasks + [t]) == TotalTime(tasks) + t.cost.Floor
    ensures TaskObjects(tasks + [t]) == TaskObjects(tasks) + {t.obj}
  {
    assert (tasks + [t])[..|tasks|] == tasks;
    ObjectsNext(tasks, t);
  }

  lemma EraseOrStep<T>(kept: seq<T>, list: seq<T>, k: nat)
    requires k < |list|
    ensures var all := kept + list[k..];
      && all[|kept|] == list[k]
      && all[..|kept|] + all[|kept| + 1..] == kept + list[k + 1..]
      && all == (kept + [list[k]]) + list[k + 1..]
  {}

  // ----- The optimizer -----

  class Optimizer {
    const placement: PlacementEngine
    var residency: map<nat, Residency>
    var pending: seq<Task>
    var counter: nat
    var decay: real
    var attempted: nat
    var completed: nat
    var cancelled: nat
    var bytesMoved: nat
    var timeSpent: int

    /** Tasks created are completed or pending; attempts are completed or cancelled. */
    ghost predicate Valid()
      reads this, placement
    {
      placement.Valid() && counter == completed + |pending| && attempted == completed + cancelled
    }

    constructor (placement: PlacementEngine)
      requires placement.Valid()
      ensures Valid() && this.placement == placement && residency == map[] && pending == [] && decay == 0.05
    {
      this.placement := placement;
      residency, pending, counter, decay := map[], [], 0, 0.05;
      attempted, completed, cancelled, bytesMoved, timeSpent := 0, 0, 0, 0, 0;
    }

    method RecordAccess(obj: nat, size: nat, tier: Tier)
      requires Valid()
      modifies this`residency
      ensures Valid() && residency.Keys == old(residency).Keys + {obj}
      ensures forall id :: id in old(residency) && id != obj ==> residency[id] == old(residency)[id]
      ensures var r := if obj in old(residency) then old(residency)[obj] else Residency(0, Ram, 0, 50.0);
        residency[obj] == Residency(size, tier, r.accesses + 1,
                                       if r.temperature + 10.0 < 100.0 then r.temperature + 10.0 else 100.0)
    {
      var r := if obj in residency then residency[obj] else Residency(0, Ram, 0, 50.0);
      var t := if r.temperature + 10.0 < 100.0 then r.temperature + 10.0 else 100.0;
      residency := residency[obj := Residency(size, tier, r.accesses + 1, t)];
    }

    /** One pass: every object is aged, cold and hot ones get a task, and all tasks are offered
        to the placement queue. `order` is the order in which the map was visited. */
    method OptimizePass() returns (ghost order: seq<nat>)
      requires Valid()
      modifies this, placement
      ensures Valid() && decay == old(decay) && Enumerates(order, old(residency).Keys)
      ensures var cooled := CoolAll(old(residency), decay);
        var tasks, busy := old(pending) + Planned(order, cooled, old(counter)), old(placement.pending);
        var taken := Admitted(tasks, busy);
        && pending == Refused(tasks, busy)
        && residency == Relocated(cooled, taken)
        && placement.queue == old(placement.queue) + Requests(taken, old(placement.counter))
        && attempted == old(attempted) + |tasks| && completed == old(completed) + |taken|
        && counter == old(counter) + |tasks| - |old(pending)|
        && bytesMoved == old(bytesMoved) + TotalSize(taken) && timeSpent == old(timeSpent) + TotalTime(taken)
      ensures Passed(old(residency), residency, decay, old(placement.pending), old(pending))
    {
      hide Passed, Admitted, Refused, Relocated, Planned, CoolAll, Requests, TotalSize, TotalTime;
      ghost var before, waiting, counter0, busy := residency, pending, counter, placement.pending;
      order := AgeAndPlan();
      ProcessPending();
      PassMovesAll(before, waiting, order, decay, counter0, busy);
    }

    method AgeAndPlan() returns (ghost order: seq<nat>)
      requires Valid()
      modifies this`residency, this`pending, this`counter
      ensures Valid() && Enumerates(order, old(residency).Keys)
      ensures residency == CoolAll(old(residency), decay)
      ensures pending == old(pending) + Planned(order, CoolAll(old(residency), decay), old(counter))
      ensures counter == old(counter) + |pending| - |old(pending)|
    {
      hide TaskFor, CoolOne, CoolAll, Planned, Enumerates, PartlyCooled, Cold, Hot;
      ghost var before, cooled := residency, CoolAll(residency, decay);
      var todo := residency.Keys;
      order := [];
      NothingVisited(residency, decay, counter);
      while todo != {}
        invariant PartlyCooled(residency, before, decay, todo)
        invariant Enumerates(order, before.Keys - todo) && todo <= before.Keys
        invariant pending == old(pending) + Planned(order, cooled, old(counter))
        invariant counter == old(counter) + |Planned(order, cooled, old(counter))|
        decreases |todo|
      {
        var id :| id in todo;
        CooledOne(residency, before, decay, todo, id);
        PlannedNext(order, id, cooled, old(counter));
        EnumeratesNext(order, before.Keys, todo, id);
        var r := CoolOne(residency[id], decay);
        residency := residency[id := r];
        if Cold(r) || Hot(r) {
          counter := counter + 1;
          pending := pending + [TaskFor(id, r, counter)];
        }
        todo := todo - {id};
        order := order + [id];
      }
      AllVisited(order, residency, before, decay);
    }

    /** Offer task i to the placement queue: it leaves the list, or stays and is counted as cancelled. */
    method Offer(i: nat) returns (taken: bool)
      requires i < |pending| && placement.Valid()
      modifies this`residency, this`pending, this`attempted, this`completed, this`cancelled,
        this`bytesMoved, this`timeSpent, placement
      ensures placement.Valid() && attempted == old(attempted) + 1
      ensures taken <==> old(pending[i]).obj != 0 && old(pending[i]).obj !in old(placement.pending)
      ensures var t := old(pending[i]);
        if taken then
          && pending == old(pending)[..i] + old(pending)[i + 1..] && residency == Moved(old(residency), t)
          && placement.queue == old(placement.queue) + [Request(old(placement.counter) + 1, DecisionFor(t))]
          && placement.pending == old(placement.pending) + {t.obj} && placement.counter == old(placement.counter) + 1
          && completed == old(completed) + 1 && cancelled == old(cancelled) && bytesMoved == old(bytesMoved) + t.size
          && timeSpent == old(timeSpent) + t.cost.Floor
        else
          && pending == old(pending) && residency == old(residency) && cancelled == old(cancelled) + 1
          && placement.queue == old(placement.queue) && placement.pending == old(placement.pending)
          && placement.counter == old(placement.counter)
          && completed == old(completed) && bytesMoved == old(bytesMoved) && timeSpent == old(timeSpent)
    {
      var t := pending[i];
      attempted := attempted + 1;
      var result := placement.EnqueueRequest(DecisionFor(t));
      taken := result.Placed?;
      if taken {
        completed := completed + 1;
        timeSpent := timeSpent + t.cost.Floor;
        bytesMoved := bytesMoved + t.size;
        if t.obj in residency { residency := residency[t.obj := residency[t.obj].(tier := t.target)]; }
        pending := pending[..i] + pending[i + 1..];
      } else {
        cancelled := cancelled + 1;
      }
    }

    method ProcessPending()
      requires Valid()
      modifies this`residency, this`pending, this`attempted, this`completed, this`cancelled,
        this`bytesMoved, this`timeSpent, placement
      ensures Valid()
      ensures var tasks, busy := old(pending), old(placement.pending);
        var taken := Admitted(tasks, busy);
        && pending == Refused(tasks, busy) && residency == Relocated(old(residency), taken)
        && placement.queue == old(placement.queue) + Requests(taken, old(placement.counter))
        && attempted == old(attempted) + |tasks| && completed == old(completed) + |taken|
        && bytesMoved == old(bytesMoved) + TotalSize(taken) && timeSpent == old(timeSpent) + TotalTime(taken)
    {
      hide Admitted, Refused, Relocated, Requests, TotalSize, TotalTime, TaskObjects, Moved;
      var i := 0;
      ghost var tasks, busy, counter0, k := pending, placement.pending, placement.counter, 0;
      ghost var kept: seq<Task>, taken: seq<Task> := [], [];
      NothingOffered(busy, residency, counter0);
      while i < |pending|
        invariant k <= |tasks| && kept == Refused(tasks[..k], busy) && taken == Admitted(tasks[..k], busy)
        invariant pending == kept + tasks[k..] && i == |kept| && |kept| + |taken| == k
        invariant residency == Relocated(old(residency), taken)
        invariant bytesMoved == old(bytesMoved) + TotalSize(taken) && timeSpent == old(timeSpent) + TotalTime(taken)
        invariant placement.Valid() && placement.pending == busy + TaskObjects(taken)
        invariant placement.queue == old(placement.queue) + Requests(taken, counter0)
        invariant placement.counter == counter0 + |taken|
        invariant attempted == old(attempted) + k == completed + cancelled && completed == old(completed) + |taken|
        decreases |tasks| - k
      {
        AdmittedNext(tasks, busy, k);
        EraseOrStep(kept, tasks, k);
        TakenNext(taken, tasks[k], old(residency), counter0);
        var isTaken := Offer(i);
        if isTaken {
          taken := taken + [tasks[k]];
        } else {
          kept := kept + [tasks[k]];
          i := i + 1;
        }
        k := k + 1;
      }
      assert tasks[..k] == tasks;
    }
  }

  lemma NothingOffered(busy: set<nat>, m: map<nat, Residency>, counter: nat)
    ensures Admitted([], busy) == Refused([], busy) == [] && Relocated(m, []) == m && Requests([], counter) == []
    ensures TotalSize([]) == 0 && TotalTime([]) == 0 && TaskObjects([]) == {}
  {}

  lemma NothingVisited(before: map<nat, Residency>, decay: real, counter: nat)
    ensures Planned([], CoolAll(before, decay), counter) == [] && Enumerates([], before.Keys - before.Keys)
    ensures PartlyCooled(before, before, decay, before.Keys)
  {}

  lemma AllVisited(order: seq<nat>, now: map<nat, Residency>, before: map<nat, Residency>, decay: real)
    requires Enumerates(order, before.Keys - {}) && PartlyCooled(now, before, decay, {})
    ensures Enumerates(order, before.Keys) && now == CoolAll(before, decay)
  {
    assert before.Keys - {} == before.Keys;
  }

  /** All but the objects in `todo` have been aged. */
  ghost predicate PartlyCooled(now: map<nat, Residency>, before: map<nat, Residency>, decay: real, todo: set<nat>) {
    && now.Keys == before.Keys && todo <= before.Keys
    && forall id :: id in now ==> now[id] == if id in todo then before[id] else CoolAll(before, decay)[id]
  }

  function CoolOne(r: Residency, decay: real): Residency { r.(temperature := Cooled(r.temperature, decay)) }

  lemma CooledOne(now: map<nat, Residency>, before: map<nat, Residency>, decay: real, todo: set<nat>, id: nat)
    requires PartlyCooled(now, before, decay, todo) && id in todo
    ensures id in now && id in CoolAll(before, decay) && CoolOne(now[id], decay) == CoolAll(before, decay)[id]
    ensures PartlyCooled(now[id := CoolOne(now[id], decay)], before, decay, todo - {id})
  {
    hide Cooled;
  }

  lemma EnumeratesNext(order: seq<nat>, keys: set<nat>, todo: set<nat>, id: nat)
    requires Enumerates(order, keys - todo) && id in todo && todo <= keys
    ensures Enumerates(order + [id], keys - (todo - {id}))
  {}
}
