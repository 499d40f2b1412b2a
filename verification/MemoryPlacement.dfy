/** The placement queue: requests in arrival order, at most one per object. */
module MemoryPlacement {

  datatype Tier = Ram | Vram | Nvme | OtherTier

  datatype Decision = Decision(obj: nat, tier: Tier, size: nat, priority: nat)

  datatype Request = Request(id: nat, decision: Decision)

  datatype Placed = Placed(id: nat) | InvalidArgument | AlreadyExists

  datatype Dequeued = Dequeued(request: Request) | NotFound

  ghost function Objects(queue: seq<Request>): set<nat> {
    set i | 0 <= i < |queue| :: queue[i].decision.obj
  }

  /** No object is queued twice, none is null, and request numbers grow. */
  ghost predicate WellFormed(queue: seq<Request>, counter: nat) {
    && (forall i, j :: 0 <= i < j < |queue| ==> queue[i].decision.obj != queue[j].decision.obj)
    && (forall i, j :: 0 <= i < j < |queue| ==> queue[i].id < queue[j].id)
    && (forall i :: 0 <= i < |queue| ==> queue[i].decision.obj != 0 && queue[i].id <= counter)
  }

  lemma ObjectsGrow(queue: seq<Request>, r: Request)
    ensures Objects(queue + [r]) == Objects(queue) + {r.decision.obj}
  {
    var longer := queue + [r];
    forall i | 0 <= i < |queue| ensures queue[i].decision.obj in Objects(longer) {
      assert longer[i].decision.obj in Objects(longer);
    }
    assert longer[|queue|].decision.obj in Objects(longer);
  }

  lemma ObjectsShrink(queue: seq<Request>, counter: nat)
    requires WellFormed(queue, counter) && queue != []
    ensures Objects(queue[1..]) == Objects(queue) - {queue[0].decision.obj}
  {
    forall i | 1 <= i < |queue| ensures queue[i].decision.obj in Objects(queue[1..]) {
      assert queue[1..][i - 1].decision.obj in Objects(queue[1..]);
    }
  }

  class PlacementEngine {
    var queue: seq<Request>
    var pending: set<nat>
    var counter: nat

    ghost predicate Valid()
      reads this
    {
      WellFormed(queue, counter) && pending == Objects(queue)
    }

    constructor ()
      ensures Valid() && queue == []
    {
      queue, pending, counter := [], {}, 0;
    }

    /** Accepted exactly when the object is not null and not queued already. */
    method EnqueueRequest(d: Decision) returns (result: Placed)
      requires Valid()
      modifies this
      ensures Valid()
      ensures result == if d.obj == 0 then InvalidArgument
                        else if d.obj in Objects(old(queue)) then AlreadyExists else Placed(old(counter) + 1)
      ensures result.Placed? ==>
        queue == old(queue) + [Request(result.id, d)] && counter == result.id && pending == old(pending) + {d.obj}
      ensures !result.Placed? ==> unchanged(this)
    {
      if d.obj == 0 { return InvalidArgument; }
      if d.obj in pending { return AlreadyExists; }
      counter := counter + 1;
      var r := Request(counter, d);
      ObjectsGrow(queue, r);
      queue, pending := queue + [r], pending + {d.obj};
      return Placed(counter);
    }

    /** The oldest request; its object may be queued again afterwards. */
    method DequeueRequest() returns (result: Dequeued)
      requires Valid()
      modifies this
      ensures Valid() && counter == old(counter)
      ensures old(queue) == [] ==> result == NotFound && queue == []
      ensures old(queue) != [] ==> result == Dequeued(old(queue)[0]) && queue == old(queue)[1..]
    {
      if queue == [] { return NotFound; }
      var r := queue[0];
      ObjectsShrink(queue, counter);
      queue, pending := queue[1..], pending - {r.decision.obj};
      return Dequeued(r);
    }

    method ClearQueue()
      modifies this
      ensures Valid() && queue == [] && counter == old(counter)
    {
      queue, pending := [], {};
    }
  }
}
