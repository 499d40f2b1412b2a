/** The bounded multi-producer, single-consumer queue as a step machine: every atomic
    access and every access to a cell's data is one step, and any schedule of any number
    of producers and the one consumer is allowed. Atomics are sequentially consistent;
    cursors and sequence numbers are unbounded. */
module MpscQueue {
  import opened RingIndex

  datatype Producer<T> =
    | Idle
    | Loaded(pos: nat, v: T)      // read the cursor; next, the cell's sequence number
    | Ready(pos: nat, v: T)       // saw the cell free; next, the compare-exchange
    | Reload(v: T)                // saw a newer cell; next, the cursor again
    | Claimed(pos: nat, v: T)     // owns the position; next, the data
    | Written(pos: nat, v: T)     // next, the sequence number

  datatype Consumer<T> =
    | Waiting
    | Looking(pos: nat)           // read the cursor; next, the cell's sequence number
    | Taking(pos: nat)            // saw the cell published; next, the data
    | Taken(pos: nat, v: T)       // next, the sequence number
    | Freed(pos: nat, v: T)       // next, the cursor

  datatype Claim<T> = Claim(v: T, owner: nat)

  datatype State<T> = State(
    sequence: seq<nat>, data: seq<T>, enqueued: nat, dequeued: nat,
    producers: seq<Producer<T>>, consumer: Consumer<T>,
    claims: seq<Claim<T>>, out: seq<T>)   // history: positions claimed, values delivered

  datatype Op<T> =
    | Enqueue(t: nat, v: T)                 // an idle producer calls enqueue
    | Produce(t: nat, spurious: bool)       // its next step; a weak exchange may fail spuriously
    | Consume                               // the consumer's next step

  function Initial<T>(capacity: nat, producers: nat, blank: T): State<T> {
    State(seq(capacity, i => i), seq(capacity, _ => blank), 0, 0, seq(producers, _ => Idle), Waiting, [], [])
  }

  function At<T>(s: State<T>, t: nat, p: Producer<T>): State<T>
    requires t < |s.producers|
  {
    s.(producers := s.producers[t := p])
  }

  predicate Sized<T>(s: State<T>) { |s.data| == |s.sequence| > 0 }

  function ProducerStep<T>(s: State<T>, t: nat, spurious: bool): State<T>
    requires Sized(s) && t < |s.producers|
  {
    match s.producers[t]
    case Idle => s
    case Loaded(pos, v) =>
      var q := s.sequence[Cell(pos, |s.sequence|)];
      At(s, t, if q == pos then Ready(pos, v) else if q < pos then Idle else Reload(v))
    case Ready(pos, v) =>
      if s.enqueued == pos && !spurious then
        At(s.(enqueued := pos + 1, claims := s.claims + [Claim(v, t)]), t, Claimed(pos, v))
      else At(s, t, Loaded(s.enqueued, v))
    case Reload(v) => At(s, t, Loaded(s.enqueued, v))
    case Claimed(pos, v) => At(s.(data := s.data[Cell(pos, |s.sequence|) := v]), t, Written(pos, v))
    case Written(pos, v) => At(s.(sequence := s.sequence[Cell(pos, |s.sequence|) := pos + 1]), t, Idle)
  }

  function ConsumerStep<T>(s: State<T>): State<T>
    requires Sized(s)
  {
    match s.consumer
    case Waiting => s.(consumer := Looking(s.dequeued))
    case Looking(pos) =>
      s.(consumer := if s.sequence[Cell(pos, |s.sequence|)] == pos + 1 then Taking(pos) else Waiting)
    case Taking(pos) => s.(consumer := Taken(pos, s.data[Cell(pos, |s.sequence|)]))
    case Taken(pos, v) =>
      s.(sequence := s.sequence[Cell(pos, |s.sequence|) := pos + |s.sequence|], consumer := Freed(pos, v))
    case Freed(pos, v) => s.(dequeued := pos + 1, out := s.out + [v], consumer := Waiting)
  }

  /** Steps that are not enabled leave the state alone. */
  function Step<T>(s: State<T>, op: Op<T>): State<T> {
    if !Sized(s) then s
    else match op
      case Enqueue(t, v) =>
        if t < |s.producers| && s.producers[t].Idle? then At(s, t, Loaded(s.enqueued, v)) else s
      case Produce(t, spurious) => if t < |s.producers| then ProducerStep(s, t, spurious) else s
      case Consume => ConsumerStep(s)
  }

  type Schedule<T> = seq<Op<T>>

  function Run<T>(start: State<T>, schedule: Schedule<T>): State<T> {
    if schedule == [] then start
    else Step(Run(start, schedule[..|schedule| - 1]), schedule[|schedule| - 1])
  }

  // ----- The invariant -----

  /** Positions whose cell has been handed back to the producers. */
  function Recycled<T>(s: State<T>): nat {
    if s.consumer.Freed? then s.dequeued + 1 else s.dequeued
  }

  predicate Live<T>(s: State<T>, p: nat) { Recycled(s) <= p < Recycled(s) + |s.sequence| }

  predicate Holds<T>(p: Producer<T>, pos: nat) { (p.Claimed? || p.Written?) && p.pos == pos }

  /** What the cell of a position in the current window of positions contains. */
  ghost predicate CellOk<T>(s: State<T>, p: nat)
    requires Sized(s) && |s.claims| == s.enqueued
  {
    var i := Cell(p, |s.sequence|);
    if p >= s.enqueued then s.sequence[i] == p
    else if s.sequence[i] == p then
      s.claims[p].owner < |s.producers| && Holds(s.producers[s.claims[p].owner], p)
    else s.sequence[i] == p + 1 && s.data[i] == s.claims[p].v
  }

  ghost predicate ProducerOk<T>(s: State<T>, t: nat)
    requires Sized(s) && |s.claims| == s.enqueued && t < |s.producers|
  {
    match s.producers[t]
    case Idle => true
    case Loaded(pos, v) => pos <= s.enqueued
    case Ready(pos, v) => pos <= s.enqueued && pos <= s.sequence[Cell(pos, |s.sequence|)]
    case Reload(v) => true
    case Claimed(pos, v) =>
      Live(s, pos) && pos < s.enqueued && s.claims[pos] == Claim(v, t) && s.sequence[Cell(pos, |s.sequence|)] == pos
    case Written(pos, v) =>
      Live(s, pos) && pos < s.enqueued && s.claims[pos] == Claim(v, t) && s.sequence[Cell(pos, |s.sequence|)] == pos
      && s.data[Cell(pos, |s.sequence|)] == v
  }

  ghost predicate ConsumerOk<T>(s: State<T>)
    requires Sized(s) && |s.claims| == s.enqueued
  {
    match s.consumer
    case Waiting => true
    case Looking(pos) => pos == s.dequeued
    case Taking(pos) => pos == s.dequeued < s.enqueued && s.sequence[Cell(pos, |s.sequence|)] == pos + 1
    case Taken(pos, v) =>
      pos == s.dequeued < s.enqueued && s.sequence[Cell(pos, |s.sequence|)] == pos + 1 && v == s.claims[pos].v
    case Freed(pos, v) => pos == s.dequeued < s.enqueued && v == s.claims[pos].v
  }

  ghost predicate Delivered<T>(s: State<T>)
    requires |s.claims| == s.enqueued
  {
    |s.out| == s.dequeued <= s.enqueued
    && forall k :: 0 <= k < |s.out| ==> s.out[k] == s.claims[k].v
  }

  ghost predicate Inv<T>(s: State<T>) {
    && Sized(s) && |s.sequence| >= 2 && |s.claims| == s.enqueued
    && Recycled(s) <= s.enqueued <= Recycled(s) + |s.sequence|
    && (forall p :: Live(s, p) ==> CellOk(s, p))
    && (forall t :: 0 <= t < |s.producers| ==> ProducerOk(s, t))
    && ConsumerOk(s) && Delivered(s)
  }

  // ----- Every step keeps the invariant -----

  lemma InitialInv<T>(capacity: nat, producers: nat, blank: T)
    requires capacity >= 2
    ensures Inv(Initial(capacity, producers, blank))
  {
    var s := Initial(capacity, producers, blank);
    forall p | Live(s, p) ensures CellOk(s, p) { DivisionUnique(p, capacity, 0, p); }
  }

  /** A producer moving between steps that hold no position. */
  lemma MoveKeepsInv<T>(s: State<T>, t: nat, p: Producer<T>)
    requires Inv(s) && t < |s.producers| && !s.producers[t].Claimed? && !s.producers[t].Written?
    requires p.Loaded? || p.Ready? || p.Reload? || p.Idle?
    requires p.Loaded? ==> p.pos <= s.enqueued
    requires p.Ready? ==> p.pos <= s.enqueued && p.pos <= s.sequence[Cell(p.pos, |s.sequence|)]
    ensures Inv(At(s, t, p))
  {
    hide Cell;
    var s' := At(s, t, p);
    forall q | Live(s', q) ensures CellOk(s', q) { assert Live(s, q) && CellOk(s, q); }
    forall u | 0 <= u < |s'.producers| ensures ProducerOk(s', u) { assert ProducerOk(s, u); }
  }

  /** How a cell's sequence number compares with a position read from the cursor: behind it
      exactly when every cell is taken, ahead of it only when the position is. */
  lemma CellAge<T>(s: State<T>, pos: nat)
    requires Inv(s) && pos <= s.enqueued
    ensures s.sequence[Cell(pos, |s.sequence|)] < pos <==> pos == Recycled(s) + |s.sequence|
    ensures s.sequence[Cell(pos, |s.sequence|)] > pos ==> pos < s.enqueued
  {
    hide Cell;
    var low, capacity := Recycled(s), |s.sequence|;
    if pos == low + capacity {
      CellWraps(low, capacity);
      assert Live(s, low) && CellOk(s, low);
    } else {
      var p := InWindow(pos, low, capacity);
      assert Live(s, p) && CellOk(s, p);
    }
  }

  /** A cell seen free at the cursor's own position is inside the window. */
  lemma ReadyAtCursor<T>(s: State<T>, pos: nat)
    requires Inv(s) && pos == s.enqueued && pos <= s.sequence[Cell(pos, |s.sequence|)]
    ensures Live(s, pos) && s.sequence[Cell(pos, |s.sequence|)] == pos
  {
    CellAge(s, pos);
    assert CellOk(s, pos);
  }

  lemma ClaimKeepsInv<T>(s: State<T>, t: nat)
    requires Inv(s) && t < |s.producers| && s.producers[t].Ready? && s.producers[t].pos == s.enqueued
    ensures Inv(ProducerStep(s, t, false))
  {
    hide Cell;
    var s', pos := ProducerStep(s, t, false), s.enqueued;
    assert ProducerOk(s, t);
    ReadyAtCursor(s, pos);
    forall q | Live(s', q) ensures CellOk(s', q) { assert Live(s, q) && CellOk(s, q); }
    forall u | 0 <= u < |s'.producers| ensures ProducerOk(s', u) { assert ProducerOk(s, u); }
  }

  lemma WriteKeepsInv<T>(s: State<T>, t: nat, spurious: bool)
    requires Inv(s) && t < |s.producers| && s.producers[t].Claimed?
    ensures Inv(ProducerStep(s, t, spurious))
  {
    hide Cell;
    var s', pos := ProducerStep(s, t, spurious), s.producers[t].pos;
    assert ProducerOk(s, t);
    WindowDistinct(pos, Recycled(s), |s.sequence|);
    forall q | Live(s', q) ensures CellOk(s', q) { assert Live(s, q) && CellOk(s, q); }
    forall u | 0 <= u < |s'.producers| ensures ProducerOk(s', u) { assert ProducerOk(s, u); }
  }

  lemma PublishKeepsInv<T>(s: State<T>, t: nat, spurious: bool)
    requires Inv(s) && t < |s.producers| && s.producers[t].Written?
    ensures Inv(ProducerStep(s, t, spurious))
  {
    hide Cell;
    var s', pos := ProducerStep(s, t, spurious), s.producers[t].pos;
    assert ProducerOk(s, t);
    WindowDistinct(pos, Recycled(s), |s.sequence|);
    forall q | Live(s', q) ensures CellOk(s', q) { assert Live(s, q) && CellOk(s, q); }
    forall u | 0 <= u < |s'.producers| ensures ProducerOk(s', u) { assert ProducerOk(s, u); }
  }

  lemma ProducerKeepsInv<T>(s: State<T>, t: nat, spurious: bool)
    requires Inv(s) && t < |s.producers|
    ensures Inv(ProducerStep(s, t, spurious))
  {
    assert ProducerOk(s, t);
    match s.producers[t]
    case Idle =>
    case Loaded(pos, v) =>
      var q := s.sequence[Cell(pos, |s.sequence|)];
      MoveKeepsInv(s, t, if q == pos then Ready(pos, v) else if q < pos then Idle else Reload(v));
    case Ready(pos, v) =>
      if s.enqueued == pos && !spurious { ClaimKeepsInv(s, t); }
      else { MoveKeepsInv(s, t, Loaded(s.enqueued, v)); }
    case Reload(v) => MoveKeepsInv(s, t, Loaded(s.enqueued, v));
    case Claimed(pos, v) => WriteKeepsInv(s, t, spurious);
    case Written(pos, v) => PublishKeepsInv(s, t, spurious);
  }

  /** Consumer steps that only look, or hand a value over. */
  lemma LookKeepsInv<T>(s: State<T>)
    requires Inv(s) && !s.consumer.Taken?
    ensures Inv(ConsumerStep(s))
  {
    hide Cell;
    var s' := ConsumerStep(s);
    if s.consumer.Looking? || s.consumer.Taking? { assert Live(s, s.dequeued) && CellOk(s, s.dequeued); }
    forall q | Live(s', q) ensures CellOk(s', q) { assert Live(s, q) && CellOk(s, q); }
    forall u | 0 <= u < |s'.producers| ensures ProducerOk(s', u) { assert ProducerOk(s, u); }
  }

  lemma RecycleKeepsInv<T>(s: State<T>)
    requires Inv(s) && s.consumer.Taken?
    ensures Inv(ConsumerStep(s))
  {
    hide Cell;
    var s', pos := ConsumerStep(s), s.consumer.pos;
    WindowDistinct(pos, pos, |s.sequence|);
    CellWraps(pos, |s.sequence|);
    forall q | Live(s', q) ensures CellOk(s', q) {
      if q != pos + |s.sequence| { assert Live(s, q) && CellOk(s, q); }
    }
    forall u | 0 <= u < |s'.producers| ensures ProducerOk(s', u) { assert ProducerOk(s, u); }
  }

  lemma StepKeepsInv<T>(s: State<T>, op: Op<T>)
    requires Inv(s)
    ensures Inv(Step(s, op))
  {
    hide Inv, ProducerStep, ConsumerStep;
    match op
    case Enqueue(t, v) =>
      if Sized(s) && t < |s.producers| && s.producers[t].Idle? { MoveKeepsInv(s, t, Loaded(s.enqueued, v)); }
    case Produce(t, spurious) => if Sized(s) && t < |s.producers| { ProducerKeepsInv(s, t, spurious); }
    case Consume =>
      if Sized(s) {
        if s.consumer.Taken? { RecycleKeepsInv(s); } else { LookKeepsInv(s); }
      }
  }

  lemma {:induction false} RunKeepsInv<T>(s: State<T>, schedule: Schedule<T>)
    requires Inv(s)
    ensures Inv(Run(s, schedule))
  {
    hide Inv, Step;
    if schedule != [] {
      RunKeepsInv(s, schedule[..|schedule| - 1]);
      StepKeepsInv(Run(s, schedule[..|schedule| - 1]), schedule[|schedule| - 1]);
    }
  }

  lemma {:induction false} CapacityFixed<T>(s: State<T>, schedule: Schedule<T>)
    ensures |Run(s, schedule).sequence| == |s.sequence| && |Run(s, schedule).producers| == |s.producers|
  {
    if schedule != [] { CapacityFixed(s, schedule[..|schedule| - 1]); }
  }

  lemma Reachable<T>(capacity: nat, producers: nat, blank: T, schedule: Schedule<T>)
    requires capacity >= 2
    ensures var s := Run(Initial(capacity, producers, blank), schedule);
      Inv(s) && |s.sequence| == capacity && |s.producers| == producers
  {
    hide Inv, Run, Step;
    InitialInv(capacity, producers, blank);
    RunKeepsInv(Initial(capacity, producers, blank), schedule);
    CapacityFixed(Initial(capacity, producers, blank), schedule);
  }

  // ----- The calls behind the claims -----

  datatype Call<T> = NoCall | Calling(v: T)

  /** The argument of producer t's enqueue that is under way, as the schedule gave it. */
  function UnderWay<T>(start: State<T>, schedule: Schedule<T>, t: nat): Call<T> {
    if schedule == [] then NoCall
    else
      var n := |schedule| - 1;
      CallAfter(UnderWay(start, schedule[..n], t), Run(start, schedule[..n]), schedule[n], Run(start, schedule), t)
  }

  /** A call begins when an idle producer enqueues and is over when the producer is idle again. */
  function CallAfter<T>(call: Call<T>, before: State<T>, op: Op<T>, after: State<T>, t: nat): Call<T> {
    if t >= |before.producers| || t >= |after.producers| || after.producers[t].Idle? then NoCall
    else if op.Enqueue? && op.t == t && before.producers[t].Idle? then Calling(op.v)
    else call
  }

  /** Arguments of the enqueues of producer t that have returned true, in order. */
  function Returned<T>(start: State<T>, schedule: Schedule<T>, t: nat): seq<T> {
    if schedule == [] then []
    else
      var n := |schedule| - 1;
      Returned(start, schedule[..n], t)
      + Finished(UnderWay(start, schedule[..n], t), Run(start, schedule[..n]), Run(start, schedule), t)
  }

  function Finished<T>(call: Call<T>, before: State<T>, after: State<T>, t: nat): seq<T> {
    if t < |before.producers| && t < |after.producers| && before.producers[t].Written? && after.producers[t].Idle?
       && call.Calling?
    then [call.v] else []
  }

  /** Accepted so far: returned true, or holding a position. */
  function Accepted<T>(start: State<T>, schedule: Schedule<T>, t: nat): seq<T> {
    var s, call := Run(start, schedule), UnderWay(start, schedule, t);
    Returned(start, schedule, t)
    + if t < |s.producers| && (s.producers[t].Claimed? || s.producers[t].Written?) && call.Calling?
      then [call.v] else []
  }

  function OwnedBy<T>(claims: seq<Claim<T>>, t: nat): seq<T> {
    if claims == [] then []
    else
      var n := |claims| - 1;
      OwnedBy(claims[..n], t) + if claims[n].owner == t then [claims[n].v] else []
  }

  lemma OwnedNext<T>(claims: seq<Claim<T>>, c: Claim<T>, t: nat)
    ensures OwnedBy(claims + [c], t) == OwnedBy(claims, t) + if c.owner == t then [c.v] else []
  {
    assert (claims + [c])[..|claims|] == claims;
  }

  /** A producer works with the argument of its call, and its claims are the calls accepted. */
  ghost predicate CallsMatch<T>(s: State<T>, t: nat, call: Call<T>, returned: seq<T>)
    requires t < |s.producers|
  {
    && (if s.producers[t].Idle? then call == NoCall else call == Calling(s.producers[t].v))
    && OwnedBy(s.claims, t)
       == returned + if s.producers[t].Claimed? || s.producers[t].Written? then [s.producers[t].v] else []
  }

  lemma StepMatchesCalls<T>(s: State<T>, op: Op<T>, t: nat, call: Call<T>, returned: seq<T>)
    requires t < |s.producers| && CallsMatch(s, t, call, returned)
    ensures var s' := Step(s, op);
      && |s'.producers| == |s.producers|
      && CallsMatch(s', t, CallAfter(call, s, op, s', t), returned + Finished(call, s, s', t))
  {
    hide Cell, OwnedBy;
    if op.Produce? && op.t < |s.producers| && s.producers[op.t].Ready? {
      OwnedNext(s.claims, Claim(s.producers[op.t].v, op.t), t);
    }
  }

  lemma {:induction false} ClaimsAreCalls<T>(capacity: nat, producers: nat, blank: T, schedule: Schedule<T>, t: nat)
    requires t < producers
    ensures var start := Initial(capacity, producers, blank);
      && |Run(start, schedule).producers| == producers
      && CallsMatch(Run(start, schedule), t, UnderWay(start, schedule, t), Returned(start, schedule, t))
      && OwnedBy(Run(start, schedule).claims, t) == Accepted(start, schedule, t)
  {
    hide Step, CallAfter, Finished;
    var start := Initial(capacity, producers, blank);
    if schedule != [] {
      var n := |schedule| - 1;
      ClaimsAreCalls(capacity, producers, blank, schedule[..n], t);
      StepMatchesCalls(Run(start, schedule[..n]), schedule[n], t, UnderWay(start, schedule[..n], t),
                       Returned(start, schedule[..n], t));
    }
  }

  lemma {:induction false} OwnersExist<T>(start: State<T>, schedule: Schedule<T>)
    requires start.claims == []
    ensures var s := Run(start, schedule);
      |s.producers| == |start.producers| && forall k :: 0 <= k < |s.claims| ==> s.claims[k].owner < |s.producers|
  {
    if schedule != [] { OwnersExist(start, schedule[..|schedule| - 1]); }
  }

  // ----- What holds in every schedule -----

  /** Every position is claimed by a producer, and each producer's are its accepted arguments. */
  ghost predicate ClaimedByCalls<T>(start: State<T>, schedule: Schedule<T>) {
    var s := Run(start, schedule);
    && (forall k :: 0 <= k < |s.claims| ==> s.claims[k].owner < |start.producers|)
    && forall t :: 0 <= t < |start.producers| ==> OwnedBy(s.claims, t) == Accepted(start, schedule, t)
  }

  lemma AllClaimedByCalls<T>(capacity: nat, producers: nat, blank: T, schedule: Schedule<T>)
    ensures ClaimedByCalls(Initial(capacity, producers, blank), schedule)
  {
    hide Run, OwnedBy, Accepted, UnderWay, Returned;
    var start := Initial(capacity, producers, blank);
    OwnersExist(start, schedule);
    forall t | 0 <= t < producers ensures OwnedBy(Run(start, schedule).claims, t) == Accepted(start, schedule, t) {
      ClaimsAreCalls(capacity, producers, blank, schedule, t);
    }
  }

  /** Values come out exactly once each, in the order their positions were claimed; those a
      producer claimed are the arguments of its accepted calls, in order; and no more are
      accepted than there are cells. */
  lemma FirstInFirstOut<T>(capacity: nat, producers: nat, blank: T, schedule: Schedule<T>)
    requires capacity >= 2
    ensures var s := Run(Initial(capacity, producers, blank), schedule);
      && |s.out| <= |s.claims| <= Recycled(s) + capacity
      && (forall k :: 0 <= k < |s.out| ==> s.out[k] == s.claims[k].v)
      && ClaimedByCalls(Initial(capacity, producers, blank), schedule)
  {
    hide Run, ClaimedByCalls;
    Reachable(capacity, producers, blank, schedule);
    AllClaimedByCalls(capacity, producers, blank, schedule);
  }

  /** Two producers are never both about to write the data of one cell. */
  lemma WritersExclusive<T>(capacity: nat, producers: nat, blank: T, schedule: Schedule<T>, t: nat, u: nat)
    requires capacity >= 2 && t < producers && u < producers && t != u
    ensures var s := Run(Initial(capacity, producers, blank), schedule);
      |s.producers| == producers && (s.producers[t].Claimed? && s.producers[u].Claimed? ==>
        Cell(s.producers[t].pos, capacity) != Cell(s.producers[u].pos, capacity))
  {
    hide Run, Cell;
    Reachable(capacity, producers, blank, schedule);
    var s := Run(Initial(capacity, producers, blank), schedule);
    assert ProducerOk(s, t) && ProducerOk(s, u);
    if s.producers[t].Claimed? { WindowDistinct(s.producers[t].pos, Recycled(s), capacity); }
  }

  /** No producer is about to write the data of the cell the consumer is about to read. */
  lemma ReaderExclusive<T>(capacity: nat, producers: nat, blank: T, schedule: Schedule<T>, t: nat)
    requires capacity >= 2 && t < producers
    ensures var s := Run(Initial(capacity, producers, blank), schedule);
      |s.producers| == producers && (s.producers[t].Claimed? && s.consumer.Taking? ==>
        Cell(s.producers[t].pos, capacity) != Cell(s.consumer.pos, capacity))
  {
    hide Run, Cell;
    Reachable(capacity, producers, blank, schedule);
    var s := Run(Initial(capacity, producers, blank), schedule);
    assert ProducerOk(s, t);
    if s.producers[t].Claimed? { WindowDistinct(s.producers[t].pos, Recycled(s), capacity); }
  }

  /** An enqueue ends exactly when it has published its value, or its position is the cursor's
      and every cell is taken: only then is it refused. */
  lemma RejectedIffFull<T>(capacity: nat, producers: nat, blank: T, schedule: Schedule<T>, t: nat, spurious: bool)
    requires capacity >= 2 && t < producers
    ensures var s := Run(Initial(capacity, producers, blank), schedule);
      Sized(s) && |s.producers| == producers &&
      (!s.producers[t].Idle? ==>
        (ProducerStep(s, t, spurious).producers[t].Idle?
         <==> s.producers[t].Written?
              || (s.producers[t].Loaded? && s.producers[t].pos == s.enqueued == Recycled(s) + capacity)))
  {
    hide Run, Cell;
    Reachable(capacity, producers, blank, schedule);
    var s := Run(Initial(capacity, producers, blank), schedule);
    assert ProducerOk(s, t);
    if s.producers[t].Loaded? { CellAge(s, s.producers[t].pos); }
  }

  /** An enqueue goes round its loop again only because another producer claimed the position,
      or the exchange failed spuriously, and then tries the cursor's current position. */
  lemma RetryMeansProgress<T>(capacity: nat, producers: nat, blank: T, schedule: Schedule<T>, t: nat, spurious: bool)
    requires capacity >= 2 && t < producers
    ensures var s := Run(Initial(capacity, producers, blank), schedule);
      Sized(s) && |s.producers| == producers &&
      var s' := ProducerStep(s, t, spurious);
      && (s.producers[t].Loaded? && s'.producers[t].Reload? ==> s.producers[t].pos < s.enqueued)
      && (s.producers[t].Ready? && s'.producers[t].Loaded? && !spurious ==> s.producers[t].pos < s.enqueued)
      && (s'.producers[t].Loaded? ==> s'.producers[t].pos == s.enqueued)
  {
    hide Run, Cell;
    Reachable(capacity, producers, blank, schedule);
    var s := Run(Initial(capacity, producers, blank), schedule);
    assert ProducerOk(s, t);
    if s.producers[t].Loaded? { CellAge(s, s.producers[t].pos); }
  }

  /** A dequeue finds nothing exactly when nothing is claimed, or the producer of the oldest
      position has not published it. */
  lemma NothingToTakeIff<T>(capacity: nat, producers: nat, blank: T, schedule: Schedule<T>)
    requires capacity >= 2
    ensures var s := Run(Initial(capacity, producers, blank), schedule);
      Sized(s) && (s.consumer.Looking? ==>
        (ConsumerStep(s).consumer.Waiting?
         <==> s.dequeued == s.enqueued
              || exists t :: 0 <= t < |s.producers| && Holds(s.producers[t], s.dequeued)))
  {
    hide Run, Cell;
    Reachable(capacity, producers, blank, schedule);
    var s := Run(Initial(capacity, producers, blank), schedule);
    if s.consumer.Looking? {
      assert Live(s, s.dequeued) && CellOk(s, s.dequeued);
      forall t | 0 <= t < |s.producers| && Holds(s.producers[t], s.dequeued)
        ensures s.sequence[Cell(s.dequeued, capacity)] == s.dequeued
      {
        assert ProducerOk(s, t);
      }
    }
  }

  // ----- Calls that nothing interrupts -----

  lemma FiveSteps<T>(s: State<T>, a: Op<T>, b: Op<T>)
    ensures Run(s, [a, b]) == Step(Step(s, a), b)
    ensures Run(s, [a, b, b, b, b]) == Step(Step(Step(Step(Step(s, a), b), b), b), b)
  {
    hide Step;
    assert [a, b][..1] == [a] && [a][..0] == [];
    assert [a, b, b, b, b][..4] == [a, b, b, b] && [a, b, b, b][..3] == [a, b, b] && [a, b, b][..2] == [a, b];
    assert Run(s, [a]) == Step(Run(s, []), a);
    assert Run(s, [a, b]) == Step(Run(s, [a]), b);
    assert Run(s, [a, b, b]) == Step(Run(s, [a, b]), b);
    assert Run(s, [a, b, b, b]) == Step(Run(s, [a, b, b]), b);
  }

  /** In every reachable state, an enqueue that runs without interruption is refused and changes
      nothing when every cell is taken, and otherwise publishes its argument at the cursor. */
  lemma EnqueueAlone<T>(capacity: nat, producers: nat, blank: T, schedule: Schedule<T>, t: nat, v: T)
    requires capacity >= 2 && t < producers
    ensures var s := Run(Initial(capacity, producers, blank), schedule);
      |s.producers| == producers && |s.sequence| == |s.data| == capacity && (s.producers[t].Idle? ==>
        if s.enqueued == Recycled(s) + capacity then Run(s, [Enqueue(t, v), Produce(t, false)]) == s
        else
          var next, p := Produce(t, false), s.enqueued;
          Run(s, [Enqueue(t, v), next, next, next, next])
          == s.(enqueued := p + 1, claims := s.claims + [Claim(v, t)],
                data := s.data[Cell(p, capacity) := v], sequence := s.sequence[Cell(p, capacity) := p + 1]))
  {
    hide Run, Cell;
    Reachable(capacity, producers, blank, schedule);
    var s := Run(Initial(capacity, producers, blank), schedule);
    if s.producers[t].Idle? {
      FiveSteps(s, Enqueue(t, v), Produce(t, false));
      CellAge(s, s.enqueued);
      EnqueueSteps(s, t, v);
    }
  }

  lemma EnqueueSteps<T>(s: State<T>, t: nat, v: T)
    requires Sized(s) && t < |s.producers| && s.producers[t].Idle?
    requires s.sequence[Cell(s.enqueued, |s.sequence|)] <= s.enqueued
    ensures var s1 := Step(Step(s, Enqueue(t, v)), Produce(t, false));
      if s.sequence[Cell(s.enqueued, |s.sequence|)] < s.enqueued then s1 == s
      else
        var p := s.enqueued;
        Step(Step(Step(s1, Produce(t, false)), Produce(t, false)), Produce(t, false))
        == s.(enqueued := p + 1, claims := s.claims + [Claim(v, t)],
              data := s.data[Cell(p, |s.sequence|) := v], sequence := s.sequence[Cell(p, |s.sequence|) := p + 1])
  {
    hide Cell;
    var p, idle := s.enqueued, s.producers;
    var s0 := Step(s, Enqueue(t, v));
    assert s0 == At(s, t, Loaded(p, v));
    var s1 := Step(s0, Produce(t, false));
    if s.sequence[Cell(p, |s.sequence|)] < p {
      assert s1.producers == idle;
    } else {
      assert s1 == At(s, t, Ready(p, v));
      var s2 := Step(s1, Produce(t, false));
      assert s2 == At(s.(enqueued := p + 1, claims := s.claims + [Claim(v, t)]), t, Claimed(p, v));
      var s3 := Step(s2, Produce(t, false));
      var s4 := Step(s3, Produce(t, false));
      assert s4.producers == idle;
    }
  }

  // ----- Nothing accepted is lost -----

  ghost predicate Quiet<T>(s: State<T>) {
    Inv(s) && s.consumer.Waiting? && forall t :: 0 <= t < |s.producers| ==> s.producers[t].Idle?
  }

  function Consumes<T>(s: State<T>, n: nat): State<T>
    requires Sized(s)
    ensures Sized(Consumes(s, n))
  {
    if n == 0 then s else ConsumerStep(Consumes(s, n - 1))
  }

  lemma FirstSteps<T>(s: State<T>)
    requires Sized(s)
    ensures Consumes(s, 2) == ConsumerStep(ConsumerStep(s)) && Consumes(s, 3) == ConsumerStep(Consumes(s, 2))
  {
    hide ConsumerStep;
    assert Consumes(s, 1) == ConsumerStep(Consumes(s, 0));
    assert Consumes(s, 2) == ConsumerStep(Consumes(s, 1));
  }

  lemma {:induction false} ConsumesKeepsInv<T>(s: State<T>, n: nat)
    requires Inv(s)
    ensures Inv(Consumes(s, n))
  {
    hide ConsumerStep, Cell;
    if n > 0 {
      ConsumesKeepsInv(s, n - 1);
      StepKeepsInv(Consumes(s, n - 1), Consume);
    }
  }

  lemma {:induction false} ConsumesMore<T>(s: State<T>, m: nat, n: nat)
    requires Sized(s)
    ensures Consumes(s, m + n) == Consumes(Consumes(s, m), n)
  {
    hide ConsumerStep;
    if n > 0 {
      ConsumesMore(s, m, n - 1);
      assert m + n - 1 == m + (n - 1);
    }
  }

  /** In every reachable state, a dequeue that runs without interruption returns nothing and
      changes nothing when no value is published at its position, and otherwise delivers the
      oldest accepted value and hands its cell back. */
  lemma DequeueAlone<T>(capacity: nat, producers: nat, blank: T, schedule: Schedule<T>)
    requires capacity >= 2
    ensures var s := Run(Initial(capacity, producers, blank), schedule);
      Sized(s) && |s.sequence| == capacity && (s.consumer.Waiting? ==>
        if s.dequeued == s.enqueued || exists t :: 0 <= t < |s.producers| && Holds(s.producers[t], s.dequeued)
        then Consumes(s, 2) == s
        else
          var p := s.dequeued;
          && p < |s.claims|
          && Consumes(s, 5) == s.(dequeued := p + 1, out := s.out + [s.claims[p].v],
                                  sequence := s.sequence[Cell(p, capacity) := p + capacity]))
  {
    hide Run, Cell, Consumes, ConsumerStep;
    Reachable(capacity, producers, blank, schedule);
    var s := Run(Initial(capacity, producers, blank), schedule);
    if s.consumer.Waiting? {
      OldestCell(s);
      DequeueSteps(s);
      FirstSteps(s);
      FirstSteps(Consumes(s, 2));
      ConsumesMore(s, 2, 3);
    }
  }

  lemma OldestCell<T>(s: State<T>)
    requires Inv(s)
    ensures Sized(s) && s.dequeued <= s.enqueued == |s.claims|
    ensures var i, p := Cell(s.dequeued, |s.sequence|), s.dequeued;
      !s.consumer.Freed? ==>
        && (s.sequence[i] == p + 1
            <==> !(p == s.enqueued || exists t :: 0 <= t < |s.producers| && Holds(s.producers[t], p)))
        && (s.sequence[i] == p + 1 ==> p < s.enqueued && s.data[i] == s.claims[p].v)
  {
    hide Cell;
    if !s.consumer.Freed? {
      assert Live(s, s.dequeued) && CellOk(s, s.dequeued);
      forall t | 0 <= t < |s.producers| && Holds(s.producers[t], s.dequeued)
        ensures s.sequence[Cell(s.dequeued, |s.sequence|)] == s.dequeued
      {
        assert ProducerOk(s, t);
      }
    }
  }

  lemma DequeueSteps<T>(s: State<T>)
    requires Sized(s) && s.consumer.Waiting?
    ensures var p, i := s.dequeued, Cell(s.dequeued, |s.sequence|);
      var s2 := ConsumerStep(ConsumerStep(s));
      if s.sequence[i] != p + 1 then s2 == s
      else
        ConsumerStep(ConsumerStep(ConsumerStep(s2)))
        == s.(dequeued := p + 1, out := s.out + [s.data[i]], sequence := s.sequence[i := p + |s.sequence|])
  {
    hide Cell;
  }

  lemma TakesOldest<T>(s: State<T>)
    requires Quiet(s) && s.dequeued < s.enqueued
    ensures var s' := Consumes(s, 5);
      && Quiet(s') && s'.claims == s.claims && s'.enqueued == s.enqueued && s'.dequeued == s.dequeued + 1
  {
    OldestCell(s);
    ConsumesKeepsInv(s, 5);
    hide Cell, Inv, ConsumerStep;
    DequeueSteps(s);
    FirstSteps(s);
    FirstSteps(Consumes(s, 2));
    ConsumesMore(s, 2, 3);
  }

  lemma {:induction false} DrainDeliversAll<T>(s: State<T>)
    requires Quiet(s)
    ensures var s' := Consumes(s, 5 * (s.enqueued - s.dequeued));
      && s'.claims == s.claims && |s'.out| == |s.claims|
      && forall k :: 0 <= k < |s.claims| ==> s'.out[k] == s.claims[k].v
    decreases s.enqueued - s.dequeued
  {
    hide ConsumerStep, Cell;
    if s.dequeued < s.enqueued {
      TakesOldest(s);
      var next := Consumes(s, 5);
      DrainDeliversAll(next);
      ConsumesMore(s, 5, 5 * (next.enqueued - next.dequeued));
    }
  }

  /** If every enqueue has returned and no dequeue is under way, five consumer steps per
      element deliver every value whose enqueue was accepted, in order. */
  ghost predicate DrainsWhenQuiet<T>(s: State<T>) {
    s.consumer.Waiting? && (forall t :: 0 <= t < |s.producers| ==> s.producers[t].Idle?) ==>
      && Sized(s) && s.dequeued <= s.enqueued
      && var s' := Consumes(s, 5 * (s.enqueued - s.dequeued));
         && |s'.out| == |s.claims|
         && forall k :: 0 <= k < |s.claims| ==> s'.out[k] == s.claims[k].v
  }

  lemma NothingAcceptedIsLost<T>(capacity: nat, producers: nat, blank: T, schedule: Schedule<T>)
    requires capacity >= 2
    ensures DrainsWhenQuiet(Run(Initial(capacity, producers, blank), schedule))
    ensures ClaimedByCalls(Initial(capacity, producers, blank), schedule)
  {
    hide Run, Consumes, ClaimedByCalls;
    AllClaimedByCalls(capacity, producers, blank, schedule);
    Reachable(capacity, producers, blank, schedule);
    var s := Run(Initial(capacity, producers, blank), schedule);
    if s.consumer.Waiting? && forall t :: 0 <= t < |s.producers| ==> s.producers[t].Idle? { DrainDeliversAll(s); }
  }

  // ----- Capacity one -----

  ghost predicate Fits<T>(s: State<T>) { s.enqueued <= Recycled(s) + |s.sequence| }

  lemma Extend<T>(s: State<T>, schedule: Schedule<T>, op: Op<T>) returns (longer: Schedule<T>)
    ensures longer == schedule + [op] && Run(s, longer) == Step(Run(s, schedule), op)
  {
    longer := schedule + [op];
    assert longer[..|longer| - 1] == schedule;
  }

  /** A producer of a one-cell queue enqueues without interruption when the cell looks free. */
  lemma EnqueuesAlone<T>(s: State<T>, start: Schedule<T>, v: T) returns (schedule: Schedule<T>)
    requires var r := Run(s, start);
      r.producers == [Idle] && |r.sequence| == |r.data| == 1 && r.sequence[0] == r.enqueued
    ensures var r := Run(s, start);
      Run(s, schedule) == r.(sequence := [r.enqueued + 1], data := [v], enqueued := r.enqueued + 1,
                             claims := r.claims + [Claim(v, 0)])
  {
    hide Run;
    var r := Run(s, start);
    schedule := Extend(s, start, Enqueue(0, v));
    schedule := Extend(s, schedule, Produce(0, false));
    assert Run(s, schedule) == r.(producers := [Ready(r.enqueued, v)]);
    schedule := Extend(s, schedule, Produce(0, false));
    schedule := Extend(s, schedule, Produce(0, false));
    schedule := Extend(s, schedule, Produce(0, false));
  }

  /** With one cell, a published cell looks free to the next position: a second enqueue is
      accepted and overwrites the first value. */
  lemma OneCellOverwrites<T>(blank: T, v: T, w: T) returns (schedule: Schedule<T>)
    ensures Run(Initial(1, 1, blank), schedule)
            == State([2], [w], 2, 0, [Idle], Waiting, [Claim(v, 0), Claim(w, 0)], [])
  {
    var s := Initial(1, 1, blank);
    assert s == State([0], [blank], 0, 0, [Idle], Waiting, [], []) == Run(s, []);
    hide Run;
    schedule := EnqueuesAlone(s, [], v);
    schedule := EnqueuesAlone(s, schedule, w);
  }

  /** The cell's number has passed the consumer's position and can only grow. */
  predicate Stuck<T>(s: State<T>) {
    && |s.sequence| == |s.data| == 1 && s.sequence[0] >= 2 && s.enqueued >= 2 && s.dequeued == 0 && s.out == []
    && (s.consumer.Waiting? || s.consumer == Looking(0))
    && forall t :: 0 <= t < |s.producers| ==>
         (s.producers[t].Claimed? || s.producers[t].Written? ==> s.producers[t].pos >= 2)
  }

  lemma {:induction false} StaysStuck<T>(s: State<T>, schedule: Schedule<T>)
    requires Stuck(s)
    ensures Stuck(Run(s, schedule))
  {
    if schedule != [] {
      StaysStuck(s, schedule[..|schedule| - 1]);
      StepStaysStuck(Run(s, schedule[..|schedule| - 1]), schedule[|schedule| - 1]);
    }
  }

  lemma StepStaysStuck<T>(s: State<T>, op: Op<T>)
    requires Stuck(s)
    ensures Stuck(Step(s, op))
  {}

  /** From then on no schedule delivers anything, although both enqueues were accepted. */
  lemma OneCellLosesBoth<T(!new)>(blank: T, v: T, w: T) returns (schedule: Schedule<T>)
    ensures var s := Run(Initial(1, 1, blank), schedule);
      && s.claims == [Claim(v, 0), Claim(w, 0)] && !Fits(s) && !DrainsWhenQuiet(s)
      && forall more: Schedule<T> :: Run(s, more).out == []
  {
    schedule := OneCellOverwrites(blank, v, w);
    hide Run;
    var s := Run(Initial(1, 1, blank), schedule);
    forall more: Schedule<T> ensures Run(s, more).out == [] { StaysStuck(s, more); }
    ConsumesStuck(s, 10);
  }

  lemma {:induction false} ConsumesStuck<T>(s: State<T>, n: nat)
    requires Stuck(s)
    ensures Stuck(Consumes(s, n))
  {
    if n > 0 { ConsumesStuck(s, n - 1); }
  }

  /** The queue keeps to its capacity in every schedule exactly when it has two cells or more. */
  lemma CapacityKeptIff<T(!new)>(capacity: nat, blank: T)
    requires capacity > 0
    ensures capacity >= 2
            <==> forall producers: nat, schedule: Schedule<T> ::
                   Fits(Run(Initial(capacity, producers, blank), schedule))
  {
    hide Run, DrainsWhenQuiet;
    if capacity == 1 {
      var schedule := OneCellLosesBoth(blank, blank, blank);
      assert !Fits(Run(Initial(capacity, 1, blank), schedule));
    } else {
      forall producers: nat, schedule: Schedule<T>
        ensures Fits(Run(Initial(capacity, producers, blank), schedule))
      {
        Reachable(capacity, producers, blank, schedule);
      }
    }
  }

  /** Every accepted value can be drained in every schedule exactly when there are two cells
      or more. */
  lemma LosslessIff<T(!new)>(capacity: nat, blank: T)
    requires capacity > 0
    ensures capacity >= 2
            <==> forall producers: nat, schedule: Schedule<T> ::
                   DrainsWhenQuiet(Run(Initial(capacity, producers, blank), schedule))
  {
    hide Run, DrainsWhenQuiet;
    if capacity == 1 {
      var schedule := OneCellLosesBoth(blank, blank, blank);
      assert !DrainsWhenQuiet(Run(Initial(capacity, 1, blank), schedule));
    } else {
      forall producers: nat, schedule: Schedule<T>
        ensures DrainsWhenQuiet(Run(Initial(capacity, producers, blank), schedule))
      {
        NothingAcceptedIsLost(capacity, producers, blank, schedule);
      }
    }
  }
}
