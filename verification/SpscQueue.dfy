/** The bounded single-producer, single-consumer queue as a step machine. Its counters are
    64-bit and wrap; each side works from a cached copy of the other's counter and reloads
    it only when the copy says full or empty. */
module SpscQueue {
  import opened RingIndex

  /** The counters are `size_t`. */
  const WIDTH: nat := 0x1_0000_0000_0000_0000

  function Wrap(n: nat): (w: nat)
    ensures w < WIDTH
  {
    n % WIDTH
  }

  /** `a - b` on unsigned counters. */
  function Distance(a: nat, b: nat): nat { (a - b) % WIDTH }

  datatype Producer<T> =
    | Idle
    | Full(head: nat, v: T)         // full by the cached tail; next, load the tail
    | Storing(head: nat, v: T)      // next, write the cell
    | Publishing(head: nat, v: T)   // next, store the head

  datatype Consumer<T> =
    | Waiting
    | Empty(tail: nat)              // empty by the cached head; next, load the head
    | Reading(tail: nat)            // next, read the cell
    | Releasing(tail: nat, v: T)    // next, store the tail
    | Peeking(tail: nat)            // inside front; next, load the head
    | Pointing(tail: nat)           // holds the pointer front returned

  datatype State<T> = State(
    buffer: seq<T>, head: nat, tail: nat, cachedTail: nat, cachedHead: nat,
    producer: Producer<T>, consumer: Consumer<T>,
    pushed: seq<T>, popped: seq<T>, seenPops: nat, seenPushes: nat)   // history; what the caches stand for

  datatype Op<T> = Push(v: T) | Produce | Pop | Front | Consume

  function Initial<T>(capacity: nat, blank: T): State<T> {
    State(seq(capacity, _ => blank), 0, 0, 0, 0, Idle, Waiting, [], [], 0, 0)
  }

  function ProducerStep<T>(s: State<T>): State<T>
    requires |s.buffer| > 0
  {
    match s.producer
    case Idle => s
    case Full(head, v) =>
      s.(cachedTail := s.tail, seenPops := |s.popped|,
         producer := if Distance(head, s.tail) >= |s.buffer| then Idle else Storing(head, v))
    case Storing(head, v) => s.(buffer := s.buffer[Cell(head, |s.buffer|) := v], producer := Publishing(head, v))
    case Publishing(head, v) => s.(head := Wrap(head + 1), pushed := s.pushed + [v], producer := Idle)
  }

  function ConsumerStep<T>(s: State<T>): State<T>
    requires |s.buffer| > 0
  {
    match s.consumer
    case Waiting => s
    case Empty(tail) =>
      s.(cachedHead := s.head, seenPushes := |s.pushed|, consumer := if s.head == tail then Waiting else Reading(tail))
    case Reading(tail) => s.(consumer := Releasing(tail, s.buffer[Cell(tail, |s.buffer|)]))
    case Releasing(tail, v) => s.(tail := Wrap(tail + 1), popped := s.popped + [v], consumer := Waiting)
    case Peeking(tail) => s.(consumer := if tail == s.head then Waiting else Pointing(tail))
    case Pointing(tail) => s.(consumer := Waiting)
  }

  function Step<T>(s: State<T>, op: Op<T>): State<T> {
    if |s.buffer| == 0 then s
    else match op
      case Push(v) =>
        if !s.producer.Idle? then s
        else s.(producer := if Distance(s.head, s.cachedTail) >= |s.buffer| then Full(s.head, v)
                            else Storing(s.head, v))
      case Produce => ProducerStep(s)
      case Pop =>
        if !s.consumer.Waiting? then s
        else s.(consumer := if s.cachedHead == s.tail then Empty(s.tail) else Reading(s.tail))
      case Front => if !s.consumer.Waiting? then s else s.(consumer := Peeking(s.tail))
      case Consume => ConsumerStep(s)
  }

  type Schedule<T> = seq<Op<T>>

  function Run<T>(start: State<T>, schedule: Schedule<T>): State<T> {
    if schedule == [] then start
    else Step(Run(start, schedule[..|schedule| - 1]), schedule[|schedule| - 1])
  }

  // ----- The invariant -----

  /** What the code asks of `Capacity`: positive, and a power of two. */
  predicate ValidCapacity(capacity: nat) { 0 < capacity < WIDTH && WIDTH % capacity == 0 }

  ghost predicate CountersOk<T>(s: State<T>) {
    && |s.popped| <= |s.pushed| <= |s.popped| + |s.buffer|
    && s.head == Wrap(|s.pushed|) && s.tail == Wrap(|s.popped|)
    && s.seenPops <= |s.popped| && |s.pushed| <= s.seenPops + |s.buffer| && s.cachedTail == Wrap(s.seenPops)
    && |s.popped| <= s.seenPushes <= |s.pushed| && s.cachedHead == Wrap(s.seenPushes)
  }

  ghost predicate Stored<T>(s: State<T>)
    requires |s.buffer| > 0
  {
    forall k :: |s.popped| <= k < |s.pushed| ==> s.buffer[Cell(k, |s.buffer|)] == s.pushed[k]
  }

  ghost predicate ProducerOk<T>(s: State<T>)
    requires |s.buffer| > 0
  {
    match s.producer
    case Idle => true
    case Full(head, v) => head == s.head
    case Storing(head, v) => head == s.head && |s.pushed| < s.seenPops + |s.buffer|
    case Publishing(head, v) =>
      head == s.head && |s.pushed| < s.seenPops + |s.buffer| && s.buffer[Cell(|s.pushed|, |s.buffer|)] == v
  }

  ghost predicate ConsumerOk<T>(s: State<T>) {
    match s.consumer
    case Waiting => true
    case Empty(tail) => tail == s.tail && s.seenPushes == |s.popped|
    case Reading(tail) => tail == s.tail && |s.popped| < s.seenPushes
    case Releasing(tail, v) => tail == s.tail && |s.popped| < s.seenPushes <= |s.pushed| && v == s.pushed[|s.popped|]
    case Peeking(tail) => tail == s.tail
    case Pointing(tail) => tail == s.tail && |s.popped| < |s.pushed|
  }

  ghost predicate Prefix<T>(s: State<T>) {
    |s.popped| <= |s.pushed| && forall k :: 0 <= k < |s.popped| ==> s.popped[k] == s.pushed[k]
  }

  ghost predicate Inv<T>(s: State<T>) {
    ValidCapacity(|s.buffer|) && CountersOk(s) && Stored(s) && ProducerOk(s) && ConsumerOk(s) && Prefix(s)
  }

  // ----- Counters -----

  lemma Distances(p: nat, q: nat)
    requires q <= p < q + WIDTH
    ensures Distance(Wrap(p), Wrap(q)) == p - q
    ensures Wrap(p) == Wrap(q) <==> p == q
  {
    DistanceWraps(p, q, WIDTH);
    SameCounterIff(p, q, WIDTH);
  }

  lemma NextWraps(p: nat)
    ensures Wrap(Wrap(p) + 1) == Wrap(p + 1)
  {
    var k, r := p / WIDTH, p % WIDTH;
    if r + 1 < WIDTH { DivisionUnique(p + 1, WIDTH, k, r + 1); }
    else { DivisionUnique(p + 1, WIDTH, k + 1, 0); }
  }

  lemma CellOfCounter(p: nat, capacity: nat)
    requires ValidCapacity(capacity)
    ensures Cell(Wrap(p), capacity) == Cell(p, capacity)
  {
    CellOfWrapped(p, capacity, WIDTH);
  }

  // ----- Every step keeps the invariant -----

  lemma InitialInv<T>(capacity: nat, blank: T)
    requires ValidCapacity(capacity)
    ensures Inv(Initial(capacity, blank))
  {
    assert Wrap(0) == 0;
  }

  lemma ProducerKeepsInv<T>(s: State<T>)
    requires Inv(s)
    ensures Inv(ProducerStep(s))
  {
    hide Cell, Wrap, Distance;
    var p, q, c := |s.pushed|, |s.popped|, |s.buffer|;
    Distances(p, q);
    match s.producer
    case Idle =>
    case Full(_, _) =>
    case Storing(_, v) =>
      CellOfCounter(p, c);
      WindowDistinct(p, q, c);
    case Publishing(_, v) => NextWraps(p);
  }

  lemma ConsumerKeepsInv<T>(s: State<T>)
    requires Inv(s)
    ensures Inv(ConsumerStep(s))
  {
    hide Cell, Wrap, Distance;
    var p, q, c := |s.pushed|, |s.popped|, |s.buffer|;
    match s.consumer
    case Waiting =>
    case Empty(_) => Distances(p, q);
    case Reading(_) => CellOfCounter(q, c);
    case Releasing(_, _) => NextWraps(q);
    case Peeking(_) => Distances(p, q);
    case Pointing(_) =>
  }

  lemma StepKeepsInv<T>(s: State<T>, op: Op<T>)
    requires Inv(s)
    ensures Inv(Step(s, op))
  {
    hide Cell, Wrap, Distance, ProducerStep, ConsumerStep;
    match op
    case Push(v) => Distances(|s.pushed|, s.seenPops);
    case Produce => ProducerKeepsInv(s);
    case Pop => Distances(s.seenPushes, |s.popped|);
    case Front =>
    case Consume => ConsumerKeepsInv(s);
  }

  lemma {:induction false} RunKeepsInv<T>(s: State<T>, schedule: Schedule<T>)
    requires Inv(s)
    ensures Inv(Run(s, schedule)) && |Run(s, schedule).buffer| == |s.buffer|
  {
    if schedule != [] {
      RunKeepsInv(s, schedule[..|schedule| - 1]);
      StepKeepsInv(Run(s, schedule[..|schedule| - 1]), schedule[|schedule| - 1]);
      hide Inv;
    }
  }

  lemma Reachable<T>(capacity: nat, blank: T, schedule: Schedule<T>)
    requires ValidCapacity(capacity)
    ensures var s := Run(Initial(capacity, blank), schedule); Inv(s) && |s.buffer| == capacity
  {
    hide Inv, Run;
    InitialInv(capacity, blank);
    RunKeepsInv(Initial(capacity, blank), schedule);
  }

  // ----- The calls behind the values -----

  datatype Call<T> = NoCall | Calling(v: T)

  /** The argument of the push that is under way, as the schedule gave it. */
  function UnderWay<T>(start: State<T>, schedule: Schedule<T>): Call<T> {
    if schedule == [] then NoCall
    else
      var n := |schedule| - 1;
      CallAfter(UnderWay(start, schedule[..n]), Run(start, schedule[..n]), schedule[n], Run(start, schedule))
  }

  /** A push begins when the producer is idle and is over when it is idle again. */
  function CallAfter<T>(call: Call<T>, before: State<T>, op: Op<T>, after: State<T>): Call<T> {
    if after.producer.Idle? then NoCall
    else if op.Push? && before.producer.Idle? then Calling(op.v)
    else call
  }

  /** Arguments of the pushes that have returned true, in order: those that moved the head. */
  function Accepted<T>(start: State<T>, schedule: Schedule<T>): seq<T> {
    if schedule == [] then []
    else
      var n := |schedule| - 1;
      Accepted(start, schedule[..n])
      + Finished(UnderWay(start, schedule[..n]), Run(start, schedule[..n]), Run(start, schedule))
  }

  function Finished<T>(call: Call<T>, before: State<T>, after: State<T>): seq<T> {
    if before.head != after.head && call.Calling? then [call.v] else []
  }

  ghost predicate CallsMatch<T>(s: State<T>, call: Call<T>, accepted: seq<T>) {
    && (if s.producer.Idle? then call == NoCall else call == Calling(s.producer.v))
    && s.pushed == accepted
  }

  lemma StepMatchesCalls<T>(s: State<T>, op: Op<T>, call: Call<T>, accepted: seq<T>)
    requires Inv(s) && CallsMatch(s, call, accepted)
    ensures var s' := Step(s, op);
      CallsMatch(s', CallAfter(call, s, op, s'), accepted + Finished(call, s, s'))
  {
    hide Cell, Wrap, Distance;
    NextWraps(|s.pushed|);
    Distances(|s.pushed| + 1, |s.pushed|);
  }

  /** What was pushed is the arguments of the accepted pushes, in order, and a push under way
      still works with its own argument. */
  lemma {:induction false} PushedAreCalls<T>(capacity: nat, blank: T, schedule: Schedule<T>)
    requires ValidCapacity(capacity)
    ensures var start := Initial(capacity, blank);
      CallsMatch(Run(start, schedule), UnderWay(start, schedule), Accepted(start, schedule))
  {
    hide Step, CallAfter, Finished, Inv, ValidCapacity;
    if schedule != [] {
      var n, start := |schedule| - 1, Initial(capacity, blank);
      PushedAreCalls(capacity, blank, schedule[..n]);
      Reachable(capacity, blank, schedule[..n]);
      StepMatchesCalls(Run(start, schedule[..n]), schedule[n], UnderWay(start, schedule[..n]),
                       Accepted(start, schedule[..n]));
    }
  }

  // ----- What holds in every schedule -----

  /** What has been popped is a prefix of the arguments of the accepted pushes, however often the
      counters have wrapped, and the rest is no more than the capacity and still in its cells. */
  lemma FirstInFirstOut<T>(capacity: nat, blank: T, schedule: Schedule<T>)
    requires ValidCapacity(capacity)
    ensures var s, accepted := Run(Initial(capacity, blank), schedule), Accepted(Initial(capacity, blank), schedule);
      && |s.popped| <= |accepted| <= |s.popped| + capacity && |s.buffer| == capacity
      && s.popped == accepted[..|s.popped|]
      && (forall k :: |s.popped| <= k < |accepted| ==> s.buffer[Cell(k, capacity)] == accepted[k])
  {
    hide Run, Accepted;
    Reachable(capacity, blank, schedule);
    PushedAreCalls(capacity, blank, schedule);
  }

  /** The producer never overwrites the cell the consumer is about to read or points at, and
      the pointer from `front` denotes the oldest element for as long as it is held. */
  lemma CellsExclusive<T>(capacity: nat, blank: T, schedule: Schedule<T>)
    requires ValidCapacity(capacity)
    ensures var s := Run(Initial(capacity, blank), schedule);
      && |s.buffer| == capacity
      && (s.producer.Storing? && (s.consumer.Reading? || s.consumer.Pointing?) ==>
            Cell(s.producer.head, capacity) != Cell(s.consumer.tail, capacity))
      && (s.consumer.Reading? || s.consumer.Pointing? ==>
            |s.popped| < |s.pushed| && s.buffer[Cell(s.consumer.tail, capacity)] == s.pushed[|s.popped|])
  {
    hide Run, Cell, Wrap;
    Reachable(capacity, blank, schedule);
    var s := Run(Initial(capacity, blank), schedule);
    CellOfCounter(|s.popped|, capacity);
    CellOfCounter(|s.pushed|, capacity);
    if s.producer.Storing? && |s.popped| < |s.pushed| { CellsDistinct(|s.popped|, |s.pushed|, capacity); }
  }

  /** A push ends exactly when it has published its value, or the queue is full at the moment it
      reloads the tail: only then is it refused. */
  lemma RefusedIffFull<T>(capacity: nat, blank: T, schedule: Schedule<T>)
    requires ValidCapacity(capacity)
    ensures var s := Run(Initial(capacity, blank), schedule);
      |s.buffer| == capacity && (!s.producer.Idle? ==>
        (ProducerStep(s).producer.Idle?
         <==> s.producer.Publishing? || (s.producer.Full? && |s.pushed| == |s.popped| + capacity)))
      && (s.producer.Full? ==> ProducerStep(s).cachedTail == s.tail)
  {
    hide Run, Wrap, Distance;
    Reachable(capacity, blank, schedule);
    var s := Run(Initial(capacity, blank), schedule);
    Distances(|s.pushed|, |s.popped|);
  }

  /** A pop or a front finds nothing exactly when the queue is empty at the moment it loads
      the head. */
  lemma NothingIffEmpty<T>(capacity: nat, blank: T, schedule: Schedule<T>)
    requires ValidCapacity(capacity)
    ensures var s := Run(Initial(capacity, blank), schedule);
      |s.buffer| == capacity && (s.consumer.Empty? || s.consumer.Peeking? ==>
        (ConsumerStep(s).consumer.Waiting? <==> |s.pushed| == |s.popped|))
      && (s.consumer.Empty? ==> ConsumerStep(s).cachedHead == s.head)
  {
    hide Run, Wrap, Distance;
    Reachable(capacity, blank, schedule);
    var s := Run(Initial(capacity, blank), schedule);
    Distances(|s.pushed|, |s.popped|);
  }

  // ----- Calls that nothing interrupts -----

  lemma FourSteps<T>(s: State<T>, a: Op<T>, b: Op<T>)
    ensures Run(s, [a, b]) == Step(Step(s, a), b)
    ensures Run(s, [a, b, b]) == Step(Step(Step(s, a), b), b)
    ensures Run(s, [a, b, b, b]) == Step(Step(Step(Step(s, a), b), b), b)
  {
    hide Step;
    assert [a, b, b, b][..3] == [a, b, b] && [a, b, b][..2] == [a, b] && [a, b][..1] == [a] && [a][..0] == [];
    assert Run(s, [a]) == Step(Run(s, []), a);
    assert Run(s, [a, b]) == Step(Run(s, [a]), b);
    assert Run(s, [a, b, b]) == Step(Run(s, [a, b]), b);
  }

  /** In every reachable state a push that runs without interruption, of at most three steps after
      its start, appends its argument when there is room and otherwise changes no element. */
  lemma PushAlone<T>(capacity: nat, blank: T, schedule: Schedule<T>, v: T)
    requires ValidCapacity(capacity)
    ensures var s := Run(Initial(capacity, blank), schedule);
      s.producer.Idle? ==>
        var s' := Run(s, [Push(v), Produce, Produce, Produce]);
        && s'.producer.Idle? && s'.consumer == s.consumer && s'.popped == s.popped
        && s'.pushed == if |s.pushed| == |s.popped| + capacity then s.pushed else s.pushed + [v]
  {
    hide Run, Wrap, Distance, Cell;
    Reachable(capacity, blank, schedule);
    var s := Run(Initial(capacity, blank), schedule);
    if s.producer.Idle? {
      FourSteps(s, Push(v), Produce);
      Distances(|s.pushed|, s.seenPops);
      Distances(|s.pushed|, |s.popped|);
    }
  }

  /** In every reachable state a pop that runs without interruption takes the oldest element, or
      nothing when there is none. */
  lemma PopAlone<T>(capacity: nat, blank: T, schedule: Schedule<T>)
    requires ValidCapacity(capacity)
    ensures var s := Run(Initial(capacity, blank), schedule);
      s.consumer.Waiting? ==>
        var s' := Run(s, [Pop, Consume, Consume, Consume]);
        && s'.consumer.Waiting? && s'.producer == s.producer && s'.pushed == s.pushed
        && |s.popped| <= |s.pushed|
        && s'.popped == if |s.popped| == |s.pushed| then s.popped else s.popped + [s.pushed[|s.popped|]]
  {
    hide Run, Wrap, Distance, Cell;
    Reachable(capacity, blank, schedule);
    var s := Run(Initial(capacity, blank), schedule);
    if s.consumer.Waiting? {
      FourSteps(s, Pop, Consume);
      Distances(s.seenPushes, |s.popped|);
      Distances(|s.pushed|, |s.popped|);
      CellOfCounter(|s.popped|, capacity);
    }
  }

  /** In every reachable state a front that runs without interruption points at the oldest element,
      or at nothing when there is none, and takes nothing. */
  lemma FrontAlone<T>(capacity: nat, blank: T, schedule: Schedule<T>)
    requires ValidCapacity(capacity)
    ensures var s := Run(Initial(capacity, blank), schedule);
      s.consumer.Waiting? ==>
        var s' := Run(s, [Front, Consume]);
        && s' == s.(consumer := s'.consumer) && |s.buffer| == capacity && |s.popped| <= |s.pushed|
        && if |s.popped| == |s.pushed| then s'.consumer.Waiting?
           else s'.consumer.Pointing? && s.buffer[Cell(s'.consumer.tail, capacity)] == s.pushed[|s.popped|]
  {
    hide Run, Wrap, Distance, Cell;
    Reachable(capacity, blank, schedule);
    var s := Run(Initial(capacity, blank), schedule);
    if s.consumer.Waiting? {
      FourSteps(s, Front, Consume);
      Distances(|s.pushed|, |s.popped|);
      CellOfCounter(|s.popped|, capacity);
    }
  }

  // ----- approx_size -----

  function ApproxSize(head: nat, tail: nat): nat { if head >= tail then head - tail else 0 }

  /** Read with no operation in between, `approx_size` is the number of elements exactly when
      the head has not wrapped past the tail; when it has, a queue with elements reports none. */
  lemma ApproxSizeExactIff<T>(capacity: nat, blank: T, schedule: Schedule<T>)
    requires ValidCapacity(capacity)
    ensures var s := Run(Initial(capacity, blank), schedule);
      var p, q, size := |s.pushed|, |s.popped|, ApproxSize(s.head, s.tail);
      && (size == p - q <==> p / WIDTH == q / WIDTH)
      && (p / WIDTH != q / WIDTH ==> p > q && size == 0)
  {
    hide Run;
    Reachable(capacity, blank, schedule);
    var s := Run(Initial(capacity, blank), schedule);
    ApproxSizeOf(|s.pushed|, |s.popped|);
  }

  lemma ApproxSizeOf(p: nat, q: nat)
    requires q <= p < q + WIDTH
    ensures ApproxSize(Wrap(p), Wrap(q)) == p - q <==> p / WIDTH == q / WIDTH
    ensures p / WIDTH != q / WIDTH ==> p > q && ApproxSize(Wrap(p), Wrap(q)) == 0
  {
    assert p - q == WIDTH * (p / WIDTH - q / WIDTH) + (Wrap(p) - Wrap(q));
    QuotientsClose(p, q);
  }

  lemma QuotientsClose(p: nat, q: nat)
    requires q <= p < q + WIDTH
    ensures p / WIDTH == q / WIDTH || p / WIDTH == q / WIDTH + 1
  {}
}
