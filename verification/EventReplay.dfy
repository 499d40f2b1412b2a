/** Replaying a journal through the dispatcher into analyzers. */
module EventReplay {
  import opened Crc
  import opened EventCodec
  import opened JournalFormat
  import opened JournalReading
  import opened JournalRecovery
  import opened JournalReader
  import opened JournalWriting
  import opened JournalGuarantees
  import opened SegmentNames
  import opened MemoryAccounting
  import opened AccountingTotals
  import opened EventAnalysis

  // ----- Dispatch -----

  datatype Filter = Filter(category: bv8, kind: bv16, minPriority: bv8)

  const MATCH_ALL := Filter(UNKNOWN_CATEGORY, UNKNOWN_KIND, 0)

  predicate Matches(f: Filter, e: Event) {
    && (f.category == UNKNOWN_CATEGORY || e.category == f.category)
    && (f.kind == UNKNOWN_KIND || e.kind == f.kind)
    && e.priority >= f.minPriority
  }

  datatype Subscriber = Subscriber(token: nat, listener: EventAnalyzer, filter: Filter)

  /** What a subscriber makes of one dispatched event. */
  function Heard(hasStats: bool, f: Filter, s: System, e: Event): System {
    if Matches(f, e) then Absorbed(hasStats, s, Observe(e)) else s
  }

  function HeardAll(hasStats: bool, f: Filter, s: System, events: seq<Event>): System {
    if events == [] then s
    else Heard(hasStats, f, HeardAll(hasStats, f, s, events[..|events| - 1]), events[|events| - 1])
  }

  /** Processing all of a list of events, with no filter. */
  function AbsorbedAll(hasStats: bool, s: System, events: seq<Event>): System {
    if events == [] then s
    else Absorbed(hasStats, AbsorbedAll(hasStats, s, events[..|events| - 1]), Observe(events[|events| - 1]))
  }

  // The events of one category, of one kind, and of at least some priority; 0 stands for any.
  function OfCategory(category: bv8, events: seq<Event>): seq<Event> {
    if category == 0 || events == [] then events
    else
      var n := |events| - 1;
      if events[n].category == category then OfCategory(category, events[..n]) + [events[n]]
      else OfCategory(category, events[..n])
  }

  function OfKind(kind: bv16, events: seq<Event>): seq<Event> {
    if kind == 0 || events == [] then events
    else
      var n := |events| - 1;
      if events[n].kind == kind then OfKind(kind, events[..n]) + [events[n]] else OfKind(kind, events[..n])
  }

  predicate Urgent(e: Event, priority: bv8) { e.priority >= priority }

  function AtLeast(priority: bv8, events: seq<Event>): seq<Event> {
    if events == [] then []
    else
      var n := |events| - 1;
      if Urgent(events[n], priority) then AtLeast(priority, events[..n]) + [events[n]]
      else AtLeast(priority, events[..n])
  }

  function Chosen(f: Filter, events: seq<Event>): seq<Event> {
    AtLeast(f.minPriority, OfKind(f.kind, OfCategory(f.category, events)))
  }

  lemma CategoryNext(category: bv8, events: seq<Event>, e: Event)
    ensures OfCategory(category, events + [e])
            == if category == 0 || e.category == category then OfCategory(category, events) + [e]
               else OfCategory(category, events)
  {
    assert (events + [e])[..|events|] == events;
  }

  lemma KindNext(kind: bv16, events: seq<Event>, e: Event)
    ensures OfKind(kind, events + [e])
            == if kind == 0 || e.kind == kind then OfKind(kind, events) + [e] else OfKind(kind, events)
  {
    assert (events + [e])[..|events|] == events;
  }

  lemma PriorityNext(priority: bv8, events: seq<Event>, e: Event)
    ensures AtLeast(priority, events + [e])
            == if Urgent(e, priority) then AtLeast(priority, events) + [e] else AtLeast(priority, events)
  {
    hide Urgent;
    assert (events + [e])[..|events|] == events;
  }

  lemma ChosenNext(f: Filter, events: seq<Event>, e: Event)
    ensures Chosen(f, events + [e]) == if Matches(f, e) then Chosen(f, events) + [e] else Chosen(f, events)
  {
    hide OfCategory, OfKind, AtLeast;
    var c := OfCategory(f.category, events);
    var k := OfKind(f.kind, c);
    CategoryNext(f.category, events, e);
    KindNext(f.kind, c, e);
    PriorityNext(f.minPriority, k, e);
  }

  /** A subscriber filtered on a category, a kind or a priority ends as if only the events of that
      category, kind or priority had been dispatched. */
  lemma {:induction false} HeardIsChosen(hasStats: bool, f: Filter, s: System, events: seq<Event>)
    ensures HeardAll(hasStats, f, s, events) == AbsorbedAll(hasStats, s, Chosen(f, events))
  {
    hide Absorbed, Observe, Chosen, Matches;
    if events == [] {
      NothingChosen(f);
    } else {
      var n := |events| - 1;
      HeardIsChosen(hasStats, f, s, events[..n]);
      assert events == events[..n] + [events[n]];
      ChosenNext(f, events[..n], events[n]);
      var c := Chosen(f, events[..n]);
      assert (c + [events[n]])[..|c|] == c;
    }
  }

  lemma NothingChosen(f: Filter)
    ensures Chosen(f, []) == []
  {}

  ghost function Listeners(subs: seq<Subscriber>): set<EventAnalyzer> {
    set i | 0 <= i < |subs| :: subs[i].listener
  }

  ghost function Collectors(subs: seq<Subscriber>): set<StatisticsCollector> {
    set i | 0 <= i < |subs| && subs[i].listener.stats != null :: subs[i].listener.stats as StatisticsCollector
  }

  ghost function Footprint(subs: seq<Subscriber>): set<object> {
    (set a | a in Listeners(subs) :: a as object) + (set c | c in Collectors(subs) :: c as object)
  }

  /** The state of all listeners and their collectors. A listener may be subscribed more than
      once, and listeners may share a collector. */
  datatype World = World(analyses: map<EventAnalyzer, Analysis>, collectors: map<StatisticsCollector, Collector>)

  ghost function Now(subs: seq<Subscriber>): World
    reads Footprint(subs)
  {
    World(map a | a in Listeners(subs) :: a.View(), map c | c in Collectors(subs) :: c.View())
  }

  ghost predicate Knows(w: World, a: EventAnalyzer) {
    a in w.analyses && (a.stats != null ==> a.stats in w.collectors)
  }

  ghost function BooksIn(w: World, a: EventAnalyzer): System
    requires Knows(w, a)
  {
    System(w.analyses[a], if a.stats == null then EMPTY_COLLECTOR else w.collectors[a.stats])
  }

  ghost function WithBooks(w: World, a: EventAnalyzer, s: System): World {
    World(w.analyses[a := s.a], if a.stats == null then w.collectors else w.collectors[a.stats := s.c])
  }

  /** One subscription hears one event. */
  ghost function HeardBy(w: World, sub: Subscriber, e: Event): World {
    if Matches(sub.filter, e) && Knows(w, sub.listener)
    then WithBooks(w, sub.listener, Absorbed(sub.listener.stats != null, BooksIn(w, sub.listener), Observe(e)))
    else w
  }

  /** All subscriptions hear one event, in order of subscription. */
  ghost function Dispatched(w: World, subs: seq<Subscriber>, e: Event): World {
    if subs == [] then w else HeardBy(Dispatched(w, subs[..|subs| - 1], e), subs[|subs| - 1], e)
  }

  ghost function DispatchedAll(w: World, subs: seq<Subscriber>, events: seq<Event>): World {
    if events == [] then w
    else Dispatched(DispatchedAll(w, subs, events[..|events| - 1]), subs, events[|events| - 1])
  }

  // ----- Listeners that share nothing -----

  /** Listeners are distinct objects with distinct collectors. */
  ghost predicate Separate(subs: seq<Subscriber>) {
    forall i, j :: 0 <= i < j < |subs| ==> Apart(subs[i].listener, subs[j].listener)
  }

  ghost predicate Apart(a: EventAnalyzer, b: EventAnalyzer) {
    a != b && (a.stats == null || a.stats != b.stats)
  }

  ghost predicate AllKnown(w: World, subs: seq<Subscriber>) {
    forall i :: 0 <= i < |subs| ==> Knows(w, subs[i].listener)
  }

  lemma HeardByOne(w: World, sub: Subscriber, e: Event, a: EventAnalyzer)
    requires Knows(w, sub.listener) && Knows(w, a)
    ensures Knows(HeardBy(w, sub, e), a)
    ensures a == sub.listener ==>
      BooksIn(HeardBy(w, sub, e), a) == Heard(a.stats != null, sub.filter, BooksIn(w, a), e)
    ensures Apart(a, sub.listener) ==> BooksIn(HeardBy(w, sub, e), a) == BooksIn(w, a)
  {
    hide Matches, Analyzed, Reported, ReportOf, Observe;
  }

  lemma {:induction false} DispatchedToEach(w: World, subs: seq<Subscriber>, e: Event, m: nat, k: nat)
    requires Separate(subs) && AllKnown(w, subs) && m <= |subs| && k < |subs|
    ensures var w', a := Dispatched(w, subs[..m], e), subs[k].listener;
      && Knows(w', a)
      && BooksIn(w', a) == if k < m then Heard(a.stats != null, subs[k].filter, BooksIn(w, a), e) else BooksIn(w, a)
  {
    hide HeardBy, Heard, BooksIn, Knows;
    if m > 0 {
      DispatchedToEach(w, subs, e, m - 1, k);
      DispatchedToEach(w, subs, e, m - 1, m - 1);
      assert subs[..m][..m - 1] == subs[..m - 1];
      HeardByOne(Dispatched(w, subs[..m - 1], e), subs[m - 1], e, subs[k].listener);
      if k != m - 1 { ApartBothWays(subs, k, m - 1); }
    }
  }

  lemma ApartBothWays(subs: seq<Subscriber>, i: nat, j: nat)
    requires Separate(subs) && i < |subs| && j < |subs| && i != j
    ensures Apart(subs[i].listener, subs[j].listener)
  {
    if i < j {} else { assert Apart(subs[j].listener, subs[i].listener); }
  }

  /** Listeners that share nothing each hear exactly the events their own filter lets through. */
  lemma {:induction false} HeardIndependently(w: World, subs: seq<Subscriber>, events: seq<Event>, k: nat)
    requires Separate(subs) && AllKnown(w, subs) && k < |subs|
    ensures var w', a := DispatchedAll(w, subs, events), subs[k].listener;
      && Knows(w', a) && BooksIn(w', a) == HeardAll(a.stats != null, subs[k].filter, BooksIn(w, a), events)
      && BooksIn(w', a) == AbsorbedAll(a.stats != null, BooksIn(w, a), Chosen(subs[k].filter, events))
  {
    hide Heard, BooksIn, Knows, Dispatched, Chosen, AbsorbedAll;
    HeardIsChosen(subs[k].listener.stats != null, subs[k].filter, BooksIn(w, subs[k].listener), events);
    if events != [] {
      var n := |events| - 1;
      var before := DispatchedAll(w, subs, events[..n]);
      forall i | 0 <= i < |subs| ensures Knows(before, subs[i].listener) {
        HeardIndependently(w, subs, events[..n], i);
      }
      HeardIndependently(w, subs, events[..n], k);
      DispatchedToEach(before, subs, events[n], |subs|, k);
      assert subs[..|subs|] == subs;
    }
  }

  class EventDispatcher {
    var subscribers: seq<Subscriber>
    var tokenCounter: nat

    /** Tokens are positive, in use at most once, and never above the counter. */
    ghost predicate Valid()
      reads this
    {
      && (forall i :: 0 <= i < |subscribers| ==> 0 < subscribers[i].token <= tokenCounter)
      && (forall i, j :: 0 <= i < j < |subscribers| ==> subscribers[i].token < subscribers[j].token)
    }

    constructor ()
      ensures Valid() && subscribers == []
    {
      subscribers, tokenCounter := [], 0;
    }

    method Subscribe(listener: EventAnalyzer?, filter: Filter) returns (token: nat)
      requires Valid()
      modifies this
      ensures Valid()
      ensures listener == null ==> token == 0 && unchanged(this)
      ensures listener != null ==>
        && (forall i :: 0 <= i < |old(subscribers)| ==> old(subscribers)[i].token != token)
        && subscribers == old(subscribers) + [Subscriber(token, listener, filter)]
    {
      if listener == null { return 0; }
      tokenCounter := tokenCounter + 1;
      subscribers := subscribers + [Subscriber(tokenCounter, listener, filter)];
      return tokenCounter;
    }

    /** Remove the subscription with this token; at most one has it. */
    method Unsubscribe(token: nat) returns (status: Status)
      requires Valid()
      modifies this
      ensures Valid()
      ensures token == 0 ==> status == InvalidArgument
      ensures token > 0 ==>
        (status == Ok <==> exists i :: 0 <= i < |old(subscribers)| && old(subscribers)[i].token == token)
      ensures status != Ok ==> unchanged(this)
      ensures forall s :: s in subscribers <==> s in old(subscribers) && (s.token != token || status != Ok)
    {
      if token == 0 { return InvalidArgument; }
      for i := 0 to |subscribers|
        invariant subscribers == old(subscribers) && tokenCounter == old(tokenCounter)
        invariant forall k :: 0 <= k < i ==> subscribers[k].token != token
      {
        if subscribers[i].token == token {
          subscribers := subscribers[..i] + subscribers[i + 1..];
          return Ok;
        }
      }
      return NotFound;
    }

    /** Every subscription whose filter matches processes the event, in order. */
    method Dispatch(e: Event)
      modifies Footprint(subscribers)
      ensures Now(subscribers) == Dispatched(old(Now(subscribers)), subscribers, e)
    {
      hide HeardBy, Now;
      var subs := subscribers;
      for i := 0 to |subs|
        invariant subscribers == subs
        invariant Now(subs) == Dispatched(old(Now(subs)), subs[..i], e)
      {
        assert subs[..i + 1][..i] == subs[..i];
        InFootprint(subs, subs[i]);
        Deliver(subs[i], e, subs);
      }
      assert subs[..|subs|] == subs;
    }
  }

  method Deliver(sub: Subscriber, e: Event, ghost subs: seq<Subscriber>)
    requires sub in subs
    modifies sub.listener, sub.listener.stats
    ensures Now(subs) == HeardBy(old(Now(subs)), sub, e)
  {
    hide Matches, Observe, Absorbed;
    InFootprint(subs, sub);
    if Matches(sub.filter, e) {
      ghost var a, w := sub.listener, Now(subs);
      sub.listener.ProcessEvent(e);
      ghost var w' := Now(subs);
      SameExcept(w'.analyses, w.analyses, a, a.View());
      if a.stats != null { SameExcept(w'.collectors, w.collectors, a.stats, a.stats.View()); }
    }
  }

  lemma SameExcept<K, V>(m': map<K, V>, m: map<K, V>, k: K, v: V)
    requires m'.Keys == m.Keys && k in m && m'[k] == v && forall x :: x in m && x != k ==> m'[x] == m[x]
    ensures m' == m[k := v]
  {}

  lemma InFootprint(subs: seq<Subscriber>, sub: Subscriber)
    requires sub in subs
    ensures sub.listener in Listeners(subs) && (sub.listener.stats != null ==> sub.listener.stats in Collectors(subs))
  {
    var i :| 0 <= i < |subs| && subs[i] == sub;
    assert subs[i].listener in Listeners(subs);
    if sub.listener.stats != null { assert subs[i].listener.stats as StatisticsCollector in Collectors(subs); }
  }

  // ----- Replay -----

  const REPLAYED: bv32 := 4

  /** The replay flag is bit 2; nothing else of the event changes. */
  function Flagged(e: Event): (r: Event)
    ensures r == e.(flags := r.flags) && r.flags & 4 == 4 && r.flags & 0xFFFFFFFB == e.flags & 0xFFFFFFFB
  {
    e.(flags := e.flags | REPLAYED)
  }

  function AllFlagged(events: seq<Event>): (r: seq<Event>)
    ensures |r| == |events|
  {
    if events == [] then [] else AllFlagged(events[..|events| - 1]) + [Flagged(events[|events| - 1])]
  }

  lemma FlaggedObserve(e: Event)
    ensures Observe(Flagged(e)) == Observe(e)
  {}

  datatype ReplayStats = ReplayStats(segments: nat, events: nat, skipped: nat, bytes: nat)
  datatype ReplayResult = Replayed(stats: ReplayStats) | ReplayFailed(status: Status)

  ghost predicate IsListing(dir: map<string, Bytes>, paths: seq<string>) {
    && StrictlySorted(paths)
    && (forall x :: x in paths <==> x in dir && IsJournalFile(x))
    && forall i :: 0 <= i < |paths| ==> paths[i] in dir
  }

  /** Reading the directory comes to an end. */
  ghost predicate ReadingEnds(dir: map<string, Bytes>) {
    forall paths | IsListing(dir, paths) ::
      match LoadSegment(Contents(dir, paths), FRESH)
      case Loaded(c) => ReadAll(Contents(dir, paths), c).Done?
      case LoadFailed(_) => true
  }

  lemma HeardOneMore(hasStats: bool, f: Filter, s: System, events: seq<Event>, e: Event)
    ensures HeardAll(hasStats, f, s, AllFlagged(events + [e]))
         == Heard(hasStats, f, HeardAll(hasStats, f, s, AllFlagged(events)), Flagged(e))
  {
    hide Heard, Flagged;
    assert (events + [e])[..|events|] == events;
    var a := AllFlagged(events);
    assert (a + [Flagged(e)])[..|a|] == a;
  }

  /** Every listener ends in the state of hearing exactly the events a reader of the directory
      delivers, flagged as replayed, in order. */
  method ReplayDirectory(place: Place, d: EventDispatcher)
    returns (result: ReplayResult, ghost paths: seq<string>)
    requires place.Directory? ==> ReadingEnds(place.files)
    modifies Footprint(d.subscribers)
    ensures d.subscribers == old(d.subscribers)
    ensures place == Missing ==> result == ReplayFailed(FileNotFound) && Now(d.subscribers) == old(Now(d.subscribers))
    ensures place.Directory? ==>
      && IsListing(place.files, paths)
      && var open := LoadSegment(Contents(place.files, paths), FRESH);
         if open.LoadFailed? then
           && result == ReplayFailed(if paths == [] then FileNotFound else JournalCorrupted)
           && Now(d.subscribers) == old(Now(d.subscribers))
         else
           var all := ReadAll(Contents(place.files, paths), open.cursor);
           && all.Done?
           && result == Replayed(ReplayStats(all.cursor.stats.segmentsRead, |all.found|,
                                             all.cursor.stats.skipped, all.cursor.stats.bytesRead))
           && Now(d.subscribers)
              == DispatchedAll(old(Now(d.subscribers)), d.subscribers, AllFlagged(EventsOf(all.found)))
  {
    hide LoadSegment, ReadAll, DispatchedAll, AllFlagged, Contents;
    var r := new Reader();
    var status := r.OpenDirectory(place);
    paths := r.segmentPaths;
    NothingListed(r.Listed());
    if status != Ok { return ReplayFailed(status), paths; }
    var count := ReplayAll(r, d);
    result := Replayed(ReplayStats(r.stats.segmentsRead, count, r.stats.skipped, r.stats.bytesRead));
  }

  lemma NothingListed(files: seq<Bytes>)
    ensures files == [] ==> LoadSegment(files, FRESH).LoadFailed?
  {}

  /** One round of the replay loop: read, flag, dispatch. */
  method ReplayOne(r: Reader, d: EventDispatcher, ghost start: World, ghost done: seq<Event>)
    returns (more: bool, ghost after: seq<Event>)
    requires r as object !in Footprint(d.subscribers)
    requires r.isOpen && ReadAll(r.Listed(), r.Cur()).Done?
    requires Now(d.subscribers) == DispatchedAll(start, d.subscribers, AllFlagged(done))
    modifies r, Footprint(d.subscribers)
    ensures r.isOpen && r.Listed() == old(r.Listed()) && d.subscribers == old(d.subscribers)
    ensures var all := ReadAll(r.Listed(), old(r.Cur()));
      if more then
        && ReadAll(r.Listed(), r.Cur()).Done? && Closer(r.Listed(), r.Cur(), old(r.Cur()))
        && all.cursor == ReadAll(r.Listed(), r.Cur()).cursor
        && |after| == |done| + 1
        && done + EventsOf(all.found) == after + EventsOf(ReadAll(r.Listed(), r.Cur()).found)
      else after == done == done + EventsOf(all.found) && r.Cur() == all.cursor
    ensures Now(d.subscribers) == DispatchedAll(start, d.subscribers, AllFlagged(after))
  {
    hide JournalReading.ReadNext, ReadAll, Dispatched, DispatchedAll, AllFlagged, Flagged, Closer, Now;
    ReadAllStep(r.Listed(), r.Cur());
    var out := r.ReadNext();
    if out.Stopped? {
      return false, done;
    }
    DispatchedOneMore(start, d.subscribers, done, out.event);
    d.Dispatch(Flagged(out.event));
    return true, done + [out.event];
  }

  lemma DispatchedOneMore(w: World, subs: seq<Subscriber>, events: seq<Event>, e: Event)
    ensures DispatchedAll(w, subs, AllFlagged(events + [e]))
         == Dispatched(DispatchedAll(w, subs, AllFlagged(events)), subs, Flagged(e))
  {
    hide Dispatched, Flagged;
    assert (events + [e])[..|events|] == events;
    var a := AllFlagged(events);
    assert (a + [Flagged(e)])[..|a|] == a;
  }

  /** Replay until the reader stops. */
  method ReplayAll(r: Reader, d: EventDispatcher) returns (count: nat)
    requires r as object !in Footprint(d.subscribers)
    requires r.isOpen && ReadAll(r.Listed(), r.Cur()).Done?
    modifies r, Footprint(d.subscribers)
    ensures d.subscribers == old(d.subscribers)
    ensures var all := old(ReadAll(r.Listed(), r.Cur()));
      && r.Cur() == all.cursor && count == |all.found|
      && Now(d.subscribers) == DispatchedAll(old(Now(d.subscribers)), d.subscribers, AllFlagged(EventsOf(all.found)))
  {
    hide ReadAll, DispatchedAll, AllFlagged, Closer, Now;
    count := 0;
    ghost var files, all, start := r.Listed(), ReadAll(r.Listed(), r.Cur()), Now(d.subscribers);
    ghost var done: seq<Event> := [];
    NothingDispatched(start, d.subscribers);
    var more := true;
    while more
      invariant r.isOpen && r.Listed() == files && d.subscribers == old(d.subscribers)
      invariant more ==> ReadAll(files, r.Cur()).Done? && ReadAll(files, r.Cur()).cursor == all.cursor
      invariant more ==> done + EventsOf(ReadAll(files, r.Cur()).found) == EventsOf(all.found)
      invariant !more ==> r.Cur() == all.cursor && done == EventsOf(all.found)
      invariant count == |done|
      invariant Now(d.subscribers) == DispatchedAll(start, d.subscribers, AllFlagged(done))
      decreases more, SegmentsLeft(files, r.Cur()), BytesLeft(r.Cur())
    {
      ghost var from := r.Cur();
      more, done := ReplayOne(r, d, start, done);
      if more {
        CloserMeans(files, r.Cur(), from);
        count := count + 1;
      }
    }
  }

  lemma NothingDispatched(w: World, subs: seq<Subscriber>)
    ensures DispatchedAll(w, subs, AllFlagged([])) == w
  {}

  // ----- End to end -----

  function ObserveAll(events: seq<Event>): (r: seq<Observation>)
    ensures |r| == |events|
  {
    if events == [] then [] else ObserveAll(events[..|events| - 1]) + [Observe(events[|events| - 1])]
  }

  /** The added replay flag does not change what an analyzer makes of the events. */
  lemma {:induction false} ReplayEqualsDirect(events: seq<Event>)
    ensures HeardAll(true, MATCH_ALL, START, AllFlagged(events)) == Run(ObserveAll(events))
  {
    hide Observe, Analyzed, Reported, ReportOf, Flagged, Matches;
    if events != [] {
      var n := |events| - 1;
      ReplayEqualsDirect(events[..n]);
      FlaggedObserve(events[n]);
      HeardOneMore(true, MATCH_ALL, START, events[..n], events[n]);
      assert events[..n] + [events[n]] == events;
      var o := ObserveAll(events[..n]);
      assert (o + [Observe(events[n])])[..n] == o;
      MatchesAll(Flagged(events[n]));
    }
  }

  lemma MatchesAll(e: Event)
    ensures Matches(MATCH_ALL, e)
  {}

  /** Processing the events directly, in append order. */
  method Analyze(events: seq<Event>) returns (a: EventAnalyzer)
    ensures fresh(a) && a.stats != null && fresh(a.stats)
    ensures a.Books() == Run(ObserveAll(events))
  {
    hide Observe, Step;
    var c := new StatisticsCollector();
    a := new EventAnalyzer(c);
    assert ObserveAll(events[..0]) == [];
    for i := 0 to |events|
      invariant a.stats == c && fresh(a) && fresh(c)
      invariant a.Books() == Run(ObserveAll(events[..i]))
    {
      a.ProcessEvent(events[i]);
      assert events[..i + 1][..i] == events[..i];
      assert ObserveAll(events[..i + 1])[..i] == ObserveAll(events[..i]);
      AbsorbedIsStep(Run(ObserveAll(events[..i])), Observe(events[i]));
    }
    assert events[..|events|] == events;
  }

  /** The snapshot after processing a list of events: counts, bytes and averages over the created
      objects and over the destroyed ones that lived for a time. */
  method Summarize(events: seq<Event>) returns (s: Snapshot)
    requires NoneWraps(Summed(ObserveAll(events)))
    ensures var t := Summed(ObserveAll(events));
      && s.totalAllocations == t.allocations && s.bytesAllocated == t.bytesAllocated
      && s.totalFrees == t.frees && s.bytesFreed == t.bytesFreed
      && (t.allocations > 0 ==> s.averageSize * (t.allocations as real) == t.bytesAllocated as real)
      && (t.lifetimes > 0 ==> s.averageLifetime * (t.lifetimes as real) == t.lifetime as real)
  {
    hide Summed, Run, ObserveAll, Totalled, NoneWraps;
    TotalsAreSums(ObserveAll(events));
    var a := Analyze(events);
    TotalsExact(a.stats.View(), Summed(ObserveAll(events)));
    s := a.stats.TakeSnapshot();
  }

  predicate NoneWraps(t: Totals) {
    t.allocations < TWO_64 && t.bytesAllocated < TWO_64 && t.frees < TWO_64 && t.bytesFreed < TWO_64
    && t.lifetime < TWO_64 && t.lifetimes < TWO_64
  }

  lemma TotalsExact(c: Collector, t: Totals)
    requires Totalled(c, t) && NoneWraps(t)
    ensures c.totalAllocations == t.allocations && c.bytesAllocated == t.bytesAllocated
    ensures c.totalFrees == t.frees && c.bytesFreed == t.bytesFreed
    ensures c.totalLifetime == t.lifetime && c.completedLifetimes == t.lifetimes
  {}

  lemma AbsorbedIsStep(s: System, o: Observation)
    ensures Absorbed(true, s, o) == Step(s, o)
  {}

  lemma WrittenDirectoryEnds(size: nat, events: seq<Event>, clock: nat -> bv64, dir: map<string, Bytes>)
    requires size >= MIN_SEGMENT_SIZE && AllValid(events)
    requires |Journal(size, events, clock)| <= MAX_ORDERED_SEGMENTS
    requires Closed(size, Journal(size, events, clock), |Journal(size, events, clock)|, dir)
    ensures ReadingEnds(dir)
    ensures forall paths | IsListing(dir, paths) ::
      && LoadSegment(Contents(dir, paths), FRESH).Loaded?
      && var all := ReadAll(Contents(dir, paths), LoadSegment(Contents(dir, paths), FRESH).cursor);
        all.Done? && EventsOf(all.found) == events
  {
    hide Closed, Journal, GoodSlot, Fits, ReadAll, LoadSegment, SegmentBytes, IsJournalFile;
    var segs := Journal(size, events, clock);
    JournalRoundTrip(size, events, clock);
    forall paths | IsListing(dir, paths)
      ensures Contents(dir, paths) == Files(size, segs)
    {
      ListingOfJournal(size, segs, dir, paths);
    }
  }

  /** Writing events to a journal and replaying it into a fresh, default-filtered analyzer
      gives the books of direct processing. */
  method WriteThenReplay(size: nat, events: seq<Event>, clock: nat -> bv64) returns (a: EventAnalyzer)
    requires size >= MIN_SEGMENT_SIZE && AllValid(events)
    requires |Journal(size, events, clock)| <= MAX_ORDERED_SEGMENTS
    ensures fresh(a) && a.stats != null && fresh(a.stats)
    ensures a.Books() == Run(ObserveAll(events))
  {
    hide Closed, Journal, ReadAll, LoadSegment, IsListing, ReadingEnds, HeardAll, Run, AllValid, AllFlagged,
         DispatchedAll;
    var dir := WriteJournal(size, events, clock);
    WrittenDirectoryEnds(size, events, clock, dir);
    var c := new StatisticsCollector();
    a := new EventAnalyzer(c);
    var d := new EventDispatcher();
    var token := d.Subscribe(a, MATCH_ALL);
    ghost var before := Now(d.subscribers);
    SoleListener(d.subscribers, before, Subscriber(token, a, MATCH_ALL));
    ghost var paths: seq<string>;
    var result: ReplayResult;
    result, paths := ReplayDirectory(Directory(dir), d);
    HeardIndependently(before, d.subscribers, AllFlagged(events), 0);
    InFootprint(d.subscribers, d.subscribers[0]);
    ReplayEqualsDirect(events);
  }

  lemma SoleListener(subs: seq<Subscriber>, w: World, sub: Subscriber)
    requires subs == [sub] && w == Now(subs)
    ensures Separate(subs) && AllKnown(w, subs) && Knows(w, sub.listener)
    ensures BooksIn(w, sub.listener) == sub.listener.Books()
  {
    InFootprint(subs, sub);
  }
}
