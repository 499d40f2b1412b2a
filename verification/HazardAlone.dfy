/** Hazard pointer calls that nothing interrupts: run to its end, each operation of the
    interleaved protocol does what the call does to the domain object. */
module HazardAlone {
  import opened HazardPointers
  import HP = HazardProtocol

  // ----- The writer on its own -----

  function Continues(s: HP.State, n: nat): HP.State
    decreases n
  {
    if n == 0 then s else Continues(HP.Step(s, HP.Continue), n - 1)
  }

  lemma {:induction false} ContinuesMore(s: HP.State, m: nat, n: nat)
    ensures Continues(s, m + n) == Continues(Continues(s, m), n)
    decreases m
  {
    hide HP.Step;
    if m > 0 { ContinuesMore(HP.Step(s, HP.Continue), m - 1, n); }
  }

  lemma FirstSteps(s: HP.State)
    ensures Continues(s, 1) == HP.Step(s, HP.Continue)
    ensures Continues(s, 2) == HP.Step(HP.Step(s, HP.Continue), HP.Continue)
  {
    hide HP.Step;
    assert Continues(HP.Step(s, HP.Continue), 1) == HP.Step(HP.Step(s, HP.Continue), HP.Continue);
  }

  /** The state after n more steps, with the writer at w. */
  function Later(s: HP.State, n: nat, w: HP.Writer): HP.State { s.(now := s.now + n, writer := w) }

  function Pointers(slots: seq<HP.Slot>): (r: seq<nat>)
    ensures |r| == |slots| && forall i :: 0 <= i < |slots| ==> r[i] == slots[i].pointer
  {
    seq(|slots|, i requires 0 <= i < |slots| => slots[i].pointer)
  }

  function Flags(slots: seq<HP.Slot>): (r: seq<bool>)
    ensures |r| == |slots| && forall i :: 0 <= i < |slots| ==> r[i] == slots[i].active
  {
    seq(|slots|, i requires 0 <= i < |slots| => slots[i].active)
  }

  /** What a scan of the first n slots collects. */
  function Collected(slots: seq<HP.Slot>, n: nat): seq<nat>
    requires n <= |slots|
  {
    Published(Pointers(slots)[..n], Flags(slots)[..n])
  }

  lemma CollectedNext(slots: seq<HP.Slot>, i: nat)
    requires i < |slots|
    ensures Collected(slots, i + 1)
            == if slots[i].active && slots[i].pointer != NULL then Collected(slots, i) + [slots[i].pointer]
               else Collected(slots, i)
  {
    var p, f := Pointers(slots), Flags(slots);
    assert p[..i + 1][..i] == p[..i] && f[..i + 1][..i] == f[..i];
  }

  lemma ScanOne(s: HP.State, i: nat, found: seq<nat>) returns (k: nat)
    requires s.writer == HP.Scanning(i, found) && i < |s.slots|
    ensures Continues(s, k)
            == Later(s, k, HP.Scanning(i + 1, if s.slots[i].active && s.slots[i].pointer != NULL
                                              then found + [s.slots[i].pointer] else found))
  {
    hide Continues;
    FirstSteps(s);
    k := if s.slots[i].active then 2 else 1;
  }

  lemma {:induction false} ScanAlone(s: HP.State, i: nat) returns (k: nat)
    requires i <= |s.slots| && s.writer == HP.Scanning(i, Collected(s.slots, i))
    ensures Continues(s, k) == Later(s, k, HP.Freeing(Collected(s.slots, |s.slots|), 0, []))
    decreases |s.slots| - i
  {
    hide Continues, Collected;
    if i == |s.slots| {
      k := 1;
      FirstSteps(s);
    } else {
      k := ScanOne(s, i, Collected(s.slots, i));
      CollectedNext(s.slots, i);
      hide HP.Step;
      var m := ScanAlone(Continues(s, k), i + 1);
      ContinuesMore(s, k, m);
      k := k + m;
    }
  }

  /** The entries a found pointer keeps, or the others, in order. */
  function Sorted(items: seq<HP.Item>, found: seq<nat>, keep: bool): seq<HP.Item> {
    if items == [] then []
    else
      var n := |items| - 1;
      if (items[n].ptr in found) == keep then Sorted(items[..n], found, keep) + [items[n]]
      else Sorted(items[..n], found, keep)
  }

  lemma SortedNext(items: seq<HP.Item>, found: seq<nat>, keep: bool, k: nat)
    requires k < |items|
    ensures Sorted(items[..k + 1], found, keep)
            == if (items[k].ptr in found) == keep then Sorted(items[..k], found, keep) + [items[k]]
               else Sorted(items[..k], found, keep)
  {
    assert items[..k + 1][..k] == items[..k];
  }

  lemma {:induction false} SweepAlone(s: HP.State, found: seq<nat>, k: nat, freed: seq<HP.Item>) returns (n: nat)
    requires k <= |s.retired| && s.writer == HP.Freeing(found, k, Sorted(s.retired[..k], found, true))
    requires s.freed == freed + Sorted(s.retired[..k], found, false)
    ensures Continues(s, n)
            == Later(s.(retired := Sorted(s.retired, found, true), freed := freed + Sorted(s.retired, found, false)),
                     n, HP.Idle(found))
    decreases |s.retired| - k
  {
    hide Continues, Sorted;
    FirstSteps(s);
    if k == |s.retired| {
      n := 1;
      assert s.retired[..k] == s.retired;
    } else {
      SortedNext(s.retired, found, true, k);
      SortedNext(s.retired, found, false, k);
      var s' := HP.Step(s, HP.Continue);
      hide HP.Step;
      var m := SweepAlone(s', found, k + 1, freed);
      ContinuesMore(s, 1, m);
      n := 1 + m;
    }
  }

  /** The scan and the sweep together: what is published stays, the rest is freed, in order. */
  lemma ReclaimAlone(s: HP.State) returns (n: nat)
    requires s.writer == HP.Scanning(0, [])
    ensures var found := Published(Pointers(s.slots), Flags(s.slots));
      Continues(s, n)
      == Later(s.(retired := Sorted(s.retired, found, true), freed := s.freed + Sorted(s.retired, found, false)),
               n, HP.Idle(found))
  {
    NothingYet(s);
    hide Continues, Collected, Sorted, HP.Step;
    var found := Collected(s.slots, |s.slots|);
    var k := ScanAlone(s, 0);
    var m := SweepAlone(Continues(s, k), found, 0, s.freed);
    ContinuesMore(s, k, m);
    n := k + m;
  }

  lemma NothingYet(s: HP.State)
    ensures Collected(s.slots, 0) == [] && s.retired[..0] == []
    ensures Collected(s.slots, |s.slots|) == Published(Pointers(s.slots), Flags(s.slots))
    ensures forall found, keep :: Sorted([], found, keep) == []
  {
    var p, f := Pointers(s.slots), Flags(s.slots);
    assert p[..|p|] == p && f[..|f|] == f;
  }

  // ----- The domain object -----

  function Addresses(items: seq<HP.Item>): (r: seq<nat>)
    ensures |r| == |items| && forall i :: 0 <= i < |items| ==> r[i] == items[i].ptr
  {
    seq(|items|, i requires 0 <= i < |items| => items[i].ptr)
  }

  lemma {:induction false} SortedAddresses(items: seq<HP.Item>, found: seq<nat>)
    ensures Addresses(Sorted(items, found, true)) == Survivors(Addresses(items), found)
    ensures Addresses(Sorted(items, found, false)) == Victims(Addresses(items), found)
  {
    if items != [] {
      var n := |items| - 1;
      SortedAddresses(items[..n], found);
      assert Addresses(items)[..n] == Addresses(items[..n]);
    }
  }

  lemma AddressesJoin(a: seq<HP.Item>, b: seq<HP.Item>)
    ensures Addresses(a + b) == Addresses(a) + Addresses(b)
  {}

  /** The object is in the state of the machine, and no call of the writer is under way. */
  ghost predicate Pictures(d: HazardPointerDomain, s: HP.State)
    reads d, d.pointers, d.active
  {
    && d.Valid() && s.writer.Idle? && d.pointers[..] == Pointers(s.slots) && d.active[..] == Flags(s.slots)
    && d.retired == Addresses(s.retired) && d.freed == Addresses(s.freed)
  }

  /** Publishing a pointer; clearing is publishing the null pointer. */
  method ProtectAgrees(d: HazardPointerDomain, s: HP.State, i: nat, p: nat)
    requires Pictures(d, s)
    modifies d.pointers
    ensures d.pointers == old(d.pointers) && Pictures(d, HP.Step(s, HP.Store(i, p)))
  {
    if p == NULL { d.Clear(i); } else { d.Protect(i, p); }
  }

  /** Giving a slot back, which is two stores. */
  method ReleaseAgrees(d: HazardPointerDomain, s: HP.State, i: nat)
    requires Pictures(d, s)
    modifies d.pointers, d.active
    ensures d.pointers == old(d.pointers) && d.active == old(d.active)
    ensures Pictures(d, HP.Step(HP.Step(s, HP.Store(i, NULL)), HP.Deactivate(i)))
  {
    d.ReleaseSlot(i);
    ghost var s' := HP.Step(s, HP.Store(i, NULL));
    assert Flags(s'.slots) == Flags(s.slots);
  }

  /** Acquiring: exchanges on slot 0, 1, 2, ... until one succeeds. */
  method AcquireAgrees(d: HazardPointerDomain, s: HP.State) returns (i: nat)
    requires Pictures(d, s)
    modifies d.active
    ensures i <= MAX_SLOTS && d.pointers == old(d.pointers) && d.active == old(d.active)
    ensures forall j :: 0 <= j < i ==> HP.Step(s, HP.Acquire(j)).slots == s.slots
    ensures i < MAX_SLOTS ==> !s.slots[i].active && Pictures(d, HP.Step(s, HP.Acquire(i)))
    ensures i == MAX_SLOTS ==> Pictures(d, s)
  {
    i := d.AcquireSlot();
    forall j | 0 <= j < i ensures HP.Step(s, HP.Acquire(j)).slots == s.slots {
      assert s.slots[j].active;
    }
  }

  /** The scan and the sweep, seen from the object. */
  lemma ReclaimedAddresses(s: HP.State) returns (n: nat)
    requires s.writer == HP.Scanning(0, [])
    ensures var found, s' := Published(Pointers(s.slots), Flags(s.slots)), Continues(s, n);
      && s'.writer.Idle? && s'.slots == s.slots
      && Addresses(s'.retired) == Survivors(Addresses(s.retired), found)
      && Addresses(s'.freed) == Addresses(s.freed) + Victims(Addresses(s.retired), found)
  {
    hide Continues, Sorted, Survivors, Victims, Published;
    var found := Published(Pointers(s.slots), Flags(s.slots));
    n := ReclaimAlone(s);
    SortedAddresses(s.retired, found);
    AddressesJoin(s.freed, Sorted(s.retired, found, false));
  }

  lemma RetireBegins(s: HP.State, p: nat)
    requires s.writer.Idle?
    ensures var s' := HP.Step(s, HP.Retire(p));
      if p == NULL then s' == s
      else
        && s'.writer == HP.Scanning(0, []) && s'.slots == s.slots && s'.freed == s.freed
        && Addresses(s'.retired) == Addresses(s.retired) + [p]
  {}

  /** Retiring a pointer, from start to end. */
  method RetireAgrees(d: HazardPointerDomain, s: HP.State, p: nat) returns (ghost n: nat)
    requires Pictures(d, s)
    modifies d
    ensures d.pointers == old(d.pointers) && d.active == old(d.active)
    ensures Pictures(d, Continues(HP.Step(s, HP.Retire(p)), n))
  {
    hide HP.Step, Survivors, Victims, Published;
    ghost var first := HP.Step(s, HP.Retire(p));
    RetireBegins(s, p);
    n := 0;
    if p != NULL {
      hide Continues;
      n := ReclaimedAddresses(first);
    }
    d.Retire(p, true);
  }

  lemma ReclaimBegins(s: HP.State)
    requires s.writer.Idle?
    ensures var s' := HP.Step(s, HP.Reclaim);
      if s.retired == [] then s' == s
      else s' == s.(now := s'.now, writer := HP.Scanning(0, []))
  {}

  /** Reclaiming, from start to end. */
  method ReclaimAgrees(d: HazardPointerDomain, s: HP.State) returns (ghost n: nat)
    requires Pictures(d, s)
    modifies d
    ensures d.pointers == old(d.pointers) && d.active == old(d.active)
    ensures Pictures(d, Continues(HP.Step(s, HP.Reclaim), n))
  {
    hide HP.Step, Survivors, Victims, Published;
    ghost var first := HP.Step(s, HP.Reclaim);
    ReclaimBegins(s);
    NothingRetired(d.Hazards());
    n := 0;
    if s.retired != [] {
      hide Continues;
      n := ReclaimedAddresses(first);
    }
    var _ := d.Reclaim();
  }
}
