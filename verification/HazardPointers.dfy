/** A hazard pointer domain: published slots, the retired list, and what a reclaim frees. */
module HazardPointers {

  const MAX_SLOTS: nat := 128
  const NULL: nat := 0

  // ----- One domain -----

  /** Pointers published by active slots, in slot order. */
  function Published(pointers: seq<nat>, active: seq<bool>): seq<nat>
    requires |pointers| == |active|
  {
    if pointers == [] then []
    else
      var n := |pointers| - 1;
      Published(pointers[..n], active[..n]) + if active[n] && pointers[n] != NULL then [pointers[n]] else []
  }

  /** The entries that stay behind, and the entries that are freed, in their order. */
  function Survivors(retired: seq<nat>, published: seq<nat>): seq<nat> {
    if retired == [] then []
    else
      var n := |retired| - 1;
      Survivors(retired[..n], published) + if retired[n] in published then [retired[n]] else []
  }

  function Victims(retired: seq<nat>, published: seq<nat>): seq<nat> {
    if retired == [] then []
    else
      var n := |retired| - 1;
      Victims(retired[..n], published) + if retired[n] in published then [] else [retired[n]]
  }

  ghost predicate Holds(pointers: seq<nat>, active: seq<bool>, p: nat)
    requires |pointers| == |active|
  {
    exists i :: 0 <= i < |pointers| && active[i] && pointers[i] == p
  }

  lemma HoldsLast(pointers: seq<nat>, active: seq<bool>, p: nat)
    requires |pointers| == |active| > 0
    ensures var n := |pointers| - 1;
      Holds(pointers, active, p) <==> Holds(pointers[..n], active[..n], p) || (active[n] && pointers[n] == p)
  {
    var n := |pointers| - 1;
    if Holds(pointers, active, p) {
      var i :| 0 <= i < |pointers| && active[i] && pointers[i] == p;
      if i < n { assert active[..n][i] && pointers[..n][i] == p; }
    }
    if Holds(pointers[..n], active[..n], p) {
      var i :| 0 <= i < n && active[..n][i] && pointers[..n][i] == p;
      assert active[i] && pointers[i] == p;
    }
  }

  lemma {:induction false} PublishedIff(pointers: seq<nat>, active: seq<bool>, p: nat)
    requires |pointers| == |active|
    ensures p in Published(pointers, active) <==> p != NULL && Holds(pointers, active, p)
  {
    if pointers != [] {
      hide Holds;
      var n := |pointers| - 1;
      PublishedIff(pointers[..n], active[..n], p);
      HoldsLast(pointers, active, p);
    }
  }

  /** Nothing is lost or freed twice: each entry is on exactly one side, published pointers
      stay and the others go. */
  lemma {:induction false} SplitByPublished(retired: seq<nat>, published: seq<nat>)
    ensures multiset(Survivors(retired, published)) + multiset(Victims(retired, published)) == multiset(retired)
    ensures forall p :: p in Survivors(retired, published) ==> p in published
    ensures forall p :: p in Victims(retired, published) ==> p !in published
  {
    if retired != [] {
      var n := |retired| - 1;
      SplitByPublished(retired[..n], published);
      assert retired == retired[..n] + [retired[n]];
    }
  }

  lemma NothingRetired(published: seq<nat>)
    ensures Survivors([], published) == Victims([], published) == []
  {}

  lemma SplitNext(retired: seq<nat>, published: seq<nat>, k: nat)
    requires k < |retired|
    ensures Survivors(retired[..k + 1], published)
            == if retired[k] in published then Survivors(retired[..k], published) + [retired[k]]
               else Survivors(retired[..k], published)
    ensures Victims(retired[..k + 1], published)
            == if retired[k] in published then Victims(retired[..k], published)
               else Victims(retired[..k], published) + [retired[k]]
  {
    assert retired[..k + 1][..k] == retired[..k];
  }

  class HazardPointerDomain {
    var pointers: array<nat>
    var active: array<bool>
    var retired: seq<nat>
    var freed: seq<nat>      // arguments the deleters were called with

    ghost predicate Valid()
      reads this
    {
      pointers.Length == active.Length == MAX_SLOTS
    }

    ghost function Hazards(): seq<nat>
      requires Valid()
      reads this, pointers, active
    {
      Published(pointers[..], active[..])
    }

    constructor ()
      ensures Valid() && fresh(pointers) && fresh(active) && retired == freed == [] && Hazards() == []
    {
      pointers := new nat[MAX_SLOTS](_ => NULL);
      active := new bool[MAX_SLOTS](_ => false);
      retired, freed := [], [];
      new;
      NoHazards(pointers[..], active[..]);
    }

    /** The first inactive slot, now active; MAX_SLOTS when there is none. */
    method AcquireSlot() returns (i: nat)
      requires Valid()
      modifies active
      ensures i <= MAX_SLOTS && forall j :: 0 <= j < i ==> old(active[j])
      ensures i < MAX_SLOTS ==> !old(active[i])
      ensures active[..] == if i < MAX_SLOTS then old(active[..])[i := true] else old(active[..])
    {
      i := 0;
      while i < MAX_SLOTS
        invariant i <= MAX_SLOTS && active[..] == old(active[..])
        invariant forall j :: 0 <= j < i ==> old(active[j])
      {
        if !active[i] {
          active[i] := true;
          return;
        }
        i := i + 1;
      }
    }

    method ReleaseSlot(i: nat)
      requires Valid()
      modifies pointers, active
      ensures pointers[..] == if i < MAX_SLOTS then old(pointers[..])[i := NULL] else old(pointers[..])
      ensures active[..] == if i < MAX_SLOTS then old(active[..])[i := false] else old(active[..])
    {
      if i < MAX_SLOTS {
        pointers[i] := NULL;
        active[i] := false;
      }
    }

    method Protect(i: nat, p: nat)
      requires Valid()
      modifies pointers
      ensures pointers[..] == if i < MAX_SLOTS then old(pointers[..])[i := p] else old(pointers[..])
    {
      if i < MAX_SLOTS { pointers[i] := p; }
    }

    method Clear(i: nat)
      requires Valid()
      modifies pointers
      ensures pointers[..] == if i < MAX_SLOTS then old(pointers[..])[i := NULL] else old(pointers[..])
    {
      if i < MAX_SLOTS { pointers[i] := NULL; }
    }

    /** Queue a pointer and reclaim; a null pointer or a missing deleter does nothing. */
    method Retire(p: nat, hasDeleter: bool)
      requires Valid()
      modifies this`retired, this`freed
      ensures p == NULL || !hasDeleter ==> retired == old(retired) && freed == old(freed)
      ensures p != NULL && hasDeleter ==>
                retired == Survivors(old(retired) + [p], Hazards())
                && freed == old(freed) + Victims(old(retired) + [p], Hazards())
    {
      if p == NULL || !hasDeleter { return; }
      retired := retired + [p];
      var _ := Reclaim();
    }

    /** Exactly the entries no active slot publishes are freed, in order; the rest stay. */
    method Reclaim() returns (count: nat)
      requires Valid()
      modifies this`retired, this`freed
      ensures retired == Survivors(old(retired), Hazards())
      ensures freed == old(freed) + Victims(old(retired), Hazards())
      ensures count == |Victims(old(retired), Hazards())|
    {
      hide Survivors, Victims, Published;
      if retired == [] { NothingRetired(Hazards()); return 0; }
      var published := CollectPublished();
      var kept;
      kept, count := Sweep(published);
      retired := kept;
    }

    method Sweep(published: seq<nat>) returns (kept: seq<nat>, count: nat)
      modifies this`freed
      ensures kept == Survivors(retired, published)
      ensures freed == old(freed) + Victims(retired, published) && count == |Victims(retired, published)|
    {
      hide Survivors, Victims;
      kept, count := [], 0;
      NothingRetired(published);
      for k := 0 to |retired|
        invariant kept == Survivors(retired[..k], published)
        invariant freed == old(freed) + Victims(retired[..k], published) && count == |Victims(retired[..k], published)|
      {
        SplitNext(retired, published, k);
        var isProtected := Contains(published, retired[k]);
        if isProtected {
          kept := kept + [retired[k]];
        } else {
          freed := freed + [retired[k]];
          count := count + 1;
        }
      }
      assert retired[..|retired|] == retired;
    }

    method CollectPublished() returns (published: seq<nat>)
      requires Valid()
      ensures published == Hazards()
    {
      published := [];
      for i := 0 to MAX_SLOTS
        invariant published == Published(pointers[..i], active[..i])
      {
        assert pointers[..i + 1][..i] == pointers[..i] && active[..i + 1][..i] == active[..i];
        if active[i] {
          var p := pointers[i];
          if p != NULL { published := published + [p]; }
        }
      }
      assert pointers[..MAX_SLOTS] == pointers[..] && active[..MAX_SLOTS] == active[..];
    }
  }

  method Contains(items: seq<nat>, p: nat) returns (found: bool)
    ensures found <==> p in items
  {
    found := false;
    for k := 0 to |items|
      invariant !found && p !in items[..k]
    {
      if items[k] == p { return true; }
    }
  }

  lemma {:induction false} NoHazards(pointers: seq<nat>, active: seq<bool>)
    requires |pointers| == |active| && forall i :: 0 <= i < |active| ==> !active[i]
    ensures Published(pointers, active) == []
  {
    if pointers != [] { NoHazards(pointers[..|pointers| - 1], active[..|active| - 1]); }
  }
}
