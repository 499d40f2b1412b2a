/** When handles stand for strings: over whole lists of calls, exactly as long as no lookup
    happens after the arena has moved away from under its index. */
module InternerAgreement {
  import opened StringInterner

  /** Handles are equal exactly when the strings are. */
  ghost predicate Agrees(list: seq<string>, handles: seq<nat>) {
    && |handles| == |list|
    && forall i, j :: 0 <= i < |list| && 0 <= j < |list| ==> (handles[i] == handles[j] <==> list[i] == list[j])
  }

  /** The strings held after interning a list: each nonempty one once. */
  function Collected(strings: seq<string>, list: seq<string>): seq<string> {
    if list == [] then strings
    else
      var s, before := list[|list| - 1], Collected(strings, list[..|list| - 1]);
      if s == "" || s in before then before else before + [s]
  }

  /** Bytes the distinct nonempty strings of a list take in the arena. */
  function Needed(list: seq<string>): nat { Size(Collected([], list)) }

  ghost predicate AllNamed(strings: seq<string>, handles: seq<nat>, list: seq<string>) {
    |handles| == |list| && forall i :: 0 <= i < |list| ==> Names(strings, handles[i], list[i])
  }

  lemma AllNamedNext(before: seq<string>, after: seq<string>, handles: seq<nat>, list: seq<string>, handle: nat)
    requires list != [] && AllNamed(before, handles, list[..|list| - 1]) && before <= after
    requires Names(after, handle, list[|list| - 1])
    ensures AllNamed(after, handles + [handle], list)
  {}

  lemma NamedAgrees(strings: seq<string>, handles: seq<nat>, list: seq<string>)
    requires AllNamed(strings, handles, list) && Distinct(strings)
    ensures Agrees(list, handles)
  {
    hide Names, Distinct;
    forall i, j | 0 <= i < |list| && 0 <= j < |list| ensures handles[i] == handles[j] <==> list[i] == list[j] {
      NamesUnique(strings, handles[i], list[i], handles[j], list[j]);
    }
  }

  lemma {:induction false} CollectedGrows(strings: seq<string>, list: seq<string>, k: nat)
    requires k <= |list|
    ensures Collected(strings, list[..k]) <= Collected(strings, list)
    ensures Size(Collected(strings, list[..k])) <= Size(Collected(strings, list))
  {
    hide Size;
    if k < |list| {
      var n := |list| - 1;
      CollectedGrows(strings, list[..n], k);
      assert list[..n][..k] == list[..k];
      SizeNext(Collected(strings, list[..n]), list[n]);
    } else {
      assert list[..k] == list;
    }
  }

  /** Interning a list whose new strings fit the reservation, however often they repeat. */
  method InternAll(interner: Interner, list: seq<string>, ws: nat -> Surroundings) returns (handles: seq<nat>)
    requires interner.Reliable() && Size(Collected(interner.strings, list)) <= interner.capacity
    requires Size(Collected(interner.strings, list)) + 1 < HANDLES
    modifies interner
    ensures interner.Reliable() && interner.strings == Collected(old(interner.strings), list)
    ensures AllNamed(interner.strings, handles, list) && Agrees(list, handles)
  {
    hide Kept, Names, Size, Distinct;
    handles := [];
    for k := 0 to |list|
      invariant interner.Reliable() && interner.capacity == old(interner.capacity)
      invariant interner.strings == Collected(old(interner.strings), list[..k])
      invariant AllNamed(interner.strings, handles, list[..k])
    {
      assert list[..k + 1][..k] == list[..k];
      CollectedGrows(old(interner.strings), list, k + 1);
      ghost var before := interner.strings;
      SizeNext(before, list[k]);
      KeptSize(interner.arena, interner.offsets, before);
      var handle := interner.Intern(list[k], ws(k));
      AllNamedNext(before, interner.strings, handles, list[..k + 1], handle);
      handles := handles + [handle];
    }
    assert list[..|list|] == list;
    NamedAgrees(interner.strings, handles, list);
  }

  lemma KeptSize(arena: string, offsets: seq<nat>, strings: seq<string>)
    requires Kept(arena, offsets, strings)
    ensures |arena| == Size(strings)
  {}

  // ----- Runs of a fresh interner -----

  /** The table and the handles after interning a list, call n in surroundings ws(n). */
  function Calls(t: Table, list: seq<string>, ws: nat -> Surroundings): (Table, seq<nat>) {
    if list == [] then (t, [])
    else
      var n := |list| - 1;
      var before := Calls(t, list[..n], ws);
      var r := Interned(before.0, list[n], ws(n));
      (r.0, before.1 + [r.1])
  }

  /** Capacity once the first string is stored: a reservation that is too small for it is
      replaced before there is a view to dangle. */
  function Effective(capacity: nat, list: seq<string>): nat {
    var strings := Collected([], list);
    if strings == [] || |strings[0]| + 1 <= capacity then capacity else |strings[0]| + 1
  }

  /** No call looks a string up after the strings before it have outgrown the capacity. */
  predicate NoLookupAfterMove(capacity: nat, list: seq<string>) {
    forall k :: 0 <= k < |list| && list[k] != "" ==> Needed(list[..k]) <= capacity
  }

  /** What a run without such a lookup leaves, for a capacity e that is effective. */
  ghost predicate Tidy(c: nat, e: nat, list: seq<string>, t: Table, handles: seq<nat>, exact: bool) {
    var strings := Collected([], list);
    && Holds(t, strings) && AllNamed(strings, handles, list) && |strings| <= e + 1
    && (strings == [] ==> t == Empty(c))
    && (strings != [] && Size(strings) <= e ==> t.stale == 0 && t.capacity >= e && (exact ==> t.capacity == e))
    && (exact && Size(strings) > e ==> t.stale > 0)
  }

  lemma StartsTidy(c: nat, e: nat, exact: bool)
    ensures Tidy(c, e, [], Empty(c), [], exact)
  {}

  ghost predicate EffectiveFor(c: nat, e: nat, list: seq<string>) {
    c <= e && e + 1 < HANDLES && (Collected([], list) != [] ==> e == Effective(c, list))
  }

  lemma EffectiveBefore(c: nat, e: nat, list: seq<string>)
    requires list != [] && EffectiveFor(c, e, list)
    ensures EffectiveFor(c, e, list[..|list| - 1])
  {}

  /** Storing a new string in a tidy table. */
  lemma StoreStaysTidy(c: nat, e: nat, list: seq<string>, t: Table, handles: seq<nat>, w: Surroundings, exact: bool)
    requires list != [] && EffectiveFor(c, e, list) && (exact ==> e == c || w.spare == 0)
    requires Tidy(c, e, list[..|list| - 1], t, handles, exact) && Needed(list[..|list| - 1]) <= e
    requires list[|list| - 1] != "" && list[|list| - 1] !in Collected([], list[..|list| - 1])
    ensures var r := Interned(t, list[|list| - 1], w);
      Tidy(c, e, list, r.0, handles + [r.1], exact)
  {
    hide Kept, Names, Size, Found, Indexed, Distinct;
    var n := |list| - 1;
    var s, before := list[n], Collected([], list[..n]);
    KeptSize(t.arena, t.offsets, before);
    NothingCollected();
    InternedNames(t, before, s, w);
    SizeNext(before, s);
    SizeCounts(before);
    AllNamedNext(before, before + [s], handles, list, Interned(t, s, w).1);
    ViewsMatch(t, before);
  }

  lemma NothingCollected()
    ensures Size([]) == 0
  {}

  lemma ViewsMatch(t: Table, strings: seq<string>)
    requires Holds(t, strings)
    ensures |t.views| == |strings|
  {}

  /** A call that stores nothing. */
  lemma KnownStaysTidy(c: nat, e: nat, list: seq<string>, t: Table, handles: seq<nat>, w: Surroundings, exact: bool)
    requires list != [] && Tidy(c, e, list[..|list| - 1], t, handles, exact) && e + 1 < HANDLES
    requires list[|list| - 1] == ""
             || (Needed(list[..|list| - 1]) <= e && list[|list| - 1] in Collected([], list[..|list| - 1]))
    ensures var r := Interned(t, list[|list| - 1], w);
      Tidy(c, e, list, r.0, handles + [r.1], exact)
  {
    hide Kept, Size, Found, Indexed, Distinct;
    var n := |list| - 1;
    var s, before := list[n], Collected([], list[..n]);
    if s != "" {
      KeptSize(t.arena, t.offsets, before);
      InternedNames(t, before, s, w);
    }
    AllNamedNext(before, before, handles, list, Interned(t, s, w).1);
  }

  lemma {:induction false} RunIsTidy(c: nat, e: nat, list: seq<string>, ws: nat -> Surroundings, exact: bool)
    requires EffectiveFor(c, e, list) && NoLookupAfterMove(e, list)
    requires exact ==> e == c || forall n :: ws(n).spare == 0
    ensures var r := Calls(Empty(c), list, ws); Tidy(c, e, list, r.0, r.1, exact)
  {
    hide Tidy, Interned, EffectiveFor;
    if list == [] {
      StartsTidy(c, e, exact);
    } else {
      var n := |list| - 1;
      EffectiveBefore(c, e, list);
      forall k | 0 <= k < n && list[..n][k] != "" ensures Needed(list[..n][..k]) <= e {
        assert list[..n][..k] == list[..k] && list[k] != "";
      }
      RunIsTidy(c, e, list[..n], ws, exact);
      var before := Calls(Empty(c), list[..n], ws);
      if list[n] == "" || list[n] in Collected([], list[..n]) {
        SmallE(c, e, list);
        KnownStaysTidy(c, e, list, before.0, before.1, ws(n), exact);
      } else {
        StoreStaysTidy(c, e, list, before.0, before.1, ws(n), exact);
      }
    }
  }

  lemma SmallE(c: nat, e: nat, list: seq<string>)
    requires EffectiveFor(c, e, list)
    ensures e + 1 < HANDLES
  {}

  lemma {:induction false} CallsPrefix(t: Table, list: seq<string>, ws: nat -> Surroundings, k: nat)
    requires k <= |list|
    ensures |Calls(t, list, ws).1| == |list| && Calls(t, list[..k], ws).1 == Calls(t, list, ws).1[..k]
  {
    hide Interned;
    if k < |list| {
      var n := |list| - 1;
      CallsPrefix(t, list[..n], ws, k);
      assert list[..n][..k] == list[..k];
    } else {
      assert list[..k] == list;
      if list != [] { CallsPrefix(t, list[..k - 1], ws, 0); }
    }
  }

  lemma {:induction false} CollectedFrom(list: seq<string>, s: string)
    ensures s in Collected([], list) <==> s in list && s != ""
  {
    if list != [] {
      var n := |list| - 1;
      CollectedFrom(list[..n], s);
      assert list == list[..n] + [list[n]];
    }
  }

  // ----- The call that goes wrong -----

  lemma {:induction false} FoundSkips(t: Table, k: nat, s: string, w: Surroundings)
    requires k <= t.stale <= |t.views| && forall v :: !w.stray(v)
    ensures Found(t, k, s, w) == Found(t, t.stale, s, w)
    decreases t.stale - k
  {
    if k < t.stale { FoundSkips(t, k + 1, s, w); }
  }

  /** With a dangling view in front, freed memory decides: a match returns the first string's
      handle for another string, a mismatch stores the first string a second time. */
  lemma LookupGoesWrong(t: Table, strings: seq<string>, s: string, w: Surroundings)
    requires Holds(t, strings) && 0 < t.stale && 0 < |strings| < HANDLES && s != ""
    requires forall v :: w.stray(v) == (s != strings[0])
    ensures Interned(t, s, w).1 == 1 <==> s != strings[0]
  {
    hide Kept;
    if s != strings[0] {
      assert Found(t, 0, s, w) == 0;
    } else {
      FoundSkips(t, 0, s, w);
      FoundIff(t, strings, t.stale, s, w);
      NewHandleIsNotOne(|t.offsets|);
    }
  }

  lemma NewHandleIsNotOne(n: nat)
    requires 2 <= n <= HANDLES
    ensures Truncate(n) != 1
  {}

  lemma FirstIsOne(strings: seq<string>, handle: nat)
    requires strings != [] && Distinct(strings) && Names(strings, handle, strings[0]) && strings[0] != ""
    ensures handle == 1
  {}

  /** If some call looks a string up after the move, there is freed memory that breaks the
      agreement between handles and strings at that call. */
  lemma MemoryThatBreaksAgreement(c: nat, list: seq<string>) returns (ws: nat -> Surroundings)
    requires Effective(c, list) + 1 < HANDLES && !NoLookupAfterMove(Effective(c, list), list)
    ensures !Agrees(list, Calls(Empty(c), list, ws).1)
  {
    var e := Effective(c, list);
    var k := FirstLate(e, list);
    var pre, s := list[..k], list[k];
    CollectedGrows([], list, k);
    var strings := Collected([], pre);
    assert strings != [] by { NothingCollected(); }
    var stray := s != strings[0];
    ws := _ => Surroundings(_ => stray, 0);
    LateCallBreaks(c, e, list, k, ws);
  }

  lemma {:induction false} FirstLate(e: nat, list: seq<string>) returns (k: nat)
    requires !NoLookupAfterMove(e, list)
    ensures k < |list| && list[k] != "" && Needed(list[..k]) > e && NoLookupAfterMove(e, list[..k])
  {
    k :| 0 <= k < |list| && list[k] != "" && Needed(list[..k]) > e;
    if !NoLookupAfterMove(e, list[..k]) {
      var j := FirstLate(e, list[..k]);
      assert list[..k][..j] == list[..j];
      k := j;
    }
  }

  lemma LateCallBreaks(c: nat, e: nat, list: seq<string>, k: nat, ws: nat -> Surroundings)
    requires e == Effective(c, list) && e + 1 < HANDLES && k < |list| && list[k] != ""
    requires Needed(list[..k]) > e && NoLookupAfterMove(e, list[..k]) && Collected([], list[..k]) != []
    requires forall n :: ws(n).spare == 0 && forall v :: ws(n).stray(v) == (list[k] != Collected([], list[..k])[0])
    ensures !Agrees(list, Calls(Empty(c), list, ws).1)
  {
    hide NoLookupAfterMove, Interned, Holds, Calls;
    var pre, s := list[..k], list[k];
    CollectedGrows([], list, k);
    var i := FirstGotOne(c, e, pre, ws);
    var r, all := Calls(Empty(c), pre, ws), Calls(Empty(c), list, ws);
    LookupGoesWrong(r.0, Collected([], pre), s, ws(k));
    CallsPrefix(Empty(c), list, ws, k);
    CallAt(Empty(c), list, ws, k);
    assert all.1[i] == all.1[..k][i] == 1;
  }

  lemma FirstGotOne(c: nat, e: nat, list: seq<string>, ws: nat -> Surroundings) returns (i: nat)
    requires EffectiveFor(c, e, list) && NoLookupAfterMove(e, list) && Collected([], list) != [] && Needed(list) > e
    requires forall n :: ws(n).spare == 0
    ensures var r, strings := Calls(Empty(c), list, ws), Collected([], list);
      && Holds(r.0, strings) && r.0.stale > 0 && |strings| < HANDLES
      && i < |list| == |r.1| && list[i] == strings[0] && r.1[i] == 1
  {
    hide NoLookupAfterMove, Calls, Kept;
    RunIsTidy(c, e, list, ws, true);
    var strings := Collected([], list);
    CollectedFrom(list, strings[0]);
    i :| 0 <= i < |list| && list[i] == strings[0];
    FirstIsOne(strings, Calls(Empty(c), list, ws).1[i]);
  }

  lemma CallAt(t: Table, list: seq<string>, ws: nat -> Surroundings, k: nat)
    requires k < |list|
    ensures |Calls(t, list, ws).1| == |list|
    ensures Calls(t, list, ws).1[k] == Interned(Calls(t, list[..k], ws).0, list[k], ws(k)).1
  {
    hide Interned;
    CallsPrefix(t, list, ws, k + 1);
    CallsPrefix(t, list[..k], ws, 0);
    assert list[..k + 1][..k] == list[..k];
    assert Calls(t, list, ws).1[k] == Calls(t, list, ws).1[..k + 1][k];
  }

  lemma StaleStays(t: Table, s: string, w: Surroundings)
    requires 0 < t.stale <= |t.views|
    ensures 0 < Interned(t, s, w).0.stale <= |Interned(t, s, w).0.views|
  {}

  lemma {:induction false} StaleBounded(c: nat, list: seq<string>, ws: nat -> Surroundings)
    ensures Calls(Empty(c), list, ws).0.stale <= |Calls(Empty(c), list, ws).0.views|
  {
    if list != [] { StaleBounded(c, list[..|list| - 1], ws); }
  }

  /** With a reservation that holds the first string, views dangle after a list of calls exactly
      when the distinct strings of the list do not fit, whatever happened in between. */
  lemma {:induction false} DanglesIff(c: nat, list: seq<string>, ws: nat -> Surroundings)
    requires Effective(c, list) == c && c + 1 < HANDLES
    ensures Calls(Empty(c), list, ws).0.stale > 0 <==> Needed(list) > c
  {
    hide Interned, Tidy;
    if list == [] {
      NothingCollected();
    } else {
      var n := |list| - 1;
      var before := list[..n];
      CollectedGrows([], list, n);
      DanglesIff(c, before, ws);
      if Needed(before) > c {
        StaleBounded(c, before, ws);
        StaleStays(Calls(Empty(c), before, ws).0, list[n], ws(n));
      } else {
        forall k | 0 <= k < |list| && list[k] != "" ensures Needed(list[..k]) <= c {
          CollectedGrows([], before, k);
          assert before[..k] == list[..k];
        }
        RunIsTidy(c, c, list, ws, true);
        TidyStale(c, list, Calls(Empty(c), list, ws).0, Calls(Empty(c), list, ws).1);
      }
    }
  }

  lemma TidyStale(c: nat, list: seq<string>, t: Table, handles: seq<nat>)
    requires Tidy(c, c, list, t, handles, true)
    ensures t.stale > 0 <==> Needed(list) > c
  {}

  /** For a fresh interner whose arena stays below 4 GiB, handles agree with strings whatever
      freed memory holds and however much a growing arena reserves, exactly when no call looks
      a string up after the strings before it have outgrown the capacity. */
  lemma AgreementIff(c: nat, list: seq<string>)
    requires Effective(c, list) + 1 < HANDLES
    ensures (forall ws: nat -> Surroundings :: Agrees(list, Calls(Empty(c), list, ws).1))
            <==> NoLookupAfterMove(Effective(c, list), list)
  {
    hide Agrees, Calls, NoLookupAfterMove;
    if NoLookupAfterMove(Effective(c, list), list) {
      forall ws: nat -> Surroundings ensures Agrees(list, Calls(Empty(c), list, ws).1) {
        RunIsTidy(c, Effective(c, list), list, ws, false);
        NamedAgrees(Collected([], list), Calls(Empty(c), list, ws).1, list);
      }
    } else {
      var ws := MemoryThatBreaksAgreement(c, list);
    }
  }

  /** Four bytes of capacity, three one-character strings, and the first one again. */
  lemma OutgrownExample() returns (ws: nat -> Surroundings)
    ensures var list := ["a", "b", "c", "a"];
      !NoLookupAfterMove(4, list) && !Agrees(list, Calls(Empty(4), list, ws).1)
  {
    var list := ["a", "b", "c", "a"];
    ThreeLetters();
    assert list[..3] == ["a", "b", "c"] && list[3] != "";
    assert Effective(4, list) == 4 by { CollectedGrows([], list, 3); }
    ws := MemoryThatBreaksAgreement(4, list);
  }

  lemma ThreeLetters()
    ensures Collected([], ["a", "b", "c"]) == ["a", "b", "c"] && Needed(["a", "b", "c"]) == 6
  {
    assert ["a", "b", "c"][..2] == ["a", "b"] && ["a", "b"][..1] == ["a"] && ["a"][..0] == [];
    assert Collected([], ["a"]) == ["a"];
    assert Collected([], ["a", "b"]) == ["a", "b"];
    assert Size(["a"]) == 2 && Size(["a", "b"]) == 4;
  }
}
