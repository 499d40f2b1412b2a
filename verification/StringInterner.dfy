/** The arena string interner: a table of views into the arena, looked up by the bytes they
    point at, and handles that resolve to the bytes up to the first NUL. */
module StringInterner {

  const NUL: char := '\0'
  const HANDLES: nat := 0x1_0000_0000   // handles and offsets are 32-bit

  function Truncate(n: nat): (r: nat)
    ensures r <= n
  {
    n % HANDLES
  }

  /** The string before its first NUL: what a C string of these bytes denotes. */
  function BeforeNul(s: string): string {
    if s == "" || s[0] == NUL then "" else [s[0]] + BeforeNul(s[1..])
  }

  lemma {:induction false} BeforeNulWholeIff(s: string)
    ensures BeforeNul(s) == s <==> NUL !in s
    ensures NUL !in BeforeNul(s) && BeforeNul(s) <= s
  {
    if s != "" {
      BeforeNulWholeIff(s[1..]);
      assert s == [s[0]] + s[1..];
    }
  }

  lemma {:induction false} BeforeNulStops(s: string, tail: string)
    ensures BeforeNul(s + [NUL] + tail) == BeforeNul(s)
  {
    if s == "" {
      assert (s + [NUL] + tail)[0] == NUL;
    } else {
      BeforeNulStops(s[1..], tail);
      assert (s + [NUL] + tail)[1..] == s[1..] + [NUL] + tail;
    }
  }

  lemma BeforeNulLength(s: string, n: nat)
    requires n <= |s| && (forall i :: 0 <= i < n ==> s[i] != NUL) && (n < |s| ==> s[n] == NUL)
    ensures BeforeNul(s) == s[..n]
  {
    if n > 0 { BeforeNulLength(s[1..], n - 1); }
  }

  // ----- One call -----

  datatype View = View(offset: nat, length: nat, handle: nat)

  /** `stale` counts the views older than the arena's last move: they dangle. */
  datatype Table = Table(arena: string, offsets: seq<nat>, views: seq<View>, stale: nat, capacity: nat)

  function Empty(capacity: nat): Table { Table("", [0], [], 0, capacity) }

  /** What is outside the interner's control at a call: how comparing a string with the freed
      memory behind dangling view k turns out, and how many bytes beyond the need a growing
      arena reserves. */
  datatype Surroundings = Surroundings(stray: nat -> bool, spare: nat)

  function Same(t: Table, k: nat, s: string, w: Surroundings): bool
    requires k < |t.views|
  {
    if k < t.stale then w.stray(k)
    else
      var v := t.views[k];
      v.offset + v.length <= |t.arena| && t.arena[v.offset..v.offset + v.length] == s
  }

  /** The first view from k on that compares equal, or the number of views. */
  function Found(t: Table, k: nat, s: string, w: Surroundings): (r: nat)
    requires k <= |t.views|
    ensures k <= r <= |t.views|
    decreases |t.views| - k
  {
    if k == |t.views| || Same(t, k, s, w) then k else Found(t, k + 1, s, w)
  }

  function Stored(t: Table, s: string, w: Surroundings): Table {
    var size := |t.arena| + |s| + 1;
    var offset, handle := Truncate(|t.arena|), Truncate(|t.offsets|);
    Table(t.arena + (s + [NUL]), t.offsets + [offset], t.views + [View(offset, |s|, handle)],
          if size > t.capacity then |t.views| else t.stale,
          if size > t.capacity then size + w.spare else t.capacity)
  }

  function Interned(t: Table, s: string, w: Surroundings): (Table, nat) {
    if s == "" then (t, 0)
    else
      var k := Found(t, 0, s, w);
      if k < |t.views| then (t, t.views[k].handle) else (Stored(t, s, w), Truncate(|t.offsets|))
  }

  // ----- Arena and index -----

  /** Bytes a list of strings takes in the arena. */
  function Size(strings: seq<string>): nat {
    if strings == [] then 0 else Size(strings[..|strings| - 1]) + |strings[|strings| - 1]| + 1
  }

  ghost predicate StoredAt(arena: string, offset: nat, s: string) {
    s != "" && offset + |s| < |arena| && arena[offset..offset + |s|] == s && arena[offset + |s|] == NUL
  }

  /** The arena holds exactly the strings, string i NUL-terminated at offset i + 1. */
  ghost predicate Kept(arena: string, offsets: seq<nat>, strings: seq<string>) {
    && |arena| == Size(strings) && |offsets| == |strings| + 1
    && forall i :: 0 <= i < |strings| ==> StoredAt(arena, offsets[i + 1], strings[i])
  }

  ghost predicate Distinct(strings: seq<string>) {
    forall i, j :: 0 <= i < j < |strings| ==> strings[i] != strings[j]
  }

  /** View i shows string i and carries handle i + 1. */
  ghost predicate Indexed(offsets: seq<nat>, views: seq<View>, strings: seq<string>) {
    && |views| == |strings| == |offsets| - 1 && Distinct(strings)
    && forall i :: 0 <= i < |strings| ==> views[i] == View(offsets[i + 1], |strings[i]|, i + 1)
  }

  /** The handle stands for the string. */
  ghost predicate Names(strings: seq<string>, handle: nat, s: string) {
    if handle == 0 then s == "" else handle <= |strings| && s != "" && strings[handle - 1] == s
  }

  lemma StoredStays(arena: string, offset: nat, s: string, more: string)
    requires StoredAt(arena, offset, s)
    ensures StoredAt(arena + more, offset, s)
  {}

  lemma StoredNow(arena: string, s: string)
    requires s != ""
    ensures StoredAt(arena + (s + [NUL]), |arena|, s)
  {}

  lemma SizeNext(strings: seq<string>, s: string)
    ensures Size(strings + [s]) == Size(strings) + |s| + 1
  {
    assert (strings + [s])[..|strings|] == strings;
  }

  lemma {:induction false} SizeCounts(strings: seq<string>)
    ensures |strings| <= Size(strings)
  {
    if strings != [] { SizeCounts(strings[..|strings| - 1]); }
  }

  lemma KeptGrows(arena: string, offsets: seq<nat>, strings: seq<string>, s: string)
    requires Kept(arena, offsets, strings) && s != ""
    ensures Kept(arena + (s + [NUL]), offsets + [|arena|], strings + [s])
  {
    hide StoredAt, Size;
    SizeNext(strings, s);
    StoredNow(arena, s);
    forall i | 0 <= i < |strings| ensures StoredAt(arena + (s + [NUL]), offsets[i + 1], strings[i]) {
      StoredStays(arena, offsets[i + 1], strings[i], s + [NUL]);
    }
  }

  lemma IndexedGrows(offsets: seq<nat>, views: seq<View>, strings: seq<string>, offset: nat, s: string)
    requires Indexed(offsets, views, strings) && s !in strings
    ensures Indexed(offsets + [offset], views + [View(offset, |s|, |offsets|)], strings + [s])
  {}

  lemma ReadsStored(arena: string, offset: nat, s: string)
    requires StoredAt(arena, offset, s)
    ensures BeforeNul(arena[offset..]) == BeforeNul(s)
  {
    BeforeNulStops(s, arena[offset + |s| + 1..]);
    assert arena[offset..] == s + [NUL] + arena[offset + |s| + 1..];
  }

  lemma SmallEnough(arena: string, offsets: seq<nat>, strings: seq<string>)
    requires Kept(arena, offsets, strings) && |arena| + 1 < HANDLES
    ensures Truncate(|arena|) == |arena| && Truncate(|offsets|) == |offsets| == |strings| + 1
  {
    SizeCounts(strings);
  }

  lemma NamesUnique(strings: seq<string>, h: nat, s: string, h': nat, s': string)
    requires Distinct(strings) && Names(strings, h, s) && Names(strings, h', s')
    ensures h == h' <==> s == s'
  {}

  // ----- Lookups -----

  /** Below 4 GiB the table holds these strings; some of its views may dangle. */
  ghost predicate Holds(t: Table, strings: seq<string>) {
    Kept(t.arena, t.offsets, strings) && Indexed(t.offsets, t.views, strings) && t.stale <= |t.views|
  }

  /** A view that does not dangle compares equal exactly with its own string. */
  lemma SameIff(t: Table, strings: seq<string>, k: nat, s: string, w: Surroundings)
    requires Holds(t, strings) && t.stale <= k < |t.views|
    ensures Same(t, k, s, w) <==> s == strings[k]
  {
    assert StoredAt(t.arena, t.offsets[k + 1], strings[k]);
  }

  /** Behind the dangling views, the lookup finds the string where it is. */
  lemma {:induction false} FoundIff(t: Table, strings: seq<string>, k: nat, s: string, w: Surroundings)
    requires Holds(t, strings) && t.stale <= k <= |t.views|
    ensures var r := Found(t, k, s, w);
      if r < |t.views| then strings[r] == s else s !in strings[k..]
    decreases |t.views| - k
  {
    hide Same, Kept;
    if k < |t.views| {
      SameIff(t, strings, k, s, w);
      FoundIff(t, strings, k + 1, s, w);
      assert strings[k..] == [strings[k]] + strings[k + 1..];
    }
  }

  /** With no dangling view, an interned string is one that was there or the next one. */
  lemma InternedNames(t: Table, strings: seq<string>, s: string, w: Surroundings)
    requires Holds(t, strings) && t.stale == 0 && |t.arena| + 1 < HANDLES
    ensures var r := Interned(t, s, w);
      var after := if s == "" || s in strings then strings else strings + [s];
      && Names(after, r.1, s) && Holds(r.0, after)
      && (s == "" || s in strings ==> r.0 == t)
      && (s != "" && s !in strings ==> r.0 == Stored(t, s, w))
  {
    hide Kept, Found;
    FoundIff(t, strings, 0, s, w);
    assert strings[0..] == strings;
    SmallEnough(t.arena, t.offsets, strings);
    if s != "" && s !in strings {
      KeptGrows(t.arena, t.offsets, strings, s);
      IndexedGrows(t.offsets, t.views, strings, |t.arena|, s);
    }
  }

  // ----- The object -----

  class Interner {
    var arena: string
    var offsets: seq<nat>
    var views: seq<View>          // the index: one entry per interned string
    var stale: nat                // how many views are older than the arena's last move
    var capacity: nat             // bytes the arena can hold where it is
    ghost var strings: seq<string>

    function Current(): Table
      reads this
    {
      Table(arena, offsets, views, stale, capacity)
    }

    /** Below 4 GiB, every string interned since the last clear is where its offset says. */
    ghost predicate Valid()
      reads this
    {
      && |offsets| > 0 && (arena != "" ==> arena[|arena| - 1] == NUL)
      && (forall i :: 0 < i < |offsets| ==> offsets[i] < |arena|)
      && (|arena| < HANDLES ==> Kept(arena, offsets, strings))
    }

    /** The index agrees with the arena. */
    ghost predicate Reliable()
      reads this
    {
      Valid() && stale == 0 && |arena| + 1 < HANDLES && Holds(Current(), strings)
    }

    constructor (capacity: nat)
      ensures Reliable() && strings == [] && Current() == Empty(capacity)
    {
      this.capacity := capacity;
      arena, offsets, views, stale := "", [0], [], 0;
      strings := [];
    }

    /** As long as no view dangles, a known string gets its handle and stores nothing, and a new
        string gets the next one. Once views dangle the lookup reads freed memory and may return
        any handle, or store a string again; what was interned before keeps its handle. */
    method Intern(s: string, w: Surroundings) returns (handle: nat)
      requires Valid()
      modifies this
      ensures Valid() && (Current(), handle) == Interned(old(Current()), s, w)
      ensures strings == old(strings) || strings == old(strings) + [s]
      ensures strings != old(strings) && |arena| < HANDLES ==> Names(strings, handle, s)
      ensures old(Reliable()) ==>
        && Names(strings, handle, s) && Holds(Current(), strings)
        && strings == (if s == "" || s in old(strings) then old(strings) else old(strings) + [s])
        && (s == "" || s in old(strings) ==> Current() == old(Current()))
    {
      hide Kept, Holds, Names;
      if Reliable() { InternedNames(Current(), strings, s, w); }
      if s == "" { return 0; }
      var found := Find(s, w);
      if found < |views| {
        if Reliable() { LookupKnows(Current(), strings, s, w); }
        return views[found].handle;
      }
      if Reliable() { LookupKnows(Current(), strings, s, w); }
      handle := Store(s, w);
    }

    method Store(s: string, w: Surroundings) returns (handle: nat)
      requires Valid() && s != ""
      modifies this
      ensures Valid() && Current() == Stored(old(Current()), s, w) && handle == Truncate(old(|offsets|))
      ensures strings == old(strings) + [s]
      ensures |arena| < HANDLES ==> Names(strings, handle, s)
    {
      hide Kept;
      var offset := Truncate(|arena|);
      handle := Truncate(|offsets|);
      var image := s + [NUL];
      if |arena| + |image| < HANDLES {
        SmallEnough(arena, offsets, strings);
        KeptGrows(arena, offsets, strings, s);
      }
      if |arena| + |image| > capacity {
        capacity, stale := |arena| + |image| + w.spare, |views|;
      }
      views := views + [View(offset, |s|, handle)];
      offsets := offsets + [offset];
      arena := arena + image;
      strings := strings + [s];
    }

    /** The lookup compares the bytes the views point at. */
    method Find(s: string, w: Surroundings) returns (k: nat)
      ensures k == Found(Current(), 0, s, w)
    {
      k := 0;
      while k < |views|
        invariant k <= |views| && Found(Current(), k, s, w) == Found(Current(), 0, s, w)
      {
        var same := false;
        if k < stale {
          same := w.stray(k);
        } else {
          var v := views[k];
          same := v.offset + v.length <= |arena| && arena[v.offset..v.offset + v.length] == s;
        }
        if same { return; }
        k := k + 1;
      }
    }

    /** A handle resolves to the bytes from its offset up to the first NUL; other handles to nothing. */
    method Resolve(handle: nat) returns (s: string)
      requires Valid()
      ensures s == Text(handle)
    {
      if handle == 0 { return ""; }
      if handle >= |offsets| { return ""; }
      var offset := offsets[handle];
      var n := 0;
      while arena[offset + n] != NUL
        invariant offset + n < |arena| && forall i :: 0 <= i < n ==> arena[offset..][i] != NUL
        decreases |arena| - n
      {
        n := n + 1;
      }
      BeforeNulLength(arena[offset..], n);
      s := arena[offset..offset + n];
    }

    ghost function Text(handle: nat): string
      requires Valid()
      reads this
    {
      if 0 < handle < |offsets| then BeforeNul(arena[offsets[handle]..]) else ""
    }

    /** The storage stays; the index starts again. */
    method Clear()
      modifies this
      ensures Reliable() && strings == [] && Current() == Empty(old(capacity))
    {
      arena, views, offsets, stale := "", [], [0], 0;
      strings := [];
    }
  }

  lemma LookupKnows(t: Table, strings: seq<string>, s: string, w: Surroundings)
    requires Holds(t, strings) && t.stale == 0
    ensures Found(t, 0, s, w) < |t.views| <==> s in strings
  {
    hide Kept, Found;
    FoundIff(t, strings, 0, s, w);
    assert strings[0..] == strings;
    if Found(t, 0, s, w) < |t.views| { assert strings[Found(t, 0, s, w)] == s; }
  }

  /** In every later state before a clear, moved or not, a handle resolves to the string it was
      given for exactly when that string holds no NUL, and otherwise to the part before it. */
  lemma ResolvesIffNoNul(interner: Interner, handle: nat, s: string)
    requires interner.Valid() && |interner.arena| < HANDLES && Names(interner.strings, handle, s)
    ensures interner.Text(handle) == BeforeNul(s) && (interner.Text(handle) == s <==> NUL !in s)
  {
    BeforeNulWholeIff(s);
    if handle > 0 { ReadsStored(interner.arena, interner.offsets[handle], s); }
  }
}
