/** The 32-bit checksum of the event serializer: its lookup table, the table-driven
    loop, and the bursts it is guaranteed to detect. */
module Crc {

  type Byte = bv8
  type Bytes = seq<Byte>

  const POLYNOMIAL: bv32 := 0xED888320
  const ALL_ONES: bv32 := 0xFFFFFFFF

  function Xor(x: bv32, y: bv32): bv32 { x ^ y }

  /** One bit of the shift register. */
  function Shift(c: bv32): bv32 {
    if c & 1 == 1 then POLYNOMIAL ^ (c >> 1) else c >> 1
  }

  function Shifts(c: bv32, n: nat): bv32 {
    if n == 0 then c else Shift(Shifts(c, n - 1))
  }

  /** Bitwise reference: the register after absorbing `data`, eight shifts a byte. */
  function Register(c: bv32, data: Bytes): bv32 {
    if data == [] then c
    else Shifts(Xor(Register(c, data[..|data| - 1]), data[|data| - 1] as bv32), 8)
  }

  /** Reference checksum; the empty input is a special case of the code. */
  function Crc32(data: Bytes): bv32 {
    if data == [] then 0 else Xor(Register(ALL_ONES, data), ALL_ONES)
  }

  // ----- The code: a 256-entry table and one lookup per byte -----

  function Index(i: bv32): nat { i as nat }

  lemma IndexInRange(i: bv32)
    requires i < 256
    ensures Index(i) < 256
  {}

  lemma IndexMonotone(i: bv32, k: bv32)
    requires i < 256 && k < i + 1
    ensures (k < i && Index(k) < Index(i)) || k == i
  {}

  ghost predicate IsTable(table: seq<bv32>) {
    && |table| == 256
    && forall i: bv32 :: i < 256 ==> Index(i) < 256 && table[Index(i)] == Shifts(i, 8)
  }

  method GenerateTable() returns (table: array<bv32>)
    ensures IsTable(table[..])
  {
    hide Shifts, Index;
    table := new bv32[256];
    var i: bv32 := 0;
    while i < 256
      invariant i <= 256
      invariant forall k: bv32 :: k < i ==> Index(k) < 256 && table[Index(k)] == Shifts(k, 8)
      decreases 256 - i
    {
      var crc := TableEntry(i);
      ghost var before := table[..];
      IndexInRange(i);
      table[Index(i)] := crc;
      forall k: bv32 | k < i + 1
        ensures Index(k) < 256 && table[Index(k)] == Shifts(k, 8)
      {
        IndexMonotone(i, k);
        if k != i { assert before[Index(k)] == Shifts(k, 8); }
      }
      i := i + 1;
    }
  }

  method TableEntry(i: bv32) returns (crc: bv32)
    ensures crc == Shifts(i, 8)
  {
    crc := i;
    for j := 0 to 8
      invariant crc == Shifts(i, j)
    {
      crc := if crc & 1 == 1 then POLYNOMIAL ^ (crc >> 1) else crc >> 1;
    }
  }

  method ComputeCrc32(data: Bytes) returns (crc: bv32)
    ensures crc == Crc32(data)
  {
    hide Shift, Shifts, Xor, IsTable;
    if |data| == 0 { return 0; }
    var table := GenerateTable();
    crc := ALL_ONES;
    for i := 0 to |data|
      invariant IsTable(table[..])
      invariant crc == Register(ALL_ONES, data[..i])
    {
      assert data[..i + 1][..i] == data[..i];
      crc := AbsorbByte(table, crc, data[i]);
    }
    assert data[..|data|] == data;
    crc := Xor(crc, ALL_ONES);
  }

  method AbsorbByte(table: array<bv32>, crc: bv32, b: Byte) returns (next: bv32)
    requires IsTable(table[..])
    ensures next == Shifts(Xor(crc, b as bv32), 8)
  {
    LookupIsEightShifts(crc, b);
    hide Shift, Shifts, Xor, Index;
    var lookup := Xor(crc, b as bv32) & 0xFF;
    next := Xor(crc >> 8, table[Index(lookup)]);
  }

  /** The table form of one byte equals eight register shifts on state xor byte. */
  lemma LookupIsEightShifts(c: bv32, b: Byte)
    ensures Xor(c, b as bv32) & 0xFF < 256
    ensures Xor(c >> 8, Shifts(Xor(c, b as bv32) & 0xFF, 8)) == Shifts(Xor(c, b as bv32), 8)
  {
    hide Shift, Xor;
    var x := Xor(c, b as bv32);
    HighPart(c, b);
    SplitAt8(x);
    var high, low := x & 0xFFFFFF00, x & 0xFF;
    ShiftsLinear(high, low, 8);
    ZeroByteShifts(high);
  }

  lemma HighPart(c: bv32, b: Byte)
    ensures Xor(c, b as bv32) >> 8 == c >> 8
  {}

  lemma SplitAt8(x: bv32)
    ensures x & 0xFF < 256
    ensures Xor(x & 0xFFFFFF00, x & 0xFF) == x
    ensures (x & 0xFFFFFF00) & 0xFF == 0
    ensures (x & 0xFFFFFF00) >> 8 == x >> 8
  {}

  // ----- Algebra of the shift register -----

  lemma XorLaws(x: bv32, y: bv32, z: bv32)
    ensures Xor(Xor(x, y), z) == Xor(x, Xor(y, z))
    ensures Xor(Xor(x, y), y) == x
    ensures Xor(x, Xor(x, y)) == y
  {}

  lemma ShiftLinear(x: bv32, y: bv32)
    ensures Shift(Xor(x, y)) == Xor(Shift(x), Shift(y))
  {
    OneShiftLinear(x, y);
  }

  lemma OneShiftLinear(x: bv32, y: bv32)
    ensures Shift(x ^ y) == Shift(x) ^ Shift(y)
  {
    XorSplits(x, y);
    XorSplits(y, x);
    XorAlgebra(POLYNOMIAL, x >> 1, y >> 1);
    if x & 1 == 1 {
      if y & 1 == 1 { assert (x ^ y) & 1 == 0; } else { assert (x ^ y) & 1 == 1; }
    } else {
      if y & 1 == 1 { assert (x ^ y) & 1 == 1; } else { assert (x ^ y) & 1 == 0; }
    }
  }

  lemma XorAlgebra(p: bv32, x: bv32, y: bv32)
    ensures (p ^ x) ^ (p ^ y) == x ^ y
    ensures (p ^ x) ^ y == p ^ (x ^ y)
    ensures x ^ (p ^ y) == p ^ (x ^ y)
  {}

  lemma XorSplits(x: bv32, y: bv32)
    ensures (x ^ y) >> 1 == (x >> 1) ^ (y >> 1)
    ensures (x ^ y) & 1 == (x & 1) ^ (y & 1)
    ensures x & 1 == 0 || x & 1 == 1
  {}

  lemma {:induction false} ShiftsLinear(x: bv32, y: bv32, n: nat)
    ensures Shifts(Xor(x, y), n) == Xor(Shifts(x, n), Shifts(y, n))
  {
    hide Shift, Xor;
    if n > 0 {
      ShiftsLinear(x, y, n - 1);
      ShiftLinear(Shifts(x, n - 1), Shifts(y, n - 1));
    }
  }

  /** The polynomial's top bit is set, so a shift loses nothing. */
  lemma ShiftInjective(x: bv32, y: bv32)
    requires Shift(x) == Shift(y)
    ensures x == y
  {}

  lemma {:induction false} ShiftsInjective(x: bv32, y: bv32, n: nat)
    requires Shifts(x, n) == Shifts(y, n)
    ensures x == y
  {
    hide Shift;
    if n > 0 {
      ShiftInjective(Shifts(x, n - 1), Shifts(y, n - 1));
      ShiftsInjective(x, y, n - 1);
    }
  }

  lemma {:induction false} ShiftsAdd(c: bv32, m: nat, n: nat)
    ensures Shifts(Shifts(c, m), n) == Shifts(c, m + n)
  {
    hide Shift;
    if n > 0 { ShiftsAdd(c, m, n - 1); }
  }

  lemma EightShiftsOfZeroByte(x: bv32)
    requires x & 0xFF == 0
    ensures Shift(Shift(Shift(Shift(Shift(Shift(Shift(Shift(x)))))))) == x >> 8
  {}

  lemma FourShifts(x: bv32)
    ensures Shifts(x, 4) == Shift(Shift(Shift(Shift(x))))
  {
    hide Shift;
    assert Shifts(x, 2) == Shift(Shifts(x, 1)) == Shift(Shift(Shifts(x, 0)));
    assert Shifts(x, 4) == Shift(Shifts(x, 3)) == Shift(Shift(Shifts(x, 2)));
  }

  lemma ZeroByteShifts(x: bv32)
    requires x & 0xFF == 0
    ensures Shifts(x, 8) == x >> 8
  {
    EightShiftsOfZeroByte(x);
    hide Shift;
    FourShifts(x);
    FourShifts(Shifts(x, 4));
    ShiftsAdd(x, 4, 4);
  }

  lemma {:induction false} RegisterConcat(c: bv32, a: Bytes, b: Bytes)
    ensures Register(c, a + b) == Register(Register(c, a), b)
  {
    hide Shift, Xor;
    if b == [] {
      assert a + b == a;
    } else {
      var n := |b| - 1;
      assert (a + b)[..|a + b| - 1] == a + b[..n];
      RegisterConcat(c, a, b[..n]);
    }
  }

  /** Absorbing equal bytes keeps different register states different. */
  lemma {:induction false} RegisterInjective(x: bv32, y: bv32, data: Bytes)
    requires Register(x, data) == Register(y, data)
    ensures x == y
  {
    hide Shift, Xor;
    if data != [] {
      var n := |data| - 1;
      var b := data[n] as bv32;
      var rx, ry := Register(x, data[..n]), Register(y, data[..n]);
      ShiftsInjective(Xor(rx, b), Xor(ry, b), 8);
      XorLaws(rx, b, b);
      XorLaws(ry, b, b);
      RegisterInjective(x, y, data[..n]);
    }
  }

  // ----- Four consecutive bytes enter the register as one 32-bit word -----

  function Word(b: Bytes): bv32
    requires |b| == 4
  {
    Xor(Xor(Xor(b[0] as bv32, (b[1] as bv32) << 8), (b[2] as bv32) << 16), (b[3] as bv32) << 24)
  }

  lemma WordInjective(u: Bytes, v: Bytes)
    requires |u| == 4 && |v| == 4 && Word(u) == Word(v)
    ensures u == v
  {
    SplitWord(u[0], u[1], u[2], u[3]);
    SplitWord(v[0], v[1], v[2], v[3]);
  }

  lemma SplitWord(b0: Byte, b1: Byte, b2: Byte, b3: Byte)
    ensures var w := (b0 as bv32) ^ ((b1 as bv32) << 8) ^ ((b2 as bv32) << 16) ^ ((b3 as bv32) << 24);
      && (w & 0xFF) as Byte == b0
      && ((w >> 8) & 0xFF) as Byte == b1
      && ((w >> 16) & 0xFF) as Byte == b2
      && ((w >> 24) & 0xFF) as Byte == b3
  {}

  lemma MovedByte(b: Byte)
    ensures Shifts((b as bv32) << 8, 8) == b as bv32
    ensures Shifts((b as bv32) << 16, 16) == b as bv32
    ensures Shifts((b as bv32) << 24, 24) == b as bv32
  {
    hide Shift;
    MovedDown(b);
    var w := b as bv32;
    ZeroByteShifts(w << 8);
    ZeroByteShifts(w << 16);
    ZeroByteShifts(w << 24);
    ShiftsAdd(w << 16, 8, 8);
    ShiftsAdd(w << 24, 8, 16);
  }

  lemma MovedDown(b: Byte)
    ensures var w := b as bv32;
      && (w << 8) & 0xFF == 0 && (w << 16) & 0xFF == 0 && (w << 24) & 0xFF == 0
      && (w << 8) >> 8 == w && (w << 16) >> 8 == w << 8 && (w << 24) >> 8 == w << 16
  {}

  /** A byte xored in after `n` shifts could have been xored in, moved up, before them. */
  lemma Deferred(s: bv32, b: bv32, moved: bv32, n: nat)
    requires Shifts(moved, n) == b
    ensures Shifts(Xor(Shifts(s, n), b), 8) == Shifts(Xor(s, moved), n + 8)
  {
    hide Shift, Xor;
    ShiftsLinear(s, moved, n);
    ShiftsAdd(Xor(s, moved), n, 8);
  }

  lemma FourBytes(c: bv32, w: Bytes)
    requires |w| == 4
    ensures Register(c, w) == Shifts(Xor(c, Word(w)), 32)
  {
    WordAsXors(c, w);
    MovedByte(w[1]);
    MovedByte(w[2]);
    MovedByte(w[3]);
    hide *;
    FourDeferred(c, w, (w[1] as bv32) << 8, (w[2] as bv32) << 16, (w[3] as bv32) << 24);
  }

  lemma FourDeferred(c: bv32, w: Bytes, m1: bv32, m2: bv32, m3: bv32)
    requires |w| == 4
    requires Shifts(m1, 8) == w[1] as bv32 && Shifts(m2, 16) == w[2] as bv32 && Shifts(m3, 24) == w[3] as bv32
    ensures Register(c, w) == Shifts(Xor(Xor(Xor(Xor(c, w[0] as bv32), m1), m2), m3), 32)
  {
    hide Shift, Shifts, Xor;
    assert w[..1][..0] == [] && w[..2][..1] == w[..1] && w[..3][..2] == w[..2];
    var x0 := Xor(c, w[0] as bv32);
    assert Register(c, w[..1]) == Shifts(x0, 8) by { assert Register(c, w[..0]) == c; }
    Deferred(x0, w[1] as bv32, m1, 8);
    assert Register(c, w[..2]) == Shifts(Xor(x0, m1), 16);
    Deferred(Xor(x0, m1), w[2] as bv32, m2, 16);
    assert Register(c, w[..3]) == Shifts(Xor(Xor(x0, m1), m2), 24);
    Deferred(Xor(Xor(x0, m1), m2), w[3] as bv32, m3, 24);
  }

  lemma WordAsXors(c: bv32, w: Bytes)
    requires |w| == 4
    ensures Xor(c, Word(w))
         == Xor(Xor(Xor(Xor(c, w[0] as bv32), (w[1] as bv32) << 8), (w[2] as bv32) << 16), (w[3] as bv32) << 24)
  {
    hide Xor;
    Regroup(c, w[0] as bv32, (w[1] as bv32) << 8, (w[2] as bv32) << 16, (w[3] as bv32) << 24);
  }

  lemma Regroup(c: bv32, w: bv32, x: bv32, y: bv32, z: bv32)
    ensures Xor(Xor(Xor(Xor(c, w), x), y), z) == Xor(c, Xor(Xor(Xor(w, x), y), z))
  {
    hide Xor;
    XorLaws(c, w, x);
    XorLaws(c, Xor(w, x), y);
    XorLaws(c, Xor(Xor(w, x), y), z);
  }

  // ----- Burst detection -----

  /** `a` and `b` agree outside the four bytes starting at `at`. */
  ghost predicate DifferWithinBurst(a: Bytes, b: Bytes, at: nat) {
    && |a| == |b|
    && forall i :: 0 <= i < |a| && !(at <= i < at + 4) ==> a[i] == b[i]
  }

  lemma ShortWindow(c: bv32, u: Bytes, v: Bytes)
    requires |u| == |v| <= 4 && Register(c, u) == Register(c, v)
    ensures u == v
  {
    hide Shifts, Register, Xor, Word;
    var pad := seq(4 - |u|, _ => 0 as Byte);
    RegisterConcat(c, u, pad);
    RegisterConcat(c, v, pad);
    FourBytes(c, u + pad);
    FourBytes(c, v + pad);
    ShiftsInjective(Xor(c, Word(u + pad)), Xor(c, Word(v + pad)), 32);
    XorLaws(c, Word(u + pad), 0);
    XorLaws(c, Word(v + pad), 0);
    WordInjective(u + pad, v + pad);
    assert u == (u + pad)[..|u|] && v == (v + pad)[..|u|];
  }

  lemma ThreeParts<T>(s: seq<T>, m: nat, n: nat)
    requires m <= n <= |s|
    ensures s == s[..m] + s[m..n] + s[n..]
  {}

  lemma SameOutside<T>(a: seq<T>, b: seq<T>, lo: nat, hi: nat)
    requires lo <= hi <= |a| == |b| && forall i :: 0 <= i < |a| && !(lo <= i < hi) ==> a[i] == b[i]
    ensures a[..lo] == b[..lo] && a[hi..] == b[hi..]
  {}

  /** The register tells strings apart that differ within four consecutive bytes only. */
  lemma RegisterBurst(c: bv32, a: Bytes, b: Bytes, at: nat)
    requires DifferWithinBurst(a, b, at) && Register(c, a) == Register(c, b)
    ensures a == b
  {
    hide Shifts, Register, Xor;
    var n := |a|;
    var lo := if at < n then at else n;
    var hi := if at + 4 < n then at + 4 else n;
    var pre, u, v, post := a[..lo], a[lo..hi], b[lo..hi], a[hi..];
    ThreeParts(a, lo, hi);
    ThreeParts(b, lo, hi);
    SameOutside(a, b, lo, hi);
    RegisterConcat(c, pre + u, post);
    RegisterConcat(c, pre + v, post);
    RegisterConcat(c, pre, u);
    RegisterConcat(c, pre, v);
    RegisterInjective(Register(c, pre + u), Register(c, pre + v), post);
    ShortWindow(Register(c, pre), u, v);
  }

  /** Different byte strings whose differences fit in four consecutive bytes never
      share a checksum. */
  lemma BurstDetected(a: Bytes, b: Bytes, at: nat)
    requires DifferWithinBurst(a, b, at) && a != b
    ensures Crc32(a) != Crc32(b)
  {
    hide Shifts, Register, Xor;
    XorLaws(Register(ALL_ONES, a), ALL_ONES, 0);
    XorLaws(Register(ALL_ONES, b), ALL_ONES, 0);
    if Register(ALL_ONES, a) == Register(ALL_ONES, b) { RegisterBurst(ALL_ONES, a, b, at); }
  }

  /** Absorbing a string and then its own checksum always leaves the same register state. */
  lemma ChecksumResidue(data: Bytes, sum: Bytes)
    requires data != [] && |sum| == 4 && Word(sum) == Crc32(data)
    ensures Register(ALL_ONES, data + sum) == Shifts(ALL_ONES, 32)
  {
    hide Shifts, Register, Xor, Word;
    var c := Register(ALL_ONES, data);
    RegisterConcat(ALL_ONES, data, sum);
    FourBytes(c, sum);
    XorLaws(c, ALL_ONES, 0);
  }

  // ----- A check value of this polynomial -----

  lemma EightShifts(c: bv32)
    ensures Shifts(c, 8) == Shift(Shift(Shift(Shift(Shift(Shift(Shift(Shift(c))))))))
  {
    hide Shift;
    FourShifts(c);
    FourShifts(Shifts(c, 4));
    ShiftsAdd(c, 4, 4);
  }

  /** The checksum of the characters 1 and 2. */
  lemma CheckValue()
    ensures Crc32([0x31, 0x32]) == 0x4F729E8D
  {
    var data: Bytes := [0x31, 0x32];
    assert data[..1] == [0x31] && [0x31][..0] == [];
    EightShifts(Register(ALL_ONES, []) ^ 0x31);
    EightShifts(Register(ALL_ONES, [0x31]) ^ 0x32);
  }
}
