/** Segment file names and the order in which a directory listing puts them. */
module SegmentNames {

  // ----- Lexicographic order of paths -----

  predicate LexLess(a: string, b: string) {
    if b == [] then false
    else if a == [] then true
    else if a[0] != b[0] then a[0] < b[0]
    else LexLess(a[1..], b[1..])
  }

  lemma {:induction false} LexTransitive(a: string, b: string, c: string)
    requires LexLess(a, b) && LexLess(b, c)
    ensures LexLess(a, c)
  {
    if a != [] && b[0] == c[0] && a[0] == b[0] { LexTransitive(a[1..], b[1..], c[1..]); }
  }

  lemma {:induction false} LexTotal(a: string, b: string)
    ensures LexLess(a, b) || a == b || LexLess(b, a)
    ensures !(LexLess(a, b) && LexLess(b, a))
    ensures a == b ==> !LexLess(a, b)
  {
    if a != [] && b != [] && a[0] == b[0] {
      LexTotal(a[1..], b[1..]);
      assert a == [a[0]] + a[1..] && b == [b[0]] + b[1..];
    }
  }

  lemma {:induction false} LexSamePrefix(p: string, a: string, b: string)
    ensures LexLess(p + a, p + b) <==> LexLess(a, b)
  {
    if p == [] {
      assert p + a == a && p + b == b;
    } else {
      assert (p + a)[1..] == p[1..] + a && (p + b)[1..] == p[1..] + b;
      LexSamePrefix(p[1..], a, b);
    }
  }

  lemma {:induction false} LexDecidedEarly(a: string, b: string, u: string, v: string)
    requires |a| == |b| && LexLess(a, b)
    ensures LexLess(a + u, b + v)
  {
    assert (a + u)[0] == a[0] && (b + v)[0] == b[0];
    assert (a + u)[1..] == a[1..] + u && (b + v)[1..] == b[1..] + v;
    if a[0] == b[0] { LexDecidedEarly(a[1..], b[1..], u, v); }
  }

  // ----- Segment names -----

  function Digit(d: nat): char
    requires d < 10
  {
    ('0' as int + d) as char
  }

  function Decimal(n: nat): string {
    if n < 10 then [Digit(n)] else Decimal(n / 10) + [Digit(n % 10)]
  }

  function PadLeft(s: string, width: nat): string
    decreases if |s| < width then width - |s| else 0
  {
    if |s| >= width then s else PadLeft(['0'] + s, width)
  }

  const MAX_ORDERED_SEGMENTS: nat := 1_000_000

  function SegmentName(id: nat): string {
    "segment_" + PadLeft(Decimal(id), 6) + ".umej"
  }

  // ----- Names with the same number of digits sort like their ids -----

  function Pow10(k: nat): nat { if k == 0 then 1 else 10 * Pow10(k - 1) }

  /** Exactly `k` decimal digits. */
  function Fixed(n: nat, k: nat): (s: string)
    ensures |s| == k
  {
    if k == 0 then [] else Fixed(n / 10, k - 1) + [Digit(n % 10)]
  }

  lemma {:induction false} PadThenDigit(s: string, d: char, k: nat)
    requires k > 0
    ensures PadLeft(s + [d], k) == PadLeft(s, k - 1) + [d]
    decreases if |s| < k then k - |s| else 0
  {
    if |s| < k - 1 {
      assert ['0'] + (s + [d]) == (['0'] + s) + [d];
      PadThenDigit(['0'] + s, d, k);
    }
  }

  lemma {:induction false} ZerosAreFixed(k: nat)
    ensures PadLeft([], k) == Fixed(0, k)
  {
    if k > 0 {
      assert [] + ['0'] == ['0'] + [];
      PadThenDigit([], '0', k);
      ZerosAreFixed(k - 1);
    }
  }

  lemma {:induction false} PaddedIsFixed(n: nat, k: nat)
    requires 0 < k && n < Pow10(k)
    ensures PadLeft(Decimal(n), k) == Fixed(n, k)
  {
    if n < 10 {
      assert [] + [Digit(n)] == [Digit(n)];
      PadThenDigit([], Digit(n), k);
      ZerosAreFixed(k - 1);
    } else {
      assert k > 1 by { assert Pow10(1) == 10; }
      PaddedIsFixed(n / 10, k - 1);
      PadThenDigit(Decimal(n / 10), Digit(n % 10), k);
    }
  }

  lemma {:induction false} FixedOrder(a: nat, b: nat, k: nat)
    requires a < b < Pow10(k)
    ensures LexLess(Fixed(a, k), Fixed(b, k))
  {
    var p, q := Fixed(a / 10, k - 1), Fixed(b / 10, k - 1);
    if a / 10 == b / 10 {
      LexSamePrefix(p, [Digit(a % 10)], [Digit(b % 10)]);
    } else {
      FixedOrder(a / 10, b / 10, k - 1);
      LexDecidedEarly(p, q, [Digit(a % 10)], [Digit(b % 10)]);
    }
  }

  lemma SixDigits()
    ensures Pow10(6) == MAX_ORDERED_SEGMENTS
  {
    assert Pow10(3) == 1000;
    assert Pow10(5) == 100000;
  }

  /** Below a million, a name is `segment_`, the six digits of the id, and `.umej`. */
  lemma NameOfSegment(id: nat)
    requires id < MAX_ORDERED_SEGMENTS
    ensures SegmentName(id)
            == "segment_" + [Digit(id / 100000), Digit(id / 10000 % 10), Digit(id / 1000 % 10),
                             Digit(id / 100 % 10), Digit(id / 10 % 10), Digit(id % 10)] + ".umej"
  {
    SixDigits();
    PaddedIsFixed(id, 6);
    DropDigit(id, 1);
    DropDigit(id, 10);
    DropDigit(id, 100);
    DropDigit(id, 1000);
    DropDigit(id, 10000);
    hide Fixed, Digit;
    FixedNext(id, 5);
    FixedNext(id / 10, 4);
    FixedNext(id / 100, 3);
    FixedNext(id / 1000, 2);
    FixedNext(id / 10000, 1);
    FixedNext(id / 100000, 0);
  }

  lemma DropDigit(n: nat, p: nat)
    requires p == 1 || p == 10 || p == 100 || p == 1000 || p == 10000
    ensures n / p / 10 == n / (10 * p)
  {}

  lemma FixedNext(n: nat, k: nat)
    ensures Fixed(n, k + 1) == Fixed(n / 10, k) + [Digit(n % 10)]
    ensures k == 0 && n < 10 ==> Fixed(n, 1) == [Digit(n)]
  {}

  lemma NameOrder(a: nat, b: nat)
    requires a < b < MAX_ORDERED_SEGMENTS
    ensures LexLess(SegmentName(a), SegmentName(b))
  {
    SixDigits();
    PaddedIsFixed(a, 6);
    PaddedIsFixed(b, 6);
    FixedOrder(a, b, 6);
    var x, y := Fixed(a, 6), Fixed(b, 6);
    LexDecidedEarly(x, y, ".umej", ".umej");
    LexSamePrefix("segment_", x + ".umej", y + ".umej");
    assert "segment_" + (x + ".umej") == SegmentName(a);
    assert "segment_" + (y + ".umej") == SegmentName(b);
  }

  ghost predicate NamesInIdOrder(n: nat) {
    forall i, j :: 0 <= i < j < n ==> LexLess(SegmentName(i), SegmentName(j))
  }

  /** The seven-digit name of segment 1000000 sorts before that of segment 100001. */
  lemma MillionthNameComesEarly()
    ensures LexLess(SegmentName(1_000_000), SegmentName(100_001))
  {
    var p := Decimal(10_000);
    NextDigit(1, 0);
    NextDigit(10, 0);
    NextDigit(100, 0);
    NextDigit(1000, 0);
    assert |p| == 5;
    NextDigit(10_000, 0);
    NextDigit(100_000, 0);
    NextDigit(10_000, 1);
    hide Decimal, PadLeft;
    Unpadded(Decimal(1_000_000));
    Unpadded(Decimal(100_001));
    EarlierTail("segment_" + p, SegmentName(1_000_000), SegmentName(100_001));
  }

  lemma NextDigit(n: nat, d: nat)
    requires 0 < n && d < 10
    ensures Decimal(10 * n + d) == Decimal(n) + [Digit(d)]
  {}

  lemma Unpadded(s: string)
    requires |s| >= 6
    ensures PadLeft(s, 6) == s
  {}

  lemma EarlierTail(p: string, a: string, b: string)
    requires a == p + ['0', '0'] + ".umej" && b == p + ['1'] + ".umej"
    ensures LexLess(a, b)
  {
    assert a == p + (['0', '0'] + ".umej") && b == p + (['1'] + ".umej");
    LexSamePrefix(p, ['0', '0'] + ".umej", ['1'] + ".umej");
  }

  /** A directory listing returns segments in id order exactly up to a million of them. */
  lemma IdOrderIffUnderAMillion(n: nat)
    ensures NamesInIdOrder(n) <==> n <= 1_000_000
  {
    if n <= MAX_ORDERED_SEGMENTS {
      forall i, j | 0 <= i < j < n ensures LexLess(SegmentName(i), SegmentName(j)) { NameOrder(i, j); }
    } else {
      MillionthNameComesEarly();
      LexTotal(SegmentName(1_000_000), SegmentName(100_001));
    }
  }

  // ----- Names are distinct -----

  /** The number a digit string denotes. */
  function Parsed(s: string): int {
    if s == [] then 0 else 10 * Parsed(s[..|s| - 1]) + (s[|s| - 1] as int - '0' as int)
  }

  lemma {:induction false} ParsedZero(s: string)
    ensures Parsed(['0'] + s) == Parsed(s)
  {
    var t := ['0'] + s;
    if s == [] {
      assert t[..0] == [];
    } else {
      assert t[..|t| - 1] == ['0'] + s[..|s| - 1];
      ParsedZero(s[..|s| - 1]);
    }
  }

  lemma {:induction false} ParsedPadded(s: string, k: nat)
    ensures Parsed(PadLeft(s, k)) == Parsed(s)
    decreases if |s| < k then k - |s| else 0
  {
    if |s| < k {
      ParsedZero(s);
      ParsedPadded(['0'] + s, k);
    }
  }

  lemma {:induction false} ParsedDecimal(n: nat)
    ensures Parsed(Decimal(n)) == n
  {
    if n < 10 {
      assert Decimal(n)[..0] == [];
    } else {
      ParsedDecimal(n / 10);
      assert Decimal(n)[..|Decimal(n)| - 1] == Decimal(n / 10);
    }
  }

  lemma NamesDistinct(a: nat, b: nat)
    requires SegmentName(a) == SegmentName(b)
    ensures a == b
  {
    var x, y := PadLeft(Decimal(a), 6), PadLeft(Decimal(b), 6);
    assert SegmentName(a)[8..|SegmentName(a)| - 5] == x;
    assert SegmentName(b)[8..|SegmentName(b)| - 5] == y;
    ParsedPadded(Decimal(a), 6);
    ParsedPadded(Decimal(b), 6);
    ParsedDecimal(a);
    ParsedDecimal(b);
  }

  // ----- Sorted directory listings -----

  ghost predicate StrictlySorted(paths: seq<string>) {
    forall i, j :: 0 <= i < j < |paths| ==> LexLess(paths[i], paths[j])
  }

  function Insert(paths: seq<string>, p: string): seq<string> {
    if paths == [] then [p]
    else if LexLess(p, paths[0]) then [p] + paths
    else [paths[0]] + Insert(paths[1..], p)
  }

  lemma {:induction false} InsertKeepsOrder(paths: seq<string>, p: string)
    requires StrictlySorted(paths) && p !in paths
    ensures StrictlySorted(Insert(paths, p))
    ensures forall x :: x in Insert(paths, p) <==> x in paths || x == p
  {
    if paths != [] {
      LexTotal(p, paths[0]);
      if LexLess(p, paths[0]) {
        forall j | 0 <= j < |paths| ensures LexLess(p, paths[j]) {
          if j > 0 { LexTransitive(p, paths[0], paths[j]); }
        }
      } else {
        InsertKeepsOrder(paths[1..], p);
        var rest := Insert(paths[1..], p);
        forall j | 0 <= j < |rest| ensures LexLess(paths[0], rest[j]) {
          assert rest[j] in paths[1..] || rest[j] == p;
        }
      }
      assert paths == [paths[0]] + paths[1..];
    }
  }

  method SortPaths(names: set<string>) returns (paths: seq<string>)
    ensures StrictlySorted(paths)
    ensures forall x :: x in paths <==> x in names
  {
    paths := [];
    var left := names;
    while left != {}
      invariant left <= names && StrictlySorted(paths)
      invariant forall x :: x in paths <==> x in names && x !in left
      decreases left
    {
      var p :| p in left;
      InsertKeepsOrder(paths, p);
      paths := Insert(paths, p);
      left := left - {p};
    }
  }

  lemma {:induction false} SortedListingIsUnique(a: seq<string>, b: seq<string>)
    requires StrictlySorted(a) && StrictlySorted(b)
    requires forall x :: x in a <==> x in b
    ensures a == b
  {
    if a != [] || b != [] {
      var x := if a != [] then a[0] else b[0];
      assert x in a && x in b;
      assert a[0] in a && b[0] in b;
      LexTotal(a[0], b[0]);
      assert a[0] == b[0];
      forall y ensures y in a[1..] <==> y in b[1..] {
        TailMembers(a, y);
        TailMembers(b, y);
      }
      SortedListingIsUnique(a[1..], b[1..]);
      assert a == [a[0]] + a[1..] && b == [b[0]] + b[1..];
    }
  }

  lemma TailMembers(a: seq<string>, x: string)
    requires StrictlySorted(a) && a != []
    ensures x in a[1..] <==> x in a && x != a[0]
  {
    LexTotal(a[0], a[0]);
    assert a == [a[0]] + a[1..];
  }

  ghost function NamesBelow(n: nat): (names: seq<string>)
    ensures |names| == n && forall i :: 0 <= i < n ==> names[i] == SegmentName(i)
  {
    seq(n, (i: nat) => SegmentName(i))
  }

  /** Listing the files of a journal with at most a million segments gives segment order. */
  lemma ListingIsSegmentOrder(n: nat, paths: seq<string>)
    requires n <= MAX_ORDERED_SEGMENTS && StrictlySorted(paths)
    requires forall x :: x in paths <==> x in NamesBelow(n)
    ensures paths == NamesBelow(n)
  {
    IdOrderIffUnderAMillion(n);
    SortedListingIsUnique(paths, NamesBelow(n));
  }
}
