/** Cells of a ring of `capacity` cells, addressed by positions that only grow. The code
    masks with capacity - 1, which for a power of two is the remainder. */
module RingIndex {

  function Cell(pos: nat, capacity: nat): (i: nat)
    requires capacity > 0
    ensures i < capacity
  {
    pos % capacity
  }

  lemma CellsDistinct(p: nat, q: nat, capacity: nat)
    requires capacity > 0 && p != q && p < q + capacity && q < p + capacity
    ensures Cell(p, capacity) != Cell(q, capacity)
  {
    if Cell(p, capacity) == Cell(q, capacity) {
      var x, y := p / capacity, q / capacity;
      assert p - q == capacity * (x - y);
      if x == y { assert false; }
      else if x > y { ScaleAtLeast(capacity, x - y); }
      else { ScaleAtLeast(capacity, y - x); }
    }
  }

  lemma ScaleAtLeast(c: nat, k: nat)
    requires k >= 1
    ensures c * k >= c
  {}

  lemma CellWraps(p: nat, capacity: nat)
    requires capacity > 0
    ensures Cell(p + capacity, capacity) == Cell(p, capacity)
  {
    assert (p + capacity) % capacity == p % capacity by {
      var x := p / capacity;
      assert p + capacity == capacity * (x + 1) + p % capacity;
      DivisionUnique(p + capacity, capacity, x + 1, p % capacity);
    }
  }

  lemma DivisionUnique(n: nat, c: nat, k: nat, r: nat)
    requires c > 0 && n == c * k + r && r < c
    ensures n % c == r
  {
    var k', r' := n / c, n % c;
    assert c * (k - k') == r' - r;
    assert c * (k' - k) == r - r';
    if k > k' { ScaleAtLeast(c, k - k'); }
    else if k < k' { ScaleAtLeast(c, k' - k); }
  }

  lemma WindowDistinct(p: nat, low: nat, capacity: nat)
    requires capacity > 0 && low <= p < low + capacity
    ensures forall q: nat :: low <= q < low + capacity && q != p ==> Cell(q, capacity) != Cell(p, capacity)
  {
    forall q: nat | low <= q < low + capacity && q != p ensures Cell(q, capacity) != Cell(p, capacity) {
      CellsDistinct(q, p, capacity);
    }
  }

  /** Every cell holds the number of a window position at least as new as any asked for. */
  lemma {:induction false} InWindow(pos: nat, low: nat, capacity: nat) returns (p: nat)
    requires capacity > 0 && pos < low + capacity
    ensures low <= p < low + capacity && pos <= p && Cell(p, capacity) == Cell(pos, capacity)
    ensures pos >= low ==> p == pos
    decreases if pos < low then low - pos else 0
  {
    if pos >= low { p := pos; }
    else {
      CellWraps(pos, capacity);
      p := InWindow(pos + capacity, low, capacity);
    }
  }

  // ----- Positions kept modulo the counter width -----

  lemma DistanceWraps(p: nat, q: nat, width: nat)
    requires q <= p < q + width
    ensures ((p % width) as int - (q % width) as int) % width == p - q
  {
    var x, y := p / width, q / width;
    assert (p % width) - (q % width) == (p - q) - width * (x - y);
    ShiftMultiple(p - q, width, x - y);
  }

  lemma ShiftMultiple(d: nat, width: nat, k: int)
    requires d < width
    ensures (d - width * k) % width == d
  {
    var n := d - width * k;
    var k', r' := n / width, n % width;
    assert width * (k' + k) == d - r';
    assert width * -(k' + k) == r' - d;
    if k' + k >= 1 { ScaleAtLeast(width, k' + k); }
    else if k' + k <= -1 { ScaleAtLeast(width, -(k' + k)); }
  }

  lemma SameCounterIff(p: nat, q: nat, width: nat)
    requires q <= p < q + width
    ensures p % width == q % width <==> p == q
  {
    if p != q { CellsDistinct(p, q, width); }
  }

  lemma CellOfWrapped(p: nat, capacity: nat, width: nat)
    requires capacity > 0 && width > 0 && width % capacity == 0
    ensures Cell(p % width, capacity) == Cell(p, capacity)
  {
    var m, k, r := width / capacity, p / width, p % width;
    var j, i := r / capacity, r % capacity;
    Regroup(capacity, m, k, j, i);
    assert width == capacity * m;
    assert p == width * k + r;
    assert r == capacity * j + i;
    DivisionUnique(p, capacity, m * k + j, i);
  }

  lemma Regroup(c: nat, m: nat, k: nat, j: nat, i: nat)
    ensures (c * m) * k + (c * j + i) == c * (m * k + j) + i
  {
    assert (c * m) * k == c * (m * k);
  }
}
