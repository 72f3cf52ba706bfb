/**
 * Board generation (src/board.rs): bomb placement by fill-and-shuffle, linear
 * index arithmetic on a `width` x `height` grid, and Moore-neighbourhood counts.
 * The grid dimensions are the configuration constants GRID_WIDTH and
 * GRID_HEIGHT; here they are parameters, and GRID_CELLS is their product.
 */
module Board {
  import opened Numeric

  // ---------------------------------------------------------------------------
  // Index arithmetic
  // ---------------------------------------------------------------------------

  /** The column of linear index `i`. */
  function Column(width: nat, i: nat): nat
    requires width > 0
  {
    i % width
  }

  /** The row of linear index `i`. */
  function Row(width: nat, i: nat): nat
    requires width > 0
  {
    i / width
  }

  /** Division with remainder has a unique quotient and remainder. */
  lemma DivModUnique(n: int, d: int, q: int, r: int)
    requires d > 0 && 0 <= r < d && n == q * d + r
    ensures n / d == q && n % d == r
  {
    var q', r' := n / d, n % d;
    assert n == q' * d + r';
    if q' < q {
      MulAtLeast(q - q', d);
    } else if q < q' {
      MulAtLeast(q' - q, d);
    }
  }

  lemma MulAtLeast(k: int, d: int)
    requires k >= 1 && d > 0
    ensures k * d >= d
  {
  }

  /**
   * `grid_index(x, y)`: the row-major index `y * width + x`. Whenever the
   * column is in range, the coordinates are recovered as `idx % width` and
   * `idx / width`.
   */
  function GridIndex(width: nat, x: nat, y: nat): (idx: nat)
    ensures x < width ==> Column(width, idx) == x && Row(width, idx) == y
  {
    if x < width then
      DivModUnique(y * width + x, width, y, x);
      y * width + x
    else
      y * width + x
  }

  /** An in-grid coordinate pair has an index below `width * height`. */
  lemma GridIndexInGrid(width: nat, height: nat, x: nat, y: nat)
    requires x < width && y < height
    ensures GridIndex(width, x, y) < width * height
  {
    assert y * width <= (height - 1) * width by { MulMonotone(y, height - 1, width); }
    assert (height - 1) * width == height * width - width;
  }

  lemma MulMonotone(a: int, b: int, c: int)
    requires 0 <= a <= b && c >= 0
    ensures a * c <= b * c
  {
  }

  /** `GridIndex` of an in-bounds pair, known to address a cell of the grid. */
  function CellIndex(width: nat, height: nat, x: int, y: int): (i: nat)
    requires InBounds(width, height, x, y)
    ensures i < width * height && Column(width, i) == x && Row(width, i) == y
  {
    GridIndexInGrid(width, height, x, y);
    GridIndex(width, x, y)
  }

  /** `GridIndex` is injective on in-grid columns. */
  lemma GridIndexInjective(width: nat, x1: nat, y1: nat, x2: nat, y2: nat)
    requires x1 < width && x2 < width
    requires GridIndex(width, x1, y1) == GridIndex(width, x2, y2)
    ensures x1 == x2 && y1 == y2
  {
  }

  /** Every index below `width * height` is the index of its own coordinates. */
  lemma IndexRoundTrip(width: nat, height: nat, i: nat)
    requires width > 0 && i < width * height
    ensures Column(width, i) < width && Row(width, i) < height
    ensures GridIndex(width, Column(width, i), Row(width, i)) == i
  {
    var q, r := i / width, i % width;
    assert i == q * width + r;
    if q >= height {
      assert q * width >= height * width by { MulMonotone(height, q, width); }
      assert false;
    }
  }

  /** `is_in_bounds(x, y)`: the coordinate pair lies on the grid. */
  predicate InBounds(width: nat, height: nat, x: int, y: int) {
    0 <= x < width && 0 <= y < height
  }

  /** The in-bounds coordinate pairs are exactly the coordinates of the grid's indices. */
  lemma InBoundsIffGridCell(width: nat, height: nat, x: int, y: int)
    requires width > 0
    ensures InBounds(width, height, x, y) <==>
            exists i: nat :: i < width * height && Column(width, i) == x && Row(width, i) == y
  {
    if InBounds(width, height, x, y) {
      GridIndexInGrid(width, height, x, y);
      var i := GridIndex(width, x, y);
      assert i < width * height && Column(width, i) == x && Row(width, i) == y;
    }
    if exists i: nat :: i < width * height && Column(width, i) == x && Row(width, i) == y {
      var i: nat :| i < width * height && Column(width, i) == x && Row(width, i) == y;
      IndexRoundTrip(width, height, i);
    }
  }

  // ---------------------------------------------------------------------------
  // Bomb placement
  // ---------------------------------------------------------------------------

  /** `vec![true; number]` extended with `vec![false; len - number]`. */
  function Filled(len: nat, number: nat): seq<bool>
    requires number <= len
  {
    seq(number, _ => true) + seq(len - number, _ => false)
  }

  lemma {:induction false} ConstantMultiset(n: nat, b: bool)
    ensures multiset(seq(n, _ => b))[b] == n
    ensures multiset(seq(n, _ => b))[!b] == 0
  {
    if n > 0 {
      ConstantMultiset(n - 1, b);
      assert seq(n, _ => b) == seq(n - 1, _ => b) + [b];
    }
  }

  /** The filled vector has length `len` and exactly `number` trues. */
  lemma FilledCounts(len: nat, number: nat)
    requires number <= len
    ensures |Filled(len, number)| == len
    ensures multiset(Filled(len, number))[true] == number
    ensures multiset(Filled(len, number))[false] == len - number
  {
    ConstantMultiset(number, true);
    ConstantMultiset(len - number, false);
  }

  /**
   * `shuffle`: permutes the array in place. The swap partner drawn from the
   * random number generator is an arbitrary index in `[0, i]`, as in the
   * Fisher-Yates loop the Rust library runs.
   */
  method Shuffle<T>(a: array<T>)
    modifies a
    ensures multiset(a[..]) == multiset(old(a[..]))
  {
    var i := a.Length;
    while i > 1
      invariant 0 <= i <= a.Length
      invariant multiset(a[..]) == multiset(old(a[..]))
    {
      i := i - 1;
      var j :| 0 <= j <= i;
      a[i], a[j] := a[j], a[i];
    }
  }

  /**
   * `generate_random_bool_array(len, number)`: a vector of length `len` with
   * exactly `number` trues in some order. `number > len` underflows
   * `len - number` in the source, so it is a precondition here.
   */
  method GenerateRandomBoolArray(len: nat, number: nat) returns (r: seq<bool>)
    requires number <= len
    ensures |r| == len
    ensures multiset(r) == multiset(Filled(len, number))
    ensures multiset(r)[true] == number && multiset(r)[false] == len - number
  {
    var filled := Filled(len, number);
    var a := new bool[len](i => i < number);
    assert a[..] == filled;
    Shuffle(a);
    r := a[..];
    FilledCounts(len, number);
  }

  // ---------------------------------------------------------------------------
  // Neighbour counts
  // ---------------------------------------------------------------------------

  /** (nx, ny) is one of the eight Moore neighbours of (x, y). */
  predicate MooreAdjacent(x: int, y: int, nx: int, ny: int) {
    -1 <= nx - x <= 1 && -1 <= ny - y <= 1 && (nx != x || ny != y)
  }

  /**
   * Independent reference: scan every cell of the grid and keep the bombs
   * that are Moore neighbours of (x, y).
   */
  function NeighborBombs(width: nat, height: nat, bombs: seq<bool>, x: int, y: int): set<nat>
    requires width > 0 && |bombs| >= width * height
  {
    set j: nat | j < width * height && bombs[j] && MooreAdjacent(x, y, Column(width, j), Row(width, j))
  }

  /** The number of bombs among the in-grid Moore neighbours of (x, y). */
  function BruteForceCount(width: nat, height: nat, bombs: seq<bool>, x: int, y: int): nat
    requires width > 0 && |bombs| >= width * height
  {
    |NeighborBombs(width, height, bombs, x, y)|
  }

  /** The count the board promises for cell `i`: 0 for a bomb, else its bomb neighbours. */
  function ExpectedCount(width: nat, height: nat, bombs: seq<bool>, i: nat): nat
    requires width > 0 && |bombs| >= width * height && i < width * height
  {
    if bombs[i] then 0 else BruteForceCount(width, height, bombs, Column(width, i), Row(width, i))
  }

  /** Offset number `t` in `[0, 9)` stands for (dx, dy) in the loop order of the source. */
  function OffsetDx(t: int): int { t / 3 - 1 }

  function OffsetDy(t: int): int { t % 3 - 1 }

  /** The offset number of (nx, ny) seen from (x, y). */
  function OffsetIndex(x: int, y: int, nx: int, ny: int): int {
    (nx - x + 1) * 3 + (ny - y + 1)
  }

  lemma OffsetEncode(dx: int, dy: int)
    requires -1 <= dx <= 1 && -1 <= dy <= 1
    ensures OffsetDx((dx + 1) * 3 + dy + 1) == dx
    ensures OffsetDy((dx + 1) * 3 + dy + 1) == dy
  {
  }

  lemma OffsetDecode(t: int)
    requires 0 <= t < 9
    ensures -1 <= OffsetDx(t) <= 1 && -1 <= OffsetDy(t) <= 1
    ensures (OffsetDx(t) + 1) * 3 + OffsetDy(t) + 1 == t
  {
  }

  /** Whether offset number `t` from (x, y) lands on an in-bounds bomb (the `count += 1` test). */
  function Hit(width: nat, height: nat, bombs: seq<bool>, x: int, y: int, t: int): nat
    requires width > 0 && |bombs| >= width * height
  {
    var nx, ny := x + OffsetDx(t), y + OffsetDy(t);
    if OffsetDx(t) == 0 && OffsetDy(t) == 0 then 0
    else if InBounds(width, height, nx, ny) && (GridIndexInGrid(width, height, nx, ny);
                                               bombs[GridIndex(width, nx, ny)]) then 1
    else 0
  }

  /** The count accumulated over the first `t` offsets of the `dx`/`dy` loops. */
  function PrefixCount(width: nat, height: nat, bombs: seq<bool>, x: int, y: int, t: nat): nat
    requires width > 0 && |bombs| >= width * height && t <= 9
  {
    if t == 0 then 0 else PrefixCount(width, height, bombs, x, y, t - 1) + Hit(width, height, bombs, x, y, t - 1)
  }

  /** The bomb neighbours of (x, y) whose offset number is below `t`. */
  function NeighborBombsBelow(width: nat, height: nat, bombs: seq<bool>, x: int, y: int, t: int): set<nat>
    requires width > 0 && |bombs| >= width * height
  {
    set j: nat | j < width * height && bombs[j] && MooreAdjacent(x, y, Column(width, j), Row(width, j))
                 && OffsetIndex(x, y, Column(width, j), Row(width, j)) < t
  }

  /** One step of the offset loop adds exactly the neighbour at offset `t`, if it is a bomb. */
  lemma NeighborBombsStep(width: nat, height: nat, bombs: seq<bool>, x: int, y: int, t: int)
    requires width > 0 && |bombs| >= width * height && 0 <= t < 9
    ensures |NeighborBombsBelow(width, height, bombs, x, y, t + 1)|
            == |NeighborBombsBelow(width, height, bombs, x, y, t)| + Hit(width, height, bombs, x, y, t)
  {
    var below := NeighborBombsBelow(width, height, bombs, x, y, t);
    var next := NeighborBombsBelow(width, height, bombs, x, y, t + 1);
    OffsetDecode(t);
    var dx, dy := OffsetDx(t), OffsetDy(t);
    var nx, ny := x + dx, y + dy;
    // Every member of `next` not in `below` sits at offset t, hence at (nx, ny).
    forall j | j in next && j !in below
      ensures InBounds(width, height, nx, ny) && j == GridIndex(width, nx, ny) && (dx != 0 || dy != 0)
    {
      var cx, cy := Column(width, j), Row(width, j);
      OffsetEncode(cx - x, cy - y);
      IndexRoundTrip(width, height, j);
    }
    if Hit(width, height, bombs, x, y, t) == 1 {
      GridIndexInGrid(width, height, nx, ny);
      var c := GridIndex(width, nx, ny);
      assert c in next;
      assert c !in below;
      assert next == below + {c};
    } else {
      assert next == below;
    }
  }

  lemma {:induction false} PrefixCountIsSetSize(width: nat, height: nat, bombs: seq<bool>, x: int, y: int, t: nat)
    requires width > 0 && |bombs| >= width * height && t <= 9
    ensures PrefixCount(width, height, bombs, x, y, t) == |NeighborBombsBelow(width, height, bombs, x, y, t)|
  {
    if t == 0 {
      assert NeighborBombsBelow(width, height, bombs, x, y, 0) == {};
    } else {
      PrefixCountIsSetSize(width, height, bombs, x, y, t - 1);
      NeighborBombsStep(width, height, bombs, x, y, t - 1);
    }
  }

  lemma {:induction false} PrefixCountBound(width: nat, height: nat, bombs: seq<bool>, x: int, y: int, t: nat)
    requires width > 0 && |bombs| >= width * height && t <= 9
    ensures PrefixCount(width, height, bombs, x, y, t) <= (if t <= 4 then t else t - 1)
  {
    if t > 0 {
      PrefixCountBound(width, height, bombs, x, y, t - 1);
    }
  }

  /**
   * The counting loops of `compute_neighbor_counts` agree with the brute-force
   * scan, and no cell has more than eight bomb neighbours.
   */
  lemma NeighborCountIsBruteForce(width: nat, height: nat, bombs: seq<bool>, x: int, y: int)
    requires width > 0 && |bombs| >= width * height
    ensures PrefixCount(width, height, bombs, x, y, 9) == BruteForceCount(width, height, bombs, x, y)
    ensures BruteForceCount(width, height, bombs, x, y) <= 8
  {
    PrefixCountIsSetSize(width, height, bombs, x, y, 9);
    assert NeighborBombsBelow(width, height, bombs, x, y, 9) == NeighborBombs(width, height, bombs, x, y);
    PrefixCountBound(width, height, bombs, x, y, 9);
  }

  /** One pass of the inner loop body at offset (dx, dy) adds that offset's hit to the count. */
  lemma CountStep(width: nat, height: nat, bombs: seq<bool>, x: int, y: int, dx: int, dy: int)
    requires width > 0 && |bombs| >= width * height
    requires -1 <= dx <= 1 && -1 <= dy <= 1
    ensures var t := (dx + 1) * 3 + dy + 1;
            && PrefixCount(width, height, bombs, x, y, t) <= 8
            && PrefixCount(width, height, bombs, x, y, t + 1) == PrefixCount(width, height, bombs, x, y, t) +
                 (if (dx == 0 && dy == 0) || !InBounds(width, height, x + dx, y + dy) then 0
                  else if bombs[CellIndex(width, height, x + dx, y + dy)] then 1 else 0)
  {
    OffsetEncode(dx, dy);
    PrefixCountBound(width, height, bombs, x, y, (dx + 1) * 3 + dy + 1);
  }

  /**
   * The `dx`/`dy` loops of `compute_neighbor_counts` for one non-bomb cell:
   * the `u8` accumulator ends at the cell's number of bomb neighbours.
   */
  method CountAround(width: nat, height: nat, bombs: seq<bool>, x: nat, y: nat) returns (count: u8)
    requires width > 0 && |bombs| >= width * height
    ensures count as int == BruteForceCount(width, height, bombs, x, y)
    ensures count <= 8
  {
    count := 0;
    for dx := -1 to 2
      invariant count as int == PrefixCount(width, height, bombs, x, y, (dx + 1) * 3)
    {
      for dy := -1 to 2
        invariant count as int == PrefixCount(width, height, bombs, x, y, (dx + 1) * 3 + dy + 1)
      {
        CountStep(width, height, bombs, x, y, dx, dy);
        if dx == 0 && dy == 0 {
          continue;
        }
        var nx, ny := x + dx, y + dy;
        if InBounds(width, height, nx, ny) && bombs[CellIndex(width, height, nx, ny)] {
          count := count + 1;
        }
      }
    }
    NeighborCountIsBruteForce(width, height, bombs, x, y);
  }

  /** Cell `i` has been visited once the column loop has passed (x, y) in column-major order. */
  predicate Visited(width: nat, i: nat, x: int, y: int)
    requires width > 0
  {
    Column(width, i) < x || (Column(width, i) == x && Row(width, i) < y)
  }

  /** The state of `neighbor_counts` when the loops are about to visit (x, y). */
  ghost predicate CountsSoFar(width: nat, height: nat, bombs: seq<bool>, a: seq<u8>, x: int, y: int)
    requires width > 0 && |bombs| >= width * height
  {
    |a| == width * height &&
    forall i :: 0 <= i < width * height ==>
      a[i] as int == if Visited(width, i, x, y) then ExpectedCount(width, height, bombs, i) else 0
  }

  lemma VisitCell(width: nat, height: nat, bombs: seq<bool>, a: seq<u8>, x: nat, y: nat, v: u8)
    requires width > 0 && |bombs| >= width * height && x < width && y < height
    requires CountsSoFar(width, height, bombs, a, x, y)
    requires GridIndex(width, x, y) < width * height
    requires v as int == ExpectedCount(width, height, bombs, GridIndex(width, x, y))
    ensures CountsSoFar(width, height, bombs, a[GridIndex(width, x, y) := v], x, y + 1)
    ensures bombs[GridIndex(width, x, y)] ==> a[GridIndex(width, x, y) := v] == a
  {
    var idx := GridIndex(width, x, y);
    var a' := a[idx := v];
    forall i | 0 <= i < width * height
      ensures a'[i] as int == if Visited(width, i, x, y + 1) then ExpectedCount(width, height, bombs, i) else 0
    {
      if i != idx {
        IndexRoundTrip(width, height, i);
      }
    }
  }

  lemma NextColumn(width: nat, height: nat, bombs: seq<bool>, a: seq<u8>, x: nat)
    requires width > 0 && |bombs| >= width * height
    requires CountsSoFar(width, height, bombs, a, x, height)
    ensures CountsSoFar(width, height, bombs, a, x + 1, 0)
  {
    forall i | 0 <= i < width * height
      ensures Visited(width, i, x, height) == Visited(width, i, x + 1, 0)
    {
      IndexRoundTrip(width, height, i);
    }
  }

  /**
   * `compute_neighbor_counts`: for every cell, 0 if it is a bomb, otherwise the
   * number of bombs among its in-grid Moore neighbours. Each count fits the
   * `u8` accumulator with room to spare: it is at most 8.
   */
  method ComputeNeighborCounts(width: nat, height: nat, bombs: seq<bool>) returns (counts: seq<u8>)
    requires width > 0 && height > 0 && |bombs| >= width * height
    ensures |counts| == width * height
    ensures forall i :: 0 <= i < width * height ==> counts[i] as int == ExpectedCount(width, height, bombs, i)
    ensures forall i :: 0 <= i < width * height && bombs[i] ==> counts[i] == 0
    ensures forall i :: 0 <= i < width * height ==> counts[i] <= 8
  {
    var a: seq<u8> := seq(width * height, _ => 0);
    for x := 0 to width
      invariant CountsSoFar(width, height, bombs, a, x, 0)
    {
      for y := 0 to height
        invariant CountsSoFar(width, height, bombs, a, x, y)
      {
        GridIndexInGrid(width, height, x, y);
        var idx := GridIndex(width, x, y);
        if bombs[idx] {
          VisitCell(width, height, bombs, a, x, y, 0);
          continue;
        }
        var count := CountAround(width, height, bombs, x, y);
        VisitCell(width, height, bombs, a, x, y, count);
        a := a[idx := count];
      }
      NextColumn(width, height, bombs, a, x);
    }
    counts := a;
    forall i | 0 <= i < width * height
      ensures counts[i] as int == ExpectedCount(width, height, bombs, i) && counts[i] <= 8
    {
      IndexRoundTrip(width, height, i);
      NeighborCountIsBruteForce(width, height, bombs, Column(width, i), Row(width, i));
    }
  }
}
