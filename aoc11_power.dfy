/** aoc_11: chronal charge. Every fuel cell of a square grid has a power
    level computed from its coordinates and a serial number; a summed-area
    table (the pre-computation) gives the total power of any square in four
    lookups, and the answer is the square, over all sizes, with the largest
    total power. */
module PowerGrid {
  import opened Wrappers
  import Arith

  /** `std::i32::MIN`, the filler of a fresh grid and the initial best. */
  const I32Min := -0x8000_0000

  /** Rust's `/` on integers: the quotient rounds towards zero, so the
      remainder left over has the sign of the dividend. */
  function Quot(a: int, b: int): (q: int)
    requires b > 0
    ensures 0 <= a ==> 0 <= a - b * q < b
    ensures a < 0 ==> -b < a - b * q <= 0
  {
    if a >= 0 then a / b else -((-a) / b)
  }

  /** Rust's `%` on integers. */
  function Rem(a: int, b: int): (r: int)
    requires b > 0
    ensures -b < r < b
    ensures 0 <= a ==> r == a % b
  {
    a - b * Quot(a, b)
  }

  /** The power level computed by `create_grid` for cell (x, y): with
      rack id x + 10, the hundreds digit of (rack id * y + serial) * rack
      id, minus 5. */
  function Power(x: int, y: int, serial: int): (r: int)
    ensures -14 <= r <= 4
  {
    var rack := x + 10;
    Rem(Quot((rack * y + serial) * rack, 100), 10) - 5
  }

  /** With a non-negative product the power level is the hundreds digit
      shifted down by 5: between -5 and 4. */
  lemma PowerDigit(x: int, y: int, serial: int)
    requires x + 10 >= 0 && (x + 10) * y + serial >= 0
    ensures Power(x, y, serial) == ((x + 10) * y + serial) * (x + 10) / 100 % 10 - 5
    ensures -5 <= Power(x, y, serial) <= 4
  {
    var rack := x + 10;
    Arith.MulLe(rack, 0, rack * y + serial);
    assert (rack * y + serial) * rack == rack * (rack * y + serial);
  }

  /** The power grid as a function of the coordinates. */
  function PowerAt(serial: int): (int, int) -> int
  {
    (x: int, y: int) => Power(x, y, serial)
  }

  /** The order of `get_coordinates`: x-major, y-minor. */
  predicate LexLess(c: (int, int), d: (int, int))
  {
    c.0 < d.0 || (c.0 == d.0 && c.1 < d.1)
  }

  predicate Sorted(s: seq<(int, int)>)
  {
    forall i, j :: 0 <= i < j < |s| ==> LexLess(s[i], s[j])
  }

  /** The run of `get_coordinates` with first coordinate `x`: y from `lo`
      up to `hi`. */
  function Column(x: int, lo: int, hi: int): (r: seq<(int, int)>)
    ensures forall c :: c in r <==> c.0 == x && lo <= c.1 <= hi
    ensures |r| == if hi < lo then 0 else hi - lo + 1
    decreases hi - lo + 1
  {
    if hi < lo then [] else Column(x, lo, hi - 1) + [(x, hi)]
  }

  /** The columns of `get_coordinates(lo, hi)` with first coordinate up
      to `last`. */
  function Columns(lo: int, hi: int, last: int): (r: seq<(int, int)>)
    ensures forall c :: c in r <==> lo <= c.0 <= last && lo <= c.1 <= hi
    decreases last - lo + 1
  {
    if last < lo then [] else Columns(lo, hi, last - 1) + Column(last, lo, hi)
  }

  /** `get_coordinates(lo, hi)`: every pair of the square lo..=hi. */
  function Coordinates(lo: int, hi: int): (r: seq<(int, int)>)
    ensures forall c :: c in r <==> lo <= c.0 <= hi && lo <= c.1 <= hi
  {
    Columns(lo, hi, hi)
  }

  lemma {:induction false} ColumnSorted(x: int, lo: int, hi: int)
    ensures Sorted(Column(x, lo, hi))
    decreases hi - lo + 1
  {
    if hi >= lo {
      var front := Column(x, lo, hi - 1);
      ColumnSorted(x, lo, hi - 1);
      forall i | 0 <= i < |front| ensures LexLess(front[i], (x, hi)) {
        assert front[i] in front;
      }
      SortedAppend(front, [(x, hi)]);
    }
  }

  lemma {:induction false} ColumnsSorted(lo: int, hi: int, last: int)
    ensures Sorted(Columns(lo, hi, last))
    decreases last - lo + 1
  {
    if last >= lo {
      var front, col := Columns(lo, hi, last - 1), Column(last, lo, hi);
      ColumnsSorted(lo, hi, last - 1);
      ColumnSorted(last, lo, hi);
      forall i, j | 0 <= i < |front| && 0 <= j < |col| ensures LexLess(front[i], col[j]) {
        assert front[i] in front && col[j] in col;
      }
      SortedAppend(front, col);
    }
  }

  /** `get_coordinates` runs in x-major order. */
  lemma CoordinatesSorted(lo: int, hi: int)
    ensures Sorted(Coordinates(lo, hi))
  {
    ColumnsSorted(lo, hi, hi);
  }

  lemma SortedAppend(a: seq<(int, int)>, b: seq<(int, int)>)
    requires Sorted(a) && Sorted(b)
    requires forall i, j :: 0 <= i < |a| && 0 <= j < |b| ==> LexLess(a[i], b[j])
    ensures Sorted(a + b)
  {
    forall i, j | 0 <= i < j < |a + b| ensures LexLess((a + b)[i], (a + b)[j]) {
      if j < |a| {
      } else if i >= |a| {
        assert (a + b)[i] == b[i - |a|] && (a + b)[j] == b[j - |a|];
      } else {
        assert (a + b)[i] == a[i] && (a + b)[j] == b[j - |a|];
      }
    }
  }

  /** `get_coordinates` yields one pair per cell of the square. */
  lemma {:induction false} CoordinatesLength(lo: int, hi: int, last: int)
    requires lo <= hi + 1 && lo <= last + 1
    ensures |Columns(lo, hi, last)| == (hi - lo + 1) * (last - lo + 1)
    decreases last - lo + 1
  {
    if last >= lo {
      CoordinatesLength(lo, hi, last - 1);
      ColumnsLengthStep(lo, hi, last);
    }
  }

  lemma ColumnsLengthStep(lo: int, hi: int, last: int)
    requires lo <= hi + 1 && lo <= last
    requires |Columns(lo, hi, last - 1)| == (hi - lo + 1) * (last - lo)
    ensures |Columns(lo, hi, last)| == (hi - lo + 1) * (last - lo + 1)
  {
    Arith.MulSucc(hi - lo + 1, last - lo);
  }

  /** Every pair of the square has a position in `get_coordinates`. */
  lemma Position(lo: int, hi: int, c: (int, int)) returns (j: nat)
    requires lo <= c.0 <= hi && lo <= c.1 <= hi
    ensures j < |Coordinates(lo, hi)| && Coordinates(lo, hi)[j] == c
  {
    var s := Coordinates(lo, hi);
    assert c in s;
    j :| 0 <= j < |s| && s[j] == c;
  }

  /** In a sorted sequence, an entry lexicographically smaller than the
      one at position `k` comes before position `k`. */
  lemma Before(s: seq<(int, int)>, j: nat, k: nat)
    requires Sorted(s) && j < |s| && k < |s| && LexLess(s[j], s[k])
    ensures j < k
  {
  }

  /** The cell (x, y) of a row-major grid `width` by `height` stored in
      `g`, read as `get(x, y).unwrap_or(&0)` does: 0 outside the grid. */
  function Value(g: seq<int>, width: nat, height: nat, x: int, y: int): int
  {
    if |g| == width * height && 1 <= x <= width && 1 <= y <= height then
      Arith.RowMajor(width, height, x - 1, y - 1, x - 1, y - 1);
      g[width * (y - 1) + (x - 1)]
    else 0
  }

  /** The stored grid as a function of the coordinates. */
  function Cells(g: seq<int>, width: nat, height: nat): (int, int) -> int
  {
    (x: int, y: int) => Value(g, width, height, x, y)
  }

  /** `VecGrid`: a row-major grid with 1-based coordinates. */
  class VecGrid {
    const width: nat
    const height: nat
    const cells: array<int>

    ghost predicate Valid()
    {
      cells.Length == width * height
    }

    /** `VecGrid::new`: every cell holds `i32::MIN`. */
    constructor (width: nat, height: nat)
      ensures Valid() && this.width == width && this.height == height
      ensures fresh(cells)
      ensures forall i :: 0 <= i < cells.Length ==> cells[i] == I32Min
    {
      this.width := width;
      this.height := height;
      cells := new int[width * height](_ => I32Min);
    }

    /** `in_bounds`: both coordinates between 1 and the size. */
    predicate InBounds(x: int, y: int)
    {
      1 <= x <= width && 1 <= y <= height
    }

    /** `calculate_index`. */
    function Index(x: int, y: int): int
    {
      width * (y - 1) + (x - 1)
    }

    lemma IndexInRange(x: int, y: int)
      requires Valid() && InBounds(x, y)
      ensures 0 <= Index(x, y) < cells.Length
    {
      Arith.RowMajor(width, height, x - 1, y - 1, x - 1, y - 1);
    }

    /** `get`: the stored value of an in-bounds cell, `None` outside. */
    function Get(x: int, y: int): (r: Option<int>)
      requires Valid()
      reads cells
      ensures r.Some? <==> InBounds(x, y)
    {
      if !InBounds(x, y) then None
      else
        IndexInRange(x, y);
        Some(cells[Index(x, y)])
    }

    lemma GetValue(x: int, y: int)
      requires Valid() && InBounds(x, y)
      ensures Get(x, y) == Some(Value(cells[..], width, height, x, y))
    {
      IndexInRange(x, y);
    }

    /** `set`: writes the cell at `calculate_index`, which must lie in the
        vector (an index outside it panics). For an in-bounds cell exactly
        that cell changes. */
    method Set(x: int, y: int, val: int)
      requires Valid() && 0 <= Index(x, y) < cells.Length
      modifies cells
      ensures cells[..] == old(cells[..])[Index(x, y) := val]
      ensures InBounds(x, y) ==>
        forall a, b :: Get(a, b) == if a == x && b == y then Some(val) else old(Get(a, b))
    {
      cells[Index(x, y)] := val;
      if InBounds(x, y) {
        forall a, b ensures Get(a, b) == if a == x && b == y then Some(val) else old(Get(a, b)) {
          if InBounds(a, b) {
            Arith.RowMajor(width, height, x - 1, y - 1, a - 1, b - 1);
            IndexInRange(a, b);
          }
        }
      }
    }
  }

  /** The state of a fold over `get_coordinates` that stores `f` at each
      pair, when the next pair to visit is `next`: the cells before it in
      x-major order hold `f`, the others still `i32::MIN`. */
  ghost predicate FilledBefore(g: VecGrid, next: (int, int), f: (int, int) -> int)
    requires g.Valid()
    reads g.cells
  {
    forall x, y {:trigger g.Get(x, y)} :: g.InBounds(x, y) ==>
      g.Get(x, y) == Some(if LexLess((x, y), next) then f(x, y) else I32Min)
  }

  lemma FilledNone(g: VecGrid, f: (int, int) -> int)
    requires g.Valid() && forall i :: 0 <= i < g.cells.Length ==> g.cells[i] == I32Min
    ensures FilledBefore(g, (1, 1), f)
  {
    forall x, y | g.InBounds(x, y) ensures g.Get(x, y) == Some(I32Min) {
      g.IndexInRange(x, y);
    }
  }

  /** Past the last row of column x the fold goes on at the top of column
      x + 1. */
  lemma FilledColumn(g: VecGrid, x: int, f: (int, int) -> int)
    requires g.Valid() && FilledBefore(g, (x, g.height + 1), f)
    ensures FilledBefore(g, (x + 1, 1), f)
  {
  }

  /** One step of the fold: cell (x, y) gets its value. */
  method Store(g: VecGrid, x: int, y: int, ghost f: (int, int) -> int, val: int)
    requires g.Valid() && g.InBounds(x, y) && FilledBefore(g, (x, y), f) && val == f(x, y)
    modifies g.cells
    ensures FilledBefore(g, (x, y + 1), f)
  {
    g.IndexInRange(x, y);
    g.Set(x, y, val);
  }

  /** `create_grid(1, n, serial)`: the fold over `get_coordinates`, here
      the loop over x and within it over y, sets every cell of the n by n
      grid to its power level. The source's `calculate_index` is only in
      range when `from` is 1, the value `main` passes. */
  method CreateGrid(n: nat, serial: int) returns (g: VecGrid)
    ensures fresh(g) && fresh(g.cells) && g.Valid() && g.width == n && g.height == n
    ensures forall x, y {:trigger g.Get(x, y)} :: g.InBounds(x, y) ==> g.Get(x, y) == Some(Power(x, y, serial))
  {
    g := new VecGrid(n, n);
    FilledNone(g, PowerAt(serial));
    for x := 1 to n + 1
      invariant g.Valid() && g.width == n && g.height == n
      invariant FilledBefore(g, (x, 1), PowerAt(serial))
    {
      for y := 1 to n + 1
        invariant FilledBefore(g, (x, y), PowerAt(serial))
      {
        Store(g, x, y, PowerAt(serial), Power(x, y, serial));
      }
      FilledColumn(g, x, PowerAt(serial));
    }
  }

  /** The total of `f` over column x, rows 1 to b. */
  function ColSum(f: (int, int) -> int, x: int, b: int): int
    decreases b
  {
    if b <= 0 then 0 else ColSum(f, x, b - 1) + f(x, b)
  }

  /** The total of `f` over row y, columns 1 to a. */
  function RowSum(f: (int, int) -> int, a: int, y: int): int
    decreases a
  {
    if a <= 0 then 0 else RowSum(f, a - 1, y) + f(a, y)
  }

  /** The total of `f` over the rectangle from (1, 1) to (a, b), column by
      column. */
  function RectSum(f: (int, int) -> int, a: int, b: int): int
    decreases a
  {
    if a <= 0 then 0 else RectSum(f, a - 1, b) + ColSum(f, a, b)
  }

  lemma {:induction false} RectSumEmpty(f: (int, int) -> int, a: int, b: int)
    requires b <= 0
    ensures RectSum(f, a, b) == 0
    decreases a
  {
    if a > 0 {
      RectSumEmpty(f, a - 1, b);
    }
  }

  /** A rectangle one row taller adds that row. */
  lemma {:induction false} RectRow(f: (int, int) -> int, a: int, b: int)
    requires b >= 1
    ensures RectSum(f, a, b) == RectSum(f, a, b - 1) + RowSum(f, a, b)
    decreases a
  {
    if a > 0 {
      RectRow(f, a - 1, b);
    }
  }

  /** The step of `create_pre_comp`: the rectangle up to (a, b) is the one
      to its left plus the one above it, minus their overlap, plus the cell. */
  lemma InclusionExclusion(f: (int, int) -> int, a: int, b: int)
    requires a >= 1 && b >= 1
    ensures RectSum(f, a, b) == RectSum(f, a - 1, b) + RectSum(f, a, b - 1) - RectSum(f, a - 1, b - 1) + f(a, b)
  {
    RectRow(f, a, b);
    RectRow(f, a - 1, b);
  }

  /** Two functions equal on the n by n square have equal rectangle sums
      inside it. */
  lemma {:induction false} RectSumAgree(f: (int, int) -> int, h: (int, int) -> int, n: int, a: int, b: int)
    requires a <= n && b <= n
    requires forall x, y :: 1 <= x <= n && 1 <= y <= n ==> f(x, y) == h(x, y)
    ensures RectSum(f, a, b) == RectSum(h, a, b)
    decreases a
  {
    if a > 0 {
      RectSumAgree(f, h, n, a - 1, b);
      ColSumAgree(f, h, n, a, b);
    }
  }

  lemma {:induction false} ColSumAgree(f: (int, int) -> int, h: (int, int) -> int, n: int, x: int, b: int)
    requires 1 <= x <= n && b <= n
    requires forall x, y :: 1 <= x <= n && 1 <= y <= n ==> f(x, y) == h(x, y)
    ensures ColSum(f, x, b) == ColSum(h, x, b)
    decreases b
  {
    if b > 0 {
      ColSumAgree(f, h, n, x, b - 1);
    }
  }

  /** The rectangle sums of `f` as a function of the far corner. */
  ghost function RectTable(f: (int, int) -> int): (int, int) -> int
  {
    (x: int, y: int) => RectSum(f, x, y)
  }

  /** `create_pre_comp(1, n, grid)`: the fold over `get_coordinates`, here
      the loop over x and within it over y, stores at every cell (x, y) the
      total of `grid` over the rectangle from (1, 1) to (x, y). The `unwrap`
      on `grid.get` needs `grid` to cover the n by n square. */
  method CreatePreComp(n: nat, grid: VecGrid) returns (pre: VecGrid)
    requires grid.Valid() && grid.width >= n && grid.height >= n
    ensures fresh(pre) && fresh(pre.cells) && pre.Valid() && pre.width == n && pre.height == n
    ensures forall x, y {:trigger pre.Get(x, y)} :: pre.InBounds(x, y) ==>
      pre.Get(x, y) == Some(RectSum(Cells(grid.cells[..], grid.width, grid.height), x, y))
  {
    ghost var f := Cells(grid.cells[..], grid.width, grid.height);
    pre := new VecGrid(n, n);
    FilledNone(pre, RectTable(f));
    for x := 1 to n + 1
      invariant pre.Valid() && pre.width == n && pre.height == n
      invariant FilledBefore(pre, (x, 1), RectTable(f))
    {
      for y := 1 to n + 1
        invariant FilledBefore(pre, (x, y), RectTable(f))
      {
        var current := Lookups(pre, x, y, f);
        grid.GetValue(x, y);
        var cell := grid.Get(x, y);
        current := current + cell.value;
        InclusionExclusion(f, x, y);
        Store(pre, x, y, RectTable(f), current);
      }
      FilledColumn(pre, x, RectTable(f));
    }
  }

  /** `unwrap_or(&0)`. */
  function OrZero(o: Option<int>): int
  {
    if o.Some? then o.value else 0
  }

  /** The three table lookups of one step of `create_pre_comp`: the
      neighbours to the left, above and diagonally were stored before
      (x, y) in x-major order, or lie outside and read as 0. */
  method Lookups(pre: VecGrid, x: int, y: int, ghost f: (int, int) -> int) returns (current: int)
    requires pre.Valid() && pre.InBounds(x, y) && FilledBefore(pre, (x, y), RectTable(f))
    ensures current == RectSum(f, x - 1, y) + RectSum(f, x, y - 1) - RectSum(f, x - 1, y - 1)
  {
    Earlier(pre, x, y, f, x - 1, y);
    Earlier(pre, x, y, f, x, y - 1);
    Earlier(pre, x, y, f, x - 1, y - 1);
    current := OrZero(pre.Get(x - 1, y)) + OrZero(pre.Get(x, y - 1)) - OrZero(pre.Get(x - 1, y - 1));
  }

  lemma Earlier(pre: VecGrid, x: int, y: int, f: (int, int) -> int, a: int, b: int)
    requires pre.Valid() && pre.InBounds(x, y) && FilledBefore(pre, (x, y), RectTable(f))
    requires 0 <= a <= x && 0 <= b <= y && LexLess((a, b), (x, y))
    ensures OrZero(pre.Get(a, b)) == RectSum(f, a, b)
  {
    if b <= 0 {
      RectSumEmpty(f, a, b);
    }
  }

  /** The total of `f` over column x, the `k` rows from `y0`. */
  function ColRange(f: (int, int) -> int, x: int, y0: int, k: nat): int
  {
    if k == 0 then 0 else ColRange(f, x, y0, k - 1) + f(x, y0 + k - 1)
  }

  /** The total power of the `kx` by `ky` block whose top-left cell is
      (x0, y0). */
  function Square(f: (int, int) -> int, x0: int, y0: int, kx: nat, ky: nat): int
  {
    if kx == 0 then 0 else Square(f, x0, y0, kx - 1, ky) + ColRange(f, x0 + kx - 1, y0, ky)
  }

  lemma {:induction false} ColSumSplit(f: (int, int) -> int, x: int, y0: int, k: nat)
    requires y0 >= 1
    ensures ColSum(f, x, y0 - 1 + k) - ColSum(f, x, y0 - 1) == ColRange(f, x, y0, k)
  {
    if k > 0 {
      ColSumSplit(f, x, y0, k - 1);
    }
  }

  /** The four lookups of `find_max` give the block total: a block is the
      difference of four rectangles from (1, 1). */
  lemma {:induction false} SquareRect(f: (int, int) -> int, x0: int, y0: int, kx: nat, ky: nat)
    requires x0 >= 1 && y0 >= 1
    ensures Square(f, x0, y0, kx, ky) == RectSum(f, x0 + kx - 1, y0 + ky - 1) - RectSum(f, x0 - 1, y0 + ky - 1)
      - RectSum(f, x0 + kx - 1, y0 - 1) + RectSum(f, x0 - 1, y0 - 1)
  {
    if kx > 0 {
      SquareRect(f, x0, y0, kx - 1, ky);
      ColSumSplit(f, x0 - 1 + kx, y0, ky);
    }
  }

  /** A block of power levels is at least -14 per cell. */
  lemma {:induction false} SquareAtLeast(serial: int, x0: int, y0: int, kx: nat, ky: nat)
    ensures Square(PowerAt(serial), x0, y0, kx, ky) >= -14 * (ky * kx)
  {
    if kx > 0 {
      SquareAtLeast(serial, x0, y0, kx - 1, ky);
      ColRangeAtLeast(serial, x0 + kx - 1, y0, ky);
      Arith.MulSucc(ky, kx - 1);
    }
  }

  lemma {:induction false} ColRangeAtLeast(serial: int, x: int, y0: int, k: nat)
    ensures ColRange(PowerAt(serial), x, y0, k) >= -14 * k
  {
    if k > 0 {
      ColRangeAtLeast(serial, x, y0, k - 1);
    }
  }

  /** The running best of `find_max`: the top-left cell, its total power
      and the block size. */
  datatype Best = Best(corner: (int, int), power: int, size: int)

  /** The total `find_max` computes for the block of side `size` at `c`
      from the pre-computed table `p` of an n by n grid. */
  function CornerValue(p: seq<int>, n: nat, size: int, c: (int, int)): int
  {
    Value(p, n, n, c.0 + size - 1, c.1 + size - 1) - Value(p, n, n, c.0 - 1, c.1 + size - 1)
      - Value(p, n, n, c.0 + size - 1, c.1 - 1) + Value(p, n, n, c.0 - 1, c.1 - 1)
  }

  /** The fold of `find_max` from `acc` over the corners `cs`: a corner
      replaces the running best only when its total is strictly larger. */
  function FindMaxFrom(p: seq<int>, n: nat, size: int, acc: Best, cs: seq<(int, int)>): Best
    decreases |cs|
  {
    if cs == [] then acc
    else
      var v := CornerValue(p, n, size, cs[0]);
      FindMaxFrom(p, n, size, if v <= acc.power then acc else Best(cs[0], v, size), cs[1..])
  }

  /** The fold ends at a best no smaller than where it started and no
      smaller than any corner; unless it kept `acc`, it holds the first
      corner `cs[i]` reaching that total. */
  lemma {:induction false} FindMaxFromSpec(p: seq<int>, n: nat, size: int, acc: Best, cs: seq<(int, int)>)
    returns (i: int)
    ensures var r := FindMaxFrom(p, n, size, acc, cs);
      r.power >= acc.power
      && (forall j :: 0 <= j < |cs| ==> CornerValue(p, n, size, cs[j]) <= r.power)
      && (r == acc || (0 <= i < |cs| && r == Best(cs[i], CornerValue(p, n, size, cs[i]), size)
          && r.power > acc.power
          && forall j :: 0 <= j < i ==> CornerValue(p, n, size, cs[j]) < r.power))
    decreases |cs|
  {
    if cs == [] {
      i := -1;
    } else {
      var v := CornerValue(p, n, size, cs[0]);
      var acc' := if v <= acc.power then acc else Best(cs[0], v, size);
      var i' := FindMaxFromSpec(p, n, size, acc', cs[1..]);
      var r := FindMaxFrom(p, n, size, acc', cs[1..]);
      assert forall j :: 1 <= j < |cs| ==> cs[j] == cs[1..][j - 1];
      if r == acc' && v > acc.power {
        i := 0;
      } else {
        i := i' + 1;
      }
    }
  }

  /** `find_max(1, n, size, pre_comp)`: the fold over the corners of
      `get_coordinates(1, n - size + 1)` from `((-1, -1), i32::MIN, size)`. */
  function FindMax(p: seq<int>, n: nat, size: int): Best
  {
    FindMaxFrom(p, n, size, Best((-1, -1), I32Min, size), Coordinates(1, n - size + 1))
  }

  /** `find_max` returns a best of the requested size that no corner beats;
      unless it kept its initial value it is a corner, its total is that
      corner's, and no corner before it in x-major order reaches it. */
  lemma FindMaxSpec(p: seq<int>, n: nat, size: int)
    ensures FindMax(p, n, size).size == size
    ensures forall x, y :: 1 <= x <= n - size + 1 && 1 <= y <= n - size + 1 ==>
      CornerValue(p, n, size, (x, y)) <= FindMax(p, n, size).power
    ensures var r := FindMax(p, n, size);
      r == Best((-1, -1), I32Min, size)
      || (1 <= r.corner.0 <= n - size + 1 && 1 <= r.corner.1 <= n - size + 1
          && r.power == CornerValue(p, n, size, r.corner) && r.power > I32Min
          && forall x, y :: 1 <= x <= n - size + 1 && 1 <= y <= n - size + 1 && LexLess((x, y), r.corner) ==>
               CornerValue(p, n, size, (x, y)) < r.power)
  {
    var m := n - size + 1;
    var cs := Coordinates(1, m);
    var init := Best((-1, -1), I32Min, size);
    var i := FindMaxFromSpec(p, n, size, init, cs);
    var r := FindMax(p, n, size);
    forall x, y | 1 <= x <= m && 1 <= y <= m
      ensures CornerValue(p, n, size, (x, y)) <= r.power
    {
      var j := Position(1, m, (x, y));
    }
    if r != init {
      CoordinatesSorted(1, m);
      forall x, y | 1 <= x <= m && 1 <= y <= m && LexLess((x, y), r.corner)
        ensures CornerValue(p, n, size, (x, y)) < r.power
      {
        var j := Position(1, m, (x, y));
        Before(cs, j, i);
      }
      assert cs[i] in cs;
    }
  }

  /** With the table of an n by n grid, the four lookups of `find_max` at
      an in-range corner give the total of the block. */
  lemma CornerSquare(p: seq<int>, n: nat, f: (int, int) -> int, size: int, x: int, y: int)
    requires |p| == n * n && 1 <= size
    requires forall a, b {:trigger Value(p, n, n, a, b)} :: 1 <= a <= n && 1 <= b <= n ==> Value(p, n, n, a, b) == RectSum(f, a, b)
    requires 1 <= x <= n - size + 1 && 1 <= y <= n - size + 1
    ensures CornerValue(p, n, size, (x, y)) == Square(f, x, y, size, size)
  {
    var x1, y1 := x + size - 1, y + size - 1;
    assert CornerValue(p, n, size, (x, y)) == Value(p, n, n, x1, y1) - Value(p, n, n, x - 1, y1)
      - Value(p, n, n, x1, y - 1) + Value(p, n, n, x - 1, y - 1);
    TableAt(p, n, f, x1, y1);
    TableAt(p, n, f, x - 1, y1);
    TableAt(p, n, f, x1, y - 1);
    TableAt(p, n, f, x - 1, y - 1);
    SquareRect(f, x, y, size, size);
  }

  /** The table also agrees with the rectangle sums on the empty
      rectangles of row 0 and column 0, which it reads as 0. */
  lemma TableAt(p: seq<int>, n: nat, f: (int, int) -> int, a: int, b: int)
    requires |p| == n * n
    requires forall a, b {:trigger Value(p, n, n, a, b)} :: 1 <= a <= n && 1 <= b <= n ==> Value(p, n, n, a, b) == RectSum(f, a, b)
    requires 0 <= a <= n && 0 <= b <= n
    ensures Value(p, n, n, a, b) == RectSum(f, a, b)
  {
    if b == 0 {
      RectSumEmpty(f, a, b);
    }
  }

  /** `max_by_key` on the totals: the last of the largest. */
  function MaxByKey(rs: seq<Best>): (r: Option<Best>)
    ensures r.None? <==> rs == []
    ensures r.Some? ==> r.value in rs && forall i :: 0 <= i < |rs| ==> rs[i].power <= r.value.power
  {
    if rs == [] then None
    else
      var rest := MaxByKey(rs[..|rs| - 1]);
      var last := rs[|rs| - 1];
      assert forall i :: 0 <= i < |rs| - 1 ==> rs[i] == rs[..|rs| - 1][i];
      if rest.None? || last.power >= rest.value.power then Some(last) else rest
  }

  /** Of several entries with the largest total `max_by_key` picks the
      last: every later entry is strictly smaller. */
  lemma {:induction false} MaxByKeyLast(rs: seq<Best>) returns (i: nat)
    requires rs != []
    ensures i < |rs| && MaxByKey(rs) == Some(rs[i])
    ensures forall j :: i < j < |rs| ==> rs[j].power < rs[i].power
  {
    var front := rs[..|rs| - 1];
    var rest := MaxByKey(front);
    if rest.None? || rs[|rs| - 1].power >= rest.value.power {
      i := |rs| - 1;
    } else {
      i := MaxByKeyLast(front);
    }
  }

  /** Power grid side length of `main`. */
  const Side := 300

  /** `main` with the serial number as a parameter and `to` = n: the best
      over all sizes 1..=n of the best square of each size. It is `None`
      exactly when there is no size; otherwise no block of any size has a
      larger total, and up to the puzzle's side of 300 it is a real block
      with that total. */
  method Run(n: nat, serial: int) returns (res: Option<Best>)
    ensures res.None? <==> n == 0
    ensures res.Some? ==> 1 <= res.value.size <= n
    ensures res.Some? ==> forall s, x, y :: 1 <= s <= n && 1 <= x <= n - s + 1 && 1 <= y <= n - s + 1 ==>
      Square(PowerAt(serial), x, y, s, s) <= res.value.power
    ensures res.Some? && n <= Side ==> IsBlock(res.value, n, serial)
  {
    var grid := CreateGrid(n, serial);
    var pre := CreatePreComp(n, grid);
    var p := pre.cells[..];
    Table(grid, pre, n, serial);
    res := MaxByKey(Results(p, n));
    AnswerSize(p, n);
    AnswerBound(p, n, serial);
    if n <= Side {
      AllBlocks(p, n, serial);
      PickedBlock(Results(p, n), n, serial);
    }
  }

  /** The `map` of `main`: the best square of each size 1..=n. */
  function Results(p: seq<int>, n: nat): (r: seq<Best>)
    ensures |r| == n && forall i :: 0 <= i < n ==> r[i] == FindMax(p, n, i + 1)
  {
    seq(n, i requires 0 <= i < n => FindMax(p, n, i + 1))
  }

  /** The answer has one of the sizes tried. */
  lemma AnswerSize(p: seq<int>, n: nat)
    ensures var res := MaxByKey(Results(p, n));
      res.Some? ==> 1 <= res.value.size <= n
  {
    var results := Results(p, n);
    if MaxByKey(results).Some? {
      var k := MaxByKeyLast(results);
      FindMaxSpec(p, n, k + 1);
    }
  }

  /** No block of any size has a larger total than the answer. */
  lemma AnswerBound(p: seq<int>, n: nat, serial: int)
    requires IsTable(p, n, serial)
    ensures var res := MaxByKey(Results(p, n));
      res.Some? ==> forall s, x, y :: 1 <= s <= n && 1 <= x <= n - s + 1 && 1 <= y <= n - s + 1 ==>
        Square(PowerAt(serial), x, y, s, s) <= res.value.power
  {
    var results := Results(p, n);
    var res := MaxByKey(results);
    if res.Some? {
      forall s | 1 <= s <= n ensures FindMax(p, n, s).power <= res.value.power {
        assert results[s - 1] == FindMax(p, n, s);
      }
      BestOverall(p, n, serial, res.value);
    }
  }

  /** Up to the puzzle's side the best of every size is a real block. */
  lemma AllBlocks(p: seq<int>, n: nat, serial: int)
    requires IsTable(p, n, serial) && n <= Side
    ensures forall i :: 0 <= i < n ==> IsBlock(Results(p, n)[i], n, serial)
  {
    forall i | 0 <= i < n ensures IsBlock(Results(p, n)[i], n, serial) {
      BestIsBlock(p, n, serial, i + 1);
    }
  }

  /** `max_by_key` picks one of the entries. */
  lemma PickedBlock(results: seq<Best>, n: nat, serial: int)
    requires forall i :: 0 <= i < |results| ==> IsBlock(results[i], n, serial)
    ensures MaxByKey(results).Some? ==> IsBlock(MaxByKey(results).value, n, serial)
  {
  }

  /** A total no smaller than the best of every size is no smaller than
      any block. */
  lemma BestOverall(p: seq<int>, n: nat, serial: int, best: Best)
    requires IsTable(p, n, serial)
    requires forall s :: 1 <= s <= n ==> FindMax(p, n, s).power <= best.power
    ensures forall s, x, y :: 1 <= s <= n && 1 <= x <= n - s + 1 && 1 <= y <= n - s + 1 ==>
      Square(PowerAt(serial), x, y, s, s) <= best.power
  {
    forall s, x, y | 1 <= s <= n && 1 <= x <= n - s + 1 && 1 <= y <= n - s + 1
      ensures Square(PowerAt(serial), x, y, s, s) <= best.power
    {
      FindMaxSpec(p, n, s);
      CornerSquare(p, n, PowerAt(serial), s, x, y);
    }
  }

  /** The block of side `b.size` at `b.corner` lies in the n by n grid and
      its total power is `b.power`. */
  ghost predicate IsBlock(b: Best, n: nat, serial: int)
  {
    1 <= b.size && 1 <= b.corner.0 <= n - b.size + 1 && 1 <= b.corner.1 <= n - b.size + 1
    && b.power == Square(PowerAt(serial), b.corner.0, b.corner.1, b.size, b.size)
  }

  /** The table predicate of `Main`: every entry of the pre-computed
      table is the rectangle sum of power levels. */
  ghost predicate IsTable(p: seq<int>, n: nat, serial: int)
  {
    |p| == n * n
    && forall a, b {:trigger Value(p, n, n, a, b)} :: 1 <= a <= n && 1 <= b <= n ==> Value(p, n, n, a, b) == RectSum(PowerAt(serial), a, b)
  }

  lemma Table(grid: VecGrid, pre: VecGrid, n: nat, serial: int)
    requires grid.Valid() && grid.width == n && grid.height == n
    requires forall x, y {:trigger grid.Get(x, y)} :: grid.InBounds(x, y) ==> grid.Get(x, y) == Some(Power(x, y, serial))
    requires pre.Valid() && pre.width == n && pre.height == n
    requires forall x, y {:trigger pre.Get(x, y)} :: pre.InBounds(x, y) ==>
      pre.Get(x, y) == Some(RectSum(Cells(grid.cells[..], grid.width, grid.height), x, y))
    ensures IsTable(pre.cells[..], n, serial)
  {
    var f := Cells(grid.cells[..], n, n);
    forall x, y | 1 <= x <= n && 1 <= y <= n ensures f(x, y) == PowerAt(serial)(x, y) {
      grid.GetValue(x, y);
    }
    forall a, b | 1 <= a <= n && 1 <= b <= n
      ensures Value(pre.cells[..], n, n, a, b) == RectSum(PowerAt(serial), a, b)
    {
      pre.GetValue(a, b);
      RectSumAgree(f, PowerAt(serial), n, a, b);
    }
  }

  /** On a side of at most `Side` every block beats `i32::MIN`, so the best
      of each size is a real block. */
  lemma BestIsBlock(p: seq<int>, n: nat, serial: int, s: int)
    requires IsTable(p, n, serial) && 1 <= s <= n <= Side
    ensures IsBlock(FindMax(p, n, s), n, serial)
  {
    FindMaxSpec(p, n, s);
    var r := FindMax(p, n, s);
    CornerSquare(p, n, PowerAt(serial), s, 1, 1);
    SquareAtLeast(serial, 1, 1, s, s);
    Arith.MulLe(s, s, Side);
    Arith.MulLe(Side, s, Side);
    assert r != Best((-1, -1), I32Min, s);
    CornerSquare(p, n, PowerAt(serial), s, r.corner.0, r.corner.1);
  }
}
