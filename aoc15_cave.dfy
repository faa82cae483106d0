/** aoc_15: beverage bandits, the cave. A map is a `width` by `height`
    grid of cells stored row by row; a point is a column and a row. */
module Cave {
  import Arith

  /** `Point`: `.0` is the column, `.1` the row. */
  type Point = (nat, nat)

  datatype Tile = Empty | Wall

  predicate InBounds(width: nat, height: nat, p: Point)
  {
    p.0 < width && p.1 < height
  }

  /** `calculate_index`: the row times the row length, plus the column. */
  function Index(width: nat, height: nat, p: Point): (i: nat)
    requires InBounds(width, height, p)
    ensures i < width * height
  {
    Arith.RowMajor(width, height, p.0, p.1, p.0, p.1);
    width * p.1 + p.0
  }

  /** Different cells of the map are stored at different indices. */
  lemma IndexInjective(width: nat, height: nat, p: Point, q: Point)
    requires InBounds(width, height, p) && InBounds(width, height, q)
    ensures Index(width, height, p) == Index(width, height, q) ==> p == q
  {
    Arith.RowMajor(width, height, p.0, p.1, q.0, q.1);
  }

  /** The cell stored at index `i`. */
  function PointAt(width: nat, height: nat, i: nat): (p: Point)
    requires i < width * height
    ensures InBounds(width, height, p) && Index(width, height, p) == i
  {
    var p := (i % width, i / width);
    Arith.DivModUnique(i, i / width, i % width, width);
    assert i / width < height by {
      if i / width >= height {
        Arith.MulLe(width, height, i / width);
      }
    }
    p
  }

  /** Reading order: by row, then by column. */
  predicate ReadingLess(p: Point, q: Point)
  {
    p.1 < q.1 || (p.1 == q.1 && p.0 < q.0)
  }

  predicate ReadingLe(p: Point, q: Point)
  {
    p == q || ReadingLess(p, q)
  }

  /** Reading order is the order of the indices. */
  lemma IndexReadingOrder(width: nat, height: nat, p: Point, q: Point)
    requires InBounds(width, height, p) && InBounds(width, height, q)
    ensures ReadingLess(p, q) <==> Index(width, height, p) < Index(width, height, q)
  {
    if p.1 < q.1 {
      RowBefore(width, p, q);
    } else if q.1 < p.1 {
      RowBefore(width, q, p);
    }
  }

  lemma RowBefore(width: nat, p: Point, q: Point)
    requires p.0 < width && p.1 < q.1
    ensures width * p.1 + p.0 < width * q.1 + q.0
  {
    Arith.MulSucc(width, p.1);
    Arith.MulLe(width, p.1 + 1, q.1);
  }

  /** Manhattan distance 1. */
  predicate Adjacent(p: Point, q: Point)
  {
    (p.0 == q.0 && (p.1 + 1 == q.1 || q.1 + 1 == p.1))
    || (p.1 == q.1 && (p.0 + 1 == q.0 || q.0 + 1 == p.0))
  }

  /** One candidate of `get_neighbours`, kept when it is on the map. */
  function Within(width: nat, height: nat, x: int, y: int): seq<Point>
  {
    if 0 <= x < width && 0 <= y < height then [(x as nat, y as nat)] else []
  }

  /** `get_neighbours`: the cells above, to the left, to the right and
      below, in that order, that are on the map. */
  function Neighbours(width: nat, height: nat, p: Point): (r: seq<Point>)
    ensures |r| <= 4
    ensures forall i :: 0 <= i < |r| ==> InBounds(width, height, r[i]) && Adjacent(p, r[i])
  {
    var (x, y) := (p.0 as int, p.1 as int);
    Within(width, height, x, y - 1) + Within(width, height, x - 1, y)
    + Within(width, height, x + 1, y) + Within(width, height, x, y + 1)
  }

  /** The neighbours are exactly the cells on the map next to `p`. */
  lemma NeighboursAdjacent(width: nat, height: nat, p: Point, q: Point)
    ensures q in Neighbours(width, height, p) <==> InBounds(width, height, q) && Adjacent(p, q)
  {
  }

  /** Every cell on the map next to `p` is among its neighbours. */
  lemma NeighboursAll(width: nat, height: nat, p: Point)
    ensures forall q :: q in Neighbours(width, height, p) <==> InBounds(width, height, q) && Adjacent(p, q)
  {
    forall q ensures q in Neighbours(width, height, p) <==> InBounds(width, height, q) && Adjacent(p, q) {
      NeighboursAdjacent(width, height, p, q);
    }
  }

  /** Up, left, right, down is reading order, so the neighbours come
      sorted and each once. */
  lemma NeighboursOrdered(width: nat, height: nat, p: Point)
    ensures var r := Neighbours(width, height, p);
      |r| <= 4 && forall i, j :: 0 <= i < j < |r| ==> ReadingLess(r[i], r[j])
  {
  }

  /** Being neighbours is symmetric between cells of the map. */
  lemma NeighboursSymmetric(width: nat, height: nat, p: Point, q: Point)
    requires InBounds(width, height, p)
    ensures q in Neighbours(width, height, p) ==> p in Neighbours(width, height, q)
  {
    NeighboursAdjacent(width, height, p, q);
    NeighboursAdjacent(width, height, q, p);
  }

  /** `set` as written indexes with `height` as the row length. */
  function WrittenIndex(width: nat, height: nat, p: Point): nat
  {
    height * p.1 + p.0
  }

  /** On a map that is not square, `set` as written misses the cell:
      the first cell of the second row is written at index `height` but
      read back from index `width`, so `get` does not see the write. */
  lemma WrittenIndexStrays<T>(width: nat, height: nat, cells: seq<T>, val: T)
    requires width != height && 2 <= height && 2 <= width && |cells| == width * height
    ensures InBounds(width, height, (0, 1)) && WrittenIndex(width, height, (0, 1)) < |cells|
    ensures var written := cells[WrittenIndex(width, height, (0, 1)) := val];
      written[Index(width, height, (0, 1))] == cells[Index(width, height, (0, 1))]
  {
    Arith.MulLe(height, 2, width);
    Arith.MulLe(width, 2, height);
  }

  /** On a map three wide and two high, `set` as written on the first cell
      of the second row overwrites the last cell of the first row. */
  lemma WrittenIndexExample<T>(cells: seq<T>, val: T)
    requires |cells| == 6
    ensures var written := cells[WrittenIndex(3, 2, (0, 1)) := val];
      written[Index(3, 2, (2, 0))] == val && written[Index(3, 2, (0, 1))] == cells[3]
  {
  }

  /** On a square map `set` as written is the row-major index. */
  lemma WrittenIndexSquare(width: nat, p: Point)
    requires InBounds(width, width, p)
    ensures WrittenIndex(width, width, p) == Index(width, width, p)
  {
  }

  /** `Map<T>`: the cells of a `width` by `height` grid, row by row. */
  class Map<T> {
    const width: nat
    const height: nat
    const grid: array<T>

    ghost predicate Valid()
    {
      grid.Length == width * height
    }

    constructor (width: nat, height: nat, cells: seq<T>)
      requires |cells| == width * height
      ensures this.width == width && this.height == height
      ensures fresh(grid) && grid[..] == cells && Valid()
    {
      this.width := width;
      this.height := height;
      grid := new T[|cells|](i requires 0 <= i < |cells| => cells[i]);
    }

    /** `get`. */
    function Get(pos: Point): (r: T)
      requires Valid() && InBounds(width, height, pos)
      reads grid
      ensures pos.1 * width + pos.0 < grid.Length && r == grid[pos.1 * width + pos.0]
    {
      grid[Index(width, height, pos)]
    }

    /** `set`, with the row length as the stride: afterwards `pos` holds
        `val` and every other cell what it held before. */
    method Set(pos: Point, val: T)
      requires Valid() && InBounds(width, height, pos)
      modifies grid
      ensures grid[..] == old(grid[..])[Index(width, height, pos) := val]
      ensures Get(pos) == val
      ensures forall q :: InBounds(width, height, q) && q != pos ==> Get(q) == old(Get(q))
    {
      grid[Index(width, height, pos)] := val;
      forall q | InBounds(width, height, q) && q != pos ensures Get(q) == old(Get(q)) {
        IndexInjective(width, height, pos, q);
      }
    }

    /** `set` as written: the stride is `height`. */
    method SetAsWritten(pos: Point, val: T)
      requires Valid() && WrittenIndex(width, height, pos) < grid.Length
      modifies grid
      ensures grid[..] == old(grid[..])[WrittenIndex(width, height, pos) := val]
    {
      grid[WrittenIndex(width, height, pos)] := val;
    }
  }
}
