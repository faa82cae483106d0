/** aoc_6: chronal coordinates. Every input coordinate floods the grid
    outwards one generation (Manhattan ring) at a time; a cell reached first
    by one coordinate belongs to it, a cell reached in the same generation by
    two different coordinates is a contention point (ordinal -1). Flood
    entries that leave the grid mark their coordinate's area as infinite.
    Finally the cells are counted per ordinal, ignoring -1 and the infinite
    areas. */
module Areas {
  import opened Wrappers
  import Orders
  import Arith
  import opened Seqs

  /** `ProcessingEntry`: which coordinate is flooding, in which generation,
      and where. */
  datatype Entry = Entry(ordinal: int, gen: int, coordinates: (int, int))

  /** `Grid::in_bounds`. */
  predicate InBounds(width: int, height: int, c: (int, int))
  {
    0 <= c.1 < height && 0 <= c.0 < width
  }

  /** `Grid::calculate_index`: row-major, `width` cells per row. */
  function Index(width: int, c: (int, int)): int
  {
    width * c.1 + c.0
  }

  /** An in-bounds coordinate lands inside the `width * height` cells, and
      two different in-bounds coordinates land on different cells, so `get`
      never indexes out of range and `set` never overwrites another
      coordinate's cell. */
  lemma IndexInRange(width: int, height: int, c: (int, int), d: (int, int))
    requires InBounds(width, height, c) && InBounds(width, height, d)
    ensures 0 <= Index(width, c) < width * height
    ensures Index(width, c) == Index(width, d) ==> c == d
  {
    Arith.RowMajor(width, height, c.0, c.1, d.0, d.1);
  }

  /** A proper subset is smaller. */
  lemma {:induction false} SubsetSize<T>(a: set<T>, b: set<T>)
    requires a <= b
    ensures |a| <= |b|
    ensures a < b ==> |a| < |b|
  {
    if a != {} {
      var x :| x in a;
      SubsetSize(a - {x}, b - {x});
    } else if b != {} {
      var y :| y in b;
      assert |b| >= 1 by {
        assert {y} <= b;
      }
    }
  }

  /** The effect of `Grid::set` on the cell an in-bounds entry lands on: a
      clear cell (generation -1) takes the entry's ordinal and generation; a
      visited cell keeps its generation, and its ordinal becomes -1 exactly
      when another coordinate reaches it in the same generation. */
  function Mark(cell: (int, int), e: Entry): (r: (int, int))
    ensures cell.1 == -1 ==> r == (e.ordinal, e.gen)
    ensures cell.1 != -1 ==> r.1 == cell.1
    ensures cell.1 != -1 ==> r.0 == if cell.0 != e.ordinal && cell.1 == e.gen then -1 else cell.0
  {
    if cell.1 == -1 then (e.ordinal, e.gen)
    else if cell.0 == e.ordinal then cell
    else if cell.1 == e.gen then (-1, cell.1)
    else cell
  }

  /** `Grid::set` on the cells as a sequence: out-of-bounds entries change
      nothing. */
  function Place(cells: seq<(int, int)>, width: int, height: int, e: Entry): (r: seq<(int, int)>)
    requires width >= 0 && height >= 0 && |cells| == width * height
    ensures |r| == |cells|
  {
    if InBounds(width, height, e.coordinates) then
      IndexInRange(width, height, e.coordinates, e.coordinates);
      var i := Index(width, e.coordinates);
      cells[i := Mark(cells[i], e)]
    else cells
  }

  /** The cells after setting every entry of `es`, in order. */
  function PlaceAll(cells: seq<(int, int)>, width: int, height: int, es: seq<Entry>): (r: seq<(int, int)>)
    requires width >= 0 && height >= 0 && |cells| == width * height
    ensures |r| == |cells|
  {
    if es == [] then cells
    else
      var front := PlaceAll(cells, width, height, es[..|es| - 1]);
      Place(front, width, height, es[|es| - 1])
  }

  /** Every entry of `es` belongs to generation `g`. */
  predicate OfGeneration(es: seq<Entry>, g: int)
  {
    forall i :: 0 <= i < |es| ==> es[i].gen == g
  }

  /** Every cell is clear or was set in a generation before `g`. */
  predicate SetBefore(cells: seq<(int, int)>, g: int)
  {
    forall i :: 0 <= i < |cells| ==> -1 <= cells[i].1 < g
  }

  /** Setting the entries of generation `g` never changes the generation of
      a visited cell, and a clear cell stays clear or joins generation `g`. */
  lemma {:induction false} PlaceAllGenerations(cells: seq<(int, int)>, width: int, height: int, es: seq<Entry>, g: int)
    requires width >= 0 && height >= 0 && |cells| == width * height
    requires g >= 0 && OfGeneration(es, g)
    ensures var r := PlaceAll(cells, width, height, es);
      forall i :: 0 <= i < |cells| ==>
        (cells[i].1 != -1 ==> r[i].1 == cells[i].1)
        && (cells[i].1 == -1 ==> r[i].1 == -1 || r[i].1 == g)
  {
    if es != [] {
      var front := es[..|es| - 1];
      PlaceAllGenerations(cells, width, height, front, g);
    }
  }

  /** The four neighbours `part_1` pushes for an entry, carrying `ordinal`. */
  function Neighbours(ordinal: int, e: Entry): seq<Entry>
  {
    var (x, y) := e.coordinates;
    [Entry(ordinal, e.gen + 1, (x + 1, y)), Entry(ordinal, e.gen + 1, (x - 1, y)),
     Entry(ordinal, e.gen + 1, (x, y + 1)), Entry(ordinal, e.gen + 1, (x, y - 1))]
  }

  /** The next generation: every in-bounds entry whose cell was set in
      generation `g` expands to its four neighbours, carrying the cell's
      ordinal (possibly -1). */
  function Expand(cells: seq<(int, int)>, width: int, height: int, es: seq<Entry>, g: int): (r: seq<Entry>)
    requires width >= 0 && height >= 0 && |cells| == width * height
    ensures OfGeneration(es, g) ==> OfGeneration(r, g + 1)
  {
    if es == [] then []
    else
      var front := Expand(cells, width, height, es[..|es| - 1], g);
      var e := es[|es| - 1];
      if InBounds(width, height, e.coordinates) then
        IndexInRange(width, height, e.coordinates, e.coordinates);
        var cell := cells[Index(width, e.coordinates)];
        if cell.1 == g then front + Neighbours(cell.0, e) else front
      else front
  }

  /** A non-empty next generation means some in-bounds cell was set in
      generation `g`. */
  lemma {:induction false} ExpandWitness(cells: seq<(int, int)>, width: int, height: int, es: seq<Entry>, g: int)
    returns (i: nat)
    requires width >= 0 && height >= 0 && |cells| == width * height
    requires Expand(cells, width, height, es, g) != []
    ensures i < |cells| && cells[i].1 == g
  {
    var e := es[|es| - 1];
    var front := es[..|es| - 1];
    if Expand(cells, width, height, front, g) != [] {
      i := ExpandWitness(cells, width, height, front, g);
    } else {
      IndexInRange(width, height, e.coordinates, e.coordinates);
      i := Index(width, e.coordinates);
    }
  }

  /** The ordinals of the entries that fall outside the grid. */
  function Escaped(width: int, height: int, es: seq<Entry>): set<int>
  {
    set i | 0 <= i < |es| && !InBounds(width, height, es[i].coordinates) :: es[i].ordinal
  }

  /** The clear cells. */
  function Unset(cells: seq<(int, int)>): set<int>
  {
    set i | 0 <= i < |cells| && cells[i].1 == -1
  }

  /** `Grid::get` on the cells as a sequence. */
  function Get(cells: seq<(int, int)>, width: int, height: int, c: (int, int)): (int, int)
    requires width >= 0 && height >= 0 && |cells| == width * height && InBounds(width, height, c)
  {
    IndexInRange(width, height, c, c);
    cells[Index(width, c)]
  }

  /** `Grid`: the cells hold (ordinal, generation) pairs, (-1, -1) when
      clear. */
  class Grid {
    const width: int
    const height: int
    const cells: array<(int, int)>

    predicate Valid()
    {
      width >= 0 && height >= 0 && cells.Length == width * height
    }

    /** `Grid::new`: every cell clear. */
    constructor (width: int, height: int)
      requires width >= 0 && height >= 0
      ensures this.width == width && this.height == height
      ensures Valid() && fresh(cells)
      ensures forall i :: 0 <= i < cells.Length ==> cells[i] == (-1, -1)
    {
      this.width := width;
      this.height := height;
      cells := new (int, int)[width * height]((_: nat) => (-1, -1));
    }

    /** `Grid::set`. */
    method Set(e: Entry)
      requires Valid()
      modifies cells
      ensures cells[..] == Place(old(cells[..]), width, height, e)
    {
      if !InBounds(width, height, e.coordinates) {
        return;
      }
      IndexInRange(width, height, e.coordinates, e.coordinates);
      var index := Index(width, e.coordinates);
      if cells[index].1 == -1 {
        cells[index] := (e.ordinal, e.gen);
        return;
      }
      if cells[index].0 == e.ordinal {
        return;
      }
      if cells[index].1 == e.gen {
        cells[index] := (-1, cells[index].1);
      }
    }
  }

  /** The first loop of a generation: set every in-bounds entry, and
      record the ordinals of the others as infinite. */
  method SetAll(grid: Grid, stack: seq<Entry>, infinite: set<int>) returns (infinite': set<int>)
    requires grid.Valid()
    modifies grid.cells
    ensures grid.cells[..] == PlaceAll(old(grid.cells[..]), grid.width, grid.height, stack)
    ensures infinite' == infinite + Escaped(grid.width, grid.height, stack)
  {
    infinite' := infinite;
    ghost var start := grid.cells[..];
    for i := 0 to |stack|
      invariant grid.cells[..] == PlaceAll(start, grid.width, grid.height, stack[..i])
      invariant infinite' == infinite + Escaped(grid.width, grid.height, stack[..i])
    {
      assert stack[..i + 1][..i] == stack[..i];
      EscapedStep(grid.width, grid.height, stack, i);
      if !InBounds(grid.width, grid.height, stack[i].coordinates) {
        infinite' := infinite' + {stack[i].ordinal};
        continue;
      }
      grid.Set(stack[i]);
    }
    assert stack[..|stack|] == stack;
  }

  /** The second loop of a generation: expand the cells set in generation
      `g`. */
  method NextGeneration(grid: Grid, stack: seq<Entry>, g: int) returns (next: seq<Entry>)
    requires grid.Valid()
    ensures next == Expand(grid.cells[..], grid.width, grid.height, stack, g)
  {
    next := [];
    for i := 0 to |stack|
      invariant next == Expand(grid.cells[..], grid.width, grid.height, stack[..i], g)
    {
      assert stack[..i + 1][..i] == stack[..i];
      var e := stack[i];
      if InBounds(grid.width, grid.height, e.coordinates) {
        IndexInRange(grid.width, grid.height, e.coordinates, e.coordinates);
        var cell := grid.cells[Index(grid.width, e.coordinates)];
        if cell.1 == g {
          next := next + Neighbours(cell.0, e);
        }
      }
    }
    assert stack[..|stack|] == stack;
  }

  lemma EscapedStep(width: int, height: int, es: seq<Entry>, i: nat)
    requires i < |es|
    ensures Escaped(width, height, es[..i + 1])
      == Escaped(width, height, es[..i]) + (if InBounds(width, height, es[i].coordinates) then {} else {es[i].ordinal})
  {
    var front, longer := es[..i], es[..i + 1];
    assert forall j :: 0 <= j < i ==> longer[j] == front[j];
    assert longer[i] == es[i];
  }

  /** One generation strictly shrinks the set of clear cells unless it
      leaves nothing to expand, so the flood always ends. */
  lemma GenerationProgress(before: seq<(int, int)>, width: int, height: int, stack: seq<Entry>, g: int)
    requires width >= 0 && height >= 0 && |before| == width * height
    requires g >= 0 && OfGeneration(stack, g) && SetBefore(before, g)
    ensures var after := PlaceAll(before, width, height, stack);
      SetBefore(after, g + 1)
      && Unset(after) <= Unset(before)
      && (Expand(after, width, height, stack, g) != [] ==> Unset(after) < Unset(before))
  {
    var after := PlaceAll(before, width, height, stack);
    PlaceAllGenerations(before, width, height, stack, g);
    if Expand(after, width, height, stack, g) != [] {
      var i := ExpandWitness(after, width, height, stack, g);
      assert i in Unset(before) - Unset(after);
    }
  }

  /** The loop of `part_1` on values, from `cells` with the entries
      `stack` of generation `g` and the infinite ordinals `infinite`: set
      the entries, record the ordinals that escape, expand, and go on until
      a generation is empty. The result is the final cells and infinite
      ordinals. */
  ghost function Flood(cells: seq<(int, int)>, width: int, height: int, stack: seq<Entry>, g: int, infinite: set<int>)
    : (r: (seq<(int, int)>, set<int>))
    requires width >= 0 && height >= 0 && |cells| == width * height
    requires g >= 0 && OfGeneration(stack, g) && SetBefore(cells, g)
    ensures |r.0| == |cells| && infinite + Escaped(width, height, stack) <= r.1
    decreases |Unset(cells)|, if stack == [] then 0 else 1
  {
    if stack == [] then (cells, infinite)
    else
      GenerationProgress(cells, width, height, stack, g);
      var after := PlaceAll(cells, width, height, stack);
      SubsetSize(Unset(after), Unset(cells));
      Flood(after, width, height, Expand(after, width, height, stack, g), g + 1, infinite + Escaped(width, height, stack))
  }

  /** The cells, the stack and the generation number at the start of the
      `k`-th pass of the flood from `stack`; once the stack runs dry it
      stays the last state. */
  ghost function Generation(cells: seq<(int, int)>, width: int, height: int, stack: seq<Entry>, g: int, k: nat)
    : (r: (seq<(int, int)>, seq<Entry>, int))
    requires width >= 0 && height >= 0 && |cells| == width * height
    requires g >= 0 && OfGeneration(stack, g) && SetBefore(cells, g)
    ensures |r.0| == |cells| && g <= r.2 <= g + k && OfGeneration(r.1, r.2) && SetBefore(r.0, r.2)
    decreases k
  {
    if k == 0 || stack == [] then (cells, stack, g)
    else
      GenerationProgress(cells, width, height, stack, g);
      var after := PlaceAll(cells, width, height, stack);
      Generation(after, width, height, Expand(after, width, height, stack, g), g + 1, k - 1)
  }

  /** Every ordinal that escapes the grid in any pass of the flood ends in
      its infinite set. */
  lemma {:induction false} FloodCollects(cells: seq<(int, int)>, width: int, height: int, stack: seq<Entry>, g: int, infinite: set<int>, k: nat)
    requires width >= 0 && height >= 0 && |cells| == width * height
    requires g >= 0 && OfGeneration(stack, g) && SetBefore(cells, g)
    ensures Escaped(width, height, Generation(cells, width, height, stack, g, k).1)
      <= Flood(cells, width, height, stack, g, infinite).1
    decreases k
  {
    if k > 0 && stack != [] {
      GenerationProgress(cells, width, height, stack, g);
      var after := PlaceAll(cells, width, height, stack);
      FloodCollects(after, width, height, Expand(after, width, height, stack, g), g + 1,
        infinite + Escaped(width, height, stack), k - 1);
    }
  }

  /** And nothing else does: an ordinal in the flood's infinite set was
      infinite at the start or escaped the grid in some pass. */
  lemma {:induction false} FloodOnlyEscapes(cells: seq<(int, int)>, width: int, height: int, stack: seq<Entry>, g: int, infinite: set<int>, o: int)
    requires width >= 0 && height >= 0 && |cells| == width * height
    requires g >= 0 && OfGeneration(stack, g) && SetBefore(cells, g)
    requires o in Flood(cells, width, height, stack, g, infinite).1
    ensures o in infinite || exists k: nat :: o in Escaped(width, height, Generation(cells, width, height, stack, g, k).1)
    decreases |Unset(cells)|, if stack == [] then 0 else 1
  {
    if stack != [] {
      GenerationProgress(cells, width, height, stack, g);
      var after := PlaceAll(cells, width, height, stack);
      var next := Expand(after, width, height, stack, g);
      SubsetSize(Unset(after), Unset(cells));
      FloodOnlyEscapes(after, width, height, next, g + 1, infinite + Escaped(width, height, stack), o);
      if o in Escaped(width, height, stack) {
        var k: nat := 0;
        var first := Generation(cells, width, height, stack, g, k);
        assert o in Escaped(width, height, first.1);
        assert exists j: nat :: o in Escaped(width, height, Generation(cells, width, height, stack, g, j).1);
      } else if o !in infinite {
        var k: nat :| o in Escaped(width, height, Generation(after, width, height, next, g + 1, k).1);
        GenerationShift(cells, width, height, stack, g, k);
        var later := Generation(cells, width, height, stack, g, k + 1);
        assert o in Escaped(width, height, later.1);
      }
    }
  }

  /** The passes after the first are those of the flood from the next
      generation. */
  lemma GenerationShift(cells: seq<(int, int)>, width: int, height: int, stack: seq<Entry>, g: int, k: nat)
    requires width >= 0 && height >= 0 && |cells| == width * height
    requires g >= 0 && OfGeneration(stack, g) && SetBefore(cells, g) && stack != []
    ensures var after := PlaceAll(cells, width, height, stack);
      SetBefore(after, g + 1)
      && Generation(cells, width, height, stack, g, k + 1)
        == Generation(after, width, height, Expand(after, width, height, stack, g), g + 1, k)
  {
    GenerationProgress(cells, width, height, stack, g);
  }

  /** Setting the entries of generation `g` leaves a cell set in another
      generation as it is: the first generation to reach a cell owns it. */
  lemma {:induction false} PlaceAllKeeps(cells: seq<(int, int)>, width: int, height: int, es: seq<Entry>, g: int, i: nat)
    requires width >= 0 && height >= 0 && |cells| == width * height
    requires OfGeneration(es, g) && i < |cells| && cells[i].1 != -1 && cells[i].1 != g
    ensures PlaceAll(cells, width, height, es)[i] == cells[i]
  {
    if es != [] {
      PlaceAllKeeps(cells, width, height, es[..|es| - 1], g, i);
    }
  }

  /** Entries that all land elsewhere than `c` leave its cell as it is. */
  lemma {:induction false} PlaceAllElsewhere(cells: seq<(int, int)>, width: int, height: int, es: seq<Entry>, c: (int, int))
    requires width >= 0 && height >= 0 && |cells| == width * height && InBounds(width, height, c)
    requires forall j :: 0 <= j < |es| ==> es[j].coordinates != c
    ensures Get(PlaceAll(cells, width, height, es), width, height, c) == Get(cells, width, height, c)
  {
    if es != [] {
      var n := |es| - 1;
      var e := es[n];
      var front := PlaceAll(cells, width, height, es[..n]);
      PlaceAllElsewhere(cells, width, height, es[..n], c);
      IndexInRange(width, height, c, c);
      if InBounds(width, height, e.coordinates) {
        IndexInRange(width, height, e.coordinates, c);
        assert Index(width, e.coordinates) != Index(width, c);
      }
      assert PlaceAll(cells, width, height, es)[Index(width, c)] == front[Index(width, c)];
    }
  }

  /** An in-bounds entry that no other entry shares lands on a clear cell
      and leaves it holding its own ordinal and generation. */
  lemma {:induction false} PlaceAllSole(cells: seq<(int, int)>, width: int, height: int, es: seq<Entry>, k: nat)
    requires width >= 0 && height >= 0 && |cells| == width * height
    requires k < |es| && InBounds(width, height, es[k].coordinates)
    requires forall j :: 0 <= j < |es| && j != k ==> es[j].coordinates != es[k].coordinates
    requires Get(cells, width, height, es[k].coordinates).1 == -1
    ensures Get(PlaceAll(cells, width, height, es), width, height, es[k].coordinates) == (es[k].ordinal, es[k].gen)
  {
    var n := |es| - 1;
    var c := es[k].coordinates;
    IndexInRange(width, height, c, c);
    if k == n {
      PlaceAllElsewhere(cells, width, height, es[..n], c);
    } else {
      PlaceAllSole(cells, width, height, es[..n], k);
      if InBounds(width, height, es[n].coordinates) {
        IndexInRange(width, height, es[n].coordinates, c);
      }
    }
  }

  /** Once a generation has set a cell, the rest of the flood leaves it
      as it is. */
  lemma {:induction false} FloodKeeps(cells: seq<(int, int)>, width: int, height: int, stack: seq<Entry>, g: int,
                                      infinite: set<int>, i: nat)
    requires width >= 0 && height >= 0 && |cells| == width * height
    requires g >= 0 && OfGeneration(stack, g) && SetBefore(cells, g)
    requires i < |cells| && cells[i].1 != -1
    ensures Flood(cells, width, height, stack, g, infinite).0[i] == cells[i]
    decreases |Unset(cells)|, if stack == [] then 0 else 1
  {
    if stack != [] {
      GenerationProgress(cells, width, height, stack, g);
      var after := PlaceAll(cells, width, height, stack);
      SubsetSize(Unset(after), Unset(cells));
      PlaceAllKeeps(cells, width, height, stack, g, i);
      FloodKeeps(after, width, height, Expand(after, width, height, stack, g), g + 1,
                 infinite + Escaped(width, height, stack), i);
    }
  }

  /** The entries `part_1` starts from: one per input coordinate, in
      generation 0, numbered by position. */
  function Seeds(input: seq<(int, int)>): (r: seq<Entry>)
    ensures |r| == |input| && OfGeneration(r, 0)
    ensures forall i :: 0 <= i < |input| ==> r[i] == Entry(i, 0, input[i])
  {
    seq(|input|, i requires 0 <= i < |input| => Entry(i, 0, input[i]))
  }

  /** `n` clear cells. */
  function Clear(n: nat): (r: seq<(int, int)>)
    ensures |r| == n && SetBefore(r, 0)
  {
    seq(n, _ => (-1, -1))
  }

  /** Each input coordinate inside the grid that no other input shares
      ends the flood holding its own ordinal, set in generation 0. */
  lemma FloodSeed(input: seq<(int, int)>, width: int, height: int, k: nat)
    requires width >= 0 && height >= 0
    requires k < |input| && InBounds(width, height, input[k])
    requires forall j :: 0 <= j < |input| && j != k ==> input[j] != input[k]
    ensures Get(Flood(Clear(width * height), width, height, Seeds(input), 0, {-1}).0, width, height, input[k]) == (k, 0)
  {
    var cells, es := Clear(width * height), Seeds(input);
    IndexInRange(width, height, input[k], input[k]);
    var i := Index(width, input[k]);
    PlaceAllSole(cells, width, height, es, k);
    GenerationProgress(cells, width, height, es, 0);
    var after := PlaceAll(cells, width, height, es);
    SubsetSize(Unset(after), Unset(cells));
    FloodKeeps(after, width, height, Expand(after, width, height, es, 0), 1, {-1} + Escaped(width, height, es), i);
  }

  /** How many cells hold ordinal `o`. */
  function Count(cells: seq<(int, int)>, o: int): nat
  {
    if cells == [] then 0
    else Count(cells[..|cells| - 1], o) + (if cells[|cells| - 1].0 == o then 1 else 0)
  }

  /** The frequency fold at the end of `part_1`: a counter per ordinal,
      skipping the ordinals of `infinite`. */
  function Frequencies(cells: seq<(int, int)>, infinite: set<int>): map<int, nat>
  {
    if cells == [] then map[]
    else
      var freq := Frequencies(cells[..|cells| - 1], infinite);
      var o := cells[|cells| - 1].0;
      if o in infinite then freq
      else freq[o := (if o in freq then freq[o] else 0) + 1]
  }

  /** The fold counts exactly the cells of every finite ordinal. */
  lemma {:induction false} FrequenciesCount(cells: seq<(int, int)>, infinite: set<int>, o: int)
    ensures o in Frequencies(cells, infinite) <==> o !in infinite && Count(cells, o) > 0
    ensures o in Frequencies(cells, infinite) ==> Frequencies(cells, infinite)[o] == Count(cells, o)
  {
    if cells != [] {
      FrequenciesCount(cells[..|cells| - 1], infinite, o);
    }
  }

  /** `max_by_key` over the counters: `None` (the `unwrap` panic) when every
      area is infinite. Among equal counts the hash map's iteration order
      picks the ordinal, so only the count is determined. */
  method Largest(freq: map<int, nat>) returns (r: Option<(int, nat)>)
    ensures r.None? <==> freq == map[]
    ensures r.Some? ==> r.value.0 in freq && r.value.1 == freq[r.value.0]
    ensures r.Some? ==> forall o :: o in freq ==> freq[o] <= r.value.1
  {
    r := None;
    var todo := freq.Keys;
    while todo != {}
      invariant todo <= freq.Keys
      invariant r.None? <==> todo == freq.Keys
      invariant r.Some? ==> r.value.0 in freq && r.value.1 == freq[r.value.0]
      invariant r.Some? ==> forall o :: o in freq.Keys - todo ==> freq[o] <= r.value.1
      decreases |todo|
    {
      var key := Orders.Pick(todo);
      if r.None? || freq[key] >= r.value.1 {
        r := Some((key, freq[key]));
      }
      todo := todo - {key};
    }
    if r.None? {
      assert freq.Keys == {};
    }
  }

  /** The x and y coordinates of the input. */
  function Xs(input: seq<(int, int)>): (r: seq<int>)
    ensures |r| == |input| && forall i :: 0 <= i < |input| ==> r[i] == input[i].0
  {
    seq(|input|, i requires 0 <= i < |input| => input[i].0)
  }

  function Ys(input: seq<(int, int)>): (r: seq<int>)
    ensures |r| == |input| && forall i :: 0 <= i < |input| ==> r[i] == input[i].1
  {
    seq(|input|, i requires 0 <= i < |input| => input[i].1)
  }

  /** The frequency fold of `part_1` over the grid's cells. */
  method Tally(cells: array<(int, int)>, infinite: set<int>) returns (freq: map<int, nat>)
    ensures freq == Frequencies(cells[..], infinite)
  {
    freq := map[];
    for i := 0 to cells.Length
      invariant freq == Frequencies(cells[..i], infinite)
    {
      assert cells[..i + 1][..i] == cells[..i];
      var o := cells[i].0;
      if o !in infinite {
        freq := freq[o := (if o in freq then freq[o] else 0) + 1];
      }
    }
    assert cells[..cells.Length] == cells[..];
  }

  /** `part_1`: flood the grid from every coordinate (generation 0, ordinal
      = position in the input) until a generation expands to nothing, then
      count the finite areas and pick the largest. The grid spans columns
      0..max_x+1 and rows 0..max_y. A `null` grid and a `None` result stand
      for the panics on data: no coordinate at all (`max().unwrap()`), or a
      negative width or height, where `part_1` either fails to allocate the
      grid or, both being negative, leaves every cell at ordinal -1 and
      panics in `max_by_key(..).unwrap()`. */
  method Part1(input: seq<(int, int)>) returns (grid: Grid?, infinite: set<int>, freq: map<int, nat>, best: Option<(int, nat)>)
    ensures grid == null <==> input == [] || Max(Xs(input)) < -2 || Max(Ys(input)) < -1
    ensures grid == null ==> best.None?
    ensures grid != null ==> grid.Valid() && fresh(grid)
    ensures grid != null ==> grid.width == Max(Xs(input)) + 2 && grid.height == Max(Ys(input)) + 1
    ensures grid != null ==>
      (grid.cells[..], infinite) == Flood(Clear(grid.width * grid.height), grid.width, grid.height, Seeds(input), 0, {-1})
    ensures grid != null ==> -1 in infinite && freq == Frequencies(grid.cells[..], infinite)
    ensures grid != null ==> forall o :: o in freq ==> o != -1 && freq[o] == Count(grid.cells[..], o)
    ensures grid != null ==> (best.None? <==> freq == map[])
    ensures best.Some? ==> best.value.0 in freq && best.value.1 == freq[best.value.0]
    ensures best.Some? ==> forall o :: o in freq ==> freq[o] <= best.value.1
  {
    if input == [] {
      return null, {}, map[], None;
    }
    var maxX := Max(Xs(input));
    var maxY := Max(Ys(input));
    if maxX < -2 || maxY < -1 {
      return null, {}, map[], None;
    }
    grid := new Grid(maxX + 2, maxY + 1);
    var w, h := grid.width, grid.height;
    assert grid.cells[..] == Clear(w * h);
    infinite := {-1};
    var stack := Seeds(input);
    var currentGen := 0;
    while stack != []
      invariant grid.Valid() && fresh(grid.cells)
      invariant currentGen >= 0 && OfGeneration(stack, currentGen)
      invariant SetBefore(grid.cells[..], currentGen)
      invariant -1 in infinite
      invariant Flood(grid.cells[..], w, h, stack, currentGen, infinite) == Flood(Clear(w * h), w, h, Seeds(input), 0, {-1})
      decreases |Unset(grid.cells[..])|, if stack == [] then 0 else 1
    {
      ghost var before := grid.cells[..];
      GenerationProgress(before, w, h, stack, currentGen);
      infinite := SetAll(grid, stack, infinite);
      stack := NextGeneration(grid, stack, currentGen);
      SubsetSize(Unset(grid.cells[..]), Unset(before));
      currentGen := currentGen + 1;
    }
    freq := Tally(grid.cells, infinite);
    forall o | o in freq ensures o != -1 && freq[o] == Count(grid.cells[..], o) {
      FrequenciesCount(grid.cells[..], infinite, o);
    }
    best := Largest(freq);
  }
}
