/** aoc_15: beverage bandits, movement. A warrior with no enemy next to it
    floods the cave breadth first from where it stands, picks the nearest
    reached cell next to an enemy and takes the first step of the recorded
    way there. */
module Movement {
  import opened Wrappers
  import opened Cave
  import opened Bandits
  import Orders

  /** `std::i32::MAX`: the distance of a cell the flood has not reached. */
  const Unreached: int := 0x7fff_ffff

  /** A cell of the flood-fill map: the distance from the start and the
      cell it was reached from. */
  type Cell = (int, Point)

  /** The distance recorded for `p`; off the map, `Unreached`. */
  function Dist(g: seq<Cell>, w: nat, h: nat, p: Point): int
  {
    if InBounds(w, h, p) && |g| == w * h then g[Index(w, h, p)].0 else Unreached
  }

  /** The cell `p` was reached from; off the map, `p` itself. */
  function Pred(g: seq<Cell>, w: nat, h: nat, p: Point): Point
  {
    if InBounds(w, h, p) && |g| == w * h then g[Index(w, h, p)].1 else p
  }

  /** Writing cell `p` changes what is recorded for `p` and nothing else. */
  lemma Updated(g: seq<Cell>, w: nat, h: nat, p: Point, c: Cell)
    requires |g| == w * h && InBounds(w, h, p)
    ensures forall q :: Dist(g[Index(w, h, p) := c], w, h, q) == (if q == p then c.0 else Dist(g, w, h, q))
    ensures forall q :: Pred(g[Index(w, h, p) := c], w, h, q) == (if q == p then c.1 else Pred(g, w, h, q))
  {
    var g' := g[Index(w, h, p) := c];
    forall q ensures Dist(g', w, h, q) == (if q == p then c.0 else Dist(g, w, h, q))
      && Pred(g', w, h, q) == (if q == p then c.1 else Pred(g, w, h, q))
    {
      if InBounds(w, h, q) {
        IndexInjective(w, h, p, q);
      }
    }
  }

  /** What the movement rules look at: the tile map and, as values, where
      each warrior id stands and which warrior has each id. A turn changes
      only the positions, so each turn of a round is judged on the scene it
      starts from. */
  datatype Scene = Scene(width: nat, height: nat, cells: seq<Tile>, posToId: map<Point, nat>, idToWarrior: map<nat, Warrior>)

  /** The scene of a board as it stands. */
  function SceneOf(board: Board): Scene
    reads board.tiles.grid, board.warriors
  {
    Scene(board.tiles.width, board.tiles.height, board.tiles.grid[..], board.warriors.posToId, board.warriors.idToWarrior)
  }

  /** The tile at an on-map point of the scene. */
  function TileAt(scene: Scene, p: Point): Tile
    requires |scene.cells| == scene.width * scene.height && InBounds(scene.width, scene.height, p)
  {
    scene.cells[Index(scene.width, scene.height, p)]
  }

  /** `get_by_race`: the positions of the warriors of a race. */
  function RaceCells(scene: Scene, race: Race): (r: set<Point>)
    ensures forall p :: p in r ==>
      p in scene.posToId && scene.posToId[p] in scene.idToWarrior && scene.idToWarrior[scene.posToId[p]].race == race
  {
    set p | p in scene.posToId && scene.posToId[p] in scene.idToWarrior && scene.idToWarrior[scene.posToId[p]].race == race
  }

  /** A warrior of the enemy race stands next to `pos`. */
  predicate EnemyNext(scene: Scene, pos: Point, race: Race)
  {
    exists q :: q in RaceCells(scene, Enemy(race)) && Adjacent(pos, q)
  }

  /** The board's own `get_by_race` and `has_adjacent_enemy` agree with
      those of its scene. */
  lemma SceneAgrees(board: Board, pos: Point, race: Race)
    requires board.Valid()
    ensures forall r :: RaceCells(SceneOf(board), r) == board.warriors.ByRace(r)
    ensures board.HasAdjacentEnemy(pos, race) <==> EnemyNext(SceneOf(board), pos, race)
  {
    forall r ensures RaceCells(SceneOf(board), r) == board.warriors.ByRace(r) {
      assert forall p :: p in RaceCells(SceneOf(board), r) <==> p in board.warriors.ByRace(r);
    }
  }

  /** A cell a warrior may step on: a cell of the map with no wall and no
      warrior. */
  ghost predicate Open(scene: Scene, p: Point)
  {
    InBounds(scene.width, scene.height, p) && |scene.cells| == scene.width * scene.height
    && TileAt(scene, p) == Empty && p !in scene.posToId
  }

  /** `is_position_empty` says exactly whether a cell is open. */
  lemma OpenIff(board: Board, p: Point)
    requires board.Valid() && InBounds(board.tiles.width, board.tiles.height, p)
    ensures board.IsPositionEmpty(p) <==> Open(SceneOf(board), p)
  {
  }

  /** Every reached cell lies at a distance in `[0, bound)`. */
  ghost predicate Range(g: seq<Cell>, w: nat, h: nat, bound: int)
  {
    forall p :: InBounds(w, h, p) && Dist(g, w, h, p) != Unreached ==> 0 <= Dist(g, w, h, p) < bound
  }

  /** Every reached cell but the start is open, and was reached from a
      neighbour one closer to the start. */
  ghost predicate Tree(scene: Scene, start: Point, g: seq<Cell>)
  {
    forall p ::
      Links(scene, start, g, p)
  }

  /** One link of the tree: a reached cell other than the start is open,
      and its predecessor is a neighbour one closer. */
  ghost predicate Links(scene: Scene, start: Point, g: seq<Cell>, p: Point)
  {
    var w, h := scene.width, scene.height;
    InBounds(w, h, p) && p != start && Dist(g, w, h, p) != Unreached ==>
      Open(scene, p) && 1 <= Dist(g, w, h, p)
      && Pred(g, w, h, p) in Neighbours(w, h, p)
      && Dist(g, w, h, Pred(g, w, h, p)) == Dist(g, w, h, p) - 1
  }

  /** The open neighbours of every reached cell closer than `bound` are
      reached, and at most one further away. */
  ghost predicate CompleteBelow(scene: Scene, g: seq<Cell>, bound: int)
  {
    forall p, q :: Spreads(scene, g, bound, p, q)
  }

  /** When `p` is reached closer than `bound`, its open neighbour `q` is
      reached at most one further away. */
  ghost predicate Spreads(scene: Scene, g: seq<Cell>, bound: int, p: Point, q: Point)
  {
    var w, h := scene.width, scene.height;
    (InBounds(w, h, p) && Dist(g, w, h, p) != Unreached && Dist(g, w, h, p) < bound
     && q in Neighbours(w, h, p) && Open(scene, q))
    ==> Dist(g, w, h, q) != Unreached && Dist(g, w, h, q) <= Dist(g, w, h, p) + 1
  }

  /** What `flood_fill` returns: the start at distance 0, a tree of
      predecessors, and every open cell next to a reached one reached. */
  ghost predicate Flooded(scene: Scene, start: Point, g: seq<Cell>)
  {
    var w, h := scene.width, scene.height;
    |g| == w * h && InBounds(w, h, start) && g[Index(w, h, start)] == (0, (0, 0))
    && Range(g, w, h, Unreached) && Tree(scene, start, g) && CompleteBelow(scene, g, Unreached)
  }

  /** Every queued pair is a neighbour of a cell at distance `e`. */
  ghost predicate FrontierFrom(w: nat, h: nat, g: seq<Cell>, next: seq<(Point, Point)>, e: int)
  {
    forall k :: 0 <= k < |next| ==>
      InBounds(w, h, next[k].1) && next[k].0 in Neighbours(w, h, next[k].1) && Dist(g, w, h, next[k].1) == e
  }

  /** Every neighbour of every cell at distance `e` is queued. */
  ghost predicate FrontierCovers(w: nat, h: nat, g: seq<Cell>, next: seq<(Point, Point)>, e: int)
  {
    forall p, q :: InBounds(w, h, p) && Dist(g, w, h, p) == e && q in Neighbours(w, h, p) ==> (q, p) in next
  }

  /** The pairs `(neighbour, p)` that `flood_fill` queues for `p`. */
  function Expansions(w: nat, h: nat, p: Point): (r: seq<(Point, Point)>)
    ensures forall k :: 0 <= k < |r| ==> r[k].1 == p && r[k].0 in Neighbours(w, h, p)
    ensures forall q :: q in Neighbours(w, h, p) ==> (q, p) in r
  {
    var ns := Neighbours(w, h, p);
    var r := seq(|ns|, k requires 0 <= k < |ns| => (ns[k], p));
    assert forall k :: 0 <= k < |ns| ==> r[k] == (ns[k], p);
    r
  }

  /** The number of cells not reached yet. */
  function Unvisited(g: seq<Cell>): (n: nat)
    ensures n <= |g|
  {
    if g == [] then 0 else Unvisited(g[..|g| - 1]) + (if g[|g| - 1].0 == Unreached then 1 else 0)
  }

  lemma {:induction false} UnvisitedAll(g: seq<Cell>)
    requires forall k :: 0 <= k < |g| ==> g[k].0 == Unreached
    ensures Unvisited(g) == |g|
  {
    if g != [] {
      UnvisitedAll(g[..|g| - 1]);
    }
  }

  /** Reaching a cell leaves one fewer to reach. */
  lemma {:induction false} UnvisitedUpdate(g: seq<Cell>, i: nat, c: Cell)
    requires i < |g| && g[i].0 == Unreached && c.0 != Unreached
    ensures Unvisited(g[i := c]) == Unvisited(g) - 1
  {
    var n := |g| - 1;
    if i < n {
      assert g[i := c][..n] == g[..n][i := c];
      UnvisitedUpdate(g[..n], i, c);
    } else {
      assert g[i := c][..n] == g[..n];
    }
  }

  /** Within a round: cells reached before keep what they hold; cells
      reached now are open, at distance `d`, and were reached from a cell
      at distance `d - 1`. */
  ghost predicate Extends(scene: Scene, g0: seq<Cell>, g: seq<Cell>, d: int)
  {
    var w, h := scene.width, scene.height;
    (forall p :: InBounds(w, h, p) && Dist(g0, w, h, p) != Unreached ==>
       Dist(g, w, h, p) == Dist(g0, w, h, p) && Pred(g, w, h, p) == Pred(g0, w, h, p))
    && forall p ::
         Fresh(scene, g0, g, d, p)
  }

  /** `p`, unreached in `g0`, is reached in `g` only at distance `d`, open,
      from a neighbour at distance `d - 1` in `g0`. */
  ghost predicate Fresh(scene: Scene, g0: seq<Cell>, g: seq<Cell>, d: int, p: Point)
  {
    var w, h := scene.width, scene.height;
    InBounds(w, h, p) && Dist(g0, w, h, p) == Unreached && Dist(g, w, h, p) != Unreached ==>
      Dist(g, w, h, p) == d && Open(scene, p)
      && Pred(g, w, h, p) in Neighbours(w, h, p) && Dist(g0, w, h, Pred(g, w, h, p)) == d - 1
  }

  /** The first `k` queued cells that are open are reached, at most `d`
      away. */
  ghost predicate Settled(scene: Scene, g: seq<Cell>, current: seq<(Point, Point)>, k: nat, d: int)
    requires k <= |current|
  {
    var w, h := scene.width, scene.height;
    forall j :: 0 <= j < k && Open(scene, current[j].0) ==>
      Dist(g, w, h, current[j].0) != Unreached && Dist(g, w, h, current[j].0) <= d
  }

  /** The neighbours of every cell reached in this round are queued. */
  ghost predicate Queued(w: nat, h: nat, g0: seq<Cell>, g: seq<Cell>, next: seq<(Point, Point)>)
  {
    forall p, q ::
      (InBounds(w, h, p) && Dist(g0, w, h, p) == Unreached && Dist(g, w, h, p) != Unreached && q in Neighbours(w, h, p))
      ==> (q, p) in next
  }

  /** Reaching `p` from `src`, a neighbour at distance `d - 1`, at
      distance `d` keeps the distances in range and extends the round. */
  lemma ReachExtends(scene: Scene, g0: seq<Cell>, g: seq<Cell>, p: Point, src: Point, d: int)
    requires var w, h := scene.width, scene.height;
      |g| == w * h && 1 <= d < Unreached && InBounds(w, h, src) && p in Neighbours(w, h, src)
      && Dist(g0, w, h, src) == d - 1 && Open(scene, p) && Dist(g, w, h, p) > d
      && Range(g, w, h, d + 1) && Extends(scene, g0, g, d)
    ensures var w, h := scene.width, scene.height;
      var g' := g[Index(w, h, p) := (d, src)];
      g[Index(w, h, p)].0 == Unreached && Range(g', w, h, d + 1) && Extends(scene, g0, g', d)
  {
    var w, h := scene.width, scene.height;
    var g' := g[Index(w, h, p) := (d, src)];
    Updated(g, w, h, p, (d, src));
    NeighboursSymmetric(w, h, src, p);
    assert Dist(g0, w, h, p) == Unreached;
    forall q ensures Fresh(scene, g0, g', d, q) {
      if q != p {
        assert Pred(g, w, h, q) == Pred(g', w, h, q);
        assert Fresh(scene, g0, g, d, q);
      }
    }
  }

  /** Reaching `p` at distance `d` settles it, and queueing its neighbours
      keeps the queue's facts. */
  lemma ReachQueues(scene: Scene, g0: seq<Cell>, g: seq<Cell>, current: seq<(Point, Point)>, k: nat,
                    next: seq<(Point, Point)>, d: int)
    requires k < |current| && 1 <= d < Unreached
    requires var w, h := scene.width, scene.height;
      |g| == w * h && InBounds(w, h, current[k].0) && Dist(g, w, h, current[k].0) > d
      && Settled(scene, g, current, k, d) && FrontierFrom(w, h, g, next, d) && Queued(w, h, g0, g, next)
    ensures var w, h := scene.width, scene.height;
      var p := current[k].0;
      var g' := g[Index(w, h, p) := (d, current[k].1)];
      var next' := next + Expansions(w, h, p);
      Settled(scene, g', current, k + 1, d) && FrontierFrom(w, h, g', next', d) && Queued(w, h, g0, g', next')
  {
    var w, h := scene.width, scene.height;
    var (p, src) := current[k];
    var g' := g[Index(w, h, p) := (d, src)];
    var next' := next + Expansions(w, h, p);
    Updated(g, w, h, p, (d, src));
    forall j | 0 <= j < |next'|
      ensures InBounds(w, h, next'[j].1) && next'[j].0 in Neighbours(w, h, next'[j].1) && Dist(g', w, h, next'[j].1) == d
    {
      if j < |next| {
        assert next'[j] == next[j];
      } else {
        assert next'[j] == Expansions(w, h, p)[j - |next|];
      }
    }
  }

  /** A queued cell that is not reached now is closed or already as close
      as `d`. */
  lemma SkipSettles(scene: Scene, g: seq<Cell>, current: seq<(Point, Point)>, k: nat, d: int)
    requires k < |current| && d < Unreached
    requires var w, h := scene.width, scene.height;
      Settled(scene, g, current, k, d) && (!Open(scene, current[k].0) || Dist(g, w, h, current[k].0) <= d)
    ensures Settled(scene, g, current, k + 1, d)
  {
  }

  /** The cell that queued `p` first in `queue`, if any. */
  function FirstFrom(queue: seq<(Point, Point)>, p: Point): (r: Option<Point>)
    ensures r.None? <==> forall j :: 0 <= j < |queue| ==> queue[j].0 != p
    ensures r.Some? ==>
      exists j :: 0 <= j < |queue| && queue[j] == (p, r.value) && forall i :: 0 <= i < j ==> queue[i].0 != p
    decreases |queue|
  {
    if queue == [] then None
    else
      var n := |queue| - 1;
      var front := FirstFrom(queue[..n], p);
      if front.Some? then front
      else if queue[n].0 == p then Some(queue[n].1)
      else None
  }

  /** Every cell reached in this round was reached from the cell that
      queued it first: a later entry for the same cell is skipped. */
  ghost predicate FirstQueued(w: nat, h: nat, g0: seq<Cell>, g: seq<Cell>, queue: seq<(Point, Point)>)
  {
    forall p :: InBounds(w, h, p) && Dist(g0, w, h, p) == Unreached && Dist(g, w, h, p) != Unreached ==>
      FirstFrom(queue, p) == Some(Pred(g, w, h, p))
  }

  lemma FirstFromStep(queue: seq<(Point, Point)>, k: nat, p: Point)
    requires k < |queue|
    ensures FirstFrom(queue[..k + 1], p) ==
      if FirstFrom(queue[..k], p).Some? then FirstFrom(queue[..k], p)
      else if queue[k].0 == p then Some(queue[k].1) else None
  {
    assert queue[..k + 1][..k] == queue[..k];
  }

  /** Reaching the open cell `current[k].0`, not yet reached as close as
      `d`, records the cell that queued it: no earlier entry named it. */
  lemma FirstQueuedReach(scene: Scene, g0: seq<Cell>, g: seq<Cell>, current: seq<(Point, Point)>, k: nat, d: int)
    requires k < |current| && |g| == scene.width * scene.height
    requires var w, h, p := scene.width, scene.height, current[k].0;
      InBounds(w, h, p) && Open(scene, p) && Dist(g, w, h, p) > d
      && Settled(scene, g, current, k, d) && FirstQueued(w, h, g0, g, current[..k])
    ensures var w, h, p := scene.width, scene.height, current[k].0;
      FirstQueued(w, h, g0, g[Index(w, h, p) := (d, current[k].1)], current[..k + 1])
  {
    var w, h := scene.width, scene.height;
    var (p, src) := current[k];
    var g' := g[Index(w, h, p) := (d, src)];
    Updated(g, w, h, p, (d, src));
    forall q | InBounds(w, h, q) && Dist(g0, w, h, q) == Unreached && Dist(g', w, h, q) != Unreached
      ensures FirstFrom(current[..k + 1], q) == Some(Pred(g', w, h, q))
    {
      FirstFromStep(current, k, q);
      if q == p {
        forall j | 0 <= j < k ensures current[..k][j].0 != p {
          assert current[..k][j] == current[j];
        }
      }
    }
  }

  /** Skipping an entry keeps the record of who queued what first. */
  lemma FirstQueuedSkip(w: nat, h: nat, g0: seq<Cell>, g: seq<Cell>, current: seq<(Point, Point)>, k: nat)
    requires k < |current| && FirstQueued(w, h, g0, g, current[..k])
    ensures FirstQueued(w, h, g0, g, current[..k + 1])
  {
    forall q | InBounds(w, h, q) && Dist(g0, w, h, q) == Unreached && Dist(g, w, h, q) != Unreached
      ensures FirstFrom(current[..k + 1], q) == Some(Pred(g, w, h, q))
    {
      FirstFromStep(current, k, q);
    }
  }

  /** The state of the `for_each` after the first `k` queued entries: the
      round extends `g0` to `g`, the entries so far are settled, each
      reached cell was reached from the entry that queued it first, the
      new queue holds the neighbours of the cells reached, and fewer cells
      are left to reach once something is queued. */
  ghost predicate Expanding(scene: Scene, g0: seq<Cell>, g: seq<Cell>, current: seq<(Point, Point)>, k: nat,
                            next: seq<(Point, Point)>, d: int)
  {
    var w, h := scene.width, scene.height;
    k <= |current| && |g| == |g0|
    && Range(g, w, h, d + 1) && Extends(scene, g0, g, d) && Settled(scene, g, current, k, d)
    && FrontierFrom(w, h, g, next, d) && Queued(w, h, g0, g, next) && FirstQueued(w, h, g0, g, current[..k])
    && Unvisited(g) <= Unvisited(g0) && (next != [] ==> Unvisited(g) < Unvisited(g0))
  }

  /** Reaching the open entry `current[k]`, not yet reached as close as
      `d`, moves the state of the `for_each` on by one entry. */
  lemma ExpandReach(scene: Scene, g0: seq<Cell>, g: seq<Cell>, current: seq<(Point, Point)>, k: nat,
                    next: seq<(Point, Point)>, d: int)
    requires k < |current| && 1 <= d < Unreached && |g0| == scene.width * scene.height
    requires FrontierFrom(scene.width, scene.height, g0, current, d - 1)
    requires Expanding(scene, g0, g, current, k, next, d)
    requires Open(scene, current[k].0) && Dist(g, scene.width, scene.height, current[k].0) > d
    ensures var w, h, p := scene.width, scene.height, current[k].0;
      Expanding(scene, g0, g[Index(w, h, p) := (d, current[k].1)], current, k + 1, next + Expansions(w, h, p), d)
  {
    var w, h := scene.width, scene.height;
    var (p, src) := current[k];
    ReachExtends(scene, g0, g, p, src, d);
    ReachQueues(scene, g0, g, current, k, next, d);
    FirstQueuedReach(scene, g0, g, current, k, d);
    UnvisitedUpdate(g, Index(w, h, p), (d, src));
  }

  /** Skipping an entry that is closed or already reached as close as `d`
      moves the state on by one entry. */
  lemma ExpandSkip(scene: Scene, g0: seq<Cell>, g: seq<Cell>, current: seq<(Point, Point)>, k: nat,
                   next: seq<(Point, Point)>, d: int)
    requires k < |current| && d < Unreached
    requires Expanding(scene, g0, g, current, k, next, d)
    requires !Open(scene, current[k].0) || Dist(g, scene.width, scene.height, current[k].0) <= d
    ensures Expanding(scene, g0, g, current, k + 1, next, d)
  {
    SkipSettles(scene, g, current, k, d);
    FirstQueuedSkip(scene.width, scene.height, g0, g, current, k);
  }

  /** `flood_fill`'s inner `for_each`: every open queued cell not yet
      reached as close as `d` is reached at `d` from the cell that queued
      it, and its neighbours are queued for the next round. */
  method ExpandRound(board: Board, ff: Map<Cell>, current: seq<(Point, Point)>, d: int) returns (next: seq<(Point, Point)>)
    requires board.Valid() && ff.Valid() && ff.width == board.tiles.width && ff.height == board.tiles.height
    requires 1 <= d < Unreached
    requires Range(ff.grid[..], ff.width, ff.height, d)
    requires FrontierFrom(ff.width, ff.height, ff.grid[..], current, d - 1)
    modifies ff.grid
    ensures Extends(SceneOf(board), old(ff.grid[..]), ff.grid[..], d)
    ensures Range(ff.grid[..], ff.width, ff.height, d + 1)
    ensures Settled(SceneOf(board), ff.grid[..], current, |current|, d)
    ensures FrontierFrom(ff.width, ff.height, ff.grid[..], next, d)
    ensures Queued(ff.width, ff.height, old(ff.grid[..]), ff.grid[..], next)
    ensures FirstQueued(ff.width, ff.height, old(ff.grid[..]), ff.grid[..], current)
    ensures Unvisited(ff.grid[..]) <= Unvisited(old(ff.grid[..]))
    ensures next != [] ==> Unvisited(ff.grid[..]) < Unvisited(old(ff.grid[..]))
  {
    var w, h := ff.width, ff.height;
    ghost var scene, g0 := SceneOf(board), ff.grid[..];
    ExtendsSelf(scene, g0, d);
    next := [];
    for k := 0 to |current|
      invariant Expanding(scene, g0, ff.grid[..], current, k, next, d)
    {
      next := ExpandEntry(board, ff, scene, g0, current, k, next, d);
    }
    assert current[..|current|] == current;
  }

  /** The body of the `for_each` in `flood_fill`, for the entry
      `current[k]`: an open cell not yet reached as close as `d` is reached
      from the entry's source and its neighbours are queued. */
  method ExpandEntry(board: Board, ff: Map<Cell>, ghost scene: Scene, ghost g0: seq<Cell>,
                     current: seq<(Point, Point)>, k: nat, next: seq<(Point, Point)>, d: int)
    returns (next': seq<(Point, Point)>)
    requires board.Valid() && ff.Valid() && ff.width == board.tiles.width && ff.height == board.tiles.height
    requires scene == SceneOf(board) && k < |current| && 1 <= d < Unreached && |g0| == ff.width * ff.height
    requires FrontierFrom(ff.width, ff.height, g0, current, d - 1)
    requires Expanding(scene, g0, ff.grid[..], current, k, next, d)
    modifies ff.grid
    ensures Expanding(scene, g0, ff.grid[..], current, k + 1, next', d)
  {
    var w, h := ff.width, ff.height;
    var (p, src) := current[k];
    NeighboursAdjacent(w, h, src, p);
    OpenIff(board, p);
    ghost var g := ff.grid[..];
    if board.IsPositionEmpty(p) && ff.Get(p).0 > d {
      ExpandReach(scene, g0, g, current, k, next, d);
      ff.Set(p, (d, src));
      next' := next + Expansions(w, h, p);
    } else {
      ExpandSkip(scene, g0, g, current, k, next, d);
      next' := next;
    }
  }

  /** The state of `flood_fill` before the round for distance `d`: the
      start at 0, every reached cell closer than `d` on the tree, `next`
      exactly the neighbours of the cells at `d - 1`, the cells closer than
      `d - 1` complete, and no more rounds than cells reached. */
  ghost predicate Flooding(scene: Scene, start: Point, g: seq<Cell>, next: seq<(Point, Point)>, d: int)
  {
    var w, h := scene.width, scene.height;
    |g| == w * h && InBounds(w, h, start) && g[Index(w, h, start)] == (0, (0, 0))
    && 1 <= d && Range(g, w, h, d) && Tree(scene, start, g)
    && FrontierFrom(w, h, g, next, d - 1) && FrontierCovers(w, h, g, next, d - 1)
    && CompleteBelow(scene, g, d - 1)
    && d <= |g| - Unvisited(g) + 1 && (next != [] ==> d <= |g| - Unvisited(g))
  }

  /** The flood right after the start is written: only the start is
      reached, and its neighbours are queued. */
  lemma FloodStart(scene: Scene, start: Point, g: seq<Cell>)
    requires |scene.cells| == scene.width * scene.height
    requires var w, h := scene.width, scene.height;
      InBounds(w, h, start) && |g| == w * h && forall k :: 0 <= k < |g| ==> g[k] == (Unreached, (0, 0))
    ensures var w, h := scene.width, scene.height;
      Flooding(scene, start, g[Index(w, h, start) := (0, (0, 0))], Expansions(w, h, start), 1)
  {
    var w, h := scene.width, scene.height;
    Updated(g, w, h, start, (0, (0, 0)));
    UnvisitedAll(g);
    UnvisitedUpdate(g, Index(w, h, start), (0, (0, 0)));
    forall p | InBounds(w, h, p) ensures Dist(g, w, h, p) == Unreached {
      assert g[Index(w, h, p)] == (Unreached, (0, 0));
    }
    var g' := g[Index(w, h, start) := (0, (0, 0))];
    forall p ensures Links(scene, start, g', p) {
    }
    forall p, q ensures Spreads(scene, g', 0, p, q) {
    }
  }

  /** After a round the tree still holds. */
  lemma TreeStep(scene: Scene, start: Point, g0: seq<Cell>, g: seq<Cell>, d: int)
    requires var w, h := scene.width, scene.height;
      1 <= d < Unreached && Range(g0, w, h, d) && Tree(scene, start, g0)
      && InBounds(w, h, start) && Dist(g0, w, h, start) == 0 && Extends(scene, g0, g, d)
    ensures Tree(scene, start, g)
  {
    var w, h := scene.width, scene.height;
    forall p ensures Links(scene, start, g, p) {
      if InBounds(w, h, p) && p != start && Dist(g, w, h, p) != Unreached {
        if Dist(g0, w, h, p) != Unreached {
          assert Links(scene, start, g0, p);
          var q := Pred(g0, w, h, p);
          NeighboursAdjacent(w, h, p, q);
          assert Dist(g0, w, h, q) != Unreached;
        } else {
          assert Fresh(scene, g0, g, d, p);
          NeighboursAdjacent(w, h, p, Pred(g, w, h, p));
        }
      }
    }
  }

  /** Before a round's first cell, the round has extended nothing. */
  lemma ExtendsSelf(scene: Scene, g: seq<Cell>, d: int)
    ensures Extends(scene, g, g, d)
  {
    forall p ensures Fresh(scene, g, g, d, p) {
    }
  }

  /** After a round the cells at distance `d` are exactly those reached in
      it, so the queue covers them. */
  lemma CoversStep(scene: Scene, g0: seq<Cell>, g: seq<Cell>, next: seq<(Point, Point)>, d: int)
    requires var w, h := scene.width, scene.height;
      d < Unreached && Range(g0, w, h, d) && Extends(scene, g0, g, d) && Queued(w, h, g0, g, next)
    ensures FrontierCovers(scene.width, scene.height, g, next, d)
  {
    var w, h := scene.width, scene.height;
    forall p, q | InBounds(w, h, p) && Dist(g, w, h, p) == d && q in Neighbours(w, h, p) ensures (q, p) in next {
      assert Dist(g0, w, h, p) == Unreached;
    }
  }

  /** After a round the open neighbours of the cells at distance `d - 1`
      are reached too. */
  lemma CompleteStep(scene: Scene, g0: seq<Cell>, g: seq<Cell>, current: seq<(Point, Point)>, d: int)
    requires var w, h := scene.width, scene.height;
      1 <= d < Unreached && Range(g0, w, h, d) && CompleteBelow(scene, g0, d - 1)
      && FrontierCovers(w, h, g0, current, d - 1)
      && Extends(scene, g0, g, d) && Settled(scene, g, current, |current|, d)
    ensures CompleteBelow(scene, g, d)
  {
    var w, h := scene.width, scene.height;
    forall p, q ensures Spreads(scene, g, d, p, q) {
      if InBounds(w, h, p) && Dist(g, w, h, p) != Unreached && Dist(g, w, h, p) < d
         && q in Neighbours(w, h, p) && Open(scene, q)
      {
        NeighboursAdjacent(w, h, p, q);
        assert Fresh(scene, g0, g, d, p);
        assert Dist(g0, w, h, p) != Unreached;
        if Dist(g0, w, h, p) == d - 1 {
          assert (q, p) in current;
          var j :| 0 <= j < |current| && current[j] == (q, p);
          assert Open(scene, current[j].0);
        } else {
          assert Spreads(scene, g0, d - 1, p, q);
          assert Dist(g0, w, h, q) != Unreached;
        }
      }
    }
  }

  /** A round of `flood_fill` takes the state for `d` to the state for
      `d + 1`. */
  lemma RoundKeeps(scene: Scene, start: Point, g0: seq<Cell>, g: seq<Cell>,
                   current: seq<(Point, Point)>, next: seq<(Point, Point)>, d: int)
    requires var w, h := scene.width, scene.height;
      w * h < Unreached && current != [] && Flooding(scene, start, g0, current, d) && |g| == |g0|
      && Extends(scene, g0, g, d) && Range(g, w, h, d + 1) && Settled(scene, g, current, |current|, d)
      && FrontierFrom(w, h, g, next, d) && Queued(w, h, g0, g, next)
      && Unvisited(g) <= Unvisited(g0) && (next != [] ==> Unvisited(g) < Unvisited(g0))
    ensures Flooding(scene, start, g, next, d + 1)
  {
    var w, h := scene.width, scene.height;
    assert d < Unreached;
    TreeStep(scene, start, g0, g, d);
    CoversStep(scene, g0, g, next, d);
    CompleteStep(scene, g0, g, current, d);
    assert Dist(g, w, h, start) == 0 && Pred(g, w, h, start) == (0, 0);
  }

  /** When the queue runs dry every reached cell has its open neighbours
      reached. */
  lemma FloodDone(scene: Scene, start: Point, g: seq<Cell>, d: int)
    requires scene.width * scene.height < Unreached
    requires Flooding(scene, start, g, [], d)
    ensures Flooded(scene, start, g)
  {
    var w, h := scene.width, scene.height;
    forall p, q ensures Spreads(scene, g, Unreached, p, q) {
      assert Spreads(scene, g, d - 1, p, q);
      assert InBounds(w, h, p) && Dist(g, w, h, p) == d - 1 && q in Neighbours(w, h, p) ==> (q, p) in [];
    }
  }

  /** `flood_fill`: breadth first from `start`, one distance per round. */
  method FloodFill(board: Board, start: Point) returns (ff: Map<Cell>)
    requires board.Valid() && InBounds(board.tiles.width, board.tiles.height, start)
    requires board.tiles.width * board.tiles.height < Unreached
    ensures fresh(ff) && fresh(ff.grid) && ff.Valid()
    ensures ff.width == board.tiles.width && ff.height == board.tiles.height
    ensures Flooded(SceneOf(board), start, ff.grid[..])
  {
    var w, h := board.tiles.width, board.tiles.height;
    ff := new Map(w, h, seq(w * h, _ => (Unreached, (0, 0))));
    FloodStart(SceneOf(board), start, ff.grid[..]);
    ff.Set(start, (0, (0, 0)));
    var d := 1;
    var next := Expansions(w, h, start);
    while next != []
      invariant fresh(ff) && fresh(ff.grid) && ff.Valid() && ff.width == w && ff.height == h
      invariant Flooding(SceneOf(board), start, ff.grid[..], next, d)
      decreases Unvisited(ff.grid[..]), if next == [] then 0 else 1
    {
      next := FloodRound(board, ff, start, next, d);
      d := d + 1;
    }
    FloodDone(SceneOf(board), start, ff.grid[..], d);
  }

  /** One pass of the loop of `flood_fill`: the cells first reached at
      distance `d` are written, and the flood state moves on to `d + 1`
      with fewer cells left unreached, unless the queue runs dry. */
  method FloodRound(board: Board, ff: Map<Cell>, start: Point, current: seq<(Point, Point)>, d: int)
    returns (next: seq<(Point, Point)>)
    requires board.Valid() && ff.Valid() && ff.width == board.tiles.width && ff.height == board.tiles.height
    requires board.tiles.width * board.tiles.height < Unreached
    requires current != [] && Flooding(SceneOf(board), start, ff.grid[..], current, d)
    modifies ff.grid
    ensures Flooding(SceneOf(board), start, ff.grid[..], next, d + 1)
    ensures Unvisited(ff.grid[..]) <= Unvisited(old(ff.grid[..]))
    ensures next != [] ==> Unvisited(ff.grid[..]) < Unvisited(old(ff.grid[..]))
  {
    ghost var g0 := ff.grid[..];
    assert d < Unreached;
    next := ExpandRound(board, ff, current, d);
    RoundKeeps(SceneOf(board), start, g0, ff.grid[..], current, next, d);
  }

  /** The cell `n` steps back along the recorded predecessors from `p`. */
  function Follow(g: seq<Cell>, w: nat, h: nat, p: Point, n: nat): Point
  {
    if n == 0 then p else Pred(g, w, h, Follow(g, w, h, p, n - 1))
  }

  /** Walking back from a reached cell passes through open cells, each a
      neighbour of the last, one step closer to the start each time... */
  lemma {:induction false} PathBack(scene: Scene, start: Point, g: seq<Cell>, p: Point, n: nat)
    requires var w, h := scene.width, scene.height;
      |g| == w * h && InBounds(w, h, start) && Dist(g, w, h, start) == 0
      && Range(g, w, h, Unreached) && Tree(scene, start, g)
    requires InBounds(scene.width, scene.height, p)
    requires Dist(g, scene.width, scene.height, p) != Unreached
    requires n <= Dist(g, scene.width, scene.height, p)
    ensures var w, h := scene.width, scene.height;
      var here := Follow(g, w, h, p, n);
      InBounds(w, h, here) && Dist(g, w, h, here) == Dist(g, w, h, p) - n
      && (n < Dist(g, w, h, p) ==> Open(scene, here) && Follow(g, w, h, p, n + 1) in Neighbours(w, h, here))
  {
    var w, h := scene.width, scene.height;
    if n > 0 {
      PathBack(scene, start, g, p, n - 1);
      var last := Follow(g, w, h, p, n - 1);
      assert last != start;
      assert Links(scene, start, g, last);
      NeighboursAdjacent(w, h, last, Pred(g, w, h, last));
      assert Follow(g, w, h, p, n) == Pred(g, w, h, last);
    }
    var here := Follow(g, w, h, p, n);
    if n < Dist(g, w, h, p) {
      assert here != start;
      assert Links(scene, start, g, here);
      assert Follow(g, w, h, p, n + 1) == Pred(g, w, h, here);
    }
  }

  /** ... and ends at the start after as many steps as the distance. */
  lemma PathToStart(scene: Scene, start: Point, g: seq<Cell>, p: Point)
    requires Flooded(scene, start, g)
    requires InBounds(scene.width, scene.height, p)
    requires Dist(g, scene.width, scene.height, p) != Unreached
    ensures Follow(g, scene.width, scene.height, p, Dist(g, scene.width, scene.height, p) as nat) == start
  {
    var w, h := scene.width, scene.height;
    PathBack(scene, start, g, p, Dist(g, w, h, p) as nat);
    assert Links(scene, start, g, Follow(g, w, h, p, Dist(g, w, h, p) as nat));
  }

  /** A walk over open cells, each a neighbour of the one before. */
  ghost predicate OpenPath(scene: Scene, path: seq<Point>)
  {
    forall k :: 0 < k < |path| ==>
      path[k] in Neighbours(scene.width, scene.height, path[k - 1]) && Open(scene, path[k])
  }

  /** No walk over open cells from the start is shorter than the distance
      the flood records at its end: the distances are shortest. */
  lemma {:induction false} NoShortcut(scene: Scene, start: Point, g: seq<Cell>, path: seq<Point>)
    requires Flooded(scene, start, g)
    requires |path| >= 1 && path[0] == start && OpenPath(scene, path)
    ensures var w, h := scene.width, scene.height;
      var last := path[|path| - 1];
      InBounds(w, h, last) && Dist(g, w, h, last) != Unreached && Dist(g, w, h, last) <= |path| - 1
  {
    var w, h := scene.width, scene.height;
    var n := |path|;
    if n > 1 {
      var pre := path[..n - 1];
      OpenPathPrefix(scene, path);
      NoShortcut(scene, start, g, pre);
      assert pre[|pre| - 1] == path[n - 2];
      NoShortcutStep(scene, start, g, path[n - 2], path[n - 1], n - 1);
    } else {
      assert g[Index(w, h, start)] == (0, (0, 0));
    }
  }

  /** A walk over open cells without its last cell is one too. */
  lemma OpenPathPrefix(scene: Scene, path: seq<Point>)
    requires |path| > 1 && OpenPath(scene, path)
    ensures OpenPath(scene, path[..|path| - 1])
  {
    var pre := path[..|path| - 1];
    forall k | 0 < k < |pre| ensures pre[k] in Neighbours(scene.width, scene.height, pre[k - 1]) && Open(scene, pre[k]) {
      assert pre[k] == path[k] && pre[k - 1] == path[k - 1];
    }
  }

  /** One more step over an open cell adds at most one to the distance the
      flood records. */
  lemma NoShortcutStep(scene: Scene, start: Point, g: seq<Cell>, p: Point, q: Point, m: nat)
    requires Flooded(scene, start, g)
    requires InBounds(scene.width, scene.height, p) && Dist(g, scene.width, scene.height, p) != Unreached
    requires Dist(g, scene.width, scene.height, p) <= m - 1
    requires q in Neighbours(scene.width, scene.height, p) && Open(scene, q)
    ensures var w, h := scene.width, scene.height;
      InBounds(w, h, q) && Dist(g, w, h, q) != Unreached && Dist(g, w, h, q) <= m
  {
    assert Spreads(scene, g, Unreached, p, q);
  }

  /** `target`'s ordering: nearer first, then reading order. */
  predicate Closer(g: seq<Cell>, w: nat, h: nat, a: Point, b: Point)
  {
    Dist(g, w, h, a) < Dist(g, w, h, b) || (Dist(g, w, h, a) == Dist(g, w, h, b) && ReadingLe(a, b))
  }

  lemma NearestExists(g: seq<Cell>, w: nat, h: nat, s: set<Point>)
    requires s != {}
    ensures exists m :: m in s && forall q :: q in s ==> Closer(g, w, h, m, q)
  {
    var m := Orders.Minimum(s, (a: Point, b: Point) => Closer(g, w, h, a, b));
  }

  /** The first cell of a set in `Closer` order. */
  function Nearest(g: seq<Cell>, w: nat, h: nat, s: set<Point>): (m: Point)
    requires s != {}
    ensures m in s && forall q :: q in s ==> Closer(g, w, h, m, q)
  {
    NearestExists(g, w, h, s);
    var m :| m in s && forall q :: q in s ==> Closer(g, w, h, m, q); m
  }

  /** The reached cells next to a warrior of the enemy race. */
  function Candidates(scene: Scene, g: seq<Cell>, race: Race): set<Point>
  {
    var w, h := scene.width, scene.height;
    set e, q | e in RaceCells(scene, Enemy(race)) && q in Neighbours(w, h, e) && Dist(g, w, h, q) != Unreached :: q
  }

  /** The `target` of `next_turn`: the nearest reached cell next to an
      enemy, ties broken by reading order; `None` when there is none. */
  function ChooseTarget(scene: Scene, g: seq<Cell>, race: Race): (r: Option<Point>)
    ensures r.None? <==> Candidates(scene, g, race) == {}
    ensures r.Some? ==> r.value in Candidates(scene, g, race)
    ensures r.Some? ==> forall q :: q in Candidates(scene, g, race) ==> Closer(g, scene.width, scene.height, r.value, q)
  {
    var c := Candidates(scene, g, race);
    if c == {} then None else Some(Nearest(g, scene.width, scene.height, c))
  }

  /** The target is the nearest cell next to an enemy that an open walk
      from the start reaches. */
  lemma TargetIsNearest(scene: Scene, start: Point, g: seq<Cell>, race: Race, path: seq<Point>, e: Point)
    requires Flooded(scene, start, g)
    requires |path| >= 1 && path[0] == start && OpenPath(scene, path)
    requires e in RaceCells(scene, Enemy(race))
    requires path[|path| - 1] in Neighbours(scene.width, scene.height, e)
    ensures ChooseTarget(scene, g, race).Some?
    ensures Dist(g, scene.width, scene.height, ChooseTarget(scene, g, race).value) <= |path| - 1
  {
    NoShortcut(scene, start, g, path);
    var last := path[|path| - 1];
    assert last in Candidates(scene, g, race);
  }

  /** A candidate is never where the warrior stands when no enemy is next
      to it. */
  lemma CandidateElsewhere(scene: Scene, g: seq<Cell>, race: Race, pos: Point, q: Point)
    requires q in Candidates(scene, g, race) && !EnemyNext(scene, pos, race)
    ensures q != pos
  {
    var w, h := scene.width, scene.height;
    var e :| e in RaceCells(scene, Enemy(race)) && q in Neighbours(w, h, e) && Dist(g, w, h, q) != Unreached;
    NeighboursAdjacent(w, h, e, q);
  }

  /** The cell next to the start on the way back from `target`. */
  function FirstStep(g: seq<Cell>, w: nat, h: nat, target: Point): Point
  {
    if 1 <= Dist(g, w, h, target) then Follow(g, w, h, target, (Dist(g, w, h, target) - 1) as nat) else target
  }
  /** The backtracking loop of `next_turn`: from the target back to the
      cell reached straight from the start. */
  method Backtrack(board: Board, ff: Map<Cell>, start: Point, target: Point) returns (step: Point)
    requires ff.Valid() && ff.width == board.tiles.width && ff.height == board.tiles.height
    requires Flooded(SceneOf(board), start, ff.grid[..])
    requires InBounds(ff.width, ff.height, target) && target != start
    requires Dist(ff.grid[..], ff.width, ff.height, target) != Unreached
    ensures var g, w, h := ff.grid[..], ff.width, ff.height;
      1 <= Dist(g, w, h, target) && step == FirstStep(g, w, h, target)
      && Dist(g, w, h, step) == 1 && Pred(g, w, h, step) == start
      && step in Neighbours(w, h, start) && Open(SceneOf(board), step)
  {
    ghost var scene, g := SceneOf(board), ff.grid[..];
    BackBegins(scene, start, g, target);
    step := target;
    ghost var n: nat := 0;
    while ff.Get(step).1 != start
      invariant BackFrom(g, scene.width, scene.height, start, target, step, n)
      decreases Dist(g, scene.width, scene.height, step)
    {
      BackStep(scene, start, g, target, step, n);
      step := ff.Get(step).1;
      n := n + 1;
    }
    BackEnds(scene, start, g, target, step, n);
  }

  /** The state of the backtracking loop after `n` steps back from
      `target`: `step` is `n` links back along the flood's tree, still a
      reached cell other than the start. */
  ghost predicate BackFrom(g: seq<Cell>, w: nat, h: nat, start: Point, target: Point, step: Point, n: nat)
  {
    InBounds(w, h, step) && step != start && Dist(g, w, h, step) != Unreached
    && n < Dist(g, w, h, target)
    && step == Follow(g, w, h, target, n) && Dist(g, w, h, step) == Dist(g, w, h, target) - n
  }

  /** The loop starts at the target. */
  lemma BackBegins(scene: Scene, start: Point, g: seq<Cell>, target: Point)
    requires Flooded(scene, start, g)
    requires InBounds(scene.width, scene.height, target) && target != start
    requires Dist(g, scene.width, scene.height, target) != Unreached
    ensures BackFrom(g, scene.width, scene.height, start, target, target, 0)
  {
    assert Links(scene, start, g, target);
  }

  /** A step back that does not reach the start leads to a reached cell
      one closer. */
  lemma BackStep(scene: Scene, start: Point, g: seq<Cell>, target: Point, step: Point, n: nat)
    requires Flooded(scene, start, g)
    requires BackFrom(g, scene.width, scene.height, start, target, step, n)
    requires Pred(g, scene.width, scene.height, step) != start
    ensures var w, h := scene.width, scene.height;
      BackFrom(g, w, h, start, target, Pred(g, w, h, step), n + 1)
      && Dist(g, w, h, Pred(g, w, h, step)) < Dist(g, w, h, step)
  {
    var w, h := scene.width, scene.height;
    assert Links(scene, start, g, step);
    NeighboursAdjacent(w, h, step, Pred(g, w, h, step));
    assert Links(scene, start, g, Pred(g, w, h, step));
  }

  /** When the step back reaches the start, the cell before it is the
      first step: reached at distance 1 from the start, an open neighbour
      of it. */
  lemma BackEnds(scene: Scene, start: Point, g: seq<Cell>, target: Point, step: Point, n: nat)
    requires Flooded(scene, start, g)
    requires BackFrom(g, scene.width, scene.height, start, target, step, n)
    requires Pred(g, scene.width, scene.height, step) == start
    ensures var w, h := scene.width, scene.height;
      1 <= Dist(g, w, h, target) && step == FirstStep(g, w, h, target)
      && Dist(g, w, h, step) == 1 && Pred(g, w, h, step) == start
      && step in Neighbours(w, h, start) && Open(scene, step)
  {
    var w, h := scene.width, scene.height;
    assert Links(scene, start, g, step);
    assert Dist(g, w, h, start) == 0;
    NeighboursSymmetric(w, h, step, start);
  }

  /** The race of the warrior standing at `pos`. */
  function RaceAt(scene: Scene, pos: Point): Race
    requires pos in scene.posToId && scene.posToId[pos] in scene.idToWarrior
  {
    scene.idToWarrior[scene.posToId[pos]].race
  }


  /** `dists` is the flood from `pos`, and `step` the first step on the
      way back from the target chosen on it, when there is one. */
  ghost predicate Chosen(scene: Scene, pos: Point, race: Race, step: Option<Point>, dists: seq<Cell>)
  {
    var w, h := scene.width, scene.height;
    var target := ChooseTarget(scene, dists, race);
    Flooded(scene, pos, dists)
    && step == if target.None? then None else Some(FirstStep(dists, w, h, target.value))
  }

  /** A step goes to an open cell next to `pos`. */
  ghost predicate StepsNextTo(scene: Scene, pos: Point, step: Option<Point>)
  {
    step.Some? ==> step.value in Neighbours(scene.width, scene.height, pos) && Open(scene, step.value)
  }

  /** What `next_turn` decides for the warrior at `pos` before it moves:
      no step when an enemy is next to it, otherwise the step chosen on the
      flood from `pos`. */
  ghost predicate Planned(scene: Scene, pos: Point, step: Option<Point>, dists: seq<Cell>)
    requires pos in scene.posToId && scene.posToId[pos] in scene.idToWarrior
  {
    var race := RaceAt(scene, pos);
    (EnemyNext(scene, pos, race) ==> step.None?)
    && (!EnemyNext(scene, pos, race) ==> Chosen(scene, pos, race, step, dists))
    && StepsNextTo(scene, pos, step)
  }

  /** The first part of `next_turn`, which only looks at the board: the
      step the warrior at `pos` takes, if any. */
  method PlanTurn(board: Board, pos: Point) returns (step: Option<Point>, ghost dists: seq<Cell>)
    requires board.Valid() && pos in board.warriors.posToId
    requires board.tiles.width * board.tiles.height < Unreached
    ensures Planned(SceneOf(board), pos, step, dists)
  {
    var warrior := board.warriors.GetByPos(pos).value;
    assert warrior.race == RaceAt(SceneOf(board), pos);
    step, dists := None, [];
    if !board.HasAdjacentEnemy(pos, warrior.race) {
      var ff := FloodFill(board, pos);
      dists := ff.grid[..];
      var target := ChooseTarget(SceneOf(board), ff.grid[..], warrior.race);
      if target.Some? {
        CandidateElsewhere(SceneOf(board), dists, warrior.race, pos, target.value);
        var s := Backtrack(board, ff, pos, target.value);
        step := Some(s);
        assert step.value == FirstStep(dists, board.tiles.width, board.tiles.height, target.value);
      }
      assert Chosen(SceneOf(board), pos, warrior.race, step, dists);
    }
    assert StepsNextTo(SceneOf(board), pos, step);
  }



  /** Where the ids stand after the warrior at `pos` takes `step`. */
  function Moved(posToId: map<Point, nat>, pos: Point, step: Option<Point>): (r: map<Point, nat>)
    requires pos in posToId
    ensures step.None? ==> r == posToId
    ensures step.Some? ==>
      r.Keys == posToId.Keys - {pos} + {step.value} && r[step.value] == posToId[pos]
      && forall p :: p in posToId && p != pos && p != step.value ==> r[p] == posToId[p]
  {
    if step.None? then posToId else (posToId - {pos})[step.value := posToId[pos]]
  }

  /** `next_turn`: the step decided on the board as it stood before the
      turn (none when an enemy is next to the warrior, otherwise the first
      step towards the target chosen on the flood `dists` from `pos`), then
      the warrior's id moves from `pos` to that step. The step is to an
      empty cell next to `pos` that no warrior held, and nothing else
      changes. */
  method NextTurn(board: Board, pos: Point) returns (moved: Option<Point>, ghost dists: seq<Cell>)
    requires board.Valid() && pos in board.warriors.posToId
    requires board.tiles.width * board.tiles.height < Unreached
    modifies board.warriors
    ensures board.Valid()
    ensures old(board.warriors.posToId[pos]) in old(board.warriors.idToWarrior)
    ensures Planned(old(SceneOf(board)), pos, moved, dists)
    ensures board.warriors.idToWarrior == old(board.warriors.idToWarrior)
    ensures board.warriors.nextId == old(board.warriors.nextId)
    ensures board.warriors.posToId == Moved(old(board.warriors.posToId), pos, moved)
    ensures moved.Some? ==>
      moved.value in Neighbours(board.tiles.width, board.tiles.height, pos)
      && board.tiles.Get(moved.value) == Empty && moved.value !in old(board.warriors.posToId)
  {
    moved, dists := PlanTurn(board, pos);
    if moved.Some? {
      assert StepsNextTo(SceneOf(board), pos, moved);
      OpenStep(SceneOf(board), pos, moved.value);
      MoveWarrior(board, pos, moved.value);
    }
  }

  /** The end of `next_turn`: the id at `pos` is removed and put back at
      `step`. */
  method MoveWarrior(board: Board, pos: Point, step: Point)
    requires board.Valid() && pos in board.warriors.posToId
    requires InBounds(board.tiles.width, board.tiles.height, step) && step !in board.warriors.posToId
    modifies board.warriors
    ensures board.Valid()
    ensures board.warriors.idToWarrior == old(board.warriors.idToWarrior)
    ensures board.warriors.nextId == old(board.warriors.nextId)
    ensures board.warriors.posToId == (old(board.warriors.posToId) - {pos})[step := old(board.warriors.posToId)[pos]]
  {
    ghost var before := board.warriors.posToId;
    var id := board.warriors.GetByPos(pos).value.id;
    board.warriors.posToId := (board.warriors.posToId - {pos})[step := id];
    forall k | k in board.warriors.idToWarrior ensures k in board.warriors.posToId.Values {
      var p :| p in before && before[p] == k;
      if p != pos {
        assert board.warriors.posToId[p] == k;
      } else {
        assert board.warriors.posToId[step] == k;
      }
    }
  }

  /** A step into an open cell goes to a cell on the map that no warrior
      holds. */
  lemma OpenStep(scene: Scene, pos: Point, step: Point)
    requires pos in scene.posToId && Open(scene, step)
    ensures InBounds(scene.width, scene.height, step) && TileAt(scene, step) == Empty
    ensures step !in scene.posToId && step != pos
  {
  }

  /** `p` is where `id` stands in `posToId`, when each id stands once. */
  lemma PosOfUnique(posToId: map<Point, nat>, p: Point)
    requires OneToOne(posToId) && p in posToId
    ensures PosOf(posToId, posToId[p]) == Some(p)
  {
  }

  /** Moving the warrior at `p` to a free `step` moves its id and no
      other. */
  lemma PosOfMove(posToId: map<Point, nat>, p: Point, step: Point)
    requires OneToOne(posToId) && p in posToId && step !in posToId
    ensures var moved := (posToId - {p})[step := posToId[p]];
      OneToOne(moved) && PosOf(moved, posToId[p]) == Some(step)
      && forall id :: id != posToId[p] ==> PosOf(moved, id) == PosOf(posToId, id)
  {
    var moved := (posToId - {p})[step := posToId[p]];
    PosOfUnique(moved, step);
    forall id | id != posToId[p] ensures PosOf(moved, id) == PosOf(posToId, id) {
      var before := PosOf(posToId, id);
      if before.Some? {
        PosOfUnique(posToId, before.value);
        PosOfUnique(moved, before.value);
      } else {
        assert id !in moved.Values;
      }
    }
  }

  /** Between `before` and `after` the warrior with `id` stayed or took
      one step. */
  ghost predicate AtMostOneStep(before: map<Point, nat>, after: map<Point, nat>, id: nat)
  {
    PosOf(before, id).Some? && PosOf(after, id).Some?
    && (PosOf(after, id) == PosOf(before, id) || Adjacent(PosOf(before, id).value, PosOf(after, id).value))
  }

  lemma ValuesAreIds(w: Warriors)
    requires w.Valid()
    ensures w.posToId.Values == w.idToWarrior.Keys
  {
  }

  /** The turn of the warrior `id` on `scene`: when it stands somewhere
      it takes the step planned there and the positions become `after`;
      when it is not found the turn is skipped. */
  ghost predicate TurnTaken(scene: Scene, id: nat, step: Option<Point>, dists: seq<Cell>, after: map<Point, nat>)
  {
    match PosOf(scene.posToId, id)
    case None => step.None? && after == scene.posToId
    case Some(pos) =>
      pos in scene.posToId && scene.posToId[pos] in scene.idToWarrior
      && Planned(scene, pos, step, dists) && after == Moved(scene.posToId, pos, step)
  }

  /** `next_round`: the turn order is taken at the start of the round, and
      the warriors take their turns in that order. Turn `i` is taken by
      `order[i]` on the positions `history[i]` that the turns before it
      left, and leaves `history[i + 1]`. The same warriors remain, and each
      has moved at most one step. */
  method NextRound(board: Board)
    returns (ghost order: seq<nat>, ghost history: seq<map<Point, nat>>,
             ghost steps: seq<Option<Point>>, ghost floods: seq<seq<Cell>>)
    requires board.Valid() && board.tiles.width * board.tiles.height < Unreached
    modifies board.warriors
    ensures board.Valid()
    ensures order == old(board.warriors.TurnOrder())
    ensures |history| == |order| + 1 && |steps| == |order| && |floods| == |order|
    ensures history[0] == old(board.warriors.posToId) && history[|order|] == board.warriors.posToId
    ensures TurnsTaken(old(SceneOf(board)), order, history, steps, floods, |order|)
    ensures board.warriors.idToWarrior == old(board.warriors.idToWarrior)
    ensures board.warriors.nextId == old(board.warriors.nextId)
    ensures board.warriors.posToId.Values == old(board.warriors.posToId.Values)
    ensures forall id :: id in old(board.warriors.posToId.Values) ==>
      AtMostOneStep(old(board.warriors.posToId), board.warriors.posToId, id)
  {
    ghost var start := board.warriors.posToId;
    ghost var scene := SceneOf(board);
    var turns := board.warriors.TurnOrder();
    order, history, steps, floods := turns, [start], [], [];
    RoundBegins(start);
    for i := 0 to |turns|
      invariant board.Valid()
      invariant board.warriors.idToWarrior == old(board.warriors.idToWarrior)
      invariant board.warriors.nextId == old(board.warriors.nextId)
      invariant SceneOf(board) == scene.(posToId := board.warriors.posToId)
      invariant Playing(scene, start, turns, i, board.warriors.posToId, history, steps, floods)
    {
      var moved;
      ghost var dists;
      moved, dists := TakeTurn(board, turns[i], start, turns, i);
      PlayingStep(scene, start, turns, i, history, steps, floods, moved, dists, board.warriors.posToId);
      history, steps, floods := history + [board.warriors.posToId], steps + [moved], floods + [dists];
    }
  }

  /** Before the first turn, the turn order names each warrior once and
      nobody has moved. */
  lemma RoundBegins(start: map<Point, nat>)
    requires OneToOne(start)
    ensures var order := IdsInOrder(start);
      (forall j, k :: 0 <= j < k < |order| ==> order[j] != order[k]) && Round(start, start, order, 0)
  {
    TurnOrderDistinct(start);
    forall id | id in start.Values ensures AtMostOneStep(start, start, id) {
    }
  }

  /** The state of `next_round`'s loop before turn `i`: `Round` holds of
      the positions `now`, and `history` records the turns taken so far,
      ending at `now`. */
  ghost predicate Playing(scene: Scene, start: map<Point, nat>, order: seq<nat>, i: nat, now: map<Point, nat>,
                          history: seq<map<Point, nat>>, steps: seq<Option<Point>>, floods: seq<seq<Cell>>)
  {
    Round(start, now, order, i)
    && |history| == i + 1 && history[0] == start && history[i] == now
    && TurnsTaken(scene, order, history, steps, floods, i)
  }

  /** Turn `i`, taken on the positions the turns before it left, moves the
      loop's state on by one turn. */
  lemma PlayingStep(scene: Scene, start: map<Point, nat>, order: seq<nat>, i: nat,
                    history: seq<map<Point, nat>>, steps: seq<Option<Point>>, floods: seq<seq<Cell>>,
                    step: Option<Point>, dists: seq<Cell>, after: map<Point, nat>)
    requires i < |order| && |history| == i + 1 && Playing(scene, start, order, i, history[i], history, steps, floods)
    requires TurnTaken(scene.(posToId := history[i]), order[i], step, dists, after)
    requires Round(start, after, order, i + 1)
    ensures Playing(scene, start, order, i + 1, after, history + [after], steps + [step], floods + [dists])
  {
    TurnsTakenStep(scene, order, history, steps, floods, i, step, dists, after);
  }

  /** The first `n` turns of a round that starts on `scene`: turn `i` is
      taken by `order[i]` on the positions `history[i]` and leaves
      `history[i + 1]`; the tiles and the warriors stay those of `scene`. */
  ghost predicate TurnsTaken(scene: Scene, order: seq<nat>, history: seq<map<Point, nat>>,
                             steps: seq<Option<Point>>, floods: seq<seq<Cell>>, n: nat)
  {
    n <= |order| && |history| == n + 1 && |steps| == n && |floods| == n
    && forall i :: 0 <= i < n ==> TurnTaken(scene.(posToId := history[i]), order[i], steps[i], floods[i], history[i + 1])
  }

  /** One more turn extends the record of the round. */
  lemma TurnsTakenStep(scene: Scene, order: seq<nat>, history: seq<map<Point, nat>>,
                       steps: seq<Option<Point>>, floods: seq<seq<Cell>>, n: nat,
                       step: Option<Point>, dists: seq<Cell>, after: map<Point, nat>)
    requires n < |order| && TurnsTaken(scene, order, history, steps, floods, n)
    requires TurnTaken(scene.(posToId := history[n]), order[n], step, dists, after)
    ensures TurnsTaken(scene, order, history + [after], steps + [step], floods + [dists], n + 1)
  {
    var history', steps', floods' := history + [after], steps + [step], floods + [dists];
    forall i | 0 <= i < n + 1
      ensures TurnTaken(scene.(posToId := history'[i]), order[i], steps'[i], floods'[i], history'[i + 1])
    {
      if i < n {
        assert history'[i] == history[i] && history'[i + 1] == history[i + 1];
        assert TurnTaken(scene.(posToId := history[i]), order[i], steps[i], floods[i], history[i + 1]);
      }
    }
  }

  /** The body of `next_round`'s loop: the warrior `id` takes its turn from
      where it stands, and nothing happens when it is not found. */
  method TakeTurn(board: Board, id: nat, ghost start: map<Point, nat>, ghost order: seq<nat>, ghost i: nat)
    returns (moved: Option<Point>, ghost dists: seq<Cell>)
    requires board.Valid() && board.tiles.width * board.tiles.height < Unreached
    requires i < |order| && order[i] == id && (forall j, k :: 0 <= j < k < |order| ==> order[j] != order[k])
    requires Round(start, board.warriors.posToId, order, i)
    modifies board.warriors
    ensures board.Valid()
    ensures board.warriors.idToWarrior == old(board.warriors.idToWarrior)
    ensures board.warriors.nextId == old(board.warriors.nextId)
    ensures TurnTaken(old(SceneOf(board)), id, moved, dists, board.warriors.posToId)
    ensures Round(start, board.warriors.posToId, order, i + 1)
    ensures SceneOf(board) == old(SceneOf(board)).(posToId := board.warriors.posToId)
  {
    ghost var before := board.warriors.posToId;
    var found := board.warriors.FindPos(id);
    match found
    case Some(pos) =>
      moved, dists := NextTurn(board, pos);
      if moved.Some? {
        NeighboursAdjacent(board.tiles.width, board.tiles.height, pos, moved.value);
      }
      TurnKeeps(start, before, board.warriors.posToId, order, i, pos, moved);
    case None =>
      moved, dists := None, [];
  }

  /** Midway through a round: the same ids stand on the board, the ids
      still to come stand where they stood at the start, and every id has
      moved at most one step. */
  ghost predicate Round(start: map<Point, nat>, now: map<Point, nat>, order: seq<nat>, i: nat)
  {
    now.Values == start.Values
    && (forall j :: i <= j < |order| ==> PosOf(now, order[j]) == PosOf(start, order[j]))
    && (forall id :: id in start.Values ==> AtMostOneStep(start, now, id))
  }

  /** One turn of the round keeps `Round`. */
  lemma TurnKeeps(start: map<Point, nat>, before: map<Point, nat>, after: map<Point, nat>,
                  order: seq<nat>, i: nat, pos: Point, moved: Option<Point>)
    requires i < |order| && (forall j, k :: 0 <= j < k < |order| ==> order[j] != order[k])
    requires OneToOne(before) && Round(start, before, order, i)
    requires pos in before && before[pos] == order[i]
    requires moved.Some? ==> moved.value !in before && Adjacent(pos, moved.value)
    requires after == Moved(before, pos, moved)
    ensures Round(start, after, order, i + 1)
  {
    PosOfUnique(before, pos);
    if moved.Some? {
      PosOfMove(before, pos, moved.value);
      var id := order[i];
      forall x | x in start.Values ensures AtMostOneStep(start, after, x) {
        assert AtMostOneStep(start, before, x);
      }
      assert after.Values == before.Values by {
        forall x ensures x in after.Values <==> x in before.Values {
          if x in before.Values {
            var p :| p in before && before[p] == x;
            if p != pos {
              assert after[p] == x;
            } else {
              assert after[moved.value] == x;
            }
          }
        }
      }
    }
  }

}
