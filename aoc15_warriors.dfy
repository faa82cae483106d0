/** aoc_15: beverage bandits, the warriors. Every warrior has an id; one
    map says which id stands where, another which warrior has which id,
    and the two must stay in step. */
module Bandits {
  import opened Wrappers
  import opened Cave
  import Orders
  import Arith

  datatype Race = Goblin | Elf

  datatype Warrior = Warrior(race: Race, id: nat)

  /** The `enemy_race` of `next_turn`. */
  function Enemy(race: Race): Race
  {
    if race == Elf then Goblin else Elf
  }

  /** Every non-empty set of points has a first point in reading order. */
  lemma HasFirst(s: set<Point>)
    requires s != {}
    ensures exists m :: m in s && forall q :: q in s ==> ReadingLe(m, q)
  {
    var m := Orders.Minimum(s, (a: Point, b: Point) => ReadingLe(a, b));
  }

  /** The first point of a set in reading order. */
  function First(s: set<Point>): (m: Point)
    requires s != {}
    ensures m in s && forall q :: q in s ==> ReadingLe(m, q)
  {
    HasFirst(s);
    var m :| m in s && forall q :: q in s ==> ReadingLe(m, q); m
  }

  /** The points of a set in reading order: the `sort_by_key` of
      `get_turn_order`. */
  function ReadingOrder(s: set<Point>): (r: seq<Point>)
    ensures |r| == |s|
    ensures forall p :: p in r <==> p in s
    ensures forall i, j :: 0 <= i < j < |r| ==> ReadingLess(r[i], r[j])
    decreases |s|
  {
    if s == {} then []
    else
      var m := First(s);
      var rest := ReadingOrder(s - {m});
      assert forall p :: p in rest ==> ReadingLess(m, p);
      [m] + rest
  }

  /** The warrior letter of a drawing. */
  function RaceOf(c: char): Option<Race>
  {
    match c
    case 'E' => Some(Elf)
    case 'G' => Some(Goblin)
    case _ => None
  }

  /** The number of warriors in a drawing. */
  function Count(chars: string): (n: nat)
    ensures n <= |chars|
    decreases |chars|
  {
    if chars == [] then 0
    else Count(chars[..|chars| - 1]) + (if RaceOf(chars[|chars| - 1]).Some? then 1 else 0)
  }

  /** A warrior letter further on in the drawing has more warriors before
      it. */
  lemma {:induction false} CountGrows(chars: string, i: nat, j: nat)
    requires i < j <= |chars| && RaceOf(chars[i]).Some?
    ensures Count(chars[..i]) < Count(chars[..j])
    decreases j - i
  {
    assert chars[..j][..j - 1] == chars[..j - 1];
    if j == i + 1 {
      assert chars[..j][j - 1] == chars[i];
    } else {
      CountGrows(chars, i, j - 1);
    }
  }

  /** Where the id stands; the first such position in reading order when
      there are several (under `Warriors.Valid` there is at most one). */
  function PosOf(posToId: map<Point, nat>, id: nat): (r: Option<Point>)
    ensures r.Some? ==> r.value in posToId && posToId[r.value] == id
    ensures r.None? <==> id !in posToId.Values
  {
    var found := set p | p in posToId && posToId[p] == id;
    assert id in posToId.Values ==> found != {} by {
      if id in posToId.Values {
        var p :| p in posToId && posToId[p] == id;
        assert p in found;
      }
    }
    if found == {} then None else Some(First(found))
  }

  /** The ids of `posToId`, ordered by the reading order of their
      positions. */
  function IdsInOrder(posToId: map<Point, nat>): (r: seq<nat>)
    ensures |r| == |posToId|
  {
    IdsAt(posToId, ReadingOrder(posToId.Keys))
  }

  /** The ids standing at `order`, one by one. */
  function IdsAt(posToId: map<Point, nat>, order: seq<Point>): (r: seq<nat>)
    requires forall p :: p in order ==> p in posToId
    ensures |r| == |order| && forall i :: 0 <= i < |order| ==> r[i] == posToId[order[i]]
  {
    if order == [] then [] else [posToId[order[0]]] + IdsAt(posToId, order[1..])
  }

  /** One position per id: no id stands at two positions. */
  ghost predicate OneToOne(posToId: map<Point, nat>)
  {
    forall p, q :: p in posToId && q in posToId && posToId[p] == posToId[q] ==> p == q
  }

  /** The turn order holds every id on the map and nothing else... */
  lemma TurnOrderIds(posToId: map<Point, nat>)
    ensures forall id :: id in IdsInOrder(posToId) <==> id in posToId.Values
  {
    var r := IdsInOrder(posToId);
    var order := ReadingOrder(posToId.Keys);
    forall id | id in posToId.Values ensures id in r {
      var p :| p in posToId && posToId[p] == id;
      assert p in order;
      var i :| 0 <= i < |order| && order[i] == p;
      assert r[i] == id;
    }
    forall id | id in r ensures id in posToId.Values {
      var i :| 0 <= i < |r| && r[i] == id;
      assert order[i] in order;
    }
  }

  /** ... and, with one position per id, each of them once. */
  lemma TurnOrderDistinct(posToId: map<Point, nat>)
    requires OneToOne(posToId)
    ensures var r := IdsInOrder(posToId);
      forall i, j :: 0 <= i < j < |r| ==> r[i] != r[j]
  {
    var r := IdsInOrder(posToId);
    var order := ReadingOrder(posToId.Keys);
    forall i, j | 0 <= i < j < |r| ensures r[i] != r[j] {
      assert order[i] in order && order[j] in order;
      assert ReadingLess(order[i], order[j]);
    }
  }

  /** ... and the positions of its ids, as `find_warrior_pos_by_id` finds
      them, come in reading order. */
  lemma TurnOrderPositions(posToId: map<Point, nat>)
    requires OneToOne(posToId)
    ensures var r := IdsInOrder(posToId);
      forall i :: 0 <= i < |r| ==> PosOf(posToId, r[i]) == Some(ReadingOrder(posToId.Keys)[i])
  {
    var r := IdsInOrder(posToId);
    var order := ReadingOrder(posToId.Keys);
    forall i | 0 <= i < |r| ensures PosOf(posToId, r[i]) == Some(order[i]) {
      assert order[i] in order;
      PosOfAt(posToId, order[i]);
    }
  }

  /** With one position per id, the id at `p` is found at `p`. */
  lemma PosOfAt(posToId: map<Point, nat>, p: Point)
    requires OneToOne(posToId) && p in posToId
    ensures PosOf(posToId, posToId[p]) == Some(p)
  {
    var found := set q | q in posToId && posToId[q] == posToId[p];
    assert found == {p};
  }

  /** `Warriors`: `posToId` says which id stands at each position,
      `idToWarrior` which warrior has each id, and `nextId` is the id the
      next warrior gets. */
  class Warriors {
    var posToId: map<Point, nat>
    var idToWarrior: map<nat, Warrior>
    var nextId: nat

    /** The two maps are in one-to-one correspondence: each position's id
        has a warrior carrying that id, no id stands at two positions, and
        every warrior stands somewhere, with an id below `nextId`. */
    ghost predicate Valid()
      reads this
    {
      (forall p :: p in posToId ==> posToId[p] in idToWarrior && idToWarrior[posToId[p]].id == posToId[p])
      && OneToOne(posToId)
      && (forall id :: id in idToWarrior ==> id in posToId.Values && id < nextId)
    }

    /** `Warriors::new`. */
    constructor ()
      ensures posToId == map[] && idToWarrior == map[] && nextId == 0 && Valid()
    {
      posToId := map[];
      idToWarrior := map[];
      nextId := 0;
    }

    /** The fold body of `from_input`: the next id goes to the warrior at
        `pos`. */
    method Add(pos: Point, race: Race)
      requires Valid() && pos !in posToId
      modifies this
      ensures posToId == old(posToId)[pos := old(nextId)]
      ensures idToWarrior == old(idToWarrior)[old(nextId) := Warrior(race, old(nextId))]
      ensures nextId == old(nextId) + 1
      ensures Valid()
    {
      var id := nextId;
      nextId := nextId + 1;
      posToId := posToId[pos := id];
      idToWarrior := idToWarrior[id := Warrior(race, id)];
      assert posToId[pos] == id;
      forall k | k in idToWarrior ensures k in posToId.Values {
        if k != id {
          var p :| p in old(posToId) && old(posToId)[p] == k;
          assert posToId[p] == k;
        }
      }
    }

    /** `get_by_pos`. */
    function GetByPos(pos: Point): (r: Option<Warrior>)
      reads this
      ensures Valid() ==> (r.Some? <==> pos in posToId) && (r.Some? ==> r.value.id == posToId[pos])
    {
      if pos in posToId && posToId[pos] in idToWarrior then Some(idToWarrior[posToId[pos]]) else None
    }

    /** `find_warrior_pos_by_id`. */
    function FindPos(id: nat): (r: Option<Point>)
      reads this
      ensures r.Some? ==> r.value in posToId && posToId[r.value] == id
      ensures r.None? <==> id !in posToId.Values
    {
      PosOf(posToId, id)
    }

    /** `get_turn_order`. */
    function TurnOrder(): (r: seq<nat>)
      reads this
      ensures |r| == |posToId|
    {
      IdsInOrder(posToId)
    }

    /** `get_by_race`: the positions of the warriors of a race. */
    function ByRace(race: Race): (r: set<Point>)
      reads this
      ensures forall p :: p in r <==> GetByPos(p).Some? && GetByPos(p).value.race == race
    {
      set p | p in posToId && posToId[p] in idToWarrior && idToWarrior[posToId[p]].race == race
    }
  }

  /** The warriors read from the first `i` letters of a drawing `width`
      letters wide: a warrior at every warrior letter, numbered by the
      warriors before it, and no other. */
  ghost predicate Enlisted(chars: string, width: nat, height: nat, i: nat,
                           posToId: map<Point, nat>, idToWarrior: map<nat, Warrior>)
    requires i <= |chars| == width * height
  {
    (forall p :: p in posToId ==> InBounds(width, height, p) && Index(width, height, p) < i)
    && (forall p :: InBounds(width, height, p) && Index(width, height, p) < i ==>
          Placed(chars, width, height, p, posToId, idToWarrior))
  }

  /** `p` holds a warrior exactly when its letter is a warrior letter, and
      that warrior's id is the number of warriors before it. */
  ghost predicate Placed(chars: string, width: nat, height: nat, p: Point,
                         posToId: map<Point, nat>, idToWarrior: map<nat, Warrior>)
    requires |chars| == width * height && InBounds(width, height, p)
  {
    var k := Index(width, height, p);
    (p in posToId <==> RaceOf(chars[k]).Some?)
    && (p in posToId ==>
          posToId[p] == Count(chars[..k])
          && posToId[p] in idToWarrior
          && idToWarrior[posToId[p]] == Warrior(RaceOf(chars[k]).value, Count(chars[..k])))
  }

  /** Ids are handed out in reading order. */
  lemma IdsInReadingOrder(chars: string, width: nat, height: nat,
                          posToId: map<Point, nat>, idToWarrior: map<nat, Warrior>, p: Point, q: Point)
    requires |chars| == width * height
    requires Enlisted(chars, width, height, |chars|, posToId, idToWarrior)
    requires p in posToId && q in posToId && ReadingLess(p, q)
    ensures posToId[p] < posToId[q]
  {
    assert Placed(chars, width, height, p, posToId, idToWarrior);
    assert Placed(chars, width, height, q, posToId, idToWarrior);
    IndexReadingOrder(width, height, p, q);
    CountGrows(chars, Index(width, height, p), Index(width, height, q));
  }

  lemma EnlistStep(chars: string, width: nat, height: nat, i: nat,
                   posToId: map<Point, nat>, idToWarrior: map<nat, Warrior>,
                   posToId': map<Point, nat>, idToWarrior': map<nat, Warrior>)
    requires i < |chars| == width * height
    requires Enlisted(chars, width, height, i, posToId, idToWarrior)
    requires forall id :: id in idToWarrior ==> id < Count(chars[..i])
    requires RaceOf(chars[i]).None? ==> posToId' == posToId && idToWarrior' == idToWarrior
    requires RaceOf(chars[i]).Some? ==>
      posToId' == posToId[PointAt(width, height, i) := Count(chars[..i])]
      && idToWarrior' == idToWarrior[Count(chars[..i]) := Warrior(RaceOf(chars[i]).value, Count(chars[..i]))]
    ensures Enlisted(chars, width, height, i + 1, posToId', idToWarrior')
  {
    var here := PointAt(width, height, i);
    forall p | InBounds(width, height, p) && Index(width, height, p) < i + 1
      ensures Placed(chars, width, height, p, posToId', idToWarrior')
    {
      IndexInjective(width, height, p, here);
      if Index(width, height, p) < i {
        assert Placed(chars, width, height, p, posToId, idToWarrior);
      }
    }
  }

  /** The fold of `from_input` over the letters of the drawing. */
  method Enlist(chars: string, width: nat, height: nat) returns (w: Warriors)
    requires |chars| == width * height
    ensures fresh(w) && w.Valid() && w.nextId == Count(chars)
    ensures Enlisted(chars, width, height, |chars|, w.posToId, w.idToWarrior)
  {
    w := new Warriors();
    for i := 0 to |chars|
      invariant w.Valid() && w.nextId == Count(chars[..i])
      invariant Enlisted(chars, width, height, i, w.posToId, w.idToWarrior)
    {
      ghost var (posToId, idToWarrior) := (w.posToId, w.idToWarrior);
      var race := RaceOf(chars[i]);
      if race.Some? {
        var pos := PointAt(width, height, i);
        w.Add(pos, race.value);
      }
      EnlistStep(chars, width, height, i, posToId, idToWarrior, w.posToId, w.idToWarrior);
      assert chars[..i + 1][..i] == chars[..i];
    }
    assert chars[..|chars|] == chars;
  }

  /** The lines of the drawing one after the other. */
  function Concat(lines: seq<string>): string
    decreases |lines|
  {
    if lines == [] then [] else Concat(lines[..|lines| - 1]) + lines[|lines| - 1]
  }

  /** The letters of a rectangular drawing are stored row by row. */
  lemma {:induction false} ConcatAt(lines: seq<string>, width: nat, p: Point)
    requires forall k :: 0 <= k < |lines| ==> |lines[k]| == width
    ensures |Concat(lines)| == width * |lines|
    ensures InBounds(width, |lines|, p) ==> Concat(lines)[Index(width, |lines|, p)] == lines[p.1][p.0]
    decreases |lines|
  {
    if lines != [] {
      var n := |lines| - 1;
      ConcatAt(lines[..n], width, p);
      Arith.MulSucc(width, n);
      if InBounds(width, |lines|, p) && p.1 < n {
        Arith.RowMajor(width, n, p.0, p.1, p.0, p.1);
      }
    }
  }

  /** The tile of each letter of the drawing. */
  function Tiles(chars: string): (r: seq<Tile>)
    ensures |r| == |chars| && forall i :: 0 <= i < |r| ==> (r[i] == Wall <==> chars[i] == '#')
  {
    seq(|chars|, i requires 0 <= i < |chars| => if chars[i] == '#' then Wall else Empty)
  }

  /** `Board`: the tile map and the warriors on it. */
  class Board {
    const tiles: Map<Tile>
    const warriors: Warriors

    /** The warriors are consistent and stand on the map. */
    ghost predicate Valid()
      reads warriors
    {
      tiles.Valid() && warriors.Valid()
      && forall p :: p in warriors.posToId ==> InBounds(tiles.width, tiles.height, p)
    }

    /** `Board::from_input` after the file has been read into lines: a wall
        at every `#`, the warriors numbered in reading order. */
    constructor FromLines(lines: seq<string>)
      requires lines != [] && forall k :: 0 <= k < |lines| ==> |lines[k]| == |lines[0]|
      ensures fresh(tiles) && fresh(tiles.grid) && fresh(warriors) && Valid()
      ensures tiles.width == |lines[0]| && tiles.height == |lines|
      ensures forall p: Point :: InBounds(tiles.width, tiles.height, p) ==> (tiles.Get(p) == Wall <==> lines[p.1][p.0] == '#')
      ensures |Concat(lines)| == tiles.width * tiles.height
      ensures Enlisted(Concat(lines), tiles.width, tiles.height, |Concat(lines)|, warriors.posToId, warriors.idToWarrior)
      ensures warriors.nextId == Count(Concat(lines))
    {
      var width, height := |lines[0]|, |lines|;
      var chars := Concat(lines);
      ConcatAt(lines, width, (0, 0));
      var grid := new Map(width, height, Tiles(chars));
      var w := Enlist(chars, width, height);
      tiles := grid;
      warriors := w;
      new;
      forall p: Point | InBounds(width, height, p) ensures tiles.Get(p) == Wall <==> lines[p.1][p.0] == '#' {
        ConcatAt(lines, width, p);
      }
      forall p | p in warriors.posToId ensures InBounds(width, height, p) {
      }
    }

    /** `is_position_empty`: neither a wall nor a warrior. */
    function IsPositionEmpty(pos: Point): (r: bool)
      requires Valid() && InBounds(tiles.width, tiles.height, pos)
      reads tiles.grid, warriors
      ensures r <==> tiles.Get(pos) == Empty && pos !in warriors.posToId
    {
      tiles.Get(pos) == Empty && warriors.GetByPos(pos).None?
    }

    /** `has_adjacent_enemy`: a neighbour holds a warrior of another race,
        that is, a warrior of the enemy race stands next to the position. */
    function HasAdjacentEnemy(pos: Point, race: Race): (r: bool)
      requires Valid()
      reads warriors
      ensures r <==> exists q :: q in warriors.ByRace(Enemy(race)) && Adjacent(pos, q)
    {
      NeighboursAll(tiles.width, tiles.height, pos);
      exists q :: q in Neighbours(tiles.width, tiles.height, pos)
        && warriors.GetByPos(q).Some? && warriors.GetByPos(q).value.race != race
    }
  }
}
