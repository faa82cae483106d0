/** aoc_13: mine cart madness. A drawing of the tracks is read into a map
    of rails and a map of carts, keyed by position; a cart stands on a
    straight piece of rail that its glyph implies. */
module Tracks {
  import opened Wrappers

  /** `Point`: `x` is the column, `y` the line of the drawing. */
  datatype Point = Point(x: nat, y: nat)

  datatype Direction = Up | Down | Left | Right

  /** `Cart`: where it heads and which way it turns at the next crossing. */
  datatype Cart = Cart(direction: Direction, nextTurn: Direction)

  datatype Rail = Vertical | Horizontal | Curve1 | Curve2 | Intersection

  /** `Cart::new`: every cart starts out turning left at its first
      crossing. */
  function NewCart(direction: Direction): (c: Cart)
    ensures c.direction == direction && c.nextTurn == Left
  {
    Cart(direction, Left)
  }

  /** `Cart::to_char`: the arrow for the direction. */
  function CartChar(c: Cart): char
  {
    match c.direction
    case Up => '^'
    case Down => 'v'
    case Left => '<'
    case Right => '>'
  }

  /** `Rail::to_char`. */
  function RailChar(r: Rail): char
  {
    match r
    case Vertical => '|'
    case Horizontal => '-'
    case Curve1 => '/'
    case Curve2 => '\\'
    case Intersection => '+'
  }

  /** The straight rail a cart heading in `d` stands on. */
  function RailUnder(d: Direction): Rail
  {
    if d == Left || d == Right then Horizontal else Vertical
  }

  /** The `match c` of `read_input`: a rail glyph, a cart glyph with the
      rail under it, or nothing. */
  function Classify(c: char): Option<(Rail, Option<Cart>)>
  {
    match c
    case '/' => Some((Curve1, None))
    case '-' => Some((Horizontal, None))
    case '\\' => Some((Curve2, None))
    case '|' => Some((Vertical, None))
    case '+' => Some((Intersection, None))
    case '>' => Some((Horizontal, Some(NewCart(Right))))
    case '<' => Some((Horizontal, Some(NewCart(Left))))
    case '^' => Some((Vertical, Some(NewCart(Up))))
    case 'v' => Some((Vertical, Some(NewCart(Down))))
    case _ => None
  }

  /** Exactly the nine track glyphs produce an entry. */
  lemma ClassifyGlyphs(c: char)
    ensures Classify(c).Some? <==> c in "/-\\|+><^v"
  {
  }

  /** Reading a glyph and writing it back gives the glyph: a rail glyph
      comes back from `Rail::to_char`, a cart glyph from `Cart::to_char`,
      and a cart is new and stands on the straight rail its direction
      needs. */
  lemma ClassifyToChar(c: char)
    requires Classify(c).Some?
    ensures var (rail, cart) := Classify(c).value;
      if cart.None? then RailChar(rail) == c
      else CartChar(cart.value) == c && cart.value.nextTurn == Left && rail == RailUnder(cart.value.direction)
  {
  }

  /** The other way round: every rail and every new cart is read back from
      the glyph it is written as. */
  lemma ToCharClassify(r: Rail, d: Direction)
    ensures Classify(RailChar(r)) == Some((r, None))
    ensures Classify(CartChar(NewCart(d))) == Some((RailUnder(d), Some(NewCart(d))))
  {
  }

  /** What the drawing shows at `p`: the classified glyph, or nothing when
      `p` is past the end of its line or below the last line. */
  function At(lines: seq<string>, p: Point): Option<(Rail, Option<Cart>)>
  {
    if p.y < |lines| && p.x < |lines[p.y]| then Classify(lines[p.y][p.x]) else None
  }

  /** The glyph at column `p.x` of line `y`, seen from the whole drawing:
      nothing at a point off that line. */
  function Row(y: nat, line: string, p: Point): Option<(Rail, Option<Cart>)>
  {
    if p.y == y && p.x < |line| then Classify(line[p.x]) else None
  }

  /** The rail map and the cart map agree with the entry `e` read at `p`. */
  ghost predicate Agrees(rails: map<Point, Rail>, carts: map<Point, Cart>, p: Point, e: Option<(Rail, Option<Cart>)>)
  {
    (p in rails <==> e.Some?)
    && (p in rails ==> rails[p] == e.value.0)
    && (p in carts <==> (e.Some? && e.value.1.Some?))
    && (p in carts ==> carts[p] == e.value.1.value)
  }

  /** The body of the fold: `carts.insert` for a cart, then `rails.insert`. */
  function Insert(rails: map<Point, Rail>, carts: map<Point, Cart>, p: Point, e: Option<(Rail, Option<Cart>)>)
    : (map<Point, Rail>, map<Point, Cart>)
  {
    match e
    case None => (rails, carts)
    case Some((rail, cart)) => (rails[p := rail], if cart.Some? then carts[p := cart.value] else carts)
  }

  /** The maps agree with line `y` at every point. */
  ghost predicate LineRead(y: nat, line: string, rails: map<Point, Rail>, carts: map<Point, Cart>)
  {
    forall p :: Agrees(rails, carts, p, Row(y, line, p))
  }

  /** The inner `flat_map` over one line: the entries of columns `0..|line|`
      of line `y`. */
  function ScanLine(y: nat, line: string): (r: (map<Point, Rail>, map<Point, Cart>))
    ensures LineRead(y, line, r.0, r.1)
    decreases |line|
  {
    if line == [] then (map[], map[])
    else
      var (rails, carts) := ScanLine(y, line[..|line| - 1]);
      var x := |line| - 1;
      InsertLast(y, line, rails, carts);
      Insert(rails, carts, Point(x, y), Classify(line[x]))
  }

  lemma InsertLast(y: nat, line: string, rails: map<Point, Rail>, carts: map<Point, Cart>)
    requires line != []
    requires LineRead(y, line[..|line| - 1], rails, carts)
    ensures var r := Insert(rails, carts, Point(|line| - 1, y), Classify(line[|line| - 1]));
      LineRead(y, line, r.0, r.1)
  {
    var q := Point(|line| - 1, y);
    var r := Insert(rails, carts, q, Classify(line[|line| - 1]));
    forall p ensures Agrees(r.0, r.1, p, Row(y, line, p)) {
      if p != q {
        assert Row(y, line, p) == Row(y, line[..|line| - 1], p);
      } else {
        assert Row(y, line[..|line| - 1], p).None?;
      }
    }
  }

  /** The maps built from a drawing agree with it at every point: a rail
      wherever a glyph is classified, a cart wherever that glyph is a
      cart. */
  ghost predicate Read(lines: seq<string>, rails: map<Point, Rail>, carts: map<Point, Cart>)
  {
    forall p :: Agrees(rails, carts, p, At(lines, p))
  }

  /** `read_input` after the file is split into lines: the fold over every
      line's entries into the rail map and the cart map. */
  function ReadInput(lines: seq<string>): (r: (map<Point, Rail>, map<Point, Cart>))
    ensures Read(lines, r.0, r.1)
    decreases |lines|
  {
    if lines == [] then (map[], map[])
    else
      var y := |lines| - 1;
      var (rails, carts) := ReadInput(lines[..y]);
      var (lineRails, lineCarts) := ScanLine(y, lines[y]);
      Merge(lines, rails, carts, lineRails, lineCarts);
      (rails + lineRails, carts + lineCarts)
  }

  lemma Merge(lines: seq<string>, rails: map<Point, Rail>, carts: map<Point, Cart>,
              lineRails: map<Point, Rail>, lineCarts: map<Point, Cart>)
    requires lines != []
    requires Read(lines[..|lines| - 1], rails, carts)
    requires LineRead(|lines| - 1, lines[|lines| - 1], lineRails, lineCarts)
    ensures Read(lines, rails + lineRails, carts + lineCarts)
  {
    var y := |lines| - 1;
    forall p ensures Agrees(rails + lineRails, carts + lineCarts, p, At(lines, p)) {
      assert Agrees(rails, carts, p, At(lines[..y], p));
      assert Agrees(lineRails, lineCarts, p, Row(y, lines[y], p));
      if p.y == y {
        assert At(lines[..y], p).None?;
        assert At(lines, p) == Row(y, lines[y], p);
      } else {
        assert Row(y, lines[y], p).None?;
        assert At(lines, p) == At(lines[..y], p);
      }
    }
  }

  /** Every cart stands on a rail, and on the straight one its direction
      needs. */
  lemma CartsOnRails(lines: seq<string>)
    ensures var (rails, carts) := ReadInput(lines);
      forall p :: p in carts ==> p in rails && rails[p] == RailUnder(carts[p].direction)
  {
    var (rails, carts) := ReadInput(lines);
    forall p | p in carts ensures p in rails && rails[p] == RailUnder(carts[p].direction) {
      assert Agrees(rails, carts, p, At(lines, p));
      assert p.y < |lines| && p.x < |lines[p.y]|;
      ClassifyToChar(lines[p.y][p.x]);
    }
  }
}
