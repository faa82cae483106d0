/** aoc_17: reservoir research. Every input line names a vertical or a
    horizontal vein of clay, `x=495, y=2..7` or `y=7, x=495..501`; the veins
    are laid out on a map of tiles, and the map remembers the rows from
    the highest to the lowest clay. */
module Reservoir {
  import opened Wrappers
  import opened Decimal
  import opened Arith

  /** `Entry`: the rectangle `left..=right` by `top..=bottom`. */
  datatype Entry = Entry(top: nat, left: nat, bottom: nat, right: nat)

  /** A point `(x, y)`. */
  type Point = (nat, nat)

  /** `coordinates` computes `bottom - top + 1` on unsigned integers as soon
      as the column range is non-empty; a lower `bottom` is an underflow
      panic. */
  predicate Valid(e: Entry)
  {
    e.left <= e.right ==> e.top <= e.bottom
  }

  /** The number of columns of the range `left..=right`. */
  function Width(e: Entry): nat
  {
    if e.left <= e.right then e.right - e.left + 1 else 0
  }

  /** The number of rows; when the column range is empty the count is never
      taken, and any positive value does. */
  function Height(e: Entry): (h: nat)
    ensures h > 0
  {
    if e.top <= e.bottom then e.bottom - e.top + 1 else 1
  }

  /** `Entry::coordinates`: pair `k` of the zip of every column repeated
      once per row with the rows cycled. */
  function Coordinates(e: Entry): (r: seq<Point>)
    requires Valid(e)
    ensures |r| == Width(e) * Height(e)
  {
    seq(Width(e) * Height(e), (k: nat) => Zipped(e.left, e.top, Height(e), k))
  }

  /** Pair `k` of the zip: column `left + k / h`, row `top + k % h`. */
  function Zipped(left: nat, top: nat, h: nat, k: nat): Point
    requires h > 0
  {
    DivNat(k, h);
    (left + k / h, top + k % h)
  }

  lemma DivNat(k: nat, h: nat)
    requires h > 0
    ensures k / h >= 0 && 0 <= k % h < h
  {
  }

  /** The point lies in the rectangle of `e`. */
  predicate Inside(e: Entry, p: Point)
  {
    e.left <= p.0 <= e.right && e.top <= p.1 <= e.bottom
  }

  /** The coordinates are exactly the points of the rectangle. */
  lemma CoordinatesCover(e: Entry, p: Point)
    requires Valid(e)
    ensures p in Coordinates(e) <==> Inside(e, p)
  {
    var cs := Coordinates(e);
    if p in cs {
      var k :| 0 <= k < |cs| && cs[k] == p;
      CoordinateInside(e, k);
    }
    if Inside(e, p) {
      var k := CoordinateOf(e, p);
    }
  }

  lemma CoordinateInside(e: Entry, k: nat)
    requires Valid(e) && k < |Coordinates(e)|
    ensures Inside(e, Coordinates(e)[k])
  {
    var h, w := Height(e), Width(e);
    QuotBound(k, h, w);
    assert e.left <= e.right;
    assert Coordinates(e)[k] == (e.left + k / h, e.top + k % h);
  }

  lemma CoordinateOf(e: Entry, p: Point) returns (k: nat)
    requires Valid(e) && Inside(e, p)
    ensures k < |Coordinates(e)| && Coordinates(e)[k] == p
  {
    k := Index(p.0 - e.left, p.1 - e.top, Height(e), Width(e));
  }

  lemma QuotBound(k: nat, h: nat, w: nat)
    requires h > 0 && k < w * h
    ensures w > 0 && 0 <= k / h < w && 0 <= k % h < h
  {
    if k / h >= w {
      MulLe(h, w, k / h);
    }
  }

  /** The position of column `q`, row `r` among `w` columns of `h` rows. */
  lemma Index(q: nat, r: nat, h: nat, w: nat) returns (k: nat)
    requires q < w && r < h
    ensures k < w * h && k / h == q && k % h == r
  {
    k := q * h + r;
    DivModUnique(k, q, r, h);
    MulLe(h, q + 1, w);
    MulSucc(h, q);
  }

  lemma QuotOrder(k: nat, l: nat, h: nat)
    requires k < l && h > 0
    ensures k / h < l / h || (k / h == l / h && k % h < l % h)
  {
    assert k == h * (k / h) + k % h && l == h * (l / h) + l % h;
    if k / h > l / h {
      MulLe(h, l / h + 1, k / h);
      MulSucc(h, l / h);
    }
  }

  /** Points in x-major order: by column, then by row. */
  predicate ColumnMajorLess(a: Point, b: Point)
  {
    a.0 < b.0 || (a.0 == b.0 && a.1 < b.1)
  }

  /** The coordinates run column by column, top to bottom, each point once. */
  lemma CoordinatesOrder(e: Entry, k: nat, l: nat)
    requires Valid(e) && k < l < |Coordinates(e)|
    ensures ColumnMajorLess(Coordinates(e)[k], Coordinates(e)[l])
  {
    QuotOrder(k, l, Height(e));
  }

  /** The `[\d\.]` of the patterns. */
  predicate IsValueChar(c: char)
  {
    IsDigit(c) || c == '.'
  }

  /** The length of the longest prefix of `s` whose characters satisfy
      `p`: a greedy `+` or `*` of a pattern. */
  function Run(s: string, p: char -> bool): (n: nat)
    ensures n <= |s| && (forall i :: 0 <= i < n ==> p(s[i])) && (n < |s| ==> !p(s[n]))
    decreases |s|
  {
    if s != [] && p(s[0]) then 1 + Run(s[1..], p) else 0
  }

  lemma {:induction false} RunPrefix(d: string, rest: string, p: char -> bool)
    requires forall i :: 0 <= i < |d| ==> p(d[i])
    requires rest == [] || !p(rest[0])
    ensures Run(d + rest, p) == |d|
  {
    if d != [] {
      assert (d + rest)[1..] == d[1..] + rest;
      RunPrefix(d[1..], rest, p);
    }
  }

  /** The leftmost match of `key=([\d\.]+)`: the longest run of digits and
      dots after the first `key=` that is followed by one. */
  function Capture(line: string, key: char): (r: Option<string>)
    ensures r.Some? ==> r.value != [] && forall i :: 0 <= i < |r.value| ==> IsValueChar(r.value[i])
    decreases |line|
  {
    if |line| < 3 then None
    else if line[0] == key && line[1] == '=' && IsValueChar(line[2]) then
      var rest := line[2..];
      Some(rest[..Run(rest, IsValueChar)])
    else Capture(line[1..], key)
  }

  /** A line that does not mention `key` before `rest` is searched as
      `rest` alone. */
  lemma {:induction false} CaptureSkip(pre: string, rest: string, key: char)
    requires key !in pre
    ensures Capture(pre + rest, key) == Capture(rest, key)
  {
    if pre == [] {
      assert pre + rest == rest;
    } else {
      assert (pre + rest)[0] == pre[0] != key;
      assert (pre + rest)[1..] == pre[1..] + rest;
      CaptureSkip(pre[1..], rest, key);
    }
  }

  lemma CaptureAt(key: char, v: string, rest: string)
    requires v != [] && forall i :: 0 <= i < |v| ==> IsValueChar(v[i])
    requires rest == [] || !IsValueChar(rest[0])
    ensures Capture([key, '='] + v + rest, key) == Some(v)
  {
    var line := [key, '='] + v + rest;
    assert line[2..] == v + rest;
    assert line[0] == key && line[1] == '=' && IsValueChar(line[2]);
    RunPrefix(v, rest, IsValueChar);
    assert Run(line[2..], IsValueChar) == |v|;
    assert (v + rest)[..|v|] == v;
  }

  /** The leftmost match of `(\d+)\.\.(\d+)`: its two digit runs. */
  function FindRange(s: string): (r: Option<(string, string)>)
    ensures r.Some? ==> r.value.0 != [] && AllDigits(r.value.0) && r.value.1 != [] && AllDigits(r.value.1)
    decreases |s|
  {
    if s == [] then None
    else
      var n := Run(s, IsDigit);
      if n > 0 && n + 2 < |s| && s[n] == '.' && s[n + 1] == '.' && IsDigit(s[n + 2]) then
        var t := s[n + 2..];
        Some((s[..n], t[..Run(t, IsDigit)]))
      else FindRange(s[1..])
  }

  lemma {:induction false} FindRangeNoDot(s: string)
    requires '.' !in s
    ensures FindRange(s) == None
  {
    if s != [] {
      FindRangeNoDot(s[1..]);
    }
  }

  /** Text without two dots in a row holds no range. */
  lemma {:induction false} FindRangeNoPair(s: string)
    requires forall i :: 0 <= i < |s| - 1 ==> !(s[i] == '.' && s[i + 1] == '.')
    ensures FindRange(s) == None
    decreases |s|
  {
    if s != [] {
      FindRangeNoPair(s[1..]);
    }
  }

  /** `parse_value`: a range `a..b`, or a single number `a` read as
      `(a, a)`; `None` where an `unwrap` of the parse panics. */
  function ParseValue(s: string): (r: Option<(nat, nat)>)
    ensures r.Some? <==> FindRange(s).Some? || ParseNat(s).Some?
    ensures FindRange(s).Some? ==> r == Some((Value(FindRange(s).value.0), Value(FindRange(s).value.1)))
    ensures FindRange(s).None? && r.Some? ==> r.value.0 == r.value.1 && ParseNat(s) == Some(r.value.0)
  {
    match FindRange(s)
    case Some((a, b)) => Some((Value(a), Value(b)))
    case None =>
      match ParseNat(s)
      case Some(v) => Some((v, v))
      case None => None
  }

  lemma DigitsNoDot(s: string)
    requires AllDigits(s)
    ensures '.' !in s && ',' !in s && 'x' !in s && 'y' !in s
  {
    assert forall i :: 0 <= i < |s| ==> IsDigit(s[i]);
  }

  /** A number is read as the range it alone spans. */
  lemma ParseValueSingle(a: nat)
    ensures ParseValue(Show(a)) == Some((a, a))
  {
    DigitsNoDot(Show(a));
    FindRangeNoDot(Show(a));
    ParseShow(a);
  }

  /** A range `a..b` is read back as `(a, b)`. */
  lemma ParseValueRange(a: nat, b: nat)
    ensures ParseValue(Show(a) + ".." + Show(b)) == Some((a, b))
  {
    var sa, sb := Show(a), Show(b);
    var s := sa + ".." + sb;
    RunPrefix(sa, ".." + sb, IsDigit);
    assert s == sa + (".." + sb);
    assert s[|sa| + 2..] == sb;
    RunPrefix(sb, [], IsDigit);
    assert sb + [] == sb;
    assert s[..|sa|] == sa;
    assert FindRange(s) == Some((sa, sb));
    ValueShow(a);
    ValueShow(b);
  }

  /** The outcome of `parse_line` on one line. */
  datatype Parsed = Panic | Skip | Got(entry: Entry)

  /** `parse_line`: both values are parsed as soon as their `key=` is found,
      so a bad value panics even when the other key is missing; a line
      with both keys gives the entry with the rows from `y` and the columns
      from `x`. */
  function ParseLine(line: string): (r: Parsed)
    ensures r.Got? <==> (Capture(line, 'x').Some? && Capture(line, 'y').Some?
      && ParseValue(Capture(line, 'x').value).Some? && ParseValue(Capture(line, 'y').value).Some?)
    ensures r.Skip? <==> ((Capture(line, 'x').None? || Capture(line, 'y').None?)
      && (Capture(line, 'x').Some? ==> ParseValue(Capture(line, 'x').value).Some?)
      && (Capture(line, 'y').Some? ==> ParseValue(Capture(line, 'y').value).Some?))
    ensures r.Got? ==>
      ParseValue(Capture(line, 'x').value) == Some((r.entry.left, r.entry.right))
      && ParseValue(Capture(line, 'y').value) == Some((r.entry.top, r.entry.bottom))
  {
    var x, y := Capture(line, 'x'), Capture(line, 'y');
    if (x.Some? && ParseValue(x.value).None?) || (y.Some? && ParseValue(y.value).None?) then Panic
    else if x.None? || y.None? then Skip
    else
      var (left, right) := ParseValue(x.value).value;
      var (top, bottom) := ParseValue(y.value).value;
      Got(Entry(top, left, bottom, right))
  }

  lemma ValueChars(s: string)
    requires AllDigits(s)
    ensures s != [] ==> IsValueChar(s[0])
    ensures forall i :: 0 <= i < |s| ==> IsValueChar(s[i])
  {
  }

  /** The two keys of a line `k1=v1, k2=v2` followed by `post` are found
      with their values. */
  lemma CaptureBoth(k1: char, v1: string, k2: char, v2: string, post: string)
    requires k1 != k2 && k2 != ',' && k2 != ' ' && k2 != '='
    requires k2 !in v1
    requires v1 != [] && forall i :: 0 <= i < |v1| ==> IsValueChar(v1[i])
    requires v2 != [] && forall i :: 0 <= i < |v2| ==> IsValueChar(v2[i])
    requires post == [] || !IsValueChar(post[0])
    ensures Capture([k1, '='] + v1 + [',', ' ', k2, '='] + v2 + post, k1) == Some(v1)
    ensures Capture([k1, '='] + v1 + [',', ' ', k2, '='] + v2 + post, k2) == Some(v2)
  {
    CaptureFirst(k1, v1, k2, v2, post);
    CaptureSecond(k1, v1, k2, v2, post);
  }

  lemma CaptureFirst(k1: char, v1: string, k2: char, v2: string, post: string)
    requires v1 != [] && forall i :: 0 <= i < |v1| ==> IsValueChar(v1[i])
    ensures Capture([k1, '='] + v1 + [',', ' ', k2, '='] + v2 + post, k1) == Some(v1)
  {
    var rest := [',', ' ', k2, '='] + v2 + post;
    assert [k1, '='] + v1 + [',', ' ', k2, '='] + v2 + post == [k1, '='] + v1 + rest;
    CaptureAt(k1, v1, rest);
  }

  lemma CaptureSecond(k1: char, v1: string, k2: char, v2: string, post: string)
    requires k1 != k2 && k2 != ',' && k2 != ' ' && k2 != '='
    requires k2 !in v1
    requires v2 != [] && forall i :: 0 <= i < |v2| ==> IsValueChar(v2[i])
    requires post == [] || !IsValueChar(post[0])
    ensures Capture([k1, '='] + v1 + [',', ' ', k2, '='] + v2 + post, k2) == Some(v2)
  {
    var pre := [k1, '='] + v1 + [',', ' '];
    assert [k1, '='] + v1 + [',', ' ', k2, '='] + v2 + post == pre + ([k2, '='] + v2 + post);
    CaptureSkip(pre, [k2, '='] + v2 + post, k2);
    CaptureAt(k2, v2, post);
  }

  /** A line without the key has no capture for it. */
  lemma CaptureAbsent(line: string, key: char)
    requires key !in line
    ensures Capture(line, key) == None
  {
    CaptureSkip(line, [], key);
    assert line + [] == line;
  }

  /** The two keys of a line `k1=v1, k2=v2` are found with their values
      when the text before it mentions neither key and the text after it
      does not continue the second value. */
  lemma CaptureVein(pre: string, k1: char, v1: string, k2: char, v2: string, post: string)
    requires k1 != k2 && k2 != ',' && k2 != ' ' && k2 != '='
    requires k1 !in pre && k2 !in pre && k2 !in v1
    requires v1 != [] && forall i :: 0 <= i < |v1| ==> IsValueChar(v1[i])
    requires v2 != [] && forall i :: 0 <= i < |v2| ==> IsValueChar(v2[i])
    requires post == [] || !IsValueChar(post[0])
    ensures Capture(pre + ([k1, '='] + v1 + [',', ' ', k2, '='] + v2) + post, k1) == Some(v1)
    ensures Capture(pre + ([k1, '='] + v1 + [',', ' ', k2, '='] + v2) + post, k2) == Some(v2)
  {
    var mid := [k1, '='] + v1 + [',', ' ', k2, '='] + v2;
    var rest := mid + post;
    assert pre + mid + post == pre + rest;
    CaptureBoth(k1, v1, k2, v2, post);
    CaptureSkip(pre, rest, k1);
    CaptureSkip(pre, rest, k2);
  }

  /** The text of a vein, `k1=a, k2=b..c`. */
  function Vein(k1: char, a: nat, k2: char, b: nat, c: nat): (r: string)
    ensures r == [k1, '='] + Show(a) + [',', ' ', k2, '='] + (Show(b) + ".." + Show(c))
  {
    [k1, '='] + Show(a) + ", " + [k2, '='] + Show(b) + ".." + Show(c)
  }

  /** A vein, with any text before it that mentions neither key and any
      text after it that does not continue the range, is read as the
      values `(a, a)` and `(b, c)`. */
  lemma ParseVein(pre: string, k1: char, a: nat, k2: char, b: nat, c: nat, post: string)
    requires k1 != k2 && k2 != ',' && k2 != ' ' && k2 != '=' && k2 != '.' && !IsDigit(k2)
    requires k1 !in pre && k2 !in pre
    requires post == [] || !IsValueChar(post[0])
    ensures Capture(pre + Vein(k1, a, k2, b, c) + post, k1) == Some(Show(a))
    ensures Capture(pre + Vein(k1, a, k2, b, c) + post, k2) == Some(Show(b) + ".." + Show(c))
  {
    var v1, v2 := Show(a), Show(b) + ".." + Show(c);
    ValueChars(v1);
    assert k2 !in v1 by {
      assert forall i :: 0 <= i < |v1| ==> IsDigit(v1[i]);
    }
    ValueChars(Show(b));
    ValueChars(Show(c));
    assert forall i :: 0 <= i < |v2| ==> IsValueChar(v2[i]);
    CaptureVein(pre, k1, v1, k2, v2, post);
  }

  /** A vertical vein `x=a, y=b..c` is the column `a` from row `b` to `c`,
      whatever text surrounds it. */
  lemma ParseVertical(pre: string, a: nat, b: nat, c: nat, post: string)
    requires 'x' !in pre && 'y' !in pre
    requires post == [] || !IsValueChar(post[0])
    ensures ParseLine(pre + Vein('x', a, 'y', b, c) + post) == Got(Entry(b, a, c, a))
  {
    ParseVein(pre, 'x', a, 'y', b, c, post);
    ParseValueSingle(a);
    ParseValueRange(b, c);
  }

  /** A horizontal vein `y=a, x=b..c` is the row `a` from column `b` to
      `c`, whatever text surrounds it. */
  lemma ParseHorizontal(pre: string, a: nat, b: nat, c: nat, post: string)
    requires 'x' !in pre && 'y' !in pre
    requires post == [] || !IsValueChar(post[0])
    ensures ParseLine(pre + Vein('y', a, 'x', b, c) + post) == Got(Entry(a, b, a, c))
  {
    ParseVein(pre, 'y', a, 'x', b, c, post);
    ParseValueSingle(a);
    ParseValueRange(b, c);
  }

  /** A line with one key whose value parses is skipped. */
  lemma ParseLineOneKey(a: nat)
    ensures ParseLine("x=" + Show(a)) == Skip
  {
    var v := Show(a);
    DigitsNoDot(v);
    ValueChars(v);
    assert "x=" + v == ['x', '='] + v + [];
    CaptureAt('x', v, []);
    CaptureAbsent("x=" + v, 'y');
    ParseValueSingle(a);
  }

  /** A value with a single dot is no range and no number. */
  lemma ParseValueDot(a: nat, b: nat)
    ensures var v := Show(a) + "." + Show(b);
      ParseValue(v) == None && forall i :: 0 <= i < |v| ==> IsValueChar(v[i])
  {
    var sa, sb := Show(a), Show(b);
    var v := sa + "." + sb;
    ValueChars(sa);
    ValueChars(sb);
    forall i | 0 <= i < |v| - 1 ensures !(v[i] == '.' && v[i + 1] == '.') {
      if i < |sa| {
        assert v[i] == sa[i];
      } else {
        assert v[i + 1] == sb[i - |sa|];
      }
    }
    FindRangeNoPair(v);
    assert v[|sa|] == '.' && v[0] == sa[0];
  }

  /** The `unwrap` of a value that is neither a range nor a number panics,
      even on a line where the other key is missing. */
  lemma ParseLineDotPanics(a: nat, b: nat)
    ensures ParseLine("x=" + Show(a) + "." + Show(b)) == Panic
  {
    var v := Show(a) + "." + Show(b);
    ParseValueDot(a, b);
    assert "x=" + Show(a) + "." + Show(b) == ['x', '='] + v + [];
    CaptureAt('x', v, []);
  }

  datatype Tile = Empty | Clay | Water | Visited

  /** `Map`: the rows from the highest to the lowest clay, and the tiles
      that are set. */
  datatype Map = Map(yRange: (nat, nat), vals: map<Point, Tile>)

  /** `std::usize::MAX`, the start of the fold for the highest row. */
  const UsizeMax: nat := 0xFFFF_FFFF_FFFF_FFFF

  function Min(a: nat, b: nat): nat { if a <= b then a else b }
  function Max(a: nat, b: nat): nat { if a <= b then b else a }

  /** The fold of `Map::create` for `y_range`. */
  function YRange(entries: seq<Entry>): (nat, nat)
    decreases |entries|
  {
    if entries == [] then (UsizeMax, 0)
    else
      var acc := YRange(entries[..|entries| - 1]);
      var e := entries[|entries| - 1];
      (Min(acc.0, e.top), Max(acc.1, e.bottom))
  }

  /** `y_range` spans every entry, from the least top to the greatest
      bottom, and is `(usize::MAX, 0)` when there is no entry. */
  lemma {:induction false} YRangeSpans(entries: seq<Entry>)
    requires forall i :: 0 <= i < |entries| ==> entries[i].top <= UsizeMax
    ensures entries == [] ==> YRange(entries) == (UsizeMax, 0)
    ensures forall i :: 0 <= i < |entries| ==>
      YRange(entries).0 <= entries[i].top && entries[i].bottom <= YRange(entries).1
    ensures entries != [] ==>
      (exists i :: 0 <= i < |entries| && entries[i].top == YRange(entries).0)
      && (exists i :: 0 <= i < |entries| && entries[i].bottom == YRange(entries).1)
    decreases |entries|
  {
    if entries != [] {
      var n := |entries| - 1;
      var init := entries[..n];
      YRangeSpans(init);
      assert forall i :: 0 <= i < n ==> init[i] == entries[i];
      if init != [] {
        var i :| 0 <= i < |init| && init[i].top == YRange(init).0;
        var j :| 0 <= j < |init| && init[j].bottom == YRange(init).1;
        assert entries[i] == init[i] && entries[j] == init[j];
      }
    }
  }

  /** Some entry covers the point. */
  predicate Covered(entries: seq<Entry>, p: Point)
  {
    exists i :: 0 <= i < |entries| && Inside(entries[i], p)
  }

  /** `Map::get`: the tile at a point, `Empty` where none is set. */
  function Get(m: Map, p: Point): (t: Tile)
    ensures p in m.vals ==> t == m.vals[p]
    ensures p !in m.vals ==> t == Empty
  {
    if p in m.vals then m.vals[p] else Empty
  }

  /** `Map::create`: `y_range` from the fold, and `Clay` inserted at every
      coordinate of every entry. The keys are exactly the covered points,
      so `get` is `Clay` on clay and `Empty` everywhere else. */
  method Create(entries: seq<Entry>) returns (m: Map)
    requires forall i :: 0 <= i < |entries| ==> Valid(entries[i])
    ensures m.yRange == YRange(entries)
    ensures forall p :: p in m.vals <==> Covered(entries, p)
    ensures forall p :: Get(m, p) == if Covered(entries, p) then Clay else Empty
  {
    var vals: map<Point, Tile> := map[];
    for i := 0 to |entries|
      invariant forall p :: p in vals <==> exists j :: 0 <= j < i && Inside(entries[j], p)
      invariant forall p :: p in vals ==> vals[p] == Clay
    {
      vals := InsertAll(vals, entries[i]);
      forall p ensures p in vals <==> exists j :: 0 <= j < i + 1 && Inside(entries[j], p) {
        if p in vals && !(exists j :: 0 <= j < i && Inside(entries[j], p)) {
          assert Inside(entries[i], p);
        }
      }
    }
    m := Map(YRange(entries), vals);
  }

  /** One entry's `for_each`: `Clay` at each of its coordinates in turn. */
  method InsertAll(vals: map<Point, Tile>, e: Entry) returns (r: map<Point, Tile>)
    requires Valid(e)
    ensures forall p :: p in r <==> p in vals || Inside(e, p)
    ensures forall p :: p in r ==> r[p] == if Inside(e, p) then Clay else vals[p]
  {
    var cs := Coordinates(e);
    r := vals;
    for k := 0 to |cs|
      invariant forall p :: p in r <==> p in vals || p in Visited(cs, k)
      invariant forall p :: p in r ==> r[p] == if p in Visited(cs, k) then Clay else vals[p]
    {
      VisitedStep(cs, k);
      r := r[cs[k] := Clay];
    }
    forall p ensures p in Visited(cs, |cs|) <==> Inside(e, p) {
      VisitedAll(cs, p);
      CoordinatesCover(e, p);
    }
  }

  /** The points among the first `k` coordinates. */
  ghost function Visited(cs: seq<Point>, k: nat): set<Point>
    requires k <= |cs|
  {
    set j | 0 <= j < k :: cs[j]
  }

  lemma VisitedStep(cs: seq<Point>, k: nat)
    requires k < |cs|
    ensures Visited(cs, k + 1) == Visited(cs, k) + {cs[k]}
  {
  }

  lemma VisitedAll(cs: seq<Point>, p: Point)
    ensures p in Visited(cs, |cs|) <==> p in cs
  {
  }
}
