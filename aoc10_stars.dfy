/** aoc_10: the stars align. Every point of light has a position and a
    velocity; each second every position moves by its velocity, and the
    sky is drawn whenever all points fit a box of at most 100 columns and 20
    rows. */
module Stars {
  import opened Wrappers
  import opened Seqs
  import opened Text
  import opened Decimal

  /** `Pair`: a position or a velocity. */
  datatype Pair = Pair(x: int, y: int)

  /** `Entry`: one point of light. */
  datatype Entry = Entry(position: Pair, velocity: Pair)

  /** `impl Add for Pair`. */
  function Add(a: Pair, b: Pair): Pair
  {
    Pair(a.x + b.x, a.y + b.y)
  }

  /** One second for one point: the position moves by the velocity. */
  function Step(e: Entry): Entry
  {
    Entry(Add(e.position, e.velocity), e.velocity)
  }

  /** The point after `n` seconds, in closed form. */
  function After(e: Entry, n: nat): (r: Entry)
    ensures r.velocity == e.velocity
  {
    Entry(Pair(e.position.x + n * e.velocity.x, e.position.y + n * e.velocity.y), e.velocity)
  }

  function AfterAll(es: seq<Entry>, n: nat): (r: seq<Entry>)
    ensures |r| == |es| && forall i :: 0 <= i < |es| ==> r[i] == After(es[i], n)
  {
    seq(|es|, i requires 0 <= i < |es| => After(es[i], n))
  }

  /** Stepping the point after `n` seconds gives the point after `n + 1`:
      after `n` steps a position is the initial one plus `n` velocities. */
  lemma StepAfter(e: Entry, n: nat)
    ensures Step(After(e, n)) == After(e, n + 1)
  {
    assert n * e.velocity.x + e.velocity.x == (n + 1) * e.velocity.x;
    assert n * e.velocity.y + e.velocity.y == (n + 1) * e.velocity.y;
  }

  /** `add_assign` on the position of entry `i`, one coordinate at a time,
      leaves the same pair as `add` and touches no other entry. */
  method AddAssign(entries: array<Entry>, i: nat)
    requires i < entries.Length
    modifies entries
    ensures entries[..] == old(entries[..])[i := Step(old(entries[i]))]
  {
    var e := entries[i];
    entries[i] := e.(position := e.position.(x := e.position.x + e.velocity.x));
    var f := entries[i];
    entries[i] := f.(position := f.position.(y := f.position.y + e.velocity.y));
  }

  /** The `iter_mut().for_each` of `main`: every entry steps once. */
  method Tick(entries: array<Entry>)
    modifies entries
    ensures forall i :: 0 <= i < entries.Length ==> entries[i] == Step(old(entries[i]))
  {
    for i := 0 to entries.Length
      invariant forall j :: 0 <= j < i ==> entries[j] == Step(old(entries[j]))
      invariant forall j :: i <= j < entries.Length ==> entries[j] == old(entries[j])
    {
      AddAssign(entries, i);
    }
  }

  const RowLimit := 20
  const ColLimit := 100
  /** `main` runs the rounds `1..12000`. */
  const Rounds := 12000

  function Xs(es: seq<Entry>): (r: seq<int>)
    ensures |r| == |es| && forall i :: 0 <= i < |es| ==> r[i] == es[i].position.x
  {
    seq(|es|, i requires 0 <= i < |es| => es[i].position.x)
  }

  function Ys(es: seq<Entry>): (r: seq<int>)
    ensures |r| == |es| && forall i :: 0 <= i < |es| ==> r[i] == es[i].position.y
  {
    seq(|es|, i requires 0 <= i < |es| => es[i].position.y)
  }

  /** The test of `print_output`: the bounding box is at most `ColLimit`
      columns and `RowLimit` rows. */
  predicate ShouldDraw(es: seq<Entry>)
    requires es != []
  {
    Max(Xs(es)) - Min(Xs(es)) + 1 <= ColLimit && Max(Ys(es)) - Min(Ys(es)) + 1 <= RowLimit
  }

  /** The box test holds exactly when every two points are less than
      `ColLimit` columns and `RowLimit` rows apart. */
  lemma ShouldDrawClose(es: seq<Entry>)
    requires es != []
    ensures ShouldDraw(es) <==> forall i, j :: 0 <= i < |es| && 0 <= j < |es| ==>
      es[i].position.x - es[j].position.x < ColLimit && es[i].position.y - es[j].position.y < RowLimit
  {
    var a, b := Widest(Xs(es));
    var c, d := Widest(Ys(es));
  }

  /** The widest gap between two values of `s` is the one between its
      largest and its smallest, and some pair of indices has it. */
  lemma Widest(s: seq<int>) returns (a: nat, b: nat)
    requires s != []
    ensures a < |s| && b < |s| && s[a] - s[b] == Max(s) - Min(s)
    ensures forall i, j :: 0 <= i < |s| && 0 <= j < |s| ==> s[i] - s[j] <= Max(s) - Min(s)
  {
    a :| 0 <= a < |s| && s[a] == Max(s);
    b :| 0 <= b < |s| && s[b] == Min(s);
  }

  /** One round of `main`: every point steps, then `print_output` decides
      whether to draw. */
  method Second(entries: array<Entry>, ghost start: seq<Entry>, i: nat) returns (draw: bool)
    requires i >= 1 && entries.Length > 0 && entries[..] == AfterAll(start, i - 1)
    modifies entries
    ensures entries[..] == AfterAll(start, i)
    ensures draw == ShouldDraw(AfterAll(start, i))
  {
    Tick(entries);
    forall j | 0 <= j < entries.Length ensures entries[j] == After(start[j], i) {
      StepAfter(start[j], i - 1);
    }
    assert entries[..] == AfterAll(start, i);
    draw := ShouldDraw(entries[..]);
  }

  /** Whether the sky from `start` is drawn after `n` seconds. */
  ghost function DrawnAfter(start: seq<Entry>): nat -> bool
  {
    (n: nat) => start != [] && ShouldDraw(AfterAll(start, n))
  }

  /** `frames` lists, in increasing order, the rounds `1..i` for which
      `drawn` holds. */
  ghost predicate FramesUpTo(frames: seq<nat>, i: nat, drawn: nat -> bool)
  {
    (forall k :: 0 <= k < |frames| ==> 1 <= frames[k] < i)
    && (forall n: nat :: 1 <= n < i ==> (n in frames <==> drawn(n)))
    && (forall k, l :: 0 <= k < l < |frames| ==> frames[k] < frames[l])
  }

  lemma FramesStep(frames: seq<nat>, i: nat, drawn: nat -> bool)
    requires i >= 1 && FramesUpTo(frames, i, drawn)
    ensures FramesUpTo(if drawn(i) then frames + [i] else frames, i + 1, drawn)
  {
  }

  /** The loop of `main` over `Rounds - 1` seconds: the positions end at
      their closed form, and the rounds in `frames` are exactly those after
      which `print_output` draws, in increasing order. With no point at all
      the first `print_output` panics on `min().unwrap()`: `None`. */
  method Run(entries: array<Entry>) returns (frames: Option<seq<nat>>)
    modifies entries
    ensures entries[..] == AfterAll(old(entries[..]), Rounds - 1)
    ensures frames.None? <==> entries.Length == 0
    ensures frames.Some? ==> FramesUpTo(frames.value, Rounds, DrawnAfter(old(entries[..])))
  {
    if entries.Length == 0 {
      return None;
    }
    ghost var start := entries[..];
    var drawn: seq<nat> := [];
    assert entries[..] == AfterAll(start, 0);
    for i := 1 to Rounds
      invariant entries[..] == AfterAll(start, i - 1)
      invariant FramesUpTo(drawn, i, DrawnAfter(start))
    {
      var draw := Second(entries, start, i);
      FramesStep(drawn, i, DrawnAfter(start));
      if draw {
        drawn := drawn + [i];
      }
    }
    frames := Some(drawn);
  }

  /** One field of `from_str`: trimmed, then parsed as an integer. */
  function Field(s: string): Option<int>
  {
    ParseInt(Trim(s))
  }

  /** `Pair::from_str`: split at ',' and parse every field (`None` is the
      `unwrap` panic on a field that is not an integer, or on fewer than
      two fields); the first two fields are the pair. */
  function FromStr(s: string): (r: Option<Pair>)
    ensures r.Some? <==> |Split(s, ',')| >= 2 && ParseAll(Split(s, ','), Field).Some?
    ensures r.Some? ==> Field(Split(s, ',')[0]) == Some(r.value.x) && Field(Split(s, ',')[1]) == Some(r.value.y)
  {
    var vals := ParseAll(Split(s, ','), Field);
    if vals.None? || |vals.value| < 2 then None else Some(Pair(vals.value[0], vals.value[1]))
  }

  /** `map(parse).collect()` with an unwrapping parse: every field parsed,
      or `None` if one fails. */
  function ParseAll<T>(fields: seq<string>, parse: string -> Option<T>): (r: Option<seq<T>>)
    ensures r.Some? ==> (|r.value| == |fields|
      && forall i :: 0 <= i < |fields| ==> parse(fields[i]) == Some(r.value[i]))
  {
    if fields == [] then Some([])
    else
      var head := parse(fields[0]);
      var tail := ParseAll(fields[1..], parse);
      if head.None? || tail.None? then None
      else Some([head.value] + tail.value)
  }

  /** Parsing fails exactly when some field fails. */
  lemma {:induction false} ParseAllFails<T>(fields: seq<string>, parse: string -> Option<T>)
    ensures ParseAll(fields, parse).None? <==> exists i :: 0 <= i < |fields| && parse(fields[i]).None?
  {
    if fields != [] {
      var tail := fields[1..];
      ParseAllFails(tail, parse);
      if ParseAll(tail, parse).None? {
        var j :| 0 <= j < |tail| && parse(tail[j]).None?;
        assert tail[j] == fields[j + 1];
      }
      if exists i :: 0 <= i < |fields| && parse(fields[i]).None? {
        var i :| 0 <= i < |fields| && parse(fields[i]).None?;
        if i > 0 {
          assert tail[i - 1] == fields[i];
        }
      }
    }
  }

  /** A whitespace run. */
  predicate Blank(s: string)
  {
    forall i :: 0 <= i < |s| ==> IsSpace(s[i])
  }

  lemma ShowIntChars(i: int)
    ensures forall k :: 0 <= k < |ShowInt(i)| ==> IsDigit(ShowInt(i)[k]) || ShowInt(i)[k] == '-'
    ensures IsDigit(ShowInt(i)[|ShowInt(i)| - 1])
  {
  }

  /** A blank-padded integer is one field. */
  lemma FieldShow(pad: string, i: int)
    requires Blank(pad)
    ensures Field(pad + ShowInt(i)) == Some(i)
  {
    var w := ShowInt(i);
    ShowIntChars(i);
    assert !IsSpace(w[0]) && !IsSpace(w[|w| - 1]);
    TrimPadded(pad, w);
    ParseShowInt(i);
  }

  lemma NoComma(pad: string, i: int)
    requires Blank(pad)
    ensures ',' !in pad + ShowInt(i)
  {
    ShowIntChars(i);
  }

  /** `from_str` reads back a pair written as two integers separated by a
      comma, each optionally preceded by blanks, as in the puzzle input. */
  lemma FromStrShow(p: Pair, pad1: string, pad2: string)
    requires Blank(pad1) && Blank(pad2)
    ensures FromStr((pad1 + ShowInt(p.x)) + "," + (pad2 + ShowInt(p.y))) == Some(p)
  {
    var a, b := pad1 + ShowInt(p.x), pad2 + ShowInt(p.y);
    FieldShow(pad1, p.x);
    FieldShow(pad2, p.y);
    NoComma(pad1, p.x);
    NoComma(pad2, p.y);
    SplitTwo(a, b, ',');
    ParseAllTwo(a, b, Field);
  }

  lemma SplitTwo(a: string, b: string, sep: char)
    requires sep !in a && sep !in b
    ensures Split(a + [sep] + b, sep) == [a, b]
  {
    assert [a, b][1..] == [b];
    assert Join([a, b], sep) == a + [sep] + b;
    SplitJoin([a, b], sep);
  }

  lemma ParseAllTwo<T>(a: string, b: string, parse: string -> Option<T>)
    requires parse(a).Some? && parse(b).Some?
    ensures ParseAll([a, b], parse) == Some([parse(a).value, parse(b).value])
  {
    var x, y := parse(a).value, parse(b).value;
    assert ParseAll([], parse) == Some([]);
    assert [b][1..] == [];
    assert [y] + [] == [y];
    assert ParseAll([b], parse) == Some([y]);
    assert [a, b][1..] == [b];
    assert [x] + [y] == [x, y];
  }
}
