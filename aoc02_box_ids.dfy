/** aoc_2: box ids. Letter frequencies give the checksum (ids with a letter
    exactly twice times ids with a letter exactly three times); the
    correct boxes are the first pair of ids differing in one position. */
module BoxIds {
  import opened Wrappers

  /** The number of times each character occurs in `s`. */
  function Freq(s: string): map<char, int>
  {
    map c | c in s :: multiset(s)[c]
  }

  /** The sum of the values of a map. */
  ghost function Total(f: map<char, int>): int
    decreases |f|
  {
    if f == map[] then 0
    else
      var c :| c in f;
      f[c] + Total(f - {c})
  }

  /** `Total` does not depend on which key is taken first. */
  lemma {:induction false} TotalRemove(f: map<char, int>, c: char)
    requires c in f
    ensures Total(f) == f[c] + Total(f - {c})
    decreases |f|
  {
    var d :| d in f && Total(f) == f[d] + Total(f - {d});
    if d != c {
      TotalRemove(f - {d}, c);
      TotalRemove(f - {c}, d);
      assert f - {d} - {c} == f - {c} - {d};
    }
  }

  /** Setting one key to `v` changes the sum by the difference. */
  lemma TotalUpdate(f: map<char, int>, c: char, v: int)
    ensures Total(f[c := v]) == Total(f) - (if c in f then f[c] else 0) + v
  {
    TotalRemove(f[c := v], c);
    assert f[c := v] - {c} == f - {c};
    if c in f {
      TotalRemove(f, c);
    } else {
      assert f - {c} == f;
    }
  }

  /** `get_freq`: one `entry(c).or_insert(0) += 1` per character. The map
      has a key exactly for the characters of `s`, holding its count, and
      the counts add up to the length of `s`. */
  method GetFreq(s: string) returns (freq: map<char, int>)
    ensures freq == Freq(s)
    ensures forall c :: c in freq ==> freq[c] >= 1
    ensures Total(freq) == |s|
  {
    freq := map[];
    for i := 0 to |s|
      invariant forall c :: c in freq <==> c in s[..i]
      invariant forall c :: c in freq ==> freq[c] == multiset(s[..i])[c]
      invariant Total(freq) == i
    {
      var c := s[i];
      assert s[..i + 1] == s[..i] + [c];
      TotalUpdate(freq, c, (if c in freq then freq[c] else 0) + 1);
      freq := freq[c := (if c in freq then freq[c] else 0) + 1];
    }
    assert s[..|s|] == s;
  }

  /** `has_exactly_2_or_3`: does some character occur exactly twice, and
      does some character occur exactly three times. */
  function HasExactly2Or3(s: string): (r: (bool, bool))
    ensures r.0 <==> exists c :: c in s && multiset(s)[c] == 2
    ensures r.1 <==> exists c :: c in s && multiset(s)[c] == 3
  {
    var freq := Freq(s);
    assert forall c :: c in s ==> c in freq && freq[c] == multiset(s)[c];
    (exists c | c in freq :: freq[c] == 2, exists c | c in freq :: freq[c] == 3)
  }

  /** The fold in `main` counting ids with a pair and ids with a triple. */
  function Tally(ids: seq<string>): (nat, nat)
  {
    if ids == [] then (0, 0)
    else
      var t := Tally(ids[..|ids| - 1]);
      var h := HasExactly2Or3(ids[|ids| - 1]);
      (t.0 + (if h.0 then 1 else 0), t.1 + (if h.1 then 1 else 0))
  }

  /** The indices of the ids satisfying `p`. */
  ghost function Indices(ids: seq<string>, p: string -> bool): set<nat>
  {
    set i: nat | i < |ids| && p(ids[i])
  }

  lemma IndicesSnoc(ids: seq<string>, p: string -> bool)
    requires ids != []
    ensures |Indices(ids, p)|
      == |Indices(ids[..|ids| - 1], p)| + (if p(ids[|ids| - 1]) then 1 else 0)
  {
    var n := |ids| - 1;
    var front := Indices(ids[..n], p);
    assert front == set i: nat | i < n && p(ids[i]);
    assert n !in front;
    if p(ids[n]) {
      assert Indices(ids, p) == front + {n};
    } else {
      assert Indices(ids, p) == front;
    }
  }

  ghost function WithPair(ids: seq<string>): set<nat>
  {
    Indices(ids, s => HasExactly2Or3(s).0)
  }

  ghost function WithTriple(ids: seq<string>): set<nat>
  {
    Indices(ids, s => HasExactly2Or3(s).1)
  }

  /** The fold counts exactly the ids with a pair and the ids with a triple. */
  lemma {:induction false} TallyCounts(ids: seq<string>)
    ensures Tally(ids).0 == |WithPair(ids)|
    ensures Tally(ids).1 == |WithTriple(ids)|
  {
    if ids != [] {
      TallyCounts(ids[..|ids| - 1]);
      IndicesSnoc(ids, s => HasExactly2Or3(s).0);
      IndicesSnoc(ids, s => HasExactly2Or3(s).1);
    }
  }

  /** The checksum printed by `main`. */
  function Checksum(ids: seq<string>): (r: nat)
    ensures r == |WithPair(ids)| * |WithTriple(ids)|
  {
    TallyCounts(ids);
    Tally(ids).0 * Tally(ids).1
  }

  /** The number of positions at which the zipped characters differ
      (`zip(..).filter(|x| x.0 != x.1).count()`). */
  function DiffCount(x: string, y: string): nat
  {
    if x == [] || y == [] then 0
    else (if x[0] != y[0] then 1 else 0) + DiffCount(x[1..], y[1..])
  }

  /** The characters at which the zipped strings agree, in order. */
  function Common(x: string, y: string): string
  {
    if x == [] || y == [] then []
    else (if x[0] == y[0] then [x[0]] else []) + Common(x[1..], y[1..])
  }

  function Min(a: nat, b: nat): nat { if a <= b then a else b }

  /** An id never differs from itself. */
  lemma {:induction false} DiffSelf(x: string)
    ensures DiffCount(x, x) == 0
  {
    if x != [] { DiffSelf(x[1..]); }
  }

  /** Agreeing and differing positions together make up the zipped length;
      so for a pair differing once the printed string is one shorter. */
  lemma {:induction false} CommonLength(x: string, y: string)
    ensures |Common(x, y)| + DiffCount(x, y) == Min(|x|, |y|)
  {
    if x != [] && y != [] { CommonLength(x[1..], y[1..]); }
  }

  /** Every character kept in the common string is the character both ids
      hold at some zipped position. */
  lemma {:induction false} CommonFromBoth(x: string, y: string, k: nat)
    requires k < |Common(x, y)|
    ensures exists p :: 0 <= p < Min(|x|, |y|) && x[p] == y[p] == Common(x, y)[k]
  {
    if x[0] == y[0] && k == 0 {
      assert x[0] == y[0] == Common(x, y)[0];
    } else {
      var k' := if x[0] == y[0] then k - 1 else k;
      assert Common(x, y)[k] == Common(x[1..], y[1..])[k'];
      CommonFromBoth(x[1..], y[1..], k');
      var p :| 0 <= p < Min(|x| - 1, |y| - 1) && x[1..][p] == y[1..][p] == Common(x[1..], y[1..])[k'];
      assert x[p + 1] == y[p + 1];
    }
  }

  /** Pairs (i, j) with i <= j, in the order the nested loops visit them. */
  predicate Before(i': nat, j': nat, i: nat, j: nat)
  {
    i' < i || (i' == i && j' < j)
  }

  /** The labelled search of `main`: x at index i against every y from index
      i onwards, stopping at the first pair differing in exactly one zipped
      position. */
  method FindOneDiff(ids: seq<string>) returns (r: Option<(nat, nat)>)
    ensures r.Some? ==>
      && r.value.0 < r.value.1 < |ids|
      && DiffCount(ids[r.value.0], ids[r.value.1]) == 1
      && |Common(ids[r.value.0], ids[r.value.1])|
           == Min(|ids[r.value.0]|, |ids[r.value.1]|) - 1
      && forall i': nat, j': nat :: i' <= j' < |ids| && Before(i', j', r.value.0, r.value.1) ==>
           DiffCount(ids[i'], ids[j']) != 1
    ensures r.None? ==> forall i': nat, j': nat :: i' <= j' < |ids| ==> DiffCount(ids[i'], ids[j']) != 1
  {
    for i := 0 to |ids|
      invariant forall i': nat, j': nat :: i' < i && i' <= j' < |ids| ==> DiffCount(ids[i'], ids[j']) != 1
    {
      for j := i to |ids|
        invariant forall i': nat, j': nat :: i' <= j' < |ids| && Before(i', j', i, j) ==>
          DiffCount(ids[i'], ids[j']) != 1
      {
        if DiffCount(ids[i], ids[j]) == 1 {
          if i == j { DiffSelf(ids[i]); }
          CommonLength(ids[i], ids[j]);
          return Some((i, j));
        }
      }
    }
    return None;
  }
}
