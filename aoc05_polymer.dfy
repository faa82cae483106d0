/** aoc_5: alchemical reduction. Two adjacent units react and vanish when
    they are the same letter in opposite cases; the polymer is reduced with
    a stack in one pass. Part two removes one unit type (both cases) at a
    time and keeps the shortest reduced polymer. */
module Polymer {
  import opened Wrappers

  /** `to_ascii_uppercase`: only 'a'..'z' change. */
  function Upper(c: char): (r: char)
    ensures 'a' <= c <= 'z' ==> 'A' <= r <= 'Z' && r as int == c as int - 32
    ensures !('a' <= c <= 'z') ==> r == c
  {
    if 'a' <= c <= 'z' then (c as int - 32) as char else c
  }

  /** Units `x` and `c` react: same letter, different case. */
  predicate Reacts(x: char, c: char)
  {
    Upper(x) == Upper(c) && x != c
  }

  /** One iteration of the loop of `react`: pop when the top of the stack
      reacts with `c`, push `c` otherwise. */
  function Push(stack: seq<char>, c: char): seq<char>
  {
    if stack != [] && Reacts(stack[|stack| - 1], c) then stack[..|stack| - 1]
    else stack + [c]
  }

  /** The stack after `react` has consumed all of `s`. */
  function Reduce(s: seq<char>): seq<char>
  {
    if s == [] then [] else Push(Reduce(s[..|s| - 1]), s[|s| - 1])
  }

  /** No two adjacent units react. */
  predicate Reduced(s: seq<char>)
  {
    forall i :: 0 <= i < |s| - 1 ==> !Reacts(s[i], s[i + 1])
  }

  /** `react`: the stack loop computes `Reduce`. */
  method React(s: seq<char>) returns (r: seq<char>)
    ensures r == Reduce(s)
    ensures Reduced(r)
    ensures |r| <= |s| && (|s| - |r|) % 2 == 0
  {
    var stack: seq<char> := [];
    for i := 0 to |s|
      invariant stack == Reduce(s[..i])
    {
      var c := s[i];
      assert s[..i + 1][..i] == s[..i];
      if stack != [] && Reacts(stack[|stack| - 1], c) {
        stack := stack[..|stack| - 1];
        continue;
      }
      stack := stack + [c];
    }
    assert s[..|s|] == s;
    r := stack;
    ReduceReduced(s);
    ReduceLength(s);
  }

  lemma {:induction false} ReduceReduced(s: seq<char>)
    ensures Reduced(Reduce(s))
  {
    if s != [] {
      ReduceReduced(s[..|s| - 1]);
    }
  }

  /** Every reaction drops two units. */
  lemma {:induction false} ReduceLength(s: seq<char>)
    ensures |Reduce(s)| <= |s|
    ensures (|s| - |Reduce(s)|) % 2 == 0
  {
    if s != [] {
      ReduceLength(s[..|s| - 1]);
    }
  }

  /** `idx` lists, in increasing order, positions of `b` holding `a`. */
  ghost predicate SubsequenceBy(a: seq<char>, b: seq<char>, idx: seq<nat>)
  {
    |idx| == |a|
    && (forall k :: 0 <= k < |idx| ==> idx[k] < |b| && a[k] == b[idx[k]])
    && (forall k, l :: 0 <= k < l < |idx| ==> idx[k] < idx[l])
  }

  ghost predicate IsSubsequence(a: seq<char>, b: seq<char>)
  {
    exists idx :: SubsequenceBy(a, b, idx)
  }

  /** The surviving units keep their order: the reduced polymer is a
      subsequence of the input. */
  lemma {:induction false} ReduceSubsequence(s: seq<char>) returns (idx: seq<nat>)
    ensures SubsequenceBy(Reduce(s), s, idx)
  {
    if s == [] {
      idx := [];
    } else {
      var front := ReduceSubsequence(s[..|s| - 1]);
      idx := SubsequenceStep(s, front);
    }
  }

  /** The units surviving a prefix, followed by the next unit pushed or
      reacting away, still keep their order. */
  lemma SubsequenceStep(s: seq<char>, front: seq<nat>) returns (idx: seq<nat>)
    requires s != [] && SubsequenceBy(Reduce(s[..|s| - 1]), s[..|s| - 1], front)
    ensures SubsequenceBy(Reduce(s), s, idx)
  {
    var n := |s| - 1;
    idx := PushSubsequence(Reduce(s[..n]), s[..n], front, s[n]);
    assert s[..n] + [s[n]] == s;
  }

  /** One iteration of the loop of `react` keeps the stack a subsequence of
      the units read so far. */
  lemma PushSubsequence(stack: seq<char>, b: seq<char>, front: seq<nat>, c: char) returns (idx: seq<nat>)
    requires SubsequenceBy(stack, b, front)
    ensures SubsequenceBy(Push(stack, c), b + [c], idx)
  {
    if stack != [] && Reacts(stack[|stack| - 1], c) {
      idx := front[..|front| - 1];
      SubsequencePop(stack, b, front);
      SubsequenceLonger(stack[..|stack| - 1], b, idx, c);
    } else {
      idx := front + [|b|];
      SubsequencePush(stack, b, front, c);
    }
  }

  /** Dropping the last unit of a subsequence leaves a subsequence. */
  lemma SubsequencePop(a: seq<char>, b: seq<char>, idx: seq<nat>)
    requires a != [] && SubsequenceBy(a, b, idx)
    ensures SubsequenceBy(a[..|a| - 1], b, idx[..|idx| - 1])
  {
  }

  /** A subsequence stays one when a unit is appended to the sequence. */
  lemma SubsequenceLonger(a: seq<char>, b: seq<char>, idx: seq<nat>, c: char)
    requires SubsequenceBy(a, b, idx)
    ensures SubsequenceBy(a, b + [c], idx)
  {
    forall k | 0 <= k < |idx| ensures (b + [c])[idx[k]] == b[idx[k]] {
    }
  }

  /** Appending the same unit to both keeps a subsequence, matched at the
      new last position. */
  lemma SubsequencePush(a: seq<char>, b: seq<char>, idx: seq<nat>, c: char)
    requires SubsequenceBy(a, b, idx)
    ensures SubsequenceBy(a + [c], b + [c], idx + [|b|])
  {
    var idx' := idx + [|b|];
    forall k | 0 <= k < |idx| ensures idx'[k] == idx[k] && (b + [c])[idx[k]] == b[idx[k]] {
    }
  }

  /** A reduced polymer does not react any further. */
  lemma {:induction false} ReduceOfReduced(s: seq<char>)
    requires Reduced(s)
    ensures Reduce(s) == s
  {
    if s != [] {
      var n := |s| - 1;
      ReduceOfReduced(s[..n]);
      assert s[..n] + [s[n]] == s;
    }
  }

  /** `react` is idempotent. */
  lemma ReduceIdempotent(s: seq<char>)
    ensures Reduce(Reduce(s)) == Reduce(s)
  {
    ReduceReduced(s);
    ReduceOfReduced(Reduce(s));
  }

  /** The unit types present: the uppercase form of every unit. */
  function Units(s: seq<char>): set<char>
  {
    set c | c in s :: Upper(c)
  }

  /** The input with unit type `u` removed in both cases. */
  function Without(s: seq<char>, u: char): (r: seq<char>)
    ensures forall c :: c in r <==> c in s && Upper(c) != u
    ensures |r| <= |s|
  {
    if s == [] then []
    else if Upper(s[0]) != u then [s[0]] + Without(s[1..], u)
    else Without(s[1..], u)
  }

  /** The part-two minimum: for every unit type, the length of the
      reduction of the input without it, keeping the smallest. The unit
      reported among equally short ones depends on the hash set's iteration
      order, so only its length is determined. `unwrap` panics when there
      is no unit at all, which is the None result. */
  method ShortestWithoutOneUnit(s: seq<char>) returns (r: Option<(char, nat)>)
    ensures r.None? <==> s == []
    ensures r.Some? ==> r.value.0 in Units(s) && r.value.1 == |Reduce(Without(s, r.value.0))|
    ensures r.Some? ==> forall u :: u in Units(s) ==> r.value.1 <= |Reduce(Without(s, u))|
  {
    var units := Units(s);
    var todo := units;
    r := None;
    while todo != {}
      invariant todo <= units
      invariant r.None? <==> todo == units
      invariant r.Some? ==> r.value.0 in units && r.value.1 == |Reduce(Without(s, r.value.0))|
      invariant r.Some? ==> forall u :: u in units - todo ==> r.value.1 <= |Reduce(Without(s, u))|
      decreases |todo|
    {
      var u :| u in todo;
      var reduced := React(Without(s, u));
      if r.None? || |reduced| < r.value.1 {
        r := Some((u, |reduced|));
      }
      todo := todo - {u};
    }
    if s != [] {
      assert Upper(s[0]) in units;
    }
  }
}
