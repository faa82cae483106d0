/** aoc_3: overlapping fabric claims. Every claim covers a rectangle of
    square inches; the fabric map counts, per square inch, the claims
    covering it, and the intact claim is the first one none of whose
    square inches is shared. */
module FabricClaims {
  import opened Wrappers

  datatype Claim = Claim(id: nat, left: nat, top: nat, width: nat, height: nat)

  /** A square inch, as (column, row). */
  type Cell = (nat, nat)

  predicate Covers(c: Claim, p: Cell)
  {
    c.left <= p.0 < c.left + c.width && c.top <= p.1 < c.top + c.height
  }

  /** The number of claims covering `p`. */
  function CoverCount(claims: seq<Claim>, p: Cell): nat
  {
    if claims == [] then 0
    else CoverCount(claims[..|claims| - 1], p)
         + (if Covers(claims[|claims| - 1], p) then 1 else 0)
  }

  lemma {:induction false} CoverCountPositive(claims: seq<Claim>, p: Cell)
    ensures CoverCount(claims, p) > 0 <==> exists k :: 0 <= k < |claims| && Covers(claims[k], p)
  {
    if claims != [] {
      var front := claims[..|claims| - 1];
      CoverCountPositive(front, p);
      if CoverCount(front, p) > 0 {
        var k :| 0 <= k < |front| && Covers(front[k], p);
        assert claims[k] == front[k];
      }
      if k :| 0 <= k < |claims| && Covers(claims[k], p) {
        if k < |front| {
          assert front[k] == claims[k];
        }
      }
    }
  }

  /** The square inches of claim `c` visited before (column `i`, row `j`)
      by the column-major loops of the counting pass. */
  predicate VisitedBefore(c: Claim, i: nat, j: nat, p: Cell)
  {
    Covers(c, p) && (p.0 < i || (p.0 == i && p.1 < j))
  }

  /** The counting pass in `main`: for every claim, every square inch of its
      rectangle gets its count incremented (`or_insert(0) += 1`). The keys
      are exactly the covered square inches, each holding the number of
      claims covering it. */
  method BuildFabric(claims: seq<Claim>) returns (fabric: map<Cell, nat>)
    ensures forall p :: p in fabric <==> exists k :: 0 <= k < |claims| && Covers(claims[k], p)
    ensures forall p :: p in fabric ==> fabric[p] == CoverCount(claims, p) && fabric[p] >= 1
  {
    fabric := map[];
    for k := 0 to |claims|
      invariant forall p :: p in fabric <==> CoverCount(claims[..k], p) > 0
      invariant forall p :: p in fabric ==> fabric[p] == CoverCount(claims[..k], p)
    {
      var c := claims[k];
      for i := c.left to c.left + c.width
        invariant forall p :: p in fabric <==> CoverCount(claims[..k], p) > 0 || VisitedBefore(c, i, c.top, p)
        invariant forall p :: p in fabric ==>
          fabric[p] == CoverCount(claims[..k], p) + (if VisitedBefore(c, i, c.top, p) then 1 else 0)
      {
        for j := c.top to c.top + c.height
          invariant forall p :: p in fabric <==> CoverCount(claims[..k], p) > 0 || VisitedBefore(c, i, j, p)
          invariant forall p :: p in fabric ==>
            fabric[p] == CoverCount(claims[..k], p) + (if VisitedBefore(c, i, j, p) then 1 else 0)
        {
          fabric := fabric[(i, j) := (if (i, j) in fabric then fabric[(i, j)] else 0) + 1];
          assert forall p :: VisitedBefore(c, i, j + 1, p) <==> VisitedBefore(c, i, j, p) || p == (i, j);
        }
        var next, bottom := i + 1, c.top + c.height;
        assert forall p :: VisitedBefore(c, next, c.top, p) <==> VisitedBefore(c, i, bottom, p);
      }
      assert claims[..k + 1][..k] == claims[..k];
      assert forall p :: VisitedBefore(c, c.left + c.width, c.top, p) <==> Covers(c, p);
    }
    assert claims[..|claims|] == claims;
    forall p ensures p in fabric <==> exists k :: 0 <= k < |claims| && Covers(claims[k], p)
    {
      CoverCountPositive(claims, p);
    }
  }

  /** Claim `k` shares at least one of its square inches with another claim. */
  ghost predicate Overlapped(claims: seq<Claim>, k: nat)
    requires k < |claims|
  {
    exists p :: Covers(claims[k], p) && CoverCount(claims, p) > 1
  }

  /** The labelled search `'claims:` of `main`: the first claim (in input
      order) all of whose square inches have count 1, or None when every
      claim overlaps another. The fabric is the one the counting pass built. */
  method FindIntact(claims: seq<Claim>, fabric: map<Cell, nat>) returns (r: Option<nat>)
    requires forall p :: (exists k :: 0 <= k < |claims| && Covers(claims[k], p)) ==>
      p in fabric && fabric[p] == CoverCount(claims, p)
    ensures r.Some? ==> r.value < |claims| && !Overlapped(claims, r.value)
    ensures r.Some? ==> forall k :: 0 <= k < r.value ==> Overlapped(claims, k)
    ensures r.None? ==> forall k :: 0 <= k < |claims| ==> Overlapped(claims, k)
  {
    label claimsLoop:
    for k := 0 to |claims|
      invariant forall k' :: 0 <= k' < k ==> Overlapped(claims, k')
    {
      var c := claims[k];
      for i := c.left to c.left + c.width
        invariant forall p :: VisitedBefore(c, i, c.top, p) ==> CoverCount(claims, p) <= 1
      {
        for j := c.top to c.top + c.height
          invariant forall p :: VisitedBefore(c, i, j, p) ==> CoverCount(claims, p) <= 1
        {
          assert Covers(claims[k], (i, j));
          if fabric[(i, j)] > 1 {
            assert Overlapped(claims, k);
            continue claimsLoop;
          }
          assert forall p :: VisitedBefore(c, i, j + 1, p) <==> VisitedBefore(c, i, j, p) || p == (i, j);
        }
        var next, bottom := i + 1, c.top + c.height;
        assert forall p :: VisitedBefore(c, next, c.top, p) <==> VisitedBefore(c, i, bottom, p);
      }
      assert forall p :: VisitedBefore(c, c.left + c.width, c.top, p) <==> Covers(c, p);
      return Some(k);
    }
    return None;
  }

  /** The two counts printed after the counting pass: square inches claimed
      more than once and square inches claimed exactly once. Together they
      account for every key of the fabric. */
  lemma FabricPartition(fabric: map<Cell, nat>)
    requires forall p :: p in fabric ==> fabric[p] >= 1
    ensures (set p | p in fabric && fabric[p] > 1) + (set p | p in fabric && fabric[p] == 1) == fabric.Keys
    ensures |set p | p in fabric && fabric[p] > 1| + |set p | p in fabric && fabric[p] == 1| == |fabric.Keys|
  {
    var many := set p | p in fabric && fabric[p] > 1;
    var once := set p | p in fabric && fabric[p] == 1;
    assert many + once == fabric.Keys;
    assert many * once == {};
  }
}
