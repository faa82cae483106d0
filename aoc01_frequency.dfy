/** aoc_1: the running frequency over a list of changes. The total is the
    fold of all changes; the repeat search walks the changes cyclically and
    stops at the first frequency reached twice. */
module FrequencyDrift {
  import opened Seqs
  import Arith

  /** The frequency after `i` changes of the endlessly repeated input,
      starting from 0 (`current_freq` after `i` iterations). */
  function Freq(changes: seq<int>, i: nat): int
    requires changes != [] || i == 0
  {
    if i == 0 then 0 else Freq(changes, i - 1) + changes[(i - 1) % |changes|]
  }

  /** Within the first pass the running frequency is the sum of a prefix, so
      after one full pass it is the total that `main` prints first. */
  lemma {:induction false} FreqPrefix(changes: seq<int>, i: nat)
    requires i <= |changes|
    ensures Freq(changes, i) == Sum(changes[..i])
  {
    if i > 0 {
      FreqPrefix(changes, i - 1);
      var n := |changes|;
      Arith.DivModUnique(i - 1, 0, i - 1, n);
      assert changes[..i][..i - 1] == changes[..i - 1];
    }
  }

  /** Every further pass shifts the frequency by the total. */
  lemma {:induction false} FreqPeriod(changes: seq<int>, i: nat)
    requires changes != []
    ensures Freq(changes, i + |changes|) == Freq(changes, i) + Sum(changes)
  {
    if i == 0 {
      FreqPrefix(changes, |changes|);
      assert changes[..|changes|] == changes;
    } else {
      FreqPeriod(changes, i - 1);
      Arith.ModShift(i - 1, |changes|);
    }
  }

  /** When the changes cancel out, the frequency 0 comes back after one pass,
      so the repeat search ends within |changes| steps. */
  lemma ZeroTotalRepeats(changes: seq<int>)
    requires changes != [] && Sum(changes) == 0
    ensures Freq(changes, |changes|) == Freq(changes, 0)
  {
    FreqPeriod(changes, 0);
  }

  /** No frequency repeats among the first `n` reached. */
  ghost predicate AllDistinct(changes: seq<int>, n: nat)
    requires changes != [] || n <= 1
  {
    forall j, k :: 0 <= j < k < n ==> Freq(changes, j) != Freq(changes, k)
  }

  datatype Search =
    | Repeated(freq: int, steps: nat)  // the loop broke: `freq` was seen before
    | CycleEmpty                       // no changes: the cycled iterator is empty
    | OutOfFuel                        // the model's bound on iterations was reached

  /** The `for x in input.iter().cycle()` loop of `main`, bounded by `fuel`
      iterations. `seen` holds exactly the frequencies reached before the
      current one, and `steps` is the number of changes applied. */
  method FirstRepeat(changes: seq<int>, fuel: nat) returns (r: Search)
    ensures r == CycleEmpty <==> changes == []
    ensures r.Repeated? ==>
      && r.steps <= fuel
      && r.freq == Freq(changes, r.steps)
      && (exists j :: 0 <= j < r.steps && Freq(changes, j) == r.freq)
      && AllDistinct(changes, r.steps)
    ensures r.OutOfFuel? ==> changes != [] && AllDistinct(changes, fuel + 1)
  {
    if changes == [] {
      return CycleEmpty;
    }
    var seen: set<int> := {};
    var current := 0;
    var i: nat := 0;
    while i <= fuel
      invariant current == Freq(changes, i)
      invariant seen == set j | 0 <= j < i :: Freq(changes, j)
      invariant AllDistinct(changes, i)
      invariant i <= fuel + 1
    {
      if current in seen {
        return Repeated(current, i);
      }
      seen := seen + {current};
      current := current + changes[i % |changes|];
      i := i + 1;
    }
    return OutOfFuel;
  }
}
