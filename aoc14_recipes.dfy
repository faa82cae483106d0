/** aoc_14: chocolate charts. Two elves combine their current recipes; the
    decimal digits of the sum are appended as new recipes, and each elf moves
    forward one plus its recipe's score, wrapping around the scoreboard. */
module Recipes {
  import opened Wrappers

  /** The decimal digits of `n`, most significant first; `[0]` for zero. */
  function Digits(n: nat): (r: seq<nat>)
    ensures |r| >= 1
  {
    if n < 10 then [n] else Digits(n / 10) + [n % 10]
  }

  /** `break_down` yields decimal digits with no leading zero, a single
      one exactly for numbers below ten. */
  lemma {:induction false} DigitsCanonical(n: nat)
    ensures forall i :: 0 <= i < |Digits(n)| ==> Digits(n)[i] < 10
    ensures n > 0 ==> Digits(n)[0] != 0
    ensures |Digits(n)| == 1 <==> n < 10
  {
    if n >= 10 {
      DigitsCanonical(n / 10);
    }
  }

  /** The number a digit sequence denotes, most significant first. */
  function FromDigits(ds: seq<nat>): nat
  {
    if ds == [] then 0 else FromDigits(ds[..|ds| - 1]) * 10 + ds[|ds| - 1]
  }

  lemma {:induction false} FromDigitsDigits(n: nat)
    ensures FromDigits(Digits(n)) == n
  {
    if n >= 10 {
      FromDigitsDigits(n / 10);
      var ds := Digits(n);
      assert ds[..|ds| - 1] == Digits(n / 10);
    }
  }

  /** A digit sequence without a leading zero is positive. */
  lemma {:induction false} FromDigitsPositive(ds: seq<nat>)
    requires ds != [] && ds[0] != 0
    ensures FromDigits(ds) >= 1
  {
    if |ds| > 1 {
      FromDigitsPositive(ds[..|ds| - 1]);
    }
  }

  /** The decimal representation is unique: every digit sequence without a
      leading zero is the one `break_down` produces for its value. */
  lemma {:induction false} DigitsFromDigits(ds: seq<nat>)
    requires ds != [] && (forall i :: 0 <= i < |ds| ==> ds[i] < 10)
    requires |ds| > 1 ==> ds[0] != 0
    ensures Digits(FromDigits(ds)) == ds
  {
    if |ds| > 1 {
      var front := ds[..|ds| - 1];
      DigitsFromDigits(front);
      DigitsCanonical(FromDigits(front));
      FromDigitsPositive(front);
      var n := FromDigits(ds);
      assert n == FromDigits(front) * 10 + ds[|ds| - 1];
      assert n / 10 == FromDigits(front) && n % 10 == ds[|ds| - 1];
      assert ds == front + [ds[|ds| - 1]];
    }
  }

  /** The sum of two recipe scores has one or two digits. */
  lemma DigitsOfSum(a: nat, b: nat)
    requires a < 10 && b < 10
    ensures 1 <= |Digits(a + b)| <= 2
  {
    var n := a + b;
    DigitsCanonical(n);
    if n >= 10 {
      DigitsCanonical(n / 10);
      assert n / 10 < 10;
    }
  }

  /** `break_down`: pushes the low digit while the number is positive, then
      reverses. */
  method BreakDown(num: nat) returns (digits: seq<nat>)
    ensures digits == Digits(num)
  {
    if num == 0 {
      return [0];
    }
    var n := num;
    var result: seq<nat> := [];
    while n > 0
      invariant Digits(num) == (if n > 0 then Digits(n) else []) + Reverse(result)
      decreases n
    {
      DigitsSplit(n);
      ReverseSnoc(result, n % 10);
      result := result + [n % 10];
      n := n / 10;
    }
    digits := Reverse(result);
  }

  /** The low digit comes last, after the digits of the rest (none when
      the rest is zero). */
  lemma DigitsSplit(n: nat)
    requires n > 0
    ensures Digits(n) == (if n / 10 > 0 then Digits(n / 10) else []) + [n % 10]
  {
  }

  lemma ReverseSnoc(s: seq<nat>, x: nat)
    ensures Reverse(s + [x]) == [x] + Reverse(s)
  {
    assert Reverse(s + [x]) == [x] + Reverse(s);
  }

  function Reverse(s: seq<nat>): (r: seq<nat>)
    ensures |r| == |s|
    ensures forall i :: 0 <= i < |s| ==> r[i] == s[|s| - 1 - i]
  {
    if s == [] then [] else Reverse(s[1..]) + [s[0]]
  }

  /** The scoreboard and the two elves' current recipes. */
  datatype Kitchen = Kitchen(recipes: seq<nat>, elf1: nat, elf2: nat)

  /** Both elves stand on the scoreboard. */
  predicate Valid(k: Kitchen)
  {
    |k.recipes| >= 2 && k.elf1 < |k.recipes| && k.elf2 < |k.recipes|
  }

  /** Every recipe score is a single digit. */
  predicate AllDigits(s: seq<nat>)
  {
    forall i :: 0 <= i < |s| ==> s[i] < 10
  }

  /** The scoreboard `[3, 7]` with the elves on its two recipes. */
  function Initial(): (k: Kitchen)
    ensures Valid(k)
  {
    Kitchen([3, 7], 0, 1)
  }

  lemma WindowDigits(n: nat, i: nat, j: nat)
    requires i <= j <= |Run(n).recipes|
    ensures AllDigits(Run(n).recipes[i..j])
  {
    var s := Run(n).recipes;
    RunDigits(n);
    assert forall k :: 0 <= k < j - i ==> s[i..j][k] == s[i + k];
  }

  /** One round: append the digits of the sum, then move both elves
      (`elf = (elf + recipes[elf] + 1) % len`). The scoreboard only grows
      and the elves stay on it. */
  function Step(k: Kitchen): (r: Kitchen)
    requires Valid(k)
    ensures Valid(r)
  {
    var recipes := k.recipes + Digits(k.recipes[k.elf1] + k.recipes[k.elf2]);
    Kitchen(recipes,
            (k.elf1 + recipes[k.elf1] + 1) % |recipes|,
            (k.elf2 + recipes[k.elf2] + 1) % |recipes|)
  }

  /** The kitchen after `n` rounds. */
  function Run(n: nat): (k: Kitchen)
    ensures Valid(k)
  {
    if n == 0 then Initial() else Step(Run(n - 1))
  }

  /** A round keeps the scoreboard as a prefix and appends at least one
      recipe. */
  lemma StepExtends(k: Kitchen)
    requires Valid(k)
    ensures |Step(k).recipes| > |k.recipes|
    ensures Step(k).recipes[..|k.recipes|] == k.recipes
  {
    var added := Digits(k.recipes[k.elf1] + k.recipes[k.elf2]);
    assert Step(k).recipes == k.recipes + added;
  }

  /** A round appends one or two recipes, and they are digits. */
  lemma StepDigits(k: Kitchen)
    requires Valid(k) && AllDigits(k.recipes)
    ensures AllDigits(Step(k).recipes)
    ensures |Step(k).recipes| <= |k.recipes| + 2
  {
    var added := Digits(k.recipes[k.elf1] + k.recipes[k.elf2]);
    DigitsOfSum(k.recipes[k.elf1], k.recipes[k.elf2]);
    DigitsCanonical(k.recipes[k.elf1] + k.recipes[k.elf2]);
    assert Step(k).recipes == k.recipes + added;
  }

  lemma {:induction false} RunDigits(n: nat)
    ensures AllDigits(Run(n).recipes)
    ensures n > 0 ==> |Run(n).recipes| <= |Run(n - 1).recipes| + 2
  {
    if n > 0 {
      RunDigits(n - 1);
      StepDigits(Run(n - 1));
    }
  }

  /** Earlier scoreboards are prefixes of later ones. */
  lemma RunPrefix(m: nat, n: nat)
    requires m <= n
    ensures Run(m).recipes <= Run(n).recipes
  {
    forall i: nat ensures Board(i) <= Board(i + 1) {
      RunExtends(i);
    }
    PrefixChain(Board, m, n);
  }

  function Board(n: nat): seq<nat>
  {
    Run(n).recipes
  }

  /** A round strictly extends the scoreboard. */
  lemma RunExtends(n: nat)
    ensures Run(n).recipes < Run(n + 1).recipes
  {
    StepExtends(Run(n));
  }

  /** A chain of sequences each a prefix of the next. */
  lemma {:induction false} PrefixChain(board: nat -> seq<nat>, m: nat, n: nat)
    requires forall i: nat :: board(i) <= board(i + 1)
    requires m <= n
    ensures board(m) <= board(n)
    decreases n - m
  {
    if m < n {
      PrefixChain(board, m, n - 1);
      assert board(n - 1) <= board(n);
    }
  }

  /** The body shared by the loops of `part_1` and `part_2`: append the
      digits of the two current scores and move the elves. `added` is the
      number of recipes appended. */
  method Round(recipes: seq<nat>, elf1: nat, elf2: nat)
    returns (recipes': seq<nat>, elf1': nat, elf2': nat, added: nat)
    requires Valid(Kitchen(recipes, elf1, elf2))
    ensures Kitchen(recipes', elf1', elf2') == Step(Kitchen(recipes, elf1, elf2))
    ensures added == |recipes'| - |recipes| >= 1
  {
    var digits := BreakDown(recipes[elf1] + recipes[elf2]);
    recipes' := recipes + digits;
    elf1' := (elf1 + recipes'[elf1] + 1) % |recipes'|;
    elf2' := (elf2 + recipes'[elf2] + 1) % |recipes'|;
    added := |digits|;
  }

  /** `part_1`: run rounds until at least `start + 10` recipes exist and
      report the ten after the first `start`. `rounds` is the number of
      rounds that took; the round before it had too few recipes. */
  method Part1(start: nat) returns (scores: seq<nat>, ghost rounds: nat)
    ensures |Run(rounds).recipes| >= start + 10
    ensures rounds > 0 ==> |Run(rounds - 1).recipes| < start + 10
    ensures scores == Run(rounds).recipes[start..start + 10]
    ensures AllDigits(scores)
  {
    var recipes: seq<nat> := [3, 7];
    var elf1: nat, elf2: nat := 0, 1;
    rounds := 0;
    ghost var k := Run(0);
    ghost var previous := k;
    while |recipes| < start + 10
      invariant k == Run(rounds) && k == Kitchen(recipes, elf1, elf2)
      invariant rounds > 0 ==> previous == Run(rounds - 1) && |previous.recipes| < start + 10
      decreases start + 10 - |recipes|
    {
      var added;
      recipes, elf1, elf2, added := Round(recipes, elf1, elf2);
      previous, k := k, Step(k);
      rounds := rounds + 1;
    }
    scores := recipes[start..start + 10];
    WindowDigits(rounds, start, start + 10);
  }

  /** The window of `target`'s length starting at `start` equals `target`. */
  predicate MatchesAt(recipes: seq<nat>, start: nat, target: seq<nat>)
  {
    start + |target| <= |recipes| && recipes[start..start + |target|] == target
  }

  /** The per-round check of `part_2`, after `added` recipes were appended:
      the windows ending at the last `added` positions are tried, the one
      ending at the very end first (`i = 0`), skipping those that would start
      before the scoreboard. */
  function MatchAfterStep(recipes: seq<nat>, added: nat, target: seq<nat>, i: nat): (r: Option<nat>)
    decreases added - i
    ensures r.Some? ==> (MatchesAt(recipes, r.value, target)
      && i <= |recipes| - |target| - r.value < added)
    ensures r.Some? ==> forall s: nat :: r.value < s <= |recipes| - |target| - i ==> !MatchesAt(recipes, s, target)
    ensures r.None? ==> forall s: nat :: |recipes| - |target| - added < s <= |recipes| - |target| - i ==>
      !MatchesAt(recipes, s, target)
  {
    if i >= added then None
    else if |recipes| < |target| + i then MatchAfterStep(recipes, added, target, i + 1)
    else
      var start := |recipes| - |target| - i;
      if recipes[start..start + |target|] == target then Some(start)
      else MatchAfterStep(recipes, added, target, i + 1)
  }

  /** The per-round check made by the round that turns kitchen `k` into
      `Step(k)`. */
  function Check(k: Kitchen, target: seq<nat>): Option<nat>
    requires Valid(k)
  {
    var after := Step(k).recipes;
    MatchAfterStep(after, |after| - |k.recipes|, target, 0)
  }

  /** A reported start is a real occurrence of the target on the
      scoreboard after the round, ending among the recipes the round
      appended. */
  lemma CheckMatches(k: Kitchen, target: seq<nat>)
    requires Valid(k) && Check(k, target).Some?
    ensures MatchesAt(Step(k).recipes, Check(k, target).value, target)
    ensures Check(k, target).value + |target| > |k.recipes|
  {
  }

  /** None of the checks of the first `n` rounds reported anything. */
  predicate SilentUpTo(n: nat, target: seq<nat>)
  {
    forall m: nat :: m < n ==> Check(Run(m), target).None?
  }

  /** One round of the loop of `part_2` from the kitchen after `n` rounds:
      the round, then its check. */
  method CheckedRound(recipes: seq<nat>, elf1: nat, elf2: nat, target: seq<nat>, ghost n: nat)
    returns (recipes': seq<nat>, elf1': nat, elf2': nat, found: Option<nat>)
    requires Kitchen(recipes, elf1, elf2) == Run(n)
    ensures Kitchen(recipes', elf1', elf2') == Run(n + 1)
    ensures found == Check(Run(n), target)
  {
    var added;
    recipes', elf1', elf2', added := Round(recipes, elf1, elf2);
    found := MatchAfterStep(recipes', added, target, 0);
  }

  /** `part_2`, cut off after `fuel` rounds: round `m + 1` is the first
      whose check reports a start, and `r` is that report (by
      `CheckMatches`, an occurrence of the target on that round's
      scoreboard); None means none of the first `fuel` rounds' checks found
      the target. */
  method Part2(target: seq<nat>, fuel: nat) returns (r: Option<nat>, ghost m: nat)
    ensures r.Some? ==> m < fuel && r == Check(Run(m), target) && SilentUpTo(m, target)
    ensures r.None? ==> SilentUpTo(fuel, target)
  {
    var recipes: seq<nat> := [3, 7];
    var elf1: nat, elf2: nat := 0, 1;
    var steps := 0;
    while steps < fuel
      invariant steps <= fuel
      invariant Kitchen(recipes, elf1, elf2) == Run(steps)
      invariant SilentUpTo(steps, target)
    {
      var found;
      recipes, elf1, elf2, found := CheckedRound(recipes, elf1, elf2, target, steps);
      if found.Some? {
        return found, steps;
      }
      steps := steps + 1;
    }
    return None, 0;
  }
}
