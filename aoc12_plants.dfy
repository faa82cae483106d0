/** aoc_12: subterranean sustainability. A row of numbered pots, some
    holding a plant, evolves one generation at a time: a pot holds a plant
    in the next generation exactly when the five pots centred on it match
    one of the rules that produce a plant. */
module Plants {
  import opened Wrappers
  import Orders

  /** `Pots`: the numbers of the pots that hold a plant. */
  type Pots = set<int>

  /** `Rule`: a window of pots, `true` where a pot holds a plant. */
  type Rule = seq<bool>

  /** `pots_from_str`: pot `i` holds a plant when character `i` is '#'. */
  function PotsFromStr(s: string): (r: Pots)
    ensures forall i :: i in r <==> 0 <= i < |s| && s[i] == '#'
    decreases |s|
  {
    if s == [] then {}
    else PotsFromStr(s[..|s| - 1]) + (if s[|s| - 1] == '#' then {|s| - 1} else {})
  }

  /** `rule_from_str`: one flag per character, set at '#'. */
  function RuleFromStr(s: string): (r: Rule)
    ensures |r| == |s|
  {
    seq(|s|, i requires 0 <= i < |s| => s[i] == '#')
  }

  /** `input_for`: the window of the five pots `position - 2 ..= position + 2`. */
  function InputFor(pots: Pots, position: int): (r: Rule)
    ensures |r| == 5
  {
    seq(5, k => position - 2 + k in pots)
  }

  /** The window flag `k` tells whether pot `position - 2 + k` holds a plant. */
  lemma InputForBits(pots: Pots, position: int)
    ensures forall k :: 0 <= k < 5 ==> (InputFor(pots, position)[k] <==> position - 2 + k in pots)
  {
  }

  /** A rule read from text is the window, centred on its third character,
      of the pots that the same text describes: a rule fires on exactly the
      pattern it is written as. */
  lemma RuleIsWindow(s: string)
    requires |s| == 5
    ensures InputFor(PotsFromStr(s), 2) == RuleFromStr(s)
  {
    var w, r := InputFor(PotsFromStr(s), 2), RuleFromStr(s);
    forall k | 0 <= k < 5 ensures w[k] == r[k] {
      assert w[k] <==> k in PotsFromStr(s);
    }
  }

  /** Every non-empty set of pot numbers has a least and a greatest one. */
  lemma Extremes(s: Pots)
    requires s != {}
    ensures exists m :: m in s && forall x :: x in s ==> m <= x
    ensures exists m :: m in s && forall x :: x in s ==> x <= m
  {
    var lo := Orders.Minimum(s, (a: int, b: int) => a <= b);
    var hi := Orders.Minimum(s, (a: int, b: int) => a >= b);
    assert hi in s && forall x :: x in s ==> x <= hi;
  }

  /** `pots.iter().min()` of a non-empty set. */
  function SetMin(s: Pots): (m: int)
    requires s != {}
    ensures m in s && forall x :: x in s ==> m <= x
  {
    Extremes(s);
    var m :| m in s && forall x :: x in s ==> m <= x; m
  }

  /** `pots.iter().max()` of a non-empty set. */
  function SetMax(s: Pots): (m: int)
    requires s != {}
    ensures m in s && forall x :: x in s ==> x <= m
  {
    Extremes(s);
    var m :| m in s && forall x :: x in s ==> x <= m; m
  }

  /** `next_gen`: the pots from two before the first plant to two after
      the last one whose window is a rule (`unwrap` on the minimum makes an
      empty row a panic, hence the precondition). */
  function NextGen(pots: Pots, rules: set<Rule>): (r: Pots)
    requires pots != {}
    ensures forall p :: p in r ==> SetMin(pots) - 2 <= p <= SetMax(pots) + 2
  {
    set p | SetMin(pots) - 2 <= p <= SetMax(pots) + 2 && InputFor(pots, p) in rules
  }

  /** The window that holds no plant at all. */
  const Barren: Rule := [false, false, false, false, false]

  lemma BarrenWindow(pots: Pots, p: int)
    requires pots != {}
    requires p < SetMin(pots) - 2 || SetMax(pots) + 2 < p
    ensures InputFor(pots, p) == Barren
  {
    var w := InputFor(pots, p);
    forall k | 0 <= k < 5 ensures w[k] == Barren[k] {
      assert p - 2 + k !in pots;
    }
  }

  /** Unless a window without plants produces one, looking only at the
      pots from `min - 2` to `max + 2` loses nothing: the next generation is
      exactly the set of pots, anywhere on the row, whose window is a rule. */
  lemma NextGenLocal(pots: Pots, rules: set<Rule>)
    requires pots != {} && Barren !in rules
    ensures forall p :: p in NextGen(pots, rules) <==> InputFor(pots, p) in rules
  {
    forall p | InputFor(pots, p) in rules ensures p in NextGen(pots, rules) {
      if p < SetMin(pots) - 2 || SetMax(pots) + 2 < p {
        BarrenWindow(pots, p);
        assert false;
      }
    }
  }

  /** The row moved `d` pots to the right. */
  function Shift(s: Pots, d: int): Pots
  {
    set x | x in s :: x + d
  }

  lemma ShiftIn(s: Pots, d: int, y: int)
    ensures y in Shift(s, d) <==> y - d in s
  {
    if y - d in s {
      assert (y - d) + d in Shift(s, d);
    }
  }

  lemma ShiftShift(s: Pots, d: int, e: int)
    ensures Shift(Shift(s, d), e) == Shift(s, d + e)
  {
    forall y ensures y in Shift(Shift(s, d), e) <==> y in Shift(s, d + e) {
      ShiftIn(Shift(s, d), e, y);
      ShiftIn(s, d, y - e);
      ShiftIn(s, d + e, y);
    }
  }

  lemma ShiftZero(s: Pots)
    ensures Shift(s, 0) == s
  {
    forall y ensures y in Shift(s, 0) <==> y in s {
      ShiftIn(s, 0, y);
    }
  }

  lemma ShiftExtremes(s: Pots, d: int)
    requires s != {}
    ensures Shift(s, d) != {}
    ensures SetMin(Shift(s, d)) == SetMin(s) + d && SetMax(Shift(s, d)) == SetMax(s) + d
  {
    var t := Shift(s, d);
    ShiftIn(s, d, SetMin(s) + d);
    ShiftIn(s, d, SetMax(s) + d);
    ShiftIn(s, d, SetMin(t));
    ShiftIn(s, d, SetMax(t));
  }

  /** A window does not care where on the row it is taken. */
  lemma InputForShift(s: Pots, d: int, p: int)
    ensures InputFor(Shift(s, d), p + d) == InputFor(s, p)
  {
    var a, b := InputFor(Shift(s, d), p + d), InputFor(s, p);
    forall k | 0 <= k < 5 ensures a[k] == b[k] {
      ShiftIn(s, d, p + d - 2 + k);
    }
  }

  /** `next_gen` commutes with moving the row: the rules see only windows. */
  lemma NextGenShift(pots: Pots, rules: set<Rule>, d: int)
    requires pots != {}
    ensures Shift(pots, d) != {}
    ensures NextGen(Shift(pots, d), rules) == Shift(NextGen(pots, rules), d)
  {
    ShiftExtremes(pots, d);
    var a, b := NextGen(Shift(pots, d), rules), Shift(NextGen(pots, rules), d);
    forall p ensures p in a <==> p in b {
      ShiftIn(NextGen(pots, rules), d, p);
      InputForShift(pots, d, p - d);
    }
  }

  /** The row after `n` generations, or `None` once an empty row made
      `next_gen` panic. */
  function Gen(pots: Pots, rules: set<Rule>, n: nat): Option<Pots>
  {
    if n == 0 then Some(pots)
    else match Gen(pots, rules, n - 1)
      case None => None
      case Some(q) => if q == {} then None else Some(NextGen(q, rules))
  }

  /** A row that `next_gen` leaves unchanged stays so for ever: stopping at
      the first fixed point loses no later generation. */
  lemma {:induction false} FixedPersists(init: Pots, rules: set<Rule>, i: nat, k: nat)
    requires Gen(init, rules, i).Some? && Gen(init, rules, i).value != {}
    requires NextGen(Gen(init, rules, i).value, rules) == Gen(init, rules, i).value
    requires i <= k
    ensures Gen(init, rules, k) == Gen(init, rules, i)
    decreases k - i
  {
    if k > i {
      FixedPersists(init, rules, i, k - 1);
    }
  }

  /** A row that `next_gen` moves one pot to the right keeps gliding: after
      `k` more generations it is the same row moved `k` pots. */
  lemma {:induction false} Glide(q: Pots, rules: set<Rule>, k: nat)
    requires q != {} && NextGen(q, rules) == Shift(q, 1)
    ensures Gen(q, rules, k) == Some(Shift(q, k))
  {
    if k == 0 {
      ShiftZero(q);
    } else {
      Glide(q, rules, k - 1);
      NextGenShift(q, rules, k - 1);
      ShiftShift(q, 1, k - 1);
    }
  }

  /** `pots.iter().map(|x| x + shift).sum()`, taken from the least pot up. */
  function SumShifted(s: Pots, shift: int): int
    decreases |s|
  {
    if s == {} then 0
    else
      var m := SetMin(s);
      (m + shift) + SumShifted(s - {m}, shift)
  }

  /** The sum does not depend on the order the hash set is visited in:
      any pot may be taken out first. */
  lemma {:induction false} SumShiftedAny(s: Pots, shift: int, x: int)
    requires x in s
    ensures SumShifted(s, shift) == (x + shift) + SumShifted(s - {x}, shift)
    decreases |s|
  {
    var m := SetMin(s);
    if x != m {
      var t := s - {m};
      SumShiftedAny(t, shift, x);
      assert m in s - {x};
      assert SetMin(s - {x}) == m;
      assert (s - {x}) - {m} == t - {x};
    }
  }

  /** Adding `shift` to every pot number is summing the moved row. */
  lemma {:induction false} SumShiftedShift(s: Pots, shift: int)
    ensures SumShifted(s, shift) == SumShifted(Shift(s, shift), 0)
    decreases |s|
  {
    if s != {} {
      var m := SetMin(s);
      ShiftExtremes(s, shift);
      var t := Shift(s, shift);
      forall y ensures y in t - {m + shift} <==> y in Shift(s - {m}, shift) {
        ShiftIn(s, shift, y);
        ShiftIn(s - {m}, shift, y);
      }
      assert t - {m + shift} == Shift(s - {m}, shift);
      SumShiftedShift(s - {m}, shift);
    }
  }

  /** The `d` of `main`: the generation the printed total is for. */
  const Target := 50000000000
  /** The `num_gens` of `main`. */
  const NumGens := 1000

  /** How `main` ends: a panic in `next_gen` or `print_pots` on an empty
      row, a silent
      `return` at generation `gen` when the row stopped changing, or the
      printed total. */
  datatype Outcome = Panicked | Stable(gen: nat) | Total(value: int)

  /** The loop of `main` from generation `i` with row `pots`. */
  ghost function RunFrom(pots: Pots, rules: set<Rule>, i: nat): Outcome
    requires i <= NumGens
    decreases NumGens - i
  {
    if pots == {} then Panicked
    else if i == NumGens then Total(SumShifted(pots, Target - NumGens))
    else if NextGen(pots, rules) == pots then Stable(i)
    else RunFrom(NextGen(pots, rules), rules, i + 1)
  }

  /** `main` after `read_input`: up to `NumGens` generations, stopping at
      the first one that `next_gen` leaves unchanged. */
  method Run(init: Pots, rules: set<Rule>) returns (out: Outcome)
    ensures out == RunFrom(init, rules, 0)
  {
    var pots := init;
    for i := 0 to NumGens
      invariant RunFrom(pots, rules, i) == RunFrom(init, rules, 0)
    {
      if pots == {} {
        return Panicked;
      }
      var next := NextGen(pots, rules);
      if next == pots {
        return Stable(i);
      }
      pots := next;
    }
    if pots == {} {
      return Panicked;
    }
    out := Total(SumShifted(pots, Target - NumGens));
  }

  /** A silent stop happens at a generation before `NumGens` whose row
      `next_gen` leaves unchanged. */
  lemma {:induction false} RunStable(init: Pots, rules: set<Rule>, i: nat, pots: Pots)
    requires i <= NumGens && Gen(init, rules, i) == Some(pots)
    requires RunFrom(pots, rules, i).Stable?
    ensures var g := RunFrom(pots, rules, i).gen;
      i <= g < NumGens && Gen(init, rules, g).Some? && Gen(init, rules, g).value != {}
      && NextGen(Gen(init, rules, g).value, rules) == Gen(init, rules, g).value
    decreases NumGens - i
  {
    if NextGen(pots, rules) != pots {
      GenStep(init, rules, i, pots);
      RunStable(init, rules, i + 1, NextGen(pots, rules));
    }
  }

  /** ... and it is the first such generation. */
  lemma {:induction false} RunStableFirst(init: Pots, rules: set<Rule>, i: nat, pots: Pots)
    requires i <= NumGens && Gen(init, rules, i) == Some(pots)
    requires RunFrom(pots, rules, i).Stable?
    ensures forall j :: i <= j < RunFrom(pots, rules, i).gen ==>
      Gen(init, rules, j).Some? && Gen(init, rules, j).value != {}
      && NextGen(Gen(init, rules, j).value, rules) != Gen(init, rules, j).value
    decreases NumGens - i
  {
    if NextGen(pots, rules) != pots {
      GenStep(init, rules, i, pots);
      RunStableFirst(init, rules, i + 1, NextGen(pots, rules));
    }
  }

  lemma GenStep(init: Pots, rules: set<Rule>, i: nat, pots: Pots)
    requires Gen(init, rules, i) == Some(pots) && pots != {}
    ensures Gen(init, rules, i + 1) == Some(NextGen(pots, rules))
  {
  }

  /** A panic means some generation up to `NumGens` left no plant. */
  lemma {:induction false} RunPanicked(init: Pots, rules: set<Rule>, i: nat, pots: Pots)
    requires i <= NumGens && Gen(init, rules, i) == Some(pots)
    requires RunFrom(pots, rules, i).Panicked?
    ensures exists j :: i <= j <= NumGens && Gen(init, rules, j) == Some({})
    decreases NumGens - i
  {
    if pots != {} {
      RunPanicked(init, rules, i + 1, NextGen(pots, rules));
    }
  }

  /** A printed total is the sum over generation `NumGens` of each pot
      number plus `Target - NumGens`. */
  lemma {:induction false} RunTotal(init: Pots, rules: set<Rule>, i: nat, pots: Pots)
    requires i <= NumGens && Gen(init, rules, i) == Some(pots)
    requires RunFrom(pots, rules, i).Total?
    ensures Gen(init, rules, NumGens).Some? && Gen(init, rules, NumGens).value != {}
    ensures RunFrom(pots, rules, i).value == SumShifted(Gen(init, rules, NumGens).value, Target - NumGens)
    decreases NumGens - i
  {
    if i < NumGens {
      RunTotal(init, rules, i + 1, NextGen(pots, rules));
    }
  }

  /** What the printed total means: when the row at generation `NumGens`
      glides one pot per generation, the total is the sum of the pot
      numbers holding a plant at generation `Target`, reached
      `Target - NumGens` generations later. */
  lemma PrintedTotal(init: Pots, rules: set<Rule>, v: int)
    requires RunFrom(init, rules, 0) == Total(v)
    requires Gen(init, rules, NumGens).Some? && Gen(init, rules, NumGens).value != {}
    requires NextGen(Gen(init, rules, NumGens).value, rules) == Shift(Gen(init, rules, NumGens).value, 1)
    ensures Gen(Gen(init, rules, NumGens).value, rules, Target - NumGens).Some?
    ensures v == SumShifted(Gen(Gen(init, rules, NumGens).value, rules, Target - NumGens).value, 0)
  {
    var q := Gen(init, rules, NumGens).value;
    RunTotal(init, rules, 0, init);
    Glide(q, rules, Target - NumGens);
    SumShiftedShift(q, Target - NumGens);
  }
}
