/** aoc_16: chronal classification, the device. Samples show the registers
    before and after one instruction with an unknown opcode; the samples
    are used to count the ambiguous ones and to work out which opcode is
    which operation, and the program is then run with that table. */
module Device {
  import opened Wrappers
  import Ops

  datatype Instruction = Instruction(opcode: nat, a: nat, b: nat, c: nat)

  datatype Sample = Sample(before: Ops.Registers, after: Ops.Registers, instruction: Instruction)

  /** `Operation`: the names of the sixteen operations. */
  datatype Operation =
    | Addr | Addi | Mulr | Muli | Banr | Bani | Borr | Bori
    | Setr | Seti | Gtir | Gtri | Gtrr | Eqir | Eqri | Eqrr

  /** The keys of `init_operations`, in the order they are inserted. */
  const Operations: seq<Operation> :=
    [Addr, Addi, Mulr, Muli, Banr, Bani, Borr, Bori, Setr, Seti, Gtir, Gtri, Gtrr, Eqir, Eqri, Eqrr]

  /** Where an operation sits in `Operations`. */
  function Index(op: Operation): (i: nat)
    ensures i < |Operations| && Operations[i] == op
  {
    match op
    case Addr => 0 case Addi => 1 case Mulr => 2 case Muli => 3
    case Banr => 4 case Bani => 5 case Borr => 6 case Bori => 7
    case Setr => 8 case Seti => 9 case Gtir => 10 case Gtri => 11
    case Gtrr => 12 case Eqir => 13 case Eqri => 14 case Eqrr => 15
  }

  /** `init_operations` holds every operation, each once. */
  lemma OperationsComplete()
    ensures |Operations| == 16
    ensures forall op :: op in Operations
    ensures forall i :: 0 <= i < 16 ==> Index(Operations[i]) == i
  {
    forall op ensures op in Operations {
      assert Operations[Index(op)] == op;
    }
  }

  lemma AllOperations()
    ensures forall op :: op in Operations
  {
    forall op ensures op in Operations {
      assert Operations[Index(op)] == op;
    }
  }

  /** Operand `a` is a register number. */
  predicate ReadsA(op: Operation)
  {
    !(op == Seti || op == Gtir || op == Eqir)
  }

  /** Operand `b` is a register number. */
  predicate ReadsB(op: Operation)
  {
    op == Addr || op == Mulr || op == Banr || op == Borr || op == Gtir || op == Gtrr || op == Eqir || op == Eqrr
  }

  /** Every operand used as a register number indexes the four registers;
      any other index panics. */
  predicate Fits(op: Operation, a: nat, b: nat, c: nat)
  {
    c < 4 && (ReadsA(op) ==> a < 4) && (ReadsB(op) ==> b < 4)
  }

  /** The function `init_operations` maps `op` to, applied. Only register
      `c` can change. */
  function Exec(op: Operation, a: nat, b: nat, c: nat, input: Ops.Registers): (r: Ops.Registers)
    requires Fits(op, a, b, c)
    ensures forall i :: 0 <= i < 4 && i != c ==> r[i] == input[i]
  {
    match op
    case Addr => Ops.Addr(a, b, c, input)
    case Addi => Ops.Addi(a, b, c, input)
    case Mulr => Ops.Mulr(a, b, c, input)
    case Muli => Ops.Muli(a, b, c, input)
    case Banr => Ops.Banr(a, b, c, input)
    case Bani => Ops.Bani(a, b, c, input)
    case Borr => Ops.Borr(a, b, c, input)
    case Bori => Ops.Bori(a, b, c, input)
    case Setr => Ops.Setr(a, b, c, input)
    case Seti => Ops.Seti(a, b, c, input)
    case Gtir => Ops.Gtir(a, b, c, input)
    case Gtri => Ops.Gtri(a, b, c, input)
    case Gtrr => Ops.Gtrr(a, b, c, input)
    case Eqir => Ops.Eqir(a, b, c, input)
    case Eqri => Ops.Eqri(a, b, c, input)
    case Eqrr => Ops.Eqrr(a, b, c, input)
  }

  /** The comparisons write 1 when they hold and 0 otherwise. */
  lemma ComparisonsAreFlags(op: Operation, a: nat, b: nat, c: nat, input: Ops.Registers)
    requires Fits(op, a, b, c) && op in [Gtir, Gtri, Gtrr, Eqir, Eqri, Eqrr]
    ensures Exec(op, a, b, c, input)[c] <= 1
    ensures op == Gtir ==> (Exec(op, a, b, c, input)[c] == 1 <==> a > input[b])
    ensures op == Gtri ==> (Exec(op, a, b, c, input)[c] == 1 <==> input[a] > b)
    ensures op == Gtrr ==> (Exec(op, a, b, c, input)[c] == 1 <==> input[a] > input[b])
    ensures op == Eqir ==> (Exec(op, a, b, c, input)[c] == 1 <==> a == input[b])
    ensures op == Eqri ==> (Exec(op, a, b, c, input)[c] == 1 <==> input[a] == b)
    ensures op == Eqrr ==> (Exec(op, a, b, c, input)[c] == 1 <==> input[a] == input[b])
  {
  }

  /** Every operation runs on a sample, so all its operands must be
      register numbers. */
  predicate SampleFits(s: Sample)
  {
    s.instruction.a < 4 && s.instruction.b < 4 && s.instruction.c < 4
  }

  /** `op` maps the sample's `before` to its `after`. */
  predicate Reproduces(op: Operation, s: Sample)
    requires SampleFits(s)
  {
    Exec(op, s.instruction.a, s.instruction.b, s.instruction.c, s.before) == s.after
  }

  predicate AllFit(samples: seq<Sample>)
  {
    forall i :: 0 <= i < |samples| ==> SampleFits(samples[i])
  }

  /** The operations a sample is consistent with. */
  function Matching(s: Sample): (r: set<Operation>)
    requires SampleFits(s)
    ensures r <= set op | op in Operations
  {
    set op | op in Operations && Reproduces(op, s)
  }

  lemma {:induction false} CardinalityOfElements<T>(s: seq<T>)
    ensures |set x | x in s| <= |s|
  {
    if s != [] {
      var t := s[..|s| - 1];
      var last := s[|s| - 1];
      CardinalityOfElements(t);
      assert s == t + [last];
      assert (set x | x in s) == (set x | x in t) + {last};
    }
  }

  /** A sample matches at most the sixteen operations. */
  lemma MatchingAtMost16(s: Sample)
    requires SampleFits(s)
    ensures |Matching(s)| <= 16
  {
    var all := set op | op in Operations;
    CardinalityOfElements(Operations);
    assert all == Matching(s) + (all - Matching(s));
  }

  /** Three or more operations reproduce the sample. */
  predicate IsAmbiguous(s: Sample)
    requires SampleFits(s)
  {
    |Matching(s)| >= 3
  }

  /** `part_1`: the number of samples that three or more operations
      reproduce. */
  function Part1(samples: seq<Sample>): (r: nat)
    requires AllFit(samples)
    ensures r <= |samples|
    decreases |samples|
  {
    if samples == [] then 0
    else
      var n := |samples| - 1;
      Part1(samples[..n]) + (if IsAmbiguous(samples[n]) then 1 else 0)
  }

  /** The ambiguous samples among the first `n`, by position. */
  ghost function Ambiguous(samples: seq<Sample>, n: nat): set<nat>
    requires n <= |samples| && AllFit(samples)
  {
    set i | 0 <= i < n && IsAmbiguous(samples[i])
  }

  lemma AmbiguousPrefix(samples: seq<Sample>, n: nat)
    requires n <= |samples| && AllFit(samples)
    ensures Ambiguous(samples[..n], n) == Ambiguous(samples, n)
  {
    var init := samples[..n];
    forall i | 0 <= i < n ensures init[i] == samples[i] {
    }
  }

  lemma AmbiguousStep(samples: seq<Sample>, n: nat)
    requires n < |samples| && AllFit(samples)
    ensures Ambiguous(samples, n + 1) == Ambiguous(samples, n) + (if IsAmbiguous(samples[n]) then {n} else {})
  {
    if IsAmbiguous(samples[n]) {
      assert n in Ambiguous(samples, n + 1);
    }
  }

  /** `part_1` counts exactly the ambiguous samples. */
  lemma {:induction false} Part1Counts(samples: seq<Sample>)
    requires AllFit(samples)
    ensures Part1(samples) == |Ambiguous(samples, |samples|)|
    decreases |samples|
  {
    if samples != [] {
      var n := |samples| - 1;
      Part1Counts(samples[..n]);
      AmbiguousPrefix(samples, n);
      AmbiguousStep(samples, n);
    }
  }

  /** `all_opcodes`. */
  const AllCodes: set<nat> := {0, 1, 2, 3, 4, 5, 6, 7, 8, 9, 10, 11, 12, 13, 14, 15}

  lemma CodesBelow16()
    ensures forall k: nat :: k in AllCodes <==> k < 16
  {
    forall k: nat | k < 16 ensures k in AllCodes {
    }
  }

  /** The opcodes of the first `n` samples that `op` does not reproduce. */
  ghost function Refuted(op: Operation, samples: seq<Sample>, n: nat): set<nat>
    requires n <= |samples| && AllFit(samples)
  {
    set i | 0 <= i < n && !Reproduces(op, samples[i]) :: samples[i].instruction.opcode
  }

  lemma RefutedStep(op: Operation, samples: seq<Sample>, n: nat)
    requires n < |samples| && AllFit(samples)
    ensures Refuted(op, samples, n + 1)
      == Refuted(op, samples, n) + (if Reproduces(op, samples[n]) then {} else {samples[n].instruction.opcode})
  {
    var s := samples[n];
    if !Reproduces(op, s) {
      assert s.instruction.opcode in Refuted(op, samples, n + 1);
    }
  }

  /** The candidates after every sample has been looked at: all opcodes
      except those some failing sample carried. */
  ghost function Eliminated(samples: seq<Sample>): map<Operation, set<nat>>
    requires AllFit(samples)
  {
    map op | op in Operations :: AllCodes - Refuted(op, samples, |samples|)
  }

  /** Every operation has a candidate set. */
  ghost predicate Total(cands: map<Operation, set<nat>>)
  {
    forall op :: op in cands
  }

  /** The opcodes that another operation than `k` has as its only
      candidate. */
  ghost function Claimed(cands: map<Operation, set<nat>>, k: Operation): set<nat>
  {
    set op, x | op in cands && op != k && x in cands[op] && cands[op] == {x} :: x
  }

  /** One propagation pass: every singleton's opcode is removed from all
      the other operations. */
  ghost function Propagate(cands: map<Operation, set<nat>>): (r: map<Operation, set<nat>>)
    ensures r.Keys == cands.Keys
  {
    map k | k in cands :: cands[k] - Claimed(cands, k)
  }

  ghost function Passes(cands: map<Operation, set<nat>>, n: nat): (r: map<Operation, set<nat>>)
    ensures r.Keys == cands.Keys
  {
    if n == 0 then cands else Propagate(Passes(cands, n - 1))
  }

  /** Candidate sets only ever shrink. */
  lemma {:induction false} PassesShrink(cands: map<Operation, set<nat>>, n: nat)
    ensures forall k :: k in cands ==> Passes(cands, n)[k] <= cands[k]
  {
    if n > 0 {
      PassesShrink(cands, n - 1);
    }
  }

  /** The operation `table[k]` holds according to the final candidates:
      the operation whose only candidate is `k`, or `addr` when there is
      none. */
  ghost predicate Claims(final: map<Operation, set<nat>>, k: nat, op: Operation)
    requires Total(final)
  {
    if exists o :: final[o] == {k} then final[op] == {k} else op == Addr
  }

  /** `resolve_opcodes`: `None` is the panic when some operation does not
      end with exactly one candidate. */
  method ResolveOpcodes(samples: seq<Sample>) returns (table: Option<seq<Operation>>)
    requires AllFit(samples)
    ensures Total(Passes(Eliminated(samples), 16))
    ensures table.Some? <==> forall op :: |Passes(Eliminated(samples), 16)[op]| == 1
    ensures table.Some? ==> (|table.value| == 16
      && forall k :: 0 <= k < 16 ==> Claims(Passes(Eliminated(samples), 16), k, table.value[k]))
  {
    var start := EliminateAll(samples);
    var cands := PropagateAll(start);
    var singular := forall op :: op in Operations ==> |cands[op]| == 1;
    if !singular {
      return None;
    }
    AllOperations();
    var result := Fill(cands);
    table := Some(result);
  }

  /** The `for _i in 0..16` loop of `resolve_opcodes`. */
  method PropagateAll(start: map<Operation, set<nat>>) returns (cands: map<Operation, set<nat>>)
    requires Total(start)
    requires forall op :: start[op] <= AllCodes
    ensures Total(cands) && cands == Passes(start, 16)
    ensures forall op :: cands[op] <= AllCodes
  {
    cands := start;
    for pass := 0 to 16
      invariant cands == Passes(start, pass)
    {
      cands := PropagateOnce(cands);
    }
    PassesShrink(start, 16);
  }

  /** The `for sample in samples` loop of `resolve_opcodes`, from every
      operation having every opcode. */
  method EliminateAll(samples: seq<Sample>) returns (cands: map<Operation, set<nat>>)
    requires AllFit(samples)
    ensures Total(cands) && cands == Eliminated(samples)
    ensures forall op :: cands[op] <= AllCodes
  {
    OperationsComplete();
    cands := map op | op in Operations :: AllCodes;
    for i := 0 to |samples|
      invariant forall op :: op in cands && cands[op] == AllCodes - Refuted(op, samples, i)
    {
      var next := Eliminate(cands, samples[i]);
      forall op ensures next[op] == AllCodes - Refuted(op, samples, i + 1) {
        RefutedStep(op, samples, i);
      }
      cands := next;
    }
  }

  /** The `for_each` over one sample: every operation that does not
      reproduce it loses the sample's opcode. */
  function Eliminate(cands: map<Operation, set<nat>>, s: Sample): (r: map<Operation, set<nat>>)
    requires SampleFits(s)
    ensures r.Keys == cands.Keys
  {
    map op | op in cands :: if Reproduces(op, s) then cands[op] else cands[op] - {s.instruction.opcode}
  }

  /** The only element of a singleton: `codes.iter().nth(0).unwrap()`. */
  function Only(s: set<nat>): (x: nat)
    requires |s| == 1
    ensures s == {x}
  {
    var x :| x in s;
    assert s - {x} == {} by {
      assert |s - {x}| == 0;
    }
    assert s == {x};
    var y :| s == {y}; y
  }

  /** `to_remove`: every singleton operation with its opcode, over the
      operations in `ops`. */
  function Singletons(cands: map<Operation, set<nat>>, ops: seq<Operation>): (r: seq<(Operation, nat)>)
    requires forall op :: op in ops ==> op in cands
    ensures forall u :: 0 <= u < |r| ==> r[u].0 in ops && cands[r[u].0] == {r[u].1}
    ensures forall op, x :: op in ops && cands[op] == {x} ==> (op, x) in r
    decreases |ops|
  {
    if ops == [] then []
    else
      var rest := Singletons(cands, ops[1..]);
      var op := ops[0];
      if |cands[op]| == 1 then [(op, Only(cands[op]))] + rest else rest
  }

  /** The opcodes removed from `k` by the first `t` entries of `toRemove`. */
  ghost function Removed(toRemove: seq<(Operation, nat)>, t: nat, k: Operation): set<nat>
    requires t <= |toRemove|
  {
    set u | 0 <= u < t && toRemove[u].0 != k :: toRemove[u].1
  }

  lemma RemovedStep(toRemove: seq<(Operation, nat)>, t: nat, k: Operation)
    requires t < |toRemove|
    ensures Removed(toRemove, t + 1, k)
      == Removed(toRemove, t, k) + (if toRemove[t].0 != k then {toRemove[t].1} else {})
  {
    if toRemove[t].0 != k {
      assert toRemove[t].1 in Removed(toRemove, t + 1, k);
    }
  }

  /** One of the sixteen passes: `to_remove` is taken before anything is
      removed, so the pass is the order-free `Propagate`. */
  method PropagateOnce(cands: map<Operation, set<nat>>) returns (r: map<Operation, set<nat>>)
    requires Total(cands)
    ensures r == Propagate(cands)
  {
    AllOperations();
    var toRemove := Singletons(cands, Operations);
    r := RemoveAll(cands, toRemove);
    forall k ensures r[k] == Propagate(cands)[k] {
      RemovedIsClaimed(cands, toRemove, k);
    }
  }

  /** The `for (op, opcode) in to_remove` loop. */
  method RemoveAll(cands: map<Operation, set<nat>>, toRemove: seq<(Operation, nat)>) returns (r: map<Operation, set<nat>>)
    requires Total(cands)
    ensures forall k :: k in r && r[k] == cands[k] - Removed(toRemove, |toRemove|, k)
  {
    r := cands;
    for t := 0 to |toRemove|
      invariant forall k :: k in r && r[k] == cands[k] - Removed(toRemove, t, k)
    {
      var (op, code) := toRemove[t];
      var next := RemoveElsewhere(r, op, code);
      forall k ensures next[k] == cands[k] - Removed(toRemove, t + 1, k) {
        RemovedStep(toRemove, t, k);
      }
      r := next;
    }
  }

  lemma RemovedIsClaimed(cands: map<Operation, set<nat>>, toRemove: seq<(Operation, nat)>, k: Operation)
    requires Total(cands)
    requires forall u :: 0 <= u < |toRemove| ==> cands[toRemove[u].0] == {toRemove[u].1}
    requires forall op, x :: cands[op] == {x} ==> (op, x) in toRemove
    ensures Removed(toRemove, |toRemove|, k) == Claimed(cands, k)
  {
    forall x | x in Claimed(cands, k) ensures x in Removed(toRemove, |toRemove|, k) {
      var op :| op in cands && op != k && x in cands[op] && cands[op] == {x};
      var u :| 0 <= u < |toRemove| && toRemove[u] == (op, x);
    }
  }

  /** `ops_to_opcodes.iter_mut().for_each(..)`: `code` leaves every
      operation but `op`. */
  function RemoveElsewhere(cands: map<Operation, set<nat>>, op: Operation, code: nat): (r: map<Operation, set<nat>>)
    ensures r.Keys == cands.Keys
  {
    map k | k in cands :: if k != op then cands[k] - {code} else cands[k]
  }

  /** `opcodes_to_funcs`: sixteen times `addr`, then each operation written
      at its only opcode. */
  method Fill(cands: map<Operation, set<nat>>) returns (table: seq<Operation>)
    requires Total(cands)
    requires forall op :: |cands[op]| == 1 && cands[op] <= AllCodes
    ensures |table| == 16 && forall k :: 0 <= k < 16 ==> Claims(cands, k, table[k])
  {
    CodesBelow16();
    table := seq(16, _ => Addr);
    for j := 0 to 16
      invariant |table| == 16
      invariant forall k :: 0 <= k < 16 ==> table[k] == Addr || cands[table[k]] == {k}
      invariant forall u :: 0 <= u < j ==> cands[table[Only(cands[Operations[u]])]] == cands[Operations[u]]
    {
      var op := Operations[j];
      var code := Only(cands[op]);
      assert code in AllCodes;
      table := table[code := op];
    }
    Written(cands, table);
  }

  lemma Written(cands: map<Operation, set<nat>>, table: seq<Operation>)
    requires Total(cands) && forall op :: |cands[op]| == 1 && cands[op] <= AllCodes
    requires |table| == 16
    requires forall k :: 0 <= k < 16 ==> table[k] == Addr || cands[table[k]] == {k}
    requires forall u :: 0 <= u < 16 ==> cands[table[Only(cands[Operations[u]])]] == cands[Operations[u]]
    ensures forall k :: 0 <= k < 16 ==> Claims(cands, k, table[k])
  {
    forall k | 0 <= k < 16 ensures Claims(cands, k, table[k]) {
      if exists o :: cands[o] == {k} {
        CodesBelow16();
        var o :| cands[o] == {k};
        var u := Index(o);
        assert Only(cands[Operations[u]]) == k;
      }
    }
  }

  /** A one-to-one assignment of opcodes below 16 under which every sample
      is reproduced by the operation its opcode stands for. */
  ghost predicate Explains(sigma: map<Operation, nat>, samples: seq<Sample>)
    requires AllFit(samples)
  {
    (forall op :: op in sigma && sigma[op] < 16)
    && (forall o1, o2 :: o1 in sigma && o2 in sigma && o1 != o2 ==> sigma[o1] != sigma[o2])
    && (forall op, i :: op in sigma && 0 <= i < |samples| && samples[i].instruction.opcode == sigma[op] ==> Reproduces(op, samples[i]))
  }

  /** No sample refutes the true opcode of an operation... */
  lemma EliminatedKeeps(sigma: map<Operation, nat>, samples: seq<Sample>)
    requires AllFit(samples) && Explains(sigma, samples)
    ensures forall op :: op in Eliminated(samples) && sigma[op] in Eliminated(samples)[op]
  {
    AllOperations();
    CodesBelow16();
    forall op ensures sigma[op] in Eliminated(samples)[op] {
      assert forall i :: 0 <= i < |samples| && samples[i].instruction.opcode == sigma[op] ==> Reproduces(op, samples[i]);
      assert sigma[op] !in Refuted(op, samples, |samples|);
    }
  }

  /** ... and no pass removes it, since no other operation can have it as
      its only candidate. */
  lemma {:induction false} PassesKeep(sigma: map<Operation, nat>, cands: map<Operation, set<nat>>, n: nat)
    requires forall op :: op in sigma
    requires forall o1, o2 :: o1 != o2 ==> sigma[o1] != sigma[o2]
    requires forall op :: op in cands && sigma[op] in cands[op]
    ensures forall op :: sigma[op] in Passes(cands, n)[op]
  {
    if n > 0 {
      PassesKeep(sigma, cands, n - 1);
      var c := Passes(cands, n - 1);
      forall op ensures sigma[op] in Propagate(c)[op] {
        assert forall o :: o in c && o != op ==> sigma[o] in c[o] && sigma[o] != sigma[op];
        assert sigma[op] !in Claimed(c, op);
      }
    }
  }

  /** With one candidate left per operation, that candidate is the true
      opcode. */
  lemma FinalIsSigma(sigma: map<Operation, nat>, final: map<Operation, set<nat>>)
    requires Total(final) && forall op :: op in sigma
    requires forall op :: |final[op]| == 1 && sigma[op] in final[op]
    ensures forall op :: final[op] == {sigma[op]}
  {
    forall op ensures final[op] == {sigma[op]} {
      var x := Only(final[op]);
    }
  }

  /** A table built from the true opcodes maps each back to its operation. */
  lemma TableIsSigma(sigma: map<Operation, nat>, final: map<Operation, set<nat>>, table: seq<Operation>)
    requires Total(final) && forall op :: op in sigma && sigma[op] < 16
    requires forall o1, o2 :: o1 != o2 ==> sigma[o1] != sigma[o2]
    requires forall op :: final[op] == {sigma[op]}
    requires |table| == 16 && forall k :: 0 <= k < 16 ==> Claims(final, k, table[k])
    ensures forall op :: table[sigma[op]] == op
  {
    forall op ensures table[sigma[op]] == op {
      var k := sigma[op];
      assert final[op] == {k};
      assert Claims(final, k, table[k]);
      assert final[table[k]] == {k};
      assert sigma[table[k]] == k;
    }
  }

  /** When the samples are explained by a one-to-one assignment and
      `resolve_opcodes` does not panic, its table is that assignment:
      opcode `sigma[op]` runs `op`. */
  lemma ResolvedTable(sigma: map<Operation, nat>, samples: seq<Sample>, table: seq<Operation>)
    requires AllFit(samples) && Explains(sigma, samples)
    requires Total(Passes(Eliminated(samples), 16))
    requires forall op :: |Passes(Eliminated(samples), 16)[op]| == 1
    requires |table| == 16 && forall k :: 0 <= k < 16 ==> Claims(Passes(Eliminated(samples), 16), k, table[k])
    ensures forall op :: table[sigma[op]] == op
  {
    var final := Passes(Eliminated(samples), 16);
    EliminatedKeeps(sigma, samples);
    PassesKeep(sigma, Eliminated(samples), 16);
    FinalIsSigma(sigma, final);
    TableIsSigma(sigma, final, table);
  }

  /** One instruction of `part_2`: `None` when the opcode is past the
      sixteen entries of the table or an operand is not a register the
      operation reads. */
  function Step(table: seq<Operation>, ins: Instruction, regs: Ops.Registers): Option<Ops.Registers>
    requires |table| == 16
  {
    if ins.opcode < 16 && Fits(table[ins.opcode], ins.a, ins.b, ins.c) then
      Some(Exec(table[ins.opcode], ins.a, ins.b, ins.c, regs))
    else None
  }

  /** The program run from `regs`, or `None` at the first panic. */
  function RunProgram(table: seq<Operation>, program: seq<Instruction>, regs: Ops.Registers): Option<Ops.Registers>
    requires |table| == 16
    decreases |program|
  {
    if program == [] then Some(regs)
    else match Step(table, program[0], regs)
      case None => None
      case Some(next) => RunProgram(table, program[1..], next)
  }

  /** Running two programs one after the other is running their
      concatenation. */
  lemma {:induction false} RunAppend(table: seq<Operation>, p: seq<Instruction>, q: seq<Instruction>, regs: Ops.Registers)
    requires |table| == 16
    ensures RunProgram(table, p + q, regs) ==
      match RunProgram(table, p, regs)
      case None => None
      case Some(mid) => RunProgram(table, q, mid)
    decreases |p|
  {
    if p == [] {
      assert p + q == q;
    } else {
      assert (p + q)[0] == p[0] && (p + q)[1..] == p[1..] + q;
      match Step(table, p[0], regs)
      case None =>
      case Some(next) => RunAppend(table, p[1..], q, next);
    }
  }

  /** `part_2` after `resolve_opcodes`: the registers start at zero and
      each instruction replaces them with the result of its operation. */
  method Part2(table: seq<Operation>, program: seq<Instruction>) returns (r: Option<Ops.Registers>)
    requires |table| == 16
    ensures r == RunProgram(table, program, [0, 0, 0, 0])
  {
    var regs: Ops.Registers := [0, 0, 0, 0];
    for i := 0 to |program|
      invariant RunProgram(table, program[i..], regs) == RunProgram(table, program, [0, 0, 0, 0])
    {
      assert program[i..][1..] == program[i + 1..];
      var next := Step(table, program[i], regs);
      if next.None? {
        return None;
      }
      regs := next.value;
    }
    assert program[|program|..] == [];
    r := Some(regs);
  }
}
