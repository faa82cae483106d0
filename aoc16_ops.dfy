/** aoc_16: chronal classification, the sixteen operations of the wrist
    device. Each one takes operands `a`, `b` and `c` and a copy of the four
    registers and writes one result into register `c` of the copy. An
    operand named `r` in the operation's name is a register number, one
    named `i` an immediate value. */
module Ops {
  /** `Registers`: the four registers. The puzzle input holds only
      non-negative numbers and no operation makes one negative, so the
      values are naturals. */
  type Registers = r: seq<nat> | |r| == 4 witness [0, 0, 0, 0]

  /** `&` on non-negative numbers, bit by bit from the lowest. */
  function BitAnd(x: nat, y: nat): (r: nat)
    ensures r <= x && r <= y
    decreases x
  {
    if x == 0 || y == 0 then 0
    else 2 * BitAnd(x / 2, y / 2) + (if x % 2 == 1 && y % 2 == 1 then 1 else 0)
  }

  /** `|` on non-negative numbers, bit by bit from the lowest. */
  function BitOr(x: nat, y: nat): (r: nat)
    ensures x <= r && y <= r
    decreases x
  {
    if x == 0 then y
    else if y == 0 then x
    else 2 * BitOr(x / 2, y / 2) + (if x % 2 == 1 || y % 2 == 1 then 1 else 0)
  }

  /** A bit is in the conjunction or in the disjunction as often as it is
      in the two operands: `x & y` plus `x | y` is `x + y`. */
  lemma {:induction false} AndPlusOr(x: nat, y: nat)
    ensures BitAnd(x, y) + BitOr(x, y) == x + y
    decreases x
  {
    if x != 0 && y != 0 {
      AndPlusOr(x / 2, y / 2);
    }
  }

  /** `&` and `|` do not care about the order of their operands, and a
      number combined with itself is that number. */
  lemma {:induction false} BitSymmetric(x: nat, y: nat)
    ensures BitAnd(x, y) == BitAnd(y, x) && BitOr(x, y) == BitOr(y, x)
    ensures BitAnd(x, x) == x && BitOr(x, x) == x
    decreases x
  {
    if x != 0 && y != 0 {
      BitSymmetric(x / 2, y / 2);
    }
    if x != 0 {
      BitSymmetric(x / 2, x / 2);
    }
  }

  /** The 1 or 0 a comparison writes. */
  function Flag(b: bool): nat
  {
    if b then 1 else 0
  }

  /** Every register but `c` keeps its value. */
  predicate Untouched(input: Registers, output: Registers, c: nat)
  {
    forall i :: 0 <= i < 4 && i != c ==> output[i] == input[i]
  }

  function Addr(a: nat, b: nat, c: nat, input: Registers): (r: Registers)
    requires a < 4 && b < 4 && c < 4
    ensures Untouched(input, r, c)
    ensures r[c] == input[a] + input[b]
  {
    input[c := input[a] + input[b]]
  }

  function Addi(a: nat, b: nat, c: nat, input: Registers): (r: Registers)
    requires a < 4 && c < 4
    ensures Untouched(input, r, c)
    ensures r[c] == input[a] + b
  {
    input[c := input[a] + b]
  }

  function Mulr(a: nat, b: nat, c: nat, input: Registers): (r: Registers)
    requires a < 4 && b < 4 && c < 4
    ensures Untouched(input, r, c)
    ensures r[c] == input[a] * input[b]
  {
    input[c := input[a] * input[b]]
  }

  function Muli(a: nat, b: nat, c: nat, input: Registers): (r: Registers)
    requires a < 4 && c < 4
    ensures Untouched(input, r, c)
    ensures r[c] == input[a] * b
  {
    input[c := input[a] * b]
  }

  function Banr(a: nat, b: nat, c: nat, input: Registers): (r: Registers)
    requires a < 4 && b < 4 && c < 4
    ensures Untouched(input, r, c)
    ensures r[c] <= input[a] && r[c] <= input[b]
    ensures r[c] == BitAnd(input[a], input[b])
  {
    input[c := BitAnd(input[a], input[b])]
  }

  function Bani(a: nat, b: nat, c: nat, input: Registers): (r: Registers)
    requires a < 4 && c < 4
    ensures Untouched(input, r, c)
    ensures r[c] <= input[a] && r[c] <= b
    ensures r[c] == BitAnd(input[a], b)
  {
    input[c := BitAnd(input[a], b)]
  }

  function Borr(a: nat, b: nat, c: nat, input: Registers): (r: Registers)
    requires a < 4 && b < 4 && c < 4
    ensures Untouched(input, r, c)
    ensures input[a] <= r[c] && input[b] <= r[c]
    ensures r[c] == BitOr(input[a], input[b])
  {
    input[c := BitOr(input[a], input[b])]
  }

  function Bori(a: nat, b: nat, c: nat, input: Registers): (r: Registers)
    requires a < 4 && c < 4
    ensures Untouched(input, r, c)
    ensures input[a] <= r[c] && b <= r[c]
    ensures r[c] == BitOr(input[a], b)
  {
    input[c := BitOr(input[a], b)]
  }

  function Setr(a: nat, b: nat, c: nat, input: Registers): (r: Registers)
    requires a < 4 && c < 4
    ensures Untouched(input, r, c)
    ensures r[c] == input[a]
  {
    input[c := input[a]]
  }

  function Seti(a: nat, b: nat, c: nat, input: Registers): (r: Registers)
    requires c < 4
    ensures Untouched(input, r, c)
    ensures r[c] == a
  {
    input[c := a]
  }

  function Gtir(a: nat, b: nat, c: nat, input: Registers): (r: Registers)
    requires b < 4 && c < 4
    ensures Untouched(input, r, c)
    ensures r[c] <= 1 && (r[c] == 1 <==> a > input[b])
  {
    input[c := Flag(a > input[b])]
  }

  function Gtri(a: nat, b: nat, c: nat, input: Registers): (r: Registers)
    requires a < 4 && c < 4
    ensures Untouched(input, r, c)
    ensures r[c] <= 1 && (r[c] == 1 <==> input[a] > b)
  {
    input[c := Flag(input[a] > b)]
  }

  function Gtrr(a: nat, b: nat, c: nat, input: Registers): (r: Registers)
    requires a < 4 && b < 4 && c < 4
    ensures Untouched(input, r, c)
    ensures r[c] <= 1 && (r[c] == 1 <==> input[a] > input[b])
  {
    input[c := Flag(input[a] > input[b])]
  }

  function Eqir(a: nat, b: nat, c: nat, input: Registers): (r: Registers)
    requires b < 4 && c < 4
    ensures Untouched(input, r, c)
    ensures r[c] <= 1 && (r[c] == 1 <==> a == input[b])
  {
    input[c := Flag(a == input[b])]
  }

  function Eqri(a: nat, b: nat, c: nat, input: Registers): (r: Registers)
    requires a < 4 && c < 4
    ensures Untouched(input, r, c)
    ensures r[c] <= 1 && (r[c] == 1 <==> input[a] == b)
  {
    input[c := Flag(input[a] == b)]
  }

  function Eqrr(a: nat, b: nat, c: nat, input: Registers): (r: Registers)
    requires a < 4 && b < 4 && c < 4
    ensures Untouched(input, r, c)
    ensures r[c] <= 1 && (r[c] == 1 <==> input[a] == input[b])
  {
    input[c := Flag(input[a] == input[b])]
  }

  /** A register operand reads the register's value: every register form
      is its immediate form given that value. */
  lemma RegisterIsImmediate(a: nat, b: nat, c: nat, input: Registers)
    requires a < 4 && b < 4 && c < 4
    ensures Addr(a, b, c, input) == Addi(a, input[b], c, input)
    ensures Mulr(a, b, c, input) == Muli(a, input[b], c, input)
    ensures Banr(a, b, c, input) == Bani(a, input[b], c, input)
    ensures Borr(a, b, c, input) == Bori(a, input[b], c, input)
    ensures Setr(a, b, c, input) == Seti(input[a], b, c, input)
    ensures Gtrr(a, b, c, input) == Gtri(a, input[b], c, input) == Gtir(input[a], b, c, input)
    ensures Eqrr(a, b, c, input) == Eqri(a, input[b], c, input) == Eqir(input[a], b, c, input)
  {
  }

  /** `setr` and `seti` ignore `b`. */
  lemma IgnoresB(a: nat, b: nat, b': nat, c: nat, input: Registers)
    requires c < 4
    ensures a < 4 ==> Setr(a, b, c, input) == Setr(a, b', c, input)
    ensures Seti(a, b, c, input) == Seti(a, b', c, input)
  {
  }

  /** The sums, products, conjunctions and disjunctions of the register
      forms do not care which operand is `a`, and equality does not either;
      of `a > b` and `b > a` at most one holds. */
  lemma Symmetric(a: nat, b: nat, c: nat, input: Registers)
    requires a < 4 && b < 4 && c < 4
    ensures Addr(a, b, c, input) == Addr(b, a, c, input)
    ensures Mulr(a, b, c, input) == Mulr(b, a, c, input)
    ensures Banr(a, b, c, input) == Banr(b, a, c, input)
    ensures Borr(a, b, c, input) == Borr(b, a, c, input)
    ensures Eqrr(a, b, c, input) == Eqrr(b, a, c, input)
    ensures Gtrr(a, b, c, input)[c] + Gtrr(b, a, c, input)[c] <= 1
  {
    BitSymmetric(input[a], input[b]);
  }
}
