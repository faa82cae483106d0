/** Helpers shared by the puzzle models: an optional value, sums over
    sequences, the existence of a least element, and decimal text. */

module Wrappers {
  /** The conventional optional value (Rust's Option). */
  datatype Option<T> = None | Some(value: T)
}

module Seqs {
  /** Sum of a sequence, folded from the left as `iter().sum()` does. */
  function Sum(s: seq<int>): int
  {
    if s == [] then 0 else Sum(s[..|s| - 1]) + s[|s| - 1]
  }

  lemma {:induction false} SumAppend(a: seq<int>, b: seq<int>)
    ensures Sum(a + b) == Sum(a) + Sum(b)
    decreases |b|
  {
    if b == [] {
      assert a + b == a;
    } else {
      assert (a + b)[..|a + b| - 1] == a + b[..|b| - 1];
      SumAppend(a, b[..|b| - 1]);
    }
  }

  lemma SumSingle(x: int)
    ensures Sum([x]) == x
  {
    assert [x][..0] == [];
  }

  /** The sum of a sequence is the sum before `p`, the element at `p` and
      the sum after it. */
  lemma SumSplit(s: seq<int>, p: nat)
    requires p < |s|
    ensures Sum(s) == Sum(s[..p]) + s[p] + Sum(s[p + 1..])
  {
    var front, back := s[..p + 1], s[p + 1..];
    assert front + back == s;
    SumAppend(front, back);
    assert front[..p] == s[..p];
  }

  /** Replacing one element changes the sum by the difference. */
  lemma {:induction false} SumUpdate(s: seq<int>, i: nat, v: int)
    requires i < |s|
    ensures Sum(s[i := v]) == Sum(s) - s[i] + v
  {
    assert s == s[..i] + [s[i]] + s[i + 1..];
    assert s[i := v] == s[..i] + [v] + s[i + 1..];
    SumAppend(s[..i] + [s[i]], s[i + 1..]);
    SumAppend(s[..i], [s[i]]);
    SumAppend(s[..i] + [v], s[i + 1..]);
    SumAppend(s[..i], [v]);
    SumSingle(s[i]);
    SumSingle(v);
  }

  /** A sum of naturals is a natural. */
  lemma {:induction false} SumNat(s: seq<nat>)
    ensures Sum(s) >= 0
  {
    if s != [] { SumNat(s[..|s| - 1]); }
  }

  /** `iter().max().unwrap()` on a non-empty sequence. */
  function Max(s: seq<int>): (m: int)
    requires s != []
    ensures m in s && forall i :: 0 <= i < |s| ==> s[i] <= m
  {
    if |s| == 1 then s[0]
    else
      var rest := Max(s[1..]);
      assert forall i :: 1 <= i < |s| ==> s[i] == s[1..][i - 1];
      if s[0] >= rest then s[0] else rest
  }

  /** `iter().min().unwrap()` on a non-empty sequence. */
  function Min(s: seq<int>): (m: int)
    requires s != []
    ensures m in s && forall i :: 0 <= i < |s| ==> m <= s[i]
  {
    if |s| == 1 then s[0]
    else
      var rest := Min(s[1..]);
      assert forall i :: 1 <= i < |s| ==> s[i] == s[1..][i - 1];
      if s[0] <= rest then s[0] else rest
  }
}

module Text {
  /** `str::split` on a single separator character: always at least one
      field, none of which contains the separator. */
  function Split(s: string, sep: char): (r: seq<string>)
    ensures |r| >= 1
    ensures forall i :: 0 <= i < |r| ==> sep !in r[i]
  {
    if s == [] then [""]
    else
      var rest := Split(s[1..], sep);
      if s[0] == sep then [""] + rest
      else [[s[0]] + rest[0]] + rest[1..]
  }

  /** The fields joined back with the separator. */
  function Join(parts: seq<string>, sep: char): string
    requires |parts| >= 1
  {
    if |parts| == 1 then parts[0] else parts[0] + [sep] + Join(parts[1..], sep)
  }

  lemma {:induction false} SplitConcat(a: string, b: string, sep: char)
    requires sep !in a
    ensures Split(a + [sep] + b, sep) == [a] + Split(b, sep)
  {
    if a != [] {
      assert (a + [sep] + b)[1..] == a[1..] + [sep] + b;
      SplitConcat(a[1..], b, sep);
      assert [a[0]] + a[1..] == a;
    } else {
      assert a + [sep] + b == [sep] + b;
      assert ([sep] + b)[1..] == b;
    }
  }

  lemma {:induction false} SplitNoSeparator(a: string, sep: char)
    requires sep !in a
    ensures Split(a, sep) == [a]
  {
    if a != [] {
      SplitNoSeparator(a[1..], sep);
      assert [a[0]] + a[1..] == a;
    }
  }

  /** Splitting undoes joining fields free of the separator. */
  lemma {:induction false} SplitJoin(parts: seq<string>, sep: char)
    requires |parts| >= 1 && forall i :: 0 <= i < |parts| ==> sep !in parts[i]
    ensures Split(Join(parts, sep), sep) == parts
  {
    if |parts| == 1 {
      SplitNoSeparator(parts[0], sep);
    } else {
      SplitJoin(parts[1..], sep);
      SplitConcat(parts[0], Join(parts[1..], sep), sep);
      assert [parts[0]] + parts[1..] == parts;
    }
  }

  /** The white space `str::trim` removes: the characters with the
      Unicode `White_Space` property, as `char::is_whitespace` tests. */
  predicate IsSpace(c: char)
  {
    '\t' <= c <= '\r' || c == ' ' || c == '\U{85}' || c == '\U{A0}' || c == '\U{1680}'
    || '\U{2000}' <= c <= '\U{200A}' || c == '\U{2028}' || c == '\U{2029}' || c == '\U{202F}'
    || c == '\U{205F}' || c == '\U{3000}'
  }

  /** `str::trim`: leading and trailing whitespace removed. */
  function Trim(s: string): (r: string)
    ensures r == [] || (!IsSpace(r[0]) && !IsSpace(r[|r| - 1]))
    ensures |r| <= |s|
  {
    TrimEnd(TrimStart(s))
  }

  function TrimStart(s: string): (r: string)
    ensures r == [] || !IsSpace(r[0])
    ensures |r| <= |s| && r == s[|s| - |r|..]
    ensures forall k :: 0 <= k < |s| - |r| ==> IsSpace(s[k])
  {
    if s != [] && IsSpace(s[0]) then TrimStart(s[1..]) else s
  }

  function TrimEnd(s: string): (r: string)
    ensures r == [] || !IsSpace(r[|r| - 1])
    ensures |r| <= |s| && r == s[..|r|]
    ensures forall k :: |r| <= k < |s| ==> IsSpace(s[k])
    ensures s != [] && !IsSpace(s[0]) ==> r != [] && r[0] == s[0]
  {
    if s != [] && IsSpace(s[|s| - 1]) then TrimEnd(s[..|s| - 1]) else s
  }

  /** `trim` cuts white space only: what it keeps is a stretch `s[i..j]`
      with nothing but white space before `i` and from `j` on. */
  lemma TrimCut(s: string) returns (i: nat, j: nat)
    ensures i <= j <= |s| && Trim(s) == s[i..j]
    ensures forall k :: 0 <= k < i ==> IsSpace(s[k])
    ensures forall k :: j <= k < |s| ==> IsSpace(s[k])
  {
    var t := TrimStart(s);
    i := |s| - |t|;
    j := i + |TrimEnd(t)|;
    assert forall k :: j <= k < |s| ==> s[k] == t[k - i];
  }

  /** Trimming a padded word gives the word back. */
  lemma {:induction false} TrimPadded(pad: string, w: string)
    requires forall i :: 0 <= i < |pad| ==> IsSpace(pad[i])
    requires w != [] && !IsSpace(w[0]) && !IsSpace(w[|w| - 1])
    ensures Trim(pad + w) == w
  {
    if pad != [] {
      assert (pad + w)[1..] == pad[1..] + w;
      TrimPadded(pad[1..], w);
    } else {
      assert pad + w == w;
    }
  }
}

module Arith {
  lemma {:induction false} MulAtLeast(k: int, n: int)
    requires k >= 1 && n > 0
    ensures k * n >= n
    decreases k
  {
    if k > 1 {
      MulAtLeast(k - 1, n);
      assert k * n == (k - 1) * n + n;
    }
  }

  /** Euclidean division is unique: quotient and remainder are determined. */
  lemma DivModUnique(x: int, q: int, r: int, n: int)
    requires n > 0 && 0 <= r < n && x == q * n + r
    ensures x % n == r && x / n == q
  {
    var q', r' := x / n, x % n;
    assert x == q' * n + r';
    assert (q' - q) * n == r - r';
    if q' > q {
      MulAtLeast(q' - q, n);
    } else if q' < q {
      MulAtLeast(q - q', n);
    }
  }

  /** Counting on by one from a remainder is counting on from the number. */
  lemma ModSucc(a: nat, n: nat)
    requires n > 0
    ensures (a % n + 1) % n == (a + 1) % n
  {
    var q, r := a / n, a % n;
    assert a == q * n + r;
    if r + 1 < n {
      DivModUnique(a + 1, q, r + 1, n);
      DivModUnique(r + 1, 0, r + 1, n);
    } else {
      assert (q + 1) * n == q * n + n;
      DivModUnique(a + 1, q + 1, 0, n);
      DivModUnique(r + 1, 1, 0, n);
    }
  }

  lemma ModShift(a: nat, n: nat)
    requires n > 0
    ensures (a + n) % n == a % n
  {
    assert a == (a / n) * n + a % n;
    DivModUnique(a + n, a / n + 1, a % n, n);
  }

  /** Multiplying by a natural keeps the order. */
  lemma {:induction false} MulLe(a: nat, b: int, c: int)
    requires b <= c
    ensures a * b <= a * c
  {
    if a > 0 {
      MulLe(a - 1, b, c);
      assert a * b == (a - 1) * b + b;
      assert a * c == (a - 1) * c + c;
    }
  }

  lemma MulSucc(a: int, b: int)
    ensures a * (b + 1) == a * b + a
  {
  }

  /** Row-major indexing: an in-range (column, row) pair of a grid `width`
      columns wide and `height` rows high lands inside the grid, and
      different pairs land on different cells. */
  lemma RowMajor(width: nat, height: nat, col: int, row: int, col': int, row': int)
    requires 0 <= col < width && 0 <= row < height
    requires 0 <= col' < width && 0 <= row' < height
    ensures 0 <= width * row + col < width * height
    ensures width * row + col == width * row' + col' ==> col == col' && row == row'
  {
    MulLe(width, row + 1, height);
    MulSucc(width, row);
    if row < row' {
      MulLe(width, row + 1, row');
    } else if row' < row {
      MulLe(width, row' + 1, row);
      MulSucc(width, row');
    }
  }
}

module Orders {
  /** Some element of a non-empty set, for the loops that visit a hash
      set or the keys of a hash map in an unspecified order. */
  method Pick<T>(s: set<T>) returns (x: T)
    requires s != {}
    ensures x in s
  {
    x :| x in s;
  }

  /** Every non-empty finite set has a least element under a total preorder.
      Used wherever the source takes `iter().min()` of a set. */
  lemma {:induction false} Minimum<T>(s: set<T>, le: (T, T) -> bool) returns (m: T)
    requires s != {}
    requires forall a, b :: le(a, b) || le(b, a)
    requires forall a, b, c :: le(a, b) && le(b, c) ==> le(a, c)
    ensures m in s && forall x :: x in s ==> le(m, x)
    decreases |s|
  {
    var x :| x in s;
    if s == {x} {
      m := x;
      assert le(x, x);
    } else {
      var rest := Minimum(s - {x}, le);
      if le(rest, x) {
        m := rest;
      } else {
        m := x;
        forall y | y in s ensures le(x, y) {
          if y != x {
            assert le(x, rest) && le(rest, y);
          }
        }
      }
    }
  }
}

module Decimal {
  import opened Wrappers

  predicate IsDigit(c: char) { '0' <= c <= '9' }

  function DigitValue(c: char): nat
    requires IsDigit(c)
  {
    c as int - '0' as int
  }

  predicate AllDigits(s: string) { forall i :: 0 <= i < |s| ==> IsDigit(s[i]) }

  /** The value of a string of decimal digits, most significant first. */
  function Value(s: string): nat
    requires AllDigits(s)
  {
    if s == [] then 0 else Value(s[..|s| - 1]) * 10 + DigitValue(s[|s| - 1])
  }

  /** Rust's `str::parse::<usize>()`: an optional '+' and at least one digit. */
  function ParseNat(s: string): (r: Option<nat>)
    ensures r.Some? ==> s != [] && s != "+"
  {
    var digits := if s != [] && s[0] == '+' then s[1..] else s;
    if digits != [] && AllDigits(digits) then Some(Value(digits)) else None
  }

  /** Rust's `str::parse::<i32>()` without the width limit: an optional sign
      and at least one digit. */
  function ParseInt(s: string): (r: Option<int>)
  {
    if s != [] && s[0] == '-' then
      (if |s| > 1 && AllDigits(s[1..]) then var v: int := -(Value(s[1..]) as int); Some(v) else None)
    else
      match ParseNat(s)
      case Some(n) => Some(n as int)
      case None => None
  }

  /** Decimal rendering of a natural, as `to_string()` gives it. */
  function Show(n: nat): (s: string)
    ensures s != [] && AllDigits(s)
    ensures |s| > 1 ==> s[0] != '0'
  {
    if n < 10 then ['0' + n as char]
    else Show(n / 10) + ['0' + (n % 10) as char]
  }

  lemma {:induction false} ValueShow(n: nat)
    ensures Value(Show(n)) == n
  {
    if n >= 10 {
      var s := Show(n);
      assert s[..|s| - 1] == Show(n / 10);
      ValueShow(n / 10);
    }
  }

  /** Parsing what `Show` renders gives the number back. */
  lemma ParseShow(n: nat)
    ensures ParseNat(Show(n)) == Some(n)
    ensures ParseInt(Show(n)) == Some(n as int)
  {
    ValueShow(n);
  }

  /** Signed rendering: a leading '-' for negative numbers. */
  function ShowInt(i: int): (s: string)
    ensures s != []
  {
    if i < 0 then "-" + Show(-i) else Show(i)
  }

  lemma ParseShowInt(i: int)
    ensures ParseInt(ShowInt(i)) == Some(i)
  {
    if i < 0 {
      var t := Show(-i);
      var s := "-" + t;
      assert s[1..] == t;
      ValueShow(-i);
      assert ParseInt(s) == Some(-(Value(t) as int));
    } else {
      ParseShow(i);
    }
  }
}
