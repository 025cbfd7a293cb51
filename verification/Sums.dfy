/** Finite sums over the reals, and the rearrangements that the kernels' loop orders amount to. */
module Sums {
  import opened IndexMath

  function Sum(v: seq<real>): real {
    if v == [] then 0.0 else Sum(v[..|v| - 1]) + v[|v| - 1]
  }

  lemma {:induction false} SumConcat(a: seq<real>, b: seq<real>)
    ensures Sum(a + b) == Sum(a) + Sum(b)
  {
    if b == [] {
      assert a + b == a;
    } else {
      SumConcat(a, b[..|b| - 1]);
      assert (a + b)[..|a + b| - 1] == a + b[..|b| - 1];
    }
  }

  /** f(0) + ... + f(n - 1) */
  function PrefixSum(f: nat -> real, n: nat): real {
    if n == 0 then 0.0 else PrefixSum(f, n - 1) + f(n - 1)
  }

  lemma StepOfSum(f: nat -> real, n: nat)
    ensures PrefixSum(f, n + 1) == PrefixSum(f, n) + f(n)
  {
  }

  lemma {:induction false} PrefixSumCongruent(f: nat -> real, g: nat -> real, n: nat)
    requires forall i: nat :: i < n ==> f(i) == g(i)
    ensures PrefixSum(f, n) == PrefixSum(g, n)
  {
    if n > 0 {
      PrefixSumCongruent(f, g, n - 1);
    }
  }

  lemma {:induction false} SumIsPrefixSum(v: seq<real>, f: nat -> real)
    requires forall i :: 0 <= i < |v| ==> v[i] == f(i)
    ensures Sum(v) == PrefixSum(f, |v|)
  {
    if v != [] {
      SumIsPrefixSum(v[..|v| - 1], f);
    }
  }

  lemma {:induction false} PrefixSumZero(f: nat -> real, n: nat)
    requires forall i: nat :: i < n ==> f(i) == 0.0
    ensures PrefixSum(f, n) == 0.0
  {
    if n > 0 {
      PrefixSumZero(f, n - 1);
    }
  }

  lemma {:induction false} PrefixSumAdd(f: nat -> real, g: nat -> real, h: nat -> real, n: nat)
    requires forall i: nat :: i < n ==> h(i) == f(i) + g(i)
    ensures PrefixSum(h, n) == PrefixSum(f, n) + PrefixSum(g, n)
  {
    if n > 0 {
      PrefixSumAdd(f, g, h, n - 1);
    }
  }

  function Shifted(f: nat -> real, start: nat): nat -> real { (l: nat) => f(start + l) }

  lemma {:induction false} PrefixSumSplit(f: nat -> real, a: nat, b: nat)
    ensures PrefixSum(f, a + b) == PrefixSum(f, a) + PrefixSum(Shifted(f, a), b)
  {
    if b > 0 {
      PrefixSumSplit(f, a, b - 1);
    }
  }

  // ---------------------------------------------------------------- nesting and swapping

  /** The sum of the i-th stretch of length b. */
  function StretchSum(f: nat -> real, b: nat): nat -> real { (i: nat) => PrefixSum(Shifted(f, i * b), b) }

  /** A loop of a * b steps is a loop of a stretches of b steps. */
  lemma {:induction false} SumNest(f: nat -> real, a: nat, b: nat)
    ensures PrefixSum(f, a * b) == PrefixSum(StretchSum(f, b), a)
  {
    if a > 0 {
      SumNest(f, a - 1, b);
      assert a * b == (a - 1) * b + b;
      PrefixSumSplit(f, (a - 1) * b, b);
    }
  }

  function Line(f: (nat, nat) -> real, i: nat): nat -> real { (j: nat) => f(i, j) }

  function Column(f: (nat, nat) -> real, j: nat): nat -> real { (i: nat) => f(i, j) }

  function LineSums(f: (nat, nat) -> real, n: nat): nat -> real { (i: nat) => PrefixSum(Line(f, i), n) }

  function ColumnSums(f: (nat, nat) -> real, m: nat): nat -> real { (j: nat) => PrefixSum(Column(f, j), m) }

  /** Interchange of two loops. */
  lemma {:induction false} SumSwap(f: (nat, nat) -> real, m: nat, n: nat)
    ensures PrefixSum(LineSums(f, n), m) == PrefixSum(ColumnSums(f, m), n)
  {
    if m == 0 {
      PrefixSumZero(ColumnSums(f, 0), n);
    } else {
      SumSwap(f, m - 1, n);
      PrefixSumAdd(ColumnSums(f, m - 1), Line(f, m - 1), ColumnSums(f, m), n);
    }
  }

  /** Position of (i, j, l) in a row-major box of width b and depth c. */
  function At(i: nat, j: nat, l: nat, b: nat, c: nat): nat { i * (b * c) + j * c + l }

  /** f at (i, j, l), with the pair (i, l) given as the number m = i * c + l. */
  function Interleave(f: nat -> real, b: nat, c: nat): (nat, nat) -> real
    requires c > 0
  {
    (j: nat, m: nat) => f(At(m / c, j, m % c, b, c))
  }

  function Depth(f: nat -> real, b: nat, c: nat): (nat, nat) -> real {
    (j: nat, i: nat) => PrefixSum(Shifted(f, At(i, j, 0, b, c)), c)
  }

  lemma PlaneSum(f: nat -> real, b: nat, c: nat, i: nat)
    ensures StretchSum(f, b * c)(i) == ColumnSums(Depth(f, b, c), b)(i)
  {
    var s := Shifted(f, i * (b * c));
    SumNest(s, b, c);
    forall j: nat | j < b
      ensures StretchSum(s, c)(j) == Column(Depth(f, b, c), i)(j)
    {
      PrefixSumCongruent(Shifted(s, j * c), Shifted(f, At(i, j, 0, b, c)), c);
    }
    PrefixSumCongruent(StretchSum(s, c), Column(Depth(f, b, c), i), b);
  }

  lemma InterleaveAt(f: nat -> real, b: nat, c: nat, i: nat, j: nat, l: nat)
    requires l < c
    ensures Shifted(Line(Interleave(f, b, c), j), i * c)(l) == Shifted(f, At(i, j, 0, b, c))(l)
  {
    assert i * c == c * i;
    DivModUnique(i * c + l, c, i, l);
    assert At(i, j, l, b, c) == At(i, j, 0, b, c) + l;
    hide At;
  }

  lemma LineSum(f: nat -> real, a: nat, b: nat, c: nat, j: nat)
    requires c > 0
    ensures LineSums(Depth(f, b, c), a)(j) == LineSums(Interleave(f, b, c), a * c)(j)
  {
    hide At, Interleave;
    var line := Line(Interleave(f, b, c), j);
    SumNest(line, a, c);
    forall i: nat | i < a
      ensures StretchSum(line, c)(i) == Line(Depth(f, b, c), j)(i)
    {
      forall l: nat | l < c
        ensures Shifted(line, i * c)(l) == Shifted(f, At(i, j, 0, b, c))(l)
      {
        InterleaveAt(f, b, c, i, j, l);
      }
      PrefixSumCongruent(Shifted(line, i * c), Shifted(f, At(i, j, 0, b, c)), c);
    }
    PrefixSumCongruent(StretchSum(line, c), Line(Depth(f, b, c), j), a);
  }

  /** The middle axis of three moved outermost, and the other two fused. */
  lemma MiddleOutermost(f: nat -> real, a: nat, b: nat, c: nat)
    requires c > 0
    ensures PrefixSum(f, a * (b * c)) == PrefixSum(LineSums(Interleave(f, b, c), a * c), b)
  {
    var g := Depth(f, b, c);
    SumNest(f, a, b * c);
    forall i: nat | i < a
      ensures StretchSum(f, b * c)(i) == ColumnSums(g, b)(i)
    {
      PlaneSum(f, b, c, i);
    }
    PrefixSumCongruent(StretchSum(f, b * c), ColumnSums(g, b), a);
    SumSwap(g, b, a);
    forall j: nat | j < b
      ensures LineSums(g, a)(j) == LineSums(Interleave(f, b, c), a * c)(j)
    {
      LineSum(f, a, b, c, j);
    }
    PrefixSumCongruent(LineSums(g, a), LineSums(Interleave(f, b, c), a * c), b);
  }

  /** What lane number `lane` adds up: column lane % b of the stretch of n rows that belongs to lane / b. */
  function LaneSums(d: (nat, nat) -> real, b: nat, n: nat): nat -> real
    requires b > 0
  {
    (lane: nat) => PrefixSum(Shifted(Line(d, lane % b), lane / b * n), n)
  }

  function Stretches(d: (nat, nat) -> real, n: nat): (nat, nat) -> real {
    (i: nat, j: nat) => StretchSum(Line(d, j), n)(i)
  }

  lemma LaneSumAt(d: (nat, nat) -> real, b: nat, n: nat, i: nat, j: nat)
    requires j < b
    ensures LaneSums(d, b, n)(i * b + j) == StretchSum(Line(d, j), n)(i)
  {
    assert i * b == b * i;
    DivModUnique(i * b + j, b, i, j);
    var q := (i * b + j) / b;
    assert q == i && q * n == i * n;
  }

  lemma LaneGroup(d: (nat, nat) -> real, b: nat, n: nat, i: nat)
    requires b > 0
    ensures StretchSum(LaneSums(d, b, n), b)(i) == LineSums(Stretches(d, n), b)(i)
  {
    forall j: nat | j < b
      ensures Shifted(LaneSums(d, b, n), i * b)(j) == Line(Stretches(d, n), i)(j)
    {
      LaneSumAt(d, b, n, i, j);
    }
    PrefixSumCongruent(Shifted(LaneSums(d, b, n), i * b), Line(Stretches(d, n), i), b);
  }

  lemma LaneColumn(d: (nat, nat) -> real, a: nat, n: nat, j: nat)
    ensures ColumnSums(Stretches(d, n), a)(j) == LineSums(d, a * n)(j)
  {
    SumNest(Line(d, j), a, n);
    PrefixSumCongruent(Column(Stretches(d, n), j), StretchSum(Line(d, j), n), a);
  }

  /** a * b lanes, b of them to each of a stretches of n rows, cover all columns of all a * n rows once. */
  lemma LanesCover(d: (nat, nat) -> real, a: nat, b: nat, n: nat)
    requires b > 0
    ensures PrefixSum(LaneSums(d, b, n), a * b) == PrefixSum(ColumnSums(d, b), a * n)
  {
    var s := Stretches(d, n);
    SumNest(LaneSums(d, b, n), a, b);
    forall i: nat | i < a
      ensures StretchSum(LaneSums(d, b, n), b)(i) == LineSums(s, b)(i)
    {
      LaneGroup(d, b, n, i);
    }
    forall j: nat | j < b
      ensures ColumnSums(s, a)(j) == LineSums(d, a * n)(j)
    {
      LaneColumn(d, a, n, j);
    }
    hide LaneSums, StretchSum, LineSums, ColumnSums, Stretches;
    PrefixSumCongruent(StretchSum(LaneSums(d, b, n), b), LineSums(s, b), a);
    SumSwap(s, a, b);
    PrefixSumCongruent(ColumnSums(s, a), LineSums(d, a * n), b);
    SumSwap(d, b, a * n);
  }
}
