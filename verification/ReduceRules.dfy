/**
  The rewrite rules of pm_reduce_collapse and pm_reduce_load_collapse in `tinygrad/codegen/simplify.py`, each
  with the equation it rests on.
 */
module ReduceRules {
  import opened IndexExpr
  import opened IndexMath

  // ---------------------------------------------------------------- arithmetic of sums

  function SumBelow(body: Expr, r: nat, env: Env, n: nat): int { Fold(SUM, body, [r], env, n) }

  lemma SumStep(body: Expr, r: nat, env: Env, n: nat)
    ensures SumBelow(body, r, env, 0) == 0
    ensures n > 0 ==> SumBelow(body, r, env, n) == SumBelow(body, r, env, n - 1) + Eval(body, Bind(env, r, n - 1))
  {
    assert [r][1..] == [];
    if n > 0 {
      assert Nest(SUM, body, [], Bind(env, r, n - 1)) == Eval(body, Bind(env, r, n - 1));
    }
  }

  lemma EvalLeaves(r: nat, i: int, env: Env)
    ensures Eval(Rng(r), Bind(env, r, i)) == i
    ensures Eval(Const(0), env) == 0 && Eval(Size(r), env) == SizeOf(env, r)
  {
  }

  lemma EvalSum(body: Expr, r: nat, env: Env)
    ensures Eval(Reduce(SUM, body, [r]), env) == SumBelow(body, r, env, SizeOf(env, r))
  {
  }

  function AtLeast0(x: int): int { if x < 0 then 0 else x }

  /** How many i in [0, n) satisfy lo <= i < hi. */
  function Count(lo: int, hi: int, n: nat): nat { AtLeast0(Least(hi, n) - Greatest(lo, 0)) }

  lemma OneMore(k: int, v: int)
    ensures (k + 1) * v == k * v + v
  {
  }

  /** A summand that is v on [lo, hi) and 0 elsewhere. */
  lemma {:induction false} SumOfInterval(body: Expr, r: nat, env: Env, n: nat, lo: int, hi: int, v: int)
    requires forall i :: 0 <= i < n ==> Eval(body, Bind(env, r, i)) == if lo <= i < hi then v else 0
    ensures SumBelow(body, r, env, n) == Count(lo, hi, n) * v
  {
    SumStep(body, r, env, n);
    if n > 0 {
      SumOfInterval(body, r, env, n - 1, lo, hi, v);
      assert Count(lo, hi, n) == Count(lo, hi, n - 1) + if lo <= n - 1 < hi then 1 else 0;
      hide Count, SumBelow, Eval;
      OneMore(Count(lo, hi, n - 1), v);
    }
  }

  /** A summand that is w at k and 0 elsewhere. */
  lemma {:induction false} SumOfPoint(body: Expr, r: nat, env: Env, n: nat, k: int, w: int)
    requires forall i :: 0 <= i < n ==> Eval(body, Bind(env, r, i)) == if i == k then w else 0
    ensures SumBelow(body, r, env, n) == if 0 <= k < n then w else 0
  {
    SumStep(body, r, env, n);
    if n > 0 {
      SumOfPoint(body, r, env, n - 1, k, w);
    }
  }

  // ---------------------------------------------------------------- bounds on the range

  function ClampedSize(e: Expr, r: nat): Expr {
    Bin(Min, Bin(Max, e, Const(0)), Size(r))
  }

  lemma EvalClampedSize(e: Expr, r: nat, env: Env)
    ensures Eval(ClampedSize(e, r), env) == Least(Greatest(Eval(e, env), 0), SizeOf(env, r))
  {
    EvalLeaves(r, 0, env);
    assert Eval(Bin(Max, e, Const(0)), env) == Greatest(Eval(e, env), 0);
  }

  predicate BoundFromBelow(e: Expr, e': Expr) {
    && e.Reduce? && e.rop == SUM && |e.rngs| == 1 && e.body.Where? && e.body.a == Const(0)
    && e.body.c.Lt? && e.body.c.l == Rng(e.rngs[0]) && NoRange(e.body.b)
    && e' == Bin(Mul, ClampedSize(Bin(Sub, Size(e.rngs[0]), e.body.c.r), e.rngs[0]), e.body.b)
  }

  predicate BoundFromAbove(e: Expr, e': Expr) {
    && e.Reduce? && e.rop == SUM && |e.rngs| == 1 && e.body.Where? && e.body.b == Const(0)
    && e.body.c.Lt? && e.body.c.l == Rng(e.rngs[0]) && NoRange(e.body.a)
    && e' == Bin(Mul, ClampedSize(e.body.c.r, e.rngs[0]), e.body.a)
  }

  predicate BoundFromTwoSides(e: Expr, e': Expr) {
    && e.Reduce? && e.rop == SUM && |e.rngs| == 1 && e.body.Where? && e.body.b == Const(0)
    && e.body.c.And? && e.body.c.c.Not? && e.body.c.c.c.Lt? && e.body.c.d.Lt?
    && e.body.c.c.c.l == Rng(e.rngs[0]) && e.body.c.d.l == Rng(e.rngs[0]) && NoRange(e.body.a)
    && e' == Bin(Mul,
        ClampedSize(Bin(Sub, Bin(Min, e.body.c.d.r, Size(e.rngs[0])), Bin(Max, e.body.c.c.c.r, Const(0))), e.rngs[0]),
        e.body.a)
  }

  /** What one iteration adds, with the range compared with a cut that may mention it. */
  lemma CutAt(r: nat, cut: Expr, below: Expr, above: Expr, env: Env, i: int)
    ensures
      var env' := Bind(env, r, i);
      Eval(Where(Lt(Rng(r), cut), below, above), env') ==
      (if i < Eval(cut, env') then Eval(below, env') else Eval(above, env')) && Eval(Const(0), env') == 0
  {
    var env' := Bind(env, r, i);
    EvalLeaves(r, i, env');
    assert Holds(Lt(Rng(r), cut), env') <==> i < Eval(cut, env');
  }

  lemma EvalOfBin(op: BinOp, a: Expr, b: Expr, env: Env)
    ensures Eval(Bin(op, a, b), env) == EvalBin(op, Eval(a, env), Eval(b, env))
  {
    hide EvalBin, Holds, Nest, Combine;
  }

  lemma DifferenceOf(a: Expr, b: Expr, env: Env)
    ensures Eval(Bin(Sub, a, b), env) == Eval(a, env) - Eval(b, env)
  {
    hide Eval;
    EvalOfBin(Sub, a, b, env);
  }

  /** The closed form counts the iterations above the cut, provided the cut does not itself vary with the range. */
  lemma BelowIsSound(e: Expr, e': Expr, env: Env)
    requires BoundFromBelow(e, e') && e.rngs[0] !in Free(e.body.c.r)
    ensures Eval(e', env) == Eval(e, env)
  {
    var r, cut, val := e.rngs[0], e.body.c.r, e.body.b;
    var n, k, v := SizeOf(env, r), Eval(cut, env), Eval(val, env);
    NoRangeNothingFree(val);
    EvalSum(e.body, r, env);
    assert e.rngs == [r];
    forall i | 0 <= i < n ensures Eval(e.body, Bind(env, r, i)) == if k <= i < n then v else 0 {
      CutAt(r, cut, Const(0), val, env, i);
      UnusedRange(cut, env, r, i);
      UnusedRange(val, env, r, i);
    }
    DifferenceOf(Size(r), cut, env);
    EvalLeaves(r, 0, env);
    hide Eval;
    SumOfInterval(e.body, r, env, n, k, n, v);
    EvalClampedSize(Bin(Sub, Size(r), cut), r, env);
    ProductOf(e'.a, val, env);
  }

  lemma AboveIsSound(e: Expr, e': Expr, env: Env)
    requires BoundFromAbove(e, e') && e.rngs[0] !in Free(e.body.c.r)
    ensures Eval(e', env) == Eval(e, env)
  {
    var r, cut, val := e.rngs[0], e.body.c.r, e.body.a;
    var n, k, v := SizeOf(env, r), Eval(cut, env), Eval(val, env);
    NoRangeNothingFree(val);
    EvalSum(e.body, r, env);
    assert e.rngs == [r];
    forall i | 0 <= i < n ensures Eval(e.body, Bind(env, r, i)) == if 0 <= i < k then v else 0 {
      CutAt(r, cut, val, Const(0), env, i);
      UnusedRange(cut, env, r, i);
      UnusedRange(val, env, r, i);
    }
    hide Eval;
    SumOfInterval(e.body, r, env, n, 0, k, v);
    EvalClampedSize(cut, r, env);
    ProductOf(e'.a, val, env);
  }

  lemma TwoSidesAt(r: nat, lower: Expr, upper: Expr, val: Expr, env: Env, i: int)
    requires r !in Free(lower) + Free(upper) + Free(val)
    ensures Eval(Where(And(Not(Lt(Rng(r), lower)), Lt(Rng(r), upper)), val, Const(0)), Bind(env, r, i)) ==
      if Eval(lower, env) <= i < Eval(upper, env) then Eval(val, env) else 0
  {
    var env' := Bind(env, r, i);
    UnusedRange(lower, env, r, i);
    UnusedRange(upper, env, r, i);
    UnusedRange(val, env, r, i);
    EvalLeaves(r, i, env');
    BetweenHolds(r, lower, upper, env', i);
    var between := And(Not(Lt(Rng(r), lower)), Lt(Rng(r), upper));
    hide Holds, EvalBin, Nest, Combine;
    assert Eval(Where(between, val, Const(0)), env') == if Holds(between, env') then Eval(val, env') else 0;
  }

  lemma BetweenHolds(r: nat, lower: Expr, upper: Expr, env: Env, i: int)
    requires Eval(Rng(r), env) == i
    ensures
      Holds(And(Not(Lt(Rng(r), lower)), Lt(Rng(r), upper)), env) <==> Eval(lower, env) <= i < Eval(upper, env)
  {
    hide Eval;
    var c, d := Lt(Rng(r), lower), Lt(Rng(r), upper);
    assert Holds(c, env) <==> i < Eval(lower, env);
    assert Holds(d, env) <==> i < Eval(upper, env);
    assert Holds(And(Not(c), d), env) <==> Holds(Not(c), env) && Holds(d, env);
  }

  lemma TwoSidesClosed(r: nat, lower: Expr, upper: Expr, env: Env)
    ensures Eval(ClampedSize(Bin(Sub, Bin(Min, upper, Size(r)), Bin(Max, lower, Const(0))), r), env) ==
      Count(Eval(lower, env), Eval(upper, env), SizeOf(env, r))
  {
    EvalLeaves(r, 0, env);
    var above, below := Bin(Min, upper, Size(r)), Bin(Max, lower, Const(0));
    assert Eval(above, env) == Least(Eval(upper, env), SizeOf(env, r)) &&
      Eval(below, env) == Greatest(Eval(lower, env), 0);
    assert Eval(Bin(Sub, above, below), env) == Eval(above, env) - Eval(below, env);
    EvalClampedSize(Bin(Sub, above, below), r, env);
  }

  lemma TwoSidesIsSound(e: Expr, e': Expr, env: Env)
    requires BoundFromTwoSides(e, e')
    requires e.rngs[0] !in Free(e.body.c.c.c.r) && e.rngs[0] !in Free(e.body.c.d.r)
    ensures Eval(e', env) == Eval(e, env)
  {
    var r, lower, upper, val := e.rngs[0], e.body.c.c.c.r, e.body.c.d.r, e.body.a;
    NoRangeNothingFree(val);
    assert e.rngs == [r] && e.body == Where(And(Not(Lt(Rng(r), lower)), Lt(Rng(r), upper)), val, Const(0));
    forall i | 0 <= i < SizeOf(env, r)
      ensures Eval(e.body, Bind(env, r, i)) == if Eval(lower, env) <= i < Eval(upper, env) then Eval(val, env) else 0
    {
      TwoSidesAt(r, lower, upper, val, env, i);
    }
    hide Eval;
    ProductOf(e'.a, val, env);
    TwoSidesClosed(r, lower, upper, env);
    EvalSum(e.body, r, env);
    SumOfInterval(e.body, r, env, SizeOf(env, r), Eval(lower, env), Eval(upper, env), Eval(val, env));
  }

  lemma ProductOf(a: Expr, b: Expr, env: Env)
    ensures Eval(Bin(Mul, a, b), env) == Eval(a, env) * Eval(b, env)
  {
    hide Eval;
    EvalOfBin(Mul, a, b, env);
  }

  /** The proviso matters: with a cut that mentions the range, the closed form has another value. */
  lemma CutMayNotMentionTheRange()
    ensures
      var e := Reduce(SUM, Where(Lt(Rng(0), Rng(0)), Const(1), Const(0)), [0]);
      var env := Env(map[], map[], map[0 := 1], map[0 := 2], (_, _) => 0, 0, 0);
      exists e' :: BoundFromAbove(e, e') && Eval(e, env) == 0 && Eval(e', env) == 1
  {
    var e := Reduce(SUM, Where(Lt(Rng(0), Rng(0)), Const(1), Const(0)), [0]);
    var env := Env(map[], map[], map[0 := 1], map[0 := 2], (_, _) => 0, 0, 0);
    var e' := Bin(Mul, ClampedSize(Rng(0), 0), Const(1));
    assert BoundFromAbove(e, e');
    forall i | 0 <= i < 2 ensures Eval(e.body, Bind(env, 0, i)) == 0 {
      CutAt(0, Rng(0), Const(1), Const(0), env, i);
      EvalLeaves(0, i, env);
    }
    EvalLeaf(1, env);
    assert Eval(Rng(0), env) == 1;
    hide Eval;
    EvalSum(e.body, 0, env);
    SumOfInterval(e.body, 0, env, 2, 0, 0, 1);
    EvalClampedSize(Rng(0), 0, env);
    ProductOf(e'.a, Const(1), env);
  }

  // ---------------------------------------------------------------- splitting and lifting

  predicate SplitSum(e: Expr, e': Expr) {
    && e.Reduce? && e.rop == SUM && e.body.Bin? && e.body.op == Add
    && e' == Bin(Add, Reduce(SUM, e.body.a, e.rngs), Reduce(SUM, e.body.b, e.rngs))
  }

  lemma {:induction false} NestOfSum(x: Expr, y: Expr, rngs: seq<nat>, env: Env)
    ensures Nest(SUM, Bin(Add, x, y), rngs, env) == Nest(SUM, x, rngs, env) + Nest(SUM, y, rngs, env)
    decreases |rngs| + 1, 0
  {
    if rngs != [] {
      FoldOfSum(x, y, rngs, env, SizeOf(env, rngs[0]));
    }
  }

  lemma {:induction false} FoldOfSum(x: Expr, y: Expr, rngs: seq<nat>, env: Env, n: nat)
    requires rngs != []
    ensures Fold(SUM, Bin(Add, x, y), rngs, env, n) == Fold(SUM, x, rngs, env, n) + Fold(SUM, y, rngs, env, n)
    decreases |rngs|, n + 1
  {
    if n > 0 {
      NestOfSum(x, y, rngs[1..], Bind(env, rngs[0], n - 1));
      if n > 1 {
        FoldOfSum(x, y, rngs, env, n - 1);
      }
    }
  }

  predicate LiftFlag(e: Expr, e': Expr) {
    && e.Reduce? && e.rop == SUM && e.body.Where? && e.body.b == Const(0)
    && e.body.c.And? && e.body.c.c.BVar?
    && e' == Bin(Mul, Reduce(SUM, Where(e.body.c.d, e.body.a, Const(0)), e.rngs), OfBool(e.body.c.c))
  }

  lemma {:induction false} NestOfZero(body: Expr, rngs: seq<nat>, env: Env)
    requires forall m :: Eval(body, env.(rngs := m)) == 0
    ensures Nest(SUM, body, rngs, env) == 0
    decreases |rngs| + 1, 0
  {
    if rngs == [] {
      assert env == env.(rngs := env.rngs);
    } else {
      FoldOfZero(body, rngs, env, SizeOf(env, rngs[0]));
    }
  }

  lemma {:induction false} FoldOfZero(body: Expr, rngs: seq<nat>, env: Env, n: nat)
    requires rngs != [] && forall m :: Eval(body, env.(rngs := m)) == 0
    ensures Fold(SUM, body, rngs, env, n) == 0
    decreases |rngs|, n + 1
  {
    if n > 0 {
      var inner := Bind(env, rngs[0], n - 1);
      forall m ensures Eval(body, inner.(rngs := m)) == 0 {
        assert inner.(rngs := m) == env.(rngs := m);
      }
      NestOfZero(body, rngs[1..], inner);
      if n > 1 {
        FoldOfZero(body, rngs, env, n - 1);
      }
    }
  }

  lemma FlagIsSound(e: Expr, e': Expr, env: Env)
    requires LiftFlag(e, e')
    ensures Eval(e', env) == Eval(e, env)
  {
    var flag, y, c := e.body.c.c, e.body.c.d, e.body.a;
    var inner := Where(y, c, Const(0));
    if Holds(flag, env) {
      forall m ensures Eval(inner, env.(rngs := m)) == Eval(e.body, env.(rngs := m)) {
        assert Holds(flag, env.(rngs := m));
      }
      NestCongruent(SUM, inner, e.body, e.rngs, env);
    } else {
      forall m ensures Eval(e.body, env.(rngs := m)) == 0 {
        assert !Holds(flag, env.(rngs := m));
      }
      NestOfZero(e.body, e.rngs, env);
    }
  }

  predicate CastedProduct(e: Expr, e': Expr) {
    e.Bin? && e.op == Mul && e.b.OfBool? && e' == Where(e.b.c, e.a, Const(0))
  }

  predicate LiftAddLt(c: Cond, c': Cond) {
    && c.Lt? && c.l.Bin? && c.l.op == Add && NoRange(c.l.b) && NoRange(c.r)
    && c' == Lt(c.l.a, Bin(Sub, c.r, c.l.b))
  }

  predicate LiftAddNe(c: Cond, c': Cond) {
    && c.Ne? && c.l.Bin? && c.l.op == Add && NoRange(c.l.b) && NoRange(c.r)
    && c' == Ne(c.l.a, Bin(Sub, c.r, c.l.b))
  }

  /** x * y < c becomes x < ceil(c / y); `positive` is the compiler's lower-bound analysis. */
  predicate LiftMulLt(positive: Expr -> bool, c: Cond, c': Cond) {
    && c.Lt? && c.l.Bin? && c.l.op == Mul && NoRange(c.l.b) && NoRange(c.r) && positive(c.l.b)
    && c' == Lt(c.l.a, Bin(FloorDiv, Bin(Sub, Bin(Add, c.r, c.l.b), Const(1)), c.l.b))
  }

  lemma CeilDivisionLift(x: int, y: int, c: int)
    requires y > 0
    ensures x * y < c <==> x < (c + y - 1) / y
  {
    var q, m := (c + y - 1) / y, (c + y - 1) % y;
    assert c + y - 1 == q * y + m;
    if x < q {
      assert (x + 1) * y <= q * y;
    } else {
      assert q * y <= x * y;
    }
  }

  // ---------------------------------------------------------------- one-hot ranges

  function InRange(idx: Expr, r: nat): Cond {
    And(Not(Lt(idx, Const(0))), Lt(idx, Size(r)))
  }

  predicate OneHot(e: Expr, e': Expr) {
    && e.Reduce? && e.rop == SUM && |e.rngs| == 1 && e.body.Where? && e.body.a == Const(0)
    && e.body.c.Ne? && e.body.c.r == Rng(e.rngs[0])
    && e' == (var r, idx := e.rngs[0], e.body.c.l;
              Where(InRange(idx, r), ReplaceRange(e.body.b, r, Where(InRange(idx, r), idx, Invalid)), Const(0)))
  }

  /** A load at index `idx` written as a sum over all indices is the load, or 0 when idx is out of range. */
  lemma OneHotIsSound(e: Expr, e': Expr, env: Env)
    requires OneHot(e, e') && e.rngs[0] !in Free(e.body.c.l) && ReduceFree(e.body.b)
    ensures Eval(e', env) == Eval(e, env)
  {
    var r, idx, expr := e.rngs[0], e.body.c.l, e.body.b;
    var n, k := SizeOf(env, r), Eval(idx, env);
    var w := Eval(expr, Bind(env, r, k));
    assert e.rngs == [r];
    EvalSum(e.body, r, env);
    forall i | 0 <= i < n ensures Eval(e.body, Bind(env, r, i)) == if i == k then w else 0 {
      UnusedRange(idx, env, r, i);
      EvalLeaves(r, i, env);
      EvalLeaves(r, i, Bind(env, r, i));
      if i == k {
        assert Bind(env, r, i) == Bind(env, r, k);
      }
    }
    SumOfPoint(e.body, r, env, n, k, w);
    EvalLeaves(r, 0, env);
    assert Holds(Not(Lt(idx, Const(0))), env) <==> 0 <= k by {
      assert Holds(Lt(idx, Const(0)), env) <==> k < 0;
    }
    assert Holds(Lt(idx, Size(r)), env) <==> k < n;
    assert Holds(InRange(idx, r), env) <==> 0 <= k < n;
    ReplaceRangeValue(expr, r, Where(InRange(idx, r), idx, Invalid), env);
  }

  // ---------------------------------------------------------------- bounds that mention the range

  /** The check a closed form needs: what the range is compared with does not mention it. */
  predicate BoundsIgnoreRange(e: Expr) {
    && e.Reduce? && |e.rngs| == 1 && e.body.Where?
    && match e.body.c
       case Lt(_, cut) => e.rngs[0] !in Free(cut)
       case Ne(idx, _) => e.rngs[0] !in Free(idx)
       case And(Not(Lt(_, lower)), Lt(_, upper)) => e.rngs[0] !in Free(lower) && e.rngs[0] !in Free(upper)
       case _ => false
  }

  /** Whether a closed form has the value of the sum it replaces, whatever the range it sets free is bound to. */
  ghost predicate RightEverywhere(e: Expr, e': Expr, env: Env)
    requires e.Reduce? && |e.rngs| == 1
  {
    forall i | 0 <= i < SizeOf(env, e.rngs[0]) :: Eval(e', Bind(env, e.rngs[0], i)) == Eval(e, env)
  }

  /** Whether it has the same value, whatever that range is bound to. */
  ghost predicate Steady(e': Expr, r: nat, env: Env) {
    forall i, j | 0 <= i < SizeOf(env, r) && 0 <= j < SizeOf(env, r) ::
      Eval(e', Bind(env, r, i)) == Eval(e', Bind(env, r, j))
  }

  lemma AboveAt(e: Expr, e': Expr, env: Env, i: int) returns (k: int)
    requires BoundFromAbove(e, e') && 0 <= i < SizeOf(env, e.rngs[0])
    ensures 0 <= k <= SizeOf(env, e.rngs[0])
    ensures Eval(e', Bind(env, e.rngs[0], i)) == k * Eval(e.body.a, env)
    ensures Eval(e.body, Bind(env, e.rngs[0], i)) == if i < k then Eval(e.body.a, env) else 0
  {
    var r, cut, val := e.rngs[0], e.body.c.r, e.body.a;
    var env' := Bind(env, r, i);
    NoRangeNothingFree(val);
    UnusedRange(val, env, r, i);
    EvalLeaves(r, i, env);
    EvalLeaves(r, i, env');
    EvalClampedSize(cut, r, env');
    ProductOf(e'.a, val, env');
    k := Least(Greatest(Eval(cut, env'), 0), SizeOf(env, r));
    assert e.body == Where(Lt(Rng(r), cut), val, Const(0));
    assert Holds(e.body.c, env') <==> i < Eval(cut, env');
  }

  lemma BelowAt(e: Expr, e': Expr, env: Env, i: int) returns (k: int)
    requires BoundFromBelow(e, e') && 0 <= i < SizeOf(env, e.rngs[0])
    ensures 0 <= k <= SizeOf(env, e.rngs[0])
    ensures Eval(e', Bind(env, e.rngs[0], i)) == k * Eval(e.body.b, env)
    ensures Eval(e.body, Bind(env, e.rngs[0], i)) ==
      if SizeOf(env, e.rngs[0]) - k <= i then Eval(e.body.b, env) else 0
  {
    var r, cut, val := e.rngs[0], e.body.c.r, e.body.b;
    var env' := Bind(env, r, i);
    NoRangeNothingFree(val);
    UnusedRange(val, env, r, i);
    EvalLeaves(r, i, env);
    EvalLeaves(r, i, env');
    EvalClampedSize(Bin(Sub, Size(r), cut), r, env');
    ProductOf(e'.a, val, env');
    assert Eval(Bin(Sub, Size(r), cut), env') == SizeOf(env, r) - Eval(cut, env');
    k := Least(Greatest(SizeOf(env, r) - Eval(cut, env'), 0), SizeOf(env, r));
    assert e.body == Where(Lt(Rng(r), cut), Const(0), val);
    assert Holds(e.body.c, env') <==> i < Eval(cut, env');
  }

  lemma CancelFactor(a: int, b: int, v: int)
    requires a * v == b * v
    ensures v == 0 || a == b
  {
    assert (a - b) * v == 0;
  }

  /** For any cut, the closed form from above is right for every value of the range iff it does not vary with it. */
  lemma AboveIsSoundIff(e: Expr, e': Expr, env: Env)
    requires BoundFromAbove(e, e')
    ensures RightEverywhere(e, e', env) <==> Steady(e', e.rngs[0], env)
  {
    hide Eval, Bind;
    var r, n := e.rngs[0], SizeOf(env, e.rngs[0]);
    if Steady(e', r, env) && n > 0 {
      var v := Eval(e.body.a, env);
      var k0 := AboveAt(e, e', env, 0);
      forall i | 0 <= i < n ensures Eval(e.body, Bind(env, r, i)) == if 0 <= i < k0 then v else 0 {
        var k := AboveAt(e, e', env, i);
        CancelFactor(k, k0, v);
      }
      SumOfInterval(e.body, r, env, n, 0, k0, v);
      assert e.rngs == [r];
      EvalSum(e.body, r, env);
    }
  }

  lemma BelowIsSoundIff(e: Expr, e': Expr, env: Env)
    requires BoundFromBelow(e, e')
    ensures RightEverywhere(e, e', env) <==> Steady(e', e.rngs[0], env)
  {
    hide Eval, Bind;
    var r, n := e.rngs[0], SizeOf(env, e.rngs[0]);
    if Steady(e', r, env) && n > 0 {
      var v := Eval(e.body.b, env);
      var k0 := BelowAt(e, e', env, 0);
      forall i | 0 <= i < n ensures Eval(e.body, Bind(env, r, i)) == if n - k0 <= i < n then v else 0 {
        var k := BelowAt(e, e', env, i);
        CancelFactor(k, k0, v);
      }
      SumOfInterval(e.body, r, env, n, n - k0, n, v);
      assert e.rngs == [r];
      EvalSum(e.body, r, env);
    }
  }

  /** The sum of one 1 for each index, and what becomes of it with the range as its own index. */
  function HotSum(): Expr { Reduce(SUM, Where(Ne(Rng(0), Rng(0)), Const(0), Const(1)), [0]) }

  function HotClosed(): Expr { Where(InRange(Rng(0), 0), Const(1), Const(0)) }

  lemma HotClosedValue(env: Env)
    requires 0 in env.rngs && 0 <= env.rngs[0] < SizeOf(env, 0)
    ensures Eval(HotClosed(), env) == 1
  {
    assert Eval(Rng(0), env) == env.rngs[0] && Eval(Const(0), env) == 0 && Eval(Size(0), env) == SizeOf(env, 0);
    assert !Holds(Lt(Rng(0), Const(0)), env) && Holds(Lt(Rng(0), Size(0)), env);
    assert Holds(InRange(Rng(0), 0), env);
  }

  lemma HotSumValue(env: Env)
    ensures Eval(HotSum(), env) == SizeOf(env, 0)
  {
    var body, n := HotSum().body, SizeOf(env, 0);
    forall i | 0 <= i < n ensures Eval(body, Bind(env, 0, i)) == if 0 <= i < n then 1 else 0 {
      assert !Holds(Ne(Rng(0), Rng(0)), Bind(env, 0, i));
      EvalLeaf(1, Bind(env, 0, i));
    }
    hide Eval;
    SumOfInterval(body, 0, env, n, 0, n, 1);
    EvalSum(body, 0, env);
  }

  /** For a one-hot range that is not enough: with the range itself as index the result is 1, the sum is its size. */
  lemma OneHotSteadyButWrong(env: Env)
    requires SizeOf(env, 0) > 1
    ensures OneHot(HotSum(), HotClosed())
    ensures Steady(HotClosed(), 0, env) && !RightEverywhere(HotSum(), HotClosed(), env)
  {
    forall i | 0 <= i < SizeOf(env, 0) ensures Eval(HotClosed(), Bind(env, 0, i)) == 1 {
      HotClosedValue(Bind(env, 0, i));
    }
    HotSumValue(env);
    assert OneHot(HotSum(), HotClosed());
    hide Eval, HotSum, HotClosed;
    assert Eval(HotClosed(), Bind(env, 0, 0)) != Eval(HotSum(), env);
  }

  /** r % 2, written without a remainder. */
  function Parity(r: nat): Expr {
    Bin(Sub, Rng(r), Bin(Mul, Const(2), Bin(FloorDiv, Rng(r), Const(2))))
  }

  /** The number of r with r % 2 <= r < r % 2 + 1. */
  function ParitySum(): Expr {
    var lower, upper := Parity(0), Bin(Add, Parity(0), Const(1));
    Reduce(SUM, Where(And(Not(Lt(Rng(0), lower)), Lt(Rng(0), upper)), Const(1), Const(0)), [0])
  }

  function ParityClosed(): Expr {
    var lower, upper := Parity(0), Bin(Add, Parity(0), Const(1));
    Bin(Mul, ClampedSize(Bin(Sub, Bin(Min, upper, Size(0)), Bin(Max, lower, Const(0))), 0), Const(1))
  }

  lemma ParityValue(env: Env, i: int)
    requires i == if 0 in env.rngs then env.rngs[0] else 0
    ensures Eval(Parity(0), env) == i % 2
    ensures Eval(Bin(Add, Parity(0), Const(1)), env) == i % 2 + 1
  {
    assert Eval(Rng(0), env) == i && Eval(Const(2), env) == 2 && Eval(Const(1), env) == 1;
    assert Eval(Bin(FloorDiv, Rng(0), Const(2)), env) == i / 2;
    assert Eval(Bin(Mul, Const(2), Bin(FloorDiv, Rng(0), Const(2))), env) == 2 * (i / 2);
  }

  lemma ParityClosedValue(env: Env)
    requires 0 in env.rngs && 0 <= env.rngs[0] < SizeOf(env, 0)
    ensures Eval(ParityClosed(), env) == 1
  {
    var lower, upper := Parity(0), Bin(Add, Parity(0), Const(1));
    ParityValue(env, env.rngs[0]);
    hide Eval;
    TwoSidesClosed(0, lower, upper, env);
    ProductOf(ParityClosed().a, Const(1), env);
    EvalLeaf(1, env);
  }

  lemma EvalLeaf(n: int, env: Env)
    ensures Eval(Const(n), env) == n
  {
  }

  lemma ParityTerm(env: Env, i: int)
    ensures Eval(ParitySum().body, Bind(env, 0, i)) == if i % 2 <= i < i % 2 + 1 then 1 else 0
  {
    var env' := Bind(env, 0, i);
    var lower, upper := Parity(0), Bin(Add, Parity(0), Const(1));
    ParityValue(env', i);
    EvalLeaves(0, i, env);
    BetweenHolds(0, lower, upper, env', i);
    EvalLeaf(0, env');
    EvalLeaf(1, env');
  }

  lemma ParitySumValue(env: Env)
    requires SizeOf(env, 0) == 4
    ensures Eval(ParitySum(), env) == 2
  {
    hide Eval;
    var body := ParitySum().body;
    EvalSum(body, 0, env);
    forall i | 0 <= i < 4 ensures Eval(body, Bind(env, 0, i)) == if 0 <= i < 2 then 1 else 0 {
      ParityTerm(env, i);
    }
    SumOfInterval(body, 0, env, 4, 0, 2, 1);
  }

  /** With bounds from both sides it is not enough either: here the closed form is 1 for every value, the sum is 2. */
  lemma TwoSidesSteadyButWrong(env: Env)
    requires SizeOf(env, 0) == 4
    ensures BoundFromTwoSides(ParitySum(), ParityClosed())
    ensures Steady(ParityClosed(), 0, env) && !RightEverywhere(ParitySum(), ParityClosed(), env)
  {
    forall i | 0 <= i < 4 ensures Eval(ParityClosed(), Bind(env, 0, i)) == 1 {
      ParityClosedValue(Bind(env, 0, i));
    }
    ParitySumValue(env);
    assert BoundFromTwoSides(ParitySum(), ParityClosed());
    hide Eval, ParitySum, ParityClosed;
    assert Eval(ParityClosed(), Bind(env, 0, 0)) != Eval(ParitySum(), env);
  }

  // ---------------------------------------------------------------- the check decides

  lemma RightIfUnaffected(e: Expr, e': Expr, env: Env)
    requires e.Reduce? && |e.rngs| == 1
    requires forall i | 0 <= i < SizeOf(env, e.rngs[0]) ::
               Eval(e', Bind(env, e.rngs[0], i)) == Eval(e, Bind(env, e.rngs[0], i))
    ensures RightEverywhere(e, e', env)
  {
    forall i | 0 <= i < SizeOf(env, e.rngs[0]) ensures Eval(e', Bind(env, e.rngs[0], i)) == Eval(e, env) {
      UnusedRange(e, env, e.rngs[0], i);
    }
  }

  ghost predicate TwoSidesRight(e: Expr, e': Expr, env: Env, checked: bool) {
    BoundFromTwoSides(e, e') && (checked ==> BoundsIgnoreRange(e)) ==> RightEverywhere(e, e', env)
  }

  /** The rule for two bounds is right, for all bounds and values, exactly if it checks that they ignore the range. */
  lemma TwoSidesIsSoundIff(checked: bool)
    ensures checked <==> forall e, e', env :: TwoSidesRight(e, e', env, checked)
  {
    if checked {
      forall e, e', env ensures TwoSidesRight(e, e', env, checked) {
        if BoundFromTwoSides(e, e') && BoundsIgnoreRange(e) {
          forall i | 0 <= i < SizeOf(env, e.rngs[0])
            ensures Eval(e', Bind(env, e.rngs[0], i)) == Eval(e, Bind(env, e.rngs[0], i))
          {
            TwoSidesIsSound(e, e', Bind(env, e.rngs[0], i));
          }
          RightIfUnaffected(e, e', env);
        }
      }
    } else {
      var env := Env(map[], map[], map[], map[0 := 4], (_, _) => 0, 0, 0);
      TwoSidesSteadyButWrong(env);
      assert !TwoSidesRight(ParitySum(), ParityClosed(), env, checked);
    }
  }

  ghost predicate OneHotRight(e: Expr, e': Expr, env: Env, checked: bool) {
    OneHot(e, e') && ReduceFree(e.body.b) && (checked ==> BoundsIgnoreRange(e)) ==> RightEverywhere(e, e', env)
  }

  /** So is the rule for a one-hot range, whose body holds no reduction when it is used. */
  lemma OneHotIsSoundIff(checked: bool)
    ensures checked <==> forall e, e', env :: OneHotRight(e, e', env, checked)
  {
    if checked {
      forall e, e', env ensures OneHotRight(e, e', env, checked) {
        if OneHot(e, e') && ReduceFree(e.body.b) && BoundsIgnoreRange(e) {
          forall i | 0 <= i < SizeOf(env, e.rngs[0])
            ensures Eval(e', Bind(env, e.rngs[0], i)) == Eval(e, Bind(env, e.rngs[0], i))
          {
            OneHotIsSound(e, e', Bind(env, e.rngs[0], i));
          }
          RightIfUnaffected(e, e', env);
        }
      }
    } else {
      var env := Env(map[], map[], map[], map[0 := 4], (_, _) => 0, 0, 0);
      OneHotSteadyButWrong(env);
      assert ReduceFree(HotSum().body.b);
      assert !OneHotRight(HotSum(), HotClosed(), env, checked);
    }
  }
}
