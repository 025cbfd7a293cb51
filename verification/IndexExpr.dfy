/**
  Index expressions with reductions, as the rewrite rules of `tinygrad/codegen/simplify.py` see them: their
  meaning, the ranges that occur free in them, and what their value depends on.
 */
module IndexExpr {

  datatype BinOp = Add | Sub | Mul | FloorDiv | Max | Min | Pow

  datatype ReduceOp = SUM | PROD | MAXIMUM

  datatype Expr =
    | Const(n: int)
    | Var(x: nat)
    | Rng(r: nat)
    | Size(r: nat)
    | Invalid
    | Load(buf: nat, idx: Expr)
    | Bin(op: BinOp, a: Expr, b: Expr)
    | Where(c: Cond, a: Expr, b: Expr)
    | OfBool(c: Cond)
    | Reduce(rop: ReduceOp, body: Expr, rngs: seq<nat>)

  datatype Cond =
    | BVar(x: nat)
    | Lt(l: Expr, r: Expr)
    | Ne(l: Expr, r: Expr)
    | Not(c: Cond)
    | And(c: Cond, d: Cond)

  /**
    sizes: the extents of the ranges, never negative; invalid: whatever an invalid index happens to be;
    lowest: the value of a maximum over nothing.
   */
  datatype Env = Env(vars: map<nat, int>, bvars: map<nat, bool>, rngs: map<nat, int>, sizes: map<nat, nat>,
                     mem: (nat, int) -> int, invalid: int, lowest: int)

  function Bind(env: Env, r: nat, i: int): Env { env.(rngs := env.rngs[r := i]) }

  function SizeOf(env: Env, r: nat): nat { if r in env.sizes then env.sizes[r] else 1 }

  function Power(a: int, n: nat): int { if n == 0 then 1 else Power(a, n - 1) * a }

  function FloorDivide(a: int, b: int): int {
    if b == 0 then 0 else if b > 0 then a / b else (-a) / (-b)
  }

  function EvalBin(op: BinOp, a: int, b: int): int {
    match op
    case Add => a + b
    case Sub => a - b
    case Mul => a * b
    case FloorDiv => FloorDivide(a, b)
    case Max => if a < b then b else a
    case Min => if b < a then b else a
    case Pow => if b < 0 then 0 else Power(a, b)
  }

  function Combine(op: ReduceOp, a: int, b: int): int {
    match op
    case SUM => a + b
    case PROD => a * b
    case MAXIMUM => if a < b then b else a
  }

  function Neutral(op: ReduceOp, env: Env): int {
    match op
    case SUM => 0
    case PROD => 1
    case MAXIMUM => env.lowest
  }

  function Eval(e: Expr, env: Env): int
    decreases e, 0, 0
  {
    match e
    case Const(n) => n
    case Var(x) => if x in env.vars then env.vars[x] else 0
    case Rng(r) => if r in env.rngs then env.rngs[r] else 0
    case Size(r) => SizeOf(env, r)
    case Invalid => env.invalid
    case Load(buf, idx) => env.mem(buf, Eval(idx, env))
    case Bin(op, a, b) => EvalBin(op, Eval(a, env), Eval(b, env))
    case Where(c, a, b) => if Holds(c, env) then Eval(a, env) else Eval(b, env)
    case OfBool(c) => if Holds(c, env) then 1 else 0
    case Reduce(op, body, rngs) => Nest(op, body, rngs, env)
  }

  predicate Holds(c: Cond, env: Env)
    decreases c, 0, 0
  {
    match c
    case BVar(x) => x in env.bvars && env.bvars[x]
    case Lt(l, r) => Eval(l, env) < Eval(r, env)
    case Ne(l, r) => Eval(l, env) != Eval(r, env)
    case Not(d) => !Holds(d, env)
    case And(d1, d2) => Holds(d1, env) && Holds(d2, env)
  }

  /** The reduction of body over all values of the ranges, the first range outermost. */
  function Nest(op: ReduceOp, body: Expr, rngs: seq<nat>, env: Env): int
    decreases body, |rngs| + 1, 0
  {
    if rngs == [] then Eval(body, env) else Fold(op, body, rngs, env, SizeOf(env, rngs[0]))
  }

  /** The reduction over the first n values of the first range. */
  function Fold(op: ReduceOp, body: Expr, rngs: seq<nat>, env: Env, n: nat): int
    requires rngs != []
    decreases body, |rngs|, n + 1
  {
    if n == 0 then Neutral(op, env)
    else
      var last := Nest(op, body, rngs[1..], Bind(env, rngs[0], n - 1));
      if n == 1 then last else Combine(op, Fold(op, body, rngs, env, n - 1), last)
  }

  // ---------------------------------------------------------------- syntax

  /** The ranges that occur free, that is, outside the reductions over them. */
  function Free(e: Expr): set<nat> {
    match e
    case Rng(r) => {r}
    case Load(_, idx) => Free(idx)
    case Bin(_, a, b) => Free(a) + Free(b)
    case Where(c, a, b) => FreeC(c) + Free(a) + Free(b)
    case OfBool(c) => FreeC(c)
    case Reduce(_, body, rngs) => Free(body) - set r | r in rngs
    case _ => {}
  }

  function FreeC(c: Cond): set<nat> {
    match c
    case BVar(_) => {}
    case Lt(l, r) => Free(l) + Free(r)
    case Ne(l, r) => Free(l) + Free(r)
    case Not(d) => FreeC(d)
    case And(d1, d2) => FreeC(d1) + FreeC(d2)
  }

  /** No range anywhere, not even a reduced one. */
  predicate NoRange(e: Expr) {
    match e
    case Rng(_) => false
    case Load(_, idx) => NoRange(idx)
    case Bin(_, a, b) => NoRange(a) && NoRange(b)
    case Where(c, a, b) => NoRangeC(c) && NoRange(a) && NoRange(b)
    case OfBool(c) => NoRangeC(c)
    case Reduce(_, body, rngs) => NoRange(body) && rngs == []
    case _ => true
  }

  predicate NoRangeC(c: Cond) {
    match c
    case BVar(_) => true
    case Lt(l, r) => NoRange(l) && NoRange(r)
    case Ne(l, r) => NoRange(l) && NoRange(r)
    case Not(d) => NoRangeC(d)
    case And(d1, d2) => NoRangeC(d1) && NoRangeC(d2)
  }

  predicate ReduceFree(e: Expr) {
    match e
    case Load(_, idx) => ReduceFree(idx)
    case Bin(_, a, b) => ReduceFree(a) && ReduceFree(b)
    case Where(c, a, b) => ReduceFreeC(c) && ReduceFree(a) && ReduceFree(b)
    case OfBool(c) => ReduceFreeC(c)
    case Reduce(_, _, _) => false
    case _ => true
  }

  predicate ReduceFreeC(c: Cond) {
    match c
    case BVar(_) => true
    case Lt(l, r) => ReduceFree(l) && ReduceFree(r)
    case Ne(l, r) => ReduceFree(l) && ReduceFree(r)
    case Not(d) => ReduceFreeC(d)
    case And(d1, d2) => ReduceFreeC(d1) && ReduceFreeC(d2)
  }

  /** No reduction inside a reduction. */
  predicate Flat(e: Expr) {
    match e
    case Load(_, idx) => Flat(idx)
    case Bin(_, a, b) => Flat(a) && Flat(b)
    case Where(c, a, b) => FlatC(c) && Flat(a) && Flat(b)
    case OfBool(c) => FlatC(c)
    case Reduce(_, body, _) => ReduceFree(body)
    case _ => true
  }

  predicate FlatC(c: Cond) {
    match c
    case BVar(_) => true
    case Lt(l, r) => Flat(l) && Flat(r)
    case Ne(l, r) => Flat(l) && Flat(r)
    case Not(d) => FlatC(d)
    case And(d1, d2) => FlatC(d1) && FlatC(d2)
  }

  // One unfolding of the three syntactic functions, per constructor.

  lemma SynLeaf(e: Expr)
    requires e.Const? || e.Size? || e.Invalid? || e.Rng? || e.Var?
    ensures Free(e) == (if e.Rng? then {e.r} else {}) && Flat(e) && ReduceFree(e)
  {
  }

  lemma SynBin(op: BinOp, a: Expr, b: Expr)
    ensures Free(Bin(op, a, b)) == Free(a) + Free(b)
    ensures Flat(Bin(op, a, b)) <==> Flat(a) && Flat(b)
    ensures ReduceFree(Bin(op, a, b)) <==> ReduceFree(a) && ReduceFree(b)
  {
  }

  lemma SynWhere(c: Cond, a: Expr, b: Expr)
    ensures Free(Where(c, a, b)) == FreeC(c) + Free(a) + Free(b)
    ensures Flat(Where(c, a, b)) <==> FlatC(c) && Flat(a) && Flat(b)
    ensures ReduceFree(Where(c, a, b)) <==> ReduceFreeC(c) && ReduceFree(a) && ReduceFree(b)
  {
  }

  lemma SynOfBool(c: Cond)
    ensures Free(OfBool(c)) == FreeC(c) && (Flat(OfBool(c)) <==> FlatC(c)) &&
      (ReduceFree(OfBool(c)) <==> ReduceFreeC(c))
  {
  }

  lemma SynReduce(op: ReduceOp, body: Expr, rngs: seq<nat>)
    ensures Free(Reduce(op, body, rngs)) == Free(body) - set r | r in rngs
    ensures Flat(Reduce(op, body, rngs)) <==> ReduceFree(body)
    ensures !ReduceFree(Reduce(op, body, rngs))
  {
  }

  lemma SynLt(l: Expr, r: Expr)
    ensures FreeC(Lt(l, r)) == Free(l) + Free(r)
    ensures FlatC(Lt(l, r)) <==> Flat(l) && Flat(r)
    ensures ReduceFreeC(Lt(l, r)) <==> ReduceFree(l) && ReduceFree(r)
  {
  }

  lemma SynNe(l: Expr, r: Expr)
    ensures FreeC(Ne(l, r)) == Free(l) + Free(r)
    ensures FlatC(Ne(l, r)) <==> Flat(l) && Flat(r)
    ensures ReduceFreeC(Ne(l, r)) <==> ReduceFree(l) && ReduceFree(r)
  {
  }

  lemma SynNot(c: Cond)
    ensures FreeC(Not(c)) == FreeC(c) && (FlatC(Not(c)) <==> FlatC(c)) && (ReduceFreeC(Not(c)) <==> ReduceFreeC(c))
  {
  }

  lemma SynAnd(c: Cond, d: Cond)
    ensures FreeC(And(c, d)) == FreeC(c) + FreeC(d)
    ensures FlatC(And(c, d)) <==> FlatC(c) && FlatC(d)
    ensures ReduceFreeC(And(c, d)) <==> ReduceFreeC(c) && ReduceFreeC(d)
  {
  }

  /** Replaces range r by t. */
  function ReplaceRange(e: Expr, r: nat, t: Expr): Expr {
    match e
    case Rng(q) => if q == r then t else e
    case Load(buf, idx) => Load(buf, ReplaceRange(idx, r, t))
    case Bin(op, a, b) => Bin(op, ReplaceRange(a, r, t), ReplaceRange(b, r, t))
    case Where(c, a, b) => Where(ReplaceRangeC(c, r, t), ReplaceRange(a, r, t), ReplaceRange(b, r, t))
    case OfBool(c) => OfBool(ReplaceRangeC(c, r, t))
    case Reduce(op, body, rngs) => Reduce(op, ReplaceRange(body, r, t), rngs)
    case _ => e
  }

  function ReplaceRangeC(c: Cond, r: nat, t: Expr): Cond {
    match c
    case BVar(_) => c
    case Lt(a, b) => Lt(ReplaceRange(a, r, t), ReplaceRange(b, r, t))
    case Ne(a, b) => Ne(ReplaceRange(a, r, t), ReplaceRange(b, r, t))
    case Not(d) => Not(ReplaceRangeC(d, r, t))
    case And(d1, d2) => And(ReplaceRangeC(d1, r, t), ReplaceRangeC(d2, r, t))
  }

  // ---------------------------------------------------------------- what evaluation depends on

  /** Only the free ranges matter: binding another range changes nothing. */
  lemma {:induction false} UnusedRange(e: Expr, env: Env, r: nat, i: int)
    requires r !in Free(e)
    ensures Eval(e, Bind(env, r, i)) == Eval(e, env)
    decreases e, 0, 0
  {
    match e
    case Load(_, idx) => UnusedRange(idx, env, r, i);
    case Bin(_, a, b) => UnusedRange(a, env, r, i); UnusedRange(b, env, r, i);
    case Where(c, a, b) => UnusedRangeC(c, env, r, i); UnusedRange(a, env, r, i); UnusedRange(b, env, r, i);
    case OfBool(c) => UnusedRangeC(c, env, r, i);
    case Reduce(op, body, rngs) => UnusedRangeNest(op, body, rngs, env, r, i);
    case _ =>
  }

  lemma {:induction false} UnusedRangeC(c: Cond, env: Env, r: nat, i: int)
    requires r !in FreeC(c)
    ensures Holds(c, Bind(env, r, i)) == Holds(c, env)
    decreases c, 0, 0
  {
    match c
    case BVar(_) =>
    case Lt(a, b) => UnusedRange(a, env, r, i); UnusedRange(b, env, r, i);
    case Ne(a, b) => UnusedRange(a, env, r, i); UnusedRange(b, env, r, i);
    case Not(d) => UnusedRangeC(d, env, r, i);
    case And(d1, d2) => UnusedRangeC(d1, env, r, i); UnusedRangeC(d2, env, r, i);
  }

  lemma {:induction false} UnusedRangeNest(op: ReduceOp, body: Expr, rngs: seq<nat>, env: Env, r: nat, i: int)
    requires r !in Free(body) || r in rngs
    ensures Nest(op, body, rngs, Bind(env, r, i)) == Nest(op, body, rngs, env)
    decreases body, |rngs| + 1, 0
  {
    if rngs == [] {
      UnusedRange(body, env, r, i);
    } else {
      UnusedRangeFold(op, body, rngs, env, r, i, SizeOf(env, rngs[0]));
    }
  }

  lemma {:induction false} UnusedRangeFold(op: ReduceOp, body: Expr, rngs: seq<nat>, env: Env, r: nat, i: int, n: nat)
    requires rngs != [] && (r !in Free(body) || r in rngs)
    ensures Fold(op, body, rngs, Bind(env, r, i), n) == Fold(op, body, rngs, env, n)
    decreases body, |rngs|, n + 1
  {
    hide Eval, Nest, Free, Fold, Combine, SizeOf;
    FoldStep(op, body, rngs, env, n);
    FoldStep(op, body, rngs, Bind(env, r, i), n);
    if n > 0 {
      var q := rngs[0];
      if q == r {
        assert Bind(Bind(env, r, i), q, n - 1) == Bind(env, q, n - 1);
      } else {
        assert Bind(Bind(env, r, i), q, n - 1) == Bind(Bind(env, q, n - 1), r, i);
        assert r in rngs ==> r in rngs[1..];
        UnusedRangeNest(op, body, rngs[1..], Bind(env, q, n - 1), r, i);
      }
      if n > 1 {
        UnusedRangeFold(op, body, rngs, env, r, i, n - 1);
      }
    }
  }

  lemma FoldStep(op: ReduceOp, body: Expr, rngs: seq<nat>, env: Env, n: nat)
    requires rngs != []
    ensures n == 0 ==> Fold(op, body, rngs, env, n) == Neutral(op, env)
    ensures n == 1 ==> Fold(op, body, rngs, env, n) == Nest(op, body, rngs[1..], Bind(env, rngs[0], n - 1))
    ensures n > 1 ==>
      (var last := Nest(op, body, rngs[1..], Bind(env, rngs[0], n - 1));
       Fold(op, body, rngs, env, n) == Combine(op, Fold(op, body, rngs, env, n - 1), last))
  {
  }

  /** Replacing a range by a term is binding it to the term's value. */
  lemma {:induction false} ReplaceRangeValue(e: Expr, r: nat, t: Expr, env: Env)
    requires ReduceFree(e)
    ensures Eval(ReplaceRange(e, r, t), env) == Eval(e, Bind(env, r, Eval(t, env)))
  {
    match e
    case Load(_, idx) => ReplaceRangeValue(idx, r, t, env);
    case Bin(_, a, b) => ReplaceRangeValue(a, r, t, env); ReplaceRangeValue(b, r, t, env);
    case Where(c, a, b) =>
      ReplaceRangeValueC(c, r, t, env); ReplaceRangeValue(a, r, t, env); ReplaceRangeValue(b, r, t, env);
    case OfBool(c) => ReplaceRangeValueC(c, r, t, env);
    case _ =>
  }

  lemma {:induction false} ReplaceRangeValueC(c: Cond, r: nat, t: Expr, env: Env)
    requires ReduceFreeC(c)
    ensures Holds(ReplaceRangeC(c, r, t), env) == Holds(c, Bind(env, r, Eval(t, env)))
  {
    match c
    case BVar(_) =>
    case Lt(a, b) => ReplaceRangeValue(a, r, t, env); ReplaceRangeValue(b, r, t, env);
    case Ne(a, b) => ReplaceRangeValue(a, r, t, env); ReplaceRangeValue(b, r, t, env);
    case Not(d) => ReplaceRangeValueC(d, r, t, env);
    case And(d1, d2) => ReplaceRangeValueC(d1, r, t, env); ReplaceRangeValueC(d2, r, t, env);
  }

  lemma {:induction false} NoRangeNothingFree(e: Expr)
    requires NoRange(e)
    ensures Free(e) == {}
  {
    match e
    case Load(_, idx) => NoRangeNothingFree(idx);
    case Bin(_, a, b) => NoRangeNothingFree(a); NoRangeNothingFree(b);
    case Where(c, a, b) => NoRangeNothingFreeC(c); NoRangeNothingFree(a); NoRangeNothingFree(b);
    case OfBool(c) => NoRangeNothingFreeC(c);
    case Reduce(_, body, _) => NoRangeNothingFree(body);
    case _ =>
  }

  lemma {:induction false} NoRangeNothingFreeC(c: Cond)
    requires NoRangeC(c)
    ensures FreeC(c) == {}
  {
    match c
    case BVar(_) =>
    case Lt(a, b) => NoRangeNothingFree(a); NoRangeNothingFree(b);
    case Ne(a, b) => NoRangeNothingFree(a); NoRangeNothingFree(b);
    case Not(d) => NoRangeNothingFreeC(d);
    case And(d1, d2) => NoRangeNothingFreeC(d1); NoRangeNothingFreeC(d2);
  }

  /** Without reductions, having no range is having none free. */
  lemma {:induction false} NothingFreeNoRange(e: Expr)
    requires ReduceFree(e) && Free(e) == {}
    ensures NoRange(e)
  {
    match e
    case Load(_, idx) => NothingFreeNoRange(idx);
    case Bin(_, a, b) => NothingFreeNoRange(a); NothingFreeNoRange(b);
    case Where(c, a, b) => NothingFreeNoRangeC(c); NothingFreeNoRange(a); NothingFreeNoRange(b);
    case OfBool(c) => NothingFreeNoRangeC(c);
    case _ =>
  }

  lemma {:induction false} NothingFreeNoRangeC(c: Cond)
    requires ReduceFreeC(c) && FreeC(c) == {}
    ensures NoRangeC(c)
  {
    match c
    case BVar(_) =>
    case Lt(a, b) => NothingFreeNoRange(a); NothingFreeNoRange(b);
    case Ne(a, b) => NothingFreeNoRange(a); NothingFreeNoRange(b);
    case Not(d) => NothingFreeNoRangeC(d);
    case And(d1, d2) => NothingFreeNoRangeC(d1); NothingFreeNoRangeC(d2);
  }

  /** Equal bodies have equal reductions. */
  lemma {:induction false} NestCongruent(op: ReduceOp, b1: Expr, b2: Expr, rngs: seq<nat>, env: Env)
    requires forall m :: Eval(b1, env.(rngs := m)) == Eval(b2, env.(rngs := m))
    ensures Nest(op, b1, rngs, env) == Nest(op, b2, rngs, env)
    decreases |rngs| + 1, 0
  {
    if rngs == [] {
      assert env == env.(rngs := env.rngs);
    } else {
      FoldCongruent(op, b1, b2, rngs, env, SizeOf(env, rngs[0]));
    }
  }

  lemma {:induction false} FoldCongruent(op: ReduceOp, b1: Expr, b2: Expr, rngs: seq<nat>, env: Env, n: nat)
    requires rngs != [] && forall m :: Eval(b1, env.(rngs := m)) == Eval(b2, env.(rngs := m))
    ensures Fold(op, b1, rngs, env, n) == Fold(op, b2, rngs, env, n)
    decreases |rngs|, n + 1
  {
    hide Eval;
    if n > 0 {
      var inner := Bind(env, rngs[0], n - 1);
      forall m ensures Eval(b1, inner.(rngs := m)) == Eval(b2, inner.(rngs := m)) {
        assert inner.(rngs := m) == env.(rngs := m);
      }
      NestCongruent(op, b1, b2, rngs[1..], inner);
      if n > 1 {
        FoldCongruent(op, b1, b2, rngs, env, n - 1);
      }
    }
  }
}
