/**
  reduce_collapse in `tinygrad/codegen/simplify.py`: for each range in turn, subterms that do not depend on it
  are abstracted to variables, the sum over the range is rewritten until no range is left, and the subterms
  are put back. The rewriting is right if the rules check their bounds or nothing is simplified, as in
  `ReduceCollapse.AcceptedRunIsSound`; then the whole is, wherever the ranges around it are in bounds.
 */
module CollapsePasses {
  import opened IndexExpr
  import opened ReduceCollapse

  /** Replaces variables by expressions. */
  function Restore(e: Expr, sub: map<nat, Expr>): Expr {
    match e
    case Var(x) => if x in sub then sub[x] else e
    case Load(buf, idx) => Load(buf, Restore(idx, sub))
    case Bin(op, a, b) => Bin(op, Restore(a, sub), Restore(b, sub))
    case Where(c, a, b) => Where(RestoreC(c, sub), Restore(a, sub), Restore(b, sub))
    case OfBool(c) => OfBool(RestoreC(c, sub))
    case Reduce(op, body, rngs) => Reduce(op, Restore(body, sub), rngs)
    case _ => e
  }

  function RestoreC(c: Cond, sub: map<nat, Expr>): Cond {
    match c
    case BVar(_) => c
    case Lt(l, r) => Lt(Restore(l, sub), Restore(r, sub))
    case Ne(l, r) => Ne(Restore(l, sub), Restore(r, sub))
    case Not(d) => Not(RestoreC(d, sub))
    case And(d1, d2) => And(RestoreC(d1, sub), RestoreC(d2, sub))
  }

  function ValuesOf(sub: map<nat, Expr>, env: Env): map<nat, int> {
    map x | x in sub :: Eval(sub[x], env)
  }

  /** The environment in which the variables stand for the abstracted subterms. */
  function Abstracted(sub: map<nat, Expr>, env: Env): Env {
    env.(vars := env.vars + ValuesOf(sub, env))
  }

  lemma {:induction false} RestoreValue(e: Expr, sub: map<nat, Expr>, env: Env)
    requires ReduceFree(e) || NoRange(e)
    ensures Eval(Restore(e, sub), env) == Eval(e, Abstracted(sub, env))
  {
    match e
    case Load(_, idx) => RestoreValue(idx, sub, env);
    case Bin(_, a, b) => RestoreValue(a, sub, env); RestoreValue(b, sub, env);
    case Where(c, a, b) => RestoreValueC(c, sub, env); RestoreValue(a, sub, env); RestoreValue(b, sub, env);
    case OfBool(c) => RestoreValueC(c, sub, env);
    case Reduce(op, body, rngs) =>
      RestoreValue(body, sub, env);
      assert rngs == [];
      EvalReduce(op, body, rngs, Abstracted(sub, env));
      EvalReduce(op, Restore(body, sub), rngs, env);
    case _ =>
  }

  lemma {:induction false} RestoreValueC(c: Cond, sub: map<nat, Expr>, env: Env)
    requires ReduceFreeC(c) || NoRangeC(c)
    ensures Holds(RestoreC(c, sub), env) == Holds(c, Abstracted(sub, env))
  {
    match c
    case BVar(_) =>
    case Lt(l, r) => RestoreValue(l, sub, env); RestoreValue(r, sub, env);
    case Ne(l, r) => RestoreValue(l, sub, env); RestoreValue(r, sub, env);
    case Not(d) => RestoreValueC(d, sub, env);
    case And(d1, d2) => RestoreValueC(d1, sub, env); RestoreValueC(d2, sub, env);
  }

  /** The abstracted subterms do not depend on the range, so the sum can be taken over the abstract body. */
  lemma {:induction false} AbstractFold(a: Expr, sub: map<nat, Expr>, r: nat, env: Env, n: nat)
    requires ReduceFree(a) && forall x :: x in sub ==> r !in Free(sub[x])
    ensures Fold(SUM, Restore(a, sub), [r], env, n) == Fold(SUM, a, [r], Abstracted(sub, env), n)
  {
    hide Eval, Nest, Fold, Restore, Free, ReduceFree;
    FoldStep(SUM, Restore(a, sub), [r], env, n);
    FoldStep(SUM, a, [r], Abstracted(sub, env), n);
    if n > 0 {
      var inner := Bind(env, r, n - 1);
      forall x | x in sub ensures Eval(sub[x], inner) == Eval(sub[x], env) {
        UnusedRange(sub[x], env, r, n - 1);
      }
      assert ValuesOf(sub, inner) == ValuesOf(sub, env);
      assert Abstracted(sub, inner) == Bind(Abstracted(sub, env), r, n - 1);
      RestoreValue(a, sub, inner);
      NestNothing(Restore(a, sub), inner);
      NestNothing(a, Abstracted(sub, inner));
      assert [r][1..] == [];
      if n > 1 {
        AbstractFold(a, sub, r, env, n - 1);
      }
    }
  }

  lemma NestNothing(e: Expr, env: Env)
    ensures Nest(SUM, e, [], env) == Eval(e, env)
  {
  }

  lemma NestOne(e: Expr, r: nat, env: Env)
    ensures Nest(SUM, e, [r], env) == Fold(SUM, e, [r], env, SizeOf(env, r))
  {
  }

  // ---------------------------------------------------------------- one range

  /**
    One iteration: `body` with the subterms in `sub` put back is the expression being summed over `r`, and
    `run` is the rewriter's work on the sum of `body`.
   */
  datatype Pass = Pass(r: nat, body: Expr, sub: map<nat, Expr>, an: Analysis, run: seq<Expr>)

  /**
    base: the values of interest of everything but ranges; scope: the ranges around the sum. The bounds declared
    for the abstracted subterms are right wherever those ranges are in bounds.
   */
  ghost predicate PassOk(p: Pass, base: Env -> bool, scope: set<nat>) {
    && ReduceFree(p.body) && Free(p.body) <= scope + {p.r}
    && (forall x :: x in p.sub ==> p.r !in Free(p.sub[x]))
    && SoundAnalysis(p.an) && IsRun(p.an, p.run) && p.run[0] == Reduce(SUM, p.body, [p.r])
    && NoRange(p.run[|p.run| - 1])
    && (forall env | base(env) && Bounded(env, scope) :: OkEnv(p.an, Abstracted(p.sub, env)))
  }

  /** The rules of the run check what they replace, or nothing was simplified. */
  ghost predicate Safe(p: Pass) { AllChecked(p.an) || RulesAlone(p.an, p.run) }

  function PassInput(p: Pass): Expr { Restore(p.body, p.sub) }

  function PassOutput(p: Pass): Expr
    requires |p.run| > 0
  {
    Restore(p.run[|p.run| - 1], p.sub)
  }

  /** An accepted iteration replaces the sum over its range by an expression of the same value. */
  lemma PassIsSound(p: Pass, base: Env -> bool, scope: set<nat>, env: Env)
    requires PassOk(p, base, scope) && Safe(p) && base(env) && Bounded(env, scope)
    ensures Eval(PassOutput(p), env) == Eval(Reduce(SUM, PassInput(p), [p.r]), env)
  {
    var env' := Abstracted(p.sub, env);
    var last := p.run[|p.run| - 1];
    SynReduce(SUM, p.body, [p.r]);
    RestoreValue(last, p.sub, env);
    assert Bounded(env', Free(p.run[0]));
    AcceptedRunIsSound(p.an, p.run, env');
    hide Eval, Nest, Fold, Restore, Flat, Free, ReduceFree;
    EvalReduce(SUM, p.body, [p.r], env');
    EvalReduce(SUM, PassInput(p), [p.r], env);
    NestOne(p.body, p.r, env');
    NestOne(PassInput(p), p.r, env);
    assert SizeOf(env', p.r) == SizeOf(env, p.r);
    AbstractFold(p.body, p.sub, p.r, env, SizeOf(env, p.r));
  }

  // ---------------------------------------------------------------- all ranges

  lemma AddFolds(u: Expr, rngs: seq<nat>, env: Env, n: nat)
    requires rngs != [] && n > 0
    ensures Fold(SUM, u, rngs, env, n) ==
      Fold(SUM, u, rngs, env, n - 1) + Nest(SUM, u, rngs[1..], Bind(env, rngs[0], n - 1))
  {
  }

  /** Sum over i < n of range q of the sum over the first m values of range p. */
  function PartialSums(u: Expr, q: nat, p: nat, rest: seq<nat>, env: Env, n: nat, m: nat): int {
    if n == 0 then 0
    else PartialSums(u, q, p, rest, env, n - 1, m) + Fold(SUM, u, [p] + rest, Bind(env, q, n - 1), m)
  }

  lemma {:induction false} InnerStep(u: Expr, q: nat, p: nat, rest: seq<nat>, env: Env, n: nat, m: nat)
    requires q != p && n > 0
    ensures PartialSums(u, p, q, rest, env, m, n) ==
      PartialSums(u, p, q, rest, env, m, n - 1) + Fold(SUM, u, [p] + rest, Bind(env, q, n - 1), m)
    decreases m
  {
    hide Eval, Nest, Fold;
    var inner := Bind(env, q, n - 1);
    FoldStep(SUM, u, [p] + rest, inner, m);
    if m > 0 {
      var at := Bind(env, p, m - 1);
      InnerStep(u, q, p, rest, env, n, m - 1);
      AddFolds(u, [q] + rest, at, n);
      AddFolds(u, [p] + rest, inner, m);
      assert ([q] + rest)[1..] == rest && ([p] + rest)[1..] == rest;
      assert Bind(at, q, n - 1) == Bind(inner, p, m - 1);
    }
  }

  /** Sums over two ranges commute, for any numbers of their values. */
  lemma {:induction false} SwapSums(u: Expr, q: nat, p: nat, rest: seq<nat>, env: Env, n: nat, m: nat)
    requires q != p
    ensures PartialSums(u, q, p, rest, env, n, m) == PartialSums(u, p, q, rest, env, m, n)
    decreases n
  {
    if n == 0 {
      EmptyInner(u, p, q, rest, env, m);
    } else {
      SwapSums(u, q, p, rest, env, n - 1, m);
      InnerStep(u, q, p, rest, env, n, m);
    }
  }

  lemma {:induction false} EmptyInner(u: Expr, p: nat, q: nat, rest: seq<nat>, env: Env, m: nat)
    ensures PartialSums(u, p, q, rest, env, m, 0) == 0
  {
    if m > 0 {
      EmptyInner(u, p, q, rest, env, m - 1);
    }
  }

  lemma {:induction false} FoldAsPartialSums(u: Expr, q: nat, p: nat, rest: seq<nat>, env: Env, n: nat)
    ensures Fold(SUM, u, [q] + ([p] + rest), env, n) == PartialSums(u, q, p, rest, env, n, SizeOf(env, p))
  {
    hide Eval, Nest, Fold;
    FoldStep(SUM, u, [q] + ([p] + rest), env, n);
    if n > 0 {
      FoldAsPartialSums(u, q, p, rest, env, n - 1);
      AddFolds(u, [q] + ([p] + rest), env, n);
      assert ([q] + ([p] + rest))[1..] == [p] + rest;
      var inner := Bind(env, q, n - 1);
      NestFirst(u, p, rest, inner);
      assert SizeOf(inner, p) == SizeOf(env, p);
    }
  }

  lemma NestFirst(u: Expr, p: nat, rest: seq<nat>, env: Env)
    ensures Nest(SUM, u, [p] + rest, env) == Fold(SUM, u, [p] + rest, env, SizeOf(env, p))
  {
  }

  lemma SwapRanges(u: Expr, q: nat, p: nat, rest: seq<nat>, env: Env)
    requires q != p
    ensures Nest(SUM, u, [q] + ([p] + rest), env) == Nest(SUM, u, [p] + ([q] + rest), env)
  {
    hide Eval, Nest, Fold;
    NestFirst(u, q, [p] + rest, env);
    NestFirst(u, p, [q] + rest, env);
    FoldAsPartialSums(u, q, p, rest, env, SizeOf(env, q));
    FoldAsPartialSums(u, p, q, rest, env, SizeOf(env, p));
    SwapSums(u, q, p, rest, env, SizeOf(env, q), SizeOf(env, p));
  }

  /** Summing over q first and then over the others is summing over all of them. */
  lemma {:induction false} SumFirstRange(u: Expr, q: nat, rest: seq<nat>, env: Env)
    requires q !in rest
    ensures Nest(SUM, Reduce(SUM, u, [q]), rest, env) == Nest(SUM, u, [q] + rest, env)
    decreases |rest|, 0
  {
    if rest == [] {
      assert [q] + rest == [q];
      NestNothing(Reduce(SUM, u, [q]), env);
      EvalReduce(SUM, u, [q], env);
    } else {
      var p, tail := rest[0], rest[1..];
      assert rest == [p] + tail && q !in tail;
      NestFirst(Reduce(SUM, u, [q]), p, tail, env);
      SumFirstRangeFold(u, q, p, tail, env, SizeOf(env, p));
      NestFirst(u, p, [q] + tail, env);
      SwapRanges(u, q, p, tail, env);
    }
  }

  lemma {:induction false} SumFirstRangeFold(u: Expr, q: nat, p: nat, tail: seq<nat>, env: Env, n: nat)
    requires q != p && q !in tail
    ensures Fold(SUM, Reduce(SUM, u, [q]), [p] + tail, env, n) == Fold(SUM, u, [p] + ([q] + tail), env, n)
    decreases |tail|, 1, n
  {
    hide Eval, Nest, Fold;
    var v := Reduce(SUM, u, [q]);
    FoldStep(SUM, v, [p] + tail, env, n);
    FoldStep(SUM, u, [p] + ([q] + tail), env, n);
    if n > 0 {
      assert ([p] + tail)[1..] == tail && ([p] + ([q] + tail))[1..] == [q] + tail;
      SumFirstRange(u, q, tail, Bind(env, p, n - 1));
      if n > 1 {
        SumFirstRangeFold(u, q, p, tail, env, n - 1);
      }
    }
  }

  ghost predicate Distinct(rngs: seq<nat>) {
    rngs == [] || (rngs[0] !in rngs[1..] && Distinct(rngs[1..]))
  }

  function Ranges(passes: seq<Pass>): seq<nat> {
    if passes == [] then [] else [passes[0].r] + Ranges(passes[1..])
  }

  /** Each iteration works on what the one before it produced, inside the outer ranges and those still to come. */
  ghost predicate IsCollapse(u: Expr, passes: seq<Pass>, base: Env -> bool, outer: set<nat>)
    decreases |passes|
  {
    passes == [] || (
      && PassOk(passes[0], base, outer + RangeSet(passes[1..])) && PassInput(passes[0]) == u
      && IsCollapse(PassOutput(passes[0]), passes[1..], base, outer))
  }

  function RangeSet(passes: seq<Pass>): set<nat> { set r | r in Ranges(passes) }

  function Result(u: Expr, passes: seq<Pass>): Expr
    requires forall i :: 0 <= i < |passes| ==> |passes[i].run| > 0
    decreases |passes|
  {
    if passes == [] then u else Result(PassOutput(passes[0]), passes[1..])
  }

  lemma CollapseRuns(u: Expr, passes: seq<Pass>, base: Env -> bool, outer: set<nat>)
    requires IsCollapse(u, passes, base, outer)
    ensures forall i :: 0 <= i < |passes| ==> |passes[i].run| > 0
    decreases |passes|
  {
    if passes != [] {
      CollapseRuns(PassOutput(passes[0]), passes[1..], base, outer);
      forall i | 0 <= i < |passes| ensures |passes[i].run| > 0 {
        if i > 0 { assert passes[1..][i - 1] == passes[i]; }
      }
    }
  }

  lemma BoundedAfterBind(env: Env, outer: set<nat>, q: nat, i: int)
    requires Bounded(env, outer) && 0 <= i < SizeOf(env, q)
    ensures Bounded(Bind(env, q, i), outer + {q})
  {
    forall r | r in outer + {q} ensures r in Bind(env, q, i).rngs && 0 <= Bind(env, q, i).rngs[r] < SizeOf(env, r) {
    }
  }

  ghost predicate EqualWithin(b1: Expr, b2: Expr, scope: set<nat>, env: Env) {
    forall m | Bounded(env.(rngs := m), scope) :: Eval(b1, env.(rngs := m)) == Eval(b2, env.(rngs := m))
  }

  lemma EqualAfterBind(b1: Expr, b2: Expr, scope: set<nat>, env: Env, q: nat, i: int)
    requires EqualWithin(b1, b2, scope, env)
    ensures EqualWithin(b1, b2, scope, Bind(env, q, i))
  {
    hide Eval, Bounded;
    var inner := Bind(env, q, i);
    forall m | Bounded(inner.(rngs := m), scope) ensures Eval(b1, inner.(rngs := m)) == Eval(b2, inner.(rngs := m)) {
      assert inner.(rngs := m) == env.(rngs := m);
    }
  }

  /** Bodies that are equal wherever the ranges are in bounds have equal reductions. */
  lemma {:induction false} NestAgrees(b1: Expr, b2: Expr, rngs: seq<nat>, outer: set<nat>, env: Env)
    requires Bounded(env, outer) && EqualWithin(b1, b2, outer + (set r | r in rngs), env)
    ensures Nest(SUM, b1, rngs, env) == Nest(SUM, b2, rngs, env)
    decreases |rngs| + 1, 0
  {
    if rngs == [] {
      assert env == env.(rngs := env.rngs);
      assert outer + (set r | r in rngs) == outer;
    } else {
      FoldAgrees(b1, b2, rngs, outer, env, SizeOf(env, rngs[0]));
    }
  }

  lemma {:induction false} FoldAgrees(b1: Expr, b2: Expr, rngs: seq<nat>, outer: set<nat>, env: Env, n: nat)
    requires rngs != [] && n <= SizeOf(env, rngs[0])
    requires Bounded(env, outer) && EqualWithin(b1, b2, outer + (set r | r in rngs), env)
    ensures Fold(SUM, b1, rngs, env, n) == Fold(SUM, b2, rngs, env, n)
    decreases |rngs|, n + 1
  {
    hide Eval, Nest, Fold, Bounded, EqualWithin, Bind;
    FoldStep(SUM, b1, rngs, env, n);
    FoldStep(SUM, b2, rngs, env, n);
    if n > 0 {
      var q, rest := rngs[0], rngs[1..];
      BoundedAfterBind(env, outer, q, n - 1);
      EqualAfterBind(b1, b2, outer + (set r | r in rngs), env, q, n - 1);
      assert (outer + {q}) + (set r | r in rest) == outer + set r | r in rngs by {
        assert rngs == [q] + rest;
      }
      NestAgrees(b1, b2, rest, outer + {q}, Bind(env, q, n - 1));
      if n > 1 {
        FoldAgrees(b1, b2, rngs, outer, env, n - 1);
      }
    }
  }

  /** The whole of reduce_collapse: if every range is accepted, the result is the sum over all of them. */
  lemma {:induction false} CollapseIsSound(
    u: Expr, passes: seq<Pass>, base: Env -> bool, outer: set<nat>, env: Env)
    requires IsCollapse(u, passes, base, outer) && Distinct(Ranges(passes))
    requires forall i :: 0 <= i < |passes| ==> Safe(passes[i])
    requires forall e: Env, m | base(e) :: base(e.(rngs := m))
    requires base(env) && Bounded(env, outer)
    ensures forall i :: 0 <= i < |passes| ==> |passes[i].run| > 0
    ensures Eval(Result(u, passes), env) == Nest(SUM, u, Ranges(passes), env)
    decreases |passes|
  {
    CollapseRuns(u, passes, base, outer);
    if passes == [] {
      NestNothing(u, env);
    } else {
      var p, rest := passes[0], passes[1..];
      assert Ranges(passes)[0] == p.r && Ranges(passes)[1..] == Ranges(rest);
      CollapseIsSound(PassOutput(p), rest, base, outer, env);
      var scope := outer + RangeSet(rest);
      forall m | Bounded(env.(rngs := m), scope)
        ensures Eval(PassOutput(p), env.(rngs := m)) == Eval(Reduce(SUM, u, [p.r]), env.(rngs := m))
      {
        PassIsSound(p, base, scope, env.(rngs := m));
      }
      assert EqualWithin(PassOutput(p), Reduce(SUM, u, [p.r]), scope, env);
      NestAgrees(PassOutput(p), Reduce(SUM, u, [p.r]), Ranges(rest), outer, env);
      SumFirstRange(u, p.r, Ranges(rest), env);
    }
  }
}
