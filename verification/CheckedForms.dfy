/**
  Whether the rules that replace a sum by a closed form need to check that what the range is compared with does
  not mention it (`tinygrad/codegen/simplify.py`, where none of them checks). They all do: for each there is a
  run of the rewriter that passes the final test and has another value than the sum (`RunsAreSoundIff`).
 */
module CheckedForms {
  import opened IndexExpr
  import opened IndexMath
  import opened ReduceRules
  import opened ReduceCollapse
  import opened CollapsePasses

  // ---------------------------------------------------------------- bounds from two sides, one-hot ranges

  /**
    A run of the code's own rules that is accepted and wrong: the rule for two bounds sets r free, its closed
    form is 1 for every r, and any simplifier may say so. The sum over four values is 2.
   */
  lemma CancelledRange(an: Analysis, env: Env)
    requires TwoSides !in an.checks && OkEnv(an, env) && SizeOf(env, 0) == 4
    ensures
      var es := [ParitySum(), ParityClosed(), Const(1)];
      && IsRun(an, es) && Flat(es[0]) && Free(es[0]) == {} && NoRange(es[2])
      && Eval(es[0], env) == 2 && Eval(es[2], env) == 1
  {
    ParitySyntax();
    ParitySumValue(env);
    EvalLeaf(1, env);
    assert BoundFromTwoSides(ParitySum(), ParityClosed());
    assert Simplifies(an, ParityClosed(), Const(1)) by {
      forall env' | OkEnv(an, env') && Bounded(env', Free(ParityClosed()))
        ensures Eval(Const(1), env') == Eval(ParityClosed(), env')
      {
        assert 0 in Free(ParityClosed());
        ParityClosedValue(env');
        EvalLeaf(1, env');
      }
    }
  }

  lemma ParityOperands()
    ensures
      var lower, upper := Parity(0), Bin(Add, Parity(0), Const(1));
      && Free(lower) == {0} && Flat(lower) && ReduceFree(lower)
      && Free(upper) == {0} && Flat(upper) && ReduceFree(upper)
  {
  }

  lemma ParitySyntax()
    ensures Flat(ParitySum()) && Free(ParitySum()) == {} && Free(ParityClosed()) == {0}
  {
    var lower, upper := Parity(0), Bin(Add, Parity(0), Const(1));
    ParityOperands();
    hide Flat, FlatC, Free, FreeC, ReduceFree, ReduceFreeC, Parity;
    var body := ParitySum().body;
    SynLeaf(Const(0)); SynLeaf(Const(1));
    TwoSidesCondSyntax(0, lower, upper);
    SynWhere(body.c, Const(1), Const(0));
    SynReduce(SUM, body, [0]);
    assert Free(ParitySum()) == {};
    TwoSidesClosedSyntax(0, lower, upper);
    SynBin(Mul, ParityClosed().a, Const(1));
  }

  /** The same for a one-hot range: the result is 1 for every value of the range, the sum is its size. */
  lemma CancelledIndex(an: Analysis, env: Env)
    requires Hot !in an.checks && OkEnv(an, env) && SizeOf(env, 0) == 4
    ensures
      var es := [HotSum(), HotClosed(), Const(1)];
      && IsRun(an, es) && Flat(es[0]) && Free(es[0]) == {} && NoRange(es[2])
      && Eval(es[0], env) == 4 && Eval(es[2], env) == 1
  {
    HotSyntax();
    HotSumValue(env);
    EvalLeaf(1, env);
    assert OneHot(HotSum(), HotClosed());
    hide Eval, Free, Flat, HotClosed, HotSum, OkEnv;
    assert Simplifies(an, HotClosed(), Const(1)) by {
      SynLeaf(Const(1));
      forall env' | OkEnv(an, env') && Bounded(env', Free(HotClosed()))
        ensures Eval(Const(1), env') == Eval(HotClosed(), env')
      {
        assert 0 in Free(HotClosed());
        HotClosedValue(env');
        EvalLeaf(1, env');
      }
    }
  }

  lemma HotSyntax()
    ensures Flat(HotSum()) && Free(HotSum()) == {} && Free(HotClosed()) == {0}
  {
    hide Flat, FlatC, Free, FreeC, ReduceFree, ReduceFreeC;
    var idx := Rng(0);
    SynLeaf(idx); SynLeaf(Const(0)); SynLeaf(Const(1)); SynLeaf(Size(0));
    SynNe(idx, idx);
    SynWhere(Ne(idx, idx), Const(0), Const(1));
    SynReduce(SUM, HotSum().body, [0]);
    SynLt(idx, Const(0)); SynNot(Lt(idx, Const(0))); SynLt(idx, Size(0));
    SynAnd(Not(Lt(idx, Const(0))), Lt(idx, Size(0)));
    SynWhere(InRange(idx, 0), Const(1), Const(0));
  }

  // ---------------------------------------------------------------- bounds from one side

  /** The value v on the iterations that a cut leaves: for Above those before x, for Below the last x. */
  function Gate(above: bool, x: Expr, v: int): Expr {
    if above then Where(Lt(Rng(0), x), Const(v), Const(0))
    else Where(Lt(Rng(0), Bin(Sub, Size(0), x)), Const(0), Const(v))
  }

  function GateSum(above: bool, x: Expr, v: int): Expr { Reduce(SUM, Gate(above, x, v), [0]) }

  function GateClosed(above: bool, x: Expr, v: int): Expr {
    Bin(Mul, ClampedSize(if above then x else Bin(Sub, Size(0), Bin(Sub, Size(0), x)), 0), Const(v))
  }

  function Next(): Expr { Bin(Add, Rng(0), Const(1)) }

  lemma GateValue(above: bool, x: Expr, v: int, env: Env, i: int)
    ensures
      var env' := Bind(env, 0, i);
      var t := Eval(x, env');
      Eval(Gate(above, x, v), env') == if (if above then i < t else SizeOf(env, 0) - t <= i) then v else 0
  {
    var env' := Bind(env, 0, i);
    CutAt(0, x, Const(v), Const(0), env, i);
    CutAt(0, Bin(Sub, Size(0), x), Const(0), Const(v), env, i);
    EvalLeaf(v, env');
    EvalLeaves(0, i, env');
    hide Eval;
    DifferenceOf(Size(0), x, env');
  }

  lemma GateClosedValue(above: bool, x: Expr, v: int, env: Env)
    ensures Eval(GateClosed(above, x, v), env) == Least(Greatest(Eval(x, env), 0), SizeOf(env, 0)) * v
  {
    EvalLeaf(v, env);
    EvalLeaves(0, 0, env);
    hide Eval;
    var cut := Bin(Sub, Size(0), x);
    DifferenceOf(Size(0), x, env);
    DifferenceOf(Size(0), cut, env);
    EvalClampedSize(x, 0, env);
    EvalClampedSize(Bin(Sub, Size(0), cut), 0, env);
    ProductOf(GateClosed(above, x, v).a, Const(v), env);
  }

  lemma GateSyntax(above: bool, x: Expr, v: int)
    requires Flat(x) && ReduceFree(x) && Free(x) == {0}
    ensures Flat(GateSum(above, x, v)) && Free(Gate(above, x, v)) == {0} && ReduceFree(Gate(above, x, v))
    ensures Free(GateClosed(above, x, v)) == {0}
    ensures
      if above then BoundFromAbove(GateSum(above, x, v), GateClosed(above, x, v))
      else BoundFromBelow(GateSum(above, x, v), GateClosed(above, x, v))
  {
    hide Flat, FlatC, Free, FreeC, ReduceFree, ReduceFreeC;
    var cut := Bin(Sub, Size(0), x);
    SynLeaf(Rng(0)); SynLeaf(Const(0)); SynLeaf(Const(v)); SynLeaf(Size(0));
    SynBin(Sub, Size(0), x);
    SynBin(Sub, Size(0), cut);
    SynLt(Rng(0), x);
    SynLt(Rng(0), cut);
    SynWhere(Lt(Rng(0), x), Const(v), Const(0));
    SynWhere(Lt(Rng(0), cut), Const(0), Const(v));
    SynReduce(SUM, Gate(above, x, v), [0]);
    ClampSyntax(x, 0);
    ClampSyntax(Bin(Sub, Size(0), cut), 0);
    SynBin(Mul, GateClosed(above, x, v).a, Const(v));
  }

  /** The difference of two sums, its two parts, and their closed forms. */
  function Whole(above: bool): Expr {
    Reduce(SUM, Bin(Add, Gate(above, Rng(0), 1), Gate(above, Next(), -1)), [0])
  }

  function Parts(above: bool): Expr {
    Bin(Add, GateSum(above, Rng(0), 1), GateSum(above, Next(), -1))
  }

  function PartsClosed(above: bool): Expr {
    Bin(Add, GateClosed(above, Rng(0), 1), GateClosed(above, Next(), -1))
  }

  lemma NextIs(env: Env)
    ensures Eval(Next(), env) == Eval(Rng(0), env) + 1
    ensures Flat(Next()) && ReduceFree(Next()) && Free(Next()) == {0}
  {
    SynLeaf(Rng(0)); SynLeaf(Const(1));
    SynBin(Add, Rng(0), Const(1));
    EvalLeaf(1, env);
    hide Eval, Free, Flat, ReduceFree;
    EvalOfBin(Add, Rng(0), Const(1), env);
  }

  lemma WholeSyntax(above: bool, env: Env)
    ensures Flat(Whole(above)) && Free(Whole(above)) == {} && Free(PartsClosed(above)) == {0}
  {
    NextIs(env);
    SynLeaf(Rng(0));
    GateSyntax(above, Rng(0), 1);
    GateSyntax(above, Next(), -1);
    hide Flat, Free, ReduceFree, Gate, GateClosed, Next;
    SynBin(Add, Gate(above, Rng(0), 1), Gate(above, Next(), -1));
    SynReduce(SUM, Whole(above).body, [0]);
    SynBin(Add, GateClosed(above, Rng(0), 1), GateClosed(above, Next(), -1));
  }

  /** One of the two sums, over four values of the range. */
  lemma GateSumValue(above: bool, x: Expr, v: int, lo: nat, env: Env)
    requires SizeOf(env, 0) == 4 && lo <= 4
    requires forall i | 0 <= i < 4 ::
      (if above then i < Eval(x, Bind(env, 0, i)) else 4 - Eval(x, Bind(env, 0, i)) <= i) <==> lo <= i
    ensures Eval(GateSum(above, x, v), env) == (4 - lo) * v
  {
    hide Eval;
    var body := Gate(above, x, v);
    forall i | 0 <= i < 4 ensures Eval(body, Bind(env, 0, i)) == if lo <= i < 4 then v else 0 {
      GateValue(above, x, v, env, i);
    }
    SumOfInterval(body, 0, env, 4, lo, 4, v);
    EvalSum(body, 0, env);
  }

  lemma WholeValue(above: bool, env: Env)
    requires SizeOf(env, 0) == 4
    ensures Eval(Whole(above), env) == if above then -4 else 0
  {
    forall i ensures Eval(Rng(0), Bind(env, 0, i)) == i && Eval(Next(), Bind(env, 0, i)) == i + 1 {
      EvalLeaves(0, i, env);
      NextIs(Bind(env, 0, i));
    }
    hide Eval, Next, Nest;
    GateSumValue(above, Rng(0), 1, if above then 4 else 2, env);
    GateSumValue(above, Next(), -1, if above then 0 else 2, env);
    NestOfSum(Gate(above, Rng(0), 1), Gate(above, Next(), -1), [0], env);
    EvalReduce(SUM, Whole(above).body, [0], env);
    EvalReduce(SUM, Gate(above, Rng(0), 1), [0], env);
    EvalReduce(SUM, Gate(above, Next(), -1), [0], env);
  }

  lemma PartsClosedValue(above: bool, env: Env)
    requires 0 in env.rngs && 0 <= env.rngs[0] < SizeOf(env, 0)
    ensures Eval(PartsClosed(above), env) == -1
  {
    assert Eval(Rng(0), env) == env.rngs[0];
    NextIs(env);
    hide Eval, Next, GateClosed;
    GateClosedValue(above, Rng(0), 1, env);
    GateClosedValue(above, Next(), -1, env);
    EvalOfBin(Add, GateClosed(above, Rng(0), 1), GateClosed(above, Next(), -1), env);
  }

  lemma RootRewrites(an: Analysis, e: Expr, e': Expr)
    requires Root(an, e, e')
    ensures Rewrites(an, e, e')
  {
    hide Root, RewritesC;
  }

  lemma BinRewrites(an: Analysis, op: BinOp, a: Expr, b: Expr, a': Expr, b': Expr)
    requires Rewrites(an, a, a') && Rewrites(an, b, b')
    ensures Rewrites(an, Bin(op, a, b), Bin(op, a', b'))
  {
    hide Root, RewritesC;
  }

  lemma GateRewrites(an: Analysis, above: bool, x: Expr, v: int)
    requires (if above then Above else Below) !in an.checks && Flat(x) && ReduceFree(x) && Free(x) == {0}
    ensures Rewrites(an, GateSum(above, x, v), GateClosed(above, x, v))
  {
    GateSyntax(above, x, v);
    hide Flat, Free, ReduceFree, Gate, GateClosed, BoundFromAbove, BoundFromBelow, Rewrites;
    assert Uses(an, if above then Above else Below, GateSum(above, x, v), GateClosed(above, x, v));
    RootRewrites(an, GateSum(above, x, v), GateClosed(above, x, v));
  }

  lemma WholeRewrites(an: Analysis, above: bool, env: Env)
    requires (if above then Above else Below) !in an.checks
    ensures Rewrites(an, Whole(above), Parts(above)) && Rewrites(an, Parts(above), PartsClosed(above))
  {
    NextIs(env);
    SynLeaf(Rng(0));
    hide Flat, Free, ReduceFree, Gate, GateClosed, Next, Rewrites, ClosedForm, LiftFlag, Unparent;
    assert SplitSum(Whole(above), Parts(above));
    RootRewrites(an, Whole(above), Parts(above));
    GateRewrites(an, above, Rng(0), 1);
    GateRewrites(an, above, Next(), -1);
    BinRewrites(an, Add, GateSum(above, Rng(0), 1), GateSum(above, Next(), -1),
                GateClosed(above, Rng(0), 1), GateClosed(above, Next(), -1));
  }

  lemma PartsCancel(an: Analysis, above: bool)
    requires Free(PartsClosed(above)) == {0}
    ensures Simplifies(an, PartsClosed(above), Const(-1))
  {
    hide Eval, OkEnv, Flat, Free, PartsClosed;
    SynLeaf(Const(-1));
    forall env | OkEnv(an, env) && Bounded(env, Free(PartsClosed(above)))
      ensures Eval(Const(-1), env) == Eval(PartsClosed(above), env)
    {
      assert 0 in Free(PartsClosed(above));
      PartsClosedValue(above, env);
      EvalLeaf(-1, env);
    }
  }

  lemma WholeRun(an: Analysis, above: bool, env: Env)
    requires (if above then Above else Below) !in an.checks
    ensures IsRun(an, [Whole(above), Parts(above), PartsClosed(above), Const(-1)])
  {
    hide Rewrites, Simplifies, Whole, Parts, PartsClosed, Flat, Free;
    WholeSyntax(above, env);
    WholeRewrites(an, above, env);
    PartsCancel(an, above);
  }

  /**
    A bound from one side: alone its closed form is right if it does not vary with the range, but what two of
    them set free may cancel. The sum over four values of [r < r] - [r < r + 1], or of the last r and the last
    r + 1 of them, is -4 or 0; split into two sums the closed forms are r and r + 1, and r - (r + 1) is -1.
   */
  lemma CancelledBounds(an: Analysis, above: bool, env: Env)
    requires (if above then Above else Below) !in an.checks && OkEnv(an, env) && SizeOf(env, 0) == 4
    ensures
      var es := [Whole(above), Parts(above), PartsClosed(above), Const(-1)];
      && IsRun(an, es) && Flat(es[0]) && Free(es[0]) == {} && NoRange(es[3])
      && Eval(es[0], env) == (if above then -4 else 0) && Eval(es[3], env) == -1
  {
    WholeRun(an, above, env);
    WholeSyntax(above, env);
    WholeValue(above, env);
    EvalLeaf(-1, env);
  }

  // ---------------------------------------------------------------- every rule has to check

  ghost predicate KeepsValue(an: Analysis, es: seq<Expr>, env: Env) {
    IsRun(an, es) && Flat(es[0]) && Bounded(env, Free(es[0])) && NoRange(es[|es| - 1]) && OkEnv(an, env) ==>
      Eval(es[|es| - 1], env) == Eval(es[0], env)
  }

  /** A run with another value at its end, for any one rule that does not check. */
  lemma WrongRun(an: Analysis, form: Form, env: Env) returns (es: seq<Expr>)
    requires form !in an.checks && OkEnv(an, env) && SizeOf(env, 0) == 4
    ensures !KeepsValue(an, es, env) && es != [] && es[0].Reduce? && es[0].rop == SUM && es[0].rngs == [0]
    ensures IsRun(an, es) && Flat(es[0]) && Free(es[0]) == {} && NoRange(es[|es| - 1])
    ensures Eval(es[|es| - 1], env) != Eval(es[0], env)
  {
    match form
    case Below =>
      es := [Whole(false), Parts(false), PartsClosed(false), Const(-1)];
      CancelledBounds(an, false, env);
    case Above =>
      es := [Whole(true), Parts(true), PartsClosed(true), Const(-1)];
      CancelledBounds(an, true, env);
    case TwoSides =>
      es := [ParitySum(), ParityClosed(), Const(1)];
      CancelledRange(an, env);
    case Hot =>
      es := [HotSum(), HotClosed(), Const(1)];
      CancelledIndex(an, env);
  }

  function FourValues(vars: map<nat, int>): Env { Env(vars, map[], map[], map[0 := 4], (_, _) => 0, 0, 0) }

  /** Accepted runs are right, whatever the simplifier, exactly if all four closed forms are checked for their range. */
  lemma RunsAreSoundIff(an: Analysis, vars: map<nat, int>)
    ensures SoundAnalysis(an) && an.valid(vars) ==> (AllChecked(an) <==> forall es, env :: KeepsValue(an, es, env))
  {
    if SoundAnalysis(an) && an.valid(vars) {
      if AllChecked(an) {
        forall es, env ensures KeepsValue(an, es, env) {
          if IsRun(an, es) && Flat(es[0]) && Bounded(env, Free(es[0])) && NoRange(es[|es| - 1]) && OkEnv(an, env) {
            AcceptedRunIsSound(an, es, env);
          }
        }
      } else {
        var form: Form :| form !in an.checks;
        var es := WrongRun(an, form, FourValues(vars));
      }
    }
  }

  // ---------------------------------------------------------------- the whole loop

  ghost predicate KeepsSum(an: Analysis, u: Expr, passes: seq<Pass>, base: Env -> bool, outer: set<nat>, env: Env) {
    && (forall i :: 0 <= i < |passes| ==> passes[i].an == an && |passes[i].run| > 0)
    && IsCollapse(u, passes, base, outer) && Distinct(Ranges(passes))
    && (forall e: Env, m | base(e) :: base(e.(rngs := m))) && base(env) && Bounded(env, outer) ==>
      Eval(Result(u, passes), env) == Nest(SUM, u, Ranges(passes), env)
  }

  lemma RestoreNothing(e: Expr, env: Env)
    requires ReduceFree(e) || NoRange(e)
    ensures Eval(Restore(e, map[]), env) == Eval(e, env) && Abstracted(map[], env) == env
  {
    RestoreValue(e, map[], env);
    assert env.vars + ValuesOf(map[], env) == env.vars;
  }

  lemma ClosedBody(body: Expr)
    requires Flat(Reduce(SUM, body, [0])) && Free(Reduce(SUM, body, [0])) == {}
    ensures ReduceFree(body) && Free(body) <= {0}
  {
    SynReduce(SUM, body, [0]);
    hide Free, Flat, ReduceFree;
    forall x | x in Free(body) ensures x == 0 {
      assert x in Free(body) - (set r | r in [0]) || x in [0];
    }
  }

  lemma SumOfRestored(body: Expr, env: Env)
    requires ReduceFree(body)
    ensures Nest(SUM, Restore(body, map[]), [0], env) == Eval(Reduce(SUM, body, [0]), env)
  {
    RestoreNothing(Const(0), env);
    hide Eval, Nest, Fold, Restore, Free, ReduceFree, Abstracted;
    NestOne(Restore(body, map[]), 0, env);
    NestOne(body, 0, env);
    AbstractFold(body, map[], 0, env, SizeOf(env, 0));
    EvalReduce(SUM, body, [0], env);
  }

  lemma OnePass(p: Pass, base: Env -> bool)
    requires PassOk(p, base, {})
    ensures IsCollapse(PassInput(p), [p], base, {}) && Ranges([p]) == [p.r] && Distinct([p.r])
    ensures Result(PassInput(p), [p]) == PassOutput(p)
  {
    hide PassOk, PassInput, PassOutput;
    assert [p][1..] == [] && [p.r][1..] == [] && {} + RangeSet([]) == {};
  }

  /** One pass by a run with another value at its end. */
  lemma WrongPass(an: Analysis, vars: map<nat, int>, form: Form) returns (u: Expr, p: Pass, base: Env -> bool)
    requires SoundAnalysis(an) && an.valid(vars) && form !in an.checks
    ensures !KeepsSum(an, u, [p], base, {}, FourValues(vars))
  {
    var env := FourValues(vars);
    assert OkEnv(an, env);
    var es := WrongRun(an, form, env);
    var body, last := es[0].body, es[|es| - 1];
    base := (e: Env) => e.vars == vars && e.sizes == map[0 := 4];
    p := Pass(0, body, map[], an, es);
    u := PassInput(p);
    hide Eval, Nest, Fold, Restore, Free, Flat, ReduceFree, NoRange, IsRun, SoundAnalysis, Ranges, Result;
    ClosedBody(body);
    forall e | base(e) ensures OkEnv(an, Abstracted(map[], e)) {
      assert e.vars + ValuesOf(map[], e) == e.vars;
    }
    OnePass(p, base);
    RestoreNothing(last, env);
    SumOfRestored(body, env);
    assert Bounded(env, {});
  }

  /** The loop over the ranges is right for all its passes exactly if all four closed forms are checked. */
  lemma CollapsesAreSoundIff(an: Analysis, vars: map<nat, int>)
    ensures SoundAnalysis(an) && an.valid(vars) ==>
      (AllChecked(an) <==> forall u, passes, base, outer, env :: KeepsSum(an, u, passes, base, outer, env))
  {
    if SoundAnalysis(an) && an.valid(vars) {
      if AllChecked(an) {
        forall u, passes, base, outer, env ensures KeepsSum(an, u, passes, base, outer, env) {
          SafeKeepsSum(an, u, passes, base, outer, env);
        }
      } else {
        var form: Form :| form !in an.checks;
        var u, p, base := WrongPass(an, vars, form);
      }
    }
  }

  lemma SafeKeepsSum(an: Analysis, u: Expr, passes: seq<Pass>, base: Env -> bool, outer: set<nat>, env: Env)
    requires AllChecked(an)
    ensures KeepsSum(an, u, passes, base, outer, env)
  {
    hide Eval, Nest, IsCollapse, Bounded;
    if && (forall i :: 0 <= i < |passes| ==> passes[i].an == an) && IsCollapse(u, passes, base, outer)
       && Distinct(Ranges(passes)) && (forall e: Env, m | base(e) :: base(e.(rngs := m)))
       && base(env) && Bounded(env, outer) {
      CollapseIsSound(u, passes, base, outer, env);
    }
  }
}
