/**
  The reduce-collapse rewriter as a whole (`tinygrad/codegen/simplify.py`): the closure of the rules, runs of
  the rewriter, and reduce_collapse with its abstraction of independent subterms.

  The rules for bounds and for one-hot ranges do not check that the other side of the comparison is free of
  the range they remove, and applied to one that is not they set that range free and change the value. The
  test at the end of a run, that no range is left, does not make up for it: the rewriter also simplifies, and
  a simplification may cancel the range. Runs are sound if the rules make the check (`RunIsSound`) or if nothing
  is simplified (`RulesAloneAreSound`); the module CheckedForms shows that each rule has to make it.
 */
module ReduceCollapse {
  import opened IndexExpr
  import opened ReduceRules
  import opened ReduceUnparented

  /** The rules that replace a sum over a range by a closed form. */
  datatype Form = Below | Above | TwoSides | Hot

  /**
    positive: the expressions the compiler can show to be positive; valid: the variable values within the
    declared bounds; maxDrops: whether ranges may be dropped from a maximum; checks: the forms that are used only
    if what the range is compared with does not mention it. The compiler checks none.
   */
  datatype Analysis =
    Analysis(positive: Expr -> bool, valid: map<nat, int> -> bool, maxDrops: bool, checks: set<Form>)

  ghost predicate AllChecked(an: Analysis) { forall form: Form :: form in an.checks }

  ghost predicate OkEnv(an: Analysis, env: Env) {
    an.valid(env.vars) && (an.maxDrops ==> forall r :: SizeOf(env, r) >= 1)
  }

  ghost predicate PositiveIn(an: Analysis, y: Expr, env: Env) {
    an.positive(y) && OkEnv(an, env) ==> Eval(y, env) > 0
  }

  ghost predicate SoundAnalysis(an: Analysis) {
    forall y, env :: PositiveIn(an, y, env)
  }

  // ---------------------------------------------------------------- the rewriter

  predicate Commute(e: Expr, e': Expr) {
    e.Bin? && e.op in {Add, Mul, Max, Min} && e' == Bin(e.op, e.b, e.a)
  }

  predicate CommuteC(c: Cond, c': Cond) {
    (c.And? && c' == And(c.d, c.c)) || (c.Ne? && c' == Ne(c.r, c.l))
  }

  predicate Unparent(an: Analysis, e: Expr, e': Expr) {
    && e.Reduce? && Unparented(e.rngs, Free(e.body)) != [] && (e.rop == MAXIMUM ==> an.maxDrops)
    && e' == DropUnparented(e.rop, e.body, e.rngs)
  }

  predicate Replaces(form: Form, e: Expr, e': Expr) {
    match form
    case Below => BoundFromBelow(e, e')
    case Above => BoundFromAbove(e, e')
    case TwoSides => BoundFromTwoSides(e, e')
    case Hot => OneHot(e, e')
  }

  predicate Uses(an: Analysis, form: Form, e: Expr, e': Expr) {
    Replaces(form, e, e') && (form in an.checks ==> BoundsIgnoreRange(e))
  }

  predicate ClosedForm(an: Analysis, e: Expr, e': Expr) {
    Uses(an, Below, e, e') || Uses(an, Above, e, e') || Uses(an, TwoSides, e, e') || Uses(an, Hot, e, e')
  }

  /** One rule applied to the whole expression. */
  predicate Root(an: Analysis, e: Expr, e': Expr) {
    || ClosedForm(an, e, e')
    || SplitSum(e, e') || LiftFlag(e, e') || CastedProduct(e, e') || Unparent(an, e, e') || Commute(e, e')
  }

  predicate RootC(an: Analysis, c: Cond, c': Cond) {
    LiftAddLt(c, c') || LiftAddNe(c, c') || LiftMulLt(an.positive, c, c') || CommuteC(c, c')
  }

  /** Rules applied at any positions not inside one another. */
  predicate Rewrites(an: Analysis, e: Expr, e': Expr) {
    || e == e'
    || Root(an, e, e')
    || match e
       case Load(buf, idx) => e'.Load? && e'.buf == buf && Rewrites(an, idx, e'.idx)
       case Bin(op, a, b) => e'.Bin? && e'.op == op && Rewrites(an, a, e'.a) && Rewrites(an, b, e'.b)
       case Where(c, a, b) => e'.Where? && RewritesC(an, c, e'.c) && Rewrites(an, a, e'.a) && Rewrites(an, b, e'.b)
       case OfBool(c) => e'.OfBool? && RewritesC(an, c, e'.c)
       case Reduce(op, body, rngs) => e'.Reduce? && e'.rop == op && e'.rngs == rngs && Rewrites(an, body, e'.body)
       case _ => false
  }

  predicate RewritesC(an: Analysis, c: Cond, c': Cond) {
    || c == c'
    || RootC(an, c, c')
    || match c
       case BVar(_) => false
       case Lt(l, r) => c'.Lt? && Rewrites(an, l, c'.l) && Rewrites(an, r, c'.r)
       case Ne(l, r) => c'.Ne? && Rewrites(an, l, c'.l) && Rewrites(an, r, c'.r)
       case Not(d) => c'.Not? && RewritesC(an, d, c'.c)
       case And(d1, d2) => c'.And? && RewritesC(an, d1, c'.c) && RewritesC(an, d2, c'.d)
  }

  /** A value, without reductions and ranges. */
  predicate IsValue(e: Expr) { ReduceFree(e) && Free(e) == {} }

  /** Each rule for a sum applies to its pattern, if what it takes out of the sum has no range. */
  lemma RulesApply(an: Analysis, r: nat, lower: Expr, upper: Expr, val: Expr, body: Expr)
    requires IsValue(val) && r !in Free(lower) + Free(upper)
    ensures Root(an, Reduce(SUM, Where(Lt(Rng(r), lower), Const(0), val), [r]),
                 Bin(Mul, Bin(Min, Bin(Max, Bin(Sub, Size(r), lower), Const(0)), Size(r)), val))
    ensures Root(an, Reduce(SUM, Where(Lt(Rng(r), upper), val, Const(0)), [r]),
                 Bin(Mul, Bin(Min, Bin(Max, upper, Const(0)), Size(r)), val))
    ensures
      var count := Bin(Sub, Bin(Min, upper, Size(r)), Bin(Max, lower, Const(0)));
      Root(an, Reduce(SUM, Where(And(Not(Lt(Rng(r), lower)), Lt(Rng(r), upper)), val, Const(0)), [r]),
           Bin(Mul, Bin(Min, Bin(Max, count, Const(0)), Size(r)), val))
    ensures
      var valid := And(Not(Lt(lower, Const(0))), Lt(lower, Size(r)));
      Root(an, Reduce(SUM, Where(Ne(lower, Rng(r)), Const(0), body), [r]),
           Where(valid, ReplaceRange(body, r, Where(valid, lower, Invalid)), Const(0)))
  {
    NothingFreeNoRange(val);
    BelowApplies(an, r, lower, val);
    AboveApplies(an, r, upper, val);
    TwoSidesApply(an, r, lower, upper, val);
    HotApplies(an, r, lower, body);
    hide Free, ReduceFree, NoRange, ReplaceRange, Root;
  }

  lemma TwoSidesApply(an: Analysis, r: nat, lower: Expr, upper: Expr, val: Expr)
    requires NoRange(val) && r !in Free(lower) + Free(upper)
    ensures
      var count := Bin(Sub, Bin(Min, upper, Size(r)), Bin(Max, lower, Const(0)));
      Root(an, Reduce(SUM, Where(And(Not(Lt(Rng(r), lower)), Lt(Rng(r), upper)), val, Const(0)), [r]),
           Bin(Mul, Bin(Min, Bin(Max, count, Const(0)), Size(r)), val))
  {
    hide Free, NoRange, BoundFromBelow, BoundFromAbove, OneHot, SplitSum, LiftFlag, CastedProduct, Unparent, Commute;
    assert [r][0] == r;
  }

  lemma HotApplies(an: Analysis, r: nat, idx: Expr, body: Expr)
    requires r !in Free(idx)
    ensures
      var valid := And(Not(Lt(idx, Const(0))), Lt(idx, Size(r)));
      Root(an, Reduce(SUM, Where(Ne(idx, Rng(r)), Const(0), body), [r]),
           Where(valid, ReplaceRange(body, r, Where(valid, idx, Invalid)), Const(0)))
  {
    hide Free, BoundFromBelow, BoundFromAbove, BoundFromTwoSides, SplitSum, LiftFlag, CastedProduct, Unparent, Commute;
    hide ReplaceRange;
    assert [r][0] == r;
  }

  lemma BelowApplies(an: Analysis, r: nat, cut: Expr, val: Expr)
    requires NoRange(val) && r !in Free(cut)
    ensures Root(an, Reduce(SUM, Where(Lt(Rng(r), cut), Const(0), val), [r]),
                 Bin(Mul, Bin(Min, Bin(Max, Bin(Sub, Size(r), cut), Const(0)), Size(r)), val))
  {
    hide Free, NoRange, BoundFromAbove, BoundFromTwoSides, OneHot, SplitSum, LiftFlag, CastedProduct, Unparent, Commute;
    assert [r][0] == r;
  }

  lemma AboveApplies(an: Analysis, r: nat, cut: Expr, val: Expr)
    requires NoRange(val) && r !in Free(cut)
    ensures Root(an, Reduce(SUM, Where(Lt(Rng(r), cut), val, Const(0)), [r]),
                 Bin(Mul, Bin(Min, Bin(Max, cut, Const(0)), Size(r)), val))
  {
    hide Free, NoRange, BoundFromBelow, BoundFromTwoSides, OneHot, SplitSum, LiftFlag, CastedProduct, Unparent, Commute;
    assert [r][0] == r;
  }

  /** So does each rule that moves something, out of a sum or to the other side of a comparison. */
  lemma MovesApply(an: Analysis, x: Expr, y: Expr, k: Expr, c: Cond, b: nat, rngs: seq<nat>)
    ensures Root(an, Reduce(SUM, Bin(Add, x, y), rngs), Bin(Add, Reduce(SUM, x, rngs), Reduce(SUM, y, rngs)))
    ensures Root(an, Reduce(SUM, Where(And(BVar(b), c), x, Const(0)), rngs),
                 Bin(Mul, Reduce(SUM, Where(c, x, Const(0)), rngs), OfBool(BVar(b))))
    ensures Root(an, Bin(Mul, x, OfBool(c)), Where(c, x, Const(0)))
    ensures IsValue(y) && IsValue(k) ==> RootC(an, Lt(Bin(Add, x, y), k), Lt(x, Bin(Sub, k, y)))
    ensures IsValue(y) && IsValue(k) ==> RootC(an, Ne(Bin(Add, x, y), k), Ne(x, Bin(Sub, k, y)))
    ensures IsValue(y) && IsValue(k) && an.positive(y) ==>
      RootC(an, Lt(Bin(Mul, x, y), k), Lt(x, Bin(FloorDiv, Bin(Sub, Bin(Add, k, y), Const(1)), y)))
  {
    if IsValue(y) && IsValue(k) {
      NothingFreeNoRange(y);
      NothingFreeNoRange(k);
    }
    hide Free, ReduceFree, NoRange;
  }

  /** A rewritten reduction has no unused range left, one of one unused range is its body that often. */
  lemma UnusedRangesGo(an: Analysis, body: Expr, rngs: seq<nat>, r: nat)
    ensures forall x :: x in Parented(rngs, Free(body)) <==> x in rngs && x in Free(body)
    ensures r !in Free(body) ==> Root(an, Reduce(SUM, body, [r]), Bin(Mul, body, Size(r)))
    ensures r !in Free(body) ==> Root(an, Reduce(PROD, body, [r]), Bin(Pow, body, Size(r)))
  {
    forall x ensures x in Parented(rngs, Free(body)) <==> x in rngs && x in Free(body) {
      PartitionIff(rngs, Free(body), x);
    }
    if r !in Free(body) {
      UnusedAlone(body, r);
      assert Unparented([r], Free(body)) != [];
      hide Free, ClosedForm, SplitSum, LiftFlag, CastedProduct, Commute, DropUnparented;
    }
  }

  lemma UnusedAlone(body: Expr, r: nat)
    requires r !in Free(body)
    ensures Unparented([r], Free(body)) == [r]
    ensures DropUnparented(SUM, body, [r]) == Bin(Mul, body, Size(r))
    ensures DropUnparented(PROD, body, [r]) == Bin(Pow, body, Size(r))
  {
    hide Free;
    var used := Free(body);
    assert [r][1..] == [];
    assert Parented([], used) == [] && Unparented([], used) == [];
    assert Parented([r], used) == [] && Unparented([r], used) == [r];
    assert Scale(SUM, Bin(Mul, body, Size(r)), []) == Bin(Mul, body, Size(r));
    assert Scale(PROD, Bin(Pow, body, Size(r)), []) == Bin(Pow, body, Size(r));
  }

  // ---------------------------------------------------------------- syntactic facts

  lemma {:induction false} ReduceFreeIsFlat(e: Expr)
    requires ReduceFree(e)
    ensures Flat(e)
  {
    match e
    case Load(_, idx) => ReduceFreeIsFlat(idx);
    case Bin(_, a, b) => ReduceFreeIsFlat(a); ReduceFreeIsFlat(b);
    case Where(c, a, b) => ReduceFreeIsFlatC(c); ReduceFreeIsFlat(a); ReduceFreeIsFlat(b);
    case OfBool(c) => ReduceFreeIsFlatC(c);
    case _ =>
  }

  lemma {:induction false} ReduceFreeIsFlatC(c: Cond)
    requires ReduceFreeC(c)
    ensures FlatC(c)
  {
    match c
    case BVar(_) =>
    case Lt(a, b) => ReduceFreeIsFlat(a); ReduceFreeIsFlat(b);
    case Ne(a, b) => ReduceFreeIsFlat(a); ReduceFreeIsFlat(b);
    case Not(d) => ReduceFreeIsFlatC(d);
    case And(d1, d2) => ReduceFreeIsFlatC(d1); ReduceFreeIsFlatC(d2);
  }

  lemma {:induction false} ReplaceRangeSyntax(e: Expr, r: nat, t: Expr)
    requires ReduceFree(e) && ReduceFree(t)
    ensures ReduceFree(ReplaceRange(e, r, t))
    ensures Free(e) - {r} <= Free(ReplaceRange(e, r, t)) <= Free(e) - {r} + Free(t)
  {
    match e
    case Load(_, idx) => ReplaceRangeSyntax(idx, r, t);
    case Bin(_, a, b) => ReplaceRangeSyntax(a, r, t); ReplaceRangeSyntax(b, r, t);
    case Where(c, a, b) =>
      ReplaceRangeSyntaxC(c, r, t); ReplaceRangeSyntax(a, r, t); ReplaceRangeSyntax(b, r, t);
    case OfBool(c) => ReplaceRangeSyntaxC(c, r, t);
    case _ =>
  }

  lemma {:induction false} ReplaceRangeSyntaxC(c: Cond, r: nat, t: Expr)
    requires ReduceFreeC(c) && ReduceFree(t)
    ensures ReduceFreeC(ReplaceRangeC(c, r, t))
    ensures FreeC(c) - {r} <= FreeC(ReplaceRangeC(c, r, t)) <= FreeC(c) - {r} + Free(t)
  {
    match c
    case BVar(_) =>
    case Lt(a, b) => ReplaceRangeSyntax(a, r, t); ReplaceRangeSyntax(b, r, t);
    case Ne(a, b) => ReplaceRangeSyntax(a, r, t); ReplaceRangeSyntax(b, r, t);
    case Not(d) => ReplaceRangeSyntaxC(d, r, t);
    case And(d1, d2) => ReplaceRangeSyntaxC(d1, r, t); ReplaceRangeSyntaxC(d2, r, t);
  }

  lemma ScaleSyntax(op: ReduceOp, e: Expr, rs: seq<nat>)
    ensures Free(Scale(op, e, rs)) == Free(e)
    ensures Flat(e) ==> Flat(Scale(op, e, rs))
    decreases |rs|
  {
    if rs != [] && op != MAXIMUM {
      var scaled := if op == SUM then Mul else Pow;
      SynLeaf(Size(rs[0]));
      SynBin(scaled, e, Size(rs[0]));
      ScaleSyntax(op, Bin(scaled, e, Size(rs[0])), rs[1..]);
    }
  }

  lemma {:induction false} PartitionIff(rngs: seq<nat>, used: set<nat>, x: nat)
    ensures x in Parented(rngs, used) <==> x in rngs && x in used
    ensures x in Unparented(rngs, used) <==> x in rngs && x !in used
  {
    if rngs != [] {
      PartitionIff(rngs[1..], used, x);
      assert rngs == [rngs[0]] + rngs[1..];
    }
  }

  lemma DropUnparentedSyntax(op: ReduceOp, body: Expr, rngs: seq<nat>)
    requires ReduceFree(body)
    ensures Free(DropUnparented(op, body, rngs)) == Free(Reduce(op, body, rngs))
    ensures Flat(DropUnparented(op, body, rngs))
  {
    var parented, rs := Parented(rngs, Free(body)), Unparented(rngs, Free(body));
    var kept := if parented == [] then body else Reduce(op, body, parented);
    ReduceFreeIsFlat(body);
    ScaleSyntax(op, kept, rs);
    forall x | x in Free(body) ensures x in parented <==> x in rngs {
      PartitionIff(rngs, Free(body), x);
    }
  }

  // ---------------------------------------------------------------- one rule

  lemma LiftSyntax(x: Expr, y: Expr, k: Expr, moved: Expr)
    requires NoRange(y) && NoRange(k)
    requires moved == Bin(Sub, k, y) || moved == Bin(FloorDiv, Bin(Sub, Bin(Add, k, y), Const(1)), y)
    ensures Free(moved) == {} && Free(y) == {} && Free(k) == {}
    ensures (ReduceFree(y) && ReduceFree(k) ==> ReduceFree(moved)) && (Flat(y) && Flat(k) ==> Flat(moved))
  {
    NoRangeNothingFree(y);
    NoRangeNothingFree(k);
    SynBin(Sub, k, y);
    SynBin(Add, k, y);
    SynLeaf(Const(1));
    SynBin(Sub, Bin(Add, k, y), Const(1));
    SynBin(FloorDiv, Bin(Sub, Bin(Add, k, y), Const(1)), y);
  }

  /** Rules on conditions keep truth and the free ranges, whatever the ranges are bound to. */
  lemma RootCIsSound(an: Analysis, c: Cond, c': Cond, env: Env)
    requires SoundAnalysis(an) && OkEnv(an, env) && RootC(an, c, c')
    ensures Holds(c', env) == Holds(c, env)
  {
    if LiftMulLt(an.positive, c, c') {
      var x, y, k := c.l.a, c.l.b, c.r;
      assert PositiveIn(an, y, env);
      CeilDivisionLift(Eval(x, env), Eval(y, env), Eval(k, env));
      var num := Bin(Sub, Bin(Add, k, y), Const(1));
      assert Eval(Bin(Add, k, y), env) == Eval(k, env) + Eval(y, env) && Eval(Const(1), env) == 1;
      assert Eval(num, env) == Eval(k, env) + Eval(y, env) - 1;
    } else if LiftAddLt(c, c') || LiftAddNe(c, c') {
      assert Eval(c.l, env) == Eval(c.l.a, env) + Eval(c.l.b, env);
      assert Eval(c'.r, env) == Eval(c.r, env) - Eval(c.l.b, env);
    }
  }

  lemma RootCSyntax(an: Analysis, c: Cond, c': Cond)
    requires RootC(an, c, c')
    ensures FreeC(c') == FreeC(c)
    ensures (ReduceFreeC(c) ==> ReduceFreeC(c')) && (FlatC(c) ==> FlatC(c'))
  {
    if CommuteC(c, c') {
      if c.And? { SynAnd(c.c, c.d); SynAnd(c.d, c.c); } else { SynNe(c.l, c.r); SynNe(c.r, c.l); }
    } else {
      LiftSyntax(c.l.a, c.l.b, c.r, c'.r);
      SynBin(c.l.op, c.l.a, c.l.b);
      if c.Lt? {
        SynLt(c.l, c.r); SynLt(c'.l, c'.r);
      } else {
        SynNe(c.l, c.r); SynNe(c'.l, c'.r);
      }
    }
  }

  /** Rules that need no reduction: sound whatever the ranges are bound to. */
  lemma LocalRootIsSound(e: Expr, e': Expr, env: Env)
    requires CastedProduct(e, e') || Commute(e, e')
    ensures Eval(e', env) == Eval(e, env) && Free(e') == Free(e)
    ensures (ReduceFree(e) ==> ReduceFree(e')) && (Flat(e) ==> Flat(e'))
  {
    SynBin(e.op, e.a, e.b);
    if CastedProduct(e, e') {
      SynOfBool(e.b.c);
      SynLeaf(Const(0));
      SynWhere(e.b.c, e.a, Const(0));
      assert Eval(e.b, env) == if Holds(e.b.c, env) then 1 else 0;
      assert Eval(Const(0), env) == 0;
      assert Eval(e.a, env) * 1 == Eval(e.a, env) && Eval(e.a, env) * 0 == 0;
    } else {
      SynBin(e.op, e.b, e.a);
      assert Eval(e.a, env) * Eval(e.b, env) == Eval(e.b, env) * Eval(e.a, env);
    }
  }

  lemma ClampSyntax(e: Expr, r: nat)
    ensures Free(ClampedSize(e, r)) == Free(e) && (Flat(ClampedSize(e, r)) <==> Flat(e))
  {
    SynLeaf(Const(0));
    SynLeaf(Size(r));
    SynBin(Max, e, Const(0));
    SynBin(Min, Bin(Max, e, Const(0)), Size(r));
  }

  lemma BelowSyntax(e: Expr, e': Expr)
    requires Flat(e) && BoundFromBelow(e, e')
    ensures Flat(e') && Free(e') == Free(e.body.c.r) && Free(e) == Free(e') - {e.rngs[0]}
  {
    var r, cut, val := e.rngs[0], e.body.c.r, e.body.b;
    SynReduce(SUM, e.body, e.rngs);
    SynWhere(e.body.c, e.body.a, e.body.b);
    SynLt(Rng(r), cut);
    SynLeaf(Rng(r)); SynLeaf(Const(0)); SynLeaf(Size(r));
    NoRangeNothingFree(val);
    ReduceFreeIsFlat(cut); ReduceFreeIsFlat(val);
    SynBin(Sub, Size(r), cut);
    ClampSyntax(Bin(Sub, Size(r), cut), r);
    SynBin(Mul, e'.a, val);
  }

  lemma AboveSyntax(e: Expr, e': Expr)
    requires Flat(e) && BoundFromAbove(e, e')
    ensures Flat(e') && Free(e') == Free(e.body.c.r) && Free(e) == Free(e') - {e.rngs[0]}
  {
    var r, cut, val := e.rngs[0], e.body.c.r, e.body.a;
    SynReduce(SUM, e.body, e.rngs);
    SynWhere(e.body.c, e.body.a, e.body.b);
    SynLt(Rng(r), cut);
    SynLeaf(Rng(r)); SynLeaf(Const(0));
    NoRangeNothingFree(val);
    ReduceFreeIsFlat(cut); ReduceFreeIsFlat(val);
    ClampSyntax(cut, r);
    SynBin(Mul, e'.a, val);
  }

  lemma TwoSidesClosedSyntax(r: nat, lower: Expr, upper: Expr)
    requires Flat(lower) && Flat(upper)
    ensures
      var e := ClampedSize(Bin(Sub, Bin(Min, upper, Size(r)), Bin(Max, lower, Const(0))), r);
      Flat(e) && Free(e) == Free(lower) + Free(upper)
  {
    hide Flat, FlatC, Free, FreeC, ReduceFree, ReduceFreeC;
    SynLeaf(Const(0)); SynLeaf(Size(r));
    var above, below := Bin(Min, upper, Size(r)), Bin(Max, lower, Const(0));
    SynBin(Min, upper, Size(r)); SynBin(Max, lower, Const(0));
    SynBin(Sub, above, below);
    ClampSyntax(Bin(Sub, above, below), r);
  }

  lemma TwoSidesCondSyntax(r: nat, lower: Expr, upper: Expr)
    ensures
      var c := And(Not(Lt(Rng(r), lower)), Lt(Rng(r), upper));
      FreeC(c) == {r} + Free(lower) + Free(upper) && (ReduceFreeC(c) <==> ReduceFree(lower) && ReduceFree(upper))
  {
    hide Flat, FlatC, Free, FreeC, ReduceFree, ReduceFreeC;
    SynLeaf(Rng(r));
    SynLt(Rng(r), lower); SynLt(Rng(r), upper);
    SynNot(Lt(Rng(r), lower));
    SynAnd(Not(Lt(Rng(r), lower)), Lt(Rng(r), upper));
  }

  lemma TwoSidesSyntax(e: Expr, e': Expr)
    requires Flat(e) && BoundFromTwoSides(e, e')
    ensures Flat(e') && Free(e') == Free(e.body.c.c.c.r) + Free(e.body.c.d.r) && Free(e) == Free(e') - {e.rngs[0]}
  {
    hide Flat, FlatC, Free, FreeC, ReduceFree, ReduceFreeC;
    var r, lower, upper, val := e.rngs[0], e.body.c.c.c.r, e.body.c.d.r, e.body.a;
    SynReduce(SUM, e.body, e.rngs);
    SynWhere(e.body.c, e.body.a, e.body.b);
    assert e.body.c == And(Not(Lt(Rng(r), lower)), Lt(Rng(r), upper));
    TwoSidesCondSyntax(r, lower, upper);
    SynLeaf(Const(0));
    NoRangeNothingFree(val);
    ReduceFreeIsFlat(lower); ReduceFreeIsFlat(upper); ReduceFreeIsFlat(val);
    TwoSidesClosedSyntax(r, lower, upper);
    SynBin(Mul, e'.a, val);
  }

  lemma OneHotSyntax(e: Expr, e': Expr)
    requires Flat(e) && OneHot(e, e')
    ensures Flat(e') && Free(e.body.c.l) <= Free(e') && ReduceFree(e.body.b)
    ensures Free(e) <= Free(e') && (e.rngs[0] !in Free(e.body.c.l) ==> Free(e) == Free(e'))
  {
    var r, idx, expr := e.rngs[0], e.body.c.l, e.body.b;
    SynReduce(SUM, e.body, e.rngs);
    SynWhere(e.body.c, e.body.a, e.body.b);
    SynNe(idx, Rng(r));
    SynLeaf(Rng(r)); SynLeaf(Const(0)); SynLeaf(Size(r)); SynLeaf(Invalid);
    SynLt(idx, Const(0)); SynNot(Lt(idx, Const(0))); SynLt(idx, Size(r));
    SynAnd(Not(Lt(idx, Const(0))), Lt(idx, Size(r)));
    var valid := InRange(idx, r);
    var t := Where(valid, idx, Invalid);
    SynWhere(valid, idx, Invalid);
    ReplaceRangeSyntax(expr, r, t);
    SynWhere(valid, ReplaceRange(expr, r, t), Const(0));
    ReduceFreeIsFlat(e');
    hide ReduceFree, Flat, ReplaceRange;
  }

  lemma SplitSyntax(e: Expr, e': Expr)
    requires Flat(e) && SplitSum(e, e')
    ensures Flat(e') && Free(e) == Free(e')
  {
    SynReduce(SUM, e.body, e.rngs);
    SynBin(Add, e.body.a, e.body.b);
    SynReduce(SUM, e.body.a, e.rngs); SynReduce(SUM, e.body.b, e.rngs);
    SynBin(Add, e'.a, e'.b);
  }

  lemma FlagSyntax(e: Expr, e': Expr)
    requires Flat(e) && LiftFlag(e, e')
    ensures Flat(e') && Free(e) == Free(e')
  {
    var flag, y, c := e.body.c.c, e.body.c.d, e.body.a;
    SynReduce(SUM, e.body, e.rngs);
    SynWhere(e.body.c, e.body.a, e.body.b);
    SynAnd(flag, y);
    SynWhere(y, c, Const(0));
    SynReduce(SUM, Where(y, c, Const(0)), e.rngs);
    SynOfBool(flag);
    SynBin(Mul, e'.a, e'.b);
  }

  lemma ClosedFormSyntax(form: Form, e: Expr, e': Expr)
    requires Flat(e) && Replaces(form, e, e')
    ensures Flat(e') && Free(e) <= Free(e')
    ensures Free(e') == {} ==> BoundsIgnoreRange(e)
    ensures BoundsIgnoreRange(e) ==> Free(e) == Free(e')
    ensures form.Hot? ==> ReduceFree(e.body.b)
  {
    hide Flat, Free, ReduceFree;
    match form
    case Below => BelowSyntax(e, e');
    case Above => AboveSyntax(e, e');
    case TwoSides => TwoSidesSyntax(e, e');
    case Hot => OneHotSyntax(e, e');
  }

  lemma ClosedFormIsSound(form: Form, e: Expr, e': Expr, env: Env)
    requires Replaces(form, e, e') && BoundsIgnoreRange(e) && (form.Hot? ==> ReduceFree(e.body.b))
    ensures Eval(e', env) == Eval(e, env)
  {
    hide Flat, Free, Eval, ReduceFree;
    match form
    case Below => BelowIsSound(e, e', env);
    case Above => AboveIsSound(e, e', env);
    case TwoSides => TwoSidesIsSound(e, e', env);
    case Hot => OneHotIsSound(e, e', env);
  }

  lemma FormUsed(an: Analysis, e: Expr, e': Expr) returns (form: Form)
    requires ClosedForm(an, e, e')
    ensures Uses(an, form, e, e')
  {
    form := if Uses(an, Below, e, e') then Below else if Uses(an, Above, e, e') then Above
            else if Uses(an, TwoSides, e, e') then TwoSides else Hot;
  }

  /**
    Rules on reductions never lose a free range, and keep the value if they leave none. With the check they
    set no range free and always keep the value.
   */
  lemma ReduceRootIsSound(an: Analysis, e: Expr, e': Expr, env: Env)
    requires OkEnv(an, env) && Flat(e) && Root(an, e, e') && e.Reduce?
    ensures Flat(e') && Free(e) <= Free(e') && (AllChecked(an) ==> Free(e') == Free(e))
    ensures AllChecked(an) || Free(e') == {} ==> Eval(e', env) == Eval(e, env)
  {
    hide Flat, Free, Eval, ReduceFree, ClosedForm, Replaces, BoundsIgnoreRange;
    if ClosedForm(an, e, e') {
      var form := FormUsed(an, e, e');
      ClosedFormSyntax(form, e, e');
      if BoundsIgnoreRange(e) { ClosedFormIsSound(form, e, e', env); }
    } else if SplitSum(e, e') {
      SplitSyntax(e, e');
      SplitIsSound(e, e', env);
    } else if LiftFlag(e, e') {
      FlagSyntax(e, e');
      FlagIsSound(e, e', env);
    } else {
      SynReduce(e.rop, e.body, e.rngs);
      DropUnparentedSyntax(e.rop, e.body, e.rngs);
      DropUnparentedIsSound(e.rop, e.body, e.rngs, env);
    }
  }

  lemma SplitIsSound(e: Expr, e': Expr, env: Env)
    requires SplitSum(e, e')
    ensures Eval(e', env) == Eval(e, env)
  {
    NestOfSum(e.body.a, e.body.b, e.rngs, env);
  }

  // ---------------------------------------------------------------- rewriting inside a reduction

  lemma RootIsLocal(an: Analysis, e: Expr, e': Expr)
    requires Root(an, e, e') && !e.Reduce?
    ensures CastedProduct(e, e') || Commute(e, e')
  {
  }

  lemma EvalReduce(op: ReduceOp, body: Expr, rngs: seq<nat>, env: Env)
    ensures Eval(Reduce(op, body, rngs), env) == Nest(op, body, rngs, env)
  {
  }

  /** In a body without reductions every rewrite is sound, whatever the ranges are bound to. */
  lemma {:induction false} BodyRewrite(an: Analysis, e: Expr, e': Expr, env: Env)
    requires SoundAnalysis(an) && OkEnv(an, env) && ReduceFree(e) && Rewrites(an, e, e')
    ensures ReduceFree(e') && Free(e') == Free(e) && Eval(e', env) == Eval(e, env)
  {
    hide SoundAnalysis, OkEnv, Root, RootC, CastedProduct, Commute;
    if e == e' {
    } else if Root(an, e, e') {
      RootIsLocal(an, e, e');
      LocalRootIsSound(e, e', env);
    } else {
      match e
      case Load(_, idx) => BodyRewrite(an, idx, e'.idx, env);
      case Bin(op, a, b) =>
        BodyRewrite(an, a, e'.a, env); BodyRewrite(an, b, e'.b, env);
      case Where(c, a, b) =>
        BodyRewriteC(an, c, e'.c, env); BodyRewrite(an, a, e'.a, env); BodyRewrite(an, b, e'.b, env);
      case OfBool(c) => BodyRewriteC(an, c, e'.c, env);
    }
  }

  lemma {:induction false} BodyRewriteC(an: Analysis, c: Cond, c': Cond, env: Env)
    requires SoundAnalysis(an) && OkEnv(an, env) && ReduceFreeC(c) && RewritesC(an, c, c')
    ensures ReduceFreeC(c') && FreeC(c') == FreeC(c) && Holds(c', env) == Holds(c, env)
  {
    hide SoundAnalysis, OkEnv, Root, RootC;
    if c == c' {
    } else if RootC(an, c, c') {
      RootCSyntax(an, c, c');
      RootCIsSound(an, c, c', env);
    } else {
      match c
      case Lt(l, r) => BodyRewrite(an, l, c'.l, env); BodyRewrite(an, r, c'.r, env);
      case Ne(l, r) => BodyRewrite(an, l, c'.l, env); BodyRewrite(an, r, c'.r, env);
      case Not(d) => BodyRewriteC(an, d, c'.c, env);
      case And(d1, d2) => BodyRewriteC(an, d1, c'.c, env); BodyRewriteC(an, d2, c'.d, env);
    }
  }

  lemma BodyRewriteInReduce(an: Analysis, op: ReduceOp, body: Expr, body': Expr, rngs: seq<nat>, env: Env)
    requires SoundAnalysis(an) && OkEnv(an, env) && ReduceFree(body) && Rewrites(an, body, body')
    ensures ReduceFree(body') && Free(body') == Free(body)
    ensures Eval(Reduce(op, body', rngs), env) == Eval(Reduce(op, body, rngs), env)
  {
    hide SoundAnalysis, Rewrites, Eval, Free, ReduceFree, Nest;
    EvalReduce(op, body, rngs, env);
    EvalReduce(op, body', rngs, env);
    BodyRewrite(an, body, body', env);
    forall m ensures Eval(body', env.(rngs := m)) == Eval(body, env.(rngs := m)) {
      var inner := env.(rngs := m);
      assert OkEnv(an, inner) by {
        assert forall r :: SizeOf(inner, r) == SizeOf(env, r);
      }
      BodyRewrite(an, body, body', inner);
    }
    NestCongruent(op, body', body, rngs, env);
  }

  // ---------------------------------------------------------------- one pass over a flat expression

  /**
    A rewrite never loses a free range, and one that leaves no free range keeps the value. With the check every
    rewrite keeps both.
   */
  lemma {:induction false} FlatRewrite(an: Analysis, e: Expr, e': Expr, env: Env)
    requires SoundAnalysis(an) && OkEnv(an, env) && Flat(e) && Rewrites(an, e, e')
    ensures Flat(e') && Free(e) <= Free(e') && (AllChecked(an) ==> Free(e') == Free(e))
    ensures AllChecked(an) || Free(e') == {} ==> Eval(e', env) == Eval(e, env)
  {
    hide SoundAnalysis, OkEnv, Root, RootC;
    if e == e' {
    } else if Root(an, e, e') {
      if e.Reduce? {
        ReduceRootIsSound(an, e, e', env);
      } else {
        RootIsLocal(an, e, e');
        LocalRootIsSound(e, e', env);
      }
    } else {
      match e
      case Load(_, idx) => FlatRewrite(an, idx, e'.idx, env);
      case Bin(_, a, b) => FlatRewrite(an, a, e'.a, env); FlatRewrite(an, b, e'.b, env);
      case Where(c, a, b) =>
        FlatRewriteC(an, c, e'.c, env); FlatRewrite(an, a, e'.a, env); FlatRewrite(an, b, e'.b, env);
      case OfBool(c) => FlatRewriteC(an, c, e'.c, env);
      case Reduce(op, body, rngs) => BodyRewriteInReduce(an, op, body, e'.body, rngs, env);
    }
  }

  lemma {:induction false} FlatRewriteC(an: Analysis, c: Cond, c': Cond, env: Env)
    requires SoundAnalysis(an) && OkEnv(an, env) && FlatC(c) && RewritesC(an, c, c')
    ensures FlatC(c') && FreeC(c) <= FreeC(c') && (AllChecked(an) ==> FreeC(c') == FreeC(c))
    ensures AllChecked(an) || FreeC(c') == {} ==> Holds(c', env) == Holds(c, env)
  {
    hide SoundAnalysis, OkEnv, Root, RootC;
    if c == c' {
    } else if RootC(an, c, c') {
      RootCSyntax(an, c, c');
      RootCIsSound(an, c, c', env);
    } else {
      match c
      case Lt(l, r) => FlatRewrite(an, l, c'.l, env); FlatRewrite(an, r, c'.r, env);
      case Ne(l, r) => FlatRewrite(an, l, c'.l, env); FlatRewrite(an, r, c'.r, env);
      case Not(d) => FlatRewriteC(an, d, c'.c, env);
      case And(d1, d2) => FlatRewriteC(an, d1, c'.c, env); FlatRewriteC(an, d2, c'.d, env);
    }
  }

  // ---------------------------------------------------------------- runs

  /** The ranges in rs have values below their sizes. */
  ghost predicate Bounded(env: Env, rs: set<nat>) {
    forall r | r in rs :: r in env.rngs && 0 <= env.rngs[r] < SizeOf(env, r)
  }

  /**
    Other simplifications the rewriter mixes in: anything that keeps the value wherever the ranges are in
    bounds. Ranges may cancel; none is brought in.
   */
  ghost predicate Simplifies(an: Analysis, e: Expr, e': Expr) {
    && Flat(e') && Free(e') <= Free(e)
    && forall env | OkEnv(an, env) && Bounded(env, Free(e)) :: Eval(e', env) == Eval(e, env)
  }

  ghost predicate IsRun(an: Analysis, es: seq<Expr>) {
    |es| > 0 && forall i :: 0 < i < |es| ==> Rewrites(an, es[i - 1], es[i]) || Simplifies(an, es[i - 1], es[i])
  }

  /** A run in which nothing is simplified. */
  ghost predicate RulesAlone(an: Analysis, es: seq<Expr>) {
    |es| > 0 && forall i :: 0 < i < |es| ==> Rewrites(an, es[i - 1], es[i])
  }

  /** With the check, a run keeps the value from its first to its last expression, accepted or not. */
  lemma {:induction false} RunIsSound(an: Analysis, es: seq<Expr>, env: Env)
    requires AllChecked(an) && SoundAnalysis(an) && IsRun(an, es) && Flat(es[0])
    requires OkEnv(an, env) && Bounded(env, Free(es[0]))
    ensures Flat(es[|es| - 1]) && Free(es[|es| - 1]) <= Free(es[0])
    ensures Eval(es[|es| - 1], env) == Eval(es[0], env)
    decreases |es|
  {
    hide SoundAnalysis, OkEnv, Rewrites, Flat, Free, Eval;
    var n := |es| - 1;
    if n > 0 {
      RunIsSound(an, es[..n], env);
      assert Rewrites(an, es[n - 1], es[n]) || Simplifies(an, es[n - 1], es[n]);
      if Rewrites(an, es[n - 1], es[n]) {
        FlatRewrite(an, es[n - 1], es[n], env);
      }
    }
  }

  /** Without the check but also without simplifications, the test at the end is enough. */
  lemma {:induction false} RulesAloneAreSound(an: Analysis, es: seq<Expr>, env: Env)
    requires SoundAnalysis(an) && RulesAlone(an, es) && Flat(es[0]) && OkEnv(an, env)
    ensures Flat(es[|es| - 1]) && Free(es[0]) <= Free(es[|es| - 1])
    ensures Free(es[|es| - 1]) == {} ==> Eval(es[|es| - 1], env) == Eval(es[0], env)
    decreases |es|
  {
    hide SoundAnalysis, OkEnv, Rewrites, Flat, Free, Eval;
    var n := |es| - 1;
    if n > 0 {
      RulesAloneAreSound(an, es[..n], env);
      assert Rewrites(an, es[n - 1], es[n]);
      FlatRewrite(an, es[n - 1], es[n], env);
    }
  }

  /** A run that ends without a range, the test the compiler makes, ends in the value it started from. */
  lemma AcceptedRunIsSound(an: Analysis, es: seq<Expr>, env: Env)
    requires AllChecked(an) || RulesAlone(an, es)
    requires SoundAnalysis(an) && IsRun(an, es) && Flat(es[0]) && NoRange(es[|es| - 1])
    requires OkEnv(an, env) && Bounded(env, Free(es[0]))
    ensures Eval(es[|es| - 1], env) == Eval(es[0], env)
  {
    NoRangeNothingFree(es[|es| - 1]);
    if AllChecked(an) {
      RunIsSound(an, es, env);
    } else {
      RulesAloneAreSound(an, es, env);
    }
  }
}
