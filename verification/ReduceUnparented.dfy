/**
  Removing ranges that the reduced expression does not mention (reduce_unparented in
  `tinygrad/codegen/simplify.py`): a sum is multiplied by the size of each, a product is raised to it, and a
  maximum is left alone.
 */
module ReduceUnparented {
  import opened IndexExpr

  /** partition(ranges, in the free ranges of the body). */
  function Parented(rngs: seq<nat>, used: set<nat>): seq<nat> {
    if rngs == [] then [] else (if rngs[0] in used then [rngs[0]] else []) + Parented(rngs[1..], used)
  }

  function Unparented(rngs: seq<nat>, used: set<nat>): seq<nat> {
    if rngs == [] then [] else (if rngs[0] in used then [] else [rngs[0]]) + Unparented(rngs[1..], used)
  }

  function Scale(op: ReduceOp, e: Expr, rs: seq<nat>): Expr
    decreases |rs|
  {
    if rs == [] then e
    else
      match op
      case SUM => Scale(op, Bin(Mul, e, Size(rs[0])), rs[1..])
      case PROD => Scale(op, Bin(Pow, e, Size(rs[0])), rs[1..])
      case MAXIMUM => e
  }

  /** What a reduction over these ranges is replaced by. */
  function DropUnparented(op: ReduceOp, body: Expr, rngs: seq<nat>): Expr {
    var parented := Parented(rngs, Free(body));
    Scale(op, if parented == [] then body else Reduce(op, body, parented), Unparented(rngs, Free(body)))
  }

  // ---------------------------------------------------------------- n copies of one value

  function Repeat(op: ReduceOp, v: int, n: nat): int {
    match op
    case SUM => v * n
    case PROD => Power(v, n)
    case MAXIMUM => v
  }

  lemma {:induction false} PowerOfProduct(a: int, b: int, n: nat)
    ensures Power(a * b, n) == Power(a, n) * Power(b, n)
  {
    if n > 0 {
      PowerOfProduct(a, b, n - 1);
      Regroup(Power(a, n - 1), Power(b, n - 1), a, b);
    }
  }

  lemma Regroup(x: int, y: int, a: int, b: int)
    ensures (x * y) * (a * b) == (x * a) * (y * b)
  {
    assert (x * y) * (a * b) == x * (y * (a * b));
    assert y * (a * b) == a * (y * b);
    assert x * (a * (y * b)) == (x * a) * (y * b);
  }

  lemma {:induction false} PowersCommute(v: int, m: nat, n: nat)
    ensures Power(Power(v, m), n) == Power(Power(v, n), m)
  {
    if n == 0 {
      PowerOfOne(m);
    } else {
      PowersCommute(v, m, n - 1);
      PowerOfProduct(Power(v, n - 1), v, m);
    }
  }

  lemma {:induction false} PowerOfOne(n: nat)
    ensures Power(1, n) == 1
  {
    if n > 0 {
      PowerOfOne(n - 1);
    }
  }

  lemma RepeatsCommute(op: ReduceOp, v: int, m: nat, n: nat)
    ensures Repeat(op, Repeat(op, v, m), n) == Repeat(op, Repeat(op, v, n), m)
  {
    match op
    case SUM => assert v * m * n == v * n * m;
    case PROD => PowersCommute(v, m, n);
    case MAXIMUM =>
  }

  lemma RepeatStep(op: ReduceOp, v: int, n: nat)
    requires n > 0
    ensures Repeat(op, v, n) == if n == 1 then v else Combine(op, Repeat(op, v, n - 1), v)
  {
    if op == SUM {
      assert v * n == v * (n - 1) + v;
    } else if op == PROD && n == 1 {
      assert Power(v, 0) == 1;
    }
  }

  lemma RepeatOfCombine(op: ReduceOp, a: int, b: int, n: nat)
    ensures Repeat(op, Combine(op, a, b), n) == Combine(op, Repeat(op, a, n), Repeat(op, b, n))
  {
    match op
    case SUM => assert (a + b) * n == a * n + b * n;
    case PROD => PowerOfProduct(a, b, n);
    case MAXIMUM =>
  }

  lemma RepeatOfNeutral(op: ReduceOp, env: Env, n: nat)
    ensures Repeat(op, Neutral(op, env), n) == Neutral(op, env)
  {
    if op == PROD {
      PowerOfOne(n);
    }
  }

  function Repeats(op: ReduceOp, v: int, rs: seq<nat>, env: Env): int
    decreases |rs|
  {
    if rs == [] then v else Repeats(op, Repeat(op, v, SizeOf(env, rs[0])), rs[1..], env)
  }

  lemma {:induction false} RepeatsInside(op: ReduceOp, v: int, rs: seq<nat>, env: Env, n: nat)
    ensures Repeat(op, Repeats(op, v, rs, env), n) == Repeats(op, Repeat(op, v, n), rs, env)
    decreases |rs|
  {
    if rs != [] {
      RepeatsInside(op, Repeat(op, v, SizeOf(env, rs[0])), rs[1..], env, n);
      RepeatsCommute(op, v, SizeOf(env, rs[0]), n);
    }
  }

  lemma {:induction false} RepeatsOfCombine(op: ReduceOp, a: int, b: int, rs: seq<nat>, env: Env)
    ensures Repeats(op, Combine(op, a, b), rs, env) == Combine(op, Repeats(op, a, rs, env), Repeats(op, b, rs, env))
    decreases |rs|
  {
    if rs != [] {
      RepeatOfCombine(op, a, b, SizeOf(env, rs[0]));
      RepeatsOfCombine(op, Repeat(op, a, SizeOf(env, rs[0])), Repeat(op, b, SizeOf(env, rs[0])), rs[1..], env);
    }
  }

  lemma {:induction false} RepeatsOfNeutral(op: ReduceOp, rs: seq<nat>, env: Env)
    ensures Repeats(op, Neutral(op, env), rs, env) == Neutral(op, env)
  {
    if rs != [] {
      RepeatOfNeutral(op, env, SizeOf(env, rs[0]));
      RepeatsOfNeutral(op, rs[1..], env);
    }
  }

  // ---------------------------------------------------------------- the theorem

  /** A maximum loses no range of size 0. */
  ghost predicate MaxOverSomething(op: ReduceOp, rs: seq<nat>, env: Env) {
    op == MAXIMUM ==> forall i :: 0 <= i < |rs| ==> SizeOf(env, rs[i]) >= 1
  }

  lemma RepeatsOnlySizes(op: ReduceOp, v: int, rs: seq<nat>, env: Env, r: nat, i: int)
    ensures Repeats(op, v, rs, Bind(env, r, i)) == Repeats(op, v, rs, env)
    decreases |rs|
  {
    if rs != [] {
      RepeatsOnlySizes(op, Repeat(op, v, SizeOf(env, rs[0])), rs[1..], env, r, i);
    }
  }

  /** Folding one constant value. */
  lemma {:induction false} FoldOfConstant(op: ReduceOp, body: Expr, rngs: seq<nat>, env: Env, n: nat, v: int)
    requires rngs != [] && (op == MAXIMUM ==> n >= 1)
    requires forall i :: Nest(op, body, rngs[1..], Bind(env, rngs[0], i)) == v
    ensures Fold(op, body, rngs, env, n) == Repeat(op, v, n)
  {
    hide Nest, Fold, Combine, Repeat;
    FoldStep(op, body, rngs, env, n);
    if n == 0 {
      RepeatZero(op, v, env);
    } else {
      RepeatStep(op, v, n);
      if n > 1 {
        FoldOfConstant(op, body, rngs, env, n - 1, v);
      }
    }
  }

  lemma RepeatZero(op: ReduceOp, v: int, env: Env)
    ensures op != MAXIMUM ==> Repeat(op, v, 0) == Neutral(op, env)
  {
  }

  /** Folding values that are all repeats folds the values and repeats the outcome. */
  lemma {:induction false} FoldOfRepeats(
    op: ReduceOp, body: Expr, rngs: seq<nat>, kept: seq<nat>, rs: seq<nat>, env: Env, n: nat)
    requires rngs != [] && kept != [] && kept[0] == rngs[0]
    requires forall i :: (var env' := Bind(env, rngs[0], i);
      Nest(op, body, rngs[1..], env') == Repeats(op, Nest(op, body, kept[1..], env'), rs, env))
    ensures Fold(op, body, rngs, env, n) == Repeats(op, Fold(op, body, kept, env, n), rs, env)
  {
    hide Nest, Fold, Combine, Repeat, Repeats;
    FoldStep(op, body, rngs, env, n);
    FoldStep(op, body, kept, env, n);
    if n == 0 {
      RepeatsOfNeutral(op, rs, env);
    } else if n > 1 {
      FoldOfRepeats(op, body, rngs, kept, rs, env, n - 1);
      RepeatsOfCombine(
        op, Fold(op, body, kept, env, n - 1), Nest(op, body, kept[1..], Bind(env, kept[0], n - 1)), rs, env);
    }
  }

  lemma NestStep(op: ReduceOp, body: Expr, q: nat, rest: seq<nat>, env: Env)
    ensures Nest(op, body, [q] + rest, env) == Fold(op, body, [q] + rest, env, SizeOf(env, q))
    ensures ([q] + rest)[1..] == rest
  {
  }

  /** The first range is used: it stays, and what is dropped below it moves outside. */
  lemma NestKeepsRange(op: ReduceOp, body: Expr, q: nat, rest: seq<nat>, kept: seq<nat>, rs: seq<nat>, env: Env)
    requires forall i :: (var env' := Bind(env, q, i);
      Nest(op, body, rest, env') == Repeats(op, Nest(op, body, kept, env'), rs, env))
    ensures Nest(op, body, [q] + rest, env) == Repeats(op, Nest(op, body, [q] + kept, env), rs, env)
  {
    hide Nest, Fold, Repeats;
    NestStep(op, body, q, rest, env);
    NestStep(op, body, q, kept, env);
    FoldOfRepeats(op, body, [q] + rest, [q] + kept, rs, env, SizeOf(env, q));
  }

  /** The first range is not used: its size is one more factor. */
  lemma NestDropsRange(op: ReduceOp, body: Expr, q: nat, rest: seq<nat>, v: int, rs: seq<nat>, env: Env)
    requires q !in Free(body) && (op == MAXIMUM ==> SizeOf(env, q) >= 1)
    requires Nest(op, body, rest, env) == Repeats(op, v, rs, env)
    ensures Nest(op, body, [q] + rest, env) == Repeats(op, v, [q] + rs, env)
  {
    hide Nest, Fold, Repeat;
    NestStep(op, body, q, rest, env);
    forall i ensures Nest(op, body, rest, Bind(env, q, i)) == Nest(op, body, rest, env) {
      UnusedRangeNest(op, body, rest, env, q, i);
    }
    FoldOfConstant(op, body, [q] + rest, env, SizeOf(env, q), Nest(op, body, rest, env));
    RepeatsInside(op, v, rs, env, SizeOf(env, q));
    assert ([q] + rs)[1..] == rs;
  }

  lemma PartitionStep(q: nat, rest: seq<nat>, used: set<nat>)
    ensures q in used ==>
      Parented([q] + rest, used) == [q] + Parented(rest, used) && Unparented([q] + rest, used) == Unparented(rest, used)
    ensures q !in used ==>
      Parented([q] + rest, used) == Parented(rest, used) && Unparented([q] + rest, used) == [q] + Unparented(rest, used)
  {
    assert ([q] + rest)[1..] == rest;
  }

  lemma {:induction false} NestSplits(op: ReduceOp, body: Expr, rngs: seq<nat>, env: Env)
    requires MaxOverSomething(op, Unparented(rngs, Free(body)), env)
    ensures Nest(op, body, rngs, env) ==
      Repeats(op, Nest(op, body, Parented(rngs, Free(body)), env), Unparented(rngs, Free(body)), env)
    decreases |rngs|
  {
    if rngs != [] {
      var used, q, rest := Free(body), rngs[0], rngs[1..];
      var kept, rs := Parented(rest, used), Unparented(rest, used);
      assert rngs == [q] + rest;
      PartitionStep(q, rest, used);
      hide Nest, Repeats, Free, Parented, Unparented;
      if q in used {
        forall i
          ensures
            var env' := Bind(env, q, i);
            Nest(op, body, rest, env') == Repeats(op, Nest(op, body, kept, env'), rs, env)
        {
          NestSplits(op, body, rest, Bind(env, q, i));
          RepeatsOnlySizes(op, Nest(op, body, kept, Bind(env, q, i)), rs, env, q, i);
        }
        NestKeepsRange(op, body, q, rest, kept, rs, env);
      } else {
        forall i: nat | i < |rs| ensures op == MAXIMUM ==> SizeOf(env, rs[i]) >= 1 {
          assert ([q] + rs)[i + 1] == rs[i];
        }
        assert ([q] + rs)[0] == q;
        NestSplits(op, body, rest, env);
        NestDropsRange(op, body, q, rest, Nest(op, body, kept, env), rs, env);
      }
    }
  }

  lemma {:induction false} ScaleValue(op: ReduceOp, e: Expr, rs: seq<nat>, env: Env)
    ensures Eval(Scale(op, e, rs), env) == Repeats(op, Eval(e, env), rs, env)
    decreases |rs|
  {
    if rs != [] {
      match op
      case SUM =>
        var e' := Bin(Mul, e, Size(rs[0]));
        assert Eval(Size(rs[0]), env) == SizeOf(env, rs[0]);
        ScaleValue(op, e', rs[1..], env);
      case PROD =>
        var e' := Bin(Pow, e, Size(rs[0]));
        assert Eval(Size(rs[0]), env) == SizeOf(env, rs[0]);
        ScaleValue(op, e', rs[1..], env);
      case MAXIMUM =>
        ScaleValue(op, e, rs[1..], env);
    }
  }

  /** Dropping the ranges a reduction does not use keeps its value, for a maximum when none of them is empty. */
  lemma DropUnparentedIsSound(op: ReduceOp, body: Expr, rngs: seq<nat>, env: Env)
    requires MaxOverSomething(op, Unparented(rngs, Free(body)), env)
    ensures Eval(DropUnparented(op, body, rngs), env) == Eval(Reduce(op, body, rngs), env)
  {
    var parented, rs := Parented(rngs, Free(body)), Unparented(rngs, Free(body));
    var kept := if parented == [] then body else Reduce(op, body, parented);
    assert Eval(kept, env) == Nest(op, body, parented, env);
    ScaleValue(op, kept, rs, env);
    NestSplits(op, body, rngs, env);
  }

  /** For one range of a maximum that proviso is exact, unless the body happens to be the empty maximum itself. */
  lemma DropMaximumIff(body: Expr, r: nat, env: Env)
    requires r !in Free(body) && Eval(body, env) != env.lowest
    ensures Eval(DropUnparented(MAXIMUM, body, [r]), env) == Eval(Reduce(MAXIMUM, body, [r]), env) <==>
      SizeOf(env, r) >= 1
  {
    var rs := Unparented([r], Free(body));
    assert [r][1..] == [] && Unparented([], Free(body)) == [] && Parented([], Free(body)) == [];
    assert rs == [r] && Parented([r], Free(body)) == [];
    if SizeOf(env, r) >= 1 {
      DropUnparentedIsSound(MAXIMUM, body, [r], env);
    } else {
      assert Eval(Reduce(MAXIMUM, body, [r]), env) == Nest(MAXIMUM, body, [r], env) == Fold(MAXIMUM, body, [r], env, 0);
      assert DropUnparented(MAXIMUM, body, [r]) == body;
    }
  }
}
