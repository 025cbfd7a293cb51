/**
  Rewriting the linear list of instructions line by line (`line_rewrite` in `tinygrad/codegen/__init__.py`), the
  cleanup that turns a gated store into IF, store, ENDIF, and the variant that records where the tagged matrix
  instructions end up.

  Instructions are values: two instructions with the same operation, argument and sources are the same one.
 */
module LineRewrite {
  import opened Wrappers

  datatype Op = Index | Shrink | Cast | Store | If | Endif | Plain(tag: nat)

  datatype UOp = UOp(op: Op, src: seq<UOp>, arg: nat, isBool: bool)

  /** What a matcher makes of an instruction: its replacement, and the lines to emit for it. */
  datatype Rewrite = Panic | Keep | Lines(ret: UOp, lines: seq<UOp>)

  type Matcher = UOp -> Rewrite

  // ---------------------------------------------------------------- line_rewrite

  datatype Done = Done(lines: seq<UOp>, replaced: map<UOp, UOp>)

  function Replaced(m: map<UOp, UOp>, x: UOp): UOp { if x in m then m[x] else x }

  function Renamed(u: UOp, m: map<UOp, UOp>): UOp {
    u.(src := seq(|u.src|, i requires 0 <= i < |u.src| => Replaced(m, u.src[i])))
  }

  function Step(pm: Matcher, d: Done, u: UOp): Option<Done> {
    var nu := Renamed(u, d.replaced);
    match pm(nu)
    case Panic => None
    case Keep => Some(Done(d.lines + [nu], d.replaced[u := nu]))
    case Lines(ret, lines) => Some(Done(d.lines + lines, d.replaced[u := ret]))
  }

  function Rewritten(pm: Matcher, lst: seq<UOp>): Option<Done> {
    if lst == [] then Some(Done([], map[]))
    else
      match Rewritten(pm, lst[..|lst| - 1])
      case None => None
      case Some(d) => Step(pm, d, lst[|lst| - 1])
  }

  // ---------------------------------------------------------------- the same, instruction by instruction

  /** An instruction with its sources rewritten all the way down. */
  function Prepared(pm: Matcher, u: UOp): UOp
    decreases u, 0
  {
    u.(src := seq(|u.src|, i requires 0 <= i < |u.src| => Image(pm, u.src[i])))
  }

  function Image(pm: Matcher, u: UOp): UOp
    decreases u, 1
  {
    var nu := Prepared(pm, u);
    match pm(nu)
    case Lines(ret, _) => ret
    case _ => nu
  }

  function Block(pm: Matcher, u: UOp): seq<UOp> {
    var nu := Prepared(pm, u);
    match pm(nu)
    case Lines(_, lines) => lines
    case _ => [nu]
  }

  function Blocks(pm: Matcher, lst: seq<UOp>): seq<UOp> {
    if lst == [] then [] else Blocks(pm, lst[..|lst| - 1]) + Block(pm, lst[|lst| - 1])
  }

  /** Every source of a line is an earlier line. */
  ghost predicate DefBeforeUse(lst: seq<UOp>) {
    forall i :: 0 <= i < |lst| ==> AllDefined(lst[i], lst[..i])
  }

  ghost predicate AllDefined(u: UOp, before: seq<UOp>) { forall x :: x in u.src ==> x in before }

  lemma DefBeforeUsePrefix(lst: seq<UOp>)
    requires DefBeforeUse(lst) && lst != []
    ensures DefBeforeUse(lst[..|lst| - 1]) && AllDefined(lst[|lst| - 1], lst[..|lst| - 1])
  {
    var n := |lst| - 1;
    forall i | 0 <= i < n
      ensures AllDefined(lst[..n][i], lst[..n][..i])
    {
      assert lst[..n][..i] == lst[..i] && AllDefined(lst[i], lst[..i]);
    }
  }

  /** The dictionary holds the image of every line so far. */
  ghost predicate HoldsImages(pm: Matcher, m: map<UOp, UOp>, lst: seq<UOp>) {
    forall x :: x in lst ==> x in m && m[x] == Image(pm, x)
  }

  lemma SourcesAgree(pm: Matcher, u: UOp, before: seq<UOp>, m: map<UOp, UOp>)
    requires AllDefined(u, before) && HoldsImages(pm, m, before)
    ensures Renamed(u, m) == Prepared(pm, u)
  {
    forall i | 0 <= i < |u.src|
      ensures Replaced(m, u.src[i]) == Image(pm, u.src[i])
    {
      assert u.src[i] in u.src;
    }
    assert Renamed(u, m).src == Prepared(pm, u).src;
  }

  lemma StepIsBlock(pm: Matcher, d: Done, u: UOp, before: seq<UOp>)
    requires AllDefined(u, before) && HoldsImages(pm, d.replaced, before) && Step(pm, d, u).Some?
    ensures
      var next := Step(pm, d, u).value;
      && next.lines == d.lines + Block(pm, u) && HoldsImages(pm, next.replaced, before + [u])
  {
    SourcesAgree(pm, u, before, d.replaced);
    hide Prepared;
  }

  /** On a list in order the dictionary of replacements amounts to rewriting every instruction all the way down. */
  lemma {:induction false} RewrittenIsBlocks(pm: Matcher, lst: seq<UOp>)
    requires DefBeforeUse(lst) && Rewritten(pm, lst).Some?
    ensures
      var d := Rewritten(pm, lst).value;
      d.lines == Blocks(pm, lst) && HoldsImages(pm, d.replaced, lst)
  {
    if lst != [] {
      var n := |lst| - 1;
      DefBeforeUsePrefix(lst);
      RewrittenIsBlocks(pm, lst[..n]);
      hide Step, Image, Block, DefBeforeUse, HoldsImages;
      StepIsBlock(pm, Rewritten(pm, lst[..n]).value, lst[n], lst[..n]);
      assert lst[..n] + [lst[n]] == lst;
    }
  }

  // ---------------------------------------------------------------- the store cleanup

  predicate IndexLike(x: UOp) {
    x.op.Index? || x.op.Shrink? || (x.op.Cast? && |x.src| == 1 && (x.src[0].op.Index? || x.src[0].op.Shrink?))
  }

  predicate GatedStore(u: UOp) {
    u.op.Store? && |u.src| == 3 && IndexLike(u.src[0]) && u.src[2].isBool
  }

  function IfOf(u: UOp): UOp
    requires |u.src| == 3
  {
    UOp(If, [u.src[2], u.src[0]], 0, false)
  }

  function Ungated(u: UOp): UOp
    requires |u.src| == 3
  {
    u.(src := u.src[..2])
  }

  function Cleanup(u: UOp): Rewrite {
    if u.op.If? || u.op.Endif? then Panic
    else if GatedStore(u) then Lines(Ungated(u), [IfOf(u), Ungated(u), UOp(Endif, [IfOf(u)], 0, false)])
    else Keep
  }

  const PM: Matcher := u => Cleanup(u)

  lemma {:induction false} ImageKeepsKind(u: UOp)
    ensures Image(PM, u).op == u.op && Image(PM, u).isBool == u.isBool
    ensures IndexLike(Prepared(PM, u)) <==> IndexLike(u)
    ensures !u.op.Store? ==> Image(PM, u) == Prepared(PM, u)
  {
    forall i | 0 <= i < |u.src|
      ensures Image(PM, u.src[i]).op == u.src[i].op
    {
      ImageKeepsKind(u.src[i]);
    }
  }

  /** The pattern applies after the sources are rewritten exactly when it applies before. */
  lemma GateSurvives(u: UOp)
    ensures GatedStore(Prepared(PM, u)) <==> GatedStore(u)
  {
    forall i | 0 <= i < |u.src|
      ensures Prepared(PM, u).src[i].isBool == u.src[i].isBool
      ensures IndexLike(Prepared(PM, u).src[i]) <==> IndexLike(u.src[i])
    {
      ImageKeepsKind(u.src[i]);
      StoreIsNoIndex(u.src[i]);
    }
  }

  lemma StoreIsNoIndex(u: UOp)
    ensures u.op.Store? ==> !IndexLike(u) && !IndexLike(Image(PM, u))
  {
    ImageKeepsKind(u);
  }

  lemma StepFailsIff(d: Done, u: UOp)
    ensures Step(PM, d, u).None? <==> u.op.If? || u.op.Endif?
  {
  }

  /** It fails exactly on lists that contain IF or ENDIF already. */
  lemma {:induction false} CleanupFailsIff(lst: seq<UOp>)
    ensures Rewritten(PM, lst).None? <==> exists u :: u in lst && (u.op.If? || u.op.Endif?)
  {
    if lst != [] {
      var n := |lst| - 1;
      CleanupFailsIff(lst[..n]);
      assert lst == lst[..n] + [lst[n]];
      if Rewritten(PM, lst[..n]).Some? {
        StepFailsIff(Rewritten(PM, lst[..n]).value, lst[n]);
      }
      hide Step;
    }
  }

  // ---------------------------------------------------------------- shape of the result

  /** IF, an ungated store and its ENDIF. */
  predicate GuardedStore(a: UOp, b: UOp, c: UOp) {
    a.op.If? && b.op.Store? && |b.src| == 2 && |a.src| == 2 && a.src[1] == b.src[0] && c == UOp(Endif, [a], 0, false)
  }

  /** IF and ENDIF come only in such triples. */
  predicate WellBracketed(lines: seq<UOp>) {
    if lines == [] then true
    else if lines[|lines| - 1].op.Endif? then
      && |lines| >= 3 && GuardedStore(lines[|lines| - 3], lines[|lines| - 2], lines[|lines| - 1])
      && WellBracketed(lines[..|lines| - 3])
    else !lines[|lines| - 1].op.If? && WellBracketed(lines[..|lines| - 1])
  }

  lemma BracketsAppend(lines: seq<UOp>, u: UOp)
    requires WellBracketed(lines) && !u.op.If? && !u.op.Endif?
    ensures WellBracketed(lines + Block(PM, u))
  {
    ImageKeepsKind(u);
    GateSurvives(u);
    var nu := Prepared(PM, u);
    assert nu.op == u.op;
    hide Image, Prepared;
    if GatedStore(u) {
      var mif, st, end := IfOf(nu), Ungated(nu), UOp(Endif, [IfOf(nu)], 0, false);
      assert Block(PM, u) == [mif, st, end];
      assert (lines + [mif, st, end])[..|lines|] == lines;
    } else {
      assert Block(PM, u) == [nu];
      assert (lines + [nu])[..|lines|] == lines;
    }
  }

  /** A store with a third, boolean source happens only if that source is true. */
  predicate HasGate(u: UOp) {
    u.op.Store? && |u.src| == 3 && u.src[2].isBool
  }

  /** x is an INDEX or a SHRINK, or a cast of one and of nothing else. */
  ghost predicate Addresses(x: UOp) {
    exists a: UOp :: (a.op == Index || a.op == Shrink) && (x == a || (x.op == Cast && x.src == [a]))
  }

  lemma AddressesIff(x: UOp)
    ensures Addresses(x) <==> IndexLike(x)
  {
    if IndexLike(x) {
      var a := if x.op.Cast? then x.src[0] else x;
      assert x == a || x.src == [a];
    }
  }

  /** A gate is gone from the lines of an instruction exactly if its store addresses memory in one of these ways. */
  lemma BlockHasGateIff(u: UOp)
    requires !u.op.If? && !u.op.Endif?
    ensures (exists x :: x in Block(PM, u) && HasGate(x)) <==> HasGate(u) && !Addresses(u.src[0])
  {
    ImageKeepsKind(u);
    GateSurvives(u);
    GateIsKept(u);
    var nu := Prepared(PM, u);
    hide Image, Prepared, IndexLike;
    if HasGate(u) { AddressesIff(u.src[0]); }
    if GatedStore(u) {
      assert Block(PM, u) == [IfOf(nu), Ungated(nu), UOp(Endif, [IfOf(nu)], 0, false)];
    } else {
      assert Block(PM, u) == [nu];
    }
  }

  lemma GateIsKept(u: UOp)
    ensures HasGate(Prepared(PM, u)) <==> HasGate(u)
  {
    forall i | 0 <= i < |u.src|
      ensures Prepared(PM, u).src[i].isBool == u.src[i].isBool
    {
      ImageKeepsKind(u.src[i]);
    }
  }

  lemma {:induction false} BlocksHaveGateIff(lst: seq<UOp>)
    requires forall u :: u in lst ==> !u.op.If? && !u.op.Endif?
    ensures (exists x :: x in Blocks(PM, lst) && HasGate(x)) <==>
      exists u :: u in lst && HasGate(u) && !Addresses(u.src[0])
  {
    hide Block, HasGate, Addresses;
    if lst != [] {
      var n := |lst| - 1;
      BlocksHaveGateIff(lst[..n]);
      BlockHasGateIff(lst[n]);
      assert forall u :: u in lst <==> u in lst[..n] || u == lst[n];
      assert forall x :: x in Blocks(PM, lst) <==> x in Blocks(PM, lst[..n]) || x in Block(PM, lst[n]);
    }
  }

  /**
    In the result IF and ENDIF come only around one store, and no gated store is left exactly if every gated store
    of the list addresses an INDEX, a SHRINK or a cast of one.
   */
  lemma {:induction false} ResultIsBracketed(lst: seq<UOp>)
    requires DefBeforeUse(lst) && Rewritten(PM, lst).Some?
    ensures WellBracketed(Rewritten(PM, lst).value.lines)
    ensures (exists x :: x in Rewritten(PM, lst).value.lines && HasGate(x)) <==>
      exists u :: u in lst && HasGate(u) && !Addresses(u.src[0])
  {
    RewrittenIsBlocks(PM, lst);
    CleanupFailsIff(lst);
    BlocksAreBracketed(lst);
    BlocksHaveGateIff(lst);
  }

  lemma {:induction false} BlocksAreBracketed(lst: seq<UOp>)
    requires forall u :: u in lst ==> !u.op.If? && !u.op.Endif?
    ensures WellBracketed(Blocks(PM, lst))
  {
    if lst != [] {
      var n := |lst| - 1;
      BlocksAreBracketed(lst[..n]);
      BracketsAppend(Blocks(PM, lst[..n]), lst[n]);
    }
  }

  /** The result is in order again. */
  lemma {:induction false} ResultIsDefBeforeUse(lst: seq<UOp>)
    requires DefBeforeUse(lst)
    ensures DefBeforeUse(Blocks(PM, lst)) && forall x :: x in lst ==> Image(PM, x) in Blocks(PM, lst)
  {
    if lst != [] {
      var n := |lst| - 1;
      var u := lst[n];
      DefBeforeUsePrefix(lst);
      ResultIsDefBeforeUse(lst[..n]);
      assert lst == lst[..n] + [u];
      var lines := Blocks(PM, lst[..n]);
      var nu := Prepared(PM, u);
      forall x | x in nu.src
        ensures x in lines
      {
        var i :| 0 <= i < |nu.src| && nu.src[i] == x;
        assert u.src[i] in u.src;
      }
      AppendBlock(lines, nu);
    }
  }

  lemma AppendOne(lines: seq<UOp>, u: UOp)
    requires DefBeforeUse(lines) && AllDefined(u, lines)
    ensures DefBeforeUse(lines + [u])
  {
    var all := lines + [u];
    forall i | 0 <= i < |all|
      ensures AllDefined(all[i], all[..i])
    {
      assert all[..i] == lines[..i];
    }
  }

  lemma AppendBlock(lines: seq<UOp>, nu: UOp)
    requires DefBeforeUse(lines) && AllDefined(nu, lines)
    ensures
      var block := match Cleanup(nu) case Lines(_, ls) => ls case _ => [nu];
      DefBeforeUse(lines + block)
  {
    AppendOne(lines, nu);
    if Cleanup(nu).Lines? {
      var mif, st, end := IfOf(nu), Ungated(nu), UOp(Endif, [IfOf(nu)], 0, false);
      assert nu.src[0] in nu.src && nu.src[2] in nu.src;
      AppendOne(lines, mif);
      assert forall x :: x in st.src ==> x in nu.src;
      AppendOne(lines + [mif], st);
      AppendOne(lines + [mif] + [st], end);
      assert lines + [mif] + [st] + [end] == lines + [mif, st, end];
    }
  }

  // ---------------------------------------------------------------- what a list does

  /**
    The machine: what an instruction computes and what it does to memory, given its argument and the values of its
    sources. Nothing is assumed about either.
   */
  datatype Machine<!V, !M> = Machine(nothing: V, truth: V -> bool, value: (Op, nat, seq<V>, M) -> V,
                                     effect: (Op, nat, seq<V>, M) -> M)

  /** The value of every instruction, the memory, and whether a false IF is being skipped. */
  datatype State<!V, !M> = State(env: UOp -> V, mem: M, skip: bool)

  function Set<V>(env: UOp -> V, u: UOp, v: V): UOp -> V { x => if x == u then v else env(x) }

  function Values<V>(env: UOp -> V, src: seq<UOp>): seq<V> { seq(|src|, i requires 0 <= i < |src| => env(src[i])) }

  function Effect<V, M>(mc: Machine<V, M>, u: UOp, vals: seq<V>, mem: M): M
    requires |vals| == |u.src|
  {
    if !HasGate(u) then mc.effect(u.op, u.arg, vals, mem)
    else if mc.truth(vals[2]) then mc.effect(Store, u.arg, vals[..2], mem)
    else mem
  }

  function Exec<V, M>(mc: Machine<V, M>, s: State<V, M>, u: UOp): State<V, M> {
    match u.op
    case If => State(Set(s.env, u, mc.nothing), s.mem, u.src != [] && !mc.truth(s.env(u.src[0])))
    case Endif => State(Set(s.env, u, mc.nothing), s.mem, false)
    case _ =>
      if s.skip then s.(env := Set(s.env, u, mc.nothing))
      else
        var vals := Values(s.env, u.src);
        var v := if u.op.Store? then mc.nothing else mc.value(u.op, u.arg, vals, s.mem);
        State(Set(s.env, u, v), Effect(mc, u, vals, s.mem), false)
  }

  function ExecAll<V, M>(mc: Machine<V, M>, s: State<V, M>, lines: seq<UOp>): State<V, M> {
    if lines == [] then s else Exec(mc, ExecAll(mc, s, lines[..|lines| - 1]), lines[|lines| - 1])
  }

  function Start<V, M>(mc: Machine<V, M>, mem: M): State<V, M> { State(_ => mc.nothing, mem, false) }

  /** Dropping the gates makes no two instructions equal, stores aside. */
  ghost predicate StaysApart(lst: seq<UOp>) {
    forall x, y :: x in lst && y in lst && Image(PM, x) == Image(PM, y) && !x.op.Store? ==> x == y
  }

  /** Every instruction of the list has the value of its image, and stores have none. */
  ghost predicate Mirrors<V, M>(mc: Machine<V, M>, lst: seq<UOp>, env: UOp -> V, env': UOp -> V) {
    && (forall x :: x in lst ==> env'(Image(PM, x)) == env(x))
    && (forall x :: x in lst && x.op.Store? ==> env(x) == mc.nothing)
  }

  ghost predicate Related<V, M>(mc: Machine<V, M>, lst: seq<UOp>, s: State<V, M>, s': State<V, M>) {
    Mirrors(mc, lst, s.env, s'.env) && s.mem == s'.mem && !s.skip && !s'.skip
  }

  ghost predicate NoIf(lst: seq<UOp>) { forall u :: u in lst ==> !u.op.If? && !u.op.Endif? }

  predicate Ordinary(u: UOp) { !u.op.If? && !u.op.Endif? }

  function Outcome<V, M>(mc: Machine<V, M>, u: UOp, vals: seq<V>, mem: M): V {
    if u.op.Store? then mc.nothing else mc.value(u.op, u.arg, vals, mem)
  }

  /** From s to t the instruction u has been executed on the given values, and z has its outcome. */
  ghost predicate Executes<V, M>(mc: Machine<V, M>, s: State<V, M>, t: State<V, M>, u: UOp, z: UOp, vals: seq<V>) {
    && |vals| == |u.src| && !t.skip && t.mem == Effect(mc, u, vals, s.mem)
    && forall x | Ordinary(x) :: t.env(x) == if x == z then Outcome(mc, u, vals, s.mem) else s.env(x)
  }

  lemma LineExecutes<V, M>(mc: Machine<V, M>, s: State<V, M>, u: UOp)
    requires Ordinary(u) && !s.skip
    ensures Executes(mc, s, Exec(mc, s, u), u, u, Values(s.env, u.src))
  {
  }

  /** The lines emitted for an instruction execute it, on the images of its sources. */
  lemma BlockExecutes<V, M>(mc: Machine<V, M>, s: State<V, M>, u: UOp)
    requires Ordinary(u) && !s.skip && forall x :: x in u.src ==> Ordinary(x)
    ensures
      Executes(mc, s, ExecAll(mc, s, Block(PM, u)), u, Image(PM, u), Values(s.env, Prepared(PM, u).src))
  {
    ImageKeepsKind(u);
    GateSurvives(u);
    var nu := Prepared(PM, u);
    if GatedStore(u) {
      forall i | 0 <= i < 3 ensures Ordinary(nu.src[i]) {
        assert u.src[i] in u.src;
        ImageKeepsKind(u.src[i]);
      }
      hide Image, Prepared;
      GuardedStoreExecutes(mc, s, nu);
    } else {
      GateIsKept(u);
      OneLine(mc, s, nu);
      assert Block(PM, u) == [nu] && Image(PM, u) == nu;
    }
  }

  lemma GuardedStoreExecutes<V, M>(mc: Machine<V, M>, s: State<V, M>, nu: UOp)
    requires GatedStore(nu) && !s.skip && forall i :: 0 <= i < 3 ==> Ordinary(nu.src[i])
    ensures
      var mif, st := IfOf(nu), Ungated(nu);
      var t := ExecAll(mc, s, [mif, st, UOp(Endif, [mif], 0, false)]);
      Executes(mc, s, t, nu, st, Values(s.env, nu.src))
  {
    var mif, st := IfOf(nu), Ungated(nu);
    var vals, e1 := Values(s.env, nu.src), Set(s.env, mif, mc.nothing);
    assert Values(e1, st.src) == vals[..2];
    assert vals[2] == s.env(nu.src[2]);
    NotGated(st);
    ThreeLines(mc, s, mif, st, UOp(Endif, [mif], 0, false));
  }

  lemma OneLine<V, M>(mc: Machine<V, M>, s: State<V, M>, u: UOp)
    ensures ExecAll(mc, s, [u]) == Exec(mc, s, u)
  {
    assert [u][..0] == [];
  }

  lemma ThreeLines<V, M>(mc: Machine<V, M>, s: State<V, M>, a: UOp, b: UOp, c: UOp)
    ensures ExecAll(mc, s, [a, b, c]) == Exec(mc, Exec(mc, Exec(mc, s, a), b), c)
  {
    assert [a, b, c][..2] == [a, b] && [a, b][..1] == [a];
    OneLine(mc, s, a);
  }

  lemma NotGated(u: UOp)
    requires |u.src| == 2
    ensures !HasGate(u)
  {
  }

  lemma ValuesAgree<V>(env: UOp -> V, env': UOp -> V, u: UOp)
    requires forall x :: x in u.src ==> env'(Image(PM, x)) == env(x)
    ensures Values(env', Prepared(PM, u).src) == Values(env, u.src)
  {
    forall i | 0 <= i < |u.src|
      ensures env'(Prepared(PM, u).src[i]) == env(u.src[i])
    {
      assert u.src[i] in u.src;
    }
  }

  /** One line and the lines emitted for it do the same. */
  lemma BlockSimulates<V, M>(mc: Machine<V, M>, lst: seq<UOp>, s: State<V, M>, s': State<V, M>, u: UOp)
    requires Related(mc, lst, s, s') && u in lst && AllDefined(u, lst) && NoIf(lst) && StaysApart(lst)
    ensures Related(mc, lst, Exec(mc, s, u), ExecAll(mc, s', Block(PM, u)))
  {
    LineExecutes(mc, s, u);
    BlockExecutes(mc, s', u);
    ValuesAgree(s.env, s'.env, u);
    var t, t' := Exec(mc, s, u), ExecAll(mc, s', Block(PM, u));
    hide Exec, ExecAll, Block, Image, Effect;
    forall x | x in lst
      ensures t'.env(Image(PM, x)) == t.env(x) && (x.op.Store? ==> t.env(x) == mc.nothing)
    {
      ImageKeepsKind(x);
      ImageKeepsKind(u);
      if Image(PM, x) == Image(PM, u) && x != u {
        assert x.op.Store?;
      }
    }
  }

  // ---------------------------------------------------------------- whole runs

  /**
    The lines executed, one after the other; loops may repeat or leave out lines. A loop decides by values, which
    are the same in both programs.
   */
  ghost predicate IsPath(lst: seq<UOp>, path: seq<nat>) { forall k :: 0 <= k < |path| ==> path[k] < |lst| }

  function RunPath<V, M>(mc: Machine<V, M>, s: State<V, M>, lst: seq<UOp>, path: seq<nat>): State<V, M>
    requires IsPath(lst, path)
  {
    if path == [] then s else Exec(mc, RunPath(mc, s, lst, path[..|path| - 1]), lst[path[|path| - 1]])
  }

  function RunBlocks<V, M>(mc: Machine<V, M>, s: State<V, M>, lst: seq<UOp>, path: seq<nat>): State<V, M>
    requires IsPath(lst, path)
  {
    if path == [] then s
    else ExecAll(mc, RunBlocks(mc, s, lst, path[..|path| - 1]), Block(PM, lst[path[|path| - 1]]))
  }

  lemma EveryLineDefined(lst: seq<UOp>, i: nat)
    requires DefBeforeUse(lst) && i < |lst|
    ensures AllDefined(lst[i], lst)
  {
    assert AllDefined(lst[i], lst[..i]);
  }

  /** Along every path both programs have the same memory, and every line the value of its image. */
  lemma {:induction false} CleanupPreservesRuns<V, M>(mc: Machine<V, M>, mem: M, lst: seq<UOp>, path: seq<nat>)
    requires DefBeforeUse(lst) && NoIf(lst) && StaysApart(lst) && IsPath(lst, path)
    ensures Related(mc, lst, RunPath(mc, Start(mc, mem), lst, path), RunBlocks(mc, Start(mc, mem), lst, path))
  {
    if path != [] {
      var n := |path| - 1;
      CleanupPreservesRuns(mc, mem, lst, path[..n]);
      EveryLineDefined(lst, path[n]);
      var s, s' := RunPath(mc, Start(mc, mem), lst, path[..n]), RunBlocks(mc, Start(mc, mem), lst, path[..n]);
      BlockSimulates(mc, lst, s, s', lst[path[n]]);
    }
  }

  lemma {:induction false} ExecAllConcat<V, M>(mc: Machine<V, M>, s: State<V, M>, a: seq<UOp>, b: seq<UOp>)
    ensures ExecAll(mc, s, a + b) == ExecAll(mc, ExecAll(mc, s, a), b)
  {
    if b == [] {
      assert a + b == a;
    } else {
      var n := |b| - 1;
      ExecAllConcat(mc, s, a, b[..n]);
      assert (a + b)[..|a + b| - 1] == a + b[..n];
    }
  }

  // ---------------------------------------------------------------- when images collide

  /** On every machine and along every path the images keep the values of their lines. */
  ghost predicate AlwaysMirrored(lst: seq<UOp>) {
    forall mc: Machine<int, int>, mem: int, path: seq<nat> :: IsPath(lst, path) ==> MirroredAlong(mc, mem, lst, path)
  }

  ghost predicate MirroredAlong(mc: Machine<int, int>, mem: int, lst: seq<UOp>, path: seq<nat>)
    requires IsPath(lst, path)
  {
    Related(mc, lst, RunPath(mc, Start(mc, mem), lst, path), RunBlocks(mc, Start(mc, mem), lst, path))
  }

  /** A machine that counts the instructions it executes, and whose values are the count. */
  function CountingMachine(): Machine<int, int> {
    Machine(-1, (v: int) => true, (op: Op, arg: nat, vals: seq<int>, m: int) => m,
            (op: Op, arg: nat, vals: seq<int>, m: int) => m + 1)
  }

  /** Two different lines with one image: the second overwrites the value of the first. */
  lemma CollidingLines(lst: seq<UOp>, i: nat, j: nat)
    requires i < |lst| && j < |lst| && lst[i] != lst[j] && !lst[i].op.Store? && NoIf(lst)
    requires Image(PM, lst[i]) == Image(PM, lst[j])
    ensures IsPath(lst, [i, j]) && !MirroredAlong(CountingMachine(), 0, lst, [i, j])
  {
    var mc, x, y := CountingMachine(), lst[i], lst[j];
    var s0 := Start(mc, 0);
    ImageKeepsKind(x);
    ImageKeepsKind(y);
    assert x in lst && y in lst;
    assert [i, j][..1] == [i] && [i][..0] == [];
    assert Block(PM, x) == [Image(PM, x)] && Block(PM, y) == [Image(PM, y)];
    assert RunPath(mc, s0, lst, [i]) == Exec(mc, s0, x);
    assert RunPath(mc, s0, lst, [i, j]) == Exec(mc, Exec(mc, s0, x), y);
    OneLine(mc, s0, Image(PM, x));
    var s1 := Exec(mc, s0, Image(PM, x));
    OneLine(mc, s1, Image(PM, y));
    assert RunBlocks(mc, s0, lst, [i]) == s1;
    assert RunBlocks(mc, s0, lst, [i, j]) == Exec(mc, s1, Image(PM, y));
    var t, t' := RunPath(mc, s0, lst, [i, j]), RunBlocks(mc, s0, lst, [i, j]);
    assert t.env(x) == 0;
    assert t'.env(Image(PM, x)) == 1;
  }

  /** Values survive on every machine exactly when dropping the gates merges no two lines other than stores. */
  lemma MirroredIff(lst: seq<UOp>)
    requires DefBeforeUse(lst) && NoIf(lst)
    ensures AlwaysMirrored(lst) <==> StaysApart(lst)
  {
    if StaysApart(lst) {
      forall mc: Machine<int, int>, mem: int, path: seq<nat> | IsPath(lst, path)
        ensures MirroredAlong(mc, mem, lst, path)
      {
        CleanupPreservesRuns(mc, mem, lst, path);
      }
    } else {
      var x, y :| x in lst && y in lst && Image(PM, x) == Image(PM, y) && !x.op.Store? && x != y;
      var i :| 0 <= i < |lst| && lst[i] == x;
      var j :| 0 <= j < |lst| && lst[j] == y;
      CollidingLines(lst, i, j);
    }
  }

  /**
    Such lists exist: two stores of one value to one place under different gates lose the difference, and with
    them the two lines that only differ in which store they come after.
   */
  lemma TwinStoresCollide(index: UOp, value: UOp, g1: UOp, g2: UOp)
    requires index.op.Index? && index.src == [] && value.op.Plain? && value.src == []
    requires g1.op.Plain? && g1.isBool && g1.src == [] && g2.op.Plain? && g2.isBool && g2.src == [] && g1 != g2
    ensures
      var after1 := UOp(Plain(0), [UOp(Store, [index, value, g1], 0, false)], 0, false);
      var after2 := UOp(Plain(0), [UOp(Store, [index, value, g2], 0, false)], 0, false);
      after1 != after2 && Image(PM, after1) == Image(PM, after2)
  {
    var s1, s2 := UOp(Store, [index, value, g1], 0, false), UOp(Store, [index, value, g2], 0, false);
    StoreImage(index, value, g1);
    StoreImage(index, value, g2);
    assert [s1][0] != [s2][0];
    var a1, a2 := UOp(Plain(0), [s1], 0, false), UOp(Plain(0), [s2], 0, false);
    ImageKeepsKind(a1);
    ImageKeepsKind(a2);
    assert Prepared(PM, a1).src == Prepared(PM, a2).src;
    assert Prepared(PM, a1) == Prepared(PM, a2);
  }

  lemma StoreImage(index: UOp, value: UOp, gate: UOp)
    requires index.op.Index? && index.src == [] && value.op.Plain? && value.src == []
    requires gate.op.Plain? && gate.isBool && gate.src == []
    ensures Image(PM, UOp(Store, [index, value, gate], 0, false)) == UOp(Store, [index, value], 0, false)
  {
    var u := UOp(Store, [index, value, gate], 0, false);
    LeafImage(index);
    LeafImage(value);
    LeafImage(gate);
    assert Prepared(PM, u).src == [index, value, gate];
    assert [index, value, gate][..2] == [index, value];
  }

  lemma LeafImage(u: UOp)
    requires u.src == [] && !u.op.If? && !u.op.Endif?
    ensures Image(PM, u) == u
  {
    assert Prepared(PM, u).src == [];
    assert Prepared(PM, u) == u;
  }

  // ---------------------------------------------------------------- when memory is kept

  /** Line k reads what line i computed, but line j, another one with the same image, has come in between. */
  ghost predicate StaleRead(lst: seq<UOp>, i: nat, j: nat, k: nat) {
    && i < j < k < |lst| && lst[i] in lst[k].src && !lst[i].op.Store?
    && lst[j] != lst[i] && Image(PM, lst[j]) == Image(PM, lst[i])
    && forall l :: i < l < k ==> lst[l] != lst[i]
  }

  ghost predicate FreshReads(lst: seq<UOp>, n: nat) {
    forall i: nat, j: nat, k: nat | k < n :: !StaleRead(lst, i, j, k)
  }

  function Gated<V, M>(mc: Machine<V, M>, mem: M, lst: seq<UOp>, n: nat): State<V, M>
    requires n <= |lst|
  {
    ExecAll(mc, Start(mc, mem), lst[..n])
  }

  function Cleaned<V, M>(mc: Machine<V, M>, mem: M, lst: seq<UOp>, n: nat): State<V, M>
    requires n <= |lst|
  {
    ExecAll(mc, Start(mc, mem), Blocks(PM, lst[..n]))
  }

  /** The next line, in both programs. */
  lemma NextLine<V, M>(mc: Machine<V, M>, mem: M, lst: seq<UOp>, n: nat)
    requires n < |lst| && NoIf(lst) && DefBeforeUse(lst)
    requires !Gated(mc, mem, lst, n).skip && !Cleaned(mc, mem, lst, n).skip
    ensures
      var s, u := Gated(mc, mem, lst, n), lst[n];
      Executes(mc, s, Gated(mc, mem, lst, n + 1), u, u, Values(s.env, u.src))
    ensures
      var s, u := Cleaned(mc, mem, lst, n), lst[n];
      Executes(mc, s, Cleaned(mc, mem, lst, n + 1), u, Image(PM, u), Values(s.env, Prepared(PM, u).src))
  {
    var u := lst[n];
    assert lst[..n + 1][..n] == lst[..n];
    assert AllDefined(u, lst[..n]);
    ExecAllConcat(mc, Start(mc, mem), Blocks(PM, lst[..n]), Block(PM, u));
    LineExecutes(mc, Gated(mc, mem, lst, n), u);
    BlockExecutes(mc, Cleaned(mc, mem, lst, n), u);
  }

  /** Line i is the last of the first n with its image. */
  ghost predicate Newest(lst: seq<UOp>, n: nat, i: nat) {
    i < n <= |lst| && forall l :: i < l < n ==> Image(PM, lst[l]) != Image(PM, lst[i])
  }

  ghost predicate InStep<V, M>(mc: Machine<V, M>, lst: seq<UOp>, n: nat, s: State<V, M>, s': State<V, M>)
    requires n <= |lst|
  {
    && s.mem == s'.mem && !s.skip && !s'.skip
    && (forall i: nat :: Newest(lst, n, i) ==> s'.env(Image(PM, lst[i])) == s.env(lst[i]))
    && (forall i :: 0 <= i < n && lst[i].op.Store? ==>
          s.env(lst[i]) == mc.nothing && s'.env(Image(PM, lst[i])) == mc.nothing)
  }

  lemma {:induction false} LastBefore(lst: seq<UOp>, n: nat, x: UOp) returns (i: nat)
    requires n <= |lst| && x in lst[..n]
    ensures i < n && lst[i] == x && forall l :: i < l < n ==> lst[l] != x
  {
    if lst[n - 1] == x {
      i := n - 1;
    } else {
      assert lst[..n] == lst[..n - 1] + [lst[n - 1]];
      i := LastBefore(lst, n - 1, x);
    }
  }

  lemma FreshSources<V, M>(mc: Machine<V, M>, lst: seq<UOp>, n: nat, s: State<V, M>, s': State<V, M>, x: UOp)
    requires n < |lst| && InStep(mc, lst, n, s, s') && x in lst[n].src && x in lst[..n] && FreshReads(lst, n + 1)
    ensures s'.env(Image(PM, x)) == s.env(x)
  {
    var i := LastBefore(lst, n, x);
    if !x.op.Store? {
      forall l | i < l < n ensures Image(PM, lst[l]) != Image(PM, lst[i]) {
        assert !StaleRead(lst, i, l, n);
      }
      assert Newest(lst, n, i);
    }
  }

  lemma StepInStep<V, M>(mc: Machine<V, M>, lst: seq<UOp>, n: nat, s: State<V, M>, s': State<V, M>,
                         t: State<V, M>, t': State<V, M>)
    requires n < |lst| && NoIf(lst) && InStep(mc, lst, n, s, s')
    requires
      var u := lst[n];
      var vals := Values(s.env, u.src);
      Executes(mc, s, t, u, u, vals) && Executes(mc, s', t', u, Image(PM, u), vals)
    ensures InStep(mc, lst, n + 1, t, t')
  {
    hide Image, Effect, Values, Outcome, Exec, ExecAll;
    var u := lst[n];
    assert u in lst;
    StoreOutcome(mc, u, s);
    forall i: nat | i < n + 1
      ensures Newest(lst, n + 1, i) ==> t'.env(Image(PM, lst[i])) == t.env(lst[i])
      ensures lst[i].op.Store? ==> t.env(lst[i]) == mc.nothing && t'.env(Image(PM, lst[i])) == mc.nothing
    {
      ImageKeepsKind(lst[i]);
      ImageKeepsKind(u);
      assert lst[i] in lst;
      if i < n {
        assert Newest(lst, n + 1, i) ==> Newest(lst, n, i) && Image(PM, u) != Image(PM, lst[i]);
      }
    }
  }

  lemma StoreOutcome<V, M>(mc: Machine<V, M>, u: UOp, s: State<V, M>)
    ensures u.op.Store? ==> Outcome(mc, u, Values(s.env, u.src), s.mem) == mc.nothing
  {
  }

  /** As long as no read is stale both programs have the same memory. */
  lemma {:induction false} FreshReadsStayInStep<V, M>(mc: Machine<V, M>, mem: M, lst: seq<UOp>, n: nat)
    requires DefBeforeUse(lst) && NoIf(lst) && n <= |lst| && FreshReads(lst, n)
    ensures InStep(mc, lst, n, Gated(mc, mem, lst, n), Cleaned(mc, mem, lst, n))
  {
    if n > 0 {
      FreshReadsStayInStep(mc, mem, lst, n - 1);
      NextLine(mc, mem, lst, n - 1);
      var s, s', u := Gated(mc, mem, lst, n - 1), Cleaned(mc, mem, lst, n - 1), lst[n - 1];
      forall x | x in u.src ensures s'.env(Image(PM, x)) == s.env(x) {
        assert AllDefined(u, lst[..n - 1]);
        FreshSources(mc, lst, n - 1, s, s', x);
      }
      ValuesAgree(s.env, s'.env, u);
      StepInStep(mc, lst, n - 1, s, s', Gated(mc, mem, lst, n), Cleaned(mc, mem, lst, n));
    }
  }

  /** Running the cleaned-up list from top to bottom has the effect of the gated stores, on every machine. */
  lemma CleanupPreservesMemory<V, M>(mc: Machine<V, M>, mem: M, lst: seq<UOp>)
    requires DefBeforeUse(lst) && Rewritten(PM, lst).Some? && FreshReads(lst, |lst|)
    ensures
      var lines := Rewritten(PM, lst).value.lines;
      ExecAll(mc, Start(mc, mem), lines).mem == ExecAll(mc, Start(mc, mem), lst).mem
  {
    RewrittenIsBlocks(PM, lst);
    CleanupFailsIff(lst);
    assert lst[..|lst|] == lst;
    FreshReadsStayInStep(mc, mem, lst, |lst|);
  }

  /** If dropping the gates makes no two lines equal then no read is stale. */
  lemma ApartReadsFresh(lst: seq<UOp>)
    requires StaysApart(lst)
    ensures FreshReads(lst, |lst|)
  {
    forall i: nat, j: nat, k: nat | k < |lst| ensures !StaleRead(lst, i, j, k) {
      if i < j < k {
        assert lst[i] in lst && lst[j] in lst;
      }
    }
  }

  /** A machine that counts the instructions that have not seen the value computed by line i. */
  function Observer(i: nat): Machine<int, int> {
    Machine(-1, (v: int) => v != i, (op: Op, arg: nat, vals: seq<int>, m: int) => m,
            (op: Op, arg: nat, vals: seq<int>, m: int) => if i in vals then m else m + 1)
  }

  lemma ObserverEffect(i: nat, u: UOp, vals: seq<int>, mem: int)
    requires |vals| == |u.src|
    ensures Effect(Observer(i), u, vals, mem) == if i in vals then mem else mem + 1
    ensures Outcome(Observer(i), u, vals, mem) == if u.op.Store? then -1 else mem
  {
    if HasGate(u) {
      assert vals == vals[..2] + [vals[2]];
    }
  }

  ghost predicate Below(env: UOp -> int, src: seq<UOp>, n: int) { forall x :: x in src ==> env(x) < n }

  ghost predicate Counted(s: State<int, int>, n: int) {
    s.mem == n && !s.skip && forall x | Ordinary(x) :: s.env(x) < n
  }

  lemma ValueOf(env: UOp -> int, src: seq<UOp>, x: UOp)
    requires x in src
    ensures env(x) in Values(env, src)
  {
    var k: nat :| k < |src| && src[k] == x;
    assert Values(env, src)[k] == env(x);
  }

  lemma NoValue(env: UOp -> int, src: seq<UOp>, i: int)
    requires forall x :: x in src ==> env(x) != i
    ensures i !in Values(env, src)
  {
    forall k | 0 <= k < |src| ensures Values(env, src)[k] != i {
      assert src[k] in src;
    }
  }

  lemma OrdinarySources(lst: seq<UOp>, n: nat)
    requires NoIf(lst) && DefBeforeUse(lst) && n < |lst|
    ensures Ordinary(lst[n]) && Ordinary(Image(PM, lst[n]))
    ensures forall x :: x in lst[n].src ==> Ordinary(x)
    ensures forall x :: x in Prepared(PM, lst[n]).src ==> Ordinary(x)
  {
    var u := lst[n];
    assert u in lst;
    ImageKeepsKind(u);
    assert AllDefined(u, lst[..n]);
    forall x | x in u.src ensures Ordinary(x) {
      assert x in lst[..n];
    }
    forall x | x in Prepared(PM, u).src ensures Ordinary(x) {
      var p: nat :| p < |u.src| && Prepared(PM, u).src[p] == x;
      ImageKeepsKind(u.src[p]);
      assert u.src[p] in u.src;
    }
  }

  lemma CountsOn(s: State<int, int>, t: State<int, int>, u: UOp, z: UOp, vals: seq<int>, i: nat, n: nat)
    requires Counted(s, n) && Executes(Observer(i), s, t, u, z, vals) && i !in vals && |vals| == |u.src|
    ensures Counted(t, n + 1)
  {
    ObserverEffect(i, u, vals, s.mem);
    hide Effect, Outcome;
  }

  lemma NothingCounted(i: nat, lst: seq<UOp>)
    ensures Counted(Gated(Observer(i), 0, lst, 0), 0) && Counted(Cleaned(Observer(i), 0, lst, 0), 0)
  {
  }

  /** Up to line i every line counts. */
  lemma {:induction false} CountsBefore(lst: seq<UOp>, i: nat, n: nat)
    requires NoIf(lst) && DefBeforeUse(lst) && n <= i && n <= |lst|
    ensures Counted(Gated(Observer(i), 0, lst, n), n) && Counted(Cleaned(Observer(i), 0, lst, n), n)
  {
    hide Image, Effect, Outcome, Gated, Cleaned, NoIf, DefBeforeUse, Executes, Observer;
    if n == 0 {
      NothingCounted(i, lst);
    } else {
      CountsBefore(lst, i, n - 1);
      NextLine(Observer(i), 0, lst, n - 1);
      OrdinarySources(lst, n - 1);
      var u, s, s' := lst[n - 1], Gated(Observer(i), 0, lst, n - 1), Cleaned(Observer(i), 0, lst, n - 1);
      NoValue(s.env, u.src, i);
      NoValue(s'.env, Prepared(PM, u).src, i);
      CountsOn(s, Gated(Observer(i), 0, lst, n), u, u, Values(s.env, u.src), i, n - 1);
      CountsOn(s', Cleaned(Observer(i), 0, lst, n), u, Image(PM, u), Values(s'.env, Prepared(PM, u).src), i, n - 1);
    }
  }

  /** Line i itself: from here on only it holds the value i. */
  lemma LineIsMarked(lst: seq<UOp>, i: nat)
    requires NoIf(lst) && DefBeforeUse(lst) && i < |lst| && !lst[i].op.Store?
    ensures
      var s, s' := Gated(Observer(i), 0, lst, i + 1), Cleaned(Observer(i), 0, lst, i + 1);
      && s.env(lst[i]) == i && !s.skip && s.mem == i + 1 && s'.mem == i + 1 && !s'.skip
      && forall x | Ordinary(x) && x != Image(PM, lst[i]) :: s'.env(x) != i
  {
    CountsBefore(lst, i, i);
    NextLine(Observer(i), 0, lst, i);
    OrdinarySources(lst, i);
    var u, s, s' := lst[i], Gated(Observer(i), 0, lst, i), Cleaned(Observer(i), 0, lst, i);
    NoValue(s.env, u.src, i);
    NoValue(s'.env, Prepared(PM, u).src, i);
    ObserverEffect(i, u, Values(s.env, u.src), s.mem);
    ObserverEffect(i, u, Values(s'.env, Prepared(PM, u).src), s'.mem);
  }

  /** The gated program still holds it at line k, if line i has not been executed again. */
  lemma {:induction false} StillMarked(lst: seq<UOp>, i: nat, n: nat)
    requires NoIf(lst) && DefBeforeUse(lst) && i < n <= |lst| && !lst[i].op.Store?
    requires forall l :: i < l < n ==> lst[l] != lst[i]
    ensures
      var s := Gated(Observer(i), 0, lst, n);
      s.env(lst[i]) == i && !s.skip
    ensures !Cleaned(Observer(i), 0, lst, n).skip
  {
    hide Image, Prepared, Effect, Values, Outcome, Gated, Cleaned, NoIf, DefBeforeUse;
    if n == i + 1 {
      LineIsMarked(lst, i);
    } else {
      StillMarked(lst, i, n - 1);
      NextLine(Observer(i), 0, lst, n - 1);
      OrdinarySources(lst, i);
    }
  }

  /** No line but those with image z holds the value i, and z does not either if `gone`. */
  ghost predicate Unmarked(s: State<int, int>, i: nat, z: UOp, gone: bool) {
    s.mem > i && !s.skip && forall x | Ordinary(x) && (gone || x != z) :: s.env(x) != i
  }

  lemma StaysUnmarked(
    s: State<int, int>, t: State<int, int>, u: UOp, z': UOp, vals: seq<int>, i: nat, z: UOp, gone: bool)
    requires Unmarked(s, i, z, gone) && Executes(Observer(i), s, t, u, z', vals)
    ensures Unmarked(t, i, z, gone || z' == z)
  {
    ObserverEffect(i, u, vals, s.mem);
    hide Effect, Outcome;
  }

  /** In the cleaned-up program the value is gone once line j has been executed. */
  lemma {:induction false} MarkIsGone(lst: seq<UOp>, i: nat, j: nat, n: nat)
    requires NoIf(lst) && DefBeforeUse(lst) && i < j < |lst| && i < n <= |lst| && !lst[i].op.Store?
    requires Image(PM, lst[j]) == Image(PM, lst[i])
    ensures Unmarked(Cleaned(Observer(i), 0, lst, n), i, Image(PM, lst[i]), j < n)
    ensures !Gated(Observer(i), 0, lst, n).skip
  {
    hide Image, Prepared, Effect, Values, Outcome, Gated, Cleaned, NoIf, DefBeforeUse;
    if n == i + 1 {
      LineIsMarked(lst, i);
    } else {
      MarkIsGone(lst, i, j, n - 1);
      NextLine(Observer(i), 0, lst, n - 1);
      var u, s, t := lst[n - 1], Cleaned(Observer(i), 0, lst, n - 1), Cleaned(Observer(i), 0, lst, n);
      StaysUnmarked(
        s, t, u, Image(PM, u), Values(s.env, Prepared(PM, u).src), i, Image(PM, lst[i]), j < n - 1);
    }
  }

  /** Once the value is gone the cleaned-up program counts every line, and the gated one those that do not see it. */
  lemma CountsAfter(lst: seq<UOp>, i: nat, j: nat, k: nat, n: nat)
    requires NoIf(lst) && DefBeforeUse(lst) && StaleRead(lst, i, j, k) && k <= n < |lst|
    ensures Cleaned(Observer(i), 0, lst, n + 1).mem == Cleaned(Observer(i), 0, lst, n).mem + 1
    ensures Gated(Observer(i), 0, lst, n + 1).mem <= Gated(Observer(i), 0, lst, n).mem + 1
    ensures
      (exists x :: x in lst[n].src && Gated(Observer(i), 0, lst, n).env(x) == i) ==>
        Gated(Observer(i), 0, lst, n + 1).mem == Gated(Observer(i), 0, lst, n).mem
  {
    hide Image, Prepared, Effect, Values, Outcome, Gated, Cleaned, NoIf, DefBeforeUse;
    var u, s, s' := lst[n], Gated(Observer(i), 0, lst, n), Cleaned(Observer(i), 0, lst, n);
    MarkIsGone(lst, i, j, n);
    NextLine(Observer(i), 0, lst, n);
    OrdinarySources(lst, n);
    NoValue(s'.env, Prepared(PM, u).src, i);
    ObserverEffect(i, u, Values(s.env, u.src), s.mem);
    ObserverEffect(i, u, Values(s'.env, Prepared(PM, u).src), s'.mem);
    if x :| x in u.src && s.env(x) == i {
      ValueOf(s.env, u.src, x);
    }
  }

  lemma AheadAtRead(lst: seq<UOp>, i: nat, j: nat, k: nat)
    requires NoIf(lst) && DefBeforeUse(lst) && StaleRead(lst, i, j, k) && FreshReads(lst, k)
    ensures Gated(Observer(i), 0, lst, k + 1).mem < Cleaned(Observer(i), 0, lst, k + 1).mem
  {
    hide Image, Gated, Cleaned, NoIf, DefBeforeUse, FreshReads;
    FreshReadsStayInStep(Observer(i), 0, lst, k);
    assert Gated(Observer(i), 0, lst, k).mem == Cleaned(Observer(i), 0, lst, k).mem;
    hide InStep;
    CountsAfter(lst, i, j, k, k);
    StillMarked(lst, i, k);
    assert lst[i] in lst[k].src && Gated(Observer(i), 0, lst, k).env(lst[i]) == i;
  }

  /** After line k the cleaned-up program counts every line, and so stays ahead. */
  lemma {:induction false} CleanedStaysAhead(lst: seq<UOp>, i: nat, j: nat, k: nat, n: nat)
    requires NoIf(lst) && DefBeforeUse(lst) && StaleRead(lst, i, j, k) && FreshReads(lst, k) && k < n <= |lst|
    ensures Gated(Observer(i), 0, lst, n).mem < Cleaned(Observer(i), 0, lst, n).mem
  {
    hide Gated, Cleaned, NoIf, DefBeforeUse, FreshReads, StaleRead;
    if n == k + 1 {
      AheadAtRead(lst, i, j, k);
    } else {
      CleanedStaysAhead(lst, i, j, k, n - 1);
      CountsAfter(lst, i, j, k, n - 1);
    }
  }

  lemma {:induction false} FirstStaleRead(lst: seq<UOp>, n: nat) returns (i: nat, j: nat, k: nat)
    requires n <= |lst| && !FreshReads(lst, n)
    ensures StaleRead(lst, i, j, k) && FreshReads(lst, k) && k < n
  {
    if FreshReads(lst, n - 1) {
      i, j, k :| k < n && StaleRead(lst, i, j, k);
    } else {
      i, j, k := FirstStaleRead(lst, n - 1);
    }
  }

  ghost predicate MemoryKept(mc: Machine<int, int>, mem: int, lst: seq<UOp>) {
    var lines := Rewritten(PM, lst);
    lines.Some? &&
    ExecAll(mc, Start(mc, mem), lines.value.lines).mem == ExecAll(mc, Start(mc, mem), lst).mem
  }

  /** The cleanup keeps the effect on memory on every machine exactly when no read is stale. */
  lemma MemoryKeptIff(lst: seq<UOp>)
    requires DefBeforeUse(lst)
    ensures (forall mc, mem :: MemoryKept(mc, mem, lst)) <==> NoIf(lst) && FreshReads(lst, |lst|)
  {
    CleanupFailsIff(lst);
    assert lst[..|lst|] == lst;
    if !NoIf(lst) {
      assert !MemoryKept(Observer(0), 0, lst);
    } else {
      RewrittenIsBlocks(PM, lst);
      if FreshReads(lst, |lst|) {
        forall mc, mem ensures MemoryKept(mc, mem, lst) {
          CleanupPreservesMemory(mc, mem, lst);
        }
      } else {
        var i, j, k := FirstStaleRead(lst, |lst|);
        CleanedStaysAhead(lst, i, j, k, |lst|);
        assert !MemoryKept(Observer(i), 0, lst);
      }
    }
  }

  /** Two stores of one value to one place under different gates, each followed by a line; the first is used. */
  function TwinStores(index: UOp, value: UOp, g1: UOp, g2: UOp): seq<UOp> {
    var s1, s2 := UOp(Store, [index, value, g1], 0, false), UOp(Store, [index, value, g2], 0, false);
    var a1, a2 := UOp(Plain(0), [s1], 0, false), UOp(Plain(0), [s2], 0, false);
    [index, value, g1, g2, s1, a1, s2, a2, UOp(Store, [index, a1], 0, false)]
  }

  ghost predicate TwinOperands(index: UOp, value: UOp, g1: UOp, g2: UOp) {
    && index.op.Index? && index.src == [] && value.op.Plain? && value.src == []
    && g1.op.Plain? && g1.isBool && g1.src == [] && g2.op.Plain? && g2.isBool && g2.src == [] && g1 != g2
  }

  /** A program in order whose effect on memory the cleanup changes: the use reads the line after the other store. */
  lemma TwinStoresLoseMemory(index: UOp, value: UOp, g1: UOp, g2: UOp)
    requires TwinOperands(index, value, g1, g2)
    ensures
      var lst := TwinStores(index, value, g1, g2);
      && DefBeforeUse(lst) && NoIf(lst) && StaleRead(lst, 5, 7, 8) && Rewritten(PM, lst).Some?
      && var lines := Rewritten(PM, lst).value.lines;
         ExecAll(Observer(5), Start(Observer(5), 0), lst).mem < ExecAll(Observer(5), Start(Observer(5), 0), lines).mem
  {
    var lst := TwinStores(index, value, g1, g2);
    TwinsInOrder(index, value, g1, g2);
    TwinStoresCollide(index, value, g1, g2);
    TwinsFresh(index, value, g1, g2);
    hide Image, TwinOperands;
    assert lst[5] in lst[8].src;
    assert StaleRead(lst, 5, 7, 8);
    hide TwinStores, StaleRead, DefBeforeUse, FreshReads;
    CleanupFailsIff(lst);
    RewrittenIsBlocks(PM, lst);
    CleanedStaysAhead(lst, 5, 7, 8, |lst|);
    assert lst[..|lst|] == lst;
  }

  lemma TwinLines(index: UOp, value: UOp, g1: UOp, g2: UOp)
    requires TwinOperands(index, value, g1, g2)
    ensures
      var lst := TwinStores(index, value, g1, g2);
      && |lst| == 9 && (forall i :: 0 <= i < 4 ==> lst[i].src == [])
      && lst[4].src == [lst[0], lst[1], lst[2]] && lst[5].src == [lst[4]]
      && lst[6].src == [lst[0], lst[1], lst[3]] && lst[7].src == [lst[6]] && lst[8].src == [lst[0], lst[5]]
      && NoIf(lst)
  {
  }

  lemma TwinsInOrder(index: UOp, value: UOp, g1: UOp, g2: UOp)
    requires TwinOperands(index, value, g1, g2)
    ensures DefBeforeUse(TwinStores(index, value, g1, g2)) && NoIf(TwinStores(index, value, g1, g2))
  {
    hide DefBeforeUse, AllDefined, TwinStores;
    var lst := TwinStores(index, value, g1, g2);
    TwinLines(index, value, g1, g2);
    LeavesInOrder(lst[..4]);
    AppendNext(lst, 4, [0, 1, 2]);
    AppendNext(lst, 5, [4]);
    AppendNext(lst, 6, [0, 1, 3]);
    AppendNext(lst, 7, [6]);
    AppendNext(lst, 8, [0, 5]);
    assert lst[..9] == lst;
  }

  lemma AppendNext(lst: seq<UOp>, n: nat, at: seq<nat>)
    requires n < |lst| && DefBeforeUse(lst[..n]) && |at| == |lst[n].src|
    requires forall p :: 0 <= p < |at| ==> at[p] < n && lst[n].src[p] == lst[at[p]]
    ensures DefBeforeUse(lst[..n + 1])
  {
    hide DefBeforeUse;
    forall x | x in lst[n].src ensures x in lst[..n] {
      var p: nat :| p < |lst[n].src| && lst[n].src[p] == x;
      assert lst[..n][at[p]] == x;
    }
    AppendOne(lst[..n], lst[n]);
    assert lst[..n] + [lst[n]] == lst[..n + 1];
  }

  lemma LeavesInOrder(leaves: seq<UOp>)
    requires forall x :: x in leaves ==> x.src == []
    ensures DefBeforeUse(leaves)
  {
  }

  /** No other line before the use has the image of an operand. */
  lemma TwinImages(index: UOp, value: UOp, g1: UOp, g2: UOp, i: nat, j: nat)
    requires TwinOperands(index, value, g1, g2) && i < 4 && j < 8
    ensures
      var lst := TwinStores(index, value, g1, g2);
      lst[j] != lst[i] ==> Image(PM, lst[j]) != Image(PM, lst[i])
  {
    var lst := TwinStores(index, value, g1, g2);
    LeafImage(lst[i]);
    if j < 4 {
      LeafImage(lst[j]);
    } else {
      ImageKeepsKind(lst[j]);
      assert |Prepared(PM, lst[j]).src| == |lst[j].src| >= 1;
    }
  }

  lemma TwinsFresh(index: UOp, value: UOp, g1: UOp, g2: UOp)
    requires TwinOperands(index, value, g1, g2)
    ensures FreshReads(TwinStores(index, value, g1, g2), 8)
  {
    hide Image;
    var lst := TwinStores(index, value, g1, g2);
    forall i: nat, j: nat, k: nat | k < 8 ensures !StaleRead(lst, i, j, k) {
      if i < 4 && j < 8 {
        TwinImages(index, value, g1, g2, i, j);
      }
    }
  }

  // ---------------------------------------------------------------- line_rewrite_wmma_ledger

  type Role = nat

  /** The tags of the input lines, and which instructions are matrix instructions. */
  datatype Tags = Tags(role: UOp -> Option<Role>, isMachine: UOp -> bool)

  datatype Site = Site(at: nat, role: Role)

  datatype Ledger = Ledger(done: Done, sites: seq<Site>)

  /** The positions of the matrix instructions among the given lines. */
  function MachineAt(isMachine: UOp -> bool, lines: seq<UOp>): (at: seq<nat>)
    ensures forall k :: 0 <= k < |at| ==> at[k] < |lines|
  {
    if lines == [] then []
    else
      var n := |lines| - 1;
      MachineAt(isMachine, lines[..n]) + if isMachine(lines[n]) then [n] else []
  }

  function Emitted(pm: Matcher, nu: UOp): seq<UOp> {
    match pm(nu)
    case Lines(_, lines) => lines
    case _ => [nu]
  }

  function LedgerStep(pm: Matcher, tags: Tags, l: Ledger, u: UOp): Option<Ledger> {
    match Step(pm, l.done, u)
    case None => None
    case Some(done) =>
      match tags.role(u)
      case None => Some(Ledger(done, l.sites))
      case Some(role) =>
        var at := MachineAt(tags.isMachine, Emitted(pm, Renamed(u, l.done.replaced)));
        if |at| != 1 then None else Some(Ledger(done, l.sites + [Site(|l.done.lines| + at[0], role)]))
  }

  /** None stands for a panic of the matcher or for the error that a role was lost. */
  function LedgerOf(pm: Matcher, tags: Tags, lst: seq<UOp>): Option<Ledger> {
    if lst == [] then Some(Ledger(Done([], map[]), []))
    else
      match LedgerOf(pm, tags, lst[..|lst| - 1])
      case None => None
      case Some(l) => LedgerStep(pm, tags, l, lst[|lst| - 1])
  }

  method RewriteWithLedger(pm: Matcher, tags: Tags, lst: seq<UOp>) returns (r: Option<(seq<UOp>, seq<Site>)>)
    ensures r.Some? <==> LedgerOf(pm, tags, lst).Some?
    ensures r.Some? ==> r.value == (LedgerOf(pm, tags, lst).value.done.lines, LedgerOf(pm, tags, lst).value.sites)
  {
    var newlst: seq<UOp>, replaced: map<UOp, UOp>, sites: seq<Site> := [], map[], [];
    for i := 0 to |lst|
      invariant LedgerOf(pm, tags, lst[..i]) == Some(Ledger(Done(newlst, replaced), sites))
    {
      var u := lst[i];
      assert lst[..i + 1][..i] == lst[..i];
      var nu := Renamed(u, replaced);
      if pm(nu).Panic? {
        LostIsFinal(pm, tags, lst, i + 1);
        return None;
      }
      var emitted := Emitted(pm, nu);
      if tags.role(u).Some? {
        var at := MachineAt(tags.isMachine, emitted);
        if |at| != 1 {
          LostIsFinal(pm, tags, lst, i + 1);
          return None;
        }
        sites := sites + [Site(|newlst| + at[0], tags.role(u).value)];
      }
      replaced := replaced[u := if pm(nu).Lines? then pm(nu).ret else nu];
      newlst := newlst + emitted;
    }
    assert lst[..|lst|] == lst;
    return Some((newlst, sites));
  }

  lemma {:induction false} LostIsFinal(pm: Matcher, tags: Tags, lst: seq<UOp>, i: nat)
    requires i <= |lst| && LedgerOf(pm, tags, lst[..i]).None?
    ensures LedgerOf(pm, tags, lst).None?
    decreases |lst| - i
  {
    if i == |lst| {
      assert lst[..i] == lst;
    } else {
      assert lst[..i + 1][..i] == lst[..i];
      LostIsFinal(pm, tags, lst, i + 1);
    }
  }

  /** The tags of the tagged lines, in order. */
  function RolesOf(tags: Tags, lst: seq<UOp>): seq<Role> {
    if lst == [] then [] else RolesOf(tags, lst[..|lst| - 1]) + RoleOf(tags, lst[|lst| - 1])
  }

  function RoleOf(tags: Tags, u: UOp): seq<Role> {
    match tags.role(u)
    case None => []
    case Some(role) => [role]
  }

  /** The ledger's own validation: positions strictly increase; here also inside the list and on matrix instructions. */
  ghost predicate ValidSites(tags: Tags, sites: seq<Site>, lines: seq<UOp>) {
    && (forall k :: 0 <= k < |sites| ==> sites[k].at < |lines| && tags.isMachine(lines[sites[k].at]))
    && (forall j, k :: 0 <= j < k < |sites| ==> sites[j].at < sites[k].at)
  }

  lemma {:induction false} MachineAtFacts(isMachine: UOp -> bool, lines: seq<UOp>)
    ensures forall i :: i in MachineAt(isMachine, lines) <==> 0 <= i < |lines| && isMachine(lines[i])
  {
    if lines != [] {
      var n := |lines| - 1;
      MachineAtFacts(isMachine, lines[..n]);
      assert forall i :: 0 <= i < n ==> lines[..n][i] == lines[i];
    }
  }

  /** Position a is the only matrix instruction of the lines. */
  ghost predicate OnlyMachine(isMachine: UOp -> bool, lines: seq<UOp>, a: nat) {
    a < |lines| && forall i :: 0 <= i < |lines| ==> (isMachine(lines[i]) <==> i == a)
  }

  /** One line: its lines are appended, and a tagged one adds the position of its only matrix instruction. */
  lemma LedgerStepFacts(pm: Matcher, tags: Tags, l: Ledger, u: UOp) returns (a: nat)
    requires LedgerStep(pm, tags, l, u).Some?
    ensures
      var next, emitted := LedgerStep(pm, tags, l, u).value, Emitted(pm, Renamed(u, l.done.replaced));
      && Step(pm, l.done, u) == Some(next.done) && next.done.lines == l.done.lines + emitted
      && match tags.role(u)
         case None => next.sites == l.sites
         case Some(role) =>
           OnlyMachine(tags.isMachine, emitted, a) && next.sites == l.sites + [Site(|l.done.lines| + a, role)]
  {
    a := 0;
    if tags.role(u).Some? {
      var emitted := Emitted(pm, Renamed(u, l.done.replaced));
      var at := MachineAt(tags.isMachine, emitted);
      MachineAtFacts(tags.isMachine, emitted);
      a := at[0];
      assert a in at;
      assert forall i :: i in at <==> i == a;
    }
  }

  lemma ValidSitesAppend(tags: Tags, sites: seq<Site>, lines: seq<UOp>, emitted: seq<UOp>)
    requires ValidSites(tags, sites, lines)
    ensures ValidSites(tags, sites, lines + emitted)
  {
    forall k | 0 <= k < |sites|
      ensures sites[k].at < |lines + emitted| && tags.isMachine((lines + emitted)[sites[k].at])
    {
      assert (lines + emitted)[sites[k].at] == lines[sites[k].at];
    }
  }

  lemma ValidSitesAdd(tags: Tags, sites: seq<Site>, lines: seq<UOp>, emitted: seq<UOp>, a: nat, role: Role)
    requires ValidSites(tags, sites, lines) && OnlyMachine(tags.isMachine, emitted, a)
    ensures ValidSites(tags, sites + [Site(|lines| + a, role)], lines + emitted)
  {
    ValidSitesAppend(tags, sites, lines, emitted);
    assert (lines + emitted)[|lines| + a] == emitted[a];
  }

  /** The ledger carries the tags of the tagged lines, in order. */
  ghost predicate Carries(sites: seq<Site>, roles: seq<Role>) {
    |sites| == |roles| && forall k :: 0 <= k < |sites| ==> sites[k].role == roles[k]
  }

  ghost predicate Faithful(tags: Tags, l: Ledger, roles: seq<Role>) {
    ValidSites(tags, l.sites, l.done.lines) && Carries(l.sites, roles)
  }

  lemma LedgerStepIsFaithful(pm: Matcher, tags: Tags, l: Ledger, u: UOp, roles: seq<Role>)
    requires Faithful(tags, l, roles) && LedgerStep(pm, tags, l, u).Some?
    ensures Faithful(tags, LedgerStep(pm, tags, l, u).value, roles + RoleOf(tags, u))
    ensures Step(pm, l.done, u) == Some(LedgerStep(pm, tags, l, u).value.done)
  {
    hide LedgerStep, Step, Emitted, ValidSites, OnlyMachine, Renamed;
    var a := LedgerStepFacts(pm, tags, l, u);
    var emitted := Emitted(pm, Renamed(u, l.done.replaced));
    match tags.role(u)
    case None => ValidSitesAppend(tags, l.sites, l.done.lines, emitted);
    case Some(role) => ValidSitesAdd(tags, l.sites, l.done.lines, emitted, a, role);
  }

  /**
    Every tagged line gets exactly one position, in order and with its tag, so that the validation always passes.
   */
  lemma {:induction false} LedgerIsFaithful(pm: Matcher, tags: Tags, lst: seq<UOp>)
    requires LedgerOf(pm, tags, lst).Some?
    ensures
      var l := LedgerOf(pm, tags, lst).value;
      && ValidSites(tags, l.sites, l.done.lines) && Carries(l.sites, RolesOf(tags, lst))
      && Rewritten(pm, lst) == Some(l.done)
  {
    hide LedgerStep, Step, ValidSites, Carries;
    if lst == [] {
      NothingIsFaithful(tags);
    } else {
      var n := |lst| - 1;
      LedgerIsFaithful(pm, tags, lst[..n]);
      LedgerStepIsFaithful(pm, tags, LedgerOf(pm, tags, lst[..n]).value, lst[n], RolesOf(tags, lst[..n]));
    }
  }

  lemma NothingIsFaithful(tags: Tags)
    ensures ValidSites(tags, [], []) && Carries([], [])
  {
  }

  /** The position of a tagged line is that of the only matrix instruction among the lines emitted for it. */
  lemma SiteInItsBlock(pm: Matcher, tags: Tags, lst: seq<UOp>)
    requires lst != [] && LedgerOf(pm, tags, lst).Some? && tags.role(lst[|lst| - 1]).Some?
    ensures LedgerOf(pm, tags, lst[..|lst| - 1]).Some?
    ensures
      var l, before := LedgerOf(pm, tags, lst).value, LedgerOf(pm, tags, lst[..|lst| - 1]).value;
      var first := |before.done.lines|;
      && l.sites != [] && before.done.lines <= l.done.lines && l.sites[|l.sites| - 1].at >= first
      && OnlyMachine(tags.isMachine, l.done.lines[first..], l.sites[|l.sites| - 1].at - first)
  {
    hide LedgerStep, Step, OnlyMachine, Emitted, Renamed, MachineAt;
    var before := LastLedgerStep(pm, tags, lst);
    var u := lst[|lst| - 1];
    var a := LedgerStepFacts(pm, tags, before, u);
    var emitted := Emitted(pm, Renamed(u, before.done.replaced));
    assert (before.done.lines + emitted)[|before.done.lines|..] == emitted;
  }

  lemma LastLedgerStep(pm: Matcher, tags: Tags, lst: seq<UOp>) returns (before: Ledger)
    requires lst != [] && LedgerOf(pm, tags, lst).Some?
    ensures LedgerOf(pm, tags, lst[..|lst| - 1]) == Some(before)
    ensures LedgerStep(pm, tags, before, lst[|lst| - 1]) == LedgerOf(pm, tags, lst)
  {
    hide LedgerStep;
    before := LedgerOf(pm, tags, lst[..|lst| - 1]).value;
  }
}
