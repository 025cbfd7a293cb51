/**
  Fitting a logical launch grid onto the limited grid of the hardware (`tinygrad/codegen/gpudims.py`, with
  get_contraction from `tinygrad/helpers.py`).

  Dimensions are first merged with their neighbours; if that fails they are split by small divisors. Either
  way the kernel recomputes its logical indices from the hardware ones. `LaunchIsBijective` says that this
  recomputation visits every logical index exactly once, and says exactly when it does not.
 */
module GroupedDims {
  import opened IndexMath
  import opened MixedRadix
  import opened Wrappers

  // ---------------------------------------------------------------- merging

  predicate Fits(dims: seq<nat>, maxs: seq<nat>) {
    forall i :: 0 <= i < |dims| && i < |maxs| ==> dims[i] <= maxs[i]
  }

  predicate CanMerge(dims: seq<nat>, maxs: seq<nat>, i: nat) {
    i < |maxs| && i + 1 < |dims| && dims[i] * dims[i + 1] <= maxs[i]
  }

  /** The first position from i on where two neighbours may be merged. */
  function FirstMerge(dims: seq<nat>, maxs: seq<nat>, i: nat): Option<nat>
    decreases |maxs| - i
  {
    if i >= |maxs| then None else if CanMerge(dims, maxs, i) then Some(i) else FirstMerge(dims, maxs, i + 1)
  }

  lemma FirstMergeFound(dims: seq<nat>, maxs: seq<nat>, i: nat)
    ensures FirstMerge(dims, maxs, i).Some? ==> CanMerge(dims, maxs, FirstMerge(dims, maxs, i).value)
    decreases |maxs| - i
  {
  }

  function Merge(dims: seq<nat>, i: nat): seq<nat>
    requires i + 1 < |dims|
  {
    dims[..i] + [dims[i] * dims[i + 1]] + dims[i + 2..]
  }

  function GroupDimsOf(dims: seq<nat>, maxs: seq<nat>): Option<seq<nat>>
    decreases |dims|
  {
    if |dims| <= |maxs| && Fits(dims, maxs) then Some(dims)
    else
      match FirstMerge(dims, maxs, 0)
      case None => None
      case Some(i) => FirstMergeFound(dims, maxs, 0); GroupDimsOf(Merge(dims, i), maxs)
  }

  method GroupDims(dims0: seq<nat>, maxs: seq<nat>) returns (r: Option<seq<nat>>)
    ensures r == GroupDimsOf(dims0, maxs)
  {
    var dims := dims0;
    while |dims| > |maxs| || !Fits(dims, maxs)
      invariant GroupDimsOf(dims, maxs) == GroupDimsOf(dims0, maxs)
      decreases |dims|
    {
      var i := 0;
      while i < |maxs| && !CanMerge(dims, maxs, i)
        invariant i <= |maxs| && FirstMerge(dims, maxs, i) == FirstMerge(dims, maxs, 0)
      {
        i := i + 1;
      }
      if i == |maxs| {
        return None;
      }
      dims := Merge(dims, i);
    }
    return Some(dims);
  }

  // ---------------------------------------------------------------- splitting

  /** The smallest divisor d >= from with d <= ceil(sqrt(v)), or 1. */
  function DivisorFrom(v: nat, from: nat): (d: nat)
    requires from >= 2
    ensures d >= 1
    decreases v - from
  {
    if (from - 1) * (from - 1) < v then
      if v % from == 0 then from
      else
        MulMono(from - 1, 1, from - 1);
        DivisorFrom(v, from + 1)
    else 1
  }

  predicate Divides(e: nat, v: nat) { e > 0 && v % e == 0 }

  /** A divisor below its number has a partner, and the smaller of the two is in reach of the search. */
  lemma SmallDivisor(v: nat, e: nat) returns (d: nat)
    requires 2 <= e < v && Divides(e, v)
    ensures 2 <= d <= e && Divides(d, v) && (d - 1) * (d - 1) < v
  {
    var q := v / e;
    ProperQuotient(v, e);
    if e <= q {
      d := e;
      SquareBelow(e, q);
    } else {
      d := q;
      MulMono(e, q, 1);
      SquareBelow(q, e);
      DivModUnique(v, q, e, 0);
    }
  }

  lemma SquareBelow(a: nat, b: nat)
    requires 2 <= a <= b
    ensures (a - 1) * (a - 1) < a * b == b * a
  {
    MulMono(a, a, b);
    assert (a - 1) * (a - 1) == a * a - 2 * a + 1;
  }

  lemma SquareMono(a: nat, b: nat)
    requires a <= b
    ensures a * a <= b * b
  {
    MulMono(a, a, b);
    MulMono(b, a, b);
  }

  /** The search misses no divisor from its starting point on that is in reach. */
  lemma {:induction false} SearchFinds(v: nat, from: nat, d: nat)
    requires 2 <= from <= d && Divides(d, v) && (d - 1) * (d - 1) < v
    ensures DivisorFrom(v, from) != 1
    decreases d - from
  {
    SquareMono(from - 1, d - 1);
    if from < d && v % from != 0 {
      SearchFinds(v, from + 1, d);
    }
  }

  lemma FoundIsProper(v: nat)
    requires v > 2 && DivisorFrom(v, 2) != 1
    ensures 2 <= DivisorFrom(v, 2) < v && Divides(DivisorFrom(v, 2), v)
  {
    DivisorFound(v, 2);
    if DivisorFrom(v, 2) == v {
      OwnDivisor(v, 2);
    }
  }

  /** An axis can be divided exactly when its size is 2 or not a prime. */
  lemma DividableIff(v: nat)
    requires v >= 1
    ensures DivisorFrom(v, 2) != 1 <==> v == 2 || exists e :: 2 <= e < v && Divides(e, v)
  {
    if v > 2 && DivisorFrom(v, 2) != 1 {
      FoundIsProper(v);
    }
    hide DivisorFrom;
    if exists e :: 2 <= e < v && Divides(e, v) {
      var e :| 2 <= e < v && Divides(e, v);
      var d := SmallDivisor(v, e);
      SearchFinds(v, 2, d);
    }
  }

  datatype AxisSplit = Stuck | Axis(rest: nat, moved: nat)

  lemma {:induction false} DivisorFound(v: nat, from: nat)
    requires from >= 2 && v >= 1 && DivisorFrom(v, from) != 1
    ensures var d := DivisorFrom(v, from); from <= d && v % d == 0 && 1 <= v / d < v && v == v / d * d
    decreases v - from
  {
    if v % from == 0 {
      ProperQuotient(v, from);
    } else {
      MulMono(from - 1, 1, from - 1);
      DivisorFound(v, from + 1);
    }
  }

  lemma ProperQuotient(v: nat, d: nat)
    requires d >= 2 && v >= 1 && v % d == 0
    ensures 1 <= v / d < v && v == v / d * d
  {
    var q := v / d;
    DivModOf(v, d);
    assert d * q == q * d;
    MulMono(d, q, 0);
    MulMono(q, 2, d);
  }

  /** One axis is divided until it respects its limit; `moved` is the factor handed to the next axis. */
  function SplitAxis(v: nat, m: nat): AxisSplit
    decreases v
  {
    if v <= m || v == 0 then Axis(v, 1)
    else
      var d := DivisorFrom(v, 2);
      if d == 1 then Stuck
      else
        DivisorFound(v, 2);
        match SplitAxis(v / d, m)
        case Stuck => Stuck
        case Axis(rest, moved) => Axis(rest, d * moved)
  }

  /** The three axes in turn; what the last one hands on goes to the first. */
  function SplitThree(a: nat, b: nat, c: nat, maxs: seq<nat>): Option<seq<nat>>
    requires |maxs| == 3
  {
    match SplitAxis(a, maxs[0])
    case Stuck => None
    case Axis(a1, m0) =>
      match SplitAxis(b * m0, maxs[1])
      case Stuck => None
      case Axis(b1, m1) =>
        match SplitAxis(c * m1, maxs[2])
        case Stuck => None
        case Axis(c1, m2) => Some([a1 * m2, b1, c1])
  }

  function Pad(dims: seq<nat>, i: nat): nat { if i < |dims| then dims[i] else 1 }

  function SplitDimsOf(dims: seq<nat>, maxs: seq<nat>): Option<seq<nat>>
    requires |maxs| == 3
  {
    if Fits(dims, maxs) then Some(dims)
    else
      match SplitThree(Pad(dims, 0), Pad(dims, 1), Pad(dims, 2), maxs)
      case None => None
      case Some(s) => Some(if s[2] == 1 then s[..2] else s)
  }

  method SplitDims(dims: seq<nat>, maxs: seq<nat>) returns (r: Option<seq<nat>>)
    requires |maxs| == 3 && |dims| <= 3 && AllAtLeast(dims, 1)
    ensures r == SplitDimsOf(dims, maxs)
  {
    if Fits(dims, maxs) {
      return Some(dims);
    }
    var ds := [Pad(dims, 0), Pad(dims, 1), Pad(dims, 2)];
    for i := 0 to 3
      invariant |ds| == 3 && AllAtLeast(ds, 1)
      invariant Remaining(ds, i, maxs) == SplitThree(Pad(dims, 0), Pad(dims, 1), Pad(dims, 2), maxs)
    {
      var next := (i + 1) % 3;
      while ds[i] > maxs[i]
        invariant |ds| == 3 && AllAtLeast(ds, 1)
        invariant Remaining(ds, i, maxs) == SplitThree(Pad(dims, 0), Pad(dims, 1), Pad(dims, 2), maxs)
        decreases ds[i]
      {
        var div := DivisorFrom(ds[i], 2);
        RemainingStep(ds, i, maxs);
        if div == 1 {
          return None;
        }
        DivisorFound(ds[i], 2);
        MulMono(div, 1, ds[next]);
        ds := ds[i := ds[i] / div][next := ds[next] * div];
      }
      RemainingNext(ds, i, maxs);
    }
    return Some(if ds[2] == 1 then ds[..2] else ds);
  }

  /** What the remaining axes, from axis i on, will make of the current list. */
  function Remaining(ds: seq<nat>, i: nat, maxs: seq<nat>): Option<seq<nat>>
    requires |ds| == 3 && |maxs| == 3 && i <= 3
  {
    if i == 0 then SplitThree(ds[0], ds[1], ds[2], maxs)
    else if i == 1 then
      match SplitAxis(ds[1], maxs[1])
      case Stuck => None
      case Axis(b1, m1) =>
        (match SplitAxis(ds[2] * m1, maxs[2])
         case Stuck => None
         case Axis(c1, m2) => Some([ds[0] * m2, b1, c1]))
    else if i == 2 then
      match SplitAxis(ds[2], maxs[2])
      case Stuck => None
      case Axis(c1, m2) => Some([ds[0] * m2, ds[1], c1])
    else Some(ds)
  }

  lemma TimesAssoc(a: nat, b: nat, c: nat)
    ensures a * b * c == a * (b * c)
  {
  }

  /** One division step of the inner loop leaves what remains to be done unchanged. */
  lemma RemainingStep(ds: seq<nat>, i: nat, maxs: seq<nat>)
    requires |ds| == 3 && |maxs| == 3 && i < 3 && AllAtLeast(ds, 1) && ds[i] > maxs[i]
    ensures
      var d := DivisorFrom(ds[i], 2);
      if d == 1 then Remaining(ds, i, maxs) == None
      else Remaining(ds[i := ds[i] / d][(i + 1) % 3 := ds[(i + 1) % 3] * d], i, maxs) == Remaining(ds, i, maxs)
  {
    var d := DivisorFrom(ds[i], 2);
    if d != 1 {
      DivisorFound(ds[i], 2);
      match SplitAxis(ds[i] / d, maxs[i])
      case Stuck =>
      case Axis(rest, moved) => TimesAssoc(ds[(i + 1) % 3], d, moved);
    }
  }

  lemma RemainingNext(ds: seq<nat>, i: nat, maxs: seq<nat>)
    requires |ds| == 3 && |maxs| == 3 && i < 3 && ds[i] <= maxs[i]
    ensures Remaining(ds, i + 1, maxs) == Remaining(ds, i, maxs)
  {
    assert SplitAxis(ds[i], maxs[i]) == Axis(ds[i], 1);
    if i == 2 {
      assert [ds[0], ds[1], ds[2]] == ds;
    }
  }

  // ---------------------------------------------------------------- get_contraction

  function Accumulate(s: seq<nat>): seq<nat> {
    seq(|s|, i requires 0 <= i < |s| => Prod(s[..i + 1]))
  }

  /** list.index */
  function IndexOf(xs: seq<nat>, v: nat): Option<nat> {
    if xs == [] then None
    else if xs[0] == v then Some(0)
    else match IndexOf(xs[1..], v) case None => None case Some(i) => Some(i + 1)
  }

  /** Where each accumulated new size ends in the old dimensions; None is the ValueError of list.index. */
  function SplitPoints(accOld: seq<nat>, accNew: seq<nat>): Option<seq<nat>> {
    if accNew == [] then Some([])
    else
      var rest := SplitPoints(accOld, accNew[..|accNew| - 1]);
      var acc := accNew[|accNew| - 1];
      var at := if acc == 1 then Some(0) else match IndexOf(accOld, acc) case None => None case Some(i) => Some(i + 1);
      if rest.None? || at.None? then None else Some(rest.value + [at.value])
  }

  /** dims[st..ed] of range(st, ed), which is empty when ed <= st. */
  function Slice(s: seq<nat>, st: nat, ed: nat): seq<nat>
    requires ed <= |s|
  {
    if st <= ed then s[st..ed] else []
  }

  /** The groups of old sizes, one for each pair of consecutive split points; the last one runs to the end. */
  function GroupsAt(dims: seq<nat>, split: seq<nat>, k: nat): (groups: seq<seq<nat>>)
    requires forall i :: 0 <= i < |split| ==> split[i] <= |dims|
    requires k <= |split|
    ensures |groups| == |split| - k
    decreases |split| - k
  {
    if k == |split| then []
    else
      var st := if k == 0 then 0 else split[k - 1];
      var ed := if k + 1 == |split| then |dims| else split[k];
      [Slice(dims, st, ed)] + GroupsAt(dims, split, k + 1)
  }

  lemma {:induction false} IndexOfBound(xs: seq<nat>, v: nat)
    ensures IndexOf(xs, v).Some? ==> IndexOf(xs, v).value < |xs| && xs[IndexOf(xs, v).value] == v
  {
    if xs != [] && xs[0] != v {
      IndexOfBound(xs[1..], v);
    }
  }

  lemma {:induction false} SplitPointsFacts(accOld: seq<nat>, accNew: seq<nat>)
    requires SplitPoints(accOld, accNew).Some?
    ensures
      var split := SplitPoints(accOld, accNew).value;
      |split| == |accNew| && forall i :: 0 <= i < |split| ==>
        split[i] <= |accOld| && (accNew[i] != 1 ==> split[i] >= 1 && accOld[split[i] - 1] == accNew[i])
  {
    if accNew != [] {
      SplitPointsFacts(accOld, accNew[..|accNew| - 1]);
      IndexOfBound(accOld, accNew[|accNew| - 1]);
    }
  }

  function Contraction(dims: seq<nat>, target: seq<nat>): Option<seq<seq<nat>>> {
    match SplitPoints(Accumulate(dims), Accumulate(target))
    case None => None
    case Some(split) =>
      SplitPointsFacts(Accumulate(dims), Accumulate(target));
      Some(GroupsAt(dims, split, 0))
  }

  function Concat(groups: seq<seq<nat>>): seq<nat> {
    if groups == [] then [] else groups[0] + Concat(groups[1..])
  }

  /** Nonempty groups that partition `dims` in order and multiply to `target`. */
  ghost predicate IsPartition(groups: seq<seq<nat>>, dims: seq<nat>, target: seq<nat>) {
    && |groups| == |target| && Concat(groups) == dims
    && forall k :: 0 <= k < |groups| ==> groups[k] != [] && Prod(groups[k]) == target[k]
  }

  lemma {:induction false} PrefixProductsIncrease(s: seq<nat>, i: nat, j: nat)
    requires i < j <= |s| && AllAtLeast(s, 2)
    ensures 1 <= Prod(s[..i]) < Prod(s[..j])
    decreases j
  {
    ProdPositive(s[..i]);
    ProdPositive(s[..j - 1]);
    assert s[..j][..j - 1] == s[..j - 1];
    MulMono(Prod(s[..j - 1]), 2, s[j - 1]);
    if i < j - 1 {
      PrefixProductsIncrease(s, i, j - 1);
    }
  }

  lemma CancelProduct(a: nat, x: nat, y: nat)
    requires a >= 1 && a * x == a * y
    ensures x == y
  {
    MulMono(a, x + 1, y);
    MulMono(a, y + 1, x);
    assert a * (x + 1) == a * x + a && a * (y + 1) == a * y + a;
  }

  /** The split points are the cuts: in order, ending at the end, with matching prefix products. */
  ghost predicate GoodCuts(dims: seq<nat>, target: seq<nat>, split: seq<nat>) {
    && |split| == |target| && (|split| > 0 ==> split[|split| - 1] == |dims|)
    && (forall k :: 0 <= k < |split| ==> 1 <= split[k] <= |dims| && Prod(dims[..split[k]]) == Prod(target[..k + 1]))
    && (forall k :: 0 < k < |split| ==> split[k - 1] < split[k])
  }

  function SplitOf(dims: seq<nat>, target: seq<nat>): Option<seq<nat>> {
    SplitPoints(Accumulate(dims), Accumulate(target))
  }

  lemma CutPoint(dims: seq<nat>, target: seq<nat>, k: nat)
    requires AllAtLeast(dims, 2) && AllAtLeast(target, 2) && SplitOf(dims, target).Some? && k < |target|
    ensures
      var split := SplitOf(dims, target).value;
      |split| == |target| && 1 <= split[k] <= |dims| && Prod(dims[..split[k]]) == Prod(target[..k + 1])
  {
    SplitPointsFacts(Accumulate(dims), Accumulate(target));
    PrefixProductsIncrease(target, 0, k + 1);
    assert target[..0] == [];
    hide SplitPoints;
  }

  lemma CutOrder(dims: seq<nat>, target: seq<nat>, a: nat, b: nat, k: nat)
    requires AllAtLeast(dims, 2) && AllAtLeast(target, 2) && 0 < k < |target| && a <= |dims| && b <= |dims|
    requires Prod(dims[..a]) == Prod(target[..k]) && Prod(dims[..b]) == Prod(target[..k + 1])
    ensures a < b
  {
    PrefixProductsIncrease(target, k, k + 1);
    if b < a {
      PrefixProductsIncrease(dims, b, a);
    }
  }

  lemma CutAtEnd(dims: seq<nat>, target: seq<nat>, last: nat)
    requires AllAtLeast(dims, 2) && last <= |dims| && Prod(dims[..last]) == Prod(target) == Prod(dims)
    ensures last == |dims|
  {
    assert dims[..|dims|] == dims;
    if last < |dims| {
      PrefixProductsIncrease(dims, last, |dims|);
    }
  }

  lemma CutsAreGood(dims: seq<nat>, target: seq<nat>)
    requires AllAtLeast(dims, 2) && AllAtLeast(target, 2) && Prod(dims) == Prod(target) && SplitOf(dims, target).Some?
    ensures GoodCuts(dims, target, SplitOf(dims, target).value)
  {
    SplitPointsFacts(Accumulate(dims), Accumulate(target));
    var split := SplitOf(dims, target).value;
    hide SplitOf, Prod, AllAtLeast;
    forall k | 0 <= k < |split|
      ensures 1 <= split[k] <= |dims| && Prod(dims[..split[k]]) == Prod(target[..k + 1])
    {
      CutPoint(dims, target, k);
    }
    forall k | 0 < k < |split|
      ensures split[k - 1] < split[k]
    {
      CutOrder(dims, target, split[k - 1], split[k], k);
    }
    if |split| > 0 {
      assert target[..|target|] == target;
      CutAtEnd(dims, target, split[|split| - 1]);
    }
  }

  function Start(split: seq<nat>, k: nat): nat
    requires k <= |split|
  {
    if k == 0 then 0 else split[k - 1]
  }

  /** One group multiplies to one new size. */
  lemma GroupProduct(dims: seq<nat>, target: seq<nat>, split: seq<nat>, k: nat)
    requires AllAtLeast(dims, 2) && GoodCuts(dims, target, split) && k < |split|
    ensures Start(split, k) < split[k] && Prod(dims[Start(split, k)..split[k]]) == target[k]
  {
    var st, ed := Start(split, k), split[k];
    assert dims[..ed] == dims[..st] + dims[st..ed];
    ProdConcat(dims[..st], dims[st..ed]);
    assert target[..k + 1][..k] == target[..k];
    assert Prod(dims[..st]) == Prod(target[..k]) by {
      assert dims[..0] == [] && target[..0] == [];
    }
    ProdPositive(dims[..st]);
    CancelProduct(Prod(dims[..st]), Prod(dims[st..ed]), target[k]);
  }

  lemma PrependGroup(g: seq<nat>, groups: seq<seq<nat>>, x: nat, dims: seq<nat>, target: seq<nat>)
    requires g != [] && Prod(g) == x && IsPartition(groups, dims, target)
    ensures IsPartition([g] + groups, g + dims, [x] + target)
  {
    assert ([g] + groups)[1..] == groups;
  }

  lemma CutBounds(dims: seq<nat>, target: seq<nat>, split: seq<nat>, k: nat)
    requires GoodCuts(dims, target, split) && k <= |split| && |split| > 0
    ensures |split| == |target| && split[|split| - 1] == |dims| && forall i :: 0 <= i < |split| ==> split[i] <= |dims|
    ensures Start(split, k) <= |dims| && (k == |split| ==> Start(split, k) == |dims|)
  {
    hide Prod;
  }

  lemma {:induction false} GroupsFromCuts(dims: seq<nat>, target: seq<nat>, split: seq<nat>, k: nat)
    requires AllAtLeast(dims, 2) && GoodCuts(dims, target, split) && k <= |split| && |split| > 0
    ensures Start(split, k) <= |dims| && |split| == |target| && forall i :: 0 <= i < |split| ==> split[i] <= |dims|
    ensures IsPartition(GroupsAt(dims, split, k), dims[Start(split, k)..], target[k..])
    decreases |split| - k
  {
    hide IsPartition, Prod, GoodCuts, GroupsAt;
    CutBounds(dims, target, split, k);
    var st := Start(split, k);
    if k < |split| {
      GroupsFromCuts(dims, target, split, k + 1);
      GroupProduct(dims, target, split, k);
      var g := dims[st..split[k]];
      assert dims[st..] == g + dims[split[k]..];
      assert target[k..] == [target[k]] + target[k + 1..];
      PrependGroup(g, GroupsAt(dims, split, k + 1), target[k], dims[split[k]..], target[k + 1..]);
      FirstGroup(dims, split, k);
    } else {
      assert dims[st..] == [] && target[k..] == [];
      NoGroupsLeft(dims, split);
    }
  }

  lemma NoGroupsLeft(dims: seq<nat>, split: seq<nat>)
    requires forall i :: 0 <= i < |split| ==> split[i] <= |dims|
    ensures GroupsAt(dims, split, |split|) == [] && IsPartition([], [], [])
  {
  }

  lemma FirstGroup(dims: seq<nat>, split: seq<nat>, k: nat)
    requires forall i :: 0 <= i < |split| ==> split[i] <= |dims|
    requires k < |split| && split[|split| - 1] == |dims| && Start(split, k) < split[k]
    ensures GroupsAt(dims, split, k) == [dims[Start(split, k)..split[k]]] + GroupsAt(dims, split, k + 1)
  {
  }

  /** get_contraction, when it succeeds on sizes of at least 2 with the same product, returns a true partition. */
  lemma ContractionIsPartition(dims: seq<nat>, target: seq<nat>)
    requires AllAtLeast(dims, 2) && AllAtLeast(target, 2) && Prod(dims) == Prod(target) && target != []
    requires Contraction(dims, target).Some?
    ensures IsPartition(Contraction(dims, target).value, dims, target)
  {
    CutsAreGood(dims, target);
    SplitPointsFacts(Accumulate(dims), Accumulate(target));
    GroupsFromCuts(dims, target, SplitPoints(Accumulate(dims), Accumulate(target)).value, 0);
    assert dims[0..] == dims && target[0..] == target;
  }

  // ---------------------------------------------------------------- merged dimensions

  lemma MergeKeeps(dims: seq<nat>, i: nat)
    requires i + 1 < |dims| && AllAtLeast(dims, 2)
    ensures AllAtLeast(Merge(dims, i), 2) && Prod(Merge(dims, i)) == Prod(dims) && Merge(dims, i) != []
    ensures forall k :: 0 <= k <= |Merge(dims, i)| ==>
      Prod(Merge(dims, i)[..k]) == Prod(dims[..if k <= i then k else k + 1])
  {
    var merged, n := Merge(dims, i), |dims| - 1;
    MulMono(dims[i], 1, dims[i + 1]);
    forall k | 0 <= k <= n
      ensures Prod(merged[..k]) == Prod(dims[..if k <= i then k else k + 1])
    {
      MergedPrefix(dims, i, k);
    }
    assert merged[..n] == merged && dims[..n + 1] == dims;
  }

  lemma MergedPrefix(dims: seq<nat>, i: nat, k: nat)
    requires i + 1 < |dims| && k < |dims|
    ensures Prod(Merge(dims, i)[..k]) == Prod(dims[..if k <= i then k else k + 1])
  {
    var merged := Merge(dims, i);
    if k <= i {
      assert merged[..k] == dims[..k];
    } else {
      var tail := dims[i + 2..k + 1];
      assert merged[..k] == dims[..i] + [dims[i] * dims[i + 1]] + tail;
      assert dims[..k + 1] == dims[..i] + [dims[i], dims[i + 1]] + tail;
      ProdConcat(dims[..i] + [dims[i] * dims[i + 1]], tail);
      ProdConcat(dims[..i], [dims[i] * dims[i + 1]]);
      ProdConcat(dims[..i] + [dims[i], dims[i + 1]], tail);
      ProdConcat(dims[..i], [dims[i], dims[i + 1]]);
      ProdConcat([dims[i]], [dims[i + 1]]);
      assert [dims[i]] + [dims[i + 1]] == [dims[i], dims[i + 1]];
      ProdOne(dims[i]);
      ProdOne(dims[i + 1]);
      ProdOne(dims[i] * dims[i + 1]);
    }
  }

  /** Every prefix product of a is a prefix product of d. */
  ghost predicate PrefixesIn(a: seq<nat>, d: seq<nat>) {
    forall k :: 0 < k <= |a| ==> exists m :: 0 < m <= |d| && Prod(a[..k]) == Prod(d[..m])
  }

  lemma PrefixesOfMerged(g: seq<nat>, dims: seq<nat>, i: nat)
    requires AllAtLeast(dims, 2) && i + 1 < |dims| && PrefixesIn(g, Merge(dims, i))
    ensures PrefixesIn(g, dims)
  {
    MergeKeeps(dims, i);
    var merged := Merge(dims, i);
    forall k | 0 < k <= |g|
      ensures exists m :: 0 < m <= |dims| && Prod(g[..k]) == Prod(dims[..m])
    {
      var m :| 0 < m <= |merged| && Prod(g[..k]) == Prod(merged[..m]);
      var m' := if m <= i then m else m + 1;
      assert Prod(g[..k]) == Prod(dims[..m']);
    }
  }

  /** What merging guarantees when it succeeds. */
  lemma {:induction false} GroupedFacts(dims: seq<nat>, maxs: seq<nat>)
    requires AllAtLeast(dims, 2) && GroupDimsOf(dims, maxs).Some? && dims != []
    ensures
      var g := GroupDimsOf(dims, maxs).value;
      && g != [] && AllAtLeast(g, 2) && Prod(g) == Prod(dims) && PrefixesIn(g, dims)
      && |g| <= |maxs| && (forall i :: 0 <= i < |g| ==> g[i] <= maxs[i]) && (g == dims || |g| < |dims|)
    decreases |dims|
  {
    if |dims| <= |maxs| && Fits(dims, maxs) {
    } else {
      FirstMergeFound(dims, maxs, 0);
      var i := FirstMerge(dims, maxs, 0).value;
      MergeKeeps(dims, i);
      GroupedFacts(Merge(dims, i), maxs);
      PrefixesOfMerged(GroupDimsOf(dims, maxs).value, dims, i);
      hide PrefixesIn, Prod, Merge;
    }
  }

  lemma {:induction false} IndexOfMember(xs: seq<nat>, v: nat, i: nat)
    requires i < |xs| && xs[i] == v
    ensures IndexOf(xs, v).Some?
  {
    if i > 0 {
      IndexOfMember(xs[1..], v, i - 1);
    }
  }

  lemma {:induction false} SplitPointsExist(accOld: seq<nat>, accNew: seq<nat>)
    requires forall x :: x in accNew ==> x in accOld
    ensures SplitPoints(accOld, accNew).Some?
  {
    if accNew != [] {
      var n := |accNew| - 1;
      SplitPointsExist(accOld, accNew[..n]);
      assert accNew[n] in accOld;
      var i :| 0 <= i < |accOld| && accOld[i] == accNew[n];
      IndexOfMember(accOld, accNew[n], i);
    }
  }

  /** If merging fails, it ends in merged dimensions that do not fit and have no neighbours left to merge. */
  lemma {:induction false} GroupingStuck(dims: seq<nat>, maxs: seq<nat>) returns (g: seq<nat>)
    requires AllAtLeast(dims, 2) && GroupDimsOf(dims, maxs).None?
    ensures Prod(g) == Prod(dims) && PrefixesIn(g, dims)
    ensures |g| > |maxs| || exists i :: 0 <= i < |g| && g[i] > maxs[i]
    ensures forall i :: 0 <= i < |maxs| && i < |g| - 1 ==> g[i] * g[i + 1] > maxs[i]
    decreases |dims|
  {
    FirstMergeFound(dims, maxs, 0);
    if FirstMerge(dims, maxs, 0).None? {
      NoFirstMerge(dims, maxs, 0);
      g := dims;
      forall i | 0 <= i < |maxs| && i < |g| - 1 ensures g[i] * g[i + 1] > maxs[i] {
        assert !CanMerge(g, maxs, i);
      }
    } else {
      var i := FirstMerge(dims, maxs, 0).value;
      MergeKeeps(dims, i);
      g := GroupingStuck(Merge(dims, i), maxs);
      PrefixesOfMerged(g, dims, i);
    }
  }

  lemma {:induction false} FirstMergeIsFirst(dims: seq<nat>, maxs: seq<nat>, i: nat, at: nat)
    requires i <= at && CanMerge(dims, maxs, at) && forall k: nat :: i <= k < at ==> !CanMerge(dims, maxs, k)
    ensures FirstMerge(dims, maxs, i) == Some(at)
    decreases at - i
  {
    if i < at {
      FirstMergeIsFirst(dims, maxs, i + 1, at);
    }
  }

  lemma {:induction false} NoMergeFound(dims: seq<nat>, maxs: seq<nat>, i: nat)
    requires forall k: nat :: i <= k < |maxs| ==> !CanMerge(dims, maxs, k)
    ensures FirstMerge(dims, maxs, i) == None
    decreases |maxs| - i
  {
    if i < |maxs| {
      NoMergeFound(dims, maxs, i + 1);
    }
  }

  /**
    How dimensions are merged: those that fit stay, of others the first two neighbours whose product respects the
    limit of their place are merged, and without such neighbours merging fails.
   */
  lemma GroupingStep(dims: seq<nat>, maxs: seq<nat>, at: nat)
    ensures
      var fit := |dims| <= |maxs| && forall i :: 0 <= i < |dims| ==> dims[i] <= maxs[i];
      && (fit ==> GroupDimsOf(dims, maxs) == Some(dims))
      && (!fit && (forall i :: 0 <= i < |maxs| && i < |dims| - 1 ==> dims[i] * dims[i + 1] > maxs[i]) ==>
        GroupDimsOf(dims, maxs) == None)
    ensures
      at < |maxs| && at + 1 < |dims| && dims[at] * dims[at + 1] <= maxs[at] &&
      (forall i :: 0 <= i < at ==> dims[i] * dims[i + 1] > maxs[i]) &&
      (|dims| > |maxs| || exists i :: 0 <= i < |dims| && dims[i] > maxs[i]) ==>
        GroupDimsOf(dims, maxs) == GroupDimsOf(dims[..at] + [dims[at] * dims[at + 1]] + dims[at + 2..], maxs)
  {
    if forall i: nat :: i < |maxs| ==> !CanMerge(dims, maxs, i) {
      NoMergeFound(dims, maxs, 0);
    }
    if CanMerge(dims, maxs, at) && forall i: nat :: i < at ==> !CanMerge(dims, maxs, i) {
      FirstMergeIsFirst(dims, maxs, 0, at);
    }
  }

  lemma {:induction false} NoFirstMerge(dims: seq<nat>, maxs: seq<nat>, i: nat)
    requires FirstMerge(dims, maxs, i).None?
    ensures forall k: nat :: i <= k < |maxs| ==> !CanMerge(dims, maxs, k)
    decreases |maxs| - i
  {
    if i < |maxs| {
      NoFirstMerge(dims, maxs, i + 1);
    }
  }

  /** For merged dimensions get_contraction always succeeds. */
  lemma ContractionExists(dims: seq<nat>, target: seq<nat>)
    requires PrefixesIn(target, dims)
    ensures Contraction(dims, target).Some?
  {
    var accOld, accNew := Accumulate(dims), Accumulate(target);
    forall x | x in accNew
      ensures x in accOld
    {
      var k :| 0 <= k < |accNew| && accNew[k] == x;
      var m :| 0 < m <= |dims| && Prod(target[..k + 1]) == Prod(dims[..m]);
      assert accOld[m - 1] == accNew[k];
    }
    SplitPointsExist(accOld, accNew);
  }

  // ---------------------------------------------------------------- logical indices

  /** The indices of one group, from its one hardware index; an empty group still yields one index. */
  function GroupIndices(group: seq<nat>, x: nat): seq<nat>
    requires AllAtLeast(group, 1)
  {
    if group == [] then [x] else Peel(group, x)
  }

  ghost predicate AllGroupsAtLeast(groups: seq<seq<nat>>, n: nat) {
    forall k :: 0 <= k < |groups| ==> AllAtLeast(groups[k], n)
  }

  function PeelAll(groups: seq<seq<nat>>, raw: seq<nat>): seq<nat>
    requires |raw| == |groups| && AllGroupsAtLeast(groups, 1)
  {
    if groups == [] then [] else GroupIndices(groups[0], raw[0]) + PeelAll(groups[1..], raw[1..])
  }

  function UnpeelAll(groups: seq<seq<nat>>, idx: seq<nat>): seq<nat>
    requires |idx| == |Concat(groups)| && forall k :: 0 <= k < |groups| ==> groups[k] != []
  {
    if groups == [] then []
    else [Unpeel(groups[0], idx[..|groups[0]|])] + UnpeelAll(groups[1..], idx[|groups[0]|..])
  }

  /** On the grouped path the first dimension of every group varies fastest with the index of its axis. */
  lemma {:induction false} PeelAllAt(groups: seq<seq<nat>>, raw: seq<nat>, k: nat, i: nat)
    requires |raw| == |groups| && AllGroupsAtLeast(groups, 1) && k < |groups| && i < |groups[k]|
    requires forall j :: 0 <= j < |groups| ==> groups[j] != []
    ensures Prod(groups[k][..i]) > 0
    ensures
      var at, x := |Concat(groups[..k])| + i, raw[k] / Prod(groups[k][..i]);
      at < |PeelAll(groups, raw)| &&
      PeelAll(groups, raw)[at] == if i < |groups[k]| - 1 then x % groups[k][i] else x
    decreases k
  {
    if k == 0 {
      PeelAt(groups[0], raw[0], i);
    } else {
      PeelAllAt(groups[1..], raw[1..], k - 1, i);
      assert groups[..k][1..] == groups[1..][..k - 1];
    }
  }

  lemma TailPartition(groups: seq<seq<nat>>, dims: seq<nat>, target: seq<nat>)
    requires groups != [] && IsPartition(groups, dims, target)
    ensures IsPartition(groups[1..], dims[|groups[0]|..], target[1..])
    ensures dims[..|groups[0]|] == groups[0] && |groups[0]| <= |dims|
  {
    assert dims == groups[0] + Concat(groups[1..]);
  }

  lemma {:induction false} GroupsAtLeast(groups: seq<seq<nat>>, n: nat)
    requires AllAtLeast(Concat(groups), n)
    ensures AllGroupsAtLeast(groups, n)
  {
    if groups != [] {
      var all := Concat(groups);
      assert forall i :: 0 <= i < |groups[0]| ==> groups[0][i] == all[i];
      assert forall i :: 0 <= i < |Concat(groups[1..])| ==> Concat(groups[1..])[i] == all[|groups[0]| + i];
      GroupsAtLeast(groups[1..], n);
      forall k | 0 <= k < |groups| ensures AllAtLeast(groups[k], n) {
        if k > 0 { assert groups[1..][k - 1] == groups[k]; }
      }
    }
  }

  lemma BoxSplit(a: seq<nat>, b: seq<nat>, x: seq<nat>, y: seq<nat>)
    requires |x| == |a|
    ensures InBox(a + b, x + y) <==> InBox(a, x) && InBox(b, y)
  {
    if InBox(a + b, x + y) {
      forall i | 0 <= i < |a| ensures x[i] < a[i] { assert (x + y)[i] < (a + b)[i]; }
      forall i | 0 <= i < |b| ensures y[i] < b[i] { assert (x + y)[|a| + i] < (a + b)[|a| + i]; }
    }
  }

  lemma PeelAllCons(g: seq<nat>, groups: seq<seq<nat>>, x: nat, xs: seq<nat>)
    requires g != [] && AllAtLeast(g, 1) && AllGroupsAtLeast(groups, 1) && |xs| == |groups|
    ensures AllGroupsAtLeast([g] + groups, 1)
    ensures PeelAll([g] + groups, [x] + xs) == Peel(g, x) + PeelAll(groups, xs)
  {
    assert ([g] + groups)[1..] == groups && ([x] + xs)[1..] == xs;
  }

  lemma UnpeelAllCons(g: seq<nat>, groups: seq<seq<nat>>, a: seq<nat>, b: seq<nat>)
    requires g != [] && |a| == |g| && |b| == |Concat(groups)| && forall k :: 0 <= k < |groups| ==> groups[k] != []
    ensures |a + b| == |Concat([g] + groups)| && forall k :: 0 <= k < |[g] + groups| ==> ([g] + groups)[k] != []
    ensures UnpeelAll([g] + groups, a + b) == [Unpeel(g, a)] + UnpeelAll(groups, b)
  {
    assert ([g] + groups)[1..] == groups && (a + b)[..|g|] == a && (a + b)[|g|..] == b;
  }

  lemma Decompose(groups: seq<seq<nat>>, dims: seq<nat>, target: seq<nat>)
    requires groups != [] && IsPartition(groups, dims, target) && AllGroupsAtLeast(groups, 1)
    ensures
      var g := groups[0];
      && |g| <= |dims| && g != [] && Prod(g) == target[0] && AllAtLeast(g, 1)
      && groups == [g] + groups[1..] && dims == g + dims[|g|..] && target == [target[0]] + target[1..]
      && IsPartition(groups[1..], dims[|g|..], target[1..]) && AllGroupsAtLeast(groups[1..], 1)
  {
    TailPartition(groups, dims, target);
  }

  /** Hardware indices in the limited box give logical indices in the logical box, and can be recovered. */
  lemma {:induction false} PeelAllInverse(groups: seq<seq<nat>>, dims: seq<nat>, target: seq<nat>, raw: seq<nat>)
    requires IsPartition(groups, dims, target) && AllGroupsAtLeast(groups, 1) && InBox(target, raw)
    ensures InBox(dims, PeelAll(groups, raw)) && UnpeelAll(groups, PeelAll(groups, raw)) == raw
    decreases |groups|
  {
    if groups != [] {
      Decompose(groups, dims, target);
      hide PeelAll, UnpeelAll, Peel, Unpeel, IsPartition, AllGroupsAtLeast, Prod;
      PartitionShape(groups[1..], dims[|groups[0]|..], target[1..]);
      var g, gs, x, xs := groups[0], groups[1..], raw[0], raw[1..];
      assert raw == [x] + xs;
      PeelInverse(g, x);
      PeelAllInverse(gs, dims[|g|..], target[1..], xs);
      var first, rest := Peel(g, x), PeelAll(gs, xs);
      BoxSplit(g, dims[|g|..], first, rest);
      PeelAllCons(g, gs, x, xs);
      UnpeelAllCons(g, gs, first, rest);
    } else {
      assert dims == [];
    }
  }

  lemma PartitionShape(groups: seq<seq<nat>>, dims: seq<nat>, target: seq<nat>)
    requires IsPartition(groups, dims, target)
    ensures |groups| == |target| && Concat(groups) == dims && forall k :: 0 <= k < |groups| ==> groups[k] != []
  {
  }

  lemma {:induction false} UnpeelAllInverse(groups: seq<seq<nat>>, dims: seq<nat>, target: seq<nat>, idx: seq<nat>)
    requires IsPartition(groups, dims, target) && AllGroupsAtLeast(groups, 1) && InBox(dims, idx)
    ensures InBox(target, UnpeelAll(groups, idx)) && PeelAll(groups, UnpeelAll(groups, idx)) == idx
    decreases |groups|
  {
    if groups != [] {
      Decompose(groups, dims, target);
      hide PeelAll, UnpeelAll, Peel, Unpeel, IsPartition, AllGroupsAtLeast, Prod;
      PartitionShape(groups[1..], dims[|groups[0]|..], target[1..]);
      var g, gs := groups[0], groups[1..];
      var a, b := idx[..|g|], idx[|g|..];
      assert idx == a + b;
      BoxSplit(g, dims[|g|..], a, b);
      UnpeelInverse(g, a);
      UnpeelAllInverse(gs, dims[|g|..], target[1..], b);
      UnpeelAllCons(g, gs, a, b);
      PeelAllCons(g, gs, Unpeel(g, a), UnpeelAll(gs, b));
      BoxSplit([target[0]], target[1..], [Unpeel(g, a)], UnpeelAll(gs, b));
    }
  }

  // ---------------------------------------------------------------- get_grouped_dims

  /** The launch grid, or None for the errors "cannot limit dim". */
  function LimitOf(dims: seq<nat>, maxs: Option<seq<nat>>): Option<seq<nat>>
    requires maxs.Some? ==> |maxs.value| == 3
  {
    if maxs.None? then Some(dims)
    else
      var grouped := GroupDimsOf(dims, maxs.value);
      var limited := if grouped.Some? && grouped.value != [] then grouped.value else dims;
      if |limited| > 3 then None
      else if limited == dims then SplitDimsOf(dims, maxs.value)
      else Some(limited)
  }

  /** The grids the index computation is prepared for. */
  predicate Shape(dims: seq<nat>, limited: seq<nat>) {
    AllAtLeast(dims, 1) &&
    (|limited| < |dims| || limited == dims || (1 <= |dims| <= 3 && 2 <= |limited| <= 3))
  }

  lemma {:induction false} SlicesAtLeast(dims: seq<nat>, split: seq<nat>, k: nat, n: nat)
    requires AllAtLeast(dims, n) && k <= |split| && forall i :: 0 <= i < |split| ==> split[i] <= |dims|
    ensures AllGroupsAtLeast(GroupsAt(dims, split, k), n)
    decreases |split| - k
  {
    if k < |split| {
      SlicesAtLeast(dims, split, k + 1, n);
    }
  }

  lemma ContractionShape(dims: seq<nat>, limited: seq<nat>)
    requires AllAtLeast(dims, 1) && Contraction(dims, limited).Some?
    ensures |Contraction(dims, limited).value| == |limited| && AllGroupsAtLeast(Contraction(dims, limited).value, 1)
  {
    SplitPointsFacts(Accumulate(dims), Accumulate(limited));
    SlicesAtLeast(dims, SplitPoints(Accumulate(dims), Accumulate(limited)).value, 0, 1);
  }

  /** The one-dimensional position of a hardware index, as the code writes it. */
  function FlatPosition(limited: seq<nat>, raw: seq<nat>): nat
    requires 2 <= |limited| <= 3 && |raw| == |limited|
  {
    if |limited| == 2 then raw[0] * limited[1] + raw[1]
    else raw[0] * (limited[1] * limited[2]) + raw[1] * limited[2] + raw[2]
  }

  /** The logical indices of one hardware index, or None for a failing get_contraction. */
  function LogicalOf(dims: seq<nat>, limited: seq<nat>, raw: seq<nat>): Option<seq<nat>>
    requires Shape(dims, limited) && |raw| == |limited|
  {
    if |limited| < |dims| then
      match Contraction(dims, limited)
      case None => None
      case Some(groups) => ContractionShape(dims, limited); Some(PeelAll(groups, raw))
    else if |limited| == 2 && |dims| == 1 then Some([raw[0] * limited[1] + raw[1]])
    else if |limited| == 3 && |dims| == 1 then Some([(raw[0] * limited[1] + raw[1]) * limited[2] + raw[2]])
    else if limited != dims then Some(FromFlat(dims, FlatPosition(limited, raw)))
    else Some(raw)
  }

  /** Two sizes as the divisor of a flat position. */
  function Plane(a: nat, b: nat): (p: nat)
    requires a >= 1 && b >= 1
    ensures p == a * b && p >= 1
  {
    MulMono(a, 1, b);
    a * b
  }

  function FromFlat(dims: seq<nat>, flat: nat): seq<nat>
    requires 2 <= |dims| <= 3 && AllAtLeast(dims, 1)
  {
    if |dims| == 2 then [flat / dims[1], flat % dims[1]]
    else [flat / Plane(dims[2], dims[1]), flat / dims[2] % dims[1], flat % dims[2]]
  }

  /** The hardware index of a logical one. */
  function HardwareOf(dims: seq<nat>, limited: seq<nat>, idx: seq<nat>): seq<nat>
    requires Shape(dims, limited) && AllAtLeast(limited, 1) && |idx| == |dims|
    requires |limited| < |dims| ==>
      Contraction(dims, limited).Some? && IsPartition(Contraction(dims, limited).value, dims, limited)
  {
    if |limited| < |dims| then UnpeelAll(Contraction(dims, limited).value, idx)
    else if limited == dims then idx
    else Unflatten(limited, Flatten(dims, idx))
  }

  lemma FlattenShort(limited: seq<nat>, raw: seq<nat>)
    requires 2 <= |limited| <= 3 && |raw| == |limited|
    ensures FlatPosition(limited, raw) == Flatten(limited, raw)
    ensures |limited| == 3 ==> (raw[0] * limited[1] + raw[1]) * limited[2] + raw[2] == Flatten(limited, raw)
  {
    if |limited| == 2 {
      Flatten2(limited, raw);
    } else {
      Flatten2(limited[..2], raw[..2]);
      Distribute(raw[0], limited[1], raw[1], limited[2]);
    }
  }

  lemma Distribute(a: nat, b: nat, c: nat, d: nat)
    ensures (a * b + c) * d == a * (b * d) + c * d
  {
  }

  lemma Flatten2(l: seq<nat>, r: seq<nat>)
    requires |l| == 2 && |r| == 2
    ensures Flatten(l, r) == r[0] * l[1] + r[1]
  {
    Flatten1(l[..1], r[..1]);
  }

  lemma Flatten1(l: seq<nat>, r: seq<nat>)
    requires |l| == 1 && |r| == 1
    ensures Flatten(l, r) == r[0]
  {
  }

  lemma Unflatten1(d: nat, x: nat)
    requires d >= 1 && x < d
    ensures Unflatten([d], x) == [x]
  {
    assert [d][..0] == [];
    DivModUnique(x, d, 0, x);
  }

  lemma Unflatten2(d: seq<nat>, x: nat)
    requires |d| == 2 && AllAtLeast(d, 1) && x < Prod(d)
    ensures Unflatten(d, x) == [x / d[1], x % d[1]]
  {
    assert d[..1] == [d[0]];
    ProdOne(d[0]);
    assert d[0] * d[1] == d[1] * d[0];
    RowOf(x, d[1], d[0]);
    Unflatten1(d[0], x / d[1]);
  }

  lemma Unflatten3(d: seq<nat>, x: nat)
    requires |d| == 3 && AllAtLeast(d, 1) && x < Prod(d)
    ensures d[2] * d[1] > 0 && Unflatten(d, x) == [x / (d[2] * d[1]), x / d[2] % d[1], x % d[2]]
  {
    assert Prod(d[..2]) * d[2] == d[2] * Prod(d[..2]);
    RowOf(x, d[2], Prod(d[..2]));
    Unflatten2(d[..2], x / d[2]);
    DivDiv(x, d[2], d[1]);
  }

  /** The split path recomputes the logical index through the common one-dimensional position. */
  lemma SplitPathIsFlat(dims: seq<nat>, limited: seq<nat>, raw: seq<nat>)
    requires Shape(dims, limited) && AllAtLeast(limited, 1) && |limited| >= |dims| && limited != dims
    requires Prod(limited) == Prod(dims) && InBox(limited, raw)
    ensures LogicalOf(dims, limited, raw) == Some(Unflatten(dims, Flatten(limited, raw)))
  {
    FlattenShort(limited, raw);
    FlattenInverse(limited, raw);
    var x := Flatten(limited, raw);
    if |dims| == 1 {
      ProdOne(dims[0]);
      assert dims == [dims[0]];
      Unflatten1(dims[0], x);
    } else if |dims| == 2 {
      Unflatten2(dims, x);
    } else {
      Unflatten3(dims, x);
    }
  }

  // ---------------------------------------------------------------- bijectivity

  /** A grid on which the index computation can work. */
  ghost predicate GoodGrid(dims: seq<nat>, limited: seq<nat>) {
    && Shape(dims, limited) && AllAtLeast(limited, 1) && Prod(limited) == Prod(dims)
    && (|limited| < |dims| ==>
        Contraction(dims, limited).Some? && IsPartition(Contraction(dims, limited).value, dims, limited))
  }

  /** Every hardware index yields a logical index, from which it can be recovered. */
  lemma LogicalIsOneToOne(dims: seq<nat>, limited: seq<nat>, raw: seq<nat>)
    requires GoodGrid(dims, limited) && InBox(limited, raw)
    ensures LogicalOf(dims, limited, raw).Some?
    ensures
      var idx := LogicalOf(dims, limited, raw).value;
      InBox(dims, idx) && HardwareOf(dims, limited, idx) == raw
  {
    if |limited| < |dims| {
      ContractionShape(dims, limited);
      PeelAllInverse(Contraction(dims, limited).value, dims, limited, raw);
    } else if limited != dims {
      SplitPathIsFlat(dims, limited, raw);
      FlattenInverse(limited, raw);
      UnflattenInverse(dims, Flatten(limited, raw));
    }
  }

  /** Every logical index is reached. */
  lemma LogicalIsOnto(dims: seq<nat>, limited: seq<nat>, idx: seq<nat>)
    requires GoodGrid(dims, limited) && InBox(dims, idx)
    ensures InBox(limited, HardwareOf(dims, limited, idx))
    ensures LogicalOf(dims, limited, HardwareOf(dims, limited, idx)) == Some(idx)
  {
    if |limited| < |dims| {
      ContractionShape(dims, limited);
      UnpeelAllInverse(Contraction(dims, limited).value, dims, limited, idx);
    } else if limited != dims {
      FlattenInverse(dims, idx);
      UnflattenInverse(limited, Flatten(dims, idx));
      SplitPathIsFlat(dims, limited, HardwareOf(dims, limited, idx));
    }
  }

  // ---------------------------------------------------------------- which grids the limiter produces

  lemma {:induction false} SplitAxisFacts(v: nat, m: nat)
    requires v >= 1 && SplitAxis(v, m).Axis?
    ensures
      var s := SplitAxis(v, m);
      && s.rest >= 1 && s.moved >= 1 && s.rest * s.moved == v && s.rest <= m
      && (v <= m ==> s == Axis(v, 1)) && (v > m ==> s.moved >= 2)
      && (v >= 2 && m >= 2 ==> s.rest >= 2)
    decreases v
  {
    if v > m {
      DivisorFound(v, 2);
      var d := DivisorFrom(v, 2);
      SplitAxisFacts(v / d, m);
      QuotientOfLarge(v, m);
      hide DivisorFrom;
      var inner := SplitAxis(v / d, m);
      CarryFactor(inner.rest, inner.moved, v / d, d, v);
      MulMono(d, 1, inner.moved);
    }
  }

  /** The search finds the smallest divisor. */
  lemma {:induction false} DivisorIsSmallest(v: nat, from: nat, e: nat)
    requires 2 <= from <= e < DivisorFrom(v, from)
    ensures v % e != 0
    decreases e - from
  {
    if from < e {
      DivisorIsSmallest(v, from + 1, e);
    }
  }

  /** An axis is divided by smallest divisors and no longer than needed: before the last division it was too large. */
  lemma {:induction false} SplitAxisStops(v: nat, m: nat) returns (last: nat)
    requires v > m && v >= 1 && SplitAxis(v, m).Axis?
    ensures
      var rest := SplitAxis(v, m).rest;
      && last >= 2 && rest * last > m && rest >= 1 && v % (rest * last) == 0
      && forall e :: 2 <= e < last ==> rest * last % e != 0
    decreases v
  {
    DivisorFound(v, 2);
    var d := DivisorFrom(v, 2);
    SplitAxisFacts(v / d, m);
    forall e | 2 <= e < d ensures v % e != 0 {
      DivisorIsSmallest(v, 2, e);
    }
    if v / d > m {
      hide DivisorFrom;
      last := SplitAxisStops(v / d, m);
      MultipleOfPart(v, d, SplitAxis(v / d, m).rest * last);
    } else {
      last := d;
      DivModUnique(v, v, 1, 0);
    }
  }

  lemma MultipleOfPart(v: nat, d: nat, part: nat)
    requires d > 0 && v == v / d * d && part > 0 && v / d % part == 0
    ensures v % part == 0
  {
    var k := v / d / part;
    DivModOf(v / d, part);
    assert part * k * d == part * (k * d);
    DivModUnique(v, part, k * d, 0);
  }

  lemma CarryFactor(rest: nat, moved: nat, q: nat, d: nat, v: nat)
    requires rest * moved == q && q * d == v
    ensures rest * (d * moved) == v
  {
    TimesAssoc(rest, moved, d);
  }

  /** A number above 2 is never divided by itself. */
  lemma QuotientOfLarge(v: nat, m: nat)
    requires v > m && v >= 1 && DivisorFrom(v, 2) != 1
    ensures m >= 2 ==> v / DivisorFrom(v, 2) >= 2
  {
    DivisorFound(v, 2);
    if m >= 2 && v / DivisorFrom(v, 2) == 1 {
      OwnDivisor(v, 2);
    }
  }

  /** Only 2 is divided by itself: for every other number the search stops before it. */
  lemma {:induction false} OwnDivisor(v: nat, from: nat)
    requires from >= 2 && v >= 1 && DivisorFrom(v, from) == v
    ensures v <= 2
    decreases v - from
  {
    if v > 2 && (from - 1) * (from - 1) < v {
      MulMono(from - 1, 1, from - 1);
      if v % from == 0 {
        MulMono(v - 1, 2, v - 1);
      } else {
        OwnDivisor(v, from + 1);
      }
    }
  }

  lemma MoveFactor(a: nat, b: nat, c: nat, d: nat, e: nat)
    ensures a * b * c * d * e == a * (c * e) * (d * b)
  {
    TimesAssoc(a * b, c, d);
    assert a * b * (c * d) * e == a * (b * (c * d) * e);
    assert b * (c * d) * e == c * e * (d * b);
    TimesAssoc(a, c * e, d * b);
  }

  lemma MoveBack(a: nat, b: nat, c: nat, d: nat, e: nat)
    ensures a * (b * c) * (d * e) == a * c * b * d * e
  {
    TimesAssoc(a, c, b);
    TimesAssoc(a * (b * c), d, e);
  }

  lemma Regroup(a1: nat, m0: nat, b1: nat, m1: nat, c1: nat, m2: nat, a: nat, b: nat, c: nat)
    requires a1 * m0 == a && b1 * m1 == b * m0 && c1 * m2 == c * m1 && m1 >= 1
    ensures a1 * m2 * b1 * c1 == a * b * c
  {
    // multiply both sides by m1 and cancel
    MoveFactor(a1, m2, b1, c1, m1);
    MoveBack(a1, b, m0, c, m1);
    CancelRight(m1, a1 * m2 * b1 * c1, a * b * c);
  }

  lemma CancelRight(a: nat, x: nat, y: nat)
    requires a >= 1 && x * a == y * a
    ensures x == y
  {
    CancelProduct(a, x, y);
  }

  /** What reaches the last axis, before it is divided. */
  function AtLastAxis(dims: seq<nat>, maxs: seq<nat>): nat
    requires |maxs| == 3
  {
    match SplitAxis(Pad(dims, 0), maxs[0])
    case Stuck => 0
    case Axis(_, m0) =>
      match SplitAxis(Pad(dims, 1) * m0, maxs[1])
      case Stuck => 0
      case Axis(_, m1) => Pad(dims, 2) * m1
  }

  lemma SplitThreeFacts(dims: seq<nat>, maxs: seq<nat>)
    requires |maxs| == 3 && |dims| <= 3 && AllAtLeast(dims, 1)
    requires SplitThree(Pad(dims, 0), Pad(dims, 1), Pad(dims, 2), maxs).Some?
    ensures
      var s := SplitThree(Pad(dims, 0), Pad(dims, 1), Pad(dims, 2), maxs).value;
      && |s| == 3 && AllAtLeast(s, 1) && s[0] * s[1] * s[2] == Pad(dims, 0) * Pad(dims, 1) * Pad(dims, 2)
      && s[1] <= maxs[1] && s[2] <= maxs[2]
      && (AtLastAxis(dims, maxs) <= maxs[2] ==> s[0] <= maxs[0])
      && (Pad(dims, 1) >= 2 && maxs[1] >= 2 ==> s[1] >= 2)
      && (Pad(dims, 2) >= 2 && maxs[2] >= 2 ==> s[2] >= 2)
      && (Pad(dims, 2) >= 2 && s[2] == 1 ==> s[0] >= 2)
  {
    var a, b, c := Pad(dims, 0), Pad(dims, 1), Pad(dims, 2);
    SplitAxisFacts(a, maxs[0]);
    var x := SplitAxis(a, maxs[0]);
    MulMono(b, 1, x.moved);
    SplitAxisFacts(b * x.moved, maxs[1]);
    var y := SplitAxis(b * x.moved, maxs[1]);
    MulMono(c, 1, y.moved);
    SplitAxisFacts(c * y.moved, maxs[2]);
    var z := SplitAxis(c * y.moved, maxs[2]);
    Regroup(x.rest, x.moved, y.rest, y.moved, z.rest, z.moved, a, b, c);
    MulMono(x.rest, 1, z.moved);
    MulMono(z.moved, 1, x.rest);
  }

  lemma ProdOfPadded(dims: seq<nat>)
    requires |dims| <= 3
    ensures Prod(dims) == Pad(dims, 0) * Pad(dims, 1) * Pad(dims, 2)
  {
    if |dims| >= 1 {
      ProdOne(dims[0]);
      assert dims[..1] == [dims[0]];
    }
    if |dims| == 1 {
      assert dims == [dims[0]];
    } else if |dims| == 2 {
      assert dims[..1] == [dims[0]];
    } else if |dims| == 3 {
      assert dims[..2][..1] == dims[..1];
    }
  }

  /** What splitting guarantees when it is needed and succeeds. */
  lemma SplitFacts(dims: seq<nat>, maxs: seq<nat>)
    requires |maxs| == 3 && |dims| <= 3 && AllAtLeast(dims, 1) && !Fits(dims, maxs) && SplitDimsOf(dims, maxs).Some?
    ensures
      var s := SplitDimsOf(dims, maxs).value;
      && 2 <= |s| <= 3 && AllAtLeast(s, 1) && Prod(s) == Prod(dims)
      && s[1] <= maxs[1] && (|s| == 3 ==> s[2] <= maxs[2])
      && (AtLastAxis(dims, maxs) <= maxs[2] ==> s[0] <= maxs[0])
      && (|dims| == 3 && AllAtLeast(dims, 2) && |s| == 2 ==> maxs[2] < 2 && s[0] >= 2)
      && (|dims| >= 2 && AllAtLeast(dims, 2) && maxs[1] >= 2 ==> s[1] >= 2)
  {
    SplitThreeFacts(dims, maxs);
    var t := SplitThree(Pad(dims, 0), Pad(dims, 1), Pad(dims, 2), maxs).value;
    var s := SplitDimsOf(dims, maxs).value;
    ProdOfPadded(dims);
    ProdOfPadded(s);
    ProdOfPadded(t);
  }

  /**
    Three dimensions that cannot be merged, on hardware with only one usable axis: the limits of axes 1 and 2
    are below 2, so splitting pushes everything onto axis 0.
   */
  predicate Squeezed(dims: seq<nat>, maxs: seq<nat>) {
    |dims| == 3 && |maxs| == 3 && GroupDimsOf(dims, maxs).None? && maxs[1] < 2 && maxs[2] < 2
  }

  lemma UngroupedDoesNotFit(dims: seq<nat>, maxs: seq<nat>)
    requires |maxs| == 3
    ensures |dims| <= 3 && Fits(dims, maxs) ==> GroupDimsOf(dims, maxs) == Some(dims)
  {
  }

  lemma GroupedFitsAlready(dims: seq<nat>, maxs: seq<nat>)
    requires AllAtLeast(dims, 2) && dims != [] && GroupDimsOf(dims, maxs) == Some(dims)
    ensures Fits(dims, maxs)
  {
    GroupedFacts(dims, maxs);
  }

  /** Splitting is only reached by dimensions that cannot be merged. */
  lemma SplitOnlyUnmerged(dims: seq<nat>, maxs: seq<nat>)
    requires AllAtLeast(dims, 2) && !Fits(dims, maxs)
    requires var g := GroupDimsOf(dims, maxs); !(g.Some? && g.value != [] && g.value != dims)
    ensures dims != [] && GroupDimsOf(dims, maxs).None?
  {
    if GroupDimsOf(dims, maxs) == Some(dims) {
      GroupedFitsAlready(dims, maxs);
    } else if GroupDimsOf(dims, maxs).Some? {
      GroupedFacts(dims, maxs);
    }
  }

  lemma SplitIsGood(dims: seq<nat>, maxs: seq<nat>)
    requires |maxs| == 3 && |dims| <= 3 && AllAtLeast(dims, 2) && dims != [] && !Fits(dims, maxs)
    requires SplitDimsOf(dims, maxs).Some? && !(|dims| == 3 && maxs[1] < 2 && maxs[2] < 2)
    ensures
      var limited := SplitDimsOf(dims, maxs).value;
      && Shape(dims, limited)
      && ((|limited| < |dims| && Contraction(dims, limited).None?) || GoodGrid(dims, limited))
  {
    var limited := SplitDimsOf(dims, maxs).value;
    SplitFacts(dims, maxs);
    hide SplitDimsOf, Contraction, Prod;
    if |limited| < |dims| && Contraction(dims, limited).Some? {
      ContractionIsPartition(dims, limited);
    }
  }

  /** Outside that case every grid the limiter accepts is one the index computation works on. */
  lemma LimitedIsGood(dims: seq<nat>, maxs: seq<nat>)
    requires |maxs| == 3 && AllAtLeast(dims, 2) && !Squeezed(dims, maxs) && LimitOf(dims, Some(maxs)).Some?
    ensures
      var limited := LimitOf(dims, Some(maxs)).value;
      && Shape(dims, limited)
      && ((|limited| < |dims| && Contraction(dims, limited).None?) || GoodGrid(dims, limited))
  {
    var limited := LimitOf(dims, Some(maxs)).value;
    var grouped := GroupDimsOf(dims, maxs);
    hide GroupDimsOf, SplitDimsOf, Contraction, Prod;
    if grouped.Some? && grouped.value != [] && grouped.value != dims {
      NothingToMerge(maxs);
      GroupedFacts(dims, maxs);
      ContractionExists(dims, limited);
      ContractionIsPartition(dims, limited);
    } else if Fits(dims, maxs) {
      FittingStays(dims, maxs);
    } else {
      SplitOnlyUnmerged(dims, maxs);
      SplitIsGood(dims, maxs);
    }
  }

  lemma NothingToMerge(maxs: seq<nat>)
    ensures GroupDimsOf([], maxs) == Some([])
  {
  }

  lemma FittingStays(dims: seq<nat>, maxs: seq<nat>)
    requires |maxs| == 3 && Fits(dims, maxs)
    ensures SplitDimsOf(dims, maxs) == Some(dims)
  {
  }

  /** In that case four indices come out for three dimensions. */
  lemma SqueezedGivesFourIndices(dims: seq<nat>, maxs: seq<nat>, raw: seq<nat>)
    requires Squeezed(dims, maxs) && AllAtLeast(dims, 2) && LimitOf(dims, Some(maxs)).Some?
    requires |raw| == 2
    ensures
      var limited := LimitOf(dims, Some(maxs)).value;
      && limited == [Prod(dims), 1] && Shape(dims, limited)
      && LogicalOf(dims, limited, raw).Some? && |LogicalOf(dims, limited, raw).value| == 4
  {
    SqueezedLimit(dims, maxs);
    SqueezedIndices(dims, raw);
    hide LimitOf, LogicalOf, Shape;
  }

  lemma SqueezedLimit(dims: seq<nat>, maxs: seq<nat>)
    requires Squeezed(dims, maxs) && AllAtLeast(dims, 2) && LimitOf(dims, Some(maxs)).Some?
    ensures LimitOf(dims, Some(maxs)).value == [Prod(dims), 1]
  {
    hide GroupDimsOf, Prod, SplitThree;
    UngroupedDoesNotFit(dims, maxs);
    SplitFacts(dims, maxs);
    SplitThreeFacts(dims, maxs);
    ProdOfPadded(LimitOf(dims, Some(maxs)).value);
  }

  lemma SqueezedIndices(dims: seq<nat>, raw: seq<nat>)
    requires |dims| == 3 && AllAtLeast(dims, 2) && |raw| == 2
    ensures Shape(dims, [Prod(dims), 1])
    ensures
      var r := LogicalOf(dims, [Prod(dims), 1], raw);
      r.Some? && |r.value| == 4
  {
    hide Contraction, Peel, Prod, PeelAll, FromFlat;
    WholeContraction(dims);
    ContractionShape(dims, [Prod(dims), 1]);
    TwoGroups(dims, raw);
  }

  /** All of the first index goes to the first group; the empty group hands on its index. */
  lemma TwoGroups(dims: seq<nat>, raw: seq<nat>)
    requires |dims| == 3 && AllAtLeast(dims, 2) && |raw| == 2
    ensures AllGroupsAtLeast([dims, []], 1) && |PeelAll([dims, []], raw)| == 4
  {
    var empty: seq<seq<nat>> := [[]];
    PeelAllCons(dims, empty, raw[0], [raw[1]]);
    assert [dims] + empty == [dims, []] && [raw[0]] + [raw[1]] == raw;
    assert empty[1..] == [] && PeelAll(empty, [raw[1]]) == [raw[1]];
  }

  lemma SplitPointsStep(accOld: seq<nat>, accNew: seq<nat>, split: seq<nat>, acc: nat, at: nat)
    requires SplitPoints(accOld, accNew) == Some(split) && acc != 1 && IndexOf(accOld, acc) == Some(at)
    ensures SplitPoints(accOld, accNew + [acc]) == Some(split + [at + 1])
  {
    var all := accNew + [acc];
    assert all[..|all| - 1] == accNew && all[|all| - 1] == acc;
  }

  lemma LastIndex(acc: seq<nat>, p: nat)
    requires |acc| == 3 && acc[0] < p && acc[1] < p && acc[2] == p
    ensures IndexOf(acc, p) == Some(2)
  {
    assert acc[1..][1..] == acc[2..];
    assert IndexOf(acc[2..], p) == Some(0);
    assert IndexOf(acc[1..], p) == Some(1);
  }

  lemma AccumulatePair(p: nat)
    ensures Accumulate([p, 1]) == [p, p]
  {
    ProdOne(p);
    assert [p, 1][..1] == [p] && [p, 1][..2] == [p, 1];
    assert [p, 1][..|[p, 1]| - 1] == [p];
  }

  /** get_contraction of three dimensions with (all, 1): one full and one empty group. */
  lemma WholeContraction(dims: seq<nat>)
    requires |dims| == 3 && AllAtLeast(dims, 2)
    ensures Contraction(dims, [Prod(dims), 1]) == Some([dims, []])
  {
    var p, acc := Prod(dims), Accumulate(dims);
    ProdGrows(dims);
    PrefixProductsIncrease(dims, 1, 3);
    PrefixProductsIncrease(dims, 2, 3);
    assert dims[..3] == dims;
    LastIndex(acc, p);
    AccumulatePair(p);
    hide Prod, Accumulate, IndexOf;
    WholeCut(acc, p);
    hide SplitPoints;
    WholeGroups(dims);
  }

  lemma WholeCut(acc: seq<nat>, p: nat)
    requires p != 1 && IndexOf(acc, p) == Some(2)
    ensures SplitPoints(acc, [p, p]) == Some([3, 3])
  {
    hide IndexOf;
    assert SplitPoints(acc, []) == Some([]);
    hide SplitPoints;
    SplitPointsStep(acc, [], [], p, 2);
    assert [] + [p] == [p] && [] + [3] == [3];
    SplitPointsStep(acc, [p], [3], p, 2);
    assert [p] + [p] == [p, p] && [3] + [3] == [3, 3];
  }

  lemma WholeGroups(dims: seq<nat>)
    requires |dims| == 3
    ensures GroupsAt(dims, [3, 3], 0) == [dims, []]
  {
    assert GroupsAt(dims, [3, 3], 2) == [];
    assert Slice(dims, 3, 3) == [];
    assert GroupsAt(dims, [3, 3], 1) == [Slice(dims, 3, 3)] + GroupsAt(dims, [3, 3], 2);
    assert Slice(dims, 0, 3) == dims;
  }

  // ---------------------------------------------------------------- the launch is a bijection

  /** The index computation raises: get_contraction found no grouping. */
  predicate Raises(dims: seq<nat>, limited: seq<nat>) {
    |limited| < |dims| && Contraction(dims, limited).None?
  }

  /** Hardware indices and logical indices correspond one to one. */
  ghost predicate IsBijection(dims: seq<nat>, limited: seq<nat>, f: seq<nat> --> Option<seq<nat>>) {
    && (forall raw :: InBox(limited, raw) ==> f.requires(raw) && f(raw).Some? && InBox(dims, f(raw).value))
    && (forall a, b :: InBox(limited, a) && InBox(limited, b) && f(a) == f(b) ==> a == b)
    && (forall idx :: InBox(dims, idx) ==> exists raw :: InBox(limited, raw) && f(raw) == Some(idx))
  }

  function Reversed<T>(s: seq<T>): (r: seq<T>)
    ensures |r| == |s|
  {
    seq(|s|, i requires 0 <= i < |s| => s[|s| - 1 - i])
  }

  function Ordered(dims: seq<nat>, reverse: bool): seq<nat> {
    if reverse then Reversed(dims) else dims
  }

  /** The logical indices of one hardware index, with the dimensions and the result turned round for `reverse`. */
  function IndicesOf(dims: seq<nat>, limited: seq<nat>, reverse: bool, raw: seq<nat>): Option<seq<nat>>
    requires Shape(Ordered(dims, reverse), limited) && |raw| == |limited|
  {
    match LogicalOf(Ordered(dims, reverse), limited, raw)
    case None => None
    case Some(idx) => Some(Ordered(idx, reverse))
  }

  function LaunchMap(dims: seq<nat>, limited: seq<nat>, reverse: bool): seq<nat> --> Option<seq<nat>>
    requires Shape(Ordered(dims, reverse), limited)
  {
    raw requires |raw| == |limited| => IndicesOf(dims, limited, reverse, raw)
  }

  lemma GoodGridIsBijective(dims: seq<nat>, limited: seq<nat>)
    requires GoodGrid(dims, limited)
    ensures IsBijection(dims, limited, LaunchMap(dims, limited, false))
  {
    hide LogicalOf, HardwareOf;
    ghost var f := LaunchMap(dims, limited, false);
    forall raw | InBox(limited, raw)
      ensures
        f(raw).Some? && InBox(dims, f(raw).value) &&
        (forall b :: InBox(limited, b) && f(raw) == f(b) ==> raw == b)
    {
      LogicalIsOneToOne(dims, limited, raw);
      forall b | InBox(limited, b) && f(raw) == f(b)
        ensures raw == b
      {
        LogicalIsOneToOne(dims, limited, b);
      }
    }
    forall idx | InBox(dims, idx)
      ensures exists raw :: InBox(limited, raw) && f(raw) == Some(idx)
    {
      var raw := SomeHardwareIndex(dims, limited, idx);
      assert f(raw) == Some(idx);
    }
  }

  lemma SomeHardwareIndex(dims: seq<nat>, limited: seq<nat>, idx: seq<nat>) returns (raw: seq<nat>)
    requires GoodGrid(dims, limited) && InBox(dims, idx)
    ensures InBox(limited, raw) && LogicalOf(dims, limited, raw) == Some(idx)
  {
    LogicalIsOnto(dims, limited, idx);
    raw := HardwareOf(dims, limited, idx);
  }

  lemma {:induction false} GroupedLength(dims: seq<nat>, maxs: seq<nat>)
    requires GroupDimsOf(dims, maxs).Some?
    ensures var g := GroupDimsOf(dims, maxs).value; |g| <= |maxs| && (g == dims || |g| < |dims|)
    decreases |dims|
  {
    if !(|dims| <= |maxs| && Fits(dims, maxs)) {
      FirstMergeFound(dims, maxs, 0);
      GroupedLength(Merge(dims, FirstMerge(dims, maxs, 0).value), maxs);
    }
  }

  /** Every accepted grid has one of the shapes the index computation distinguishes. */
  lemma LimitedHasShape(dims: seq<nat>, maxs: Option<seq<nat>>)
    requires maxs.Some? ==> |maxs.value| == 3
    requires AllAtLeast(dims, 1) && LimitOf(dims, maxs).Some?
    ensures Shape(dims, LimitOf(dims, maxs).value)
  {
    if maxs.Some? {
      var limits := maxs.value;
      if GroupDimsOf(dims, limits).Some? {
        GroupedLength(dims, limits);
      }
      if |dims| <= 3 && !Fits(dims, limits) && SplitDimsOf(dims, limits).Some? {
        assert dims != [];
        SplitFacts(dims, limits);
      }
    }
  }

  /** The first hardware index of a box. */
  function Origin(limited: seq<nat>): (raw: seq<nat>)
    ensures |raw| == |limited|
  {
    seq(|limited|, _ => 0)
  }

  ghost predicate IsSqueezed(dims: seq<nat>, maxs: Option<seq<nat>>) {
    maxs.Some? && Squeezed(dims, maxs.value)
  }

  /** A failing pair exists: (2, 2, 2) on hardware that takes (4, 1, 1) is launched as (8, 1). */
  lemma TwoCubedOnOneAxis()
    ensures
      var dims, maxs := [2, 2, 2], [4, 1, 1];
      Squeezed(dims, maxs) && LimitOf(dims, Some(maxs)) == Some([8, 1]) && !Fits([8, 1], maxs)
  {
    var dims: seq<nat>, maxs: seq<nat> := [2, 2, 2], [4, 1, 1];
    assert GroupDimsOf(dims, maxs).None? by {
      var merged := Merge(dims, 0);
      assert merged == [4, 2];
      assert CanMerge(dims, maxs, 0);
      assert merged[1] > maxs[1] && merged[0] * merged[1] == 8;
      NoMerge(merged, maxs);
      assert FirstMerge(dims, maxs, 0) == Some(0);
    }
    assert dims[1] > maxs[1];
    assert SplitThree(2, 2, 2, maxs) == Some([8, 1, 1]) by {
      assert DivisorFrom(2, 2) == 2 && DivisorFrom(4, 2) == 2;
      assert SplitAxis(1, 1) == Axis(1, 1);
      assert SplitAxis(2, 1) == Axis(1, 2);
      assert SplitAxis(4 / 2, 1) == Axis(1, 2);
      assert SplitAxis(4, 1) == Axis(1, 4);
      assert SplitAxis(2, 4) == Axis(2, 1);
    }
    assert [8, 1, 1][..2] == [8, 1];
    assert [8, 1][0] > maxs[0];
  }

  lemma NoMerge(dims: seq<nat>, maxs: seq<nat>)
    requires |maxs| == 3 && !Fits(dims, maxs) && forall i :: 0 <= i < 3 ==> !CanMerge(dims, maxs, i)
    ensures GroupDimsOf(dims, maxs).None?
  {
    assert FirstMerge(dims, maxs, 3).None?;
    assert FirstMerge(dims, maxs, 2).None?;
    assert FirstMerge(dims, maxs, 1).None?;
    assert FirstMerge(dims, maxs, 0).None?;
  }

  /**
    Merged grids respect every limit; split grids respect the limits of axes 1 and 2, and of axis 0 when nothing
    wraps around from axis 2.
   */
  lemma LimitsRespected(dims: seq<nat>, maxs: seq<nat>)
    requires |maxs| == 3 && AllAtLeast(dims, 2) && LimitOf(dims, Some(maxs)).Some?
    ensures
      var limited := LimitOf(dims, Some(maxs)).value;
      && |limited| <= 3 && Prod(limited) == Prod(dims)
      && (GroupDimsOf(dims, maxs).Some? || AtLastAxis(dims, maxs) <= maxs[2] ==>
        forall i :: 0 <= i < |limited| ==> limited[i] <= maxs[i])
      && (forall i :: 1 <= i < |limited| ==> limited[i] <= maxs[i])
  {
    hide GroupDimsOf, SplitDimsOf, Prod, AtLastAxis;
    NothingToMerge(maxs);
    if |dims| <= 3 && Fits(dims, maxs) {
      UngroupedDoesNotFit(dims, maxs);
      FittingStays(dims, maxs);
    } else if GroupDimsOf(dims, maxs).Some? {
      GroupedFacts(dims, maxs);
    } else {
      SplitFacts(dims, maxs);
    }
  }

  // ---------------------------------------------------------------- the methods, and reverse

  /** The inner loop: all but the last index of a group are remainders. */
  method AppendGroup(ret0: seq<nat>, group: seq<nat>, idx0: nat) returns (ret: seq<nat>)
    requires AllAtLeast(group, 1)
    ensures ret == ret0 + GroupIndices(group, idx0)
  {
    ret := ret0;
    var idx := idx0;
    var last := if group == [] then 0 else |group| - 1;
    for c := 0 to last
      invariant ret0 + GroupIndices(group, idx0) == ret + GroupIndices(group[c..], idx)
    {
      assert group[c..][1..] == group[c + 1..];
      ret, idx := ret + [idx % group[c]], idx / group[c];
    }
    ret := ret + [idx];
  }

  lemma PeelAllStep(groups: seq<seq<nat>>, raw: seq<nat>, g: nat)
    requires AllGroupsAtLeast(groups, 1) && |raw| == |groups| && g < |groups|
    ensures AllAtLeast(groups[g], 1) && AllGroupsAtLeast(groups[g..], 1) && AllGroupsAtLeast(groups[g + 1..], 1)
    ensures PeelAll(groups[g..], raw[g..]) == GroupIndices(groups[g], raw[g]) + PeelAll(groups[g + 1..], raw[g + 1..])
  {
    assert groups[g..][1..] == groups[g + 1..] && raw[g..][1..] == raw[g + 1..];
  }

  /** The loop over zip(raw_idxs, contraction). */
  method GroupedIndices(groups: seq<seq<nat>>, raw: seq<nat>) returns (ret: seq<nat>)
    requires AllGroupsAtLeast(groups, 1) && |raw| == |groups|
    ensures ret == PeelAll(groups, raw)
  {
    hide PeelAll, GroupIndices, AllGroupsAtLeast, AllAtLeast;
    ret := [];
    assert groups[0..] == groups && raw[0..] == raw;
    for g := 0 to |groups|
      invariant AllGroupsAtLeast(groups[g..], 1) && ret + PeelAll(groups[g..], raw[g..]) == PeelAll(groups, raw)
    {
      PeelAllStep(groups, raw, g);
      ret := AppendGroup(ret, groups[g], raw[g]);
    }
    NoGroups();
  }

  lemma NoGroups()
    ensures AllGroupsAtLeast([], 1) && PeelAll([], []) == []
  {
  }

  /** The two and the three dimensional case. */
  method IndicesFromFlat(dims: seq<nat>, flat: nat) returns (ret: seq<nat>)
    requires 2 <= |dims| <= 3 && AllAtLeast(dims, 1)
    ensures ret == FromFlat(dims, flat)
  {
    if |dims| == 2 {
      return [flat / dims[1], flat % dims[1]];
    }
    return [flat / Plane(dims[2], dims[1]), flat / dims[2] % dims[1], flat % dims[2]];
  }

  method LogicalIndices(dims: seq<nat>, limited: seq<nat>, raw: seq<nat>) returns (r: Option<seq<nat>>)
    requires Shape(dims, limited) && |raw| == |limited|
    ensures r == LogicalOf(dims, limited, raw)
  {
    hide Contraction, PeelAll, Prod, FromFlat;
    if |limited| < |dims| {
      var contraction := Contraction(dims, limited);
      if contraction.None? {
        return None;
      }
      ContractionShape(dims, limited);
      var ret := GroupedIndices(contraction.value, raw);
      return Some(ret);
    }
    if |limited| > |dims| {
      if |limited| == 2 && |dims| == 1 {
        return Some([raw[0] * limited[1] + raw[1]]);
      }
      if |limited| == 3 && |dims| == 1 {
        return Some([(raw[0] * limited[1] + raw[1]) * limited[2] + raw[2]]);
      }
    }
    if limited != dims {
      var ret := IndicesFromFlat(dims, FlatPosition(limited, raw));
      return Some(ret);
    }
    return Some(raw);
  }

  /** The launch grid and the logical indices at hardware index values hw; None for any RuntimeError. */
  function GroupedOf(dims: seq<nat>, maxs: Option<seq<nat>>, reverse: bool, hw: nat -> nat): Option<seq<nat>>
    requires AllAtLeast(dims, 1) && (maxs.Some? ==> |maxs.value| == 3)
  {
    match LimitOf(Ordered(dims, reverse), maxs)
    case None => None
    case Some(limited) =>
      LimitedHasShape(Ordered(dims, reverse), maxs);
      IndicesOf(dims, limited, reverse, seq(|limited|, i requires 0 <= i < |limited| => hw(i)))
  }

  method GetGroupedDims(dims: seq<nat>, maxs: Option<seq<nat>>, reverse: bool, hw: nat -> nat)
    returns (r: Option<seq<nat>>)
    requires AllAtLeast(dims, 1) && (maxs.Some? ==> |maxs.value| == 3)
    ensures r == GroupedOf(dims, maxs, reverse, hw)
    decreases reverse
  {
    if reverse {
      var inner := GetGroupedDims(Reversed(dims), maxs, false, hw);
      return match inner case None => None case Some(idx) => Some(Reversed(idx));
    }
    var limited := dims;
    if maxs.Some? {
      var grouped := GroupDims(dims, maxs.value);
      if grouped.Some? && grouped.value != [] {
        limited := grouped.value;
      }
      if |limited| > |maxs.value| {
        return None;
      }
      if limited == dims {
        var split := SplitDims(dims, maxs.value);
        if split.None? {
          return None;
        }
        limited := split.value;
      }
    }
    LimitedHasShape(dims, maxs);
    r := LogicalIndices(dims, limited, seq(|limited|, i requires 0 <= i < |limited| => hw(i)));
  }

  lemma ReversedTwice<T>(s: seq<T>)
    ensures Reversed(Reversed(s)) == s
  {
  }

  lemma ReversedInBox(dims: seq<nat>, idx: seq<nat>)
    ensures InBox(Reversed(dims), idx) <==> InBox(dims, Reversed(idx))
  {
    var n := |dims|;
    if |idx| == n {
      if InBox(Reversed(dims), idx) {
        forall i | 0 <= i < n ensures Reversed(idx)[i] < dims[i] {
          assert idx[n - 1 - i] < Reversed(dims)[n - 1 - i];
        }
      }
      if InBox(dims, Reversed(idx)) {
        forall i | 0 <= i < n ensures idx[i] < Reversed(dims)[i] {
          assert Reversed(idx)[n - 1 - i] < dims[n - 1 - i];
        }
      }
    }
  }

  lemma ReverseMapAt(dims: seq<nat>, limited: seq<nat>, raw: seq<nat>)
    requires Shape(Reversed(dims), limited) && |raw| == |limited|
    ensures
      var f, g := IndicesOf(Reversed(dims), limited, false, raw), IndicesOf(dims, limited, true, raw);
      f.Some? == g.Some? && (f.Some? ==> g.value == Reversed(f.value) && f.value == Reversed(g.value))
  {
    hide LogicalOf;
    var f := IndicesOf(Reversed(dims), limited, false, raw);
    if f.Some? {
      ReversedTwice(f.value);
    }
  }

  lemma ReverseKeepsBijection(dims: seq<nat>, limited: seq<nat>)
    requires Shape(Reversed(dims), limited)
    requires IsBijection(Reversed(dims), limited, LaunchMap(Reversed(dims), limited, false))
    ensures IsBijection(dims, limited, LaunchMap(dims, limited, true))
  {
    hide IndicesOf, Reversed, Shape;
    ghost var f, g := LaunchMap(Reversed(dims), limited, false), LaunchMap(dims, limited, true);
    forall raw | InBox(limited, raw)
      ensures g(raw).Some? && InBox(dims, g(raw).value)
      ensures f(raw).Some? && f(raw).value == Reversed(g(raw).value)
    {
      ReverseMapAt(dims, limited, raw);
      ReversedInBox(dims, f(raw).value);
    }
    forall idx: seq<nat> | InBox(dims, idx)
      ensures exists raw :: InBox(limited, raw) && g(raw) == Some(idx)
    {
      ReversedTwice(idx);
      ReversedInBox(dims, Reversed(idx));
      var raw :| InBox(limited, raw) && f(raw) == Some(Reversed(idx));
      ReverseMapAt(dims, limited, raw);
      assert g(raw) == Some(idx);
    }
  }

  lemma SqueezedIsNoBijection(dims: seq<nat>, maxs: seq<nat>, reverse: bool)
    requires |maxs| == 3 && AllAtLeast(dims, 2) && AllAtLeast(Ordered(dims, reverse), 2)
    requires Squeezed(Ordered(dims, reverse), maxs) && LimitOf(Ordered(dims, reverse), Some(maxs)).Some?
    ensures Shape(Ordered(dims, reverse), LimitOf(Ordered(dims, reverse), Some(maxs)).value)
    ensures
      var limited := LimitOf(Ordered(dims, reverse), Some(maxs)).value;
      !IsBijection(dims, limited, LaunchMap(dims, limited, reverse))
  {
    var ordered := Ordered(dims, reverse);
    var raw := Origin([0, 0]);
    SqueezedGivesFourIndices(ordered, maxs, raw);
    ProdGrows(ordered);
    hide LogicalOf, Prod, LimitOf, Shape;
    var limited := [Prod(ordered), 1];
    assert InBox(limited, raw);
    assert !InBox(dims, LaunchMap(dims, limited, reverse)(raw).value);
  }

  /**
    Whenever nothing is raised, the launch visits every logical index exactly once -- unless three unmergeable
    dimensions meet hardware with only one usable axis, and then it never does.
   */
  lemma LaunchIsBijective(dims: seq<nat>, maxs: Option<seq<nat>>, reverse: bool)
    requires maxs.Some? ==> |maxs.value| == 3
    requires AllAtLeast(dims, 2)
    requires
      var ordered := Ordered(dims, reverse);
      LimitOf(ordered, maxs).Some? && !Raises(ordered, LimitOf(ordered, maxs).value)
    ensures Shape(Ordered(dims, reverse), LimitOf(Ordered(dims, reverse), maxs).value)
    ensures
      var limited := LimitOf(Ordered(dims, reverse), maxs).value;
      IsBijection(dims, limited, LaunchMap(dims, limited, reverse)) <==> !IsSqueezed(Ordered(dims, reverse), maxs)
  {
    var ordered := Ordered(dims, reverse);
    LimitedHasShape(ordered, maxs);
    var limited := LimitOf(ordered, maxs).value;
    if IsSqueezed(ordered, maxs) {
      hide LogicalOf, LimitOf, Shape, IsBijection;
      SqueezedIsNoBijection(dims, maxs.value, reverse);
    } else {
      if maxs.Some? {
        LimitedIsGood(ordered, maxs.value);
      }
      GoodGridIsBijective(ordered, limited);
      if reverse {
        ReverseKeepsBijection(dims, limited);
      }
    }
  }
}
