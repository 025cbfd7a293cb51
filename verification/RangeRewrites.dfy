/**
  Rewrites of loop ranges (`tinygrad/codegen/simplify.py`): merging two ranges, splitting one, and shrinking ranges
  that every access guards.

  Merging and splitting leave the sequence of iterations as it is. Shrinking keeps the accesses exactly when no
  range that only a condition mentions is shrunk (`ShrinkPreservesIff`).
 */
module RangeRewrites {
  import opened IndexMath

  // ---------------------------------------------------------------- what a loop does

  /** The trace of a loop: the traces of its iterations one after the other. */
  function Loop<T>(n: nat, body: nat -> seq<T>): seq<T> {
    if n == 0 then [] else Loop(n - 1, body) + body(n - 1)
  }

  lemma {:induction false} LoopCongruent<T>(n: nat, f: nat -> seq<T>, g: nat -> seq<T>)
    requires forall i: nat :: i < n ==> f(i) == g(i)
    ensures Loop(n, f) == Loop(n, g)
  {
    if n > 0 {
      LoopCongruent(n - 1, f, g);
    }
  }

  function From<T>(start: nat, body: nat -> seq<T>): nat -> seq<T> { (i: nat) => body(start + i) }

  lemma {:induction false} LoopSplit<T>(a: nat, b: nat, body: nat -> seq<T>)
    ensures Loop(a + b, body) == Loop(a, body) + Loop(b, From(a, body))
  {
    if b > 0 {
      LoopSplit(a, b - 1, body);
    }
  }

  function Tile<T>(v: nat, body: nat -> seq<T>): nat -> seq<T> { (hi: nat) => Loop(v, Within(hi, v, body)) }

  function Within<T>(hi: nat, v: nat, body: nat -> seq<T>): nat -> seq<T> { (lo: nat) => body(hi * v + lo) }

  lemma {:induction false} TilesAreLoop<T>(tiles: nat, v: nat, body: nat -> seq<T>)
    ensures Loop(tiles, Tile(v, body)) == Loop(tiles * v, body)
  {
    if tiles > 0 {
      TilesAreLoop(tiles - 1, v, body);
      assert tiles * v == (tiles - 1) * v + v;
      LoopSplit((tiles - 1) * v, v, body);
      LoopCongruent(v, From((tiles - 1) * v, body), Within(tiles - 1, v, body));
    }
  }

  /** Splitting a range of size n by a divisor v: two nested ranges with index hi * v + lo run the same iterations. */
  lemma SplitKeepsTrace<T>(n: nat, v: nat, body: nat -> seq<T>)
    requires v > 0 && n % v == 0
    ensures Loop(n / v, Tile(v, body)) == Loop(n, body)
  {
    DivModOf(n, v);
    assert n / v * v == v * (n / v);
    TilesAreLoop(n / v, v, body);
  }

  function Inner<T>(i: nat, s1: nat, body: (nat, nat) -> seq<T>): seq<T> { Loop(s1, (j: nat) => body(i, j)) }

  function Row<T>(s1: nat, body: (nat, nat) -> seq<T>): nat -> seq<T> { (i: nat) => Inner(i, s1, body) }

  function Nested<T>(s0: nat, s1: nat, body: (nat, nat) -> seq<T>): seq<T> { Loop(s0, Row(s1, body)) }

  /** The body of the merged loop: the old indices are quotient and remainder of the new one. */
  function Merged<T>(s1: nat, body: (nat, nat) -> seq<T>): nat -> seq<T> {
    (n: nat) => if s1 == 0 then [] else body(n / s1, n % s1)
  }

  /** Merging two nested ranges into one of size s0 * s1 runs the same iterations in the same order. */
  lemma MergeKeepsTrace<T>(s0: nat, s1: nat, body: (nat, nat) -> seq<T>)
    ensures Loop(s0 * s1, Merged(s1, body)) == Nested(s0, s1, body)
  {
    TilesAreLoop(s0, s1, Merged(s1, body));
    forall i: nat | i < s0
      ensures Tile(s1, Merged(s1, body))(i) == Inner(i, s1, body)
    {
      forall j: nat | j < s1
        ensures Within(i, s1, Merged(s1, body))(j) == body(i, j)
      {
        assert i * s1 == s1 * i;
        DivModUnique(i * s1 + j, s1, i, j);
      }
      LoopCongruent(s1, Within(i, s1, Merged(s1, body)), (j: nat) => body(i, j));
    }
    LoopCongruent(s0, Tile(s1, Merged(s1, body)), Row(s1, body));
  }

  function Flipped<T>(body: (nat, nat) -> seq<T>): (nat, nat) -> seq<T> { (j: nat, i: nat) => body(i, j) }

  lemma {:induction false} LoopOfTwo<T>(n: nat, f: nat -> seq<T>, g: nat -> seq<T>, h: nat -> seq<T>)
    requires forall k: nat :: k < n ==> h(k) == f(k) + g(k)
    ensures multiset(Loop(n, h)) == multiset(Loop(n, f)) + multiset(Loop(n, g))
  {
    if n > 0 {
      LoopOfTwo(n - 1, f, g, h);
    }
  }

  /** Interchanged loops run the same iterations, in another order. */
  lemma {:induction false} InterchangeKeepsIterations<T>(s0: nat, s1: nat, body: (nat, nat) -> seq<T>)
    ensures multiset(Nested(s1, s0, Flipped(body))) == multiset(Nested(s0, s1, body))
  {
    if s0 == 0 {
      NothingLoops(s1, Row(0, Flipped(body)));
    } else {
      InterchangeKeepsIterations(s0 - 1, s1, body);
      var last := (j: nat) => body(s0 - 1, j);
      forall j: nat | j < s1
        ensures Row(s0, Flipped(body))(j) == Row(s0 - 1, Flipped(body))(j) + last(j)
      {
        LastOfColumn(s0, body, j);
      }
      LoopOfTwo(s1, Row(s0 - 1, Flipped(body)), last, Row(s0, Flipped(body)));
      LoopCongruent(s1, last, (j: nat) => body(s0 - 1, j));
    }
  }

  lemma LastOfColumn<T>(s0: nat, body: (nat, nat) -> seq<T>, j: nat)
    requires s0 > 0
    ensures Inner(j, s0, Flipped(body)) == Inner(j, s0 - 1, Flipped(body)) + body(s0 - 1, j)
  {
    LoopCongruent(s0 - 1, (i: nat) => Flipped(body)(j, i), (i: nat) => Flipped(body)(j, i));
  }

  lemma {:induction false} NothingLoops<T>(n: nat, body: nat -> seq<T>)
    requires forall i: nat :: i < n ==> body(i) == []
    ensures Loop(n, body) == []
  {
    if n > 0 {
      NothingLoops(n - 1, body);
    }
  }

  // ---------------------------------------------------------------- two of many ranges

  /** Loops over all the ranges, the first outermost; the body gets the list of their values. */
  function NestOf<T>(sizes: seq<nat>, body: seq<nat> -> seq<T>): seq<T>
    decreases |sizes|, 0
  {
    if sizes == [] then body([]) else Loop(sizes[0], Under(sizes[1..], body))
  }

  function Under<T>(rest: seq<nat>, body: seq<nat> -> seq<T>): nat -> seq<T>
    decreases |rest|, 1
  {
    (i: nat) => NestOf(rest, At(i, body))
  }

  function At<T>(i: nat, body: seq<nat> -> seq<T>): seq<nat> -> seq<T> { (idx: seq<nat>) => body([i] + idx) }

  lemma {:induction false} NestCongruent<T>(sizes: seq<nat>, f: seq<nat> -> seq<T>, g: seq<nat> -> seq<T>)
    requires forall idx: seq<nat> :: |idx| == |sizes| ==> f(idx) == g(idx)
    ensures NestOf(sizes, f) == NestOf(sizes, g)
    decreases |sizes|
  {
    if sizes != [] {
      forall i: nat | i < sizes[0] ensures Under(sizes[1..], f)(i) == Under(sizes[1..], g)(i) {
        NestCongruent(sizes[1..], At(i, f), At(i, g));
      }
      LoopCongruent(sizes[0], Under(sizes[1..], f), Under(sizes[1..], g));
    }
  }

  lemma {:induction false} LoopPermuted<T>(n: nat, f: nat -> seq<T>, g: nat -> seq<T>)
    requires forall i: nat :: i < n ==> multiset(f(i)) == multiset(g(i))
    ensures multiset(Loop(n, f)) == multiset(Loop(n, g))
  {
    if n > 0 {
      LoopPermuted(n - 1, f, g);
    }
  }

  /** The ranges with number p moved to the front. */
  function ToFront(sizes: seq<nat>, p: nat): seq<nat>
    requires p < |sizes|
  {
    [sizes[p]] + (sizes[..p] + sizes[p + 1..])
  }

  /** The values in the old order, from those with number p in front. */
  function FromFront(idx: seq<nat>, p: nat): seq<nat> {
    if p < |idx| then idx[1..p + 1] + [idx[0]] + idx[p + 1..] else idx
  }

  function Reordered<T>(p: nat, body: seq<nat> -> seq<T>): seq<nat> -> seq<T> {
    (idx: seq<nat>) => body(FromFront(idx, p))
  }

  /** The two outermost loops, as a function of their two values. */
  function TwoOuter<T>(rest: seq<nat>, body: seq<nat> -> seq<T>): (nat, nat) -> seq<T> {
    (i: nat, j: nat) => NestOf(rest, At(j, At(i, body)))
  }

  lemma NestOfTwo<T>(s0: nat, s1: nat, rest: seq<nat>, body: seq<nat> -> seq<T>)
    ensures NestOf([s0, s1] + rest, body) == Nested(s0, s1, TwoOuter(rest, body))
  {
    assert ([s0, s1] + rest)[1..] == [s1] + rest && ([s1] + rest)[1..] == rest;
    forall i: nat | i < s0
      ensures Under([s1] + rest, body)(i) == Row(s1, TwoOuter(rest, body))(i)
    {
      forall j: nat | j < s1 ensures Under(rest, At(i, body))(j) == TwoOuter(rest, body)(i, j) {
      }
      LoopCongruent(s1, Under(rest, At(i, body)), (j: nat) => TwoOuter(rest, body)(i, j));
    }
    LoopCongruent(s0, Under([s1] + rest, body), Row(s1, TwoOuter(rest, body)));
  }

  lemma FrontOfTail(sizes: seq<nat>, p: nat)
    requires 0 < p < |sizes|
    ensures
      var rest := sizes[1..p] + sizes[p + 1..];
      ToFront(sizes, p) == [sizes[p], sizes[0]] + rest && ToFront(sizes[1..], p - 1) == [sizes[p]] + rest
  {
    assert sizes[..p] == [sizes[0]] + sizes[1..p];
    assert sizes[1..][..p - 1] == sizes[1..p] && sizes[1..][p..] == sizes[p + 1..];
  }

  lemma SameOrder(i: nat, j: nat, idx: seq<nat>, p: nat)
    requires 0 < p <= |idx| + 1
    ensures FromFront([j] + ([i] + idx), p) == [i] + FromFront([j] + idx, p - 1)
  {
    var s, t := [j] + ([i] + idx), [j] + idx;
    assert s[1..p + 1] == [i] + idx[..p - 1] && s[p + 1..] == idx[p - 1..];
    assert t[1..p] == idx[..p - 1] && t[p..] == idx[p - 1..];
    assert FromFront(s, p) == [i] + (idx[..p - 1] + [j] + idx[p - 1..]);
  }

  /** Moving a range to the front runs the same iterations. */
  lemma {:induction false} FrontKeepsIterations<T>(sizes: seq<nat>, p: nat, body: seq<nat> -> seq<T>)
    requires p < |sizes|
    ensures multiset(NestOf(ToFront(sizes, p), Reordered(p, body))) == multiset(NestOf(sizes, body))
    decreases p
  {
    hide NestOf, ToFront;
    if p == 0 {
      assert ToFront(sizes, 0) == sizes by { FrontOfNone(sizes); }
      forall idx: seq<nat> | |idx| == |sizes| ensures Reordered(0, body)(idx) == body(idx) {
        assert FromFront(idx, 0) == idx;
      }
      NestCongruent(sizes, Reordered(0, body), body);
    } else {
      var s0, sp, rest := sizes[0], sizes[p], sizes[1..p] + sizes[p + 1..];
      FrontOfTail(sizes, p);
      var x := TwoOuter(rest, Reordered(p, body));
      NestOfTwo(sp, s0, rest, Reordered(p, body));
      forall i: nat | i < s0
        ensures multiset(Under(sizes[1..], body)(i)) == multiset(Row(sp, Flipped(x))(i))
      {
        FrontKeepsIterations(sizes[1..], p - 1, At(i, body));
        TailIsRow(sp, rest, p, body, i);
      }
      LoopPermuted(s0, Under(sizes[1..], body), Row(sp, Flipped(x)));
      InterchangeKeepsIterations(sp, s0, x);
      NestFirst(sizes, body);
    }
  }

  lemma FrontOfNone(sizes: seq<nat>)
    requires sizes != []
    ensures ToFront(sizes, 0) == sizes
  {
  }

  lemma NestFirst<T>(sizes: seq<nat>, body: seq<nat> -> seq<T>)
    requires sizes != []
    ensures NestOf(sizes, body) == Loop(sizes[0], Under(sizes[1..], body))
  {
  }

  lemma TailIsRow<T>(sp: nat, rest: seq<nat>, p: nat, body: seq<nat> -> seq<T>, i: nat)
    requires 0 < p <= |rest| + 1
    ensures NestOf([sp] + rest, Reordered(p - 1, At(i, body))) ==
      Row(sp, Flipped(TwoOuter(rest, Reordered(p, body))))(i)
  {
    var inner := Reordered(p - 1, At(i, body));
    var x := TwoOuter(rest, Reordered(p, body));
    assert ([sp] + rest)[1..] == rest;
    forall j: nat | j < sp
      ensures Under(rest, inner)(j) == Flipped(x)(i, j)
    {
      forall idx: seq<nat> | |idx| == |rest|
        ensures At(j, inner)(idx) == At(i, At(j, Reordered(p, body)))(idx)
      {
        SameOrder(i, j, idx, p);
      }
      NestCongruent(rest, At(j, inner), At(i, At(j, Reordered(p, body))));
    }
    LoopCongruent(sp, Under(rest, inner), (j: nat) => Flipped(x)(i, j));
  }

  /** The body after the two outermost ranges have been merged, the second of size s1. */
  function Unmerged<T>(s1: nat, body: seq<nat> -> seq<T>): seq<nat> -> seq<T> {
    (idx: seq<nat>) => if idx == [] || s1 == 0 then [] else body([idx[0] / s1, idx[0] % s1] + idx[1..])
  }

  lemma MergeFirstTwo<T>(s0: nat, s1: nat, rest: seq<nat>, body: seq<nat> -> seq<T>)
    ensures NestOf([s0 * s1] + rest, Unmerged(s1, body)) == NestOf([s0, s1] + rest, body)
  {
    NestOfTwo(s0, s1, rest, body);
    MergeKeepsTrace(s0, s1, TwoOuter(rest, body));
    hide Loop, Nested, Merged, Under, Unmerged, TwoOuter;
    assert ([s0 * s1] + rest)[1..] == rest;
    forall n: nat | n < s0 * s1
      ensures Under(rest, Unmerged(s1, body))(n) == Merged(s1, TwoOuter(rest, body))(n)
    {
      assert s1 > 0;
      MergedBody(s1, rest, body, n);
    }
    LoopCongruent(s0 * s1, Under(rest, Unmerged(s1, body)), Merged(s1, TwoOuter(rest, body)));
  }

  lemma MergedBody<T>(s1: nat, rest: seq<nat>, body: seq<nat> -> seq<T>, n: nat)
    requires s1 > 0
    ensures Under(rest, Unmerged(s1, body))(n) == Merged(s1, TwoOuter(rest, body))(n)
  {
    hide NestOf;
    var q, r := n / s1, n % s1;
    forall idx: seq<nat> | |idx| == |rest|
      ensures At(n, Unmerged(s1, body))(idx) == At(r, At(q, body))(idx)
    {
      assert [q] + ([r] + idx) == [q, r] + idx;
      assert ([n] + idx)[1..] == idx;
    }
    NestCongruent(rest, At(n, Unmerged(s1, body)), At(r, At(q, body)));
  }

  /** Number of range a once range b has been moved to the front. */
  function Behind(a: nat, b: nat): nat { if a < b then a + 1 else a }

  /** The ranges with numbers a and b in front, in this order. */
  function PairInFront(sizes: seq<nat>, a: nat, b: nat): seq<nat>
    requires a < |sizes| && b < |sizes| && a != b
  {
    ToFront(ToFront(sizes, b), Behind(a, b))
  }

  lemma PairFirst(sizes: seq<nat>, a: nat, b: nat)
    requires a < |sizes| && b < |sizes| && a != b
    ensures
      var s := PairInFront(sizes, a, b);
      |s| == |sizes| && s[0] == sizes[a] && s[1] == sizes[b] && s == [s[0], s[1]] + s[2..]
  {
  }

  /** The body gets the quotient as the value of range a and the remainder as that of range b. */
  lemma ValuesAfterMerge(a: nat, b: nat, q: nat, r: nat, others: seq<nat>)
    requires a < |others| + 2 && b < |others| + 2 && a != b
    ensures
      var values := FromFront(FromFront([q, r] + others, Behind(a, b)), b);
      && |values| == |others| + 2 && values[a] == q && values[b] == r
      && multiset(values) == multiset(others) + multiset{q, r}
  {
    hide FromFront;
    var once := FromFront([q, r] + others, Behind(a, b));
    FrontValues([q, r] + others, Behind(a, b));
    FrontAt([q, r] + others, Behind(a, b));
    FrontValues(once, b);
    FrontAt(once, b);
    assert multiset([q, r] + others) == multiset(others) + multiset{q, r};
  }

  lemma FrontValues(idx: seq<nat>, p: nat)
    requires p < |idx|
    ensures multiset(FromFront(idx, p)) == multiset(idx)
  {
    assert idx == [idx[0]] + idx[1..p + 1] + idx[p + 1..];
  }

  lemma FrontAt(idx: seq<nat>, p: nat)
    requires p < |idx|
    ensures |FromFront(idx, p)| == |idx| && FromFront(idx, p)[p] == idx[0]
    ensures forall k :: 0 <= k < p ==> FromFront(idx, p)[k] == idx[k + 1]
    ensures forall k :: p < k < |idx| ==> FromFront(idx, p)[k] == idx[k]
  {
  }

  /**
    In a reduction any two ranges, wherever they stand, may be merged in either order into one range of the size
    s_a * s_b whose quotient and remainder they are: every combination of values still occurs once.
   */
  lemma MergeInEitherOrder<T>(sizes: seq<nat>, a: nat, b: nat, body: seq<nat> -> seq<T>)
    requires a < |sizes| && b < |sizes| && a != b
    ensures
      var rest := PairInFront(sizes, a, b)[2..];
      var body' := Unmerged(sizes[b], Reordered(Behind(a, b), Reordered(b, body)));
      multiset(NestOf([sizes[a] * sizes[b]] + rest, body')) == multiset(NestOf(sizes, body))
  {
    hide NestOf;
    PairFirst(sizes, a, b);
    FrontKeepsIterations(sizes, b, body);
    FrontKeepsIterations(ToFront(sizes, b), Behind(a, b), Reordered(b, body));
    MergeFirstTwo(
      sizes[a], sizes[b], PairInFront(sizes, a, b)[2..], Reordered(Behind(a, b), Reordered(b, body)));
  }

  // ---------------------------------------------------------------- marking guarded ranges

  type Range = nat

  /**
    An indexed access: the ranges its position depends on, the guards "r < c" of its condition, and all ranges of
    its condition; or the ranges of a reduction.
   */
  datatype Item =
    | Access(position: set<Range>, guards: map<Range, nat>, condition: set<Range>)
    | Reduction(ranges: set<Range>)

  type Sizes = Range -> nat

  type Marks = map<Range, nat>

  /** ctx after one item: the larger guard wins, and a range without a guard gets its full size. */
  function Mark(sizes: Sizes, ctx: Marks, item: Item): Marks {
    match item
    case Access(position, guards, _) =>
      var guarded := ctx + (map r | r in guards && (r !in ctx || ctx[r] < guards[r]) :: guards[r]);
      guarded + (map r | r in position && r !in guards :: sizes(r))
    case Reduction(ranges) => ctx + (map r | r in ranges :: sizes(r))
  }

  function MarksOf(sizes: Sizes, items: seq<Item>): Marks {
    if items == [] then map[] else Mark(sizes, MarksOf(sizes, items[..|items| - 1]), items[|items| - 1])
  }

  method MarkRanges(sizes: Sizes, items: seq<Item>) returns (ctx: Marks)
    ensures ctx == MarksOf(sizes, items)
  {
    ctx := map[];
    for i := 0 to |items|
      invariant ctx == MarksOf(sizes, items[..i])
    {
      assert items[..i + 1][..i] == items[..i];
      match items[i] {
        case Access(position, guards, _) =>
          ctx := ctx + (map r | r in guards && (r !in ctx || ctx[r] < guards[r]) :: guards[r]);
          ctx := ctx + (map r | r in position && r !in guards :: sizes(r));
        case Reduction(ranges) =>
          ctx := ctx + (map r | r in ranges :: sizes(r));
      }
    }
    assert items[..|items|] == items;
  }

  function NewSize(sizes: Sizes, ctx: Marks, r: Range): nat { if r in ctx then ctx[r] else sizes(r) }

  /** Guards are those of the condition and neither empty nor vacuous: others are simplified away beforehand. */
  ghost predicate GuardsFine(sizes: Sizes, a: Item) {
    a.Access? ==> forall r :: r in a.guards ==> 1 <= a.guards[r] <= sizes(r) && r in a.condition
  }

  ghost predicate WellFormed(sizes: Sizes, items: seq<Item>) {
    (forall r :: sizes(r) >= 1) && forall a :: a in items ==> GuardsFine(sizes, a)
  }

  /** What the marks guarantee about one item. */
  ghost predicate Respects(sizes: Sizes, ctx: Marks, item: Item) {
    match item
    case Access(position, guards, _) =>
      && (forall r :: r in guards ==> r in ctx && guards[r] <= ctx[r])
      && (forall r :: r in position && r !in guards ==> r in ctx && ctx[r] == sizes(r))
    case Reduction(ranges) => forall r :: r in ranges ==> r in ctx && ctx[r] == sizes(r)
  }

  ghost predicate InBounds(sizes: Sizes, ctx: Marks) { forall r :: r in ctx ==> 1 <= ctx[r] <= sizes(r) }

  /** Marks only grow, up to the size of the range. */
  ghost predicate Grows(before: Marks, after: Marks) { forall r :: r in before ==> r in after && before[r] <= after[r] }

  lemma MarkGrows(sizes: Sizes, ctx: Marks, item: Item)
    requires (forall r :: sizes(r) >= 1) && GuardsFine(sizes, item) && InBounds(sizes, ctx)
    ensures var next := Mark(sizes, ctx, item); InBounds(sizes, next) && Grows(ctx, next) && Respects(sizes, next, item)
  {
    assert GuardsFine(sizes, item);
  }

  lemma RespectGrows(sizes: Sizes, ctx: Marks, next: Marks, item: Item)
    requires Respects(sizes, ctx, item) && Grows(ctx, next) && InBounds(sizes, next)
    ensures Respects(sizes, next, item)
  {
  }

  /** The final marks respect every item; in particular a reduction keeps its ranges. */
  lemma {:induction false} MarksRespectAll(sizes: Sizes, items: seq<Item>)
    requires WellFormed(sizes, items)
    ensures InBounds(sizes, MarksOf(sizes, items)) &&
      forall a :: a in items ==> Respects(sizes, MarksOf(sizes, items), a)
  {
    if items != [] {
      var n := |items| - 1;
      var ctx, last := MarksOf(sizes, items[..n]), items[n];
      assert items == items[..n] + [last];
      assert last in items && forall a :: a in items[..n] ==> a in items;
      assert WellFormed(sizes, items[..n]) && GuardsFine(sizes, last);
      MarksRespectAll(sizes, items[..n]);
      MarkGrows(sizes, ctx, last);
      forall a | a in items
        ensures Respects(sizes, MarksOf(sizes, items), a)
      {
        if a in items[..n] {
          RespectGrows(sizes, ctx, MarksOf(sizes, items), a);
        }
      }
    }
  }

  /** The item gives the range this mark: its guard, or the full size. */
  predicate Gives(sizes: Sizes, a: Item, r: Range, n: nat) {
    match a
    case Access(position, guards, _) => if r in guards then guards[r] == n else r in position && n == sizes(r)
    case Reduction(ranges) => r in ranges && n == sizes(r)
  }

  /** Marks are no larger than that: each is given by some item. */
  lemma {:induction false} MarkIsGiven(sizes: Sizes, items: seq<Item>, r: Range)
    requires r in MarksOf(sizes, items)
    ensures exists a :: a in items && Gives(sizes, a, r, MarksOf(sizes, items)[r])
  {
    var n := |items| - 1;
    var ctx, last := MarksOf(sizes, items[..n]), items[n];
    assert items == items[..n] + [last];
    if !Gives(sizes, last, r, MarksOf(sizes, items)[r]) {
      assert r in ctx && MarksOf(sizes, items)[r] == ctx[r];
      MarkIsGiven(sizes, items[..n], r);
    }
  }

  predicate Guards(a: Item, r: Range) { a.Access? && r in a.guards }

  /** What keeps a range at its size: a reduction over it, a position that it is not guarded in, or a full guard. */
  predicate Pins(sizes: Sizes, a: Item, r: Range) {
    match a
    case Access(position, guards, _) => if r in guards then guards[r] == sizes(r) else r in position
    case Reduction(ranges) => r in ranges
  }

  /** No item guards the range, or some item pins it. */
  ghost predicate KeepsSize(sizes: Sizes, items: seq<Item>, r: Range) {
    (forall a :: a in items ==> !Guards(a, r)) || exists a :: a in items && Pins(sizes, a, r)
  }

  lemma {:induction false} MarkedIff(sizes: Sizes, items: seq<Item>, r: Range)
    requires WellFormed(sizes, items)
    ensures r in MarksOf(sizes, items) <==> exists a :: a in items && (Guards(a, r) || Pins(sizes, a, r))
    ensures
      (r in MarksOf(sizes, items) && MarksOf(sizes, items)[r] == sizes(r)) <==>
      exists a :: a in items && Pins(sizes, a, r)
  {
    if items != [] {
      var n := |items| - 1;
      var last := items[n];
      assert items == items[..n] + [last];
      assert last in items && forall a :: a in items[..n] ==> a in items;
      MarkedIff(sizes, items[..n], r);
      MarksRespectAll(sizes, items[..n]);
      MarkOfLast(sizes, MarksOf(sizes, items[..n]), last, r);
    }
  }

  lemma MarkOfLast(sizes: Sizes, ctx: Marks, a: Item, r: Range)
    requires InBounds(sizes, ctx) && GuardsFine(sizes, a)
    ensures r in Mark(sizes, ctx, a) <==> r in ctx || Guards(a, r) || Pins(sizes, a, r)
    ensures
      (r in Mark(sizes, ctx, a) && Mark(sizes, ctx, a)[r] == sizes(r)) <==>
      (r in ctx && ctx[r] == sizes(r)) || Pins(sizes, a, r)
  {
  }

  /** What the marking pass leaves at full size, said of the items. */
  lemma KeepsSizeIff(sizes: Sizes, items: seq<Item>, r: Range)
    requires WellFormed(sizes, items)
    ensures NewSize(sizes, MarksOf(sizes, items), r) == sizes(r) <==> KeepsSize(sizes, items, r)
  {
    MarkedIff(sizes, items, r);
  }

  // ---------------------------------------------------------------- which accesses are made

  type Env = Range -> nat

  /** How an access behaves: the place it names and whether its condition holds. */
  datatype Behaviour = Behaviour(place: Env -> int, holds: Env -> bool)

  ghost predicate SameOn(ranges: set<Range>, e: Env, e': Env) { forall r :: r in ranges ==> e(r) == e'(r) }

  /** The behaviour depends on the ranges the item lists, and a condition implies its guards. */
  ghost predicate Behaves(a: Item, b: Behaviour)
    requires a.Access?
  {
    && (forall e: Env, e': Env :: SameOn(a.position, e, e') ==> b.place(e) == b.place(e'))
    && (forall e: Env, e': Env :: SameOn(a.condition, e, e') ==> b.holds(e) == b.holds(e'))
    && (forall e: Env, r :: b.holds(e) && r in a.guards ==> e(r) < a.guards[r])
  }

  ghost predicate InRanges(sizes: Sizes, e: Env) { forall r :: e(r) < sizes(r) }

  /** Some iteration accesses the place. */
  ghost predicate Accesses(sizes: Sizes, b: Behaviour, place: int) {
    exists e: Env :: InRanges(sizes, e) && b.holds(e) && b.place(e) == place
  }

  ghost predicate SameAccesses(sizes: Sizes, sizes': Sizes, b: Behaviour) {
    forall place :: Accesses(sizes, b, place) <==> Accesses(sizes', b, place)
  }

  function Shrunk(sizes: Sizes, ctx: Marks): Sizes { (r: Range) => NewSize(sizes, ctx, r) }

  /** Whatever the accesses compute, shrinking changes for none of them which places it accesses. */
  ghost predicate ShrinkPreserves(sizes: Sizes, items: seq<Item>) {
    forall a, b: Behaviour :: a in items && a.Access? && Behaves(a, b) ==>
      SameAccesses(sizes, Shrunk(sizes, MarksOf(sizes, items)), b)
  }

  /** Ranges that only a condition mentions, and not as a guard, are guarded nowhere or pinned by some item. */
  ghost predicate HiddenRangesKept(sizes: Sizes, items: seq<Item>) {
    forall a, r :: a in items && a.Access? && r in a.condition && r !in a.position && r !in a.guards ==>
      KeepsSize(sizes, items, r)
  }

  /** The iteration of the shrunk loops that stands for a given one: ranges out of reach are set to 0. */
  function Moved(sizes': Sizes, e: Env): Env { (r: Range) => if e(r) < sizes'(r) then e(r) else 0 }

  lemma ShrinkKeepsAccess(sizes: Sizes, items: seq<Item>, a: Item, b: Behaviour, e: Env)
    requires WellFormed(sizes, items) && HiddenRangesKept(sizes, items) && a in items && a.Access? && Behaves(a, b)
    requires InRanges(sizes, e) && b.holds(e)
    ensures Accesses(Shrunk(sizes, MarksOf(sizes, items)), b, b.place(e))
  {
    MarksRespectAll(sizes, items);
    var ctx := MarksOf(sizes, items);
    var sizes' := Shrunk(sizes, ctx);
    ghost var e' := Moved(sizes', e);
    assert Respects(sizes, ctx, a);
    forall r | r in a.position + a.condition
      ensures e'(r) == e(r)
    {
      if r in a.guards {
        assert e(r) < a.guards[r];
      } else if r in a.position {
        assert ctx[r] == sizes(r);
      } else {
        KeepsSizeIff(sizes, items, r);
      }
    }
    assert SameOn(a.position, e, e') && SameOn(a.condition, e, e');
    assert InRanges(sizes', e');
  }

  lemma ShrinkAddsNoAccess(sizes: Sizes, items: seq<Item>, e: Env)
    requires WellFormed(sizes, items) && InRanges(Shrunk(sizes, MarksOf(sizes, items)), e)
    ensures InRanges(sizes, e)
  {
    MarksRespectAll(sizes, items);
    forall r ensures e(r) < sizes(r) {
      assert e(r) < Shrunk(sizes, MarksOf(sizes, items))(r);
    }
  }

  /** An access whose condition holds only in the last iteration of a range that it mentions nowhere else. */
  function LastOnly(sizes: Sizes, a: Item, r: Range): Behaviour
    requires a.Access?
  {
    Behaviour((e: Env) => 0, (e: Env) => e(r) + 1 == sizes(r) && forall g :: g in a.guards ==> e(g) < a.guards[g])
  }

  lemma HiddenRangeLost(sizes: Sizes, items: seq<Item>, a: Item, r: Range)
    requires WellFormed(sizes, items) && a in items && a.Access? && GuardsFine(sizes, a)
    requires r in a.condition && r !in a.position && r !in a.guards &&
      NewSize(sizes, MarksOf(sizes, items), r) != sizes(r)
    ensures Behaves(a, LastOnly(sizes, a, r))
    ensures !SameAccesses(sizes, Shrunk(sizes, MarksOf(sizes, items)), LastOnly(sizes, a, r))
  {
    var b, sizes' := LastOnly(sizes, a, r), Shrunk(sizes, MarksOf(sizes, items));
    MarksRespectAll(sizes, items);
    LastOnlyBehaves(sizes, a, r);
    LastOnlyAccesses(sizes, a, r);
    assert sizes'(r) < sizes(r);
    NeverReached(sizes, sizes', a, r);
    assert Accesses(sizes, b, 0) && !Accesses(sizes', b, 0);
  }

  lemma LastOnlyBehaves(sizes: Sizes, a: Item, r: Range)
    requires a.Access? && GuardsFine(sizes, a) && r in a.condition
    ensures Behaves(a, LastOnly(sizes, a, r))
  {
    var b := LastOnly(sizes, a, r);
    forall e: Env, e': Env | SameOn(a.condition, e, e')
      ensures b.holds(e) == b.holds(e')
    {
      assert forall g :: g in a.guards ==> e(g) == e'(g);
    }
  }

  lemma LastOnlyAccesses(sizes: Sizes, a: Item, r: Range)
    requires a.Access? && GuardsFine(sizes, a) && r !in a.guards && forall q :: sizes(q) >= 1
    ensures Accesses(sizes, LastOnly(sizes, a, r), 0)
  {
    ghost var e: Env := (q: Range) => if q == r then sizes(r) - 1 else 0;
    assert InRanges(sizes, e) && LastOnly(sizes, a, r).holds(e);
  }

  lemma NeverReached(sizes: Sizes, sizes': Sizes, a: Item, r: Range)
    requires a.Access? && sizes'(r) < sizes(r)
    ensures !Accesses(sizes', LastOnly(sizes, a, r), 0)
  {
    forall e: Env | InRanges(sizes', e)
      ensures !LastOnly(sizes, a, r).holds(e)
    {
      assert e(r) < sizes'(r);
    }
  }

  /** Shrinking is right, for all behaviours, exactly when no range hidden in a condition is shrunk. */
  lemma ShrinkPreservesIff(sizes: Sizes, items: seq<Item>)
    requires WellFormed(sizes, items)
    ensures ShrinkPreserves(sizes, items) <==> HiddenRangesKept(sizes, items)
  {
    var sizes' := Shrunk(sizes, MarksOf(sizes, items));
    if HiddenRangesKept(sizes, items) {
      forall a, b: Behaviour, place | a in items && a.Access? && Behaves(a, b)
        ensures Accesses(sizes, b, place) <==> Accesses(sizes', b, place)
      {
        if Accesses(sizes, b, place) {
          var e: Env :| InRanges(sizes, e) && b.holds(e) && b.place(e) == place;
          ShrinkKeepsAccess(sizes, items, a, b, e);
        }
        if Accesses(sizes', b, place) {
          var e: Env :| InRanges(sizes', e) && b.holds(e) && b.place(e) == place;
          ShrinkAddsNoAccess(sizes, items, e);
        }
      }
    } else {
      var a, r :| a in items && a.Access? && r in a.condition && r !in a.position && r !in a.guards
        && !KeepsSize(sizes, items, r);
      assert GuardsFine(sizes, a);
      KeepsSizeIff(sizes, items, r);
      HiddenRangeLost(sizes, items, a, r);
    }
  }

  /** The condition can fail: one access mentions range 1 only in its condition, another guards it. */
  lemma HiddenRangeExample(sizes: Sizes)
    requires (forall r :: sizes(r) >= 1) && sizes(0) == 4 && sizes(1) == 4
    ensures
      var items := [Access({0}, map[], {1}), Access({1}, map[1 := 2], {1})];
      WellFormed(sizes, items) && MarksOf(sizes, items) == map[0 := 4, 1 := 2] && !ShrinkPreserves(sizes, items)
  {
    var first, second := Access({0}, map[], {1}), Access({1}, map[1 := 2], {1});
    var items := [first, second];
    assert items[..1] == [first] && items[..1][..0] == [];
    FirstMarks(sizes);
    SecondMarks(sizes);
    assert MarksOf(sizes, [first]) == map[0 := 4];
    assert MarksOf(sizes, items) == map[0 := 4, 1 := 2];
    hide MarksOf, Mark, ShrinkPreserves;
    assert first in items && 1 in first.condition;
    assert second in items && Guards(second, 1);
    assert !KeepsSize(sizes, items, 1) by {
      forall a | a in items ensures !Pins(sizes, a, 1) {
      }
    }
    assert !HiddenRangesKept(sizes, items);
    ShrinkPreservesIff(sizes, items);
  }

  lemma FirstMarks(sizes: Sizes)
    requires sizes(0) == 4
    ensures Mark(sizes, map[], Access({0}, map[], {1})) == map[0 := 4]
  {
  }

  lemma SecondMarks(sizes: Sizes)
    ensures Mark(sizes, map[0 := 4], Access({1}, map[1 := 2], {1})) == map[0 := 4, 1 := 2]
  {
  }
}
