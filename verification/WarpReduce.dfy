/** The cross-lane sum of `tinygrad/codegen/late/warp_reduce.py`, which the attention and Q4_K kernels end in. */
module WarpReduce {
  import opened IndexMath
  import opened Sums

  predicate IsPow2(n: nat) {
    n == 1 || (n > 0 && n % 2 == 0 && IsPow2(n / 2))
  }

  /** lane ^ off for a power of two off: the bit of weight off is flipped. */
  function FlipLane(lane: nat, off: nat): int
    requires off > 0
  {
    if lane / off % 2 == 0 then lane + off else lane - off
  }

  /** The sum of v[s], v[s + m], v[s + 2m], ... */
  function StrideSum(v: seq<real>, s: nat, m: nat): real
    requires m > 0
    decreases |v| - s
  {
    if s >= |v| then 0.0 else v[s] + StrideSum(v, s + m, m)
  }

  /** A residue class modulo m is the union of two classes modulo 2m. */
  lemma {:induction false} StrideHalves(v: seq<real>, s: nat, m: nat)
    requires m > 0
    ensures StrideSum(v, s, m) == StrideSum(v, s, 2 * m) + StrideSum(v, s + m, 2 * m)
    decreases |v| - s
  {
    if s < |v| {
      StrideHalves(v, s + m, m);
      assert s + m + m == s + 2 * m;
    }
  }

  lemma {:induction false} StrideOne(v: seq<real>, s: nat)
    requires s <= |v|
    ensures Sum(v[..s]) + StrideSum(v, s, 1) == Sum(v)
    decreases |v| - s
  {
    if s == |v| {
      assert v[..s] == v;
    } else {
      StrideOne(v, s + 1);
      assert v[..s + 1][..s] == v[..s];
    }
  }

  /** The partner is another lane of the warp, and the two residues modulo off coincide. */
  lemma FlipLanePartner(lane: nat, off: nat, w: nat)
    requires off > 0 && lane < 2 * off * w
    ensures 0 <= FlipLane(lane, off) < 2 * off * w
    ensures {lane % (2 * off), FlipLane(lane, off) % (2 * off)} == {lane % off, lane % off + off}
  {
    var d := 2 * off;
    RowOf(lane, d, w);
    var h, t := lane / d, lane % d;
    assert off * (2 * h) == d * h;
    if t < off {
      DivModUnique(lane, off, 2 * h, t);
      RowBelow(d, h, t + off, w);
      DivModUnique(lane + off, d, h, t + off);
    } else {
      assert off * (2 * h + 1) == d * h + off;
      DivModUnique(lane, off, 2 * h + 1, t - off);
      RowBelow(d, h, t - off, w);
      DivModUnique(lane - off, d, h, t - off);
    }
  }

  /** One round of the ladder, for every lane at once. */
  function Round(v: seq<real>, off: nat, ghost w: nat): seq<real>
    requires off > 0 && |v| == 2 * off * w
  {
    seq(|v|, l requires 0 <= l < |v| => FlipLanePartner(l, off, w); v[l] + v[FlipLane(l, off)])
  }

  lemma RoundHalvesStride(vals: seq<real>, v: seq<real>, off: nat, w: nat)
    requires off > 0 && |v| == |vals| == 2 * off * w
    requires forall l :: 0 <= l < |v| ==> v[l] == StrideSum(vals, l % (2 * off), 2 * off)
    ensures forall l :: 0 <= l < |v| ==> Round(v, off, w)[l] == StrideSum(vals, l % off, off)
  {
    forall l | 0 <= l < |v|
      ensures Round(v, off, w)[l] == StrideSum(vals, l % off, off)
    {
      FlipLanePartner(l, off, w);
      StrideHalves(vals, l % off, off);
      var m := FlipLane(l, off);
      assert {l % (2 * off), m % (2 * off)} == {l % off, l % off + off};
      assert v[l] == StrideSum(vals, l % (2 * off), 2 * off);
      assert v[m] == StrideSum(vals, m % (2 * off), 2 * off);
    }
  }

  /**
    The butterfly ladder. All lanes run in step: in each round a lane adds the value held by the lane whose
    number differs in one bit. Afterwards every lane holds the sum over all lanes.
   */
  method WarpReduceSum(vals: seq<real>) returns (out: seq<real>)
    requires IsPow2(|vals|)
    ensures |out| == |vals|
    ensures forall l :: 0 <= l < |out| ==> out[l] == Sum(vals)
  {
    out := vals;
    var off := |vals| / 2;
    ghost var m: nat, w: nat := |vals|, 1; // the lanes congruent modulo m have been added up; there are w of them
    forall l | 0 <= l < |vals| ensures StrideSum(vals, l % m, m) == vals[l] {
      DivModUnique(l, m, 0, l);
    }
    while off >= 1
      invariant IsPow2(m) && off == m / 2 && |vals| == m * w
      invariant |out| == |vals|
      invariant forall l :: 0 <= l < |vals| ==> out[l] == StrideSum(vals, l % m, m)
      decreases off
    {
      assert m == 2 * off;
      RoundHalvesStride(vals, out, off, w);
      out := Round(out, off, w);
      w := 2 * w;
      m := off;
      off := off / 2;
    }
    StrideOne(vals, 0);
  }
}
