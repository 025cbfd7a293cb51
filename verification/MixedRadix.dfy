/** Boxes of indices, their sizes, and the row-major and group-wise numberings of their points. */
module MixedRadix {
  import opened IndexMath

  function Prod(s: seq<nat>): nat {
    if s == [] then 1 else Prod(s[..|s| - 1]) * s[|s| - 1]
  }

  predicate AllAtLeast(s: seq<nat>, n: nat) {
    forall i :: 0 <= i < |s| ==> s[i] >= n
  }

  predicate InBox(dims: seq<nat>, idx: seq<nat>) {
    |idx| == |dims| && forall i :: 0 <= i < |dims| ==> idx[i] < dims[i]
  }

  lemma {:induction false} ProdConcat(a: seq<nat>, b: seq<nat>)
    ensures Prod(a + b) == Prod(a) * Prod(b)
  {
    if b == [] {
      assert a + b == a;
    } else {
      var n := |b| - 1;
      ProdConcat(a, b[..n]);
      assert (a + b)[..|a + b| - 1] == a + b[..n];
      assert Prod(a) * Prod(b[..n]) * b[n] == Prod(a) * (Prod(b[..n]) * b[n]);
    }
  }

  lemma ProdOne(x: nat)
    ensures Prod([x]) == x
  {
    assert [x][..0] == [];
  }

  lemma {:induction false} ProdPositive(s: seq<nat>)
    requires AllAtLeast(s, 1)
    ensures Prod(s) >= 1
  {
    if s != [] {
      ProdPositive(s[..|s| - 1]);
      MulMono(Prod(s[..|s| - 1]), 1, s[|s| - 1]);
    }
  }

  lemma ProdGrows(s: seq<nat>)
    requires s != [] && AllAtLeast(s, 2)
    ensures Prod(s) >= 2
  {
    var n := |s| - 1;
    ProdPositive(s[..n]);
    MulMono(Prod(s[..n]), 2, s[n]);
  }

  // ---------------------------------------------------------------- row-major

  function Flatten(dims: seq<nat>, idx: seq<nat>): nat
    requires |idx| == |dims|
  {
    if dims == [] then 0
    else Flatten(dims[..|dims| - 1], idx[..|dims| - 1]) * dims[|dims| - 1] + idx[|dims| - 1]
  }

  function Unflatten(dims: seq<nat>, x: nat): (idx: seq<nat>)
    requires AllAtLeast(dims, 1)
    ensures |idx| == |dims|
  {
    if dims == [] then []
    else Unflatten(dims[..|dims| - 1], x / dims[|dims| - 1]) + [x % dims[|dims| - 1]]
  }

  /** Row-major numbering is one-to-one from the box ... */
  lemma {:induction false} FlattenInverse(dims: seq<nat>, idx: seq<nat>)
    requires AllAtLeast(dims, 1) && InBox(dims, idx)
    ensures Flatten(dims, idx) < Prod(dims) && Unflatten(dims, Flatten(dims, idx)) == idx
  {
    if dims != [] {
      var n := |dims| - 1;
      var q, d, r := Flatten(dims[..n], idx[..n]), dims[n], idx[n];
      FlattenInverse(dims[..n], idx[..n]);
      assert q * d == d * q && Prod(dims[..n]) * d == d * Prod(dims[..n]);
      RowBelow(d, q, r, Prod(dims[..n]));
      DivModUnique(q * d + r, d, q, r);
    }
  }

  /** ... and onto the numbers below its size. */
  lemma {:induction false} UnflattenInverse(dims: seq<nat>, x: nat)
    requires AllAtLeast(dims, 1) && x < Prod(dims)
    ensures InBox(dims, Unflatten(dims, x)) && Flatten(dims, Unflatten(dims, x)) == x
  {
    if dims != [] {
      var n := |dims| - 1;
      var d := dims[n];
      assert Prod(dims[..n]) * d == d * Prod(dims[..n]);
      RowOf(x, d, Prod(dims[..n]));
      UnflattenInverse(dims[..n], x / d);
      var init := Unflatten(dims[..n], x / d);
      assert Unflatten(dims, x)[..n] == init;
      assert x / d * d == d * (x / d);
    }
  }

  lemma {:induction false} ProdZero(dims: seq<nat>)
    requires !AllAtLeast(dims, 1)
    ensures Prod(dims) == 0
  {
    var n := |dims| - 1;
    if dims[n] > 0 {
      ProdZero(dims[..n]);
    }
  }

  lemma {:induction false} FirstPoints(dims: seq<nat>, n: nat) returns (points: set<seq<nat>>)
    requires AllAtLeast(dims, 1) && n <= Prod(dims)
    ensures |points| == n
    ensures forall idx :: idx in points <==> InBox(dims, idx) && Flatten(dims, idx) < n
  {
    if n == 0 {
      points := {};
    } else {
      points := FirstPoints(dims, n - 1);
      var last := Unflatten(dims, n - 1);
      UnflattenInverse(dims, n - 1);
      assert last !in points;
      forall idx | InBox(dims, idx) && Flatten(dims, idx) == n - 1 ensures idx == last {
        FlattenInverse(dims, idx);
      }
      points := points + {last};
    }
  }

  /** A box has as many points as the product of its dimensions says. */
  lemma BoxCount(dims: seq<nat>) returns (box: set<seq<nat>>)
    ensures |box| == Prod(dims) && forall idx :: idx in box <==> InBox(dims, idx)
  {
    if AllAtLeast(dims, 1) {
      box := FirstPoints(dims, Prod(dims));
      forall idx | InBox(dims, idx) ensures Flatten(dims, idx) < Prod(dims) {
        FlattenInverse(dims, idx);
      }
    } else {
      ProdZero(dims);
      box := {};
    }
  }

  // ---------------------------------------------------------------- within one group

  /** Peeling off the first dimensions of a group one remainder at a time; the last one keeps the quotient. */
  function Peel(dims: seq<nat>, x: nat): (idx: seq<nat>)
    requires dims != [] && AllAtLeast(dims, 1)
    ensures |idx| == |dims|
  {
    if |dims| == 1 then [x] else [x % dims[0]] + Peel(dims[1..], x / dims[0])
  }

  function Unpeel(dims: seq<nat>, idx: seq<nat>): nat
    requires dims != [] && |idx| == |dims|
  {
    if |dims| == 1 then idx[0] else idx[0] + dims[0] * Unpeel(dims[1..], idx[1..])
  }

  lemma ProdFirst(dims: seq<nat>)
    requires dims != []
    ensures Prod(dims) == dims[0] * Prod(dims[1..])
  {
    ProdConcat(dims[..1], dims[1..]);
    assert dims == dims[..1] + dims[1..];
    ProdOne(dims[0]);
    assert dims[..1] == [dims[0]];
  }

  lemma {:induction false} PeelInverse(dims: seq<nat>, x: nat)
    requires dims != [] && AllAtLeast(dims, 1) && x < Prod(dims)
    ensures InBox(dims, Peel(dims, x)) && Unpeel(dims, Peel(dims, x)) == x
  {
    ProdFirst(dims);
    if |dims| == 1 {
      assert dims[1..] == [];
    } else {
      RowOf(x, dims[0], Prod(dims[1..]));
      PeelInverse(dims[1..], x / dims[0]);
      assert Peel(dims, x)[1..] == Peel(dims[1..], x / dims[0]);
    }
  }

  /** The first dimension of a group varies fastest: each index is the number divided by the dimensions before it. */
  lemma {:induction false} PeelAt(dims: seq<nat>, x: nat, i: nat)
    requires AllAtLeast(dims, 1) && i < |dims|
    ensures Prod(dims[..i]) > 0
    ensures Peel(dims, x)[i] ==
      if i < |dims| - 1 then x / Prod(dims[..i]) % dims[i] else x / Prod(dims[..i])
  {
    ProdPositive(dims[..i]);
    if i > 0 {
      PeelAt(dims[1..], x / dims[0], i - 1);
      ProdFirst(dims[..i]);
      assert dims[..i][1..] == dims[1..][..i - 1];
      DivDiv(x, dims[0], Prod(dims[1..][..i - 1]));
    }
  }

  lemma {:induction false} UnpeelInverse(dims: seq<nat>, idx: seq<nat>)
    requires dims != [] && AllAtLeast(dims, 1) && InBox(dims, idx)
    ensures Unpeel(dims, idx) < Prod(dims) && Peel(dims, Unpeel(dims, idx)) == idx
  {
    ProdFirst(dims);
    if |dims| == 1 {
      assert dims[1..] == [];
    } else {
      UnpeelInverse(dims[1..], idx[1..]);
      var q := Unpeel(dims[1..], idx[1..]);
      RowBelow(dims[0], q, idx[0], Prod(dims[1..]));
      DivModUnique(dims[0] * q + idx[0], dims[0], q, idx[0]);
    }
  }
}
