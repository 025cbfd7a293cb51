/** Lists without repetitions, as tinygrad's `dedup` makes them (`tinygrad/helpers.py`). */
module Collections {

  /** Keeps the first occurrence of every element. */
  function Dedup<T(==)>(xs: seq<T>): seq<T> {
    if xs == [] then []
    else
      var d := Dedup(xs[..|xs| - 1]);
      if xs[|xs| - 1] in d then d else d + [xs[|xs| - 1]]
  }

  ghost predicate NoDuplicates<T>(xs: seq<T>) {
    forall i, j :: 0 <= i < j < |xs| ==> xs[i] != xs[j]
  }

  lemma {:induction false} DedupKeepsElements<T>(xs: seq<T>)
    ensures NoDuplicates(Dedup(xs)) && forall x :: x in Dedup(xs) <==> x in xs
  {
    if xs != [] {
      DedupKeepsElements(xs[..|xs| - 1]);
      assert xs == xs[..|xs| - 1] + [xs[|xs| - 1]];
    }
  }

  /** What comes later does not change the list so far. */
  lemma {:induction false} DedupPrefix<T>(xs: seq<T>, n: nat)
    requires n <= |xs|
    ensures Dedup(xs[..n]) <= Dedup(xs)
  {
    if n == |xs| {
      assert xs[..n] == xs;
    } else {
      DedupPrefix(xs[..|xs| - 1], n);
      assert xs[..|xs| - 1][..n] == xs[..n];
    }
  }

  /** The elements keep the order of their first occurrences. */
  lemma DedupOrder<T>(xs: seq<T>, i: nat, j: nat) returns (p: nat, q: nat)
    requires i < j < |xs| && xs[j] !in xs[..j]
    ensures p < q < |Dedup(xs)| && Dedup(xs)[p] == xs[i] && Dedup(xs)[q] == xs[j]
  {
    DedupKeepsElements(xs[..j]);
    assert xs[i] in xs[..j];
    p :| p < |Dedup(xs[..j])| && Dedup(xs[..j])[p] == xs[i];
    q := |Dedup(xs[..j])|;
    assert xs[..j + 1][..j] == xs[..j];
    DedupPrefix(xs, j + 1);
  }

  lemma DedupFirst<T>(xs: seq<T>)
    requires xs != []
    ensures Dedup(xs) != [] && Dedup(xs)[0] == xs[0]
  {
    assert xs[..1] == [xs[0]] && xs[..1][..0] == [];
    DedupPrefix(xs, 1);
  }
}
