/** Lexicographic comparison of sequences, a proper prefix being smaller. */
module Lexicographic {

  function Compare<T>(a: seq<T>, b: seq<T>, rank: T -> int): int {
    if a == [] then (if b == [] then 0 else -1)
    else if b == [] then 1
    else if rank(a[0]) < rank(b[0]) then -1
    else if rank(a[0]) > rank(b[0]) then 1
    else Compare(a[1..], b[1..], rank)
  }

  ghost predicate Injective<T(!new)>(rank: T -> int) {
    forall x, y :: rank(x) == rank(y) ==> x == y
  }

  /** The first place at which two sequences differ decides; if there is none, the shorter one is smaller. */
  lemma {:induction false} FirstDifference<T(!new)>(a: seq<T>, b: seq<T>, rank: T -> int) returns (k: nat)
    requires Injective(rank)
    ensures k <= |a| && k <= |b| && a[..k] == b[..k]
    ensures k < |a| && k < |b| ==> a[k] != b[k]
    ensures Compare(a, b, rank) ==
            if k == |a| then (if k == |b| then 0 else -1)
            else if k == |b| then 1
            else if rank(a[k]) < rank(b[k]) then -1 else 1
    decreases |a|
  {
    k := 0;
    if a != [] && b != [] && rank(a[0]) == rank(b[0]) {
      var rest := FirstDifference(a[1..], b[1..], rank);
      k := rest + 1;
      assert a[..k] == [a[0]] + a[1..][..rest] && b[..k] == [b[0]] + b[1..][..rest];
    }
  }

  /** There is only one such place. */
  lemma DifferenceIsUnique<T>(a: seq<T>, b: seq<T>, j: nat, k: nat)
    requires j <= |a| && j <= |b| && a[..j] == b[..j] && (j < |a| && j < |b| ==> a[j] != b[j])
    requires k <= |a| && k <= |b| && a[..k] == b[..k] && (k < |a| && k < |b| ==> a[k] != b[k])
    ensures j == k
  {
  }

  lemma {:induction false} IsOrder<T(!new)>(a: seq<T>, b: seq<T>, rank: T -> int)
    requires Injective(rank)
    ensures Compare(a, b, rank) == -Compare(b, a, rank)
    ensures Compare(a, b, rank) == 0 <==> a == b
    decreases |a|
  {
    if a != [] && b != [] && rank(a[0]) == rank(b[0]) {
      IsOrder(a[1..], b[1..], rank);
      assert a == [a[0]] + a[1..] && b == [b[0]] + b[1..];
    }
  }

  lemma {:induction false} Transitive<T>(a: seq<T>, b: seq<T>, c: seq<T>, rank: T -> int)
    requires Compare(a, b, rank) >= 0 && Compare(b, c, rank) >= 0
    ensures Compare(a, c, rank) >= 0
    ensures Compare(a, b, rank) > 0 || Compare(b, c, rank) > 0 ==> Compare(a, c, rank) > 0
    decreases |a|
  {
    if a != [] && b != [] && c != [] && rank(a[0]) == rank(b[0]) == rank(c[0]) {
      Transitive(a[1..], b[1..], c[1..], rank);
    }
  }
}
