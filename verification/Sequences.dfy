/** Sequences used as lists without repetition. */
module Sequences {

  ghost predicate Distinct<E>(q: seq<E>) {
    forall i, j :: 0 <= i < j < |q| ==> q[i] != q[j]
  }

  /** `q` without the first occurrence of `x`. */
  function Remove<E(==)>(q: seq<E>, x: E): (r: seq<E>)
    ensures forall e :: e in r ==> e in q
    ensures forall e :: e in q && e != x ==> e in r
  {
    if q == [] then [] else if q[0] == x then q[1..] else [q[0]] + Remove(q[1..], x)
  }

  lemma {:induction false} RemoveDistinct<E>(q: seq<E>, x: E)
    requires Distinct(q)
    ensures x !in Remove(q, x) && Distinct(Remove(q, x))
    ensures |Remove(q, x)| == |q| - if x in q then 1 else 0
  {
    if q != [] && q[0] != x {
      RemoveDistinct(q[1..], x);
      assert q[0] !in q[1..];
    }
  }

  lemma {:induction false} RemoveIs<E>(q: seq<E>, i: nat)
    requires i < |q| && q[i] !in q[..i]
    ensures Remove(q, q[i]) == q[..i] + q[i + 1..]
  {
    if i > 0 {
      assert q[0] in q[..i];
      assert q[1..][..i - 1] == q[..i][1..];
      RemoveIs(q[1..], i - 1);
    }
  }
}
