/**
 Order-preserving sequence combinators shared by the two passes of the
 benchmark: an elementwise map (pandas' `Series.apply`, vectorised Series
 arithmetic and `Pool.map`, which all return results in input order) and an
 in-order concatenation of pieces (`pd.concat`).
 */
module Sequences {

  /** Applies `f` to every element, keeping length and order. */
  function Map<A, B>(f: A -> B, s: seq<A>): (r: seq<B>)
    ensures |r| == |s|
    ensures forall i :: 0 <= i < |s| ==> r[i] == f(s[i])
  {
    if |s| == 0 then [] else [f(s[0])] + Map(f, s[1..])
  }

  /** Sum of the lengths of the pieces. */
  function TotalLength<T>(ss: seq<seq<T>>): (n: nat)
  {
    if |ss| == 0 then 0 else |ss[0]| + TotalLength(ss[1..])
  }

  /** Concatenates the pieces one after another, first piece first: the
      result is as long as all pieces together and begins with the first. */
  function Flatten<T>(ss: seq<seq<T>>): (r: seq<T>)
    ensures |r| == TotalLength(ss)
    ensures |ss| > 0 ==> r[..|ss[0]|] == ss[0]
  {
    if |ss| == 0 then [] else ss[0] + Flatten(ss[1..])
  }

  /** Concatenation is compositional: flattening two runs of pieces is the
      same as flattening each and joining the results. */
  lemma {:induction false} FlattenAppend<T>(a: seq<seq<T>>, b: seq<seq<T>>)
    ensures Flatten(a + b) == Flatten(a) + Flatten(b)
  {
    if |a| == 0 {
      assert a + b == b;
    } else {
      assert (a + b)[1..] == a[1..] + b;
      FlattenAppend(a[1..], b);
    }
  }

  /** Mapping distributes over concatenation. */
  lemma MapAppend<A, B>(f: A -> B, a: seq<A>, b: seq<A>)
    ensures Map(f, a + b) == Map(f, a) + Map(f, b)
  {
    assert forall i :: 0 <= i < |a| + |b| ==>
      Map(f, a + b)[i] == (Map(f, a) + Map(f, b))[i];
  }
}
