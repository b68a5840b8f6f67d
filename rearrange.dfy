/** A sequence that reads another through a bijection of positions is a
    rearrangement of it. */
module Rearrange {

  /** e[i] == p[F[i]], where F is a bijection of the positions 0 .. |p|-1
      and G its inverse. */
  ghost predicate ReadsThrough<T>(e: seq<T>, p: seq<T>, F: seq<int>, G: seq<int>) {
    && |e| == |p| == |F| == |G|
    && (forall i :: 0 <= i < |e| ==> 0 <= F[i] < |p| && e[i] == p[F[i]] && G[F[i]] == i)
    && (forall j :: 0 <= j < |p| ==> 0 <= G[j] < |e| && F[G[j]] == j)
  }

  lemma {:induction false} ReadThroughIsPermutation<T>(e: seq<T>, p: seq<T>, F: seq<int>, G: seq<int>)
    requires ReadsThrough(e, p, F, G)
    ensures multiset(e) == multiset(p)
  {
    if p != [] {
      var n := |p| - 1;
      var k := G[n];
      var G' := seq(n, j requires 0 <= j < n => if G[j] < k then G[j] else G[j] - 1);
      DropLast(e, p, F, G, G');
      ReadThroughIsPermutation(e[..k] + e[k + 1..], p[..n], F[..k] + F[k + 1..], G');
      assert e == e[..k] + [e[k]] + e[k + 1..];
      assert p == p[..n] + [p[n]];
    }
  }

  /** Dropping the last element of p, and the element of e that reads it,
      leaves a bijection between the rest. */
  lemma DropLast<T>(e: seq<T>, p: seq<T>, F: seq<int>, G: seq<int>, G': seq<int>)
    requires ReadsThrough(e, p, F, G) && p != []
    requires |G'| == |p| - 1
    requires forall j :: 0 <= j < |G'| ==> G'[j] == if G[j] < G[|p| - 1] then G[j] else G[j] - 1
    ensures ReadsThrough(e[..G[|p| - 1]] + e[G[|p| - 1] + 1..], p[..|p| - 1],
                         F[..G[|p| - 1]] + F[G[|p| - 1] + 1..], G')
  {
    var n := |p| - 1;
    var k := G[n];
    var e', p', F' := e[..k] + e[k + 1..], p[..n], F[..k] + F[k + 1..];
    forall i | 0 <= i < |e'| ensures 0 <= F'[i] < |p'| && e'[i] == p'[F'[i]] && G'[F'[i]] == i {
      var ii := if i < k then i else i + 1;
      assert e'[i] == e[ii] && F'[i] == F[ii];
      assert G[F[ii]] == ii;
    }
    forall j | 0 <= j < |p'| ensures 0 <= G'[j] < |e'| && F'[G'[j]] == j {
      assert F[G[j]] == j;
    }
  }
}
