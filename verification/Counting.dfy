/** Sizes of finite sets of numbers, and the pigeonhole principle. */
module Counting {

  function Below(n: nat): (s: set<nat>)
    ensures |s| == n && forall i: nat :: i in s <==> i < n
  {
    if n == 0 then {} else Below(n - 1) + {n - 1}
  }

  lemma SubsetSize<T>(a: set<T>, b: set<T>)
    requires a <= b
    ensures |a| <= |b|
  {
    assert |a| + |b - a| == |a + (b - a)|;
    assert a + (b - a) == b;
  }

  function Elements(f: seq<nat>): (s: set<nat>)
    ensures forall x :: x in s <==> x in f
  {
    if f == [] then {} else Elements(f[..|f|-1]) + {f[|f|-1]}
  }

  lemma {:induction false} ElementsSize(f: seq<nat>)
    requires forall a, b | 0 <= a < b < |f| :: f[a] != f[b]
    ensures |Elements(f)| == |f|
  {
    if f != [] {
      ElementsSize(f[..|f|-1]);
      assert f[|f|-1] !in f[..|f|-1];
    }
  }

  /** `n` different numbers below `n` include every number below `n`. */
  lemma Pigeonhole(f: seq<nat>, n: nat, p: nat)
    requires |f| == n && p < n
    requires forall k | 0 <= k < n :: f[k] < n
    requires forall a, b | 0 <= a < b < n :: f[a] != f[b]
    ensures p in f
  {
    if p !in f {
      ElementsSize(f);
      assert Elements(f) <= Below(n) - {p};
      SubsetSize(Elements(f), Below(n) - {p});
    }
  }
}
