/** Axis permutations: the validity check tensor.hpp performs, gathering a
    sequence along a permutation, the inverse scatter, and the facts that a
    permutation changes neither the element count of a shape nor a dot product
    whose two factors are permuted together. */
module Perm {
  import opened Shape

  /** No entry occurs twice. */
  predicate Distinct(p: seq<nat>)
  {
    forall i, j :: 0 <= i < j < |p| ==> p[i] != p[j]
  }

  /** p names each of the axes 0 .. n-1: it has n entries, each below n, none repeated. */
  predicate IsPermutation(p: seq<nat>, n: nat)
  {
    |p| == n && (forall i :: 0 <= i < n ==> p[i] < n) && Distinct(p)
  }

  // ---------------------------------------------------------------------------
  // Every axis occurs (pigeonhole)
  // ---------------------------------------------------------------------------

  /** The axes 0 .. n-1 in order. */
  function Iota(n: nat): (r: seq<nat>)
  {
    seq(n, i => i)
  }

  lemma {:induction false} DistinctCard(p: seq<nat>, k: nat)
    requires k <= |p| && Distinct(p)
    ensures |set i | 0 <= i < k :: p[i]| == k
  {
    if k > 0 {
      DistinctCard(p, k - 1);
      var before := set i | 0 <= i < k - 1 :: p[i];
      assert (set i | 0 <= i < k :: p[i]) == before + {p[k - 1]};
      assert p[k - 1] !in before;
    }
  }

  /** A subset as large as its superset is all of it. */
  lemma SubsetSameCard(a: set<nat>, b: set<nat>)
    requires a <= b && |a| == |b|
    ensures b <= a
  {
    assert b == a + (b - a);
    assert a !! (b - a);
    assert |b - a| == 0;
  }

  /** A permutation of n axes mentions every axis below n. */
  lemma PermutationOnto(p: seq<nat>, n: nat)
    requires IsPermutation(p, n)
    ensures forall m :: 0 <= m < n ==> m in p
  {
    var values := set i | 0 <= i < n :: p[i];
    var range := set i | 0 <= i < n :: Iota(n)[i];
    DistinctCard(p, n);
    DistinctCard(Iota(n), n);
    forall v | v in values
      ensures v in range
    {
      assert Iota(n)[v] == v;
    }
    SubsetSameCard(values, range);
    forall m | 0 <= m < n
      ensures m in p
    {
      assert Iota(n)[m] == m;
      assert m in values;
      var i :| 0 <= i < n && p[i] == m;
      assert p[i] in p;
    }
  }

  // ---------------------------------------------------------------------------
  // Gather and scatter
  // ---------------------------------------------------------------------------

  /** The position at which m occurs in p (the first one). */
  function IndexOf(p: seq<nat>, m: nat): (k: nat)
    requires m in p
    ensures k < |p| && p[k] == m
  {
    if p[0] == m then 0 else 1 + IndexOf(p[1..], m)
  }

  /** Gather along p: entry j of the result is a[p[j]]. */
  function Reindex(a: seq<nat>, p: seq<nat>): (r: seq<nat>)
    requires forall j :: 0 <= j < |p| ==> p[j] < |a|
  {
    seq(|p|, j requires 0 <= j < |p| => a[p[j]])
  }

  /** Scatter along p, the inverse of Reindex: the sequence i with i[p[k]] == j[k]. */
  function Scatter(p: seq<nat>, j: seq<nat>): (i: seq<nat>)
    requires IsPermutation(p, |j|)
  {
    PermutationOnto(p, |j|);
    seq(|j|, m requires 0 <= m < |j| => j[IndexOf(p, m)])
  }

  /** Gathering a scattered sequence along the same permutation gives it back, and so
      does scattering a gathered one. */
  lemma ScatterInverse(p: seq<nat>, j: seq<nat>, i: seq<nat>)
    requires IsPermutation(p, |j|) && |i| == |j|
    ensures Reindex(Scatter(p, j), p) == j
    ensures Scatter(p, Reindex(i, p)) == i
  {
    PermutationOnto(p, |j|);
    var r := Reindex(Scatter(p, j), p);
    forall k | 0 <= k < |j|
      ensures r[k] == j[k]
    {
      assert IndexOf(p, p[k]) == k;
    }
    var g := Reindex(i, p);
    var s := Scatter(p, g);
    forall m | 0 <= m < |i|
      ensures s[m] == i[m]
    {
      var k := IndexOf(p, m);
      assert s[m] == g[k] == i[p[k]];
    }
  }

  /** Scattering a multi-index that is in bounds for the permuted shape gives a multi-index
      in bounds for the original shape, and gathering preserves bounds the other way. */
  lemma ScatterInBounds(s: seq<nat>, p: seq<nat>, j: seq<nat>, i: seq<nat>)
    requires IsPermutation(p, |s|)
    ensures InBounds(Reindex(s, p), j) ==> InBounds(s, Scatter(p, j))
    ensures InBounds(s, i) ==> InBounds(Reindex(s, p), Reindex(i, p))
  {
    PermutationOnto(p, |s|);
    if InBounds(Reindex(s, p), j) {
      var sc := Scatter(p, j);
      forall m | 0 <= m < |s|
        ensures sc[m] < s[m]
      {
        var k := IndexOf(p, m);
        assert sc[m] == j[k] < Reindex(s, p)[k] == s[m];
      }
    }
  }

  // ---------------------------------------------------------------------------
  // Permutation invariance of Product and Dot
  // ---------------------------------------------------------------------------

  /** Removing the entry n-1 from a permutation of n axes leaves a permutation of n-1 axes;
      the entries before and after it keep their values. */
  lemma DropTopAxis(p: seq<nat>, n: nat) returns (k: nat, q: seq<nat>)
    requires n > 0 && IsPermutation(p, n)
    ensures k < n && p[k] == n - 1
    ensures q == p[..k] + p[k + 1..] && IsPermutation(q, n - 1)
  {
    PermutationOnto(p, n);
    k := IndexOf(p, n - 1);
    q := p[..k] + p[k + 1..];
    forall i | 0 <= i < n - 1
      ensures q[i] < n - 1
    {
      if i < k {
        assert q[i] == p[i];
      } else {
        assert q[i] == p[i + 1];
      }
    }
    forall i, j | 0 <= i < j < n - 1
      ensures q[i] != q[j]
    {
      var i' := if i < k then i else i + 1;
      var j' := if j < k then j else j + 1;
      assert q[i] == p[i'] && q[j] == p[j'];
    }
  }

  /** Gathering along p splits around the position of the top axis. */
  lemma ReindexSplit(a: seq<nat>, p: seq<nat>, k: nat, q: seq<nat>)
    requires |a| == |p| > 0 && IsPermutation(p, |a|)
    requires k < |p| && p[k] == |a| - 1
    requires q == p[..k] + p[k + 1..] && IsPermutation(q, |a| - 1)
    ensures Reindex(a, p) == Reindex(a[..|a| - 1], q)[..k] + [a[|a| - 1]] + Reindex(a[..|a| - 1], q)[k..]
  {
  }

  /** Inserting one pair into the middle of a dot product adds its product. */
  lemma DotInsert(x: seq<nat>, u: nat, y: seq<nat>, x2: seq<nat>, w: nat, y2: seq<nat>)
    requires |x| == |x2| && |y| == |y2|
    ensures Dot(x + [u] + y, x2 + [w] + y2) == u * w + Dot(x + y, x2 + y2)
  {
    DotAppend(x + [u], y, x2 + [w], y2);
    DotAppend(x, [u], x2, [w]);
    DotAppend(x, y, x2, y2);
  }

  /** Inserting one factor into the middle of a product multiplies it in. */
  lemma ProductInsert(x: seq<nat>, v: nat, y: seq<nat>)
    ensures Product(x + [v] + y) == v * Product(x + y)
  {
    var px, py := Product(x), Product(y);
    ProductAppend(x + [v], y);
    ProductAppend(x, [v]);
    assert Product([v]) == v by {
      assert [v][1..] == [];
    }
    assert Product(x + [v] + y) == px * v * py;
    ProductAppend(x, y);
    MulRotate(px, v, py);
  }

  lemma MulRotate(a: nat, b: nat, c: nat)
    ensures a * b * c == b * (a * c)
  {
  }

  /** Permuting both factors of a dot product in the same way leaves it unchanged. */
  lemma {:induction false} DotReindex(a: seq<nat>, b: seq<nat>, p: seq<nat>)
    requires |a| == |b| && IsPermutation(p, |a|)
    ensures Dot(Reindex(a, p), Reindex(b, p)) == Dot(a, b)
  {
    var n := |a|;
    if n > 0 {
      var k, q := DropTopAxis(p, n);
      var a', b' := a[..n - 1], b[..n - 1];
      DotReindexStep(a, b, p, k, q);
      DotReindex(a', b', q);
      DotSnoc(a, b, n - 1);
      assert a[..n] == a && b[..n] == b;
    }
  }

  /** Taking the last axis out of the permutation takes its pair out of the dot product. */
  lemma DotReindexStep(a: seq<nat>, b: seq<nat>, p: seq<nat>, k: nat, q: seq<nat>)
    requires |a| == |b| == |p| > 0 && IsPermutation(p, |a|)
    requires k < |p| && p[k] == |a| - 1
    requires q == p[..k] + p[k + 1..] && IsPermutation(q, |a| - 1)
    ensures Dot(Reindex(a, p), Reindex(b, p)) ==
      a[|a| - 1] * b[|a| - 1] + Dot(Reindex(a[..|a| - 1], q), Reindex(b[..|a| - 1], q))
  {
    var n := |a|;
    ReindexSplit(a, p, k, q);
    ReindexSplit(b, p, k, q);
    var ra, rb := Reindex(a[..n - 1], q), Reindex(b[..n - 1], q);
    DotInsert(ra[..k], a[n - 1], ra[k..], rb[..k], b[n - 1], rb[k..]);
    assert ra[..k] + ra[k..] == ra && rb[..k] + rb[k..] == rb;
  }

  /** Permuting the dims of a shape leaves its element count unchanged. */
  lemma {:induction false} ProductReindex(s: seq<nat>, p: seq<nat>)
    requires IsPermutation(p, |s|)
    ensures Product(Reindex(s, p)) == Product(s)
  {
    var n := |s|;
    if n > 0 {
      var k, q := DropTopAxis(p, n);
      var s' := s[..n - 1];
      ReindexSplit(s, p, k, q);
      var r := Reindex(s', q);
      ProductInsert(r[..k], s[n - 1], r[k..]);
      assert r[..k] + r[k..] == r;
      ProductReindex(s', q);
      ProductInsert(s', s[n - 1], []);
      assert s' + [s[n - 1]] + [] == s && s' + [] == s';
    }
  }
}
