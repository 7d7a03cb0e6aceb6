/** Index arithmetic shared by every tensor variant: the element count of a
    shape, row-major strides, the flat offset of a multi-index, its inverse
    (unravelling a flat offset into a multi-index) and the row-major odometer
    that enumerates the multi-indices of a shape in flat order. */
module Shape {

  // ---------------------------------------------------------------------------
  // Arithmetic helpers
  // ---------------------------------------------------------------------------

  lemma MulMonotone(a: nat, b: nat, c: nat)
    requires a <= b
    ensures a * c <= b * c
  {
  }

  /** Euclidean division is unique: a quotient and remainder that rebuild x are x / p and x % p. */
  lemma DivModUnique(x: nat, p: nat, q: nat, r: nat)
    requires p > 0 && r < p && x == q * p + r
    ensures x / p == q && x % p == r
  {
    var q', r' := x / p, x % p;
    assert x == q' * p + r';
    if q' < q {
      MulMonotone(q' + 1, q, p);
      assert false;
    } else if q < q' {
      MulMonotone(q + 1, q', p);
      assert false;
    }
  }

  // ---------------------------------------------------------------------------
  // Element count
  // ---------------------------------------------------------------------------

  /** Number of elements a shape addresses; the empty shape (a scalar) addresses one. */
  function Product(s: seq<nat>): nat
  {
    if |s| == 0 then 1 else s[0] * Product(s[1..])
  }

  lemma {:induction false} ProductAppend(a: seq<nat>, b: seq<nat>)
    ensures Product(a + b) == Product(a) * Product(b)
  {
    if |a| == 0 {
      assert a + b == b;
    } else {
      assert (a + b)[1..] == a[1..] + b;
      ProductAppend(a[1..], b);
      assert Product(a + b) == a[0] * (Product(a[1..]) * Product(b));
    }
  }

  /** A shape addresses no element exactly when one of its dims is zero. */
  lemma {:induction false} ProductZero(s: seq<nat>)
    ensures Product(s) == 0 <==> exists i :: 0 <= i < |s| && s[i] == 0
  {
    if |s| > 0 {
      ProductZero(s[1..]);
      if Product(s[1..]) == 0 {
        var i :| 0 <= i < |s[1..]| && s[1..][i] == 0;
        assert s[i + 1] == 0;
      }
      if exists i :: 0 <= i < |s| && s[i] == 0 {
        var i :| 0 <= i < |s| && s[i] == 0;
        if i > 0 {
          assert s[1..][i - 1] == 0;
        }
      }
    }
  }

  // ---------------------------------------------------------------------------
  // Strides and flat offsets
  // ---------------------------------------------------------------------------

  /** Row-major (C order) strides: the stride of an axis is the product of the dims after it. */
  function Strides(s: seq<nat>): seq<nat>
  {
    seq(|s|, i requires 0 <= i < |s| => Product(s[i + 1..]))
  }

  /** The stride recurrence the C++ loops compute: the last stride is 1 and each stride is
      the next one times the next dim; the first stride times the first dim is the size. */
  lemma StridesRowMajor(s: seq<nat>)
    ensures |Strides(s)| == |s|
    ensures |s| > 0 ==> Strides(s)[|s| - 1] == 1
    ensures forall i, j :: 0 <= i && j == i + 1 < |s| ==> Strides(s)[i] == Strides(s)[j] * s[j]
    ensures |s| > 0 ==> s[0] * Strides(s)[0] == Product(s)
  {
    forall i, j | 0 <= i && j == i + 1 < |s|
      ensures Strides(s)[i] == Strides(s)[j] * s[j]
    {
      StrideStep(s, i);
    }
    if |s| > 0 {
      assert s[|s|..] == [];
      assert Strides(s)[0] == Product(s[1..]);
    }
  }

  lemma StrideStep(s: seq<nat>, i: nat)
    requires i + 1 < |s|
    ensures Strides(s)[i] == Strides(s)[i + 1] * s[i + 1]
  {
    var after := s[i + 1..];
    assert after[0] == s[i + 1] && after[1..] == s[i + 2..];
    assert Strides(s)[i] == Product(after) == s[i + 1] * Product(s[i + 2..]);
    assert Strides(s)[i + 1] == Product(s[i + 2..]);
  }

  /** The loop of the stride-caching tensor's `calculate_strides` and of the older
      tensor's `strides()`: the last stride is set to 1, then each stride is filled in
      from the one after it, walking towards the first axis. */
  method BackwardStrides(s: seq<nat>) returns (st: seq<nat>)
    requires |s| > 0
    ensures st == Strides(s)
  {
    st := seq(|s|, _ => 0);
    st := st[|s| - 1 := 1];
    assert Strides(s)[|s| - 1] == 1 by {
      assert s[|s|..] == [];
    }
    var i := |s| - 1;
    while i > 0
      invariant 0 <= i <= |s| - 1 && |st| == |s|
      invariant forall j :: i <= j < |s| ==> st[j] == Strides(s)[j]
      decreases i
    {
      i := i - 1;
      StrideStep(s, i);
      st := st[i := st[i + 1] * s[i + 1]];
    }
  }

  /** Dropping the first axis drops the first stride and keeps the others. */
  lemma StridesTail(s: seq<nat>)
    requires |s| > 0
    ensures Strides(s) == [Product(s[1..])] + Strides(s[1..])
  {
    forall i | 0 <= i < |s| - 1
      ensures Strides(s)[i + 1] == Strides(s[1..])[i]
    {
      assert s[1..][i + 1..] == s[i + 2..];
    }
  }

  /** Sum of the pointwise products of two equally long sequences. */
  function Dot(a: seq<nat>, b: seq<nat>): nat
    requires |a| == |b|
  {
    if |a| == 0 then 0 else a[0] * b[0] + Dot(a[1..], b[1..])
  }

  lemma {:induction false} DotAppend(a: seq<nat>, b: seq<nat>, c: seq<nat>, d: seq<nat>)
    requires |a| == |c| && |b| == |d|
    ensures Dot(a + b, c + d) == Dot(a, c) + Dot(b, d)
  {
    if |a| > 0 {
      assert (a + b)[1..] == a[1..] + b;
      assert (c + d)[1..] == c[1..] + d;
      DotAppend(a[1..], b, c[1..], d);
    } else {
      assert a + b == b && c + d == d;
    }
  }

  /** Extending both factors of a dot product by one entry adds that entry's product. */
  lemma DotSnoc(a: seq<nat>, b: seq<nat>, i: nat)
    requires |a| == |b| && i < |a|
    ensures Dot(a[..i + 1], b[..i + 1]) == Dot(a[..i], b[..i]) + a[i] * b[i]
  {
    assert a[..i + 1] == a[..i] + [a[i]] && b[..i + 1] == b[..i] + [b[i]];
    DotAppend(a[..i], [a[i]], b[..i], [b[i]]);
  }

  /** Every component of a multi-index is below its dim (and there is one per axis). */
  predicate InBounds(s: seq<nat>, idx: seq<nat>)
  {
    |idx| == |s| && forall i :: 0 <= i < |s| ==> idx[i] < s[i]
  }

  /** Row-major flat offset of a multi-index: the sum of index times stride. */
  function FlatIndex(s: seq<nat>, idx: seq<nat>): nat
    requires |idx| == |s|
  {
    Dot(idx, Strides(s))
  }

  /** The flat offset peels off the first axis: its index times the size of the rest. */
  lemma FlatIndexCons(s: seq<nat>, idx: seq<nat>)
    requires |idx| == |s| > 0
    ensures FlatIndex(s, idx) == idx[0] * Product(s[1..]) + FlatIndex(s[1..], idx[1..])
  {
    StridesTail(s);
  }

  /** The flat offset of an in-bounds multi-index addresses an element of the buffer. */
  lemma {:induction false} FlatIndexBound(s: seq<nat>, idx: seq<nat>)
    requires InBounds(s, idx)
    ensures FlatIndex(s, idx) < Product(s)
  {
    if |s| > 0 {
      FlatIndexCons(s, idx);
      var p := Product(s[1..]);
      FlatIndexBound(s[1..], idx[1..]);
      MulMonotone(idx[0] + 1, s[0], p);
      assert FlatIndex(s, idx) < (idx[0] + 1) * p;
    }
  }

  /** The multi-index whose row-major offset is k: the inverse of FlatIndex. The first
      component is k divided by the first stride, the rest unravels the remainder. */
  function Unravel(s: seq<nat>, k: nat): (u: seq<nat>)
    requires k < Product(s)
    ensures |u| == |s|
  {
    if |s| == 0 then []
    else
      var p := Product(s[1..]);
      assert p > 0;
      [k / p] + Unravel(s[1..], k % p)
  }

  /** Unravelling gives a multi-index within the shape whose flat offset is the input. */
  lemma {:induction false} UnravelInverse(s: seq<nat>, k: nat)
    requires k < Product(s)
    ensures InBounds(s, Unravel(s, k))
    ensures FlatIndex(s, Unravel(s, k)) == k
  {
    if |s| > 0 {
      var p := Product(s[1..]);
      var q, r := k / p, k % p;
      QuotientBelow(k, p, s[0]);
      UnravelInverse(s[1..], r);
      var u := Unravel(s, k);
      assert u[0] == q && u[1..] == Unravel(s[1..], r);
      FlatIndexCons(s, u);
    }
  }

  /** An offset below n blocks of p lies in block k / p < n, at position k % p. */
  lemma QuotientBelow(k: nat, p: nat, n: nat)
    requires k < n * p
    ensures p > 0 && k / p < n && k % p < p && k == (k / p) * p + k % p
  {
    if n <= k / p {
      MulMonotone(n, k / p, p);
    }
  }

  /** Flat offsets determine in-bounds multi-indices: unravelling undoes FlatIndex. */
  lemma {:induction false} FlatIndexInverse(s: seq<nat>, idx: seq<nat>)
    requires InBounds(s, idx)
    ensures FlatIndex(s, idx) < Product(s)
    ensures Unravel(s, FlatIndex(s, idx)) == idx
  {
    FlatIndexBound(s, idx);
    if |s| > 0 {
      var p := Product(s[1..]);
      FlatIndexCons(s, idx);
      FlatIndexBound(s[1..], idx[1..]);
      DivModUnique(FlatIndex(s, idx), p, idx[0], FlatIndex(s[1..], idx[1..]));
      FlatIndexInverse(s[1..], idx[1..]);
      assert idx == [idx[0]] + idx[1..];
    }
  }

  /** Distinct in-bounds multi-indices have distinct flat offsets. */
  lemma FlatIndexInjective(s: seq<nat>, a: seq<nat>, b: seq<nat>)
    requires InBounds(s, a) && InBounds(s, b)
    ensures FlatIndex(s, a) == FlatIndex(s, b) <==> a == b
  {
    FlatIndexInverse(s, a);
    FlatIndexInverse(s, b);
  }

  // ---------------------------------------------------------------------------
  // Row-major odometer
  // ---------------------------------------------------------------------------

  function Zeros(n: nat): (z: seq<nat>)
  {
    seq(n, _ => 0)
  }

  /** One step of the odometer the C++ loops use: bump the last index and carry leftwards
      past every axis whose index reaches its dim; the flag says the carry left the first
      axis, so the enumeration wrapped around to all zeros. */
  function Increment(s: seq<nat>, idx: seq<nat>): (seq<nat>, bool)
    requires |idx| == |s|
  {
    if |s| == 0 then ([], true)
    else
      var (tail, carry) := Increment(s[1..], idx[1..]);
      if !carry then ([idx[0]] + tail, false)
      else if idx[0] + 1 < s[0] then ([idx[0] + 1] + tail, false)
      else ([0] + tail, true)
  }

  lemma {:induction false} UnravelZero(s: seq<nat>)
    requires 0 < Product(s)
    ensures Unravel(s, 0) == Zeros(|s|)
  {
    if |s| > 0 {
      UnravelZero(s[1..]);
    }
  }

  /** The odometer steps through the multi-indices in flat order: from the multi-index of k
      it reaches that of k + 1, and it wraps (with a carry out) after the last one. */
  lemma {:induction false} IncrementUnravel(s: seq<nat>, k: nat)
    requires k < Product(s)
    ensures k + 1 < Product(s) ==> Increment(s, Unravel(s, k)) == (Unravel(s, k + 1), false)
    ensures k + 1 == Product(s) ==> Increment(s, Unravel(s, k)) == (Zeros(|s|), true)
  {
    if |s| > 0 {
      var p := Product(s[1..]);
      var q, r := k / p, k % p;
      QuotientBelow(k, p, s[0]);
      var u := Unravel(s, k);
      assert u[0] == q && u[1..] == Unravel(s[1..], r);
      IncrementUnravel(s[1..], r);
      if r + 1 < p {
        CarryFree(k, p, s[0]);
        assert Unravel(s, k + 1) == [q] + Unravel(s[1..], r + 1);
      } else if q + 1 < s[0] {
        CarryInto(k, p, s[0]);
        UnravelZero(s[1..]);
        assert Unravel(s, k + 1) == [q + 1] + Unravel(s[1..], 0);
      } else {
        CarryOut(k, p, s[0]);
        assert Zeros(|s|) == [0] + Zeros(|s| - 1);
      }
    } else {
      assert Zeros(0) == [];
    }
  }

  /** The step k -> k + 1 stays inside block k / p when the position is not the last. */
  lemma CarryFree(k: nat, p: nat, n: nat)
    requires k < n * p && k % p + 1 < p
    ensures k + 1 < n * p && (k + 1) / p == k / p && (k + 1) % p == k % p + 1
  {
    QuotientBelow(k, p, n);
    var q, r := k / p, k % p;
    DivModUnique(k + 1, p, q, r + 1);
    MulMonotone(q + 1, n, p);
    assert (q + 1) * p == q * p + p;
  }

  /** From the last position of a block that is not the last block, k + 1 opens the next. */
  lemma CarryInto(k: nat, p: nat, n: nat)
    requires k < n * p && k % p + 1 == p && k / p + 1 < n
    ensures k + 1 < n * p && (k + 1) / p == k / p + 1 && (k + 1) % p == 0
  {
    QuotientBelow(k, p, n);
    DivModUnique(k + 1, p, k / p + 1, 0);
    MulMonotone(k / p + 2, n, p);
  }

  /** From the last position of the last block, k + 1 is the total n * p. */
  lemma CarryOut(k: nat, p: nat, n: nat)
    requires k < n * p && k % p + 1 == p && k / p + 1 >= n
    ensures k + 1 == n * p
  {
    QuotientBelow(k, p, n);
    assert k / p + 1 == n;
  }
}
