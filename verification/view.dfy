/** Sub-tensor views over the main tensor. A view fixes a prefix of the indices and
    keeps the dims that remain; it is modelled as that pair of sequences, evaluated
    against the tensor it looks into, which every operation takes explicitly. Writes
    through a view return the updated tensor. */
module View {
  import opened Except
  import opened Shape
  import opened Dense

  datatype TensorView = TensorView(prefix: seq<nat>, remaining: seq<nat>)

  /** Each fixed index is below its dim. */
  predicate PrefixInBounds(shape: seq<nat>, prefix: seq<nat>)
  {
    |prefix| <= |shape| && forall i :: 0 <= i < |prefix| ==> prefix[i] < shape[i]
  }

  /** What the constructors establish: the prefix is in bounds and the remaining dims are
      exactly the tensor's dims after it. */
  predicate WellFormed<T>(t: Tensor<T>, v: TensorView)
  {
    PrefixInBounds(t.shape, v.prefix) && v.remaining == t.shape[|v.prefix|..]
  }

  /** A full multi-index is in bounds exactly when its fixed prefix and the rest are. */
  lemma PrefixSplit(shape: seq<nat>, prefix: seq<nat>, rest: seq<nat>)
    requires PrefixInBounds(shape, prefix)
    ensures InBounds(shape, prefix + rest) <==> InBounds(shape[|prefix|..], rest)
  {
    var full := prefix + rest;
    var tail := shape[|prefix|..];
    if InBounds(tail, rest) {
      forall i | 0 <= i < |shape|
        ensures full[i] < shape[i]
      {
        if i >= |prefix| {
          assert full[i] == rest[i - |prefix|] && shape[i] == tail[i - |prefix|];
        }
      }
    }
    if InBounds(shape, full) {
      forall i | 0 <= i < |tail|
        ensures rest[i] < tail[i]
      {
        assert full[|prefix| + i] == rest[i];
      }
    }
  }

  // ---------------------------------------------------------------------------
  // Construction
  // ---------------------------------------------------------------------------

  /** The single-index constructor: the index must be below the first dim. */
  function FromIndex<T>(t: Tensor<T>, index: nat): (r: Result<TensorView>)
    requires |t.shape| > 0
    ensures r.Ok? <==> index < t.shape[0]
    ensures r.Err? ==> r.error == OutOfRange
    ensures r.Ok? ==> WellFormed(t, r.value) && r.value.prefix == [index]
  {
    if index >= t.shape[0] then Err(OutOfRange) else Ok(TensorView([index], t.shape[1..]))
  }

  /** The prefix constructor: at most one index per axis (an invalid argument otherwise),
      each below its dim (out of range otherwise). */
  function FromPrefix<T>(t: Tensor<T>, indices: seq<nat>): (r: Result<TensorView>)
    ensures r.Ok? <==> PrefixInBounds(t.shape, indices)
    ensures r.Err? ==> r.error == (if |indices| > |t.shape| then InvalidArgument else OutOfRange)
    ensures r.Ok? ==> WellFormed(t, r.value) && r.value.prefix == indices
  {
    if |indices| > |t.shape| then Err(InvalidArgument)
    else if !PrefixInBounds(t.shape, indices) then Err(OutOfRange)
    else Ok(TensorView(indices, t.shape[|indices|..]))
  }

  /** `Tensor::view(index)`: checks the index against the first dim, then builds the view
      with the single-index constructor, whose check then always passes. */
  function TensorViewAt<T>(t: Tensor<T>, index: nat): (r: Result<TensorView>)
    requires |t.shape| > 0
    ensures r == FromIndex(t, index)
    ensures r == FromPrefix(t, [index])
  {
    if index >= t.shape[0] then Err(OutOfRange) else FromIndex(t, index)
  }

  // ---------------------------------------------------------------------------
  // Element access
  // ---------------------------------------------------------------------------

  /** `at(indices)`: one index per remaining dim, appended to the prefix, read through the
      tensor's `at`. */
  function At<T>(t: Tensor<T>, v: TensorView, rest: seq<nat>): (r: Result<T>)
    requires Valid(t)
    ensures |rest| != |v.remaining| ==> r == Err(InvalidArgument)
    ensures |rest| == |v.remaining| ==> r == Dense.At(t, v.prefix + rest)
  {
    if |rest| != |v.remaining| then Err(InvalidArgument) else Dense.At(t, v.prefix + rest)
  }

  /** On a well-formed view, `at` succeeds exactly for the in-bounds indices of the
      remaining dims, and then reads the element at the flat offset of the full index. */
  lemma AtInBounds<T>(t: Tensor<T>, v: TensorView, rest: seq<nat>)
    requires Valid(t) && WellFormed(t, v)
    ensures At(t, v, rest).Ok? <==> InBounds(v.remaining, rest)
    ensures InBounds(v.remaining, rest) ==>
      InBounds(t.shape, v.prefix + rest) &&
      At(t, v, rest) == Ok(t.data[FlatIndex(t.shape, v.prefix + rest)])
  {
    PrefixSplit(t.shape, v.prefix, rest);
    if InBounds(v.remaining, rest) {
      AtIsElement(t, v.prefix + rest);
    }
  }

  /** `set_at(indices, value)`: the same count check, then the tensor's `set_at` on the
      full index. */
  function SetAt<T>(t: Tensor<T>, v: TensorView, rest: seq<nat>, x: T): (r: Result<Tensor<T>>)
    requires Valid(t)
    ensures |rest| != |v.remaining| ==> r == Err(InvalidArgument)
    ensures |rest| == |v.remaining| ==> r == Dense.SetAt(t, v.prefix + rest, x)
  {
    if |rest| != |v.remaining| then Err(InvalidArgument) else Dense.SetAt(t, v.prefix + rest, x)
  }

  /** Writing through a view changes exactly one element of the tensor: the view reads the
      value back, and every other full index of the tensor reads what it did before. */
  lemma SetAtOnlyThere<T>(t: Tensor<T>, v: TensorView, rest: seq<nat>, x: T, other: seq<nat>)
    requires Valid(t) && WellFormed(t, v) && InBounds(v.remaining, rest)
    ensures SetAt(t, v, rest, x).Ok?
    ensures At(SetAt(t, v, rest, x).value, v, rest) == Ok(x)
    ensures other != v.prefix + rest ==> Dense.At(SetAt(t, v, rest, x).value, other) == Dense.At(t, other)
  {
    PrefixSplit(t.shape, v.prefix, rest);
    AtSetAt(t, v.prefix + rest, x, other);
  }

  /** `view(index)`: a scalar view cannot be indexed further (a runtime error), the index
      must be below the first remaining dim (out of range), and the sub-view is rebuilt
      from the longer prefix with the prefix constructor. */
  function Sub<T>(t: Tensor<T>, v: TensorView, index: nat): (r: Result<TensorView>)
    ensures WellFormed(t, v) ==> (r.Ok? <==> |v.remaining| > 0 && index < v.remaining[0])
    ensures |v.remaining| == 0 ==> r == Err(RuntimeError)
    ensures |v.remaining| > 0 && index >= v.remaining[0] ==> r == Err(OutOfRange)
    ensures WellFormed(t, v) && r.Ok? ==>
      WellFormed(t, r.value) && r.value == TensorView(v.prefix + [index], v.remaining[1..])
  {
    if |v.remaining| == 0 then Err(RuntimeError)
    else if index >= v.remaining[0] then Err(OutOfRange)
    else
      var r := FromPrefix(t, v.prefix + [index]);
      assert WellFormed(t, v) ==> t.shape[|v.prefix|..][1..] == t.shape[|v.prefix| + 1..];
      r
  }

  /** `value()`: only a view with no remaining dims names one element. */
  function Value<T>(t: Tensor<T>, v: TensorView): (r: Result<T>)
    requires Valid(t)
    ensures |v.remaining| > 0 ==> r == Err(RuntimeError)
    ensures WellFormed(t, v) && |v.remaining| == 0 ==> r.Ok? && r == Dense.At(t, v.prefix)
  {
    if |v.remaining| > 0 then Err(RuntimeError)
    else
      assert WellFormed(t, v) ==> v.prefix + [] == v.prefix;
      AtInBoundsScalar(t, v);
      Dense.At(t, v.prefix)
  }

  lemma AtInBoundsScalar<T>(t: Tensor<T>, v: TensorView)
    requires Valid(t)
    ensures WellFormed(t, v) && |v.remaining| == 0 ==> InBounds(t.shape, v.prefix)
  {
    if WellFormed(t, v) && |v.remaining| == 0 {
      PrefixSplit(t.shape, v.prefix, []);
      assert v.prefix + [] == v.prefix;
    }
  }

  /** `operator T()`: the conversion checks for remaining dims itself before calling
      `value()`, which makes its own check redundant; it converts exactly as `value()` reads. */
  function Convert<T>(t: Tensor<T>, v: TensorView): (r: Result<T>)
    requires Valid(t)
    ensures r == Value(t, v)
  {
    if |v.remaining| > 0 then Err(RuntimeError) else Value(t, v)
  }

  /** `operator=(value)`: only a scalar view can be assigned; it writes the one element. */
  function Assign<T>(t: Tensor<T>, v: TensorView, x: T): (r: Result<Tensor<T>>)
    requires Valid(t)
    ensures |v.remaining| > 0 ==> r == Err(RuntimeError)
    ensures |v.remaining| == 0 ==> r == Dense.SetAt(t, v.prefix, x)
  {
    if |v.remaining| > 0 then Err(RuntimeError) else Dense.SetAt(t, v.prefix, x)
  }

  /** After assigning through a well-formed scalar view, the view's value is the assigned one. */
  lemma AssignThenValue<T>(t: Tensor<T>, v: TensorView, x: T)
    requires Valid(t) && WellFormed(t, v) && |v.remaining| == 0
    ensures Assign(t, v, x).Ok?
    ensures Value(Assign(t, v, x).value, v) == Ok(x)
  {
    AtInBoundsScalar(t, v);
    AtSetAt(t, v.prefix, x, v.prefix);
  }

  // ---------------------------------------------------------------------------
  // Chained indexing
  // ---------------------------------------------------------------------------

  /** Successive `view(i)` calls, one per index, stopping at the first failure. */
  function Descend<T>(t: Tensor<T>, v: TensorView, indices: seq<nat>): (r: Result<TensorView>)
    decreases |indices|
  {
    if |indices| == 0 then Ok(v)
    else
      var w :- Sub(t, v, indices[0]);
      Descend(t, w, indices[1..])
  }

  /** Descending a well-formed view along in-bounds indices appends them to the prefix. */
  lemma {:induction false} DescendAppends<T>(t: Tensor<T>, v: TensorView, indices: seq<nat>)
    requires WellFormed(t, v) && |indices| <= |v.remaining|
    requires forall i :: 0 <= i < |indices| ==> indices[i] < v.remaining[i]
    ensures Descend(t, v, indices) == Ok(TensorView(v.prefix + indices, v.remaining[|indices|..]))
    decreases |indices|
  {
    if |indices| > 0 {
      var rest := indices[1..];
      var w := TensorView(v.prefix + [indices[0]], v.remaining[1..]);
      assert Sub(t, v, indices[0]) == Ok(w);
      assert Descend(t, v, indices) == Descend(t, w, rest);
      forall i | 0 <= i < |rest|
        ensures rest[i] < w.remaining[i]
      {
        assert rest[i] == indices[i + 1] && w.remaining[i] == v.remaining[i + 1];
      }
      DescendAppends(t, w, rest);
      assert w.prefix + rest == v.prefix + indices;
      assert w.remaining[|rest|..] == v.remaining[|indices|..];
    } else {
      assert v.prefix + indices == v.prefix && v.remaining[0..] == v.remaining;
    }
  }

  /** `t.view(i0).view(i1)...view(in)` followed by `value()` reads the same element as
      `t.at([i0, ..., in])`, for every in-bounds full index. */
  lemma ChainedViewsReadAt<T>(t: Tensor<T>, indices: seq<nat>)
    requires Valid(t) && InBounds(t.shape, indices) && |indices| > 0
    ensures TensorViewAt(t, indices[0]).Ok?
    ensures Descend(t, TensorViewAt(t, indices[0]).value, indices[1..]).Ok?
    ensures Value(t, Descend(t, TensorViewAt(t, indices[0]).value, indices[1..]).value) == Dense.At(t, indices)
  {
    var v := TensorViewAt(t, indices[0]).value;
    DescendAppends(t, v, indices[1..]);
    assert [indices[0]] + indices[1..] == indices;
  }

  // ---------------------------------------------------------------------------
  // Comparison
  // ---------------------------------------------------------------------------

  /** What view equality means: different remaining dims are unequal, scalar views compare
      their values, a view with a zero remaining dim fails on its first read (out of range),
      and otherwise every element of the remaining dims must agree. */
  ghost function ViewsEqual<T>(t1: Tensor<T>, v1: TensorView, t2: Tensor<T>, v2: TensorView): Result<bool>
    requires Valid(t1) && Valid(t2) && WellFormed(t1, v1) && WellFormed(t2, v2)
  {
    if v1.remaining != v2.remaining then Ok(false)
    else if |v1.remaining| == 0 then Ok(Value(t1, v1) == Value(t2, v2))
    else if Product(v1.remaining) == 0 then Err(OutOfRange)
    else Ok(forall rest :: InBounds(v1.remaining, rest) ==> At(t1, v1, rest) == At(t2, v2, rest))
  }

  /** The two views agree at the m-th element of the row-major enumeration. */
  ghost predicate SameAt<T>(t1: Tensor<T>, v1: TensorView, t2: Tensor<T>, v2: TensorView, m: nat)
    requires Valid(t1) && Valid(t2) && v1.remaining == v2.remaining && m < Product(v1.remaining)
  {
    At(t1, v1, Unravel(v1.remaining, m)) == At(t2, v2, Unravel(v1.remaining, m))
  }

  /** The two views agree at each of the first k elements of the row-major enumeration. */
  ghost predicate SameUpTo<T>(t1: Tensor<T>, v1: TensorView, t2: Tensor<T>, v2: TensorView, k: nat)
    requires Valid(t1) && Valid(t2) && v1.remaining == v2.remaining && k <= Product(v1.remaining)
  {
    forall m :: 0 <= m < k ==> SameAt(t1, v1, t2, v2, m)
  }

  /** `operator==(view)`: walks the remaining dims with an odometer from all zeros, comparing
      the two views element by element, until a pair differs or the odometer wraps around. */
  method EqualViews<T(==)>(t1: Tensor<T>, v1: TensorView, t2: Tensor<T>, v2: TensorView) returns (r: Result<bool>)
    requires Valid(t1) && Valid(t2) && WellFormed(t1, v1) && WellFormed(t2, v2)
    ensures r == ViewsEqual(t1, v1, t2, v2)
  {
    if v1.remaining != v2.remaining {
      return Ok(false);
    }
    var dims := v1.remaining;
    if |dims| == 0 {
      return Ok(Value(t1, v1) == Value(t2, v2));
    }
    if Product(dims) == 0 {
      var a := At(t1, v1, Zeros(|dims|));
      FirstReadFails(t1, v1);
      return Err(a.error);
    }
    var equal := CompareAll(t1, v1, t2, v2);
    EnumerationCoversAll(t1, v1, t2, v2);
    return Ok(equal);
  }

  /** The odometer loop of `operator==(view)` over remaining dims with at least one element. */
  method CompareAll<T(==)>(t1: Tensor<T>, v1: TensorView, t2: Tensor<T>, v2: TensorView) returns (equal: bool)
    requires Valid(t1) && Valid(t2) && WellFormed(t1, v1) && WellFormed(t2, v2)
    requires v1.remaining == v2.remaining && Product(v1.remaining) > 0
    ensures equal <==> SameUpTo(t1, v1, t2, v2, Product(v1.remaining))
  {
    var dims := v1.remaining;
    var indices := Zeros(|dims|);
    equal := true;
    UnravelZero(dims);
    ghost var k := 0;
    while equal
      invariant 0 <= k < Product(dims)
      invariant indices == Unravel(dims, k)
      invariant equal <==> SameUpTo(t1, v1, t2, v2, k)
      decreases Product(dims) - k, equal
    {
      CompareStep(t1, v1, t2, v2, k);
      var a := At(t1, v1, indices);
      var b := At(t2, v2, indices);
      equal := a.value == b.value;
      IncrementUnravel(dims, k);
      var step := Increment(dims, indices);
      k := k + 1;
      if step.1 {
        break;
      }
      indices := step.0;
    }
  }

  /** When a remaining dim is zero, the comparison's first read (at all zeros) is out of range. */
  lemma FirstReadFails<T>(t: Tensor<T>, v: TensorView)
    requires Valid(t) && WellFormed(t, v) && Product(v.remaining) == 0
    ensures At(t, v, Zeros(|v.remaining|)) == Err(OutOfRange)
  {
    var dims := v.remaining;
    ProductZero(dims);
    var d :| 0 <= d < |dims| && dims[d] == 0;
    assert Zeros(|dims|)[d] == 0;
    AtInBounds(t, v, Zeros(|dims|));
  }

  /** The k-th comparison of the loop reads two elements and compares them at the k-th
      index of the enumeration. */
  lemma CompareStep<T>(t1: Tensor<T>, v1: TensorView, t2: Tensor<T>, v2: TensorView, k: nat)
    requires Valid(t1) && Valid(t2) && WellFormed(t1, v1) && WellFormed(t2, v2)
    requires v1.remaining == v2.remaining && k < Product(v1.remaining)
    ensures At(t1, v1, Unravel(v1.remaining, k)).Ok? && At(t2, v2, Unravel(v1.remaining, k)).Ok?
    ensures SameAt(t1, v1, t2, v2, k) <==>
      At(t1, v1, Unravel(v1.remaining, k)).value == At(t2, v2, Unravel(v1.remaining, k)).value
    ensures SameUpTo(t1, v1, t2, v2, k) ==> (SameUpTo(t1, v1, t2, v2, k + 1) <==> SameAt(t1, v1, t2, v2, k))
  {
    var idx := Unravel(v1.remaining, k);
    UnravelInverse(v1.remaining, k);
    AtInBounds(t1, v1, idx);
    AtInBounds(t2, v2, idx);
  }

  /** Comparing every element of the row-major enumeration compares every in-bounds index. */
  lemma EnumerationCoversAll<T>(t1: Tensor<T>, v1: TensorView, t2: Tensor<T>, v2: TensorView)
    requires Valid(t1) && Valid(t2) && v1.remaining == v2.remaining
    ensures SameUpTo(t1, v1, t2, v2, Product(v1.remaining))
        <==> (forall rest :: InBounds(v1.remaining, rest) ==> At(t1, v1, rest) == At(t2, v2, rest))
  {
    var dims := v1.remaining;
    if SameUpTo(t1, v1, t2, v2, Product(dims)) {
      forall rest | InBounds(dims, rest)
        ensures At(t1, v1, rest) == At(t2, v2, rest)
      {
        FlatIndexInverse(dims, rest);
        assert SameAt(t1, v1, t2, v2, FlatIndex(dims, rest));
      }
    }
    if forall rest :: InBounds(dims, rest) ==> At(t1, v1, rest) == At(t2, v2, rest) {
      forall m | 0 <= m < Product(dims)
        ensures SameAt(t1, v1, t2, v2, m)
      {
        UnravelInverse(dims, m);
      }
    }
  }

  /** `operator!=(view)`: the negation of `==`, failing where `==` fails. */
  method DifferentViews<T(==)>(t1: Tensor<T>, v1: TensorView, t2: Tensor<T>, v2: TensorView) returns (r: Result<bool>)
    requires Valid(t1) && Valid(t2) && WellFormed(t1, v1) && WellFormed(t2, v2)
    ensures r.Ok? <==> ViewsEqual(t1, v1, t2, v2).Ok?
    ensures r.Ok? ==> r.value == !ViewsEqual(t1, v1, t2, v2).value
    ensures r.Err? ==> r.error == ViewsEqual(t1, v1, t2, v2).error
  {
    var e := EqualViews(t1, v1, t2, v2);
    if e.Err? {
      return Err(e.error);
    }
    return Ok(!e.value);
  }

  /** `operator==(value)`: a view with remaining dims never equals a scalar; a scalar view
      compares its value. */
  function EqualsScalar<T(==)>(t: Tensor<T>, v: TensorView, x: T): (r: Result<bool>)
    requires Valid(t)
    ensures WellFormed(t, v) ==> r.Ok?
    ensures r == Ok(true) <==> |v.remaining| == 0 && Value(t, v) == Ok(x)
  {
    if |v.remaining| > 0 then Ok(false)
    else
      var y :- Value(t, v);
      Ok(y == x)
  }

  /** `operator!=(value)`: the negation of `==`. */
  function DiffersFromScalar<T(==)>(t: Tensor<T>, v: TensorView, x: T): (r: Result<bool>)
    requires Valid(t)
    ensures r.Ok? <==> EqualsScalar(t, v, x).Ok?
    ensures r.Ok? ==> r.value == !EqualsScalar(t, v, x).value
  {
    var e :- EqualsScalar(t, v, x);
    Ok(!e)
  }
}
