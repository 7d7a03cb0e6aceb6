/** The main tensor: a shape and a flat row-major buffer, with bounds-checked
    multi-index access, reshape, element-wise transform, a permute that validates
    its axis order before it touches anything, equality and a whitespace-separated
    text form. Mutating members are modelled as functions returning the new tensor;
    a member that throws returns the exception kind instead, so a failing call
    leaves the caller's tensor as it was. */
module Dense {
  import opened Except
  import opened Shape
  import opened Perm
  import opened Text

  datatype Tensor<T> = Tensor(shape: seq<nat>, data: seq<T>)

  /** The buffer holds one element per multi-index of the shape. */
  predicate Valid<T>(t: Tensor<T>)
  {
    |t.data| == Product(t.shape)
  }

  /** Number of elements held. */
  function Size<T>(t: Tensor<T>): nat
  {
    |t.data|
  }

  /** No element held. */
  predicate IsEmpty<T>(t: Tensor<T>)
  {
    |t.data| == 0
  }

  /** A well-formed tensor is empty exactly when one of its dims is zero. */
  lemma EmptyIffZeroDim<T>(t: Tensor<T>)
    requires Valid(t)
    ensures Size(t) == Product(t.shape)
    ensures IsEmpty(t) <==> exists i :: 0 <= i < |t.shape| && t.shape[i] == 0
  {
    ProductZero(t.shape);
  }

  // ---------------------------------------------------------------------------
  // Construction
  // ---------------------------------------------------------------------------

  /** The constructor from a shape and a buffer. An empty buffer stands for
      "not given" and is replaced by value-initialised elements (`zero`). */
  function FromData<T>(shape: seq<nat>, data: seq<T>, zero: T): (r: Result<Tensor<T>>)
    ensures r.Ok? <==> |shape| > 0 && (|data| == 0 || |data| == Product(shape))
    ensures r.Err? ==> r.error == InvalidArgument
    ensures r.Ok? ==> r.value.shape == shape && Valid(r.value)
    ensures r.Ok? && |data| > 0 ==> r.value.data == data
    ensures r.Ok? && |data| == 0 ==> forall i :: 0 <= i < |r.value.data| ==> r.value.data[i] == zero
  {
    if |shape| == 0 then Err(InvalidArgument)
    else if |data| > 0 && |data| != Product(shape) then Err(InvalidArgument)
    else if |data| == 0 then Ok(Tensor(shape, seq(Product(shape), _ => zero)))
    else Ok(Tensor(shape, data))
  }

  /** The constructor that fills every element with one value. */
  function Filled<T>(shape: seq<nat>, value: T): (r: Result<Tensor<T>>)
    ensures r.Ok? <==> |shape| > 0
    ensures r.Err? ==> r.error == InvalidArgument
    ensures r.Ok? ==> r.value.shape == shape && Valid(r.value)
    ensures r.Ok? ==> forall i :: 0 <= i < |r.value.data| ==> r.value.data[i] == value
  {
    if |shape| == 0 then Err(InvalidArgument)
    else Ok(Tensor(shape, seq(Product(shape), _ => value)))
  }

  // ---------------------------------------------------------------------------
  // Strides and addressing
  // ---------------------------------------------------------------------------

  /** `strides()`: walks the axes from the last to the first, recording the running
      product of the dims already passed. */
  method ComputeStrides(shape: seq<nat>) returns (strides: seq<nat>)
    ensures strides == Strides(shape)
  {
    strides := seq(|shape|, _ => 0);
    var stride := 1;
    var i := |shape|;
    while i > 0
      invariant 0 <= i <= |shape| && |strides| == |shape|
      invariant stride == Product(shape[i..])
      invariant forall j :: i <= j < |shape| ==> strides[j] == Product(shape[j + 1..])
      decreases i
    {
      i := i - 1;
      strides := strides[i := stride];
      assert shape[i..][1..] == shape[i + 1..];
      stride := stride * shape[i];
    }
  }

  /** Where a multi-index lives in the buffer: the wrong number of indices is an invalid
      argument, a component past its dim is out of range, otherwise the row-major offset. */
  function Locate(shape: seq<nat>, idx: seq<nat>): (r: Result<nat>)
    ensures r.Ok? <==> InBounds(shape, idx)
    ensures r.Err? ==> r.error == (if |idx| != |shape| then InvalidArgument else OutOfRange)
    ensures r.Ok? ==> r.value < Product(shape) && Unravel(shape, r.value) == idx
  {
    if |idx| != |shape| then Err(InvalidArgument)
    else if !InBounds(shape, idx) then Err(OutOfRange)
    else
      FlatIndexInverse(shape, idx);
      Ok(FlatIndex(shape, idx))
  }

  /** One component past its dim puts the whole multi-index out of range. */
  lemma LocateOutOfRange(shape: seq<nat>, idx: seq<nat>, i: nat)
    requires |idx| == |shape| && i < |idx| && idx[i] >= shape[i]
    ensures Locate(shape, idx) == Err(OutOfRange)
  {
  }

  /** An in-bounds multi-index is located at its row-major offset inside the buffer. */
  lemma LocateInBounds(shape: seq<nat>, idx: seq<nat>)
    requires InBounds(shape, idx)
    ensures Locate(shape, idx) == Ok(FlatIndex(shape, idx))
    ensures FlatIndex(shape, idx) < Product(shape)
  {
    FlatIndexBound(shape, idx);
  }

  /** `calculate_index` and the body of `at`: the offset accumulated from the last axis to
      the first, checking each component against its dim on the way. */
  method CalculateIndex(shape: seq<nat>, idx: seq<nat>) returns (r: Result<nat>)
    ensures r == Locate(shape, idx)
  {
    if |idx| != |shape| {
      return Err(InvalidArgument);
    }
    var index := 0;
    var stride := 1;
    var i := |shape|;
    while i > 0
      invariant 0 <= i <= |shape|
      invariant stride == Product(shape[i..])
      invariant InBounds(shape[i..], idx[i..])
      invariant index == FlatIndex(shape[i..], idx[i..])
      decreases i
    {
      i := i - 1;
      if idx[i] >= shape[i] {
        return Err(OutOfRange);
      }
      assert shape[i..][1..] == shape[i + 1..] && idx[i..][1..] == idx[i + 1..];
      FlatIndexCons(shape[i..], idx[i..]);
      index := index + idx[i] * stride;
      stride := stride * shape[i];
    }
    assert shape[0..] == shape && idx[0..] == idx;
    return Ok(index);
  }

  /** `validate_indices`: the same checks as `calculate_index`, from the first axis on. */
  method ValidateIndices(shape: seq<nat>, idx: seq<nat>) returns (r: Result<()>)
    ensures r.Ok? <==> Locate(shape, idx).Ok?
    ensures r.Err? ==> r.error == Locate(shape, idx).error
  {
    if |idx| != |shape| {
      return Err(InvalidArgument);
    }
    var i := 0;
    while i < |idx|
      invariant 0 <= i <= |idx|
      invariant forall j :: 0 <= j < i ==> idx[j] < shape[j]
    {
      if idx[i] >= shape[i] {
        return Err(OutOfRange);
      }
      i := i + 1;
    }
    return Ok(());
  }

  /** `operator[](index)`: the element at a flat offset, out of range past the buffer. */
  function Element<T>(t: Tensor<T>, k: nat): (r: Result<T>)
    ensures r.Ok? <==> k < |t.data|
    ensures r.Err? ==> r.error == OutOfRange
    ensures r.Ok? ==> r.value == t.data[k]
  {
    if k >= |t.data| then Err(OutOfRange) else Ok(t.data[k])
  }

  /** `at(indices)`: the element a multi-index addresses. */
  function At<T>(t: Tensor<T>, idx: seq<nat>): (r: Result<T>)
    requires Valid(t)
    ensures r.Ok? <==> InBounds(t.shape, idx)
    ensures r.Err? ==> r.error == Locate(t.shape, idx).error
  {
    var k :- Locate(t.shape, idx);
    Ok(t.data[k])
  }

  /** Addressing by multi-index and by flat offset agree: the flat offset of an in-bounds
      multi-index is the buffer position `at` reads. */
  lemma AtIsElement<T>(t: Tensor<T>, idx: seq<nat>)
    requires Valid(t) && InBounds(t.shape, idx)
    ensures At(t, idx) == Element(t, FlatIndex(t.shape, idx))
    ensures At(t, Unravel(t.shape, FlatIndex(t.shape, idx))) == At(t, idx)
  {
    FlatIndexInverse(t.shape, idx);
  }

  /** Every buffer position is reached by exactly the multi-index it unravels to. */
  lemma ElementIsAt<T>(t: Tensor<T>, k: nat)
    requires Valid(t) && k < |t.data|
    ensures InBounds(t.shape, Unravel(t.shape, k))
    ensures At(t, Unravel(t.shape, k)) == Ok(t.data[k])
  {
    UnravelInverse(t.shape, k);
  }

  /** `set_at(indices, value)`: the same checks as `at`, then one element replaced. */
  function SetAt<T>(t: Tensor<T>, idx: seq<nat>, v: T): (r: Result<Tensor<T>>)
    requires Valid(t)
    ensures r.Ok? <==> InBounds(t.shape, idx)
    ensures r.Err? ==> r.error == Locate(t.shape, idx).error
    ensures r.Ok? ==> r.value.shape == t.shape && Valid(r.value)
  {
    var k :- Locate(t.shape, idx);
    Ok(Tensor(t.shape, t.data[k := v]))
  }

  /** Reading back a written element gives the written value; every other element is
      what it was. */
  lemma AtSetAt<T>(t: Tensor<T>, idx: seq<nat>, v: T, other: seq<nat>)
    requires Valid(t) && InBounds(t.shape, idx)
    ensures At(SetAt(t, idx, v).value, idx) == Ok(v)
    ensures other != idx ==> At(SetAt(t, idx, v).value, other) == At(t, other)
  {
    if other != idx && InBounds(t.shape, other) {
      FlatIndexInjective(t.shape, idx, other);
    }
  }

  // ---------------------------------------------------------------------------
  // Reshape and transform
  // ---------------------------------------------------------------------------

  /** `reshape(new_shape)`: the same buffer under a shape with the same element count. */
  function Reshape<T>(t: Tensor<T>, shape: seq<nat>): (r: Result<Tensor<T>>)
    ensures r.Ok? <==> Product(shape) == |t.data|
    ensures r.Err? ==> r.error == InvalidArgument
    ensures r.Ok? ==> r.value.shape == shape && r.value.data == t.data && Valid(r.value)
  {
    if Product(shape) != |t.data| then Err(InvalidArgument) else Ok(Tensor(shape, t.data))
  }

  /** Reshaping to a shape and back restores the tensor; the flat order of the elements
      never moves, so a multi-index reads the element at the same flat offset after the
      reshape as the unravelled offset did before. */
  lemma ReshapeRoundTrip<T>(t: Tensor<T>, shape: seq<nat>, idx: seq<nat>)
    requires Valid(t) && Product(shape) == |t.data|
    ensures Reshape(Reshape(t, shape).value, t.shape) == Ok(t)
    ensures InBounds(shape, idx) ==>
      FlatIndex(shape, idx) < |t.data| &&
      At(Reshape(t, shape).value, idx) == At(t, Unravel(t.shape, FlatIndex(shape, idx)))
  {
    if InBounds(shape, idx) {
      var k := FlatIndex(shape, idx);
      FlatIndexBound(shape, idx);
      ElementIsAt(t, k);
    }
  }

  /** `transform(f)`: every element replaced by f of itself, in flat order. */
  function Transform<T>(t: Tensor<T>, f: T -> T): (r: Tensor<T>)
    ensures r.shape == t.shape && |r.data| == |t.data|
  {
    Tensor(t.shape, seq(|t.data|, i requires 0 <= i < |t.data| => f(t.data[i])))
  }

  /** After a transform every multi-index reads f of what it read before, and two
      transforms compose. */
  lemma TransformAt<T>(t: Tensor<T>, f: T -> T, g: T -> T, idx: seq<nat>)
    requires Valid(t)
    ensures Valid(Transform(t, f))
    ensures InBounds(t.shape, idx) ==> At(Transform(t, f), idx) == Ok(f(At(t, idx).value))
    ensures Transform(Transform(t, f), g) == Transform(t, x => g(f(x)))
  {
  }

  // ---------------------------------------------------------------------------
  // Permute
  // ---------------------------------------------------------------------------

  /** The shape after permuting the axes: new dim i is old dim p[i]. */
  function PermutedShape(shape: seq<nat>, p: seq<nat>): (r: seq<nat>)
    requires IsPermutation(p, |shape|)
    ensures |r| == |shape| && Product(r) == Product(shape)
    ensures forall i :: 0 <= i < |r| ==> r[i] == shape[p[i]]
  {
    ProductReindex(shape, p);
    Reindex(shape, p)
  }

  /** The old buffer position that new position i is copied from: i unravelled over the
      new shape, each coordinate weighted by the old stride of the axis it came from. */
  function GatherSource(shape: seq<nat>, p: seq<nat>, i: nat): (k: nat)
    requires IsPermutation(p, |shape|) && i < Product(shape)
    ensures InBounds(shape, Scatter(p, Unravel(PermutedShape(shape, p), i)))
    ensures k == FlatIndex(shape, Scatter(p, Unravel(PermutedShape(shape, p), i)))
    ensures k < Product(shape)
  {
    var newShape := PermutedShape(shape, p);
    var j := Unravel(newShape, i);
    UnravelInverse(newShape, i);
    ScatterInBounds(shape, p, j, []);
    var src := Scatter(p, j);
    ScatterInverse(p, j, src);
    StridesRowMajor(shape);
    DotReindex(src, Strides(shape), p);
    FlatIndexBound(shape, src);
    Dot(j, Reindex(Strides(shape), p))
  }

  /** The inner loop of `permute`: peel the coordinates of i off with the new strides,
      first axis first, and add each one times the old stride of its source axis. */
  method GatherIndex(shape: seq<nat>, p: seq<nat>, i: nat) returns (oldIndex: nat)
    requires IsPermutation(p, |shape|) && i < Product(shape)
    ensures oldIndex == GatherSource(shape, p, i)
  {
    var newShape := PermutedShape(shape, p);
    var oldStrides := ComputeStrides(shape);
    var newStrides := ComputeStrides(newShape);
    StridesRowMajor(shape);
    var weights := Reindex(oldStrides, p);
    oldIndex := 0;
    var temp: nat := i;
    var j := 0;
    while j < |shape|
      invariant 0 <= j <= |shape|
      invariant temp < Product(newShape[j..])
      invariant oldIndex + Dot(Unravel(newShape[j..], temp), weights[j..]) == Dot(Unravel(newShape, i), weights)
    {
      var stride := newStrides[j];
      assert stride == Product(newShape[j + 1..]);
      GatherStep(newShape, weights, j, temp);
      var coord := temp / stride;
      temp := temp % stride;
      oldIndex := oldIndex + coord * weights[j];
      j := j + 1;
    }
    assert newShape[0..] == newShape && weights[0..] == weights;
  }

  /** One round of the inner loop of `permute`: the quotient by the stride of axis j is
      that axis's coordinate, the remainder the offset within the trailing axes. */
  lemma GatherStep(newShape: seq<nat>, weights: seq<nat>, j: nat, temp: nat)
    requires |weights| == |newShape| && j < |newShape| && temp < Product(newShape[j..])
    ensures Product(newShape[j + 1..]) > 0
    ensures temp % Product(newShape[j + 1..]) < Product(newShape[j + 1..])
    ensures temp / Product(newShape[j + 1..]) >= 0 && temp / Product(newShape[j + 1..]) * weights[j] >= 0
    ensures temp / Product(newShape[j + 1..]) * weights[j]
      + Dot(Unravel(newShape[j + 1..], temp % Product(newShape[j + 1..])), weights[j + 1..])
      == Dot(Unravel(newShape[j..], temp), weights[j..])
  {
    var rest := newShape[j..];
    assert rest[1..] == newShape[j + 1..];
    assert weights[j..][1..] == weights[j + 1..];
  }

  /** `permute(permutation)`: the axis order must name every axis exactly once (an
      invalid argument otherwise, checked before anything changes); the result holds the
      permuted shape, the buffer gathered in the new row-major order, and that shape again
      as the returned value. */
  function Permute<T>(t: Tensor<T>, p: seq<nat>): (r: Result<(Tensor<T>, seq<nat>)>)
    requires Valid(t)
    ensures r.Ok? <==> IsPermutation(p, |t.shape|)
    ensures r.Err? ==> r.error == InvalidArgument
    ensures r.Ok? ==> Valid(r.value.0) && r.value.1 == r.value.0.shape
    ensures r.Ok? ==> |r.value.0.shape| == |p| && forall i :: 0 <= i < |p| ==> r.value.0.shape[i] == t.shape[p[i]]
  {
    if |p| != |t.shape| then Err(InvalidArgument)
    else if !IsPermutation(p, |t.shape|) then Err(InvalidArgument)
    else
      var newShape := PermutedShape(t.shape, p);
      var data := seq(|t.data|, i requires 0 <= i < |t.data| => t.data[GatherSource(t.shape, p, i)]);
      Ok((Tensor(newShape, data), newShape))
  }

  /** The permuted tensor at a multi-index j holds the element the original holds at the
      multi-index i with i[p[k]] == j[k]; equivalently, every original element i reappears
      at the gathered index j[k] == i[p[k]]. */
  lemma {:induction false} PermuteAt<T>(t: Tensor<T>, p: seq<nat>, j: seq<nat>, i: seq<nat>)
    requires Valid(t) && IsPermutation(p, |t.shape|)
    requires InBounds(PermutedShape(t.shape, p), j)
    requires InBounds(t.shape, i)
    ensures InBounds(t.shape, Scatter(p, j))
    ensures At(Permute(t, p).value.0, j) == At(t, Scatter(p, j))
    ensures At(Permute(t, p).value.0, Reindex(i, p)) == At(t, i)
  {
    var newShape := PermutedShape(t.shape, p);
    var u := Permute(t, p).value.0;
    ScatterInBounds(t.shape, p, j, i);
    var k := FlatIndex(newShape, j);
    FlatIndexInverse(newShape, j);
    assert u.data[k] == t.data[GatherSource(t.shape, p, k)];
    ScatterInverse(p, j, i);
  }

  /** `permute`'s validity loop: each axis must be below the rank and not yet used. */
  method ValidatePermutation(rank: nat, p: seq<nat>) returns (ok: bool)
    requires |p| == rank
    ensures ok <==> IsPermutation(p, rank)
  {
    var used := seq(rank, _ => false);
    var i := 0;
    while i < |p|
      invariant 0 <= i <= |p| && |used| == rank
      invariant forall j :: 0 <= j < i ==> p[j] < rank
      invariant Distinct(p[..i])
      invariant forall m :: 0 <= m < rank ==> (used[m] <==> m in p[..i])
    {
      if p[i] >= rank || used[p[i]] {
        assert !IsPermutation(p, rank) by {
          if p[i] < rank {
            var j :| 0 <= j < i && p[..i][j] == p[i];
            assert p[j] == p[i];
          }
        }
        return false;
      }
      assert p[..i + 1] == p[..i] + [p[i]];
      used := used[p[i] := true];
      i := i + 1;
    }
    assert p[..i] == p;
    return true;
  }

  // ---------------------------------------------------------------------------
  // Equality and text form
  // ---------------------------------------------------------------------------

  /** `operator==`: same shape and same buffer. */
  predicate Equal<T(==)>(a: Tensor<T>, b: Tensor<T>)
  {
    a.shape == b.shape && a.data == b.data
  }

  /** `operator!=`. */
  predicate NotEqual<T(==)>(a: Tensor<T>, b: Tensor<T>)
  {
    !Equal(a, b)
  }

  /** Tensor equality is value equality, and `!=` is its negation. */
  lemma EqualIsIdentity<T>(a: Tensor<T>, b: Tensor<T>)
    ensures Equal(a, b) <==> a == b
    ensures NotEqual(a, b) <==> a != b
  {
  }

  /** `serialize()` for integer elements: the rank, each dim, then each element, every
      number followed by one space. */
  function Serialize(t: Tensor<int>): string
  {
    TensorText(t.shape, t.data)
  }

  /** `deserialize(str)`: read the rank, that many dims, then integers until a read fails,
      and hand both to the data constructor (so no values at all means default-filled). */
  function Deserialize(text: string): Result<Tensor<int>>
  {
    var (afterRank, rank) := ReadNat(Stream(text, true));
    var (afterDims, dims) := ReadNats(afterRank, rank);
    FromData(dims, ReadIntsWhileGood(afterDims), 0)
  }

  /** Deserializing what serialize wrote gives back the tensor, for any tensor of rank at
      least one. */
  lemma SerializeRoundTrip(t: Tensor<int>)
    requires Valid(t) && |t.shape| > 0
    ensures Deserialize(Serialize(t)) == Ok(t)
  {
    ReadHeaderText(t.shape, IntsText(t.data));
    assert " " + IntsText(t.data) == " " + IntsText(t.data) + "";
    ReadIntsWhileGoodText(" ", t.data, "");
  }

  /** A rank-0 tensor (reachable through reshape to an empty shape) serializes to text
      whose deserialization fails: the rank read is 0 and the empty shape is rejected. */
  lemma SerializeRankZero(t: Tensor<int>)
    requires |t.shape| == 0
    ensures Deserialize(Serialize(t)) == Err(InvalidArgument)
  {
    ReadHeaderText(t.shape, IntsText(t.data));
  }

  /** Text that stops after the dims deserializes to a tensor of that shape whose
      elements are all the default 0. */
  lemma DeserializeHeaderOnly(shape: seq<nat>)
    requires |shape| > 0
    ensures Deserialize(NatText(|shape|) + " " + NatsText(shape)) == Ok(Tensor(shape, seq(Product(shape), _ => 0)))
  {
    var text := NatText(|shape|) + " " + NatsText(shape);
    assert text == NatText(|shape|) + " " + NatsText(shape) + "";
    ReadHeaderText(shape, "");
    var (afterRank, rank) := ReadNat(Stream(text, true));
    assert afterRank == Stream(" " + NatsText(shape) + "", true) && rank == |shape|;
    var (afterDims, dims) := ReadNats(afterRank, rank);
    assert afterDims == Stream(" ", true) && dims == shape;
    NothingLeft();
    assert Deserialize(text) == FromData(shape, [], 0);
  }

  /** A stream holding one space has no values. */
  lemma NothingLeft()
    ensures ReadIntsWhileGood(Stream(" ", true)) == []
  {
    assert " " == "" + IntsText([]) + " ";
    ReadIntsWhileGoodText("", [], " ");
  }
}
