/** The stride-caching tensor of tensor_impl.hpp: it stores its dims, the row-major
    strides of those dims and a flat buffer. It accepts an empty dims list (a rank-0
    tensor holding one element), addresses elements through the cached strides, and
    permutes by scattering every old element to its new position. Mutating members are
    modelled as functions returning the new tensor; the default element `T()` is
    passed in as `zero`. */
module Strided {
  import opened Except
  import opened Shape
  import opened Perm
  import opened Text
  import Dense

  datatype STensor<T> = STensor(dims: seq<nat>, strides: seq<nat>, data: seq<T>)

  /** The cached strides are those of the dims and the buffer holds one element per
      multi-index. Every constructor and mutator below keeps this. */
  predicate Valid<T>(t: STensor<T>)
  {
    t.strides == Strides(t.dims) && |t.data| == Product(t.dims)
  }

  /** The same dims and buffer seen as a tensor of the stride-free class. */
  function AsDense<T>(t: STensor<T>): Dense.Tensor<T>
  {
    Dense.Tensor(t.dims, t.data)
  }

  // ---------------------------------------------------------------------------
  // Strides and flat offsets
  // ---------------------------------------------------------------------------

  /** `calculate_strides()`: nothing for empty dims; otherwise the last stride is 1 and
      each earlier one is the next stride times the next dim. */
  method CalculateStrides(dims: seq<nat>) returns (strides: seq<nat>)
    ensures |strides| == |dims|
    ensures |dims| > 0 ==> strides[|dims| - 1] == 1
    ensures forall i, j :: 0 <= i && j == i + 1 < |dims| ==> strides[i] == strides[j] * dims[j]
    ensures strides == Strides(dims)
  {
    StridesRowMajor(dims);
    if |dims| == 0 {
      return [];
    }
    strides := BackwardStrides(dims);
  }

  /** The sum of the pairwise products, accumulated from the first pair on. */
  method SumProducts(a: seq<nat>, b: seq<nat>) returns (sum: nat)
    requires |a| == |b|
    ensures sum == Dot(a, b)
  {
    sum := 0;
    var i := 0;
    while i < |a|
      invariant 0 <= i <= |a|
      invariant sum == Dot(a[..i], b[..i])
    {
      DotSnoc(a, b, i);
      sum := sum + a[i] * b[i];
      i := i + 1;
    }
    assert a[..i] == a && b[..i] == b;
  }

  /** `calculate_flat_index(indices)`: the wrong number of indices is an invalid argument;
      the components are checked from the first axis on, each against its dim, while the
      products with the cached strides are summed. The outcome is the one the stride-free
      class computes from the dims alone. */
  method CalculateFlatIndex<T>(t: STensor<T>, idx: seq<nat>) returns (r: Result<nat>)
    requires Valid(t)
    ensures r == Dense.Locate(t.dims, idx)
    ensures r.Ok? ==> r.value < |t.data|
  {
    if |idx| != |t.dims| {
      return Err(InvalidArgument);
    }
    var flat := 0;
    var i := 0;
    while i < |idx|
      invariant 0 <= i <= |idx|
      invariant forall j :: 0 <= j < i ==> idx[j] < t.dims[j]
      invariant flat == Dot(idx[..i], t.strides[..i])
    {
      if idx[i] >= t.dims[i] {
        Dense.LocateOutOfRange(t.dims, idx, i);
        return Err(OutOfRange);
      }
      DotSnoc(idx, t.strides, i);
      flat := flat + idx[i] * t.strides[i];
      i := i + 1;
    }
    assert idx[..i] == idx && t.strides[..i] == t.strides;
    Dense.LocateInBounds(t.dims, idx);
    return Ok(flat);
  }

  // ---------------------------------------------------------------------------
  // Construction and element access
  // ---------------------------------------------------------------------------

  /** The dims-only constructor (every element `T()`) and the fill constructor: one
      element per multi-index of the dims, all equal to the value. Any dims are accepted,
      the empty list included. */
  function Filled<T>(dims: seq<nat>, value: T): (t: STensor<T>)
    ensures Valid(t) && t.dims == dims
    ensures forall i :: 0 <= i < |t.data| ==> t.data[i] == value
  {
    STensor(dims, Strides(dims), seq(Product(dims), _ => value))
  }

  /** The data constructor: the buffer must hold exactly one element per multi-index of
      the dims, otherwise an invalid argument. */
  function FromData<T>(dims: seq<nat>, data: seq<T>): (r: Result<STensor<T>>)
    ensures r.Ok? <==> |data| == Product(dims)
    ensures r.Err? ==> r.error == InvalidArgument
    ensures r.Ok? ==> Valid(r.value) && r.value.dims == dims && r.value.data == data
  {
    if |data| != Product(dims) then Err(InvalidArgument)
    else Ok(STensor(dims, Strides(dims), data))
  }

  /** `size()` is the buffer length. */
  function Size<T>(t: STensor<T>): nat
  {
    |t.data|
  }

  /** `empty()`: no element held. */
  predicate IsEmpty<T>(t: STensor<T>)
  {
    |t.data| == 0
  }

  /** A well-formed tensor holds the product of its dims, so it is empty exactly when one
      of its dims is zero; a rank-0 tensor holds one element. */
  lemma SizeOfDims<T>(t: STensor<T>)
    requires Valid(t)
    ensures Size(t) == Product(t.dims)
    ensures IsEmpty(t) <==> exists i :: 0 <= i < |t.dims| && t.dims[i] == 0
    ensures |t.dims| == 0 ==> Size(t) == 1
  {
    ProductZero(t.dims);
  }

  /** `operator[](index)`: the flat buffer position, out of range past the end. */
  function Element<T>(t: STensor<T>, k: nat): (r: Result<T>)
    ensures r.Ok? <==> k < |t.data|
    ensures r.Err? ==> r.error == OutOfRange
    ensures r.Ok? ==> r.value == t.data[k]
  {
    if k < |t.data| then Ok(t.data[k]) else Err(OutOfRange)
  }

  /** `at(indices)`: the element at the flat index, with that function's errors. */
  function At<T>(t: STensor<T>, idx: seq<nat>): (r: Result<T>)
    requires Valid(t)
    ensures r.Ok? <==> InBounds(t.dims, idx)
    ensures r.Err? ==> r.error == Dense.Locate(t.dims, idx).error
  {
    var k :- Dense.Locate(t.dims, idx);
    Ok(t.data[k])
  }

  /** Reading through the cached strides agrees with reading the same dims and buffer
      through the stride-free class, and every buffer position is reached by the
      multi-index it unravels to. */
  lemma AtAgreesWithDense<T>(t: STensor<T>, idx: seq<nat>, k: nat)
    requires Valid(t)
    ensures At(t, idx) == Dense.At(AsDense(t), idx)
    ensures k < |t.data| ==> At(t, Unravel(t.dims, k)) == Ok(t.data[k])
  {
    if k < |t.data| {
      Dense.ElementIsAt(AsDense(t), k);
    }
  }

  /** A write through the reference `at` returns: the element at the index replaced,
      with `at`'s errors. */
  function SetAt<T>(t: STensor<T>, idx: seq<nat>, v: T): (r: Result<STensor<T>>)
    requires Valid(t)
    ensures r.Ok? <==> InBounds(t.dims, idx)
    ensures r.Err? ==> r.error == Dense.Locate(t.dims, idx).error
    ensures r.Ok? ==> Valid(r.value) && r.value.dims == t.dims
  {
    var k :- Dense.Locate(t.dims, idx);
    Ok(t.(data := t.data[k := v]))
  }

  /** After a write the index reads the written value and every other index reads what
      it did before. */
  lemma AtSetAt<T>(t: STensor<T>, idx: seq<nat>, v: T, other: seq<nat>)
    requires Valid(t) && InBounds(t.dims, idx)
    ensures At(SetAt(t, idx, v).value, idx) == Ok(v)
    ensures other != idx ==> At(SetAt(t, idx, v).value, other) == At(t, other)
  {
    if other != idx && InBounds(t.dims, other) {
      FlatIndexInjective(t.dims, idx, other);
    }
  }

  // ---------------------------------------------------------------------------
  // Equality, reshape, transform
  // ---------------------------------------------------------------------------

  /** `operator==`: the dims and the buffers are equal (the strides are not compared). */
  predicate Equal<T(==)>(a: STensor<T>, b: STensor<T>)
  {
    a.dims == b.dims && a.data == b.data
  }

  /** `operator!=`. */
  predicate NotEqual<T(==)>(a: STensor<T>, b: STensor<T>)
  {
    !Equal(a, b)
  }

  /** On well-formed tensors the strides follow from the dims, so equality of dims and
      buffers is equality of the tensors. */
  lemma EqualIsIdentity<T>(a: STensor<T>, b: STensor<T>)
    requires Valid(a) && Valid(b)
    ensures Equal(a, b) <==> a == b
    ensures NotEqual(a, b) <==> a != b
  {
  }

  /** `reshape(new_dims)`: the product of the new dims must equal the buffer length,
      otherwise an invalid argument; the dims are replaced, the strides recomputed and the
      buffer kept. */
  function Reshape<T>(t: STensor<T>, newDims: seq<nat>): (r: Result<STensor<T>>)
    ensures r.Ok? <==> Product(newDims) == |t.data|
    ensures r.Err? ==> r.error == InvalidArgument
    ensures r.Ok? ==> Valid(r.value) && r.value.dims == newDims && r.value.data == t.data
  {
    if Product(newDims) != |t.data| then Err(InvalidArgument)
    else Ok(STensor(newDims, Strides(newDims), t.data))
  }

  /** Reshaping back restores the tensor, and an element of the reshaped tensor is the
      element of the original at the same flat position. */
  lemma ReshapeRoundTrip<T>(t: STensor<T>, newDims: seq<nat>, idx: seq<nat>)
    requires Valid(t) && Product(newDims) == |t.data|
    ensures Reshape(Reshape(t, newDims).value, t.dims) == Ok(t)
    ensures InBounds(newDims, idx) ==>
      FlatIndex(newDims, idx) < |t.data| &&
      At(Reshape(t, newDims).value, idx) == At(t, Unravel(t.dims, FlatIndex(newDims, idx)))
  {
    if InBounds(newDims, idx) {
      FlatIndexBound(newDims, idx);
      AtAgreesWithDense(t, [], FlatIndex(newDims, idx));
    }
  }

  /** `transform(func)`: every element replaced by its image, in buffer order; the dims
      and strides are kept. */
  function Transform<T>(t: STensor<T>, f: T -> T): (r: STensor<T>)
    ensures r.dims == t.dims && r.strides == t.strides && |r.data| == |t.data|
  {
    t.(data := seq(|t.data|, i requires 0 <= i < |t.data| => f(t.data[i])))
  }

  /** The transformed tensor is well formed and holds the image of each element at the
      same multi-index. */
  lemma TransformAt<T>(t: STensor<T>, f: T -> T, idx: seq<nat>)
    requires Valid(t)
    ensures Valid(Transform(t, f))
    ensures InBounds(t.dims, idx) ==> At(Transform(t, f), idx) == Ok(f(At(t, idx).value))
  {
  }

  // ---------------------------------------------------------------------------
  // Permute by scattering
  // ---------------------------------------------------------------------------

  /** The checks `permute(axes)` makes before moving anything: the number of axes must be
      the rank (an invalid argument otherwise) and every axis must be below the rank (out
      of range otherwise). Repeated axes are not looked for. */
  function CheckAxes(rank: nat, axes: seq<nat>): (r: Result<()>)
    ensures r.Ok? <==> |axes| == rank && forall i :: 0 <= i < |axes| ==> axes[i] < rank
    ensures r.Err? ==> r.error == (if |axes| != rank then InvalidArgument else OutOfRange)
  {
    if |axes| != rank then Err(InvalidArgument)
    else if exists i :: 0 <= i < |axes| && axes[i] >= rank then Err(OutOfRange)
    else Ok(())
  }

  /** Where the scatter loop writes the element whose old multi-index is idx: entry k of
      the new multi-index is idx[axes[k]], weighted by the row-major strides of the new
      dims (new dim k is dims[axes[k]]). */
  function ScatterTarget(dims: seq<nat>, axes: seq<nat>, idx: seq<nat>): nat
    requires |axes| == |dims| == |idx| && forall k :: 0 <= k < |axes| ==> axes[k] < |dims|
  {
    FlatIndex(Reindex(dims, axes), Reindex(idx, axes))
  }

  /** With a repeated axis the checks pass, yet the scatter writes past the end of the new
      buffer: for dims [2, 5] and axes [1, 1] the new dims are [5, 5] with strides [5, 1],
      and the old index [1, 4] is sent to 4 * 5 + 4 = 24 in a buffer of 10 elements. */
  lemma DuplicateAxesOverrun()
    ensures CheckAxes(2, [1, 1]) == Ok(())
    ensures InBounds([2, 5], [1, 4])
    ensures Product([2, 5]) == 10
    ensures ScatterTarget([2, 5], [1, 1], [1, 4]) == 24
  {
    assert Reindex([2, 5], [1, 1]) == [5, 5];
    assert Reindex([1, 4], [1, 1]) == [4, 4];
    assert [5, 5][1..] == [5] && [4, 4][1..] == [4];
    FlatIndexCons([5, 5], [4, 4]);
    FlatIndexCons([5], [4]);
    assert [5][1..] == [] && [4][1..] == [];
    assert [2, 5][1..] == [5];
  }

  /** For a permutation the scatter target is the new row-major offset of the gathered
      multi-index, so it stays inside the buffer. */
  lemma TargetInBounds(dims: seq<nat>, axes: seq<nat>, idx: seq<nat>)
    requires IsPermutation(axes, |dims|) && InBounds(dims, idx)
    ensures ScatterTarget(dims, axes, idx) < Product(dims)
  {
    ScatterInBounds(dims, axes, [], idx);
    FlatIndexBound(Reindex(dims, axes), Reindex(idx, axes));
    ProductReindex(dims, axes);
  }

  /** The element at old flat position i is written to the position whose gather source
      (in the stride-free class) is i. */
  lemma TargetSourceInverse(dims: seq<nat>, axes: seq<nat>, i: nat)
    requires IsPermutation(axes, |dims|) && i < Product(dims)
    ensures ScatterTarget(dims, axes, Unravel(dims, i)) < Product(dims)
    ensures Dense.GatherSource(dims, axes, ScatterTarget(dims, axes, Unravel(dims, i))) == i
  {
    var idx := Unravel(dims, i);
    UnravelInverse(dims, i);
    TargetInBounds(dims, axes, idx);
    var newDims := Dense.PermutedShape(dims, axes);
    assert newDims == Reindex(dims, axes);
    var j := Reindex(idx, axes);
    ScatterInBounds(dims, axes, [], idx);
    FlatIndexInverse(newDims, j);
    ScatterInverse(axes, j, idx);
  }

  /** Conversely the position the gather reads from for new position m is the one whose
      element the scatter sends to m. */
  lemma SourceTargetInverse(dims: seq<nat>, axes: seq<nat>, m: nat)
    requires IsPermutation(axes, |dims|) && m < Product(dims)
    ensures ScatterTarget(dims, axes, Unravel(dims, Dense.GatherSource(dims, axes, m))) == m
  {
    var newDims := Dense.PermutedShape(dims, axes);
    assert newDims == Reindex(dims, axes);
    var j := Unravel(newDims, m);
    var src := Scatter(axes, j);
    var k := Dense.GatherSource(dims, axes, m);
    assert InBounds(dims, src) && k == FlatIndex(dims, src);
    FlatIndexInverse(dims, src);
    assert Unravel(dims, k) == src;
    ScatterInverse(axes, j, src);
    assert ScatterTarget(dims, axes, src) == FlatIndex(newDims, j);
    UnravelInverse(newDims, m);
  }

  /** The new buffer after the first k rounds of the scatter loop: round i writes the
      element at old flat position i to its scatter target; positions not yet written
      hold the default element. */
  function ScatterSteps<T>(dims: seq<nat>, axes: seq<nat>, data: seq<T>, zero: T, k: nat): (buf: seq<T>)
    requires IsPermutation(axes, |dims|) && |data| == Product(dims) && k <= |data|
    ensures |buf| == |data|
    decreases k
  {
    if k == 0 then seq(|data|, _ => zero)
    else
      var prev := ScatterSteps(dims, axes, data, zero, k - 1);
      UnravelInverse(dims, k - 1);
      TargetInBounds(dims, axes, Unravel(dims, k - 1));
      prev[ScatterTarget(dims, axes, Unravel(dims, k - 1)) := data[k - 1]]
  }

  /** Round k of the scatter loop writes exactly one position: the one whose gather
      source is k. */
  lemma ScatterStep<T>(dims: seq<nat>, axes: seq<nat>, data: seq<T>, zero: T, k: nat, m: nat)
    requires IsPermutation(axes, |dims|) && |data| == Product(dims) && k < |data| && m < |data|
    ensures ScatterSteps(dims, axes, data, zero, k + 1)[m] ==
      if Dense.GatherSource(dims, axes, m) == k then data[k] else ScatterSteps(dims, axes, data, zero, k)[m]
  {
    var target := ScatterTarget(dims, axes, Unravel(dims, k));
    TargetSourceInverse(dims, axes, k);
    SourceTargetInverse(dims, axes, m);
    assert ScatterSteps(dims, axes, data, zero, k + 1) == ScatterSteps(dims, axes, data, zero, k)[target := data[k]];
  }

  /** After k rounds, position m holds its gather source's element if that source has
      been visited, and the default element otherwise. */
  lemma {:induction false} ScatterStepsHold<T>(dims: seq<nat>, axes: seq<nat>, data: seq<T>, zero: T, k: nat, m: nat)
    requires IsPermutation(axes, |dims|) && |data| == Product(dims) && k <= |data| && m < |data|
    ensures Dense.GatherSource(dims, axes, m) < k ==> ScatterSteps(dims, axes, data, zero, k)[m] == data[Dense.GatherSource(dims, axes, m)]
    ensures Dense.GatherSource(dims, axes, m) >= k ==> ScatterSteps(dims, axes, data, zero, k)[m] == zero
    decreases k
  {
    if k > 0 {
      var source := Dense.GatherSource(dims, axes, m);
      var before := ScatterSteps(dims, axes, data, zero, k - 1);
      ScatterStepsHold(dims, axes, data, zero, k - 1, m);
      ScatterStep(dims, axes, data, zero, k - 1, m);
      if source == k - 1 {
        assert ScatterSteps(dims, axes, data, zero, k)[m] == data[source];
      } else {
        assert ScatterSteps(dims, axes, data, zero, k)[m] == before[m];
      }
    }
  }

  /** `permute(axes)`, with the check for repeated axes that the scatter needs: the
      number of axes must be the rank (invalid argument), every axis below the rank (out
      of range), and no axis repeated (invalid argument), all before anything changes.
      The new dims are the old dims taken along the axes, the strides are recomputed and
      the buffer is the one the scatter loop fills. */
  function Permute<T>(t: STensor<T>, axes: seq<nat>, zero: T): (r: Result<STensor<T>>)
    requires Valid(t)
    ensures r.Ok? <==> IsPermutation(axes, |t.dims|)
    ensures r.Err? ==> r.error == (if CheckAxes(|t.dims|, axes).Err? then CheckAxes(|t.dims|, axes).error else InvalidArgument)
    ensures r.Ok? ==> Valid(r.value) && |r.value.dims| == |axes|
    ensures r.Ok? ==> forall k :: 0 <= k < |axes| ==> r.value.dims[k] == t.dims[axes[k]]
  {
    var _ :- CheckAxes(|t.dims|, axes);
    if !Distinct(axes) then Err(InvalidArgument)
    else
      var newDims := Reindex(t.dims, axes);
      ProductReindex(t.dims, axes);
      Ok(STensor(newDims, Strides(newDims), ScatterSteps(t.dims, axes, t.data, zero, |t.data|)))
  }

  /** Every old element reappears at the gathered multi-index: the permuted tensor holds
      at j, with j[k] == i[axes[k]], what the original holds at i, and the default element
      appears nowhere. */
  lemma PermuteAt<T>(t: STensor<T>, axes: seq<nat>, zero: T, i: seq<nat>)
    requires Valid(t) && IsPermutation(axes, |t.dims|) && InBounds(t.dims, i)
    ensures InBounds(Permute(t, axes, zero).value.dims, Reindex(i, axes))
    ensures At(Permute(t, axes, zero).value, Reindex(i, axes)) == At(t, i)
  {
    var r := Permute(t, axes, zero).value;
    ScatterInBounds(t.dims, axes, [], i);
    assert r.dims == Reindex(t.dims, axes);
    var k := FlatIndex(t.dims, i);
    FlatIndexInverse(t.dims, i);
    TargetSourceInverse(t.dims, axes, k);
    ScatterStepsHold(t.dims, axes, t.data, zero, |t.data|, ScatterTarget(t.dims, axes, i));
  }

  /** The scatter permute and the gather permute of the stride-free class produce the
      same dims and the same buffer for every permutation. */
  lemma PermuteMatchesGather<T>(t: STensor<T>, axes: seq<nat>, zero: T)
    requires Valid(t) && IsPermutation(axes, |t.dims|)
    ensures Dense.Permute(AsDense(t), axes).Ok?
    ensures Permute(t, axes, zero).value.dims == Dense.Permute(AsDense(t), axes).value.0.shape
    ensures Permute(t, axes, zero).value.data == Dense.Permute(AsDense(t), axes).value.0.data
  {
    var scattered := Permute(t, axes, zero).value.data;
    var gathered := Dense.Permute(AsDense(t), axes).value.0.data;
    forall m | 0 <= m < |t.data|
      ensures scattered[m] == gathered[m]
    {
      ScatterStepsHold(t.dims, axes, t.data, zero, |t.data|, m);
    }
  }

  /** The loops of `permute` once the axes are known to form a permutation: walk the old
      multi-indices in row-major order with an odometer, compute the old offset with the
      old strides and the new offset from the gathered indices and the new strides, and
      copy the element across. */
  method ScatterLoop<T>(t: STensor<T>, axes: seq<nat>, zero: T) returns (buf: seq<T>)
    requires Valid(t) && IsPermutation(axes, |t.dims|)
    ensures buf == Permute(t, axes, zero).value.data
  {
    var newDims := Reindex(t.dims, axes);
    var newStrides := CalculateStrides(newDims);
    buf := seq(|t.data|, _ => zero);
    var indices := Zeros(|t.dims|);
    if |t.data| > 0 {
      UnravelZero(t.dims);
    }
    var i := 0;
    while i < |t.data|
      invariant 0 <= i <= |t.data| && |indices| == |t.dims|
      invariant i < |t.data| ==> indices == Unravel(t.dims, i)
      invariant buf == ScatterSteps(t.dims, axes, t.data, zero, i)
    {
      buf := ScatterRound(t, axes, zero, i, indices, newStrides, buf);
      IncrementUnravel(t.dims, i);
      indices := Increment(t.dims, indices).0;
      i := i + 1;
    }
    PermuteData(t, axes, zero);
  }

  /** A permutation passes every check, and the buffer is the scatter's after all rounds. */
  lemma PermuteData<T>(t: STensor<T>, axes: seq<nat>, zero: T)
    requires Valid(t) && IsPermutation(axes, |t.dims|)
    ensures Permute(t, axes, zero).Ok?
    ensures Permute(t, axes, zero).value.data == ScatterSteps(t.dims, axes, t.data, zero, |t.data|)
  {
  }

  /** The body of the scatter loop for the i-th multi-index: its old offset is i, its new
      offset comes from the gathered indices and the new strides, and the element is
      copied there. */
  method ScatterRound<T>(t: STensor<T>, axes: seq<nat>, zero: T, i: nat, indices: seq<nat>,
                         newStrides: seq<nat>, buf: seq<T>) returns (next: seq<T>)
    requires Valid(t) && IsPermutation(axes, |t.dims|) && i < |t.data|
    requires indices == Unravel(t.dims, i) && newStrides == Strides(Reindex(t.dims, axes))
    requires buf == ScatterSteps(t.dims, axes, t.data, zero, i)
    ensures next == ScatterSteps(t.dims, axes, t.data, zero, i + 1)
  {
    ScatterLoopStep(t, axes, zero, i);
    var oldIndex := SumProducts(indices, t.strides);
    var newIndex := SumProducts(Reindex(indices, axes), newStrides);
    next := buf[newIndex := t.data[oldIndex]];
  }

  /** One round of the scatter loop: the old strides send the i-th multi-index back to
      i, and the gathered index with the new strides is round i's target. */
  lemma ScatterLoopStep<T>(t: STensor<T>, axes: seq<nat>, zero: T, i: nat)
    requires Valid(t) && IsPermutation(axes, |t.dims|) && i < |t.data|
    ensures Dot(Unravel(t.dims, i), t.strides) == i
    ensures |Reindex(Unravel(t.dims, i), axes)| == |Strides(Reindex(t.dims, axes))|
    ensures Dot(Reindex(Unravel(t.dims, i), axes), Strides(Reindex(t.dims, axes))) < |t.data|
    ensures ScatterSteps(t.dims, axes, t.data, zero, i)
              [Dot(Reindex(Unravel(t.dims, i), axes), Strides(Reindex(t.dims, axes))) := t.data[i]]
            == ScatterSteps(t.dims, axes, t.data, zero, i + 1)
  {
    UnravelInverse(t.dims, i);
    TargetInBounds(t.dims, axes, Unravel(t.dims, i));
  }

  // ---------------------------------------------------------------------------
  // Serialization
  // ---------------------------------------------------------------------------

  /** `serialize()` for integer elements: the rank, each dim, then each element, every
      number followed by one space. */
  function Serialize(t: STensor<int>): string
  {
    TensorText(t.dims, t.data)
  }

  /** The static `deserialize(str)`: read the rank, that many dims, then exactly as many
      integers as the dims call for (a failed read leaves the slot at 0), and build the
      tensor from them, which cannot fail since the counts agree. */
  function Deserialize(text: string): (t: STensor<int>)
    ensures Valid(t)
  {
    var (afterRank, rank) := ReadNat(Stream(text, true));
    var (afterDims, dims) := ReadNats(afterRank, rank);
    var values := ReadIntsExactly(afterDims, Product(dims)).1;
    STensor(dims, Strides(dims), values)
  }

  /** Deserializing what serialize wrote gives back every well-formed tensor, rank 0
      included. */
  lemma SerializeRoundTrip(t: STensor<int>)
    requires Valid(t)
    ensures Deserialize(Serialize(t)) == t
  {
    ReadHeaderText(t.dims, IntsText(t.data));
    assert " " + IntsText(t.data) == " " + IntsText(t.data) + "";
    ReadIntsExactlyText(" ", t.data, "");
  }

  /** The in-place `deserialize(bytes)`: the bytes are taken as characters and read as
      the static overload reads them. On well-formed text the tensor's previous dims and
      buffer play no part; on truncated text the source keeps old dims and stores
      indeterminate values, which this function does not follow. */
  function DeserializeBytes(bytes: seq<byte>): (t: STensor<int>)
    ensures Valid(t)
  {
    Deserialize(TextOfBytes(bytes))
  }

  /** The bytes of the serialized text deserialize in place to the same tensor. */
  lemma SerializeBytesRoundTrip(t: STensor<int>)
    requires Valid(t)
    ensures IsByteText(Serialize(t))
    ensures DeserializeBytes(BytesOfText(Serialize(t))) == t
  {
    NatTextIsByteText(|t.dims|);
    NatsTextIsByteText(t.dims);
    IntsTextIsByteText(t.data);
    SerializeRoundTrip(t);
  }

  // ---------------------------------------------------------------------------
  // Offset views
  // ---------------------------------------------------------------------------

  /** What `view(index)` hands to the view class: the base offset into the buffer and
      the remaining dims and strides. */
  datatype OffsetView = OffsetView(offset: nat, dims: seq<nat>, strides: seq<nat>)

  /** `view(index)`: an index past the first dim is out of range; otherwise the base
      offset is index times the first stride, and the remaining dims and strides are the
      tails of the tensor's. */
  function View<T>(t: STensor<T>, index: nat): (r: Result<OffsetView>)
    requires Valid(t) && |t.dims| > 0
    ensures r.Ok? <==> index < t.dims[0]
    ensures r.Err? ==> r.error == OutOfRange
    ensures r.Ok? ==> r.value.dims == t.dims[1..] && r.value.strides == Strides(t.dims[1..])
  {
    StridesTail(t.dims);
    if index >= t.dims[0] then Err(OutOfRange)
    else Ok(OffsetView(index * t.strides[0], t.dims[1..], t.strides[1..]))
  }

  /** Addressing the remaining axes from the base offset lands on the tensor's element at
      the index followed by those axes, inside the buffer. */
  lemma ViewAddressesTensor<T>(t: STensor<T>, index: nat, rest: seq<nat>)
    requires Valid(t) && |t.dims| > 0 && index < t.dims[0] && InBounds(t.dims[1..], rest)
    ensures InBounds(t.dims, [index] + rest)
    ensures View(t, index).value.offset + Dot(rest, View(t, index).value.strides)
      == FlatIndex(t.dims, [index] + rest)
    ensures FlatIndex(t.dims, [index] + rest) < |t.data|
  {
    var idx := [index] + rest;
    assert idx[1..] == rest;
    FlatIndexCons(t.dims, idx);
    StridesTail(t.dims);
    FlatIndexBound(t.dims, idx);
  }
}
