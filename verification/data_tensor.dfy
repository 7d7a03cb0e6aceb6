/** The older rank-templated tensor of include/data/tensor.hpp: a shape and a shared
    buffer of product(shape) elements, read through a chain of subscripts
    `t[i0][i1]...` in which every subscript adds its index times the product of the
    dims after its axis. Nothing in the chain compares an index with its dim. The
    template rank only fixes how many subscripts reach an element; it is not compared
    with the shape either, so the model takes the subscripts as a sequence. */
module DataTensor {
  import opened Except
  import opened Shape
  import opened Perm
  import Dense

  datatype DTensor<T> = DTensor(shape: seq<nat>, data: seq<T>)

  /** The buffer holds product(shape) elements: every constructor allocates exactly that
      many and reshape keeps the product. */
  predicate Valid<T>(t: DTensor<T>)
  {
    |t.data| == Product(t.shape)
  }

  /** The same shape and buffer seen as a tensor of the main class. */
  function AsDense<T>(t: DTensor<T>): Dense.Tensor<T>
  {
    Dense.Tensor(t.shape, t.data)
  }

  // ---------------------------------------------------------------------------
  // Construction and size
  // ---------------------------------------------------------------------------

  /** The default constructor: shape [0] and no buffer, hence no element. */
  function Default<T>(): (t: DTensor<T>)
    ensures Valid(t) && t.shape == [0] && |t.data| == 0
  {
    DTensor([0], [])
  }

  /** The shape constructor (every element value-initialised, `zero` here) and the fill
      constructor: product(shape) copies of the value. */
  function Filled<T>(shape: seq<nat>, value: T): (t: DTensor<T>)
    ensures Valid(t) && t.shape == shape
    ensures forall i :: 0 <= i < |t.data| ==> t.data[i] == value
  {
    DTensor(shape, seq(Product(shape), _ => value))
  }

  /** The vector constructor: the data must hold exactly product(shape) elements,
      otherwise a runtime error. */
  function FromData<T>(shape: seq<nat>, data: seq<T>): (r: Result<DTensor<T>>)
    ensures r.Ok? <==> |data| == Product(shape)
    ensures r.Err? ==> r.error == RuntimeError
    ensures r.Ok? ==> Valid(r.value) && r.value.shape == shape && r.value.data == data
  {
    if |data| != Product(shape) then Err(RuntimeError) else Ok(DTensor(shape, data))
  }

  /** The pointer constructor copies the first product(shape) elements it is pointed at;
      the caller must supply that many. */
  function FromPointer<T>(shape: seq<nat>, src: seq<T>): (t: DTensor<T>)
    requires |src| >= Product(shape)
    ensures Valid(t) && t.shape == shape
    ensures forall i :: 0 <= i < |t.data| ==> t.data[i] == src[i]
  {
    DTensor(shape, src[..Product(shape)])
  }

  /** Copying from exactly product(shape) elements through the pointer constructor gives
      what the vector constructor gives, and that one fails on nothing else. */
  lemma FromPointerIsFromData<T>(shape: seq<nat>, src: seq<T>)
    requires |src| >= Product(shape)
    ensures FromData(shape, src[..Product(shape)]) == Ok(FromPointer(shape, src))
    ensures |src| == Product(shape) ==> FromData(shape, src) == Ok(FromPointer(shape, src))
  {
    assert |src| == Product(shape) ==> src[..Product(shape)] == src;
  }

  /** `size()` multiplies the dims; it never looks at the buffer. */
  function Size<T>(t: DTensor<T>): nat
  {
    Product(t.shape)
  }

  /** `empty()`: the size is zero. */
  predicate IsEmpty<T>(t: DTensor<T>)
  {
    Size(t) == 0
  }

  /** A tensor is empty exactly when one of its dims is zero, whatever its buffer; the
      0 x 0 tensor is empty and so is the default one. */
  lemma EmptyIffZeroDim<T>(t: DTensor<T>, value: T)
    ensures IsEmpty(t) <==> exists i :: 0 <= i < |t.shape| && t.shape[i] == 0
    ensures IsEmpty(Filled([0, 0], value)) && IsEmpty(Default<T>())
  {
    ProductZero(t.shape);
    assert Filled([0, 0], value).shape[0] == 0;
    ProductZero(Filled([0, 0], value).shape);
  }

  /** The copy constructor and copy assignment allocate a fresh buffer of product(shape)
      elements and copy them over. */
  function Copy<T>(t: DTensor<T>): (r: DTensor<T>)
    requires Valid(t)
    ensures Valid(r) && r.shape == t.shape
    ensures forall i :: 0 <= i < Size(r) ==> r.data[i] == t.data[i]
  {
    DTensor(t.shape, t.data[..Size(t)])
  }

  /** A copy equals its source, so reads of the two agree until one of them is changed,
      and changing the copy (a new value) leaves the source as it was. */
  lemma CopyIsEqual<T>(t: DTensor<T>)
    requires Valid(t)
    ensures Copy(t) == t
  {
    assert t.data[..Size(t)] == t.data;
  }

  // ---------------------------------------------------------------------------
  // Strides
  // ---------------------------------------------------------------------------

  /** `stride(dim)`: out of range unless dim is below the rank; otherwise the row-major
      stride of that axis, the product of the dims after it. */
  function StrideAt(shape: seq<nat>, dim: nat): (r: Result<nat>)
    ensures r.Ok? <==> dim < |shape|
    ensures r.Err? ==> r.error == OutOfRange
    ensures r.Ok? ==> r.value == Strides(shape)[dim]
    ensures r.Ok? && dim == |shape| - 1 ==> r.value == 1
    ensures r.Ok? && dim + 1 < |shape| ==> r.value == Strides(shape)[dim + 1] * shape[dim + 1]
  {
    StridesRowMajor(shape);
    if dim >= |shape| then Err(OutOfRange) else Ok(Product(shape[dim + 1..]))
  }

  /** `strides()`: the loop from the last axis back, for a shape of rank at least one
      (on an empty shape it writes through `back()` of an empty vector). Entry d is what
      `stride(d)` returns. */
  method StridesOf(shape: seq<nat>) returns (r: seq<nat>)
    requires |shape| > 0
    ensures |r| == |shape|
    ensures forall d :: 0 <= d < |shape| ==> StrideAt(shape, d) == Ok(r[d])
  {
    r := BackwardStrides(shape);
  }

  // ---------------------------------------------------------------------------
  // Chained subscripts
  // ---------------------------------------------------------------------------

  /** The stride a `TensorRef` at axis `dim` multiplies its index by: the product of the
      dims after that axis, 1 once the axis is past the last one. */
  function RefStride(shape: seq<nat>, dim: nat): nat
  {
    if dim < |shape| then Product(shape[dim + 1..]) else 1
  }

  /** `TensorRef<.., dim>::operator[]` applied to each remaining subscript in turn: each
      adds its index times the reference stride of its axis to the offset. */
  function RefChain(shape: seq<nat>, dim: nat, offset: nat, idxs: seq<nat>): nat
    decreases |idxs|
  {
    if |idxs| == 0 then offset
    else RefChain(shape, dim + 1, offset + idxs[0] * RefStride(shape, dim), idxs[1..])
  }

  /** When one subscript remains for each axis from `dim` on, the chain adds the
      row-major flat index of those subscripts within the trailing dims. */
  lemma {:induction false} RefChainFlat(shape: seq<nat>, dim: nat, offset: nat, idxs: seq<nat>)
    requires dim + |idxs| == |shape|
    ensures RefChain(shape, dim, offset, idxs) == offset + FlatIndex(shape[dim..], idxs)
    decreases |idxs|
  {
    if |idxs| > 0 {
      RefChainFlat(shape, dim + 1, offset + idxs[0] * RefStride(shape, dim), idxs[1..]);
      assert shape[dim..][1..] == shape[dim + 1..];
      FlatIndexCons(shape[dim..], idxs);
    } else {
      assert shape[dim..] == [];
    }
  }

  /** The buffer offset `t[i0][i1]...` reaches: the tensor's own subscript multiplies
      i0 by `stride(0)`, then the chain of references adds the rest. */
  function Offset(shape: seq<nat>, idxs: seq<nat>): nat
    requires |shape| > 0 && |idxs| > 0
  {
    RefChain(shape, 1, idxs[0] * Product(shape[1..]), idxs[1..])
  }

  /** With one subscript per axis the offset is the row-major flat index. */
  lemma OffsetIsFlatIndex(shape: seq<nat>, idxs: seq<nat>)
    requires |idxs| == |shape| > 0
    ensures Offset(shape, idxs) == FlatIndex(shape, idxs)
  {
    var first := idxs[0] * Product(shape[1..]);
    RefChainFlat(shape, 1, first, idxs[1..]);
    FlatIndexCons(shape, idxs);
  }

  /** So in-bounds subscripts, one per axis, stay inside the buffer. */
  lemma OffsetInBuffer(shape: seq<nat>, idxs: seq<nat>)
    requires |idxs| == |shape| > 0 && InBounds(shape, idxs)
    ensures Offset(shape, idxs) < Product(shape)
  {
    OffsetIsFlatIndex(shape, idxs);
    FlatIndexBound(shape, idxs);
  }

  /** Reading `t[i0][i1]...` (at least two subscripts: even a rank-one tensor is read as
      `t[i][j]`). A rank-0 shape fails in `stride(0)` with out of range; otherwise the
      element at the offset is returned without any bounds check, so the caller must
      keep the offset inside the buffer. With one subscript per axis that element is
      the one at the row-major flat index, whether or not the subscripts are in bounds. */
  function Read<T>(t: DTensor<T>, idxs: seq<nat>): (r: Result<T>)
    requires Valid(t) && |idxs| >= 2
    requires |t.shape| > 0 ==> Offset(t.shape, idxs) < |t.data|
    ensures r.Ok? <==> |t.shape| > 0
    ensures r.Err? ==> r.error == OutOfRange
    ensures |idxs| == |t.shape| > 0 ==> FlatIndex(t.shape, idxs) < |t.data| && r == Ok(t.data[FlatIndex(t.shape, idxs)])
  {
    if |t.shape| == 0 then Err(OutOfRange)
    else if |idxs| == |t.shape| then
      OffsetIsFlatIndex(t.shape, idxs);
      Ok(t.data[Offset(t.shape, idxs)])
    else Ok(t.data[Offset(t.shape, idxs)])
  }

  /** In-bounds subscripts, one per axis, read the element the main class's `at` reads
      at the same multi-index. */
  lemma ReadAgreesWithAt<T>(t: DTensor<T>, idxs: seq<nat>)
    requires Valid(t) && |idxs| == |t.shape| >= 2 && InBounds(t.shape, idxs)
    ensures Offset(t.shape, idxs) < |t.data|
    ensures Read(t, idxs) == Dense.At(AsDense(t), idxs)
  {
    OffsetInBuffer(t.shape, idxs);
    OffsetIsFlatIndex(t.shape, idxs);
    Dense.AtIsElement(AsDense(t), idxs);
  }

  /** No subscript is compared with its dim: on a 2 x 3 tensor `t[0][3]` is not out of
      range but reads the element `t[1][0]` holds, and `t[2][0]` lands one past the end
      of the buffer. */
  lemma UncheckedSubscriptAliases<T>(t: DTensor<T>)
    requires Valid(t) && t.shape == [2, 3]
    ensures !InBounds(t.shape, [0, 3]) && InBounds(t.shape, [1, 0])
    ensures Offset(t.shape, [0, 3]) == 3 == Offset(t.shape, [1, 0])
    ensures Read(t, [0, 3]) == Read(t, [1, 0]) == Ok(t.data[3])
    ensures Offset(t.shape, [2, 0]) == 6 == |t.data|
  {
    assert t.shape[1..] == [3] && t.shape[2..] == [];
    assert [0, 3][1..] == [3] && [1, 0][1..] == [0] && [2, 0][1..] == [0];
    assert Product([3]) == 3 by {
      assert [3][1..] == [];
    }
    assert Product(t.shape) == 6;
    assert Offset(t.shape, [2, 0]) == RefChain(t.shape, 2, 6, []) == 6;
  }

  /** The bounds-checked chain: every subscript must be below its dim, one per axis,
      else out of range (as is a rank-0 shape); the element read is the one the
      unchecked chain reads. A rank-1 `Vector` is always subscripted twice, so this
      read refuses every read of one; what a checked read of a `Vector` should do is
      not settled by the code. */
  function CheckedRead<T>(t: DTensor<T>, idxs: seq<nat>): (r: Result<T>)
    requires Valid(t) && |idxs| >= 2
    ensures r.Ok? <==> InBounds(t.shape, idxs)
    ensures r.Err? ==> r.error == OutOfRange
    ensures r.Ok? ==> Offset(t.shape, idxs) < |t.data| && r == Read(t, idxs)
    ensures r.Ok? ==> r == Dense.At(AsDense(t), idxs)
  {
    if |t.shape| == 0 || !InBounds(t.shape, idxs) then Err(OutOfRange)
    else
      ReadAgreesWithAt(t, idxs);
      Ok(t.data[Offset(t.shape, idxs)])
  }

  // ---------------------------------------------------------------------------
  // Shape permutation, reshape, transform
  // ---------------------------------------------------------------------------

  /** `permute(order)`: a new shape with entry i equal to dim order[i], computed for
      every axis; nothing is validated (an entry past the rank is read unchecked, so the
      caller must keep order in range) and the tensor itself is left as it is. */
  function PermuteShape<T>(t: DTensor<T>, order: seq<nat>): (r: seq<nat>)
    requires |order| >= |t.shape| && forall i :: 0 <= i < |t.shape| ==> order[i] < |t.shape|
    ensures |r| == |t.shape|
    ensures forall i :: 0 <= i < |r| ==> r[i] == t.shape[order[i]]
  {
    seq(|t.shape|, i requires 0 <= i < |t.shape| => t.shape[order[i]])
  }

  /** For a permutation the permuted shape has the same size, so it can be passed to
      reshape, which relabels the buffer without moving any element. */
  lemma PermuteShapeReshapes<T>(t: DTensor<T>, order: seq<nat>)
    requires Valid(t) && IsPermutation(order, |t.shape|)
    ensures Product(PermuteShape(t, order)) == Size(t)
    ensures Reshape(t, PermuteShape(t, order)) == Ok(DTensor(PermuteShape(t, order), t.data))
  {
    assert PermuteShape(t, order) == Reindex(t.shape, order);
    ProductReindex(t.shape, order);
  }

  /** `reshape(new_shape)`: the new shape's product must equal the size, otherwise a
      runtime error; only the shape changes. */
  function Reshape<T>(t: DTensor<T>, newShape: seq<nat>): (r: Result<DTensor<T>>)
    ensures r.Ok? <==> Product(newShape) == Size(t)
    ensures r.Err? ==> r.error == RuntimeError
    ensures r.Ok? ==> r.value.shape == newShape && r.value.data == t.data
    ensures r.Ok? && Valid(t) ==> Valid(r.value)
  {
    if Product(newShape) != Size(t) then Err(RuntimeError) else Ok(t.(shape := newShape))
  }

  /** Reshaping back restores the tensor. */
  lemma ReshapeRoundTrip<T>(t: DTensor<T>, newShape: seq<nat>)
    requires Product(newShape) == Size(t)
    ensures Reshape(Reshape(t, newShape).value, t.shape) == Ok(t)
  {
  }

  /** `transform(func)`: the first size() elements replaced by their images (the
      function is applied twice per element; as it is pure, to the same effect). */
  function Transform<T>(t: DTensor<T>, f: T -> T): (r: DTensor<T>)
    requires Valid(t)
    ensures Valid(r) && r.shape == t.shape
  {
    t.(data := seq(|t.data|, i requires 0 <= i < |t.data| => f(t.data[i])))
  }

  /** After a transform, at any rank, every element is the image of the old one: seen
      as a tensor of the main class the result is that class's transform, every
      in-bounds multi-index reads the image of what it read before, and so does every
      in-bounds chain of subscripts. */
  lemma TransformAt<T>(t: DTensor<T>, f: T -> T, idxs: seq<nat>)
    requires Valid(t)
    ensures forall i :: 0 <= i < Size(t) ==> Transform(t, f).data[i] == f(t.data[i])
    ensures AsDense(Transform(t, f)) == Dense.Transform(AsDense(t), f)
    ensures InBounds(t.shape, idxs) ==>
      Dense.At(AsDense(Transform(t, f)), idxs) == Ok(f(Dense.At(AsDense(t), idxs).value))
    ensures |idxs| >= 2 && InBounds(t.shape, idxs) ==>
      CheckedRead(Transform(t, f), idxs) == Ok(f(CheckedRead(t, idxs).value))
  {
    Dense.TransformAt(AsDense(t), f, f, idxs);
  }
}
