/** The view class declared inline in the main tensor header: a tensor, a list of
    fixed indices and a const flag. Its value is always read through the tensor's
    `at` on the fixed indices, so only a view that fixes every axis has a value;
    assignments are refused on a const view. As elsewhere the tensor is passed
    explicitly and a write returns the updated tensor. */
module InlineView {
  import opened Except
  import opened Shape
  import opened Dense

  datatype InlineView = InlineView(indices: seq<nat>, isConst: bool)

  /** `remaining_dims()`: the number of axes the fixed indices leave open. */
  function RemainingDims<T>(t: Tensor<T>, v: InlineView): (r: nat)
    requires |v.indices| <= |t.shape|
    ensures r + |v.indices| == |t.shape|
    ensures r == 0 <==> |v.indices| == |t.shape|
  {
    |t.shape| - |v.indices|
  }

  /** `value()`: the tensor's `at` on the fixed indices. */
  function Value<T>(t: Tensor<T>, v: InlineView): (r: Result<T>)
    requires Valid(t)
    ensures r.Ok? <==> InBounds(t.shape, v.indices)
    ensures r.Err? ==> r.error == (if |v.indices| != |t.shape| then InvalidArgument else OutOfRange)
    ensures r.Ok? ==> r == Element(t, FlatIndex(t.shape, v.indices))
  {
    if InBounds(t.shape, v.indices) then AtIsElement(t, v.indices); Dense.At(t, v.indices)
    else Dense.At(t, v.indices)
  }

  /** A view that leaves axes open has no value: the tensor rejects the short index list. */
  lemma PartialViewHasNoValue<T>(t: Tensor<T>, v: InlineView)
    requires Valid(t) && |v.indices| <= |t.shape| && RemainingDims(t, v) > 0
    ensures Value(t, v) == Err(InvalidArgument)
  {
  }

  /** `operator T()`: the value, converted. */
  function Convert<T>(t: Tensor<T>, v: InlineView): (r: Result<T>)
    requires Valid(t)
    ensures r == Dense.At(t, v.indices)
  {
    Value(t, v)
  }

  /** `operator=(value)`: refused on a const view, otherwise the element at the fixed
      indices is replaced (the tensor's checks still apply). */
  function AssignValue<T>(t: Tensor<T>, v: InlineView, x: T): (r: Result<Tensor<T>>)
    requires Valid(t)
    ensures r.Ok? <==> !v.isConst && InBounds(t.shape, v.indices)
    ensures v.isConst ==> r == Err(RuntimeError)
    ensures !v.isConst ==> r == Dense.SetAt(t, v.indices, x)
  {
    if v.isConst then Err(RuntimeError) else Dense.SetAt(t, v.indices, x)
  }

  /** After a successful assignment the view reads the assigned value and every other
      index of the tensor reads what it did before. */
  lemma AssignValueWrites<T>(t: Tensor<T>, v: InlineView, x: T, other: seq<nat>)
    requires Valid(t) && AssignValue(t, v, x).Ok?
    ensures Value(AssignValue(t, v, x).value, v) == Ok(x)
    ensures other != v.indices ==> Dense.At(AssignValue(t, v, x).value, other) == Dense.At(t, other)
  {
    AtSetAt(t, v.indices, x, other);
  }

  /** `operator=(view)`: the const check first, then the other view's value (which may
      fail), then the write. The other view may look into another tensor. */
  function AssignView<T>(t: Tensor<T>, v: InlineView, source: Tensor<T>, other: InlineView): (r: Result<Tensor<T>>)
    requires Valid(t) && Valid(source)
    ensures v.isConst ==> r == Err(RuntimeError)
    ensures !v.isConst && Value(source, other).Err? ==> r == Err(Value(source, other).error)
    ensures !v.isConst && Value(source, other).Ok? ==> r == AssignValue(t, v, Value(source, other).value)
  {
    if v.isConst then Err(RuntimeError)
    else
      var x :- Value(source, other);
      Dense.SetAt(t, v.indices, x)
  }

  /** After assigning one view to another, the two views read the same value. */
  lemma AssignViewCopies<T>(t: Tensor<T>, v: InlineView, source: Tensor<T>, other: InlineView)
    requires Valid(t) && Valid(source) && AssignView(t, v, source, other).Ok?
    ensures Value(AssignView(t, v, source, other).value, v) == Value(source, other)
  {
    AtSetAt(t, v.indices, Value(source, other).value, v.indices);
  }

  /** `operator==(value)`: compares the view's value with a scalar. */
  function EqualsScalar<T(==)>(t: Tensor<T>, v: InlineView, x: T): (r: Result<bool>)
    requires Valid(t)
    ensures r.Ok? <==> InBounds(t.shape, v.indices)
    ensures r == Ok(true) <==> Value(t, v) == Ok(x)
  {
    var y :- Value(t, v);
    Ok(y == x)
  }

  /** `operator!=(value)`. */
  function DiffersFromScalar<T(==)>(t: Tensor<T>, v: InlineView, x: T): (r: Result<bool>)
    requires Valid(t)
    ensures r.Ok? <==> InBounds(t.shape, v.indices)
    ensures r == Ok(true) <==> Value(t, v).Ok? && Value(t, v) != Ok(x)
  {
    var y :- Value(t, v);
    Ok(y != x)
  }

  /** `operator==(view)`: compares the two values. The two reads are unsequenced operands
      of `==`; the model reads the left one first, which is one of the two orders the
      language permits, so when both reads fail it reports the left view's error. */
  function EqualsView<T(==)>(t1: Tensor<T>, v1: InlineView, t2: Tensor<T>, v2: InlineView): (r: Result<bool>)
    requires Valid(t1) && Valid(t2)
    ensures r.Ok? <==> InBounds(t1.shape, v1.indices) && InBounds(t2.shape, v2.indices)
    ensures Value(t1, v1).Err? ==> r == Err(Value(t1, v1).error)
    ensures r == Ok(true) <==> Value(t1, v1).Ok? && Value(t1, v1) == Value(t2, v2)
  {
    var a :- Value(t1, v1);
    var b :- Value(t2, v2);
    Ok(a == b)
  }

  /** `operator!=(view)`. */
  function DiffersFromView<T(==)>(t1: Tensor<T>, v1: InlineView, t2: Tensor<T>, v2: InlineView): (r: Result<bool>)
    requires Valid(t1) && Valid(t2)
    ensures r.Ok? <==> EqualsView(t1, v1, t2, v2).Ok?
    ensures r.Ok? ==> r.value == !EqualsView(t1, v1, t2, v2).value
  {
    var a :- Value(t1, v1);
    var b :- Value(t2, v2);
    Ok(a != b)
  }

  /** The copy constructor copies the tensor and the fixed indices only, so the copy's
      const flag takes its default: a copy of a const view accepts assignments. */
  function Copy(v: InlineView): (r: InlineView)
    ensures r.indices == v.indices && !r.isConst
  {
    InlineView(v.indices, false)
  }

  /** A copy reads the same value as the original, and assigning through it succeeds
      wherever the index is in bounds, even when the original is const. */
  lemma CopyKeepsValue<T>(t: Tensor<T>, v: InlineView, x: T)
    requires Valid(t)
    ensures Value(t, Copy(v)) == Value(t, v)
    ensures AssignValue(t, Copy(v), x).Ok? <==> InBounds(t.shape, v.indices)
  {
  }
}
