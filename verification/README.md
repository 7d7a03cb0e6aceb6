# pyDLF dense tensors in Dafny

This project models the index arithmetic at the heart of pyDLF's dense tensors and
proves properties of that model. It covers:

- the main `dlf::Tensor<T>` (`include/tensor/tensor.hpp`, `src/tensor/tensor.cpp`):
  a shape plus a flat row-major buffer, with bounds-checked `at`, reshape, transform,
  a gather-style `permute`, equality and a whitespace-separated text form;
- its two view classes: the out-of-line `TensorView` (`include/tensor/tensor_view.hpp`)
  and the inline one declared in `include/tensor/tensor.h`;
- the stride-caching tensor of `include/tensor/tensor_impl.hpp`, which permutes by
  scattering;
- the older rank-templated `data::Tensor` of `include/data/tensor.hpp`, read through
  chained, unchecked subscripts;
- `ops::flatten` (`include/ops/flatten.h`).

Modules:

| file | module | contents |
|---|---|---|
| except.dfy | `Except` | `Result` with the three exception kinds the code throws: `invalid_argument`, `out_of_range` and `runtime_error` |
| shape.dfy | `Shape` | product of dims, row-major strides, dot product, flat index, its inverse `Unravel`, and the odometer `Increment` |
| perm.dfy | `Perm` | permutations of axes, gathering (`Reindex`) and scattering, and their effect on products and dot products |
| text.dfy | `Text` | the text written by `operator<<` on integers and the stream reads `>>` performs, including failed reads |
| dense.dfy | `Dense` | the main tensor |
| view.dfy | `View` | the out-of-line `TensorView` |
| inline_view.dfy | `InlineView` | the inline view of `tensor.h` |
| strided.dfy | `Strided` | the stride-caching tensor |
| data_tensor.dfy | `DataTensor` | the rank-templated tensor |
| flatten.dfy | `Flatten` | `ops::flatten` |

A few modelling choices apply throughout:

- Tensors are immutable values. A mutating member returns the new tensor.
- A member that throws returns `Err(kind)`. A failing call therefore leaves the
  caller's tensor unchanged, as the source's checks all run before any write.
- A view is a pair (fixed indices, remaining dims) or (fixed indices, const flag). It is
  evaluated against the tensor it refers to, which each operation takes as a parameter.
- The default element `T()` is the parameter `zero`. The element type of the text form
  is `int`, read as an unbounded integer (see Left out).
- Sizes are unbounded naturals.

## Model

| member | source | states |
|---|---|---|
| Shape.StridesRowMajor | include/tensor/tensor_impl.hpp:437-441 | the last stride is 1, each stride is the next stride times the next dim, and dim 0 times stride 0 is the element count |
| Shape.BackwardStrides | include/data/tensor.hpp:165-172 | the backward loop that seeds the last stride with 1 yields exactly the row-major strides of the shape |
| Shape.ProductZero | include/tensor/tensor.h:44-51 | the element count is zero exactly when some dim is zero |
| Shape.FlatIndexBound | include/tensor/tensor.hpp:101-113 | an in-bounds multi-index has a flat offset inside the buffer |
| Shape.FlatIndexInjective | include/tensor/tensor_impl.hpp:444-458 | two in-bounds multi-indices share a flat offset only if they are equal |
| Shape.UnravelInverse | include/tensor/tensor.hpp:198-209 | dividing a flat position by the strides in turn gives an in-bounds multi-index whose flat offset is that position |
| Shape.FlatIndexInverse | include/tensor/tensor.hpp:286-307 | unravelling the flat offset of an in-bounds multi-index gives that multi-index back |
| Shape.UnravelZero | include/tensor/tensor_impl.hpp:355 | the all-zero starting index is the multi-index of position 0 |
| Shape.IncrementUnravel | include/tensor/tensor_impl.hpp:373-379 | the carry loop steps the multi-index of position k to that of position k+1, and wraps to all zeros with a carry out after the last position |
| Perm.PermutationOnto | include/tensor/tensor.hpp:172-180 | a sequence of n distinct axes, each below n, uses every axis |
| Perm.ScatterInverse | include/tensor/tensor.hpp:198-209 | scattering a permuted index back through the axis order and gathering it again are mutually inverse |
| Perm.ScatterInBounds | include/tensor/tensor.hpp:182-186 | an index in bounds of the permuted shape scatters into the old shape, and gathering keeps an index in bounds |
| Perm.ProductReindex | include/tensor/tensor.hpp:182-188 | the permuted shape has the same element count, so the buffer keeps its size |
| Perm.DotReindex | include/tensor/tensor_impl.hpp:356-370 | permuting both the index and the strides by the same axis order leaves their dot product unchanged |
| Dense.EmptyIffZeroDim | include/tensor/tensor.h:44-51 | `size()` is the product of the shape and `empty()` holds exactly when some dim is zero |
| Dense.FromData | include/tensor/tensor.hpp:13-27 | the data constructor refuses an empty shape and a buffer whose length is neither 0 nor the product, with `invalid_argument`; an empty buffer is filled with the default element, and any other buffer is kept as given |
| Dense.Filled | include/tensor/tensor.hpp:29-38 | the fill constructor refuses an empty shape and otherwise holds `value` at every position |
| Dense.ComputeStrides | include/tensor/tensor.hpp:40-51 | the stride loop that walks the axes from last to first with a running product yields the row-major strides |
| Dense.Locate | include/tensor/tensor.hpp:286-307 | a multi-index is accepted exactly when it is in bounds; a count mismatch is `invalid_argument`, a component past its dim is `out_of_range`, and an accepted offset unravels back to the index |
| Dense.CalculateIndex | include/tensor/tensor.hpp:289-306 | the checking loop that accumulates index times stride agrees with `Locate` on every input, error kinds included |
| Dense.ValidateIndices | include/tensor/tensor.hpp:309-324 | validation succeeds exactly when `Locate` does, and fails with the same exception kind |
| Dense.Element | include/tensor/tensor.hpp:53-71 | flat `operator[]` reads position k when k is below the buffer length and throws `out_of_range` otherwise |
| Dense.At | include/tensor/tensor.hpp:93-114 | `at` succeeds exactly on in-bounds multi-indices and otherwise throws what the index calculation throws |
| Dense.AtIsElement | src/tensor/tensor.cpp:56-77 | `at(idx)` reads the buffer at the flat offset of idx, and unravelling that offset reads the same element |
| Dense.ElementIsAt | include/tensor/tensor.hpp:101-113 | every buffer position is reached by `at` on its unravelled multi-index |
| Dense.SetAt | include/tensor/tensor.hpp:122-126 | `set_at` accepts exactly the in-bounds multi-indices, throws what `at` throws otherwise, and keeps the shape |
| Dense.AtSetAt | include/tensor/tensor.hpp:123-125 | after writing v at idx, `at(idx)` is v and every other multi-index reads what it read before |
| Dense.Reshape | include/tensor/tensor.hpp:144-153 | reshape succeeds exactly when the new shape has the same element count, keeps the buffer, and otherwise throws `invalid_argument` |
| Dense.ReshapeRoundTrip | include/tensor/tensor.hpp:146-152 | reshaping back to the old shape restores the tensor, and an element of the reshaped tensor is the old element at the same flat offset |
| Dense.Transform | include/tensor/tensor.hpp:155-158 | transform keeps the shape and the buffer length |
| Dense.TransformAt | include/tensor/tensor.hpp:155-162 | every element of the result is f of the old element, and two transforms compose |
| Dense.PermutedShape | include/tensor/tensor.hpp:182-186 | the new shape takes dim `p[i]` of the old shape at axis i and has the same element count |
| Dense.GatherSource | include/tensor/tensor.hpp:198-209 | the source of output position i is the flat offset, in the old shape, of i's multi-index scattered back through the permutation |
| Dense.GatherIndex | include/tensor/tensor.hpp:200-208 | the inner divide-and-accumulate loop computes exactly that source position |
| Dense.Permute | include/tensor/tensor.hpp:164-214 | permute succeeds exactly on a permutation of the axes, throws `invalid_argument` otherwise, and returns the new shape, which takes dim `p[i]` at axis i |
| Dense.PermuteAt | include/tensor/tensor.hpp:196-212 | the permuted tensor at j is the old tensor at j scattered back, and the old element at i is found at i gathered through the permutation |
| Dense.ValidatePermutation | include/tensor/tensor.hpp:167-180 | the size and `used`-flag checks accept exactly the permutations of the axes |
| Dense.EqualIsIdentity | include/tensor/tensor.hpp:216-226 | `==` holds exactly when shape and buffer agree, and `!=` is its negation |
| Dense.SerializeRoundTrip | include/tensor/tensor.hpp:228-269 | reading back the text of a tensor of rank at least one gives the same tensor |
| Dense.SerializeRankZero | include/tensor/tensor.hpp:247-268 | the text of a rank-0 tensor cannot be read back: deserializing it throws `invalid_argument` |
| Dense.DeserializeHeaderOnly | include/tensor/tensor.hpp:262-268 | a header with no data gives the tensor of that shape filled with the default element |
| View.PrefixSplit | include/tensor/tensor_view.hpp:54-72 | for an in-bounds prefix, the joined index is in bounds exactly when the rest is in bounds of the remaining dims |
| View.FromIndex | include/tensor/tensor_view.hpp:8-24 | the one-index constructor accepts exactly an index below dim 0 (`out_of_range` otherwise) and keeps the other dims |
| View.FromPrefix | include/tensor/tensor_view.hpp:26-52 | the prefix constructor accepts exactly in-bounds prefixes; too many indices is `invalid_argument` and an index past its dim is `out_of_range` |
| View.TensorViewAt | include/tensor/tensor.hpp:73-91 | the tensor's `view(i)` is the one-index view, which is also the prefix view of `[i]` |
| View.At | include/tensor/tensor_view.hpp:54-62 | view `at` refuses a count that differs from the remaining dims with `invalid_argument` and otherwise is the tensor's `at` on the joined index |
| View.AtInBounds | include/tensor/tensor_view.hpp:54-72 | on a well-formed view, `at` succeeds exactly when the rest is in bounds of the remaining dims |
| View.SetAt | include/tensor/tensor_view.hpp:74-82 | view `set_at` refuses a wrong count and otherwise writes the tensor at the joined index |
| View.SetAtOnlyThere | include/tensor/tensor_view.hpp:76-81 | a write through a view reads back through the view and leaves every other element of the tensor unchanged |
| View.Sub | include/tensor/tensor_view.hpp:84-95 | `view(i)` of a view with no remaining dims is `runtime_error`, an index past the first remaining dim is `out_of_range`, and otherwise it fixes one more index |
| View.DescendAppends | include/tensor/tensor_view.hpp:86-94 | chaining sub-views by in-bounds indices appends them to the prefix and drops as many remaining dims |
| View.ChainedViewsReadAt | include/tensor/tensor.hpp:73-91 | `t.view(i0).view(i1)...view(ik).value()` reads the same element as `t.at({i0, ..., ik})` for every in-bounds index; the chain starts at the tensor's `view(size_t)` and continues through the view's `view` |
| View.Value | include/tensor/tensor_view.hpp:97-111 | `value()` is `runtime_error` while dims remain and otherwise reads the tensor at the fixed indices |
| View.Convert | include/tensor/tensor_view.h:34-40 | conversion to T is `value()` |
| View.Assign | include/tensor/tensor_view.hpp:118-125 | assigning a scalar is `runtime_error` while dims remain and otherwise writes the tensor at the fixed indices |
| View.AssignThenValue | include/tensor/tensor_view.hpp:120-124 | after assigning x to a scalar view, its value is x |
| View.EqualViews | include/tensor/tensor_view.hpp:127-154 | view equality is false for different remaining dims, compares values for scalar views, fails with `out_of_range` when a remaining dim is zero, and otherwise holds exactly when every element agrees |
| View.CompareAll | include/tensor/tensor_view.hpp:136-153 | the odometer walk reports equal exactly when the views agree at every position of the enumeration |
| View.EnumerationCoversAll | include/tensor/tensor_view.hpp:144-151 | agreeing at every enumerated position means agreeing at every in-bounds index |
| View.FirstReadFails | include/tensor/tensor_view.hpp:136-142 | with a zero remaining dim, the first read at all zeros throws `out_of_range` |
| View.DifferentViews | include/tensor/tensor_view.hpp:156-159 | `!=` on views fails exactly when `==` fails and otherwise is its negation |
| View.EqualsScalar | include/tensor/tensor_view.hpp:161-167 | comparing with a scalar is true exactly for a scalar view whose value equals it |
| View.DiffersFromScalar | include/tensor/tensor_view.hpp:169-172 | `!=` with a scalar is the negation of `==` with it |
| InlineView.RemainingDims | include/tensor/tensor.h:189-192 | the open axes and the fixed indices add up to the rank, and none are open exactly when every axis is fixed |
| InlineView.Value | include/tensor/tensor.h:130-137 | `value()` succeeds exactly when the fixed indices address an element and reads it; otherwise it throws what `at` throws |
| InlineView.PartialViewHasNoValue | include/tensor/tensor.h:130-133 | a view with open axes has no value: `at` refuses the short index with `invalid_argument` |
| InlineView.Convert | include/tensor/tensor.h:140-143 | conversion to T is the tensor's `at` on the fixed indices |
| InlineView.AssignValue | include/tensor/tensor.h:146-154 | a const view refuses assignment with `runtime_error`; otherwise assignment is the tensor's write at the fixed indices |
| InlineView.AssignValueWrites | include/tensor/tensor.h:148-153 | a successful assignment reads back and changes no other element |
| InlineView.AssignView | include/tensor/tensor.h:156-164 | assigning a view checks the const flag first, then reads the other view, then writes |
| InlineView.AssignViewCopies | include/tensor/tensor.h:158-163 | after a successful view assignment this view's value is the other view's value |
| InlineView.EqualsScalar | include/tensor/tensor.h:167-170 | comparing with a scalar succeeds exactly when the view has a value and is true exactly when that value is the scalar |
| InlineView.DiffersFromScalar | include/tensor/tensor.h:171-174 | `!=` with a scalar is true exactly when the value exists and differs |
| InlineView.EqualsView | include/tensor/tensor.h:175-178 | view equality succeeds exactly when both views have values and is true exactly when they are equal |
| InlineView.DiffersFromView | include/tensor/tensor.h:179-182 | `!=` on views fails when `==` fails and otherwise is its negation |
| InlineView.Copy | include/tensor/tensor.h:115-117 | the copy keeps the fixed indices and resets the const flag |
| InlineView.CopyKeepsValue | include/tensor/tensor.h:115-117 | a copy reads the same value, and a copy of a const view accepts assignment wherever the index is in bounds |
| Strided.CalculateStrides | include/tensor/tensor_impl.hpp:433-442 | the cached strides have one entry per dim, the last is 1, each is the next times the next dim, and they are the row-major strides |
| Strided.SumProducts | include/tensor/tensor_impl.hpp:450-457 | the accumulation loop computes the dot product of index and strides |
| Strided.CalculateFlatIndex | include/tensor/tensor_impl.hpp:444-458 | the checked offset agrees with the main tensor's index calculation, error kinds included, and an accepted offset is inside the buffer |
| Strided.Filled | include/tensor/tensor_impl.hpp:247-251 | the fill constructor accepts any dims, an empty list included, and holds `value` everywhere |
| Strided.FromData | include/tensor/tensor_impl.hpp:232-239 | the data constructor accepts exactly a buffer of the product's length and keeps it; otherwise `invalid_argument` |
| Strided.SizeOfDims | include/tensor/tensor_impl.hpp:291-310 | `size()` is the product of the dims, `empty()` holds exactly when some dim is zero, and rank 0 holds one element |
| Strided.Element | include/tensor/tensor_impl.hpp:253-267 | flat `operator[]` reads position k below the length and is `out_of_range` otherwise |
| Strided.At | include/tensor/tensor_impl.hpp:269-277 | `at` succeeds exactly on in-bounds multi-indices, with the main tensor's error kinds |
| Strided.AtAgreesWithDense | include/tensor/tensor_impl.hpp:269-275 | reading through the cached strides is the main tensor's `at`, and every buffer position is reached by its unravelled index |
| Strided.SetAt | include/tensor/tensor_impl.hpp:269-272 | writing through `at` accepts exactly in-bounds indices and keeps the dims |
| Strided.AtSetAt | include/tensor/tensor_impl.hpp:270-271 | a write reads back and leaves every other multi-index unchanged |
| Strided.EqualIsIdentity | include/tensor/tensor_impl.hpp:388-396 | `==` (dims and data) on valid tensors is equality of the whole state, strides included, and `!=` is its negation |
| Strided.Reshape | include/tensor/tensor_impl.hpp:312-320 | reshape succeeds exactly when the element count is kept, recomputes the strides and keeps the buffer |
| Strided.ReshapeRoundTrip | include/tensor/tensor_impl.hpp:313-319 | reshaping back restores the tensor, and an element of the reshaped tensor is the old element at the same flat offset |
| Strided.Transform | include/tensor/tensor_impl.hpp:322-324 | transform keeps dims, strides and buffer length |
| Strided.TransformAt | include/tensor/tensor_impl.hpp:322-325 | every element of the result is f of the old element |
| Strided.CheckAxes | include/tensor/tensor_impl.hpp:329-340 | the checks accept exactly a list of rank axes each below rank, whether or not they repeat; a wrong count is `invalid_argument` and a large axis is `out_of_range` |
| Strided.DuplicateAxesOverrun | include/tensor/tensor_impl.hpp:356-370 | dims [2,5] and axes [1,1] pass the checks, yet index [1,4] scatters to 24 in a 10-element buffer |
| Strided.TargetInBounds | include/tensor/tensor_impl.hpp:364-370 | for a true permutation, every scatter target is inside the buffer |
| Strided.TargetSourceInverse | include/tensor/tensor_impl.hpp:355-370 | the gather source of the scatter target of position i is i |
| Strided.SourceTargetInverse | include/tensor/tensor_impl.hpp:356-380 | the scatter target of the gather source of position m is m, so the scatter writes every position once |
| Strided.ScatterStep | include/tensor/tensor_impl.hpp:369-370 | one round of the loop writes only the scatter target of the current position |
| Strided.ScatterStepsHold | include/tensor/tensor_impl.hpp:343-380 | after k rounds, a position holds its gathered source element if that source is below k and the default element otherwise |
| Strided.Permute | include/tensor/tensor_impl.hpp:327-386 | the corrected permute succeeds exactly on permutations of the axes, reports the same errors as the checks or `invalid_argument` for a repeated axis, and takes dim `axes[k]` at axis k |
| Strided.PermuteAt | include/tensor/tensor_impl.hpp:364-370 | the old element at i is found at i gathered through the axes |
| Strided.PermuteMatchesGather | include/tensor/tensor.hpp:164-214 | the scatter of this tensor and the main tensor's gather produce the same dims and the same buffer |
| Strided.ScatterLoop | include/tensor/tensor_impl.hpp:355-380 | the loop with its odometer index fills the buffer of the permuted tensor |
| Strided.SerializeRoundTrip | include/tensor/tensor_impl.hpp:398-431 | reading back the text of any tensor, rank 0 included, gives the same tensor |
| Strided.SerializeBytesRoundTrip | include/tensor/tensor_impl.hpp:460-481 | the text is plain ASCII, and reading the tensor back from its bytes gives the same tensor |
| Strided.Deserialize | include/tensor/tensor_impl.hpp:413-431 | in the model, whatever the text, deserializing yields a consistent tensor: strides of its dims and a buffer of their product's length (the source's behaviour on malformed text is under Left out) |
| Strided.DeserializeBytes | include/tensor/tensor_impl.hpp:460-481 | the in-place overload reads the bytes one character each, then the rank, dims and values as the static overload does, and yields a consistent tensor: strides of its dims and a buffer of their product's length (its dependence on the previous dims for truncated text is under Left out) |
| Strided.View | include/tensor/tensor_impl.hpp:483-501 | `view(i)` accepts exactly an index below dim 0 (`out_of_range` otherwise), drops the first dim and uses the strides of the rest |
| Strided.ViewAddressesTensor | include/tensor/tensor_impl.hpp:485-490 | the view's offset plus the rest dotted with its strides is the flat offset of `[i] + rest` in the tensor |
| DataTensor.Default | include/data/tensor.hpp:52 | the default tensor has shape [0] and no elements |
| DataTensor.Filled | include/data/tensor.hpp:60-66 | the fill constructor holds `value` at every position |
| DataTensor.FromData | include/data/tensor.hpp:68-78 | the vector constructor accepts exactly a buffer of the product's length and keeps it; otherwise `runtime_error` |
| DataTensor.FromPointer | include/data/tensor.hpp:80-85 | the pointer constructor copies the first product(shape) source elements |
| DataTensor.FromPointerIsFromData | include/data/tensor.hpp:80-84 | copying from a pointer is the vector constructor on the copied prefix |
| DataTensor.EmptyIffZeroDim | include/data/tensor.hpp:163 | `empty()` holds exactly when some dim is zero, so both a [0,0] tensor and the default tensor are empty |
| DataTensor.CopyIsEqual | include/data/tensor.hpp:87-106 | copy construction and copy assignment reproduce shape and elements |
| DataTensor.StrideAt | include/data/tensor.hpp:149-161 | `stride(d)` is `out_of_range` for d past the rank and otherwise the row-major stride of axis d |
| DataTensor.StridesOf | include/data/tensor.hpp:165-172 | `strides()` lists `stride(d)` for every axis |
| DataTensor.RefChainFlat | include/data/tensor.hpp:27-41 | the chain of subscripts from axis d on adds the flat offset of the rest within the trailing dims |
| DataTensor.OffsetIsFlatIndex | include/data/tensor.hpp:127-133 | a full chain of subscripts lands on the row-major flat offset |
| DataTensor.OffsetInBuffer | include/data/tensor.hpp:128-132 | an in-bounds chain lands inside the buffer |
| DataTensor.Read | include/data/tensor.hpp:131-133 | the unchecked read succeeds on every tensor of nonzero rank and throws `out_of_range` only for rank 0; with one subscript per axis it returns the element at their row-major flat index, in bounds or not |
| DataTensor.ReadAgreesWithAt | include/data/tensor.hpp:127-133 | for in-bounds subscripts the chained read is the main tensor's `at` |
| DataTensor.UncheckedSubscriptAliases | include/data/tensor.hpp:27-41 | on shape [2,3] the out-of-bounds `t[0][3]` reads `t[1][0]`, and `t[2][0]` lands one past the buffer |
| DataTensor.CheckedRead | tests/tensor_test.cc:57-62 | the corrected read succeeds exactly on in-bounds subscripts, otherwise `out_of_range`, and agrees with the unchecked read and with `at` when it succeeds |
| DataTensor.PermuteShape | include/data/tensor.hpp:174-180 | the permuted shape takes dim `order[i]` at axis i |
| DataTensor.PermuteShapeReshapes | include/data/tensor.hpp:176-179 | `permute` only returns the permuted shape; for a true permutation that shape keeps the element count, so reshaping to it succeeds and leaves the buffer in place |
| DataTensor.Reshape | include/data/tensor.hpp:182-188 | reshape succeeds exactly when the element count is kept, keeps the buffer, and otherwise throws `runtime_error` |
| DataTensor.ReshapeRoundTrip | include/data/tensor.hpp:183-187 | reshaping back restores the tensor |
| DataTensor.Transform | include/data/tensor.hpp:190-195 | transform keeps the shape and the tensor's consistency |
| DataTensor.TransformAt | include/data/tensor.hpp:190-196 | at every rank, each of the size() elements becomes f of the old element: the result is the main class's transform of the same buffer, and every in-bounds multi-index or subscript chain reads the image of its old element |
| Flatten.Flatten | include/ops/flatten.h:11-16 | the result has the single dim size() and the input's elements in order |
| Flatten.FlattenNeverThrows | include/ops/flatten.h:14-15 | the data constructor call inside flatten always succeeds and agrees with reshaping to [size()] |
| Flatten.FlattenAt | include/ops/flatten.h:12-15 | the input's element at idx is the flattened element at idx's flat offset |

## Behaviour of the code worth knowing

- The main tensor's constructors refuse an empty shape with `invalid_argument`. A
  rank-0 tensor arises only through `reshape({})`, and its text does not read back:
  deserializing it throws `invalid_argument` (`Dense.SerializeRankZero`). The
  stride-caching tensor accepts an empty dims list and its text does read back
  (`Strided.SerializeRoundTrip`).
- `TensorView::operator==` returns false for views whose remaining dims differ; it does
  not throw (`View.EqualViews`).
- The index checks throw `invalid_argument` for a wrong number of indices and
  `out_of_range` for a component past its dim; the model keeps the two kinds apart.
- `TensorView::view` on a view with no remaining dims throws `runtime_error`
  (`View.Sub`).
- Only the inline view of `tensor.h` carries a const flag, and its copy constructor
  does not copy it, so a copy of a const view accepts writes
  (`InlineView.CopyKeepsValue`).
- `TensorView::at` does not check the components itself: it passes the joined index to
  the tensor's `at`, which performs the checks (`View.AtInBounds`).

## Left out

- Logging calls, and the messages carried by exceptions: only the exception kind is modelled.
- `Tensor::to()` and the device constructor (include/tensor/tensor_impl.hpp:241-245, 300-305): device placement has no effect on index arithmetic.
- The Python bindings, `src/tensor/tensor_view.cpp` and everything outside the tensor headers.
- The fixed width of `size_t` and `std::accumulate`: every size, stride and offset is an unbounded natural, so overflow in a product of dims is not modelled.
- Floating-point element types and their text formatting: the text form is modelled for `int` elements, and the `float` specialisations in src/tensor/tensor.cpp behave as the generic templates on which they are modelled.
- `Tensor<bool>::serialize`, which returns an empty string (include/tensor/tensor_impl.hpp:70-73).
- `operator()` and the const overloads of `at` and `view`: they forward to the modelled members unchanged.
- Move construction, move assignment, object lifetime and the `const_cast` in the const view constructors: values in the model are immutable, so a copy is independent by construction.
- Strided.Deserialize and Dense.Deserialize: the model reads a `-` before the rank or a dim as a failed read that gives 0 and stops every later read. The source's unsigned extraction instead accepts the sign and wraps the value modulo 2^64, so a negative rank makes the allocation of the dims vector throw `length_error` and a negative dim enters the size product modulo 2^64; neither is modelled, because sizes are unbounded naturals here.
- Strided.Deserialize and Dense.Deserialize: text that ends before the rank leaves the rank variable uninitialised in the source, which is undefined behaviour; the model reads it as 0. A dim or value missing later stays at the 0 its vector was initialised with, as the model has it.
- Strided.Deserialize and Dense.Deserialize: element values are unbounded integers, so the fixed width of `int` is not modelled. In the source, `>>` into an `int` fails on a numeral outside [INT_MIN, INT_MAX]. That failure ends the main tensor's read loop and leaves the remaining slots of the stride-caching tensor at 0. The model reads such a numeral as its exact value.
- Strided.DeserializeBytes: the model takes the result to depend on the bytes alone, which holds only for well-formed text. The source resizes the existing dims vector, so a dim whose read fails after the stream has failed keeps the tensor's previous value; it reads each element into an uninitialised local, so a value read after a failure stores an indeterminate value, which is undefined behaviour; and text that ends before the rank leaves `ndims` uninitialised, also undefined behaviour. None of this is modelled.
- Stream details of `>>` that are modelled: leading whitespace is skipped, digits are read greedily, and once a read fails every later read fails and gives 0.
- The template rank `N` of `data::Tensor`: the model takes the subscripts as a sequence of at least two indices.
- DataTensor.Read: requires the offset to be inside the buffer, because reading past it is undefined behaviour in the source.
- DataTensor.PermuteShape: requires each of the first rank entries of the order to be below the rank, because an out-of-range entry is undefined behaviour in the source.
- DataTensor.FromPointer: requires at least product(shape) source elements, because reading past the source pointer is undefined behaviour.
- DataTensor.StridesOf: requires rank at least one, because `strides.back()` on an empty vector is undefined behaviour.
- InlineView.RemainingDims: requires no more fixed indices than axes, because the source's unsigned subtraction wraps around otherwise.
- Strided.View: requires rank at least one, because `dims_[0]` on an empty vector is undefined behaviour.
- View.FromIndex: requires rank at least one, because `shape()[0]` on a rank-0 tensor is undefined behaviour.
- Dense.Transform, Strided.Transform and DataTensor.Transform: the function argument is a pure Dafny function, so a callable with side effects is not modelled; this matters most for `data::Tensor::transform`, which calls it twice per element (include/data/tensor.hpp:193-194).
- DataTensor.CheckedRead: the corrected read needs one subscript per axis, and a rank-1 `Vector` is always read with two chained subscripts, so it refuses every read of a `Vector`. This is not offered as the intended behaviour for rank 1, which the code does not settle.

## Findings

| source | as written | input that shows it | evidently intended | confidence | as-written member | corrected member |
|---|---|---|---|---|---|---|
| include/tensor/tensor_impl.hpp:329-340 | `permute` checks the number of axes and that each is below the rank, but not that they are distinct, so a repeated axis reaches the scatter loop | dims [2,5], axes [1,1]: the new dims are [5,5] with strides [5,1], so index [1,4] is written at 4*5 + 4*1 = 24 in a buffer of 10 elements | refuse a repeated axis, as the main tensor's `used` flags do (include/tensor/tensor.hpp:172-180) | not executed | Strided.DuplicateAxesOverrun | Strided.Permute |
| include/data/tensor.hpp:27-41 | chained subscripts add index times stride without comparing the index with its dim | shape [2,3]: `t[0][3]` reads `t[1][0]`, and `t[2][0]` lands at offset 6, one past the buffer; tests/tensor_test.cc:57-62 expects `out_of_range` for both | throw `out_of_range` for a subscript past its dim | not executed | DataTensor.UncheckedSubscriptAliases | DataTensor.CheckedRead |
