/** `ops::flatten`: a rank-one tensor of the main class holding the input's buffer,
    built through the data constructor with the shape [size]. The input is taken by
    const reference and returned as a new value. */
module Flatten {
  import opened Except
  import opened Shape
  import Dense

  /** The flattened tensor: shape [size()], the same buffer in the same order. */
  function Flatten<T>(t: Dense.Tensor<T>): (r: Dense.Tensor<T>)
    ensures Dense.Valid(r) && |r.shape| == 1 && r.shape[0] == Dense.Size(t)
    ensures |r.data| == |t.data| && forall i :: 0 <= i < |r.data| ==> r.data[i] == t.data[i]
  {
    assert Product([|t.data|]) == |t.data| by {
      assert [|t.data|][1..] == [];
    }
    Dense.Tensor([Dense.Size(t)], t.data)
  }

  /** The data constructor call never throws: [size] is not empty and its product is the
      buffer length (an empty buffer gives shape [0], whatever default element the
      constructor would fill with). The result is what reshaping to [size] gives. */
  lemma FlattenNeverThrows<T>(t: Dense.Tensor<T>, zero: T)
    ensures Dense.FromData([Dense.Size(t)], t.data, zero) == Ok(Flatten(t))
    ensures Dense.Reshape(t, [Dense.Size(t)]) == Ok(Flatten(t))
  {
    assert Product([|t.data|]) == |t.data| by {
      assert [|t.data|][1..] == [];
    }
    if |t.data| == 0 {
      assert seq(Product([0]), _ => zero) == t.data;
    }
  }

  /** Element i of the flattened tensor is the input's element at the multi-index that
      i unravels to; so each element of the input is found at its flat index. */
  lemma FlattenAt<T>(t: Dense.Tensor<T>, idx: seq<nat>)
    requires Dense.Valid(t) && InBounds(t.shape, idx)
    ensures FlatIndex(t.shape, idx) < Dense.Size(t)
    ensures Dense.At(Flatten(t), [FlatIndex(t.shape, idx)]) == Dense.At(t, idx)
  {
    var k := FlatIndex(t.shape, idx);
    FlatIndexBound(t.shape, idx);
    Dense.AtIsElement(t, idx);
    Dense.ElementIsAt(Flatten(t), k);
    assert Unravel(Flatten(t).shape, k) == [k] by {
      FlatIndexInverse(Flatten(t).shape, [k]);
      assert Flatten(t).shape[1..] == [];
      FlatIndexCons(Flatten(t).shape, [k]);
    }
  }
}
