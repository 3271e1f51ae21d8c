/** Nested lists as array input: their shape, their row-major elements, and the length check of `array`. */
module NestedList {
  import opened RowMajor
  import opened Wrappers

  type Shape = seq<nat>

  datatype Nested<T> = Scalar(value: T) | List(items: seq<Nested<T>>)

  datatype ArrayError = ShapeMismatch

  /** A growing `Vec`. */
  class Buffer<T(0)> {
    var elems: seq<T>

    constructor ()
      ensures elems == []
    {
      elems := [];
    }

    method Push(x: T)
      modifies this
      ensures elems == old(elems) + [x]
    {
      elems := elems + [x];
    }
  }

  // ----- shape -----

  /** `infer_shape`: siblings must agree; an empty list ends the shape with 0. */
  function InferShape<T>(nested: Nested<T>): Result<Shape, ArrayError> {
    match nested
    case Scalar(_) => Ok([])
    case List(items) =>
      if items == [] then Ok([0])
      else
        var first :- InferShape(items[0]);
        if forall i :: 0 < i < |items| ==> InferShape(items[i]) == Ok(first) then Ok([|items|] + first)
        else Err(ShapeMismatch)
  }

  method InferShapeLoop<T>(nested: Nested<T>) returns (r: Result<Shape, ArrayError>)
    ensures r == InferShape(nested)
  {
    match nested
    case Scalar(_) =>
      return Ok([]);
    case List(items) =>
      if |items| == 0 {
        return Ok([0]);
      }
      var firstShape :- InferShapeLoop(items[0]);
      for i := 1 to |items|
        invariant forall j :: 0 < j < i ==> InferShape(items[j]) == Ok(firstShape)
      {
        var siblingShape := InferShapeLoop(items[i]);
        if siblingShape != Ok(firstShape) {
          return Err(ShapeMismatch);
        }
      }
      r := Ok([|items|] + firstShape);
  }

  /** The list is regular with this shape. */
  predicate HasShape<T>(nested: Nested<T>, shape: Shape)
    decreases nested
  {
    match nested
    case Scalar(_) => shape == []
    case List(items) =>
      && shape != [] && |items| == shape[0]
      && forall i :: 0 <= i < |items| ==> HasShape(items[i], shape[1..])
  }

  /** No axis follows an empty one: there would be nothing to tell its length. */
  predicate ZeroOnlyLast(shape: Shape) {
    forall i :: 0 <= i < |shape| - 1 ==> shape[i] != 0
  }

  lemma {:induction false} ShapeTail(shape: Shape)
    requires shape != []
    ensures ZeroOnlyLast(shape) <==> (shape[0] != 0 || |shape| == 1) && ZeroOnlyLast(shape[1..])
  {
  }

  lemma {:induction false} InferStep<T>(items: seq<Nested<T>>, shape: Shape)
    requires items != [] && shape != []
    ensures InferShape(List(items)) == Ok(shape) <==>
            |items| == shape[0] && forall i :: 0 <= i < |items| ==> InferShape(items[i]) == Ok(shape[1..])
  {
    assert shape == [shape[0]] + shape[1..];
    var first := InferShape(items[0]);
    if first.Ok? {
      assert ([|items|] + first.value)[1..] == first.value;
    }
  }

  /** `infer_shape` finds the shape of every regular list, and rejects exactly the ragged ones. */
  lemma {:induction false} InfersExactly<T>(nested: Nested<T>, shape: Shape)
    ensures InferShape(nested) == Ok(shape) <==> HasShape(nested, shape) && ZeroOnlyLast(shape)
    decreases nested
  {
    match nested
    case Scalar(_) =>
    case List(items) =>
      if shape != [] {
        ShapeTail(shape);
        forall i | 0 <= i < |items|
          ensures InferShape(items[i]) == Ok(shape[1..]) <==> HasShape(items[i], shape[1..]) && ZeroOnlyLast(shape[1..])
        {
          InfersExactly(items[i], shape[1..]);
        }
        if items == [] {
          assert |shape| == 1 ==> shape == [shape[0]];
        } else {
          InferStep(items, shape);
          assert InferShape(nested) == Ok(shape) ==> InferShape(items[0]) == Ok(shape[1..]);
        }
      }
  }

  /** The shape up to its first empty axis. */
  function UpToEmpty(shape: Shape): Shape {
    if shape == [] then [] else if shape[0] == 0 then [0] else [shape[0]] + UpToEmpty(shape[1..])
  }

  lemma {:induction false} UpToEmptyHasShape<T>(nested: Nested<T>, shape: Shape)
    requires HasShape(nested, shape)
    ensures HasShape(nested, UpToEmpty(shape)) && ZeroOnlyLast(UpToEmpty(shape))
    decreases nested
  {
    match nested
    case Scalar(_) =>
    case List(items) =>
      if items != [] {
        forall i | 0 <= i < |items|
          ensures HasShape(items[i], UpToEmpty(shape[1..])) && ZeroOnlyLast(UpToEmpty(shape[1..]))
        {
          UpToEmptyHasShape(items[i], shape[1..]);
        }
        var cut := UpToEmpty(shape);
        assert cut[1..] == UpToEmpty(shape[1..]);
        assert HasShape(items[0], cut[1..]);
        ShapeTail(cut);
      }
  }

  /** Ragged lists, and no others, are rejected. */
  lemma {:induction false} RejectsExactlyRagged<T>(nested: Nested<T>)
    ensures InferShape(nested).Err? <==> !exists shape :: HasShape(nested, shape)
  {
    if InferShape(nested).Ok? {
      InfersExactly(nested, InferShape(nested).value);
    }
    if shape :| HasShape(nested, shape) {
      UpToEmptyHasShape(nested, shape);
      InfersExactly(nested, UpToEmpty(shape));
    }
  }

  // ----- elements -----

  function Flatten<T>(nested: Nested<T>): seq<T>
    decreases nested, 0
  {
    match nested
    case Scalar(v) => [v]
    case List(items) => FlattenAll(items)
  }

  function FlattenAll<T>(items: seq<Nested<T>>): seq<T>
    decreases items, 0
  {
    if items == [] then [] else Flatten(items[0]) + FlattenAll(items[1..])
  }

  lemma {:induction false} FlattenSnoc<T>(items: seq<Nested<T>>, i: nat)
    requires i < |items|
    ensures FlattenAll(items[..i + 1]) == FlattenAll(items[..i]) + Flatten(items[i])
    decreases i
  {
    if i == 0 {
      assert items[..1] == [items[0]] && items[..0] == [];
    } else {
      FlattenSnoc(items[1..], i - 1);
      assert items[..i + 1][1..] == items[1..][..i];
      assert items[..i][1..] == items[1..][..i - 1];
    }
  }

  /** `flatten_into`. */
  method FlattenInto<T(0)>(nested: Nested<T>, out: Buffer<T>)
    modifies out
    ensures out.elems == old(out.elems) + Flatten(nested)
    decreases nested
  {
    match nested
    case Scalar(v) =>
      out.Push(v);
    case List(items) =>
      assert items[..0] == [];
      for i := 0 to |items|
        invariant out.elems == old(out.elems) + FlattenAll(items[..i])
      {
        FlattenInto(items[i], out);
        FlattenSnoc(items, i);
      }
      assert items[..|items|] == items;
  }

  function Product(shape: Shape): nat {
    if shape == [] then 1 else shape[0] * Product(shape[1..])
  }

  lemma {:induction false} FlattenAllSize<T>(items: seq<Nested<T>>, size: nat)
    requires forall i :: 0 <= i < |items| ==> |Flatten(items[i])| == size
    ensures |FlattenAll(items)| == |items| * size
    decreases |items|
  {
    if items != [] {
      FlattenAllSize(items[1..], size);
    }
  }

  /** There are as many elements as the shape says. */
  lemma {:induction false} FlattenSize<T>(nested: Nested<T>, shape: Shape)
    requires HasShape(nested, shape)
    ensures |Flatten(nested)| == Product(shape)
    decreases nested
  {
    match nested
    case Scalar(_) =>
    case List(items) =>
      forall i | 0 <= i < |items| ensures |Flatten(items[i])| == Product(shape[1..]) {
        FlattenSize(items[i], shape[1..]);
      }
      FlattenAllSize(items, Product(shape[1..]));
  }

  /** A position inside a shape. */
  predicate InShape(index: seq<nat>, shape: Shape) {
    |index| == |shape| && forall d :: 0 <= d < |shape| ==> index[d] < shape[d]
  }

  /** The element found by indexing one level after the other. */
  function ElementAt<T>(nested: Nested<T>, index: seq<nat>, shape: Shape): T
    requires HasShape(nested, shape) && InShape(index, shape)
    decreases nested
  {
    match nested
    case Scalar(v) => v
    case List(items) => ElementAt(items[index[0]], index[1..], shape[1..])
  }

  /** The row-major offset of a position. */
  function Offset(index: seq<nat>, shape: Shape): nat
    requires |index| == |shape|
  {
    if index == [] then 0 else index[0] * Product(shape[1..]) + Offset(index[1..], shape[1..])
  }

  lemma {:induction false} OffsetInRange(index: seq<nat>, shape: Shape)
    requires InShape(index, shape)
    ensures Offset(index, shape) < Product(shape)
    decreases |index|
  {
    if index != [] {
      OffsetInRange(index[1..], shape[1..]);
      MulLess(index[0], shape[0], Product(shape[1..]), Offset(index[1..], shape[1..]));
    }
  }

  lemma {:induction false} FlattenAllAt<T>(items: seq<Nested<T>>, size: nat, i: nat, rest: nat)
    requires forall j :: 0 <= j < |items| ==> |Flatten(items[j])| == size
    requires i < |items| && rest < size
    ensures i * size + rest < |FlattenAll(items)| && FlattenAll(items)[i * size + rest] == Flatten(items[i])[rest]
    decreases |items|
  {
    if i > 0 {
      FlattenAllAt(items[1..], size, i - 1, rest);
      OneMore(i, size, rest);
      AfterFront(Flatten(items[0]), FlattenAll(items[1..]), (i - 1) * size + rest);
    }
  }

  lemma OneMore(i: nat, size: nat, rest: nat)
    requires i > 0
    ensures i * size + rest == size + ((i - 1) * size + rest)
  {
  }

  lemma AfterFront<T>(a: seq<T>, b: seq<T>, k: nat)
    requires k < |b|
    ensures (a + b)[|a| + k] == b[k]
  {
  }

  /** The element at a position stands at its row-major offset. */
  lemma {:induction false} FlattenIsRowMajor<T>(nested: Nested<T>, index: seq<nat>, shape: Shape)
    requires HasShape(nested, shape) && InShape(index, shape)
    ensures Offset(index, shape) < |Flatten(nested)|
    ensures Flatten(nested)[Offset(index, shape)] == ElementAt(nested, index, shape)
    decreases nested
  {
    FlattenSize(nested, shape);
    OffsetInRange(index, shape);
    match nested
    case Scalar(_) =>
    case List(items) =>
      forall i | 0 <= i < |items| ensures |Flatten(items[i])| == Product(shape[1..]) {
        FlattenSize(items[i], shape[1..]);
      }
      FlattenIsRowMajor(items[index[0]], index[1..], shape[1..]);
      OffsetInRange(index[1..], shape[1..]);
      FlattenAllAt(items, Product(shape[1..]), index[0], Offset(index[1..], shape[1..]));
  }

  /** In two dimensions, row `i` starts after `i` rows. */
  lemma {:induction false} OffsetOfTwo(i: nat, j: nat, rows: nat, cols: nat)
    ensures Offset([i, j], [rows, cols]) == i * cols + j && Product([rows, cols]) == rows * cols
  {
    var index, shape := [i, j], [rows, cols];
    assert index[1..] == [j] && shape[1..] == [cols] && [j][1..] == [] && [cols][1..] == [];
    assert Product([cols]) == cols * Product([]) && Offset([j], [cols]) == j * Product([]) + Offset([], []);
  }

  // ----- the length check -----

  /** `usize::MAX` on a 64-bit machine. */
  const USIZE_MAX: nat := 0xffff_ffff_ffff_ffff

  function Min(x: nat, y: nat): nat {
    if x <= y then x else y
  }

  function SaturatingMul(x: nat, y: nat): nat {
    Min(x * y, USIZE_MAX)
  }

  /** Below two to the 64 nothing is cut off. */
  lemma {:induction false} SaturatesAt64Bits(x: nat, y: nat)
    ensures SaturatingMul(x, y) == if x * y < 18446744073709551616 then x * y else 18446744073709551615
  {
  }

  lemma {:induction false} ProductSnoc(shape: Shape, d: nat)
    ensures Product(shape + [d]) == Product(shape) * d
  {
    if shape == [] {
      assert [] + [d] == [d] && [d][1..] == [];
    } else {
      ProductSnoc(shape[1..], d);
      assert (shape + [d])[1..] == shape[1..] + [d];
      MulAssociates(shape[0], Product(shape[1..]), d);
    }
  }

  lemma MulAssociates(x: nat, y: nat, z: nat)
    ensures x * (y * z) == (x * y) * z
  {
  }

  /** Once saturated, the product stays saturated or drops to 0, as the true one does. */
  lemma SaturatedStep(n: nat, product: nat, d: nat)
    requires n == Min(product, USIZE_MAX) && d <= USIZE_MAX
    ensures SaturatingMul(n, d) == Min(product * d, USIZE_MAX)
  {
  }

  /** `Array::shape_size`: the product of the shape, or the largest `usize` if that is smaller. */
  method ShapeSize(shape: Shape) returns (n: nat)
    requires forall i :: 0 <= i < |shape| ==> shape[i] <= USIZE_MAX
    ensures n == Min(Product(shape), USIZE_MAX)
  {
    n := 1;
    assert shape[..0] == [];
    for i := 0 to |shape|
      invariant n == Min(Product(shape[..i]), USIZE_MAX)
    {
      SaturatedStep(n, Product(shape[..i]), shape[i]);
      ProductSnoc(shape[..i], shape[i]);
      assert shape[..i + 1] == shape[..i] + [shape[i]];
      n := SaturatingMul(n, shape[i]);
    }
    assert shape[..|shape|] == shape;
  }

  /** An array as its shape and its elements in row-major order. */
  datatype NdArray<T> = NdArray(shape: Shape, data: seq<T>)

  /** The length check of `array`. */
  method MakeArray<T>(values: seq<T>, shape: Shape) returns (r: Result<NdArray<T>, ArrayError>)
    requires forall i :: 0 <= i < |shape| ==> shape[i] <= USIZE_MAX
    ensures r == if |values| == Min(Product(shape), USIZE_MAX) then Ok(NdArray(shape, values)) else Err(ShapeMismatch)
  {
    var expected := ShapeSize(shape);
    if |values| != expected {
      return Err(ShapeMismatch);
    }
    r := Ok(NdArray(shape, values));
  }

  /** Every list in memory is shorter than `usize::MAX`. */
  predicate Fits<T>(nested: Nested<T>) {
    match nested
    case Scalar(_) => true
    case List(items) => |items| <= USIZE_MAX && forall i :: 0 <= i < |items| ==> Fits(items[i])
  }

  lemma {:induction false} FitsShape<T>(nested: Nested<T>, shape: Shape)
    requires Fits(nested) && HasShape(nested, shape) && ZeroOnlyLast(shape)
    ensures forall i :: 0 <= i < |shape| ==> shape[i] <= USIZE_MAX
    decreases nested
  {
    match nested
    case Scalar(_) =>
    case List(items) =>
      ShapeTail(shape);
      if items != [] {
        FitsShape(items[0], shape[1..]);
        forall i | 0 <= i < |shape| ensures shape[i] <= USIZE_MAX {
          assert i > 0 ==> shape[i] == shape[1..][i - 1];
        }
      }
  }

  /** `array_from_nested`: fails exactly on ragged lists, and never on the length check. */
  method ArrayFromNested<T(0)>(nested: Nested<T>) returns (r: Result<NdArray<T>, ArrayError>)
    requires Fits(nested) && |Flatten(nested)| <= USIZE_MAX
    ensures match InferShape(nested)
            case Ok(shape) => r == Ok(NdArray(shape, Flatten(nested)))
            case Err(e) => r == Err(e)
  {
    var shape :- InferShapeLoop(nested);
    InfersExactly(nested, shape);
    FlattenSize(nested, shape);
    FitsShape(nested, shape);
    var out := new Buffer<T>();
    FlattenInto(nested, out);
    assert out.elems == Flatten(nested);
    r := MakeArray(out.elems, shape);
  }
}
