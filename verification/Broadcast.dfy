/** `broadcast_shape`, and the order on shapes in which it is the least upper bound. */
module Broadcast {
  import opened Wrappers

  type Shape = seq<nat>

  datatype ShapeError = BroadcastShapeMismatch

  /** The axis `k` places from the right; missing axes have length 1. */
  function Dim(a: Shape, k: nat): nat {
    if k < |a| then a[|a| - 1 - k] else 1
  }

  /** One axis of the result. */
  function JoinDim(x: nat, y: nat): Option<nat> {
    if x == y then Some(x) else if x == 1 then Some(y) else if y == 1 then Some(x) else None
  }

  function Rank(a: Shape, b: Shape): nat {
    if |a| >= |b| then |a| else |b|
  }

  ghost predicate Compatible(a: Shape, b: Shape) {
    forall k: nat {:trigger Dim(a, k)} :: JoinDim(Dim(a, k), Dim(b, k)).Some?
  }

  /** The shape is the join of the other two, axis by axis. */
  ghost predicate IsJoin(c: Shape, a: Shape, b: Shape) {
    |c| == Rank(a, b) && forall k: nat {:trigger Dim(c, k)} :: JoinDim(Dim(a, k), Dim(b, k)) == Some(Dim(c, k))
  }

  function Reversed(s: Shape): (r: Shape)
    ensures |r| == |s| && forall k :: 0 <= k < |s| ==> r[k] == s[|s| - 1 - k]
  {
    if s == [] then [] else Reversed(s[1..]) + [s[0]]
  }

  /** The join of two shapes, if every pair of axes has one. */
  ghost function Join(a: Shape, b: Shape): Result<Shape, ShapeError> {
    if Compatible(a, b) then Ok(JoinOf(a, b)) else Err(BroadcastShapeMismatch)
  }

  ghost function JoinOf(a: Shape, b: Shape): (c: Shape)
    requires Compatible(a, b)
    ensures IsJoin(c, a, b)
  {
    var n := Rank(a, b);
    var c := seq(n, i requires 0 <= i < n => JoinDim(Dim(a, n - 1 - i), Dim(b, n - 1 - i)).value);
    assert forall k: nat {:trigger Dim(c, k)} :: JoinDim(Dim(a, k), Dim(b, k)).Some?;
    c
  }

  lemma {:induction false} JoinIsUnique(a: Shape, b: Shape, c: Shape)
    requires IsJoin(c, a, b)
    ensures Join(a, b) == Ok(c)
  {
    forall k: nat ensures JoinDim(Dim(a, k), Dim(b, k)).Some? {
      assert JoinDim(Dim(a, k), Dim(b, k)) == Some(Dim(c, k));
    }
    var d := JoinOf(a, b);
    forall k: nat ensures Dim(c, k) == Dim(d, k) {
      assert JoinDim(Dim(a, k), Dim(b, k)) == Some(Dim(d, k));
    }
    SameDims(c, d);
  }

  lemma {:induction false} SameDims(c: Shape, d: Shape)
    requires |c| == |d| && forall k: nat {:trigger Dim(c, k)} :: Dim(c, k) == Dim(d, k)
    ensures c == d
  {
    forall i | 0 <= i < |c| ensures c[i] == d[i] {
      assert Dim(c, |c| - 1 - i) == Dim(d, |c| - 1 - i);
    }
  }

  /** `broadcast_shape`. */
  method BroadcastShape(a: Shape, b: Shape) returns (r: Result<Shape, ShapeError>)
    ensures r == Join(a, b)
  {
    var n := Rank(a, b);
    var out: Shape := [];
    for k := 0 to n
      invariant |out| == k
      invariant forall j :: 0 <= j < k ==> JoinDim(Dim(a, j), Dim(b, j)) == Some(out[j])
    {
      var aDim, bDim := Dim(a, k), Dim(b, k);
      var dim;
      if aDim == bDim {
        dim := aDim;
      } else if aDim == 1 {
        dim := bDim;
      } else if bDim == 1 {
        dim := aDim;
      } else {
        assert !Compatible(a, b);
        return Err(BroadcastShapeMismatch);
      }
      out := out + [dim];
    }
    var c := Reversed(out);
    assert forall k :: 0 <= k < n ==> Dim(c, k) == out[k];
    JoinIsUnique(a, b, c);
    r := Ok(c);
  }

  // ----- the order -----

  /** `a` broadcasts to `c` as it is: every axis has the same length or is stretched from 1. */
  ghost predicate Absorbs(c: Shape, a: Shape) {
    |a| <= |c| && forall k: nat {:trigger Dim(a, k)} {:trigger Dim(c, k)} :: Dim(a, k) == Dim(c, k) || Dim(a, k) == 1
  }

  lemma {:induction false} AbsorbsIsOrder(a: Shape, b: Shape, c: Shape)
    ensures Absorbs(a, a)
    ensures Absorbs(b, a) && Absorbs(a, b) ==> a == b
    ensures Absorbs(b, a) && Absorbs(c, b) ==> Absorbs(c, a)
  {
    if Absorbs(b, a) && Absorbs(a, b) {
      forall k: nat ensures Dim(a, k) == Dim(b, k) {
      }
      SameDims(a, b);
    }
    if Absorbs(b, a) && Absorbs(c, b) {
      forall k: nat ensures Dim(a, k) == Dim(c, k) || Dim(a, k) == 1 {
        assert Dim(b, k) == Dim(c, k) || Dim(b, k) == 1;
      }
    }
  }

  /** The result is the least shape that absorbs both, and there is a result exactly if some shape absorbs both. */
  lemma {:induction false} LeastUpperBound(a: Shape, b: Shape, d: Shape)
    ensures Join(a, b).Ok? ==> Absorbs(Join(a, b).value, a) && Absorbs(Join(a, b).value, b)
    ensures Absorbs(d, a) && Absorbs(d, b) ==> Join(a, b).Ok? && Absorbs(d, Join(a, b).value)
  {
    if Compatible(a, b) {
      var c := JoinOf(a, b);
      forall k: nat ensures (Dim(a, k) == Dim(c, k) || Dim(a, k) == 1) && (Dim(b, k) == Dim(c, k) || Dim(b, k) == 1) {
        assert JoinDim(Dim(a, k), Dim(b, k)) == Some(Dim(c, k));
      }
    }
    if Absorbs(d, a) && Absorbs(d, b) {
      forall k: nat ensures JoinDim(Dim(a, k), Dim(b, k)).Some? {
        assert Dim(b, k) == Dim(d, k) || Dim(b, k) == 1;
      }
      var c := JoinOf(a, b);
      forall k: nat ensures Dim(c, k) == Dim(d, k) || Dim(c, k) == 1 {
        assert Dim(a, k) == Dim(d, k) || Dim(a, k) == 1;
        assert JoinDim(Dim(a, k), Dim(b, k)) == Some(Dim(c, k));
      }
    }
  }

  // ----- laws -----

  lemma {:induction false} JoinCommutes(a: Shape, b: Shape)
    ensures Join(a, b) == Join(b, a)
  {
    if Join(a, b).Ok? {
      JoinSwaps(a, b);
    } else if Join(b, a).Ok? {
      JoinSwaps(b, a);
    }
  }

  lemma {:induction false} JoinSwaps(a: Shape, b: Shape)
    requires Join(a, b).Ok?
    ensures Join(b, a) == Join(a, b)
  {
    var c := JoinOf(a, b);
    forall k: nat ensures JoinDim(Dim(b, k), Dim(a, k)) == Some(Dim(c, k)) {
      assert JoinDim(Dim(a, k), Dim(b, k)) == Some(Dim(c, k));
    }
    JoinIsUnique(b, a, c);
  }

  /** A shape with itself, and a scalar with anything. */
  lemma {:induction false} JoinUnits(a: Shape)
    ensures Join(a, a) == Ok(a) && Join([], a) == Ok(a)
  {
    JoinIsUnique(a, a, a);
    JoinIsUnique([], a, a);
  }

  ghost function JoinLeft(a: Shape, b: Shape, c: Shape): Result<Shape, ShapeError> {
    var x :- Join(a, b);
    Join(x, c)
  }

  ghost function JoinRight(a: Shape, b: Shape, c: Shape): Result<Shape, ShapeError> {
    var y :- Join(b, c);
    Join(a, y)
  }

  lemma {:induction false} RegroupRight(a: Shape, b: Shape, c: Shape)
    requires JoinLeft(a, b, c).Ok?
    ensures JoinRight(a, b, c).Ok? && Absorbs(JoinLeft(a, b, c).value, JoinRight(a, b, c).value)
  {
    var x, l := Join(a, b).value, JoinLeft(a, b, c).value;
    LeastUpperBound(a, b, x);
    LeastUpperBound(x, c, l);
    AbsorbsIsOrder(a, x, l);
    AbsorbsIsOrder(b, x, l);
    LeastUpperBound(b, c, l);
    LeastUpperBound(a, Join(b, c).value, l);
  }

  lemma {:induction false} RegroupLeft(a: Shape, b: Shape, c: Shape)
    requires JoinRight(a, b, c).Ok?
    ensures JoinLeft(a, b, c).Ok? && Absorbs(JoinRight(a, b, c).value, JoinLeft(a, b, c).value)
  {
    var y, r := Join(b, c).value, JoinRight(a, b, c).value;
    LeastUpperBound(b, c, y);
    LeastUpperBound(a, y, r);
    AbsorbsIsOrder(b, y, r);
    AbsorbsIsOrder(c, y, r);
    LeastUpperBound(a, b, r);
    LeastUpperBound(Join(a, b).value, c, r);
  }

  /** Three shapes broadcast in either grouping to the same shape, or in neither. */
  lemma {:induction false} JoinAssociates(a: Shape, b: Shape, c: Shape)
    ensures JoinLeft(a, b, c) == JoinRight(a, b, c)
  {
    if JoinLeft(a, b, c).Ok? {
      RegroupRight(a, b, c);
    }
    if JoinRight(a, b, c).Ok? {
      RegroupLeft(a, b, c);
      AbsorbsIsOrder(JoinLeft(a, b, c).value, JoinRight(a, b, c).value, []);
    }
  }

  function Max(x: nat, y: nat): nat {
    if x >= y then x else y
  }

  /** An empty axis meets an axis of length 1. */
  predicate EmptyMeetsOne(a: Shape, b: Shape, k: nat) {
    (Dim(a, k) == 0 && Dim(b, k) == 1) || (Dim(a, k) == 1 && Dim(b, k) == 0)
  }

  /** The axes of the result are the maxima, except where an empty axis meets a 1: there the result is empty. */
  lemma {:induction false} JoinIsMaxUnlessEmpty(a: Shape, b: Shape, k: nat)
    requires Join(a, b).Ok?
    ensures Dim(Join(a, b).value, k) == Max(Dim(a, k), Dim(b, k)) <==> !EmptyMeetsOne(a, b, k)
    ensures EmptyMeetsOne(a, b, k) ==> Dim(Join(a, b).value, k) == 0
  {
    assert JoinDim(Dim(a, k), Dim(b, k)) == Some(Dim(Join(a, b).value, k));
  }

  /** Axes of length x and y give one of length z: they are equal, or one of them is 1 and gives way. */
  predicate AxisJoins(x: nat, y: nat, z: nat) {
    (x == y && z == x) || (x == 1 && z == y) || (y == 1 && z == x)
  }

  /** The shorter shape is lined up with the end of the longer one, whose first axes stand for themselves. */
  lemma {:induction false} JoinAxes(a: Shape, b: Shape, c: Shape)
    requires |a| <= |b|
    ensures Join(a, b) == Ok(c)
       <==> && |c| == |b|
            && (forall i :: 0 <= i < |b| - |a| ==> c[i] == b[i])
            && (forall i :: 0 <= i < |a| ==> AxisJoins(a[i], b[|b| - |a| + i], c[|b| - |a| + i]))
  {
    var m := |b| - |a|;
    if Join(a, b) == Ok(c) {
      forall i | 0 <= i < m ensures c[i] == b[i] {
        assert JoinDim(Dim(a, |b| - 1 - i), Dim(b, |b| - 1 - i)) == Some(Dim(c, |b| - 1 - i));
      }
      forall i | 0 <= i < |a| ensures AxisJoins(a[i], b[m + i], c[m + i]) {
        assert JoinDim(Dim(a, |a| - 1 - i), Dim(b, |a| - 1 - i)) == Some(Dim(c, |a| - 1 - i));
      }
    }
    if |c| == |b| && (forall i :: 0 <= i < m ==> c[i] == b[i])
        && forall i :: 0 <= i < |a| ==> AxisJoins(a[i], b[m + i], c[m + i]) {
      forall k: nat ensures JoinDim(Dim(a, k), Dim(b, k)) == Some(Dim(c, k)) {
        if k < |a| {
          assert AxisJoins(a[|a| - 1 - k], b[m + (|a| - 1 - k)], c[m + (|a| - 1 - k)]);
        } else if k < |b| {
          assert c[|b| - 1 - k] == b[|b| - 1 - k];
        }
      }
      JoinIsUnique(a, b, c);
    }
  }
}
