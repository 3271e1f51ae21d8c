/** `median_scalar` and `percentile_scalar` over exact reals and NaN. */
module OrderStatistics {

  datatype Float = NaN | Num(x: real)

  // ----- sorting -----

  ghost predicate IsSorted(s: seq<real>) {
    forall i, j :: 0 <= i <= j < |s| ==> s[i] <= s[j]
  }

  function Insert(x: real, s: seq<real>): seq<real> {
    if s == [] || x <= s[0] then [x] + s else [s[0]] + Insert(x, s[1..])
  }

  /** The values in ascending order. */
  function Sorted(s: seq<real>): seq<real> {
    if s == [] then [] else Insert(s[0], Sorted(s[1..]))
  }

  lemma {:induction false} InsertAdds(x: real, s: seq<real>)
    ensures multiset(Insert(x, s)) == multiset(s) + multiset{x}
  {
    if s != [] && x > s[0] {
      InsertAdds(x, s[1..]);
      assert s == [s[0]] + s[1..];
    }
  }

  lemma {:induction false} InsertSorts(x: real, s: seq<real>)
    requires IsSorted(s)
    ensures IsSorted(Insert(x, s)) && Insert(x, s) != []
    ensures Insert(x, s)[0] == if s == [] || x <= s[0] then x else s[0]
  {
    if s != [] && x > s[0] {
      InsertSorts(x, s[1..]);
    }
  }

  lemma {:induction false} SortedKeeps(s: seq<real>)
    ensures IsSorted(Sorted(s)) && multiset(Sorted(s)) == multiset(s) && |Sorted(s)| == |s|
  {
    if s != [] {
      SortedKeeps(s[1..]);
      InsertAdds(s[0], Sorted(s[1..]));
      InsertSorts(s[0], Sorted(s[1..]));
      assert s == [s[0]] + s[1..];
    }
    assert |multiset(Sorted(s))| == |Sorted(s)|;
  }

  lemma {:induction false} SortedIsUnique(s: seq<real>, t: seq<real>)
    requires IsSorted(s) && IsSorted(t) && multiset(s) == multiset(t)
    ensures s == t
  {
    SameCount(s, t);
    if s != [] {
      SameFirst(s, t);
      WithoutFirst(s);
      WithoutFirst(t);
      SortedIsUnique(s[1..], t[1..]);
      SameParts(s, t);
    }
  }

  lemma SameCount(s: seq<real>, t: seq<real>)
    requires multiset(s) == multiset(t)
    ensures |s| == |t|
  {
    assert |multiset(s)| == |s| && |multiset(t)| == |t|;
  }

  lemma WithoutFirst(s: seq<real>)
    requires s != []
    ensures multiset(s[1..]) == multiset(s) - multiset{s[0]}
  {
    assert s == [s[0]] + s[1..];
  }

  lemma SameParts(s: seq<real>, t: seq<real>)
    requires s != [] && t != [] && s[0] == t[0] && s[1..] == t[1..]
    ensures s == t
  {
    assert s == [s[0]] + s[1..] && t == [t[0]] + t[1..];
  }

  lemma {:induction false} SameFirst(s: seq<real>, t: seq<real>)
    requires IsSorted(s) && IsSorted(t) && multiset(s) == multiset(t) && s != [] && t != []
    ensures s[0] == t[0]
  {
    assert s[0] in multiset(t) && t[0] in multiset(s);
    var i :| 0 <= i < |t| && t[i] == s[0];
    var j :| 0 <= j < |s| && s[j] == t[0];
  }

  // ----- the computations -----

  predicate AnyNaN(values: seq<Float>) {
    exists i :: 0 <= i < |values| && values[i].NaN?
  }

  function Reals(values: seq<Float>): (s: seq<real>)
    requires !AnyNaN(values)
    ensures |s| == |values| && forall i :: 0 <= i < |s| ==> values[i] == Num(s[i])
  {
    seq(|values|, i requires 0 <= i < |values| => values[i].x)
  }

  function MedianOf(s: seq<real>): real
    requires s != []
  {
    var mid := |s| / 2;
    if |s| % 2 == 0 then (s[mid - 1] + s[mid]) / 2.0 else s[mid]
  }

  method MedianScalar(a: seq<Float>) returns (r: Float)
    ensures r == Median(a)
  {
    var n := |a|;
    if n == 0 {
      return NaN;
    }
    if AnyNaN(a) {
      return NaN;
    }
    var values := Reals(a);
    SortedKeeps(values);
    values := Sorted(values);
    var mid := n / 2;
    if n % 2 == 0 {
      r := Num((values[mid - 1] + values[mid]) / 2.0);
    } else {
      r := Num(values[mid]);
    }
  }

  function Median(a: seq<Float>): Float {
    if a == [] || AnyNaN(a) then NaN
    else
      SortedKeeps(Reals(a));
      Num(MedianOf(Sorted(Reals(a))))
  }

  /** A product that is reasoned about as a whole. */
  function Times(x: real, y: real): real {
    x * y
  }

  function Clamp(q: real): real {
    if q < 0.0 then 0.0 else if q > 100.0 then 100.0 else q
  }

  function Ceil(x: real): int {
    if x == x.Floor as real then x.Floor else x.Floor + 1
  }

  /** Linear interpolation between the neighbours of a fractional index. */
  function Interpolate(s: seq<real>, pos: real): real
    requires s != [] && 0.0 <= pos <= (|s| - 1) as real
  {
    var lo, hi := s[pos.Floor], s[Ceil(pos)];
    lo + Times(pos - pos.Floor as real, hi - lo)
  }

  /** The virtual index of a percentage in `n` values. */
  function Position(n: nat, q: real): (pos: real)
    requires n > 0 && 0.0 <= q <= 100.0
    ensures 0.0 <= pos <= (n - 1) as real
  {
    PositionInRange((n - 1) as real, q / 100.0);
    Times((n - 1) as real, q / 100.0)
  }

  lemma PositionInRange(m: real, f: real)
    requires 0.0 <= m && 0.0 <= f <= 1.0
    ensures 0.0 <= Times(m, f) <= m
  {
  }

  function Percentile(a: seq<Float>, q: Float): Float {
    if a == [] || AnyNaN(a) || q.NaN? then NaN
    else
      SortedKeeps(Reals(a));
      Num(Interpolate(Sorted(Reals(a)), Position(|a|, Clamp(q.x))))
  }

  method PercentileScalar(a: seq<Float>, q0: Float) returns (r: Float)
    ensures r == Percentile(a, q0)
  {
    var n := |a|;
    if n == 0 {
      return NaN;
    }
    if AnyNaN(a) || q0.NaN? {
      return NaN;
    }
    var values := Reals(a);
    var q := Clamp(q0.x);
    SortedKeeps(values);
    values := Sorted(values);
    PercentileIs(a, q0.x, values);
    if n == 1 {
      OneValue(values, q);
      return Num(values[0]);
    }
    var pos := Position(n, q);
    var loIdx, hiIdx := pos.Floor, Ceil(pos);
    var frac := pos - pos.Floor as real;
    var lo, hi := values[loIdx], values[hiIdx];
    r := Num(lo + Times(frac, hi - lo));
  }

  lemma PercentileIs(a: seq<Float>, q: real, s: seq<real>)
    requires a != [] && !AnyNaN(a) && s == Sorted(Reals(a)) && |s| == |a|
    ensures Percentile(a, Num(q)) == Num(Interpolate(s, Position(|s|, Clamp(q))))
  {
  }

  lemma OneValue(s: seq<real>, q: real)
    requires |s| == 1 && 0.0 <= q <= 100.0
    ensures Interpolate(s, Position(1, q)) == s[0]
  {
    assert Position(1, q) == 0.0;
  }

  // ----- laws -----

  lemma {:induction false} RealsCount(a: seq<Float>, x: real)
    requires !AnyNaN(a)
    ensures multiset(Reals(a))[x] == multiset(a)[Num(x)]
    decreases |a|
  {
    if a != [] {
      RealsCount(a[1..], x);
      CountFirst(a, Num(x));
      RealsFirst(a);
      CountFirst(Reals(a), x);
    }
  }

  lemma CountFirst<T>(s: seq<T>, x: T)
    requires s != []
    ensures multiset(s)[x] == multiset(s[1..])[x] + if s[0] == x then 1 else 0
  {
    assert s == [s[0]] + s[1..];
  }

  lemma RealsFirst(a: seq<Float>)
    requires a != [] && !AnyNaN(a)
    ensures !AnyNaN(a[1..]) && Reals(a)[1..] == Reals(a[1..]) && a[0] == Num(Reals(a)[0])
  {
  }

  lemma {:induction false} SameReals(a: seq<Float>, b: seq<Float>)
    requires !AnyNaN(a) && !AnyNaN(b) && multiset(a) == multiset(b)
    ensures multiset(Reals(a)) == multiset(Reals(b))
  {
    forall x ensures multiset(Reals(a))[x] == multiset(Reals(b))[x] {
      RealsCount(a, x);
      RealsCount(b, x);
    }
  }

  lemma {:induction false} SameNaNs(a: seq<Float>, b: seq<Float>)
    requires multiset(a) == multiset(b)
    ensures |a| == |b| && (AnyNaN(a) <==> AnyNaN(b))
  {
    assert |multiset(a)| == |a| && |multiset(b)| == |b|;
    assert AnyNaN(a) <==> NaN in multiset(a);
    assert AnyNaN(b) <==> NaN in multiset(b);
  }

  /** The order of the data is immaterial. */
  lemma {:induction false} PermutationInvariant(a: seq<Float>, b: seq<Float>, q: Float)
    requires multiset(a) == multiset(b)
    ensures Percentile(a, q) == Percentile(b, q) && Median(a) == Median(b)
  {
    SameNaNs(a, b);
    if a != [] && !AnyNaN(a) {
      SameReals(a, b);
      SortedKeeps(Reals(a));
      SortedKeeps(Reals(b));
      SortedIsUnique(Sorted(Reals(a)), Sorted(Reals(b)));
    }
  }

  lemma Scale(f: real, g: real, d: real)
    requires 0.0 <= d && f <= g
    ensures Times(f, d) <= Times(g, d) && Times(d, f) <= Times(d, g)
  {
  }

  lemma {:induction false} InterpolateBetween(s: seq<real>, pos: real)
    requires s != [] && IsSorted(s) && 0.0 <= pos <= (|s| - 1) as real
    ensures s[pos.Floor] <= Interpolate(s, pos) <= s[Ceil(pos)]
  {
    var d := s[Ceil(pos)] - s[pos.Floor];
    var f := pos - pos.Floor as real;
    Scale(0.0, f, d);
    Scale(f, 1.0, d);
    assert Times(0.0, d) == 0.0 && Times(1.0, d) == d;
  }

  lemma {:induction false} InterpolateMonotone(s: seq<real>, pos: real, pos': real)
    requires s != [] && IsSorted(s) && 0.0 <= pos <= pos' <= (|s| - 1) as real
    ensures Interpolate(s, pos) <= Interpolate(s, pos')
  {
    if pos.Floor == pos'.Floor {
      SameSegment(s, pos, pos');
    } else {
      InterpolateBetween(s, pos);
      InterpolateBetween(s, pos');
      assert Ceil(pos) <= pos'.Floor;
    }
  }

  lemma {:induction false} SameSegment(s: seq<real>, pos: real, pos': real)
    requires s != [] && IsSorted(s) && 0.0 <= pos <= pos' <= (|s| - 1) as real && pos.Floor == pos'.Floor
    ensures Interpolate(s, pos) <= Interpolate(s, pos')
  {
    if pos == pos.Floor as real {
      InterpolateBetween(s, pos');
    } else {
      Scale(pos - pos.Floor as real, pos' - pos.Floor as real, s[Ceil(pos)] - s[pos.Floor]);
    }
  }

  /** A larger percentage never gives a smaller value. */
  lemma {:induction false} MonotoneInQ(a: seq<Float>, q: real, q': real)
    requires q <= q' && a != [] && !AnyNaN(a)
    ensures Percentile(a, Num(q)).x <= Percentile(a, Num(q')).x
  {
    SortedKeeps(Reals(a));
    Scale(Clamp(q) / 100.0, Clamp(q') / 100.0, (|a| - 1) as real);
    InterpolateMonotone(Sorted(Reals(a)), Position(|a|, Clamp(q)), Position(|a|, Clamp(q')));
  }

  ghost predicate IsMin(x: real, s: seq<real>) {
    x in s && forall i :: 0 <= i < |s| ==> x <= s[i]
  }

  ghost predicate IsMax(x: real, s: seq<real>) {
    x in s && forall i :: 0 <= i < |s| ==> s[i] <= x
  }

  lemma {:induction false} SortedEnds(s: seq<real>)
    requires s != []
    ensures |Sorted(s)| == |s| && IsMin(Sorted(s)[0], s) && IsMax(Sorted(s)[|s| - 1], s)
  {
    SortedKeeps(s);
    var t := Sorted(s);
    assert t[0] in multiset(s) && t[|s| - 1] in multiset(s);
    forall i | 0 <= i < |s| ensures t[0] <= s[i] <= t[|s| - 1] {
      assert s[i] in multiset(t);
    }
  }

  /** At 0 the minimum, at 100 the maximum, and outside that range the nearer of the two. */
  lemma {:induction false} Extremes(a: seq<Float>, q: real)
    requires a != [] && !AnyNaN(a)
    ensures q <= 0.0 ==> IsMin(Percentile(a, Num(q)).x, Reals(a))
    ensures q >= 100.0 ==> IsMax(Percentile(a, Num(q)).x, Reals(a))
  {
    SortedEnds(Reals(a));
    assert Position(|a|, 0.0) == 0.0;
    assert Position(|a|, 100.0) == (|a| - 1) as real;
  }

  /** Always between the smallest and the largest value. */
  lemma {:induction false} WithinRange(a: seq<Float>, q: real, lo: real, hi: real)
    requires a != [] && !AnyNaN(a) && IsMin(lo, Reals(a)) && IsMax(hi, Reals(a))
    ensures lo <= Percentile(a, Num(q)).x <= hi
  {
    Extremes(a, 0.0);
    Extremes(a, 100.0);
    MonotoneInQ(a, if q <= 0.0 then q else 0.0, q);
    MonotoneInQ(a, q, if q >= 100.0 then q else 100.0);
    if q <= 0.0 {
      Extremes(a, q);
    }
    if q >= 100.0 {
      Extremes(a, q);
    }
  }

  lemma FloorIs(n: int, x: real)
    requires n as real <= x < (n + 1) as real
    ensures x.Floor == n
  {
  }

  /** The 50th percentile is the median, which is coded separately. */
  lemma {:induction false} FiftyIsMedian(a: seq<Float>)
    ensures Percentile(a, Num(50.0)) == Median(a)
  {
    if a != [] && !AnyNaN(a) {
      SortedKeeps(Reals(a));
      MiddleIsMedian(Sorted(Reals(a)));
    }
  }

  lemma {:induction false} MiddleIsMedian(s: seq<real>)
    requires s != []
    ensures Interpolate(s, Position(|s|, 50.0)) == MedianOf(s)
  {
    var n, mid := |s|, |s| / 2;
    var pos := Position(n, 50.0);
    assert pos == (n - 1) as real / 2.0;
    if n % 2 == 0 {
      assert pos == mid as real - 0.5;
      FloorIs(mid - 1, pos);
    } else {
      assert pos == mid as real;
      FloorIs(mid, pos);
    }
  }

  // ----- linear interpolation, apart from `Interpolate` -----

  /** The values of `a` in ascending order. */
  ghost predicate Arranges(s: seq<real>, a: seq<Float>) {
    a != [] && !AnyNaN(a) && IsSorted(s) && multiset(s) == multiset(Reals(a))
  }

  lemma {:induction false} ArrangesOnce(s: seq<real>, a: seq<Float>)
    requires Arranges(s, a)
    ensures s == Sorted(Reals(a)) && |s| == |a|
  {
    SortedKeeps(Reals(a));
    SortedIsUnique(s, Sorted(Reals(a)));
  }

  /** The percentage at which the `i`th of `n` values stands. */
  function Node(i: int, n: int): real
    requires n > 1
  {
    100.0 * i as real / (n - 1) as real
  }

  lemma NodeBelow(x: real, m: real, q: real)
    requires m > 0.0 && 100.0 * x / m <= q
    ensures x <= Times(m, q / 100.0)
  {
    assert 100.0 * x / m * m == 100.0 * x;
    assert 100.0 * x / m * m <= q * m;
  }

  lemma NodeAbove(x: real, m: real, q: real)
    requires m > 0.0 && q <= 100.0 * x / m
    ensures Times(m, q / 100.0) <= x
  {
    assert 100.0 * x / m * m == 100.0 * x;
    assert q * m <= 100.0 * x / m * m;
  }

  lemma NodeInRange(x: real, m: real)
    requires m > 0.0 && 0.0 <= x <= m
    ensures 0.0 <= 100.0 * x / m <= 100.0
  {
  }

  lemma NodesAscend(x: real, y: real, m: real)
    requires m > 0.0 && x <= y
    ensures 100.0 * x / m <= 100.0 * y / m
  {
  }

  /** Between two nodes the virtual index is between their places. */
  lemma {:induction false} PositionBetween(n: nat, i: nat, q: real)
    requires i + 1 < n && Node(i, n) <= q <= Node(i + 1, n)
    ensures 0.0 <= q <= 100.0 && i as real <= Position(n, q) <= (i + 1) as real
  {
    var m := (n - 1) as real;
    NodeInRange(i as real, m);
    NodeInRange((i + 1) as real, m);
    NodeBelow(i as real, m, q);
    NodeAbove((i + 1) as real, m, q);
  }

  /** On a segment, including both of its ends. */
  lemma {:induction false} InterpolateOn(s: seq<real>, i: nat, pos: real)
    requires i + 1 < |s| && i as real <= pos <= (i + 1) as real
    ensures Interpolate(s, pos) == s[i] + Times(pos - i as real, s[i + 1] - s[i])
  {
    if pos == (i + 1) as real {
      FloorIs(i + 1, pos);
    } else {
      FloorIs(i, pos);
    }
  }

  lemma {:induction false} PercentileOn(a: seq<Float>, s: seq<real>, i: nat, q: real) returns (pos: real)
    requires Arranges(s, a) && |s| == |a| && i + 1 < |a| && Node(i, |a|) <= q <= Node(i + 1, |a|)
    ensures pos == Times((|a| - 1) as real, q / 100.0) && i as real <= pos <= (i + 1) as real
    ensures Percentile(a, Num(q)) == Num(s[i] + Times(pos - i as real, s[i + 1] - s[i]))
  {
    ArrangesOnce(s, a);
    PositionBetween(|a|, i, q);
    PercentileIs(a, q, s);
    pos := Position(|a|, q);
    InterpolateOn(s, i, pos);
  }

  lemma NoneAndAll(d: real)
    ensures Times(0.0, d) == 0.0 && Times(1.0, d) == d
  {
  }

  /** Of n ascending values the `i`th is the percentile at 100 * i / (n - 1). */
  lemma {:induction false} NodesAreValues(a: seq<Float>, s: seq<real>, i: nat)
    requires Arranges(s, a) && i < |a| && |a| > 1
    ensures |s| == |a| && Percentile(a, Num(100.0 * i as real / (|a| - 1) as real)) == Num(s[i])
  {
    ArrangesOnce(s, a);
    var m := (|a| - 1) as real;
    var q := Node(i, |a|);
    NodeBelow(i as real, m, q);
    NodeAbove(i as real, m, q);
    var j := if i + 1 < |a| then i else i - 1;
    NodesAscend(j as real, i as real, m);
    NodesAscend(i as real, (j + 1) as real, m);
    NoneAndAll(s[j + 1] - s[j]);
    var pos := PercentileOn(a, s, j, q);
  }

  lemma LineAt(base: real, m: real, d: real, x: real, q: real)
    ensures base + Times(Times(m, q / 100.0) - x, d) == base - x * d + Times(m * d / 100.0, q)
  {
    assert (m * (q / 100.0) - x) * d == m * (q / 100.0) * d - x * d;
    assert m * (q / 100.0) * d == m * d / 100.0 * q;
  }

  /** Steps of the value are in proportion to steps of the argument. */
  predicate InProportion(x1: real, v1: real, x: real, v: real, x2: real, v2: real) {
    (v - v1) * (x2 - x1) == (v2 - v1) * (x - x1)
  }

  ghost predicate IsLine(line: real -> real) {
    forall x, y, z :: InProportion(x, line(x), y, line(y), z, line(z))
  }

  lemma {:induction false} LinesExist(b: real, c: real) returns (line: real -> real)
    ensures IsLine(line) && forall q :: line(q) == b + Times(c, q)
  {
    line := (q: real) => b + Times(c, q);
    forall x, y, z ensures InProportion(x, line(x), y, line(y), z, line(z)) {
      OnOneLine(b, c, x, y, z, line(x), line(y), line(z));
    }
  }

  /** The percentile is on a line from one percentage to another. */
  ghost predicate Follows(a: seq<Float>, lo: real, hi: real, line: real -> real) {
    forall q :: lo <= q <= hi ==> Percentile(a, Num(q)) == Num(line(q))
  }

  lemma {:induction false} FollowsAt(a: seq<Float>, s: seq<real>, i: nat, m: real, d: real, q: real, v: real)
    requires Arranges(s, a) && |s| == |a| && i + 1 < |a| && Node(i, |a|) <= q <= Node(i + 1, |a|)
    requires m == (|a| - 1) as real && d == s[i + 1] - s[i]
    requires v == s[i] + Times(Times(m, q / 100.0) - i as real, d)
    ensures Percentile(a, Num(q)) == Num(v)
  {
    var pos := PercentileOn(a, s, i, q);
  }

  lemma {:induction false} FollowsLine(a: seq<Float>, s: seq<real>, i: nat, lo: real, hi: real)
    returns (line: real -> real)
    requires Arranges(s, a) && |s| == |a| && i + 1 < |a| && lo == Node(i, |a|) && hi == Node(i + 1, |a|)
    ensures IsLine(line) && Follows(a, lo, hi, line)
  {
    var m, d, x := (|a| - 1) as real, s[i + 1] - s[i], i as real;
    var b, c := s[i] - x * d, m * d / 100.0;
    line := LinesExist(b, c);
    forall q | lo <= q <= hi ensures Percentile(a, Num(q)) == Num(line(q)) {
      LineAt(s[i], m, d, x, q);
      FollowsAt(a, s, i, m, d, q, line(q));
    }
  }

  lemma OnOneLine(b: real, c: real, q1: real, q: real, q2: real, v1: real, v: real, v2: real)
    requires v1 == b + Times(c, q1) && v == b + Times(c, q) && v2 == b + Times(c, q2)
    ensures (v - v1) * (q2 - q1) == (v2 - v1) * (q - q1)
  {
    assert v - v1 == c * (q - q1) && v2 - v1 == c * (q2 - q1);
  }

  lemma AffineOn(line: real -> real, q1: real, q: real, q2: real, v1: real, v: real, v2: real)
    requires IsLine(line) && v1 == line(q1) && v == line(q) && v2 == line(q2)
    ensures InProportion(q1, v1, q, v, q2, v2)
  {
    assert InProportion(q1, line(q1), q, line(q), q2, line(q2));
  }

  lemma FollowsHere(a: seq<Float>, lo: real, hi: real, line: real -> real, q: real)
    requires a != [] && !AnyNaN(a) && Follows(a, lo, hi, line) && lo <= q <= hi
    ensures Percentile(a, Num(q)).x == line(q)
  {
    assert Percentile(a, Num(q)) == Num(line(q));
  }

  lemma FollowsThere(a: seq<Float>, lo: real, hi: real, line: real -> real, q1: real, q: real, q2: real)
    requires a != [] && !AnyNaN(a) && Follows(a, lo, hi, line) && lo <= q1 <= q <= q2 <= hi
    ensures Percentile(a, Num(q1)).x == line(q1) && Percentile(a, Num(q)).x == line(q)
    ensures Percentile(a, Num(q2)).x == line(q2)
  {
    FollowsHere(a, lo, hi, line, q1);
    FollowsHere(a, lo, hi, line, q);
    FollowsHere(a, lo, hi, line, q2);
  }

  /** Between two neighbouring such percentages the percentile moves in proportion to the percentage. */
  lemma {:induction false} AffineBetweenNodes(a: seq<Float>, i: nat, q1: real, q: real, q2: real)
    requires a != [] && !AnyNaN(a) && i + 1 < |a|
    requires 100.0 * i as real / (|a| - 1) as real <= q1 <= q <= q2 <= 100.0 * (i + 1) as real / (|a| - 1) as real
    ensures InProportion(q1, Percentile(a, Num(q1)).x, q, Percentile(a, Num(q)).x, q2, Percentile(a, Num(q2)).x)
  {
    SortedKeeps(Reals(a));
    var lo, hi := Node(i, |a|), Node(i + 1, |a|);
    var line := FollowsLine(a, Sorted(Reals(a)), i, lo, hi);
    FollowsThere(a, lo, hi, line, q1, q, q2);
    AffineOn(line, q1, q, q2, Percentile(a, Num(q1)).x, Percentile(a, Num(q)).x, Percentile(a, Num(q2)).x);
  }

  /** A single value is its own percentile, at any percentage. */
  lemma {:induction false} OnlyValue(x: real, q: real)
    ensures Percentile([Num(x)], Num(q)) == Num(x)
  {
    SortedKeeps(Reals([Num(x)]));
    OneValue(Sorted(Reals([Num(x)])), Clamp(q));
  }

  /** No result exactly without data, with a NaN among them, or at a percentage that is NaN. */
  lemma {:induction false} NoResult(a: seq<Float>, q: Float)
    ensures Percentile(a, q).NaN? <==> |a| == 0 || NaN in a || q == NaN
    ensures Median(a).NaN? <==> |a| == 0 || NaN in a
  {
  }

  /** A quarter of the way from 10 to 20. */
  lemma {:induction false} QuarterExample()
    ensures Percentile([Num(10.0), Num(20.0)], Num(25.0)) == Num(12.5)
  {
    var a, s := [Num(10.0), Num(20.0)], [10.0, 20.0];
    assert Reals(a) == s;
    var pos := PercentileOn(a, s, 0, 25.0);
    assert pos == 0.25 && Times(0.25, 10.0) == 2.5;
  }
}
