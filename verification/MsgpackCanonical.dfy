/**
  Packing is minimal: whatever encoding of a value the decoder accepted, packing the value again
  is no longer, except for the four bytes each 32-bit float grows by.
*/
module MsgpackCanonical {
  import opened Wrappers
  import opened MsgpackFormat
  import opened MsgpackSpec
  import opened MsgpackRoundTrip

  // ----- sums over maps -----

  ghost function Sum<K>(s: map<K, nat>): nat
    decreases |s|
  {
    if s == map[] then 0 else var k :| k in s; s[k] + Sum(s - {k})
  }

  lemma {:induction false} SumRemove<K>(s: map<K, nat>, k: K)
    requires k in s
    ensures Sum(s) == s[k] + Sum(s - {k})
    decreases |s|
  {
    var j :| j in s && Sum(s) == s[j] + Sum(s - {j});
    if j != k {
      SumRemove(s - {j}, k);
      SumRemove(s - {k}, j);
      assert s - {j} - {k} == s - {k} - {j};
    }
  }

  lemma {:induction false} SumUpdate<K>(s: map<K, nat>, k: K, x: nat)
    ensures Sum(s[k := x]) <= Sum(s) + x
  {
    SumRemove(s[k := x], k);
    if k in s {
      SumRemove(s, k);
      assert s[k := x] - {k} == s - {k};
    } else {
      assert s[k := x] - {k} == s;
    }
  }

  // ----- the size of a packed value -----

  /** The length of the packed form, defined for every value. */
  ghost function Size(v: Value): nat {
    match v
    case Nil => 1
    case Bool(_) => 1
    case Int(n) => |EncodeInt(n)|
    case Float(bits) => 1 + |bits|
    case Str(utf8) => |StrHeader(|utf8|)| + |utf8|
    case Bin(data) => |BinHeader(|data|)| + |data|
    case Array(elems) => |ArrayHeader(|elems|)| + Sizes(elems)
    case Map(entries) => |MapHeader(|entries|)| + Sum(map k | k in entries :: Size(k) + Size(entries[k]))
  }

  ghost function Sizes(elems: seq<Value>): nat {
    if elems == [] then 0 else Size(elems[0]) + Sizes(elems[1..])
  }

  ghost function PairSizes(m: map<Value, Value>): map<Value, nat> {
    map k | k in m :: Size(k) + Size(m[k])
  }

  /** The length of the packed pairs of a map. */
  ghost function MapSize(m: map<Value, Value>): nat {
    Sum(PairSizes(m))
  }

  lemma {:induction false} NoPairsSize()
    ensures MapSize(map[]) == 0
  {
    assert PairSizes(map[]) == map[];
  }

  /** What decoding guarantees about a value: `InScope` without the demand for string keys. */
  ghost predicate Fits(v: Value) {
    match v
    case Nil => true
    case Bool(_) => true
    case Int(n) => -TWO_63 <= n < TWO_64
    case Float(bits) => |bits| == 8
    case Str(utf8) => ValidUtf8(utf8) && |utf8| < TWO_32
    case Bin(data) => |data| < TWO_32
    case Array(elems) => |elems| < TWO_32 && forall i :: 0 <= i < |elems| ==> Fits(elems[i])
    case Map(entries) =>
      && |entries| < TWO_32
      && forall k {:trigger k in entries} :: k in entries ==> Fits(k) && Fits(entries[k])
  }

  ghost predicate PairsFit(m: map<Value, Value>) {
    forall k {:trigger k in m} :: k in m ==> Fits(k) && Fits(m[k])
  }

  lemma {:induction v} FitsPackable(v: Value)
    ensures InScope(v) <==> Fits(v) && Packable(v)
  {
  }

  lemma {:induction false} EncodeSize(v: Value)
    requires Packable(v)
    ensures |Encode(v)| == Size(v)
    decreases v, 1, 0
  {
    match v
    case Array(elems) => EncodeItemsSize(elems);
    case Map(entries) => EncodeBodySize(v);
    case _ =>
  }

  lemma {:induction false} EncodeItemsSize(elems: seq<Value>)
    requires forall i :: 0 <= i < |elems| ==> Packable(elems[i])
    ensures |EncodeItems(elems)| == Sizes(elems)
    decreases elems, 0, 0
  {
    if elems != [] {
      EncodeSize(elems[0]);
      EncodeItemsSize(elems[1..]);
    }
  }

  ghost function SizesAt(v: Value, keys: seq<Bytes>): map<Value, nat>
    requires KeysOf(v, keys)
  {
    map k | k in v.entries && k.Str? && k.utf8 in keys :: Size(k) + Size(v.entries[k])
  }

  lemma {:induction false} EncodeBodySize(v: Value)
    requires v.Map? && Packable(v)
    ensures |EncodeBody(v)| == Sum(PairSizes(v.entries))
    decreases v, 0, |v.entries| + 1
  {
    var keys := SortedKeys(StrKeys(v.entries));
    SortedKeysCount(v.entries);
    SortedKeysIncrease(StrKeys(v.entries));
    EncodePairsSize(v, keys);
    SizesAtAll(v, keys);
  }

  lemma {:induction false} SizesAtAll(v: Value, keys: seq<Bytes>)
    requires v.Map? && Packable(v)
    requires forall k :: k in keys <==> Str(k) in v.entries
    ensures SizesAt(v, keys) == PairSizes(v.entries)
  {
    forall k | k in v.entries ensures k in SizesAt(v, keys) {
      assert k == Str(k.utf8);
    }
  }

  lemma {:induction false} HeadNotInTail(keys: seq<Bytes>)
    requires keys != [] && StrictlyIncreasing(keys)
    ensures keys[0] !in keys[1..] && StrictlyIncreasing(keys[1..])
    ensures forall k :: k in keys <==> k == keys[0] || k in keys[1..]
  {
    assert keys == [keys[0]] + keys[1..];
    if i :| 1 <= i < |keys| && keys[i] == keys[0] {
      assert KeyLess(keys[0], keys[i]);
      KeyLessTotal(keys[0], keys[0]);
    }
  }

  lemma {:induction false} SizesAtStep(v: Value, keys: seq<Bytes>)
    requires KeysOf(v, keys) && keys != [] && StrictlyIncreasing(keys)
    ensures KeysOf(v, keys[1..]) && StrictlyIncreasing(keys[1..])
    ensures Sum(SizesAt(v, keys)) == Size(Str(keys[0])) + Size(v.entries[Str(keys[0])]) + Sum(SizesAt(v, keys[1..]))
  {
    var k := Str(keys[0]);
    HeadNotInTail(keys);
    assert SizesAt(v, keys) - {k} == SizesAt(v, keys[1..]);
    SumRemove(SizesAt(v, keys), k);
  }

  lemma {:induction false} EncodePairsSize(v: Value, keys: seq<Bytes>)
    requires Packable(v) && KeysOf(v, keys) && StrictlyIncreasing(keys)
    ensures |EncodePairs(v, keys)| == Sum(SizesAt(v, keys))
    decreases v, 0, |keys|
  {
    if keys == [] {
      assert SizesAt(v, keys) == map[];
    } else {
      SizesAtStep(v, keys);
      EncodeSize(v.entries[Str(keys[0])]);
      EncodePairsSize(v, keys[1..]);
    }
  }

  // ----- decoded values -----

  /**
    The FLOAT_32 markers that the decoder meets at the front of values; a 0xca inside a number or a
    body is not one.
  */
  function Singles(r: Ranges, d: Bytes, pos: nat): nat
    requires pos <= |d|
    decreases |d| - pos, 1, 0
  {
    var front := ReadHead(r, d, pos);
    if front.Err? then 0
    else
      match front.value.0
      case Scalar(_) => if d[pos] == FLOAT_32 then 1 else 0
      case ItemsOf(n) => SinglesInItems(r, d, front.value.1, n)
      case PairsOf(n) => SinglesInPairs(r, d, front.value.1, n)
      case _ => 0
  }

  function SinglesInItems(r: Ranges, d: Bytes, pos: nat, n: nat): nat
    requires pos <= |d|
    decreases |d| - pos, 2, n
  {
    if n == 0 || Next(r, d, pos).Err? then 0
    else
      AfterNext(r, d, pos);
      Singles(r, d, pos) + SinglesInItems(r, d, Next(r, d, pos).value.1, n - 1)
  }

  function SinglesInPairs(r: Ranges, d: Bytes, pos: nat, n: nat): nat
    requires pos <= |d|
    decreases |d| - pos, 2, n
  {
    if n == 0 || Next(r, d, pos).Err? then 0
    else
      AfterNext(r, d, pos);
      var mid := Next(r, d, pos).value.1;
      if Next(r, d, mid).Err? then Singles(r, d, pos)
      else
        AfterNext(r, d, mid);
        Singles(r, d, pos) + Singles(r, d, mid) + SinglesInPairs(r, d, Next(r, d, mid).value.1, n - 1)
  }

  lemma AfterNext(r: Ranges, d: Bytes, pos: nat)
    requires pos <= |d| && Next(r, d, pos).Ok?
    ensures pos < Next(r, d, pos).value.1 <= |d|
  {
    NextIsDecodeOne(r, d, pos);
  }

  // The counts under names that do not unfold by themselves.

  function Markers(r: Ranges, d: Bytes, pos: nat): nat
    requires pos <= |d|
  {
    Singles(r, d, pos)
  }

  function ItemMarkers(r: Ranges, d: Bytes, pos: nat, n: nat): nat
    requires pos <= |d|
  {
    SinglesInItems(r, d, pos, n)
  }

  function PairMarkers(r: Ranges, d: Bytes, pos: nat, n: nat): nat
    requires pos <= |d|
  {
    SinglesInPairs(r, d, pos, n)
  }

  /** `size` is no more than the bytes from `lo` to `hi`, plus four for each marker among them. */
  predicate Within(size: int, d: Bytes, lo: nat, hi: nat, markers: nat) {
    lo <= hi <= |d| && size <= hi - lo + 4 * markers
  }

  lemma {:induction false} ReadUintBound(d: Bytes, pos: nat, k: nat)
    requires ReadUint(d, pos, k).Ok?
    ensures ReadUint(d, pos, k).value.0 < Pow256(k)
  {
    FromBigEndianBound(d[pos..pos + k]);
  }

  /** The numbers of bytes that can follow a marker. */
  lemma {:induction false} Widths(r: Ranges, m: byte)
    ensures var shape := Classify(r, m);
            && (shape.UintIn? || shape.IntIn? ==> shape.k in {1, 2, 4, 8})
            && (shape.StrLength? || shape.BinLength? ==> shape.k in {1, 2, 4})
            && (shape.ItemCount? || shape.PairCount? ==> shape.k in {2, 4})
            && (shape.FloatIn? ==> shape.k == if m == FLOAT_32 then 4 else 8)
  {
  }

  lemma {:induction false} CompleteScalar(r: Ranges, m: byte)
    requires Classify(r, m).Complete? && Classify(r, m).head.Scalar?
    ensures var v := Classify(r, m).head.v; Fits(v) && Size(v) == 1
  {
  }

  lemma {:induction false} CompleteLength(r: Ranges, m: byte)
    requires Classify(r, m).Complete? && !Classify(r, m).head.Scalar?
    ensures var head := Classify(r, m).head; head.n < 0x20 && HeaderLength(head) == 1
  {
  }

  lemma {:induction false} UintWithin(n: nat, k: nat)
    requires k in {1, 2, 4, 8} && n < Pow256(k)
    ensures n < TWO_64 && |EncodeUint(n)| <= 1 + k
  {
    Pow256Values();
  }

  lemma {:induction false} SignedWithin(u: nat, k: nat)
    requires k in {1, 2, 4, 8} && u < Pow256(k)
    ensures -TWO_63 <= Signed(u, k) < TWO_64 && |EncodeInt(Signed(u, k))| <= 1 + k
  {
    Pow256Values();
    if Signed(u, k) >= 0 {
      UintWithin(u, k);
    }
  }

  lemma {:induction false} HeaderWithin(n: nat, k: nat)
    requires k in {1, 2, 4} && n < Pow256(k)
    ensures n < TWO_32 && |StrHeader(n)| <= 1 + k && |BinHeader(n)| <= 1 + k
    ensures k > 1 ==> |ArrayHeader(n)| <= 1 + k && |MapHeader(n)| <= 1 + k
  {
    Pow256Values();
  }

  /** A scalar is packed in no more bytes than it was read from, a 32-bit float in four more. */
  lemma {:induction false} ScalarWithin(r: Ranges, d: Bytes, pos: nat)
    requires ReadHead(r, d, pos).Ok? && ReadHead(r, d, pos).value.0.Scalar?
    ensures var (head, p) := ReadHead(r, d, pos).value;
            Fits(head.v) && p <= |d| && Size(head.v) <= p - pos + if d[pos] == FLOAT_32 then 4 else 0
  {
    Widths(r, d[pos]);
    var shape := Classify(r, d[pos]);
    match shape
    case UintIn(k) =>
      ReadUintBound(d, pos + 1, k);
      UintWithin(ReadUint(d, pos + 1, k).value.0, k);
    case IntIn(k) =>
      ReadUintBound(d, pos + 1, k);
      SignedWithin(ReadUint(d, pos + 1, k).value.0, k);
    case Complete(_) => CompleteScalar(r, d[pos]);
    case FloatIn(_) =>
  }

  /** A length header is as long as the shortest header for that length. */
  lemma {:induction false} LengthWithin(r: Ranges, d: Bytes, pos: nat)
    requires ReadHead(r, d, pos).Ok? && !ReadHead(r, d, pos).value.0.Scalar?
    ensures var (head, p) := ReadHead(r, d, pos).value;
            p <= |d| && head.n < TWO_32 && HeaderLength(head) <= p - pos
  {
    Widths(r, d[pos]);
    var shape := Classify(r, d[pos]);
    if shape.Complete? {
      CompleteLength(r, d[pos]);
    } else {
      ReadUintBound(d, pos + 1, shape.k);
      HeaderWithin(ReadUint(d, pos + 1, shape.k).value.0, shape.k);
    }
  }

  function HeaderLength(head: Head): nat
    requires !head.Scalar?
  {
    match head
    case StrOf(n) => |StrHeader(n)|
    case BinOf(n) => |BinHeader(n)|
    case ItemsOf(n) => |ArrayHeader(n)|
    case PairsOf(n) => |MapHeader(n)|
  }

  /** What a successful read did after its header. */
  lemma {:induction false} NextShape(r: Ranges, d: Bytes, pos: nat) returns (head: Head, body: nat)
    requires pos <= |d| && Next(r, d, pos).Ok?
    ensures pos < body <= |d| && ReadHead(r, d, pos) == Ok((head, body))
    ensures head.Scalar? ==> Next(r, d, pos) == Ok((head.v, body))
    ensures head.StrOf? ==> Next(r, d, pos) == ReadStr(d, body, head.n)
    ensures head.BinOf? ==> Next(r, d, pos) == ReadBin(d, body, head.n)
    ensures head.ItemsOf? ==> var items := Items(r, d, body, head.n);
                              items.Ok? && Next(r, d, pos) == Ok((Array(items.value.0), items.value.1))
    ensures head.PairsOf? ==> var pairs := Pairs(r, d, body, head.n, map[]);
                              pairs.Ok? && Next(r, d, pos) == Ok((Map(pairs.value.0), pairs.value.1))
  {
    NextIsDecodeOne(r, d, pos);
    head, body := ReadHead(r, d, pos).value.0, ReadHead(r, d, pos).value.1;
  }

  /** Every decoded value is within the limits of the format and packs into no more than it was read from. */
  lemma {:induction false} NextWithin(r: Ranges, d: Bytes, pos: nat)
    requires pos <= |d| && Next(r, d, pos).Ok?
    ensures var (v, p) := Next(r, d, pos).value;
            pos < p && Fits(v) && Within(Size(v), d, pos, p, Markers(r, d, pos))
    decreases |d| - pos, 1, 0
  {
    var head, body := NextShape(r, d, pos);
    match head
    case Scalar(v) => ScalarWithin(r, d, pos);
    case StrOf(n) => LengthWithin(r, d, pos);
    case BinOf(n) => LengthWithin(r, d, pos);
    case ItemsOf(n) => ArrayWithin(r, d, pos, n, body);
    case PairsOf(n) => MapWithin(r, d, pos, n, body);
  }

  lemma {:induction false} ArrayWithin(r: Ranges, d: Bytes, pos: nat, n: nat, body: nat)
    requires pos < body <= |d| && ReadHead(r, d, pos) == Ok((ItemsOf(n), body)) && Items(r, d, body, n).Ok?
    ensures var (elems, p) := Items(r, d, body, n).value;
            Fits(Array(elems)) && Within(Size(Array(elems)), d, pos, p, Markers(r, d, pos))
    decreases |d| - pos, 0, 0
  {
    LengthWithin(r, d, pos);
    ItemsWithin(r, d, body, n);
    assert Markers(r, d, pos) == ItemMarkers(r, d, body, n);
  }

  lemma {:induction false} MapWithin(r: Ranges, d: Bytes, pos: nat, n: nat, body: nat)
    requires pos < body <= |d| && ReadHead(r, d, pos) == Ok((PairsOf(n), body)) && Pairs(r, d, body, n, map[]).Ok?
    ensures var (m, p) := Pairs(r, d, body, n, map[]).value;
            Fits(Map(m)) && Within(Size(Map(m)), d, pos, p, Markers(r, d, pos))
    decreases |d| - pos, 0, 0
  {
    LengthWithin(r, d, pos);
    PairsWithin(r, d, body, n, map[]);
    var m := Pairs(r, d, body, n, map[]).value.0;
    MapHeaderMonotone(|m|, n);
    NoPairsSize();
    assert Size(Map(m)) == |MapHeader(|m|)| + MapSize(m);
    assert Markers(r, d, pos) == PairMarkers(r, d, body, n);
  }

  lemma {:induction false} MapHeaderMonotone(m: nat, n: nat)
    requires m <= n
    ensures |MapHeader(m)| <= |MapHeader(n)|
  {
  }

  lemma {:induction false} ItemMarkersStep(r: Ranges, d: Bytes, pos: nat, n: nat)
    requires pos <= |d| && n > 0 && Next(r, d, pos).Ok?
    ensures var mid := Next(r, d, pos).value.1;
            mid <= |d| && ItemMarkers(r, d, pos, n) == Markers(r, d, pos) + ItemMarkers(r, d, mid, n - 1)
  {
    AfterNext(r, d, pos);
  }

  lemma {:induction false} ItemsWithin(r: Ranges, d: Bytes, pos: nat, n: nat)
    requires pos <= |d| && Items(r, d, pos, n).Ok?
    ensures var (elems, p) := Items(r, d, pos, n).value;
            && |elems| == n && (forall i :: 0 <= i < |elems| ==> Fits(elems[i]))
            && Within(Sizes(elems), d, pos, p, ItemMarkers(r, d, pos, n))
    decreases |d| - pos, 2, n
  {
    if n > 0 {
      ItemsStep(r, d, pos, n);
      NextWithin(r, d, pos);
      ItemMarkersStep(r, d, pos, n);
      var (v, mid) := Next(r, d, pos).value;
      ItemsWithin(r, d, mid, n - 1);
      var rest := Items(r, d, mid, n - 1).value.0;
      assert ([v] + rest)[1..] == rest;
    }
  }

  lemma {:induction false} PairMarkersStep(r: Ranges, d: Bytes, pos: nat, n: nat)
    requires pos <= |d| && n > 0 && Next(r, d, pos).Ok?
    ensures var mid := Next(r, d, pos).value.1;
            mid <= |d| && (Next(r, d, mid).Ok? ==>
              var end := Next(r, d, mid).value.1;
              && end <= |d|
              && PairMarkers(r, d, pos, n) == Markers(r, d, pos) + Markers(r, d, mid) + PairMarkers(r, d, end, n - 1))
  {
    AfterNext(r, d, pos);
    var mid := Next(r, d, pos).value.1;
    if Next(r, d, mid).Ok? {
      AfterNext(r, d, mid);
    }
  }

  lemma {:induction false} PairsWithin(r: Ranges, d: Bytes, pos: nat, n: nat, out: map<Value, Value>)
    requires pos <= |d| && Pairs(r, d, pos, n, out).Ok? && PairsFit(out)
    ensures var (m, p) := Pairs(r, d, pos, n, out).value;
            && |m| <= |out| + n && PairsFit(m)
            && Within(MapSize(m) - MapSize(out), d, pos, p, PairMarkers(r, d, pos, n))
    decreases |d| - pos, 2, n
  {
    if n > 0 {
      var k, v, end, markers := PairWithin(r, d, pos, n, out);
      PairSizesUpdate(out, k, v);
      PairsFitUpdate(out, k, v);
      var next := out[k := v];
      PairsWithin(r, d, end, n - 1, next);
      var (m, p) := Pairs(r, d, end, n - 1, next).value;
      JoinWithin(Size(k) + Size(v), MapSize(m) - MapSize(next), MapSize(m) - MapSize(out), d, pos, end, p,
                 markers, PairMarkers(r, d, end, n - 1), PairMarkers(r, d, pos, n));
    }
  }

  /** The first pair, and what is left after it. */
  lemma {:induction false} PairWithin(r: Ranges, d: Bytes, pos: nat, n: nat, out: map<Value, Value>)
    returns (k: Value, v: Value, end: nat, markers: nat)
    requires pos <= |d| && n > 0 && Pairs(r, d, pos, n, out).Ok?
    ensures Fits(k) && Fits(v) && pos < end && Within(Size(k) + Size(v), d, pos, end, markers)
    ensures Pairs(r, d, pos, n, out) == Pairs(r, d, end, n - 1, out[k := v])
    ensures PairMarkers(r, d, pos, n) == markers + PairMarkers(r, d, end, n - 1)
    decreases |d| - pos, 1, 1
  {
    PairsStep(r, d, pos, n, out);
    PairMarkersStep(r, d, pos, n);
    NextWithin(r, d, pos);
    var mid := Next(r, d, pos).value.1;
    NextWithin(r, d, mid);
    k, v, end := Next(r, d, pos).value.0, Next(r, d, mid).value.0, Next(r, d, mid).value.1;
    markers := Markers(r, d, pos) + Markers(r, d, mid);
    JoinWithin(Size(k), Size(v), Size(k) + Size(v), d, pos, mid, end, Markers(r, d, pos), Markers(r, d, mid), markers);
  }

  lemma JoinWithin(a: int, b: int, size: int, d: Bytes, lo: nat, mid: nat, hi: nat, m: nat, n: nat, markers: nat)
    requires Within(a, d, lo, mid, m) && Within(b, d, mid, hi, n) && size <= a + b && markers == m + n
    ensures Within(size, d, lo, hi, markers)
  {
  }

  lemma {:induction false} PairSizesUpdate(m: map<Value, Value>, k: Value, v: Value)
    ensures MapSize(m[k := v]) <= MapSize(m) + Size(k) + Size(v)
  {
    var x := Size(k) + Size(v);
    SumUpdate(PairSizes(m), k, x);
    PairSizesOfUpdate(m, k, v, x);
  }

  lemma {:induction false} PairSizesOfUpdate(m: map<Value, Value>, k: Value, v: Value, x: nat)
    requires x == Size(k) + Size(v)
    ensures PairSizes(m[k := v]) == PairSizes(m)[k := x]
  {
    var a, b := PairSizes(m[k := v]), PairSizes(m)[k := x];
    assert a.Keys == b.Keys;
    forall j | j in a ensures a[j] == b[j] {
      assert j == k || m[k := v][j] == m[j];
    }
  }

  lemma {:induction false} PairsFitUpdate(m: map<Value, Value>, k: Value, v: Value)
    requires PairsFit(m) && Fits(k) && Fits(v)
    ensures PairsFit(m[k := v]) && |m[k := v]| <= |m| + 1
  {
  }

  // ----- the promises -----

  /**
    If any bytes decode to a value whose maps have string keys, packing that value gives no more
    bytes (four more for each FLOAT_32 marker), and the format's own decoder reads the value back.
  */
  lemma {:induction false} Repack(r: Ranges, d: Bytes)
    requires Decode(r, d).Ok? && Packable(Decode(r, d).value)
    ensures var v := Decode(r, d).value;
            && InScope(v)
            && |Encode(v)| <= |d| + 4 * Markers(r, d, 0)
            && Decode(INTENDED, Encode(v)) == Ok(v)
  {
    var v := Decode(r, d).value;
    NextIsDecodeOne(r, d, 0);
    NextWithin(r, d, 0);
    FitsPackable(v);
    EncodeSize(v);
    RoundTrip(v, []);
  }

  /** No encoding in which the decoder meets no FLOAT_32 marker is shorter than the packed one. */
  lemma {:induction false} PackIsShortest(r: Ranges, v: Value, d: Bytes)
    requires Packable(v) && Decode(r, d) == Ok(v) && Markers(r, d, 0) == 0
    ensures |Encode(v)| <= |d|
  {
    Repack(r, d);
  }

  /** A 0xca that is no marker is not counted: 202 in two bytes is repacked in one. */
  lemma {:induction false} PayloadIsNoMarker()
    ensures var d := [UINT_16, 0x00, 0xca];
            Decode(AS_WRITTEN, d) == Ok(Int(202)) && Markers(AS_WRITTEN, d, 0) == 0
                && Encode(Int(202)) == [UINT_8, 0xca]
  {
    var d: Bytes := [UINT_16, 0x00, 0xca];
    assert d[1..3] == [0x00, 0xca] && [0x00 as byte, 0xca][..1] == [0x00];
    assert FromBigEndian([]) == 0 && FromBigEndian([0x00]) == 0;
    assert ReadUint(d, 1, 2) == Ok((202, 3));
    assert Encode(Int(202)) == [UINT_8] + BigEndian(202, 1);
  }

  lemma {:induction false} SingleHead(d: Bytes)
    requires |d| == 5 && d[0] == FLOAT_32
    ensures ReadHead(INTENDED, d, 0) == Ok((Scalar(Float(WidenSingle(d[1..5]))), 5))
  {
    assert Classify(INTENDED, d[0]) == FloatIn(4);
  }

  /** A front that is a scalar is the whole value. */
  lemma {:induction false} ScalarAlone(d: Bytes, v: Value)
    requires ReadHead(INTENDED, d, 0) == Ok((Scalar(v), |d|))
    ensures Decode(INTENDED, d) == Ok(v) && Markers(INTENDED, d, 0) == if d[0] == FLOAT_32 then 1 else 0
  {
  }

  /** The four bytes are really needed: a lone 32-bit float takes nine bytes instead of five. */
  lemma {:induction false} SinglesGrowByFour(d: Bytes, wide: Bytes)
    requires |d| == 5 && d[0] == FLOAT_32 && wide == WidenSingle(d[1..5])
    ensures Decode(INTENDED, d) == Ok(Float(wide)) && Markers(INTENDED, d, 0) == 1
    ensures |wide| == 8 && |Encode(Float(wide))| == |d| + 4 * Markers(INTENDED, d, 0)
  {
    SingleHead(d);
    ScalarAlone(d, Float(wide));
  }
}
