/** The codec in the source's form: encoders that append to a shared buffer, decoders that move a cursor. */
module Msgpack {
  import opened Wrappers
  import opened MsgpackFormat
  import opened MsgpackSpec

  datatype PackError = NegativeUint | NonStringKey

  /** Python's `bytearray`, as far as the encoders use it. */
  class Bytearray {
    var data: Bytes

    constructor ()
      ensures data == []
    {
      data := [];
    }

    method Append(b: byte)
      modifies this
      ensures data == old(data) + [b]
    {
      data := data + [b];
    }

    method Extend(s: Bytes)
      modifies this
      ensures data == old(data) + s
    {
      data := data + s;
    }
  }

  // ----- packing -----

  /** `for shift in (8 * (k - 1), ..., 8, 0): out.append((value >> shift) & 0xff)` */
  method AppendBigEndian(value: int, k: nat, out: Bytearray)
    modifies out
    ensures out.data == old(out.data) + BigEndian(value, k)
  {
    for i := k downto 0
      invariant out.data == old(out.data) + BigEndian(Shifted(value, i), k - i)
    {
      out.Append(Shifted(value, i) % 0x100);
    }
  }

  /** A marker and the number that belongs to it. */
  method AppendMarked(marker: byte, value: int, k: nat, out: Bytearray)
    modifies out
    ensures out.data == old(out.data) + ([marker] + BigEndian(value, k))
  {
    out.Append(marker);
    AppendBigEndian(value, k, out);
  }

  method PackUint(value: int, out: Bytearray) returns (r: Result<(), PackError>)
    modifies out
    ensures if value < 0 then r == Err(NegativeUint) && out.data == old(out.data)
            else r == Ok(()) && out.data == old(out.data) + EncodeUint(value)
  {
    if value < 0 {
      return Err(NegativeUint);
    }
    if value <= 0x7f {
      out.Append(value);
    } else if value <= 0xff {
      AppendMarked(UINT_8, value, 1, out);
    } else if value <= 0xffff {
      AppendMarked(UINT_16, value, 2, out);
    } else if value <= 0xffff_ffff {
      AppendMarked(UINT_32, value, 4, out);
    } else {
      AppendMarked(UINT_64, value, 8, out);
    }
    r := Ok(());
  }

  method PackInt(value: int, out: Bytearray) returns (r: Result<(), PackError>)
    modifies out
    ensures r == Ok(()) && out.data == old(out.data) + EncodeInt(value)
  {
    if value >= 0 {
      r := PackUint(value, out);
      return;
    }
    if value >= -0x20 {
      out.Append(0xe0 + value % 0x20);
    } else if value >= -0x80 {
      AppendMarked(INT_8, value, 1, out);
    } else if value >= -0x8000 {
      AppendMarked(INT_16, value, 2, out);
    } else if value >= -0x8000_0000 {
      AppendMarked(INT_32, value, 4, out);
    } else {
      AppendMarked(INT_64, value, 8, out);
    }
    r := Ok(());
  }

  method PackFloat(bits: Bytes, out: Bytearray)
    modifies out
    ensures out.data == old(out.data) + ([FLOAT_64] + bits)
  {
    out.Append(FLOAT_64);
    out.Extend(bits);
  }

  method PackStr(utf8: Bytes, out: Bytearray)
    modifies out
    ensures out.data == old(out.data) + EncodeStr(utf8)
  {
    PackStrHeader(|utf8|, out);
    out.Extend(utf8);
  }

  method PackStrHeader(n: nat, out: Bytearray)
    modifies out
    ensures out.data == old(out.data) + StrHeader(n)
  {
    if n <= 0x1f {
      out.Append(FIXSTR_PREFIX + n);
    } else if n <= 0xff {
      AppendMarked(STR_8, n, 1, out);
    } else if n <= 0xffff {
      AppendMarked(STR_16, n, 2, out);
    } else {
      AppendMarked(STR_32, n, 4, out);
    }
  }

  method PackBin(data: Bytes, out: Bytearray)
    modifies out
    ensures out.data == old(out.data) + (BinHeader(|data|) + data)
  {
    PackBinHeader(|data|, out);
    out.Extend(data);
  }

  method PackBinHeader(n: nat, out: Bytearray)
    modifies out
    ensures out.data == old(out.data) + BinHeader(n)
  {
    if n <= 0xff {
      AppendMarked(BIN_8, n, 1, out);
    } else if n <= 0xffff {
      AppendMarked(BIN_16, n, 2, out);
    } else {
      AppendMarked(BIN_32, n, 4, out);
    }
  }

  method PackArrayHeader(n: nat, out: Bytearray)
    modifies out
    ensures out.data == old(out.data) + ArrayHeader(n)
  {
    if n <= 0x0f {
      out.Append(FIXARRAY_PREFIX + n);
    } else if n <= 0xffff {
      AppendMarked(ARRAY_16, n, 2, out);
    } else {
      AppendMarked(ARRAY_32, n, 4, out);
    }
  }

  method PackMapHeader(n: nat, out: Bytearray)
    modifies out
    ensures out.data == old(out.data) + MapHeader(n)
  {
    if n <= 0x0f {
      out.Append(FIXMAP_PREFIX + n);
    } else if n <= 0xffff {
      AppendMarked(MAP_16, n, 2, out);
    } else {
      AppendMarked(MAP_32, n, 4, out);
    }
  }

  /** What packing leaves in the buffer: the packed value, or some of it before an exception. */
  ghost predicate PackedOnto(before: Bytes, after: Bytes, v: Value, r: Result<(), PackError>) {
    if Packable(v) then r == Ok(()) && after == before + Packed(v)
    else r == Err(NonStringKey) && before <= after
  }

  method PackArray(v: Value, out: Bytearray) returns (r: Result<(), PackError>)
    requires v.Array?
    modifies out
    ensures PackedOnto(old(out.data), out.data, v, r)
    decreases v, 0, 1
  {
    PackArrayHeader(|v.elems|, out);
    r := PackItems(v, v.elems, out);
  }

  ghost predicate AllPackable(elems: seq<Value>) {
    forall i :: 0 <= i < |elems| ==> Packable(elems[i])
  }

  /** The loop of `pack_array`. */
  method PackItems(ghost v: Value, elems: seq<Value>, out: Bytearray) returns (r: Result<(), PackError>)
    requires v.Array? && v.elems == elems
    modifies out
    ensures if AllPackable(elems) then r == Ok(()) && out.data == old(out.data) + PackedItems(elems)
            else r == Err(NonStringKey) && old(out.data) <= out.data
    decreases v, 0, 0
  {
    ghost var start := out.data;
    assert elems[..0] == [];
    for i := 0 to |elems|
      invariant AllPackable(elems[..i]) && out.data == start + PackedItems(elems[..i])
    {
      r := PackInto(elems[i], out);
      if r.Err? {
        return;
      }
      PackedItemsSnoc(elems, i, start);
    }
    assert elems[..|elems|] == elems;
    r := Ok(());
  }

  lemma {:induction false} PackedItemsSnoc(elems: seq<Value>, i: nat, start: Bytes)
    requires i < |elems| && AllPackable(elems[..i]) && Packable(elems[i])
    ensures AllPackable(elems[..i + 1])
    ensures start + PackedItems(elems[..i]) + Packed(elems[i]) == start + PackedItems(elems[..i + 1])
  {
    EncodeItemsSnoc(elems, i);
  }

  lemma {:induction false} EncodeItemsSnoc(elems: seq<Value>, i: nat)
    requires i < |elems| && forall j :: 0 <= j <= i ==> Packable(elems[j])
    ensures EncodeItems(elems[..i + 1]) == EncodeItems(elems[..i]) + Encode(elems[i])
    decreases i
  {
    if i == 0 {
      assert elems[..1] == [elems[0]] && elems[..0] == [];
    } else {
      EncodeItemsSnoc(elems[1..], i - 1);
      assert elems[..i + 1][1..] == elems[1..][..i];
      assert elems[..i][1..] == elems[1..][..i - 1];
    }
  }

  /** `sorted(value.keys())`, which raises for keys it cannot compare or that are not strings. */
  method SortKeys(entries: map<Value, Value>) returns (r: Result<seq<Bytes>, PackError>)
    ensures r.Ok? <==> forall k :: k in entries ==> k.Str?
    ensures r.Ok? ==> StrictlyIncreasing(r.value) && forall u :: u in r.value <==> Str(u) in entries
    ensures r.Err? ==> r.error == NonStringKey
  {
    var rest := entries.Keys;
    var sorted: seq<Bytes> := [];
    while rest != {}
      invariant rest <= entries.Keys
      invariant forall u :: u in sorted <==> Str(u) in entries.Keys - rest
      invariant forall k :: k in entries.Keys - rest ==> k.Str?
      invariant StrictlyIncreasing(sorted)
      decreases |rest|
    {
      var k :| k in rest;
      if !k.Str? {
        return Err(NonStringKey);
      }
      sorted := Insert(sorted, k.utf8);
      rest := rest - {k};
    }
    r := Ok(sorted);
  }

  /** One insertion-sort step. */
  method Insert(sorted: seq<Bytes>, u: Bytes) returns (r: seq<Bytes>)
    requires StrictlyIncreasing(sorted) && u !in sorted
    ensures StrictlyIncreasing(r)
    ensures forall w :: w in r <==> w in sorted || w == u
  {
    var i := 0;
    while i < |sorted| && KeyLess(sorted[i], u)
      invariant 0 <= i <= |sorted|
      invariant forall j :: 0 <= j < i ==> KeyLess(sorted[j], u)
    {
      i := i + 1;
    }
    forall j | i <= j < |sorted| ensures KeyLess(u, sorted[j]) {
      KeyLessTotal(sorted[i], u);
      if i < j {
        KeyLessTransitive(u, sorted[i], sorted[j]);
      }
    }
    r := sorted[..i] + [u] + sorted[i..];
    assert forall w :: w in sorted <==> w in sorted[..i] || w in sorted[i..] by {
      assert sorted == sorted[..i] + sorted[i..];
    }
  }

  method PackMap(v: Value, out: Bytearray) returns (r: Result<(), PackError>)
    requires v.Map?
    modifies out
    ensures PackedOnto(old(out.data), out.data, v, r)
    decreases v, 0, 2
  {
    ghost var start := out.data;
    PackMapHeader(|v.entries|, out);
    var sorted := SortKeys(v.entries);
    if sorted.Err? {
      return Err(sorted.error);
    }
    AllPairsPackable(v, sorted.value);
    r := PackPairs(v, sorted.value, out);
    PackedInOrder(v, sorted.value);
    if Packable(v) {
      Regroup(start, MapHeader(|v.entries|), PackedPairs(v, sorted.value));
    }
  }

  lemma {:induction false} PackedInOrder(v: Value, keys: seq<Bytes>)
    requires v.Map? && StrictlyIncreasing(keys) && forall u :: u in keys <==> Str(u) in v.entries
    ensures Packable(v) ==> KeysOf(v, keys) && Packed(v) == MapHeader(|v.entries|) + PackedPairs(v, keys)
  {
    if Packable(v) {
      IncreasingIsSorted(keys, StrKeys(v.entries));
      assert EncodeBody(v) == EncodePairs(v, keys);
    }
  }

  lemma Regroup(a: Bytes, b: Bytes, c: Bytes)
    ensures a + b + c == a + (b + c)
  {
  }

  /** The loop of `pack_map` over the sorted keys. */
  method PackPairs(v: Value, keys: seq<Bytes>, out: Bytearray) returns (r: Result<(), PackError>)
    requires KeysOf(v, keys) && (Packable(v) <==> PairsPackable(v, keys))
    modifies out
    ensures if Packable(v) then r == Ok(()) && out.data == old(out.data) + PackedPairs(v, keys)
            else r == Err(NonStringKey) && old(out.data) <= out.data
    decreases v, 0, 1
  {
    ghost var start := out.data;
    for i := 0 to |keys|
      invariant PairsPacked(v, keys, i, start, out.data)
    {
      ghost var before := out.data;
      r := PackPair(v, keys[i], out);
      if r.Err? {
        return;
      }
      PairsPackedStep(v, keys, i, start, before, out.data);
    }
    assert keys[..|keys|] == keys;
    r := Ok(());
  }

  /** The key and the value of one pair. */
  method PackPair(v: Value, k: Bytes, out: Bytearray) returns (r: Result<(), PackError>)
    requires v.Map? && Str(k) in v.entries
    modifies out
    ensures var w := v.entries[Str(k)];
            if Packable(w) then r == Ok(()) && out.data == old(out.data) + EncodeStr(k) + Packed(w)
            else r == Err(NonStringKey) && old(out.data) <= out.data
    decreases v, 0, 0
  {
    PackStr(k, out);
    r := PackInto(v.entries[Str(k)], out);
  }

  ghost predicate PairsPackable(v: Value, keys: seq<Bytes>) {
    KeysOf(v, keys) && forall i :: 0 <= i < |keys| ==> Packable(v.entries[Str(keys[i])])
  }

  /** The first `i` pairs have been packed onto `start`, giving `now`. */
  ghost predicate PairsPacked(v: Value, keys: seq<Bytes>, i: nat, start: Bytes, now: Bytes)
    requires KeysOf(v, keys) && i <= |keys|
  {
    && PairsPackable(v, keys[..i]) && start <= now
    && (Packable(v) ==> now + PackedPairs(v, keys[i..]) == start + PackedPairs(v, keys))
  }

  lemma {:induction false} PairsPackedStep(v: Value, keys: seq<Bytes>, i: nat, start: Bytes, before: Bytes, now: Bytes)
    requires KeysOf(v, keys) && i < |keys| && PairsPacked(v, keys, i, start, before)
    requires var w := v.entries[Str(keys[i])]; Packable(w) && now == before + EncodeStr(keys[i]) + Packed(w)
    ensures PairsPacked(v, keys, i + 1, start, now)
  {
    assert PairsPackable(v, keys[..i + 1]);
    if Packable(v) {
      PackedPairsStep(v, keys, i, before);
    }
  }

  lemma {:induction false} PackedPairsStep(v: Value, keys: seq<Bytes>, i: nat, before: Bytes)
    requires Packable(v) && KeysOf(v, keys) && i < |keys|
    ensures before + EncodeStr(keys[i]) + Packed(v.entries[Str(keys[i])]) + PackedPairs(v, keys[i + 1..])
         == before + PackedPairs(v, keys[i..])
  {
  }

  lemma {:induction false} AllPairsPackable(v: Value, keys: seq<Bytes>)
    requires v.Map? && (forall k :: k in v.entries ==> k.Str?)
    requires forall u :: u in keys <==> Str(u) in v.entries
    ensures KeysOf(v, keys) && (Packable(v) <==> PairsPackable(v, keys))
  {
  }

  /** `pack(value, out)`. */
  method PackInto(v: Value, out: Bytearray) returns (r: Result<(), PackError>)
    modifies out
    ensures PackedOnto(old(out.data), out.data, v, r)
    decreases v, 1, 0
  {
    r := Ok(());
    match v
    case Nil => out.Append(NIL);
    case Bool(b) => out.Append(if b then TRUE else FALSE);
    case Int(n) => r := PackInt(n, out);
    case Float(bits) => PackFloat(bits, out);
    case Str(utf8) => PackStr(utf8, out);
    case Bin(data) => PackBin(data, out);
    case Array(_) => r := PackArray(v, out);
    case Map(_) => r := PackMap(v, out);
  }

  /** `pack(value)`. */
  method Pack(v: Value) returns (r: Result<Bytes, PackError>)
    ensures if Packable(v) then r == Ok(Encode(v)) else r == Err(NonStringKey)
  {
    var buf := new Bytearray();
    var done := PackInto(v, buf);
    assert Packable(v) ==> [] + Encode(v) == Encode(v);
    r := if done.Ok? then Ok(buf.data) else Err(done.error);
  }

  // ----- unpacking -----

  method UnpackUint(d: Bytes, pos: nat, nBytes: nat) returns (r: Read<nat>)
    ensures r == ReadUint(d, pos, nBytes)
  {
    if pos + nBytes > |d| {
      return Err(Truncated);
    }
    var value: nat := 0;
    for i := 0 to nBytes
      invariant value == FromBigEndian(d[pos..pos + i])
    {
      value := value * 0x100 + d[pos + i];
      assert d[pos..pos + i + 1][..i] == d[pos..pos + i];
    }
    r := Ok((value, pos + nBytes));
  }

  method UnpackInt(d: Bytes, pos: nat, nBytes: nat) returns (r: Read<int>)
    ensures r == ReadInt(d, pos, nBytes)
  {
    var u := UnpackUint(d, pos, nBytes);
    if u.Err? {
      return Err(u.error);
    }
    var (value, newPos) := u.value;
    r := Ok((Signed(value, nBytes), newPos));
  }

  method UnpackFloat(d: Bytes, pos: nat, nBytes: nat) returns (r: Read<Bytes>)
    requires nBytes == 4 || nBytes == 8
    ensures r == ReadFloat(d, pos, nBytes)
  {
    if pos + nBytes > |d| {
      return Err(Truncated);
    }
    var body := d[pos..pos + nBytes];
    r := Ok((if nBytes == 4 then WidenSingle(body) else body, pos + nBytes));
  }

  method UnpackArray(ranges: Ranges, d: Bytes, pos: nat, length: nat) returns (r: Read<seq<Value>>)
    requires pos <= |d|
    ensures r == Items(ranges, d, pos, length)
    decreases |d| - pos, 2, length
  {
    var out: seq<Value> := [];
    var cursor := pos;
    PrependNone(Items(ranges, d, pos, length));
    for i := 0 to length
      invariant pos <= cursor <= |d|
      invariant i > 0 ==> pos < cursor
      invariant Items(ranges, d, pos, length) == Prepend(out, Items(ranges, d, cursor, length - i))
    {
      ItemsStep(ranges, d, cursor, length - i);
      var one := UnpackOne(ranges, d, cursor);
      if one.Err? {
        return Err(one.error);
      }
      PrependStep(out, one.value.0, Items(ranges, d, one.value.1, length - i - 1));
      out, cursor := out + [one.value.0], one.value.1;
    }
    assert out + [] == out;
    r := Ok((out, cursor));
  }

  function Prepend(out: seq<Value>, rest: Read<seq<Value>>): Read<seq<Value>> {
    var (elems, p) :- rest;
    Ok((out + elems, p))
  }

  lemma PrependNone(rest: Read<seq<Value>>)
    ensures Prepend([], rest) == rest
  {
    if rest.Ok? {
      assert [] + rest.value.0 == rest.value.0;
    }
  }

  lemma {:induction false} PrependStep(out: seq<Value>, v: Value, rest: Read<seq<Value>>)
    ensures Prepend(out, Prepend([v], rest)) == Prepend(out + [v], rest)
  {
    if rest.Ok? {
      assert out + ([v] + rest.value.0) == out + [v] + rest.value.0;
    }
  }

  method UnpackMap(ranges: Ranges, d: Bytes, pos: nat, length: nat) returns (r: Read<map<Value, Value>>)
    requires pos <= |d|
    ensures r == Pairs(ranges, d, pos, length, map[])
    decreases |d| - pos, 2, length
  {
    var out: map<Value, Value> := map[];
    var cursor := pos;
    for i := 0 to length
      invariant pos <= cursor <= |d|
      invariant i > 0 ==> pos < cursor
      invariant Pairs(ranges, d, pos, length, map[]) == Pairs(ranges, d, cursor, length - i, out)
    {
      PairsFromPair(ranges, d, cursor, length - i, out);
      var pair := UnpackPair(ranges, d, cursor);
      if pair.Err? {
        return Err(pair.error);
      }
      var ((key, value), newPos) := pair.value;
      out, cursor := out[key := value], newPos;
    }
    r := Ok((out, cursor));
  }

  /** A key and its value at a position. */
  function PairAt(r: Ranges, d: Bytes, pos: nat): (res: Read<(Value, Value)>)
    requires pos <= |d|
    ensures EndsIn(res, pos + 1, d)
  {
    NextIsDecodeOne(r, d, pos);
    var (key, mid) :- Next(r, d, pos);
    NextIsDecodeOne(r, d, mid);
    var (value, end) :- Next(r, d, mid);
    if Hashable(key) then Ok(((key, value), end)) else Err(UnhashableKey)
  }

  lemma PairsFromPair(r: Ranges, d: Bytes, pos: nat, n: nat, out: map<Value, Value>)
    requires pos <= |d| && n > 0
    ensures var pair := PairAt(r, d, pos);
            Pairs(r, d, pos, n, out) ==
            if pair.Err? then Err(pair.error)
            else Pairs(r, d, pair.value.1, n - 1, out[pair.value.0.0 := pair.value.0.1])
  {
    PairsStep(r, d, pos, n, out);
  }

  /** One turn of the loop of `unpack_map`. */
  method UnpackPair(ranges: Ranges, d: Bytes, pos: nat) returns (r: Read<(Value, Value)>)
    requires pos <= |d|
    ensures r == PairAt(ranges, d, pos)
    decreases |d| - pos, 1, 1
  {
    var key := UnpackOne(ranges, d, pos);
    if key.Err? {
      return Err(key.error);
    }
    var value := UnpackOne(ranges, d, key.value.1);
    if value.Err? {
      return Err(value.error);
    }
    if !Hashable(key.value.0) {
      return Err(UnhashableKey);
    }
    r := Ok(((key.value.0, value.value.0), value.value.1));
  }

  method UnpackStr(d: Bytes, pos: nat, length: nat) returns (r: Read<Value>)
    ensures r == ReadStr(d, pos, length)
  {
    if pos + length > |d| {
      return Err(Truncated);
    }
    var body := d[pos..pos + length];
    r := if ValidUtf8(body) then Ok((Str(body), pos + length)) else Err(InvalidUtf8);
  }

  method UnpackBin(d: Bytes, pos: nat, length: nat) returns (r: Read<Value>)
    ensures r == ReadBin(d, pos, length)
  {
    if pos + length > |d| {
      return Err(Truncated);
    }
    r := Ok((Bin(d[pos..pos + length]), pos + length));
  }

  /** `_unpack_one`: the marker and its number, then the body it announces. */
  method UnpackOne(ranges: Ranges, d: Bytes, pos: nat) returns (r: Read<Value>)
    requires pos <= |d|
    ensures r == Next(ranges, d, pos) == DecodeOne(ranges, d, pos)
    decreases |d| - pos, 1, 0
  {
    NextIsDecodeOne(ranges, d, pos);
    var read := UnpackHead(ranges, d, pos);
    if read.Err? {
      return Err(read.error);
    }
    var (head, p) := read.value;
    match head
    case Scalar(v) => r := Ok((v, p));
    case StrOf(n) => r := UnpackStr(d, p, n);
    case BinOf(n) => r := UnpackBin(d, p, n);
    case ItemsOf(n) =>
      var items := UnpackArray(ranges, d, p, n);
      r := if items.Ok? then Ok((Array(items.value.0), items.value.1)) else Err(items.error);
    case PairsOf(n) =>
      var pairs := UnpackMap(ranges, d, p, n);
      r := if pairs.Ok? then Ok((Map(pairs.value.0), pairs.value.1)) else Err(pairs.error);
  }

  method UnpackHead(ranges: Ranges, d: Bytes, pos: nat) returns (r: Read<Head>)
    ensures r == ReadHead(ranges, d, pos)
  {
    if pos >= |d| {
      return Err(EofBeforeValue);
    }
    var shape := Classify(ranges, d[pos]);
    match shape
    case Complete(head) => r := Ok((head, pos + 1));
    case UintIn(k) =>
      var u := UnpackUint(d, pos + 1, k);
      r := if u.Ok? then Ok((Scalar(Int(u.value.0)), u.value.1)) else Err(u.error);
    case IntIn(k) =>
      var n := UnpackInt(d, pos + 1, k);
      r := if n.Ok? then Ok((Scalar(Int(n.value.0)), n.value.1)) else Err(n.error);
    case FloatIn(k) =>
      var f := UnpackFloat(d, pos + 1, k);
      r := if f.Ok? then Ok((Scalar(Float(f.value.0)), f.value.1)) else Err(f.error);
    case StrLength(k) =>
      var length := UnpackUint(d, pos + 1, k);
      r := if length.Ok? then Ok((StrOf(length.value.0), length.value.1)) else Err(length.error);
    case BinLength(k) =>
      var length := UnpackUint(d, pos + 1, k);
      r := if length.Ok? then Ok((BinOf(length.value.0), length.value.1)) else Err(length.error);
    case ItemCount(k) =>
      var length := UnpackUint(d, pos + 1, k);
      r := if length.Ok? then Ok((ItemsOf(length.value.0), length.value.1)) else Err(length.error);
    case PairCount(k) =>
      var length := UnpackUint(d, pos + 1, k);
      r := if length.Ok? then Ok((PairsOf(length.value.0), length.value.1)) else Err(length.error);
    case Unknown => r := Err(UnknownMarker(d[pos]));
  }

  /** `unpack(data)`. */
  method Unpack(ranges: Ranges, d: Bytes) returns (r: Result<Value, UnpackError>)
    ensures r == Decode(ranges, d)
  {
    var one := UnpackOne(ranges, d, 0);
    if one.Err? {
      return Err(one.error);
    }
    var (value, pos) := one.value;
    r := if pos != |d| then Err(TrailingBytes) else Ok(value);
  }
}
