/**
  Round trip, prefix-freeness and the exact set of values that survive the decoder as written.
*/
module MsgpackRoundTrip {
  import opened Wrappers
  import opened MsgpackFormat
  import opened MsgpackSpec
  import opened Slices

  /** The values the codec is for: lengths and integers that fit the widest markers, string keys. */
  ghost predicate InScope(v: Value)
    ensures InScope(v) ==> Packable(v)
  {
    match v
    case Nil => true
    case Bool(_) => true
    case Int(n) => -TWO_63 <= n < TWO_64
    case Float(bits) => |bits| == 8
    case Str(utf8) => ValidUtf8(utf8) && |utf8| < TWO_32
    case Bin(data) => |data| < TWO_32
    case Array(elems) => |elems| < TWO_32 && forall i :: 0 <= i < |elems| ==> InScope(elems[i])
    case Map(entries) =>
      && |entries| < TWO_32
      && forall k {:trigger k in entries} :: k in entries ==> k.Str? && InScope(k) && InScope(entries[k])
  }

  ghost predicate AllInScope(elems: seq<Value>)
    ensures AllInScope(elems) ==> forall i :: 0 <= i < |elems| ==> Packable(elems[i])
  {
    forall i :: 0 <= i < |elems| ==> InScope(elems[i])
  }

  /** The two decoders of interest. */
  predicate KnownRanges(r: Ranges) {
    r == AS_WRITTEN || r == INTENDED
  }

  predicate StrReads(r: Ranges, n: nat) {
    n >= 0x20 || FIXSTR_PREFIX + n < r.fixstrEnd
  }

  predicate ArrayReads(r: Ranges, n: nat) {
    n >= 0x10 || FIXARRAY_PREFIX + n < r.fixarrayEnd
  }

  /** Every string, key and array inside `v` gets a header that the decoder with bounds `r` recognises. */
  ghost predicate Reads(r: Ranges, v: Value) {
    match v
    case Str(utf8) => StrReads(r, |utf8|)
    case Array(elems) => ArrayReads(r, |elems|) && forall i :: 0 <= i < |elems| ==> Reads(r, elems[i])
    case Map(entries) => forall k {:trigger k in entries} :: k in entries ==> Reads(r, k) && Reads(r, entries[k])
    case _ => true
  }

  /** Every string and map key has at least 32 bytes and every array at least 16 elements. */
  ghost predicate LongEnough(v: Value) {
    match v
    case Str(utf8) => |utf8| >= 32
    case Array(elems) => |elems| >= 16 && forall i :: 0 <= i < |elems| ==> LongEnough(elems[i])
    case Map(entries) => forall k {:trigger k in entries} :: k in entries ==> LongEnough(k) && LongEnough(entries[k])
    case _ => true
  }

  /** Bit 0x20 is already set in 0xa0, so the code's upper bound for fixstr is its lower bound. */
  lemma {:induction false} AsWrittenBounds()
    ensures AS_WRITTEN == Ranges((0xa0 as bv8 | 0x20 as bv8) as int, 0x80)
  {
    assert 0xa0 as bv8 | 0x20 as bv8 == 0xa0 as bv8;
  }

  lemma {:induction false} AsWrittenReads(v: Value)
    ensures Reads(AS_WRITTEN, v) <==> LongEnough(v)
  {
    match v
    case Array(elems) =>
      forall i | 0 <= i < |elems| ensures Reads(AS_WRITTEN, elems[i]) <==> LongEnough(elems[i]) {
        AsWrittenReads(elems[i]);
      }
    case Map(entries) =>
      forall k {:trigger k in entries} | k in entries
        ensures (Reads(AS_WRITTEN, k) <==> LongEnough(k)) && (Reads(AS_WRITTEN, entries[k]) <==> LongEnough(entries[k]))
      {
        AsWrittenReads(k);
        AsWrittenReads(entries[k]);
      }
    case _ =>
  }

  lemma {:induction false} IntendedReads(v: Value)
    ensures Reads(INTENDED, v)
  {
    match v
    case Array(elems) =>
      forall i | 0 <= i < |elems| ensures Reads(INTENDED, elems[i]) {
        IntendedReads(elems[i]);
      }
    case Map(entries) =>
      forall k {:trigger k in entries} | k in entries ensures Reads(INTENDED, k) && Reads(INTENDED, entries[k]) {
        IntendedReads(k);
        IntendedReads(entries[k]);
      }
    case _ =>
  }

  // ----- headers and integers -----

  lemma {:induction false} MarkedBigEndian(d: Bytes, pos: nat, s: Bytes, marker: byte, n: int, k: nat, modulus: nat)
    requires At(d, pos, s) && s == [marker] + BigEndian(n, k) && modulus == Pow256(k)
    ensures d[pos] == marker
    ensures ReadUint(d, pos + 1, k) == Ok((n % modulus, pos + 1 + k))
  {
    AtConcat(d, pos, [marker], BigEndian(n, k));
    assert d[pos] == d[pos..pos + 1][0];
    BigEndianRoundTrip(n, k);
  }

  /** What reading back a packed integer gives: itself in scope, its low 64 bits outside. */
  function Wrapped(n: int): int {
    if n >= 0 then n % TWO_64 else if n < -0x8000_0000 then Signed(n % TWO_64, 8) else n
  }

  lemma {:induction false} MarkedUint(r: Ranges, d: Bytes, pos: nat, s: Bytes, marker: byte, n: int, k: nat,
      modulus: nat, m: int, end: nat)
    requires At(d, pos, s) && s == [marker] + BigEndian(n, k) && modulus == Pow256(k)
             && Classify(r, marker) == UintIn(k)
    requires m == n % modulus && end == pos + |s|
    ensures ReadHead(r, d, pos) == Ok((Scalar(Int(m)), end))
  {
    MarkedBigEndian(d, pos, s, marker, n, k, modulus);
  }

  lemma {:induction false} MarkedInt(r: Ranges, d: Bytes, pos: nat, s: Bytes, marker: byte, n: int, k: nat,
      modulus: nat)
    requires At(d, pos, s) && s == [marker] + BigEndian(n, k) && modulus == Pow256(k) && Classify(r, marker) == IntIn(k)
    ensures ReadHead(r, d, pos) == Ok((Scalar(Int(Signed(n % modulus, k))), pos + 1 + k))
  {
    MarkedBigEndian(d, pos, s, marker, n, k, modulus);
  }

  /** The marker of a number above 0x7f, and the number of bytes that follow it. */
  lemma {:induction false} UintForm(n: nat) returns (marker: byte, k: nat, modulus: nat)
    requires n > 0x7f
    ensures EncodeUint(n) == [marker] + BigEndian(n, k) && modulus == Pow256(k) && n % modulus == n % TWO_64
    ensures (marker, k) in {(UINT_8, 1), (UINT_16, 2), (UINT_32, 4), (UINT_64, 8)}
  {
    Pow256Values();
    if n <= 0xff {
      marker, k, modulus := UINT_8, 1, 0x100;
    } else if n <= 0xffff {
      marker, k, modulus := UINT_16, 2, 0x1_0000;
    } else if n <= 0xffff_ffff {
      marker, k, modulus := UINT_32, 4, TWO_32;
    } else {
      marker, k, modulus := UINT_64, 8, TWO_64;
    }
  }

  lemma {:induction false} UintMarker(r: Ranges, marker: byte, k: nat)
    requires (marker, k) in {(UINT_8, 1), (UINT_16, 2), (UINT_32, 4), (UINT_64, 8)}
    ensures Classify(r, marker) == UintIn(k)
  {
  }

  lemma {:induction false} SmallUintReads(r: Ranges, d: Bytes, pos: nat, n: nat)
    requires n <= 0x7f && At(d, pos, EncodeUint(n))
    ensures ReadHead(r, d, pos) == Ok((Scalar(Int(n)), pos + 1))
  {
    assert d[pos] == EncodeUint(n)[0];
  }

  lemma {:induction false} EncodedUintReads(r: Ranges, d: Bytes, pos: nat, n: nat)
    requires At(d, pos, EncodeUint(n))
    ensures ReadHead(r, d, pos) == Ok((Scalar(Int(n % TWO_64)), pos + |EncodeUint(n)|))
  {
    if n <= 0x7f {
      SmallUintReads(r, d, pos, n);
    } else {
      var marker, k, modulus := UintForm(n);
      UintMarker(r, marker, k);
      MarkedUint(r, d, pos, EncodeUint(n), marker, n, k, modulus, n % TWO_64, pos + |EncodeUint(n)|);
    }
  }

  lemma {:induction false} MarkedNegative(r: Ranges, d: Bytes, pos: nat, s: Bytes, marker: byte, n: int, k: nat,
      modulus: nat)
    requires At(d, pos, s) && s == [marker] + BigEndian(n, k) && modulus == Pow256(k) && Classify(r, marker) == IntIn(k)
    requires 0 <= 2 * n + modulus < modulus
    ensures ReadHead(r, d, pos) == Ok((Scalar(Int(n)), pos + 1 + k))
  {
    MarkedInt(r, d, pos, s, marker, n, k, modulus);
    DivModUnique(n, modulus, -1, n + modulus);
  }

  lemma {:induction false} EncodedNegativeReads(r: Ranges, d: Bytes, pos: nat, n: int)
    requires n < -0x20 && At(d, pos, EncodeInt(n))
    ensures ReadHead(r, d, pos) == Ok((Scalar(Int(Wrapped(n))), pos + |EncodeInt(n)|))
  {
    Pow256Values();
    if n >= -0x80 {
      MarkedNegative(r, d, pos, EncodeInt(n), INT_8, n, 1, 0x100);
    } else if n >= -0x8000 {
      MarkedNegative(r, d, pos, EncodeInt(n), INT_16, n, 2, 0x1_0000);
    } else if n >= -0x8000_0000 {
      MarkedNegative(r, d, pos, EncodeInt(n), INT_32, n, 4, TWO_32);
    } else {
      MarkedInt(r, d, pos, EncodeInt(n), INT_64, n, 8, TWO_64);
    }
  }

  lemma {:induction false} EncodedIntReads(r: Ranges, d: Bytes, pos: nat, n: int)
    requires At(d, pos, EncodeInt(n))
    ensures ReadHead(r, d, pos) == Ok((Scalar(Int(Wrapped(n))), pos + |EncodeInt(n)|))
  {
    if n >= 0 {
      EncodedUintReads(r, d, pos, n);
    } else if n >= -0x20 {
      assert d[pos] == EncodeInt(n)[0];
    } else {
      EncodedNegativeReads(r, d, pos, n);
    }
  }

  // A length marker followed by its length.

  lemma {:induction false} MarkedStrLength(r: Ranges, d: Bytes, pos: nat, s: Bytes, marker: byte, n: nat, k: nat,
      modulus: nat, end: nat)
    requires At(d, pos, s) && s == [marker] + BigEndian(n, k) && n < modulus == Pow256(k)
             && Classify(r, marker) == StrLength(k)
    requires end == pos + |s|
    ensures ReadHead(r, d, pos) == Ok((StrOf(n), end))
  {
    MarkedBigEndian(d, pos, s, marker, n, k, modulus);
    SmallMod(n, modulus);
  }

  lemma {:induction false} MarkedBinLength(r: Ranges, d: Bytes, pos: nat, s: Bytes, marker: byte, n: nat, k: nat,
      modulus: nat)
    requires At(d, pos, s) && s == [marker] + BigEndian(n, k) && n < modulus == Pow256(k)
             && Classify(r, marker) == BinLength(k)
    ensures ReadHead(r, d, pos) == Ok((BinOf(n), pos + 1 + k))
  {
    MarkedBigEndian(d, pos, s, marker, n, k, modulus);
    SmallMod(n, modulus);
  }

  lemma {:induction false} MarkedArrayLength(r: Ranges, d: Bytes, pos: nat, s: Bytes, marker: byte, n: nat, k: nat,
      modulus: nat)
    requires At(d, pos, s) && s == [marker] + BigEndian(n, k) && n < modulus == Pow256(k)
             && Classify(r, marker) == ItemCount(k)
    ensures ReadHead(r, d, pos) == Ok((ItemsOf(n), pos + 1 + k))
  {
    MarkedBigEndian(d, pos, s, marker, n, k, modulus);
    SmallMod(n, modulus);
  }

  lemma {:induction false} MarkedMapLength(r: Ranges, d: Bytes, pos: nat, s: Bytes, marker: byte, n: nat, k: nat,
      modulus: nat)
    requires At(d, pos, s) && s == [marker] + BigEndian(n, k) && n < modulus == Pow256(k)
             && Classify(r, marker) == PairCount(k)
    ensures ReadHead(r, d, pos) == Ok((PairsOf(n), pos + 1 + k))
  {
    MarkedBigEndian(d, pos, s, marker, n, k, modulus);
    SmallMod(n, modulus);
  }

  /** The marker of a string of 32 bytes or more, and the number of bytes of its length. */
  lemma {:induction false} StrForm(n: nat) returns (marker: byte, k: nat, modulus: nat)
    requires 0x1f < n < TWO_32
    ensures StrHeader(n) == [marker] + BigEndian(n, k) && n < modulus == Pow256(k)
    ensures (marker, k) in {(STR_8, 1), (STR_16, 2), (STR_32, 4)}
  {
    Pow256Values();
    if n <= 0xff {
      marker, k, modulus := STR_8, 1, 0x100;
    } else if n <= 0xffff {
      marker, k, modulus := STR_16, 2, 0x1_0000;
    } else {
      marker, k, modulus := STR_32, 4, TWO_32;
    }
  }

  lemma {:induction false} StrMarker(r: Ranges, marker: byte, k: nat)
    requires KnownRanges(r) && (marker, k) in {(STR_8, 1), (STR_16, 2), (STR_32, 4)}
    ensures Classify(r, marker) == StrLength(k)
  {
  }

  lemma {:induction false} ShortStrReads(r: Ranges, d: Bytes, pos: nat, n: nat)
    requires KnownRanges(r) && n <= 0x1f && At(d, pos, StrHeader(n))
    ensures ReadHead(r, d, pos) ==
            if StrReads(r, n) then Ok((StrOf(n), pos + |StrHeader(n)|)) else Err(UnknownMarker(d[pos]))
  {
    assert d[pos] == StrHeader(n)[0];
  }

  lemma {:induction false} StrHeaderReads(r: Ranges, d: Bytes, pos: nat, n: nat)
    requires KnownRanges(r) && n < TWO_32 && At(d, pos, StrHeader(n))
    ensures ReadHead(r, d, pos) ==
            if StrReads(r, n) then Ok((StrOf(n), pos + |StrHeader(n)|)) else Err(UnknownMarker(d[pos]))
  {
    if n <= 0x1f {
      ShortStrReads(r, d, pos, n);
    } else {
      var marker, k, modulus := StrForm(n);
      StrMarker(r, marker, k);
      MarkedStrLength(r, d, pos, StrHeader(n), marker, n, k, modulus, pos + |StrHeader(n)|);
    }
  }

  lemma {:induction false} BinHeaderReads(r: Ranges, d: Bytes, pos: nat, n: nat)
    requires KnownRanges(r) && n < TWO_32 && At(d, pos, BinHeader(n))
    ensures ReadHead(r, d, pos) == Ok((BinOf(n), pos + |BinHeader(n)|))
  {
    Pow256Values();
    if n <= 0xff {
      MarkedBinLength(r, d, pos, BinHeader(n), BIN_8, n, 1, 0x100);
    } else if n <= 0xffff {
      MarkedBinLength(r, d, pos, BinHeader(n), BIN_16, n, 2, 0x1_0000);
    } else {
      MarkedBinLength(r, d, pos, BinHeader(n), BIN_32, n, 4, TWO_32);
    }
  }

  lemma {:induction false} ArrayHeaderReads(r: Ranges, d: Bytes, pos: nat, n: nat)
    requires KnownRanges(r) && n < TWO_32 && At(d, pos, ArrayHeader(n))
    ensures ReadHead(r, d, pos) ==
            if ArrayReads(r, n) then Ok((ItemsOf(n), pos + |ArrayHeader(n)|)) else Err(UnknownMarker(d[pos]))
  {
    Pow256Values();
    assert d[pos] == ArrayHeader(n)[0];
    if n <= 0x0f {
    } else if n <= 0xffff {
      MarkedArrayLength(r, d, pos, ArrayHeader(n), ARRAY_16, n, 2, 0x1_0000);
    } else {
      MarkedArrayLength(r, d, pos, ArrayHeader(n), ARRAY_32, n, 4, TWO_32);
    }
  }

  lemma {:induction false} MapHeaderReads(r: Ranges, d: Bytes, pos: nat, n: nat)
    requires KnownRanges(r) && n < TWO_32 && At(d, pos, MapHeader(n))
    ensures ReadHead(r, d, pos) == Ok((PairsOf(n), pos + |MapHeader(n)|))
  {
    Pow256Values();
    assert d[pos] == MapHeader(n)[0];
    if n <= 0x0f {
    } else if n <= 0xffff {
      MarkedMapLength(r, d, pos, MapHeader(n), MAP_16, n, 2, 0x1_0000);
    } else {
      MarkedMapLength(r, d, pos, MapHeader(n), MAP_32, n, 4, TWO_32);
    }
  }

  // ----- values -----

  /** `res` is `value`, ending at `end`, when `known` holds, and an unknown-marker exception otherwise. */
  predicate ReadsBack<T(==)>(res: Read<T>, known: bool, value: T, end: nat) {
    if known then res == Ok((value, end)) else res.Err? && res.error.UnknownMarker?
  }

  lemma {:induction false} NextScalar(r: Ranges, d: Bytes, pos: nat, v: Value, end: nat)
    requires pos <= |d| && ReadHead(r, d, pos) == Ok((Scalar(v), end))
    ensures Next(r, d, pos) == Ok((v, end))
  {
    NextIsDecodeOne(r, d, pos);
  }

  lemma {:induction false} NextConstant(r: Ranges, d: Bytes, pos: nat, v: Value)
    requires (v.Nil? || v.Bool?) && At(d, pos, Packed(v))
    ensures Next(r, d, pos) == Ok((v, pos + 1))
  {
    assert d[pos] == Packed(v)[0];
    NextScalar(r, d, pos, v, pos + 1);
  }

  lemma {:induction false} NextInt(r: Ranges, d: Bytes, pos: nat, n: int)
    requires InScope(Int(n)) && At(d, pos, EncodeInt(n))
    ensures Next(r, d, pos) == Ok((Int(n), pos + |EncodeInt(n)|))
  {
    EncodedIntReads(r, d, pos, n);
    WrappedInScope(n);
    NextScalar(r, d, pos, Int(n), pos + |EncodeInt(n)|);
  }

  lemma {:induction false} WrappedInScope(n: int)
    ensures Wrapped(n) == n <==> -TWO_63 <= n < TWO_64
  {
  }

  lemma {:induction false} NextFloat(r: Ranges, d: Bytes, pos: nat, bits: Bytes)
    requires |bits| == 8 && At(d, pos, [FLOAT_64] + bits)
    ensures Next(r, d, pos) == Ok((Float(bits), pos + 9))
  {
    AtConcat(d, pos, [FLOAT_64], bits);
    assert d[pos] == d[pos..pos + 1][0];
    NextScalar(r, d, pos, Float(bits), pos + 9);
  }

  lemma {:induction false} NextStr(r: Ranges, d: Bytes, pos: nat, utf8: Bytes)
    requires KnownRanges(r) && InScope(Str(utf8)) && At(d, pos, EncodeStr(utf8))
    ensures ReadsBack(Next(r, d, pos), StrReads(r, |utf8|), Str(utf8), pos + |EncodeStr(utf8)|)
  {
    AtConcat(d, pos, StrHeader(|utf8|), utf8);
    if StrReads(r, |utf8|) {
      NextKnownStr(r, d, pos, utf8);
    } else {
      StrHeaderReads(r, d, pos, |utf8|);
      NextUnknown(r, d, pos);
    }
  }

  lemma {:induction false} NextKnownStr(r: Ranges, d: Bytes, pos: nat, utf8: Bytes)
    requires KnownRanges(r) && InScope(Str(utf8)) && StrReads(r, |utf8|)
    requires At(d, pos, StrHeader(|utf8|)) && At(d, pos + |StrHeader(|utf8|)|, utf8)
    ensures Next(r, d, pos) == Ok((Str(utf8), pos + |EncodeStr(utf8)|))
  {
    var body := pos + |StrHeader(|utf8|)|;
    KnownStrHeader(r, d, pos, utf8, body);
    StrBodyReads(d, body, utf8, pos + |EncodeStr(utf8)|);
    NextStrBody(r, d, pos, body, utf8, pos + |EncodeStr(utf8)|);
  }

  lemma {:induction false} KnownStrHeader(r: Ranges, d: Bytes, pos: nat, utf8: Bytes, body: nat)
    requires KnownRanges(r) && InScope(Str(utf8)) && StrReads(r, |utf8|)
    requires At(d, pos, StrHeader(|utf8|)) && body == pos + |StrHeader(|utf8|)|
    ensures ReadHead(r, d, pos) == Ok((StrOf(|utf8|), body))
  {
    StrHeaderReads(r, d, pos, |utf8|);
  }

  lemma {:induction false} StrBodyReads(d: Bytes, body: nat, utf8: Bytes, end: nat)
    requires InScope(Str(utf8)) && At(d, body, utf8) && end == body + |utf8|
    ensures ReadStr(d, body, |utf8|) == Ok((Str(utf8), end))
  {
  }

  lemma {:induction false} NextStrBody(r: Ranges, d: Bytes, pos: nat, body: nat, utf8: Bytes, end: nat)
    requires pos <= |d| && ReadHead(r, d, pos) == Ok((StrOf(|utf8|), body))
    requires ReadStr(d, body, |utf8|) == Ok((Str(utf8), end))
    ensures Next(r, d, pos) == Ok((Str(utf8), end))
  {
    NextIsDecodeOne(r, d, pos);
  }

  lemma {:induction false} NextUnknown(r: Ranges, d: Bytes, pos: nat)
    requires pos < |d| && ReadHead(r, d, pos) == Err(UnknownMarker(d[pos]))
    ensures Next(r, d, pos) == Err(UnknownMarker(d[pos]))
  {
    NextIsDecodeOne(r, d, pos);
  }

  lemma {:induction false} NextBin(r: Ranges, d: Bytes, pos: nat, data: Bytes)
    requires KnownRanges(r) && |data| < TWO_32 && At(d, pos, BinHeader(|data|) + data)
    ensures Next(r, d, pos) == Ok((Bin(data), pos + |BinHeader(|data|)| + |data|))
  {
    AtConcat(d, pos, BinHeader(|data|), data);
    BinHeaderReads(r, d, pos, |data|);
    NextBinBody(r, d, pos, pos + |BinHeader(|data|)|, data);
  }

  lemma {:induction false} NextBinBody(r: Ranges, d: Bytes, pos: nat, body: nat, data: Bytes)
    requires pos <= |d| && ReadHead(r, d, pos) == Ok((BinOf(|data|), body)) && At(d, body, data)
    ensures Next(r, d, pos) == Ok((Bin(data), body + |data|))
  {
    NextIsDecodeOne(r, d, pos);
  }

  lemma {:induction false} NextArray(r: Ranges, d: Bytes, pos: nat, n: nat)
    requires KnownRanges(r) && n < TWO_32 && At(d, pos, ArrayHeader(n))
    ensures var items := Items(r, d, pos + |ArrayHeader(n)|, n);
            if !ArrayReads(r, n) then Next(r, d, pos).Err? && Next(r, d, pos).error.UnknownMarker?
            else if items.Err? then Next(r, d, pos) == Err(items.error)
            else Next(r, d, pos) == Ok((Array(items.value.0), items.value.1))
  {
    NextIsDecodeOne(r, d, pos);
    ArrayHeaderReads(r, d, pos, n);
  }

  lemma {:induction false} NextMap(r: Ranges, d: Bytes, pos: nat, n: nat)
    requires KnownRanges(r) && n < TWO_32 && At(d, pos, MapHeader(n))
    ensures var pairs := Pairs(r, d, pos + |MapHeader(n)|, n, map[]);
            if pairs.Err? then Next(r, d, pos) == Err(pairs.error)
            else Next(r, d, pos) == Ok((Map(pairs.value.0), pairs.value.1))
  {
    NextIsDecodeOne(r, d, pos);
    MapHeaderReads(r, d, pos, n);
  }

  ghost predicate ItemsRead(r: Ranges, elems: seq<Value>) {
    forall i :: 0 <= i < |elems| ==> Reads(r, elems[i])
  }

  ghost predicate PairsRead(r: Ranges, v: Value, keys: seq<Bytes>)
    requires KeysOf(v, keys)
  {
    forall i :: 0 <= i < |keys| ==> StrReads(r, |keys[i]|) && Reads(r, v.entries[Str(keys[i])])
  }

  /**
    The main induction: wherever a packed in-scope value stands in the data, the decoder reads back
    that value and stops at its end if it knows all the headers inside, and raises otherwise.
  */
  lemma {:induction false} NextEncoded(r: Ranges, d: Bytes, pos: nat, v: Value)
    requires KnownRanges(r) && InScope(v) && At(d, pos, Packed(v))
    ensures ReadsBack(Next(r, d, pos), Reads(r, v), v, pos + |Packed(v)|)
    decreases v, 1, 0
  {
    match v
    case Nil => NextConstant(r, d, pos, v);
    case Bool(_) => NextConstant(r, d, pos, v);
    case Int(n) => NextInt(r, d, pos, n);
    case Float(bits) => NextFloat(r, d, pos, bits);
    case Str(utf8) => NextStr(r, d, pos, utf8);
    case Bin(data) => NextBin(r, d, pos, data);
    case Array(elems) => ArrayEncoded(r, d, pos, elems);
    case Map(entries) => MapEncoded(r, d, pos, v);
  }

  lemma {:induction false} ArrayEncoded(r: Ranges, d: Bytes, pos: nat, elems: seq<Value>)
    requires KnownRanges(r) && AllInScope(elems) && |elems| < TWO_32
    requires At(d, pos, ArrayHeader(|elems|) + PackedItems(elems))
    ensures ReadsBack(Next(r, d, pos), Reads(r, Array(elems)), Array(elems),
            pos + |ArrayHeader(|elems|) + PackedItems(elems)|)
    decreases elems, 1, 0
  {
    AtConcat(d, pos, ArrayHeader(|elems|), PackedItems(elems));
    NextArray(r, d, pos, |elems|);
    ItemsEncoded(r, d, pos + |ArrayHeader(|elems|)|, elems);
    ArrayReadsItems(r, elems);
  }

  lemma {:induction false} ArrayReadsItems(r: Ranges, elems: seq<Value>)
    ensures Reads(r, Array(elems)) <==> ArrayReads(r, |elems|) && ItemsRead(r, elems)
  {
  }

  /** Reading pairs back: the pair at the front, then the pairs after it. */
  lemma {:induction false} PairsReadBack(r: Ranges, d: Bytes, pos: nat, v: Value, keys: seq<Bytes>,
      out: map<Value, Value>, m: map<Value, Value>, mid: nat, rest: nat, end: nat)
    requires pos <= |d| && mid <= |d| && rest <= |d| && KeysOf(v, keys) && keys != [] && KeysOf(v, keys[1..])
    requires var w := v.entries[Str(keys[0])];
             && ReadsBack(Next(r, d, pos), StrReads(r, |keys[0]|), Str(keys[0]), mid)
             && ReadsBack(Next(r, d, mid), Reads(r, w), w, rest)
             && ReadsBack(Pairs(r, d, rest, |keys| - 1, out[Str(keys[0]) := w]), PairsRead(r, v, keys[1..]), m, end)
    ensures ReadsBack(Pairs(r, d, pos, |keys|, out), PairsRead(r, v, keys), m, end)
  {
    PairsReadStep(r, v, keys);
    PairsStep(r, d, pos, |keys|, out);
  }

  lemma {:induction false} MapEncoded(r: Ranges, d: Bytes, pos: nat, v: Value)
    requires KnownRanges(r) && v.Map? && InScope(v)
    requires At(d, pos, MapHeader(|v.entries|) + PackedBody(v))
    ensures ReadsBack(Next(r, d, pos), Reads(r, v), v, pos + |MapHeader(|v.entries|) + PackedBody(v)|)
    decreases v, 0, |v.entries| + 3
  {
    AtConcat(d, pos, MapHeader(|v.entries|), PackedBody(v));
    NextMap(r, d, pos, |v.entries|);
    BodyEncoded(r, d, pos + |MapHeader(|v.entries|)|, v);
  }

  /** Reading items back: the item at the front, then the items after it. */
  lemma {:induction false} ItemsReadBack(r: Ranges, d: Bytes, pos: nat, elems: seq<Value>, mid: nat, end: nat)
    requires pos <= |d| && mid <= |d| && elems != []
    requires ReadsBack(Next(r, d, pos), Reads(r, elems[0]), elems[0], mid)
    requires ReadsBack(Items(r, d, mid, |elems| - 1), ItemsRead(r, elems[1..]), elems[1..], end)
    ensures ReadsBack(Items(r, d, pos, |elems|), ItemsRead(r, elems), elems, end)
  {
    ItemsStep(r, d, pos, |elems|);
    assert elems == [elems[0]] + elems[1..];
    assert ItemsRead(r, elems) <==> Reads(r, elems[0]) && ItemsRead(r, elems[1..]);
  }

  lemma {:induction false} ItemsSplit(d: Bytes, pos: nat, elems: seq<Value>) returns (mid: nat, end: nat)
    requires elems != [] && AllInScope(elems) && At(d, pos, PackedItems(elems))
    ensures mid == pos + |Packed(elems[0])| && end == mid + |PackedItems(elems[1..])| == pos + |PackedItems(elems)|
    ensures At(d, pos, Packed(elems[0])) && At(d, mid, PackedItems(elems[1..])) && AllInScope(elems[1..])
  {
    AtConcat(d, pos, Packed(elems[0]), PackedItems(elems[1..]));
    mid, end := pos + |Packed(elems[0])|, pos + |PackedItems(elems)|;
  }

  lemma {:induction false} ItemsEncoded(r: Ranges, d: Bytes, pos: nat, elems: seq<Value>)
    requires KnownRanges(r) && AllInScope(elems)
    requires At(d, pos, PackedItems(elems))
    ensures ReadsBack(Items(r, d, pos, |elems|), ItemsRead(r, elems), elems, pos + |PackedItems(elems)|)
    decreases elems, 0, 0
  {
    if elems != [] {
      var mid, end := ItemsSplit(d, pos, elems);
      NextEncoded(r, d, pos, elems[0]);
      ItemsEncoded(r, d, mid, elems[1..]);
      ItemsReadBack(r, d, pos, elems, mid, end);
    }
  }

  lemma {:induction false} BodyEncoded(r: Ranges, d: Bytes, pos: nat, v: Value)
    requires KnownRanges(r) && v.Map? && InScope(v) && At(d, pos, PackedBody(v))
    ensures ReadsBack(Pairs(r, d, pos, |v.entries|, map[]), Reads(r, v), v.entries, pos + |PackedBody(v)|)
    decreases v, 0, |v.entries| + 2
  {
    var keys := KeysInOrder(v);
    BodyFromPairs(r, d, pos, v, keys, pos + |PackedBody(v)|);
  }

  lemma {:induction false} BodyFromPairs(r: Ranges, d: Bytes, pos: nat, v: Value, keys: seq<Bytes>, end: nat)
    requires KnownRanges(r) && v.Map? && InScope(v)
    requires forall k :: k in keys <==> Str(k) in v.entries
    requires At(d, pos, PackedPairs(v, keys)) && end == pos + |PackedPairs(v, keys)|
    ensures ReadsBack(Pairs(r, d, pos, |keys|, map[]), Reads(r, v), v.entries, end)
    decreases v, 0, |keys| + 1
  {
    var all := v.entries;
    assert all == map[] + Picked(v, keys) by {
      PickedAll(v, keys);
    }
    PairsEncoded(r, d, pos, v, keys, map[], all, end);
    AllPairsRead(r, v, keys);
  }

  lemma {:induction false} KeysInOrder(v: Value) returns (keys: seq<Bytes>)
    requires v.Map? && Packable(v)
    ensures forall k :: k in keys <==> Str(k) in v.entries
    ensures |keys| == |v.entries|
    ensures PackedBody(v) == PackedPairs(v, keys)
  {
    keys := SortedKeys(StrKeys(v.entries));
    SortedKeysCount(v.entries);
    assert EncodeBody(v) == EncodePairs(v, keys);
    assert PackedBody(v) == EncodeBody(v);
  }

  /** The part of a map with the given keys. */
  ghost function Picked(v: Value, keys: seq<Bytes>): map<Value, Value>
    requires v.Map?
  {
    map k | k in v.entries && k.Str? && k.utf8 in keys :: v.entries[k]
  }

  lemma {:induction false} PickedAll(v: Value, keys: seq<Bytes>)
    requires v.Map? && forall k {:trigger k in v.entries} :: k in v.entries ==> k.Str?
    requires forall k :: k in keys <==> Str(k) in v.entries
    ensures map[] + Picked(v, keys) == v.entries
  {
  }

  lemma {:induction false} KeysOfTail(v: Value, keys: seq<Bytes>)
    requires keys != [] && KeysOf(v, keys)
    ensures Str(keys[0]) in v.entries && KeysOf(v, keys[1..])
  {
  }

  lemma {:induction false} PickedNone(v: Value, out: map<Value, Value>)
    requires v.Map?
    ensures out + Picked(v, []) == out
  {
  }

  lemma {:induction false} PickedStep(v: Value, keys: seq<Bytes>, out: map<Value, Value>, next: map<Value, Value>,
      m: map<Value, Value>)
    requires v.Map? && keys != [] && Str(keys[0]) in v.entries
    requires next == out[Str(keys[0]) := v.entries[Str(keys[0])]] && m == out + Picked(v, keys)
    ensures m == next + Picked(v, keys[1..])
  {
  }

  lemma {:induction false} PairsReadStep(r: Ranges, v: Value, keys: seq<Bytes>)
    requires keys != [] && KeysOf(v, keys)
    ensures PairsRead(r, v, keys) <==>
            StrReads(r, |keys[0]|) && Reads(r, v.entries[Str(keys[0])]) && PairsRead(r, v, keys[1..])
  {
  }

  lemma {:induction false} AllPairsRead(r: Ranges, v: Value, keys: seq<Bytes>)
    requires v.Map? && forall k {:trigger k in v.entries} :: k in v.entries ==> k.Str?
    requires forall k :: k in keys <==> Str(k) in v.entries
    ensures PairsRead(r, v, keys) <==> Reads(r, v)
  {
    if PairsRead(r, v, keys) {
      forall k | k in v.entries ensures Reads(r, k) && Reads(r, v.entries[k]) {
        assert k.utf8 in keys && k == Str(k.utf8);
      }
    }
  }

  lemma {:induction false} PairsSplit(d: Bytes, pos: nat, v: Value, keys: seq<Bytes>)
    returns (k: Bytes, w: Value, mid: nat, rest: nat)
    requires Packable(v) && KeysOf(v, keys) && keys != [] && At(d, pos, PackedPairs(v, keys))
    ensures k == keys[0] && Str(k) in v.entries && w == v.entries[Str(k)] && KeysOf(v, keys[1..]) && w < v
    ensures mid == pos + |EncodeStr(k)| && rest == mid + |Packed(w)|
    ensures At(d, pos, EncodeStr(k)) && At(d, mid, Packed(w)) && At(d, rest, PackedPairs(v, keys[1..]))
    ensures pos + |PackedPairs(v, keys)| == rest + |PackedPairs(v, keys[1..])|
    ensures InScope(v) ==> InScope(Str(k)) && InScope(w)
  {
    KeysOfTail(v, keys);
    k, w := keys[0], v.entries[Str(keys[0])];
    mid := pos + |EncodeStr(k)|;
    rest := mid + |Packed(w)|;
    AtConcat(d, pos, EncodeStr(k) + Packed(w), PackedPairs(v, keys[1..]));
    AtConcat(d, pos, EncodeStr(k), Packed(w));
  }

  /** A key and its value read back. */
  lemma {:induction false} PairEncoded(r: Ranges, d: Bytes, pos: nat, k: Bytes, w: Value, mid: nat, rest: nat)
    requires KnownRanges(r) && InScope(Str(k)) && InScope(w)
    requires At(d, pos, EncodeStr(k)) && At(d, mid, Packed(w))
    requires mid == pos + |EncodeStr(k)| && rest == mid + |Packed(w)|
    ensures ReadsBack(Next(r, d, pos), StrReads(r, |k|), Str(k), mid)
    ensures ReadsBack(Next(r, d, mid), Reads(r, w), w, rest)
    decreases w, 1, 1
  {
    NextStr(r, d, pos, k);
    NextEncoded(r, d, mid, w);
  }

  lemma {:induction false} PairsEncoded(r: Ranges, d: Bytes, pos: nat, v: Value, keys: seq<Bytes>,
      out: map<Value, Value>, m: map<Value, Value>, end: nat)
    requires KnownRanges(r) && InScope(v) && KeysOf(v, keys)
    requires At(d, pos, PackedPairs(v, keys)) && end == pos + |PackedPairs(v, keys)| && m == out + Picked(v, keys)
    ensures ReadsBack(Pairs(r, d, pos, |keys|, out), PairsRead(r, v, keys), m, end)
    decreases v, 0, |keys|, 1
  {
    if keys == [] {
      NoPairsEncoded(r, d, pos, v, out);
    } else {
      var k, w, mid, rest := PairsSplit(d, pos, v, keys);
      PairEncoded(r, d, pos, k, w, mid, rest);
      var next := out[Str(k) := w];
      PickedStep(v, keys, out, next, m);
      PairsEncoded(r, d, rest, v, keys[1..], next, m, end);
      PairsReadBack(r, d, pos, v, keys, out, m, mid, rest, end);
    }
  }

  lemma {:induction false} NoPairsEncoded(r: Ranges, d: Bytes, pos: nat, v: Value, out: map<Value, Value>)
    requires KnownRanges(r) && v.Map? && Packable(v) && pos <= |d|
    ensures ReadsBack(Pairs(r, d, pos, 0, out), PairsRead(r, v, []), out + Picked(v, []), pos + |PackedPairs(v, [])|)
  {
    PickedNone(v, out);
  }

  lemma {:induction false} SortedKeysCount(m: map<Value, Value>)
    requires forall k :: k in m ==> k.Str?
    ensures |SortedKeys(StrKeys(m))| == |m|
  {
    StrKeysCount(m.Keys);
    assert (set k | k in m.Keys && k.Str? :: k.utf8) == StrKeys(m);
  }

  lemma {:induction false} StrKeysCount(keys: set<Value>)
    requires forall k :: k in keys ==> k.Str?
    ensures |set k | k in keys && k.Str? :: k.utf8| == |keys|
    decreases |keys|
  {
    var utf8s := set k | k in keys && k.Str? :: k.utf8;
    if keys == {} {
      assert utf8s == {};
    } else {
      var k :| k in keys;
      StrKeysCount(keys - {k});
      var rest := set j | j in keys - {k} && j.Str? :: j.utf8;
      assert utf8s == rest + {k.utf8};
      assert k.utf8 !in rest;
    }
  }

  lemma {:induction false} OneReadsBack(r: Ranges, d: Bytes, pos: nat, known: bool, v: Value, end: nat)
    requires pos <= |d| && ReadsBack(Next(r, d, pos), known, v, end)
    ensures ReadsBack(DecodeOne(r, d, pos), known, v, end)
  {
    NextIsDecodeOne(r, d, pos);
  }

  lemma {:induction false} DecodeEncoded(r: Ranges, d: Bytes, pos: nat, v: Value)
    requires KnownRanges(r) && InScope(v) && At(d, pos, Packed(v))
    ensures ReadsBack(DecodeOne(r, d, pos), Reads(r, v), v, pos + |Packed(v)|)
  {
    NextEncoded(r, d, pos, v);
    OneReadsBack(r, d, pos, Reads(r, v), v, pos + |Packed(v)|);
  }

  // ----- the promises -----

  lemma {:induction false} WholeReadsBack(r: Ranges, d: Bytes, known: bool, v: Value)
    requires ReadsBack(Next(r, d, 0), known, v, |d|)
    ensures if known then Decode(r, d) == Ok(v) else Decode(r, d).Err? && Decode(r, d).error.UnknownMarker?
  {
    NextIsDecodeOne(r, d, 0);
  }

  lemma {:induction false} NextAlone(r: Ranges, v: Value, e: Bytes)
    requires KnownRanges(r) && InScope(v) && e == Packed(v)
    ensures ReadsBack(Next(r, e, 0), Reads(r, v), v, |e|)
  {
    NextEncoded(r, e, 0, v);
  }

  lemma {:induction false} NextBefore(v: Value, e: Bytes, suffix: Bytes)
    requires InScope(v) && e == Packed(v)
    ensures ReadsBack(Next(INTENDED, e + suffix, 0), true, v, |e|)
  {
    IntendedReads(v);
    AtConcat(e + suffix, 0, e, suffix);
    NextEncoded(INTENDED, e + suffix, 0, v);
  }

  /** With the intended ranges: `_unpack_one` on a packed value followed by anything. */
  lemma {:induction false} RoundTrip(v: Value, suffix: Bytes)
    requires InScope(v)
    ensures DecodeOne(INTENDED, Encode(v) + suffix, 0) == Ok((v, |Encode(v)|))
    ensures Decode(INTENDED, Encode(v)) == Ok(v)
  {
    var e := Packed(v);
    NextBefore(v, e, suffix);
    OneReadsBack(INTENDED, e + suffix, 0, true, v, |e|);
    IntendedReads(v);
    NextAlone(INTENDED, v, e);
    WholeReadsBack(INTENDED, e, true, v);
  }

  /** With the code as written, a value survives exactly when nothing in it is short. */
  lemma {:induction false} AsWrittenRoundTrip(v: Value)
    requires InScope(v)
    ensures var r := Decode(AS_WRITTEN, Encode(v));
            if LongEnough(v) then r == Ok(v) else r.Err? && r.error.UnknownMarker?
  {
    AsWrittenReads(v);
    NextAlone(AS_WRITTEN, v, Packed(v));
    WholeReadsBack(AS_WRITTEN, Packed(v), LongEnough(v), v);
  }

  /** The harness case `("empty_str", "")` raises. */
  lemma {:induction false} EmptyStringIsLost()
    ensures InScope(Str([])) && Decode(AS_WRITTEN, Encode(Str([]))) == Err(UnknownMarker(0xa0))
  {
  }

  /** No packed value is a prefix of another, so `pack` is injective. */
  lemma {:induction false} PrefixFree(v: Value, w: Value)
    requires InScope(v) && InScope(w)
    requires Encode(v) <= Encode(w)
    ensures v == w
  {
    var suffix := Encode(w)[|Encode(v)|..];
    assert Encode(w) == Encode(v) + suffix;
    RoundTrip(v, suffix);
    RoundTrip(w, []);
    assert Encode(w) + [] == Encode(w);
  }

  lemma {:induction false} SameFront(v: Value, a: Bytes, w: Value, b: Bytes)
    requires InScope(v) && InScope(w) && Packed(v) + a == Packed(w) + b
    ensures v == w && a == b
  {
    RoundTrip(v, a);
    RoundTrip(w, b);
    assert a == (Packed(v) + a)[|Packed(v)|..] && b == (Packed(w) + b)[|Packed(w)|..];
  }

  /** A concatenation of packed values splits in only one way. */
  lemma {:induction false} UniqueSplit(vs: seq<Value>, ws: seq<Value>)
    requires AllInScope(vs) && AllInScope(ws)
    requires EncodeItems(vs) == EncodeItems(ws)
    ensures vs == ws
  {
    if vs != [] {
      EncodeNonEmpty(vs[0]);
    }
    if ws != [] {
      EncodeNonEmpty(ws[0]);
    }
    if vs != [] && ws != [] {
      SameFront(vs[0], PackedItems(vs[1..]), ws[0], PackedItems(ws[1..]));
      UniqueSplit(vs[1..], ws[1..]);
      assert vs == [vs[0]] + vs[1..] && ws == [ws[0]] + ws[1..];
    }
  }

  lemma {:induction false} EncodeNonEmpty(v: Value)
    requires Packable(v)
    ensures |Packed(v)| > 0
  {
  }

  /**
    Integers of any size: `pack` keeps exactly those between -2^63 and 2^64 - 1; the others come
    back as their low 64 bits.
  */
  lemma {:induction false} IntRoundTrip(r: Ranges, n: int)
    ensures Decode(r, Encode(Int(n))) == Ok(Int(Wrapped(n)))
    ensures Wrapped(n) == n <==> -TWO_63 <= n < TWO_64
  {
    EncodedIntReads(r, Encode(Int(n)), 0, n);
    WrappedInScope(n);
  }
}
