/**
  The format table with the bytes written out: what is written for each form of a value, and what
  is read after each of the 256 markers. No marker is named here, so the names cannot be confused.
  MessagePack specification, section "Formats".
*/
module MsgpackTable {
  import opened Wrappers
  import opened MsgpackFormat
  import opened MsgpackSpec
  import opened MsgpackRoundTrip
  import opened Utf8

  // ----- numbers of two, four and eight bytes -----

  function Two(n: int): Bytes {
    [n / 0x100 % 0x100, n % 0x100]
  }

  function Four(n: int): Bytes {
    Two(n / 0x1_0000) + Two(n)
  }

  function Eight(n: int): Bytes {
    Four(n / 0x1_0000_0000) + Four(n)
  }

  /** The number in the `k` bytes at a position. */
  function Number(d: Bytes, pos: nat, k: nat): nat
    requires k in {1, 2, 4, 8} && pos + k <= |d|
    decreases k
  {
    if k == 1 then d[pos]
    else if k == 2 then 0x100 * d[pos] + d[pos + 1]
    else if k == 4 then 0x1_0000 * Number(d, pos, 2) + Number(d, pos + 2, 2)
    else 0x1_0000_0000 * Number(d, pos, 4) + Number(d, pos + 4, 4)
  }

  lemma DivTwice(n: int, d: nat)
    requires d > 0
    ensures n / 256 / d == n / (256 * d)
  {
    var q, b := n / 256, n % 256;
    SplitDigits(n, d, q, b, q / d, q % d);
    DivModUnique(n, 256 * d, q / d, q % d * 256 + b);
  }

  /** The bytes of the high part, then those of the low part. */
  lemma {:induction false} BigEndianSplit(n: int, j: nat, k: nat)
    ensures BigEndian(n, j + k) == BigEndian(n / Pow256(k), j) + BigEndian(n, k)
    decreases k
  {
    if k == 0 {
      assert BigEndian(n, j) + [] == BigEndian(n, j);
    } else {
      BigEndianSplit(n / 256, j, k - 1);
      DivTwice(n, Pow256(k - 1));
    }
  }

  lemma {:induction false} BigEndianOne(n: int)
    ensures BigEndian(n, 1) == [n % 0x100]
  {
    assert BigEndian(n / 256, 0) == [];
  }

  lemma {:induction false} BigEndianTwo(n: int)
    ensures BigEndian(n, 2) == Two(n)
  {
    BigEndianSplit(n, 1, 1);
    BigEndianOne(n);
    BigEndianOne(n / 0x100);
    Pow256Values();
  }

  lemma {:induction false} BigEndianFour(n: int)
    ensures BigEndian(n, 4) == Four(n)
  {
    BigEndianSplit(n, 2, 2);
    BigEndianTwo(n);
    BigEndianTwo(n / 0x1_0000);
    Pow256Values();
  }

  lemma {:induction false} BigEndianEight(n: int)
    ensures BigEndian(n, 8) == Eight(n)
  {
    BigEndianSplit(n, 4, 4);
    BigEndianFour(n);
    BigEndianFour(n / 0x1_0000_0000);
    Pow256Values();
  }

  lemma MulTwice(a: nat, p: nat)
    ensures 256 * (a * p) == a * (256 * p)
  {
  }

  lemma {:induction false} FromBigEndianSplit(s: Bytes, t: Bytes)
    ensures FromBigEndian(s + t) == FromBigEndian(s) * Pow256(|t|) + FromBigEndian(t)
    decreases |t|
  {
    if t == [] {
      assert s + t == s;
    } else {
      var front, last := t[..|t| - 1], t[|t| - 1];
      assert (s + t)[..|s + t| - 1] == s + front;
      FromBigEndianSplit(s, front);
      MulTwice(FromBigEndian(s), Pow256(|front|));
    }
  }

  lemma {:induction false} FromBigEndianOne(b: byte)
    ensures FromBigEndian([b]) == b
  {
    assert [b][..0] == [] && FromBigEndian([]) == 0;
  }

  lemma {:induction false} NumberIsRead(d: Bytes, pos: nat, k: nat)
    requires k in {1, 2, 4, 8} && pos + k <= |d|
    ensures FromBigEndian(d[pos..pos + k]) == Number(d, pos, k)
    decreases k
  {
    Pow256Values();
    if k == 1 {
      FromBigEndianOne(d[pos]);
      assert d[pos..pos + 1] == [d[pos]];
    } else {
      var h := k / 2;
      assert d[pos..pos + k] == d[pos..pos + h] + d[pos + h..pos + h + h];
      FromBigEndianSplit(d[pos..pos + h], d[pos + h..pos + h + h]);
      NumberIsRead(d, pos, h);
      NumberIsRead(d, pos + h, h);
    }
  }

  // ----- the table of what is written -----

  function NaturalForm(n: nat): Bytes {
    if n <= 0x7f then [n]
    else if n <= 0xff then [0xcc, n]
    else if n <= 0xffff then [0xcd] + Two(n)
    else if n <= 0xffff_ffff then [0xce] + Four(n)
    else [0xcf] + Eight(n)
  }

  function NegativeForm(n: int): Bytes
    requires n < 0
  {
    if n >= -0x20 then [n + 0x100]
    else if n >= -0x80 then [0xd0, n + 0x100]
    else if n >= -0x8000 then [0xd1] + Two(n)
    else if n >= -0x8000_0000 then [0xd2] + Four(n)
    else [0xd3] + Eight(n)
  }

  function StrTag(n: nat): Bytes {
    if n <= 31 then [0xa0 + n]
    else if n <= 0xff then [0xd9, n]
    else if n <= 0xffff then [0xda] + Two(n)
    else [0xdb] + Four(n)
  }

  function BinTag(n: nat): Bytes {
    if n <= 0xff then [0xc4, n]
    else if n <= 0xffff then [0xc5] + Two(n)
    else [0xc6] + Four(n)
  }

  function ArrayTag(n: nat): Bytes {
    if n <= 15 then [0x90 + n]
    else if n <= 0xffff then [0xdc] + Two(n)
    else [0xdd] + Four(n)
  }

  function MapTag(n: nat): Bytes {
    if n <= 15 then [0x80 + n]
    else if n <= 0xffff then [0xde] + Two(n)
    else [0xdf] + Four(n)
  }

  /** A marker and one byte. */
  lemma {:induction false} Tagged(marker: byte, n: int, low: byte)
    requires low == n % 0x100
    ensures [marker] + BigEndian(n, 1) == [marker, low]
  {
    BigEndianOne(n);
  }

  lemma {:induction false} NaturalBytes(n: nat)
    ensures EncodeUint(n) == NaturalForm(n)
  {
    if n <= 0x7f {
    } else if n <= 0xff {
      Tagged(0xcc, n, n);
    } else if n <= 0xffff {
      BigEndianTwo(n);
    } else if n <= 0xffff_ffff {
      BigEndianFour(n);
    } else {
      BigEndianEight(n);
    }
  }

  lemma {:induction false} NegativeBytes(n: int)
    requires n < 0
    ensures EncodeInt(n) == NegativeForm(n)
  {
    if n >= -0x20 {
    } else if n >= -0x80 {
      Tagged(0xd0, n, n + 0x100);
    } else if n >= -0x8000 {
      BigEndianTwo(n);
    } else if n >= -0x8000_0000 {
      BigEndianFour(n);
    } else {
      BigEndianEight(n);
    }
  }

  lemma {:induction false} StrBytes(n: nat)
    ensures StrHeader(n) == StrTag(n)
  {
    if n <= 31 {
    } else if n <= 0xff {
      Tagged(0xd9, n, n);
    } else if n <= 0xffff {
      BigEndianTwo(n);
    } else {
      BigEndianFour(n);
    }
  }

  lemma {:induction false} BinBytes(n: nat)
    ensures BinHeader(n) == BinTag(n)
  {
    if n <= 0xff {
      Tagged(0xc4, n, n);
    } else if n <= 0xffff {
      BigEndianTwo(n);
    } else {
      BigEndianFour(n);
    }
  }

  lemma {:induction false} ArrayBytes(n: nat)
    ensures ArrayHeader(n) == ArrayTag(n)
  {
    if n <= 15 {
    } else if n <= 0xffff {
      BigEndianTwo(n);
    } else {
      BigEndianFour(n);
    }
  }

  lemma {:induction false} MapBytes(n: nat)
    ensures MapHeader(n) == MapTag(n)
  {
    if n <= 15 {
    } else if n <= 0xffff {
      BigEndianTwo(n);
    } else {
      BigEndianFour(n);
    }
  }

  lemma {:induction false} WritesConstants()
    ensures Encode(Nil) == [0xc0] && Encode(Bool(false)) == [0xc2] && Encode(Bool(true)) == [0xc3]
  {
  }

  lemma {:induction false} WritesIntegers(n: int)
    ensures Encode(Int(n)) == if n >= 0 then NaturalForm(n) else NegativeForm(n)
  {
    if n >= 0 {
      NaturalBytes(n);
    } else {
      NegativeBytes(n);
    }
  }

  lemma {:induction false} WritesFloats(bits: Bytes)
    ensures Encode(Float(bits)) == [0xcb] + bits
  {
  }

  lemma {:induction false} WritesStrings(u: Bytes)
    ensures Encode(Str(u)) == StrTag(|u|) + u
  {
    StrBytes(|u|);
  }

  lemma {:induction false} WritesBinaries(b: Bytes)
    ensures Encode(Bin(b)) == BinTag(|b|) + b
  {
    BinBytes(|b|);
  }

  lemma {:induction false} WritesArrays(elems: seq<Value>)
    requires Packable(Array(elems))
    ensures Encode(Array(elems)) == ArrayTag(|elems|) + PackedItems(elems)
  {
    ArrayBytes(|elems|);
  }

  lemma {:induction false} WritesMaps(m: map<Value, Value>)
    requires Packable(Map(m))
    ensures Encode(Map(m)) == MapTag(|m|) + EncodeBody(Map(m))
  {
    MapBytes(|m|);
  }

  /** The elements one after the other. */
  lemma {:induction false} ItemsInOrder(elems: seq<Value>)
    requires Packable(Array(elems))
    ensures PackedItems(elems) == if elems == [] then [] else Encode(elems[0]) + PackedItems(elems[1..])
  {
  }

  /** Each key followed by its value, in the order of the keys listed. */
  lemma {:induction false} PairsInOrder(v: Value, keys: seq<Bytes>)
    requires Packable(v) && KeysOf(v, keys)
    ensures PackedPairs(v, keys) ==
            if keys == [] then []
            else Encode(Str(keys[0])) + Encode(v.entries[Str(keys[0])]) + PackedPairs(v, keys[1..])
  {
  }

  lemma {:induction false} SortedKeysPrecede(keys: set<Bytes>)
    ensures forall i, j :: 0 <= i < j < |SortedKeys(keys)| ==> Precedes(SortedKeys(keys)[i], SortedKeys(keys)[j])
  {
    var s := SortedKeys(keys);
    SortedKeysIncrease(keys);
    forall i, j | 0 <= i < j < |s| ensures Precedes(s[i], s[j]) {
      KeyLessDecides(s[i], s[j]);
    }
  }

  /** All keys are written, and of two of them first the one with the smaller byte where they first differ. */
  lemma {:induction false} MapsInOrder(m: map<Value, Value>) returns (keys: seq<Bytes>)
    requires Packable(Map(m))
    ensures |keys| == |m| && KeysOf(Map(m), keys) && forall u :: u in keys <==> Str(u) in m
    ensures forall i, j :: 0 <= i < j < |keys| ==> Precedes(keys[i], keys[j])
    ensures Encode(Map(m)) == MapTag(|m|) + PackedPairs(Map(m), keys)
  {
    keys := SortedKeys(StrKeys(m));
    SortedKeysCount(m);
    SortedKeysPrecede(StrKeys(m));
    WritesMaps(m);
    assert EncodeBody(Map(m)) == EncodePairs(Map(m), keys);
  }

  lemma {:induction false} PairsOfTwo(v: Value, a: Bytes, b: Bytes)
    requires Packable(v) && KeysOf(v, [a, b]) && Str(a) in v.entries && Str(b) in v.entries
    ensures PackedPairs(v, [a, b]) ==
            Encode(Str(a)) + Encode(v.entries[Str(a)]) + (Encode(Str(b)) + Encode(v.entries[Str(b)]))
  {
    var keys := [a, b];
    assert keys[1..] == [b] && [b][1..] == [];
    PairsInOrder(v, keys);
    PairsInOrder(v, [b]);
    PairsInOrder(v, []);
  }

  lemma {:induction false} SmallPair(a: Bytes, x: nat)
    requires |a| <= 31 && x <= 0x7f
    ensures Encode(Str(a)) + Encode(Int(x)) == [0xa0 + |a|] + a + [x]
  {
    WritesStrings(a);
    WritesIntegers(x);
  }

  lemma {:induction false} TwoKeysWritten(a: Bytes, b: Bytes, m: map<Value, Value>)
    requires Packable(Map(m)) && a != b && Precedes(a, b) && m.Keys == {Str(a), Str(b)}
    ensures KeysOf(Map(m), [a, b]) && Encode(Map(m)) == [0x82] + PackedPairs(Map(m), [a, b])
  {
    var keys := MapsInOrder(m);
    assert forall u :: u in keys <==> u == a || u == b;
    assert |m.Keys| == 2;
    TwoKeysInOrder(keys, a, b);
  }

  /** A map of two short keys and small numbers: the smaller key comes first. */
  lemma {:induction false} TwoKeyMap(a: Bytes, x: nat, b: Bytes, y: nat, m: map<Value, Value>)
    requires |a| <= 31 && |b| <= 31 && x <= 0x7f && y <= 0x7f && Precedes(a, b)
    requires a != b && m == map[Str(a) := Int(x), Str(b) := Int(y)]
    ensures Packable(Map(m)) && Encode(Map(m)) == [0x82] + (([0xa0 + |a|] + a + [x]) + ([0xa0 + |b|] + b + [y]))
  {
    assert m.Keys == {Str(a), Str(b)};
    TwoKeysWritten(a, b, m);
    PairsOfTwo(Map(m), a, b);
    SmallPair(a, x);
    SmallPair(b, y);
  }

  /** `{"a": 1, "b": 2}` */
  lemma {:induction false} MapExample(m: map<Value, Value>)
    requires m == map[Str([0x61]) := Int(1), Str([0x62]) := Int(2)]
    ensures Packable(Map(m)) && Encode(Map(m)) == [0x82, 0xa1, 0x61, 0x01, 0xa1, 0x62, 0x02]
  {
    OneByteKeys(0x61, 1, 0x62, 2, [0x61], [0x62], m);
  }

  lemma {:induction false} OneByteKeys(a: byte, x: byte, b: byte, y: byte, s: Bytes, t: Bytes, m: map<Value, Value>)
    requires a < b && x <= 0x7f && y <= 0x7f && s == [a] && t == [b] && m == map[Str(s) := Int(x), Str(t) := Int(y)]
    ensures Packable(Map(m)) && Encode(Map(m)) == [0x82, 0xa1, a, x, 0xa1, b, y]
  {
    SmallerByte(a, b);
    TwoKeyMap(s, x, t, y, m);
    SevenBytes(a, x, b, y);
  }

  lemma SmallerByte(a: byte, b: byte)
    requires a < b
    ensures [a] != [b] && Precedes([a], [b])
  {
    assert [a][..0] == [b][..0] && [a][0] < [b][0];
  }

  lemma SevenBytes(a: byte, x: byte, b: byte, y: byte)
    ensures [0x82] + (([0xa1] + [a] + [x]) + ([0xa1] + [b] + [y])) == [0x82, 0xa1, a, x, 0xa1, b, y]
  {
  }

  lemma {:induction false} TwoKeysInOrder(keys: seq<Bytes>, a: Bytes, b: Bytes)
    requires |keys| == 2 && a != b && (forall u :: u in keys <==> u == a || u == b)
    requires Precedes(keys[0], keys[1]) && Precedes(a, b)
    ensures keys == [a, b]
  {
    assert keys[0] in keys && keys[1] in keys && a in keys && b in keys;
    KeyLessDecides(a, b);
    KeyLessDecides(b, a);
    KeyLessTotal(a, b);
  }

  // ----- the table of what is read -----

  lemma {:induction false} OneFails(r: Ranges, d: Bytes, pos: nat, e: UnpackError)
    requires ReadHead(r, d, pos) == Err(e)
    ensures DecodeOne(r, d, pos) == Err(e)
  {
  }

  lemma {:induction false} OneScalar(r: Ranges, d: Bytes, pos: nat, v: Value, p: nat)
    requires ReadHead(r, d, pos) == Ok((Scalar(v), p))
    ensures DecodeOne(r, d, pos) == Ok((v, p))
  {
  }

  /** The `n` bytes of a string: there, and valid UTF-8, or the error. */
  function TextOf(d: Bytes, p: nat, n: nat): Read<Value> {
    if |d| < p + n then Err(Truncated)
    else if ValidUtf8(d[p..p + n]) then Ok((Str(d[p..p + n]), p + n))
    else Err(InvalidUtf8)
  }

  lemma {:induction false} OneStr(r: Ranges, d: Bytes, pos: nat, n: nat, p: nat)
    requires ReadHead(r, d, pos) == Ok((StrOf(n), p))
    ensures DecodeOne(r, d, pos) == TextOf(d, p, n)
  {
  }

  function BinaryOf(d: Bytes, p: nat, n: nat): Read<Value> {
    if |d| < p + n then Err(Truncated) else Ok((Bin(d[p..p + n]), p + n))
  }

  lemma {:induction false} OneBin(r: Ranges, d: Bytes, pos: nat, n: nat, p: nat)
    requires ReadHead(r, d, pos) == Ok((BinOf(n), p))
    ensures DecodeOne(r, d, pos) == BinaryOf(d, p, n)
  {
  }

  function ArrayOf(items: Read<seq<Value>>): Read<Value> {
    if items.Err? then Err(items.error) else Ok((Array(items.value.0), items.value.1))
  }

  lemma {:induction false} OneArray(r: Ranges, d: Bytes, pos: nat, n: nat, p: nat)
    requires p <= |d| && ReadHead(r, d, pos) == Ok((ItemsOf(n), p))
    ensures DecodeOne(r, d, pos) == ArrayOf(Items(r, d, p, n))
  {
  }

  function MapOf(pairs: Read<map<Value, Value>>): Read<Value> {
    if pairs.Err? then Err(pairs.error) else Ok((Map(pairs.value.0), pairs.value.1))
  }

  lemma {:induction false} OneMap(r: Ranges, d: Bytes, pos: nat, n: nat, p: nat)
    requires p <= |d| && ReadHead(r, d, pos) == Ok((PairsOf(n), p))
    ensures DecodeOne(r, d, pos) == MapOf(Pairs(r, d, p, n, map[]))
  {
  }

  /** The number after a marker, if all of it is there. */
  lemma {:induction false} NumberAfter(d: Bytes, pos: nat, k: nat)
    requires k in {1, 2, 4, 8}
    ensures pos + k > |d| ==> ReadUint(d, pos, k) == Err(Truncated)
    ensures pos + k <= |d| ==> ReadUint(d, pos, k) == Ok((Number(d, pos, k), pos + k))
  {
    if pos + k <= |d| {
      NumberIsRead(d, pos, k);
    }
  }

  lemma {:induction false} ReadsNothing(r: Ranges, d: Bytes, pos: nat)
    requires pos >= |d|
    ensures DecodeOne(r, d, pos) == Err(EofBeforeValue)
  {
  }

  lemma {:induction false} OneByteMarks(r: Ranges, m: byte)
    ensures m <= 0x7f ==> Classify(r, m) == Complete(Scalar(Int(m)))
    ensures 0xe0 <= m ==> Classify(r, m) == Complete(Scalar(Int(m - 0x100)))
    ensures m == 0xc0 ==> Classify(r, m) == Complete(Scalar(Nil))
    ensures m == 0xc2 ==> Classify(r, m) == Complete(Scalar(Bool(false)))
    ensures m == 0xc3 ==> Classify(r, m) == Complete(Scalar(Bool(true)))
  {
  }

  /** The markers that are values by themselves: 0x00 to 0x7f, 0xe0 to 0xff, 0xc0, 0xc2 and 0xc3. */
  lemma {:induction false} ReadsOneByte(r: Ranges, d: Bytes, pos: nat, v: Value)
    requires pos < |d| && match d[pos]
             case 0xc0 => v == Nil
             case 0xc2 => v == Bool(false)
             case 0xc3 => v == Bool(true)
             case m => if m <= 0x7f then v == Int(m) else m >= 0xe0 && v == Int(m - 0x100)
    ensures DecodeOne(r, d, pos) == Ok((v, pos + 1))
  {
    OneByteMarks(r, d[pos]);
    OneScalar(r, d, pos, v, pos + 1);
  }

  lemma {:induction false} UintMarks(r: Ranges, m: byte, k: nat)
    requires (m, k) in {(0xcc, 1), (0xcd, 2), (0xce, 4), (0xcf, 8)}
    ensures Classify(r, m) == UintIn(k)
  {
  }

  /** Unsigned numbers: 0xcc to 0xcf. */
  lemma {:induction false} ReadsUnsigned(r: Ranges, d: Bytes, pos: nat, k: nat)
    requires pos < |d| && (d[pos], k) in {(0xcc, 1), (0xcd, 2), (0xce, 4), (0xcf, 8)}
    ensures DecodeOne(r, d, pos) == if pos + 1 + k > |d| then Err(Truncated)
                                    else Ok((Int(Number(d, pos + 1, k)), pos + 1 + k))
  {
    UintMarks(r, d[pos], k);
    NumberAfter(d, pos + 1, k);
    if pos + 1 + k > |d| {
      OneFails(r, d, pos, Truncated);
    } else {
      OneScalar(r, d, pos, Int(Number(d, pos + 1, k)), pos + 1 + k);
    }
  }

  lemma {:induction false} IntMarks(r: Ranges, m: byte, k: nat)
    requires (m, k) in {(0xd0, 1), (0xd1, 2), (0xd2, 4), (0xd3, 8)}
    ensures Classify(r, m) == IntIn(k)
  {
  }

  /** The number that is congruent to `u`, between minus and plus one half of `full`. */
  function Balanced(u: nat, full: nat): int {
    if u < full / 2 then u else u - full
  }

  lemma {:induction false} SignedIsBalanced(u: nat, k: nat, full: nat)
    requires (k, full) in {(1, 0x100), (2, 0x1_0000), (4, 0x1_0000_0000), (8, 0x1_0000_0000_0000_0000)} && u < full
    ensures Signed(u, k) == Balanced(u, full)
  {
    Pow256Values();
  }

  lemma {:induction false} NumberBound(d: Bytes, pos: nat, k: nat, full: nat)
    requires (k, full) in {(1, 0x100), (2, 0x1_0000), (4, 0x1_0000_0000), (8, 0x1_0000_0000_0000_0000)}
    requires pos + k <= |d|
    ensures Number(d, pos, k) < full
  {
    NumberIsRead(d, pos, k);
    FromBigEndianBound(d[pos..pos + k]);
    Pow256Values();
  }

  /** Signed numbers: 0xd0 to 0xd3, negative or not. */
  lemma {:induction false} ReadsSigned(r: Ranges, d: Bytes, pos: nat, k: nat, full: nat)
    requires pos < |d| && (d[pos], k, full) in {(0xd0, 1, 0x100), (0xd1, 2, 0x1_0000), (0xd2, 4, 0x1_0000_0000),
                                                (0xd3, 8, 0x1_0000_0000_0000_0000)}
    ensures DecodeOne(r, d, pos) == if pos + 1 + k > |d| then Err(Truncated)
                                    else Ok((Int(Balanced(Number(d, pos + 1, k), full)), pos + 1 + k))
  {
    IntMarks(r, d[pos], k);
    NumberAfter(d, pos + 1, k);
    if pos + 1 + k > |d| {
      OneFails(r, d, pos, Truncated);
    } else {
      NumberBound(d, pos + 1, k, full);
      SignedIsBalanced(Number(d, pos + 1, k), k, full);
      OneScalar(r, d, pos, Int(Balanced(Number(d, pos + 1, k), full)), pos + 1 + k);
    }
  }

  /** The signed reading of a `k`-byte number is congruent to it and in the range of a `k`-byte number. */
  lemma {:induction false} SignedIsCongruent(u: nat, k: nat)
    requires k > 0 && u < Pow256(k)
    ensures 0 <= 2 * Signed(u, k) + Pow256(k) < 2 * Pow256(k)
    ensures Signed(u, k) % Pow256(k) == u
  {
    DivModUnique(Signed(u, k), Pow256(k), if 2 * u >= Pow256(k) then -1 else 0, u);
  }

  lemma {:induction false} FloatMarks(r: Ranges, m: byte, k: nat)
    requires (m, k) in {(0xca, 4), (0xcb, 8)}
    ensures Classify(r, m) == FloatIn(k)
  {
  }

  /** Floats: 0xca, whose four bytes are widened, and 0xcb. */
  lemma {:induction false} ReadsFloats(r: Ranges, d: Bytes, pos: nat, k: nat)
    requires pos < |d| && (d[pos], k) in {(0xca, 4), (0xcb, 8)}
    ensures DecodeOne(r, d, pos) ==
            if pos + 1 + k > |d| then Err(Truncated)
            else var body := d[pos + 1..pos + 1 + k];
                 Ok((Float(if k == 4 then WidenSingle(body) else body), pos + 1 + k))
  {
    FloatMarks(r, d[pos], k);
    if pos + 1 + k > |d| {
      OneFails(r, d, pos, Truncated);
    } else {
      var body := d[pos + 1..pos + 1 + k];
      OneScalar(r, d, pos, Float(if k == 4 then WidenSingle(body) else body), pos + 1 + k);
    }
  }

  lemma {:induction false} StrMarks(r: Ranges, m: byte, k: nat)
    requires (m, k) in {(0xd9, 1), (0xda, 2), (0xdb, 4)} && r in {AS_WRITTEN, INTENDED}
    ensures Classify(r, m) == StrLength(k)
  {
  }

  /** Strings after a length: 0xd9 to 0xdb. */
  lemma {:induction false} ReadsStrings(r: Ranges, d: Bytes, pos: nat, k: nat)
    requires pos < |d| && (d[pos], k) in {(0xd9, 1), (0xda, 2), (0xdb, 4)} && r in {AS_WRITTEN, INTENDED}
    ensures DecodeOne(r, d, pos) == if pos + 1 + k > |d| then Err(Truncated)
                                    else TextOf(d, pos + 1 + k, Number(d, pos + 1, k))
  {
    StrMarks(r, d[pos], k);
    NumberAfter(d, pos + 1, k);
    if pos + 1 + k > |d| {
      OneFails(r, d, pos, Truncated);
    } else {
      OneStr(r, d, pos, Number(d, pos + 1, k), pos + 1 + k);
    }
  }

  lemma {:induction false} BinMarks(r: Ranges, m: byte, k: nat)
    requires (m, k) in {(0xc4, 1), (0xc5, 2), (0xc6, 4)} && r in {AS_WRITTEN, INTENDED}
    ensures Classify(r, m) == BinLength(k)
  {
  }

  /** Binaries after a length: 0xc4 to 0xc6. */
  lemma {:induction false} ReadsBinaries(r: Ranges, d: Bytes, pos: nat, k: nat)
    requires pos < |d| && (d[pos], k) in {(0xc4, 1), (0xc5, 2), (0xc6, 4)} && r in {AS_WRITTEN, INTENDED}
    ensures DecodeOne(r, d, pos) == if pos + 1 + k > |d| then Err(Truncated)
                                    else BinaryOf(d, pos + 1 + k, Number(d, pos + 1, k))
  {
    BinMarks(r, d[pos], k);
    NumberAfter(d, pos + 1, k);
    if pos + 1 + k > |d| {
      OneFails(r, d, pos, Truncated);
    } else {
      OneBin(r, d, pos, Number(d, pos + 1, k), pos + 1 + k);
    }
  }

  lemma {:induction false} ArrayMarks(r: Ranges, m: byte, k: nat)
    requires (m, k) in {(0xdc, 2), (0xdd, 4)} && r in {AS_WRITTEN, INTENDED}
    ensures Classify(r, m) == ItemCount(k)
  {
  }

  /** Arrays after a count: 0xdc and 0xdd. */
  lemma {:induction false} ReadsArrays(r: Ranges, d: Bytes, pos: nat, k: nat)
    requires pos < |d| && (d[pos], k) in {(0xdc, 2), (0xdd, 4)} && r in {AS_WRITTEN, INTENDED}
    ensures DecodeOne(r, d, pos) == if pos + 1 + k > |d| then Err(Truncated)
                                    else ArrayOf(Items(r, d, pos + 1 + k, Number(d, pos + 1, k)))
  {
    ArrayMarks(r, d[pos], k);
    NumberAfter(d, pos + 1, k);
    if pos + 1 + k > |d| {
      OneFails(r, d, pos, Truncated);
    } else {
      OneArray(r, d, pos, Number(d, pos + 1, k), pos + 1 + k);
    }
  }

  lemma {:induction false} MapMarks(r: Ranges, m: byte, k: nat)
    requires (m, k) in {(0xde, 2), (0xdf, 4)} && r in {AS_WRITTEN, INTENDED}
    ensures Classify(r, m) == PairCount(k)
  {
  }

  /** Maps after a count: 0xde and 0xdf. */
  lemma {:induction false} ReadsMaps(r: Ranges, d: Bytes, pos: nat, k: nat)
    requires pos < |d| && (d[pos], k) in {(0xde, 2), (0xdf, 4)} && r in {AS_WRITTEN, INTENDED}
    ensures DecodeOne(r, d, pos) == if pos + 1 + k > |d| then Err(Truncated)
                                    else MapOf(Pairs(r, d, pos + 1 + k, Number(d, pos + 1, k), map[]))
  {
    MapMarks(r, d[pos], k);
    NumberAfter(d, pos + 1, k);
    if pos + 1 + k > |d| {
      OneFails(r, d, pos, Truncated);
    } else {
      OneMap(r, d, pos, Number(d, pos + 1, k), pos + 1 + k);
    }
  }

  lemma {:induction false} LowMod(n: nat, base: nat, size: nat)
    requires (base, size) in {(0x80, 0x10), (0x90, 0x10), (0xa0, 0x20)} && base <= n < base + size
    ensures n % size == n - base
  {
  }

  lemma {:induction false} ShortMarks(m: byte)
    ensures 0x80 <= m <= 0x8f ==> Classify(INTENDED, m) == Classify(AS_WRITTEN, m) == Complete(PairsOf(m - 0x80))
    ensures 0x90 <= m <= 0x9f ==> Classify(INTENDED, m) == Complete(ItemsOf(m - 0x90))
    ensures 0xa0 <= m <= 0xbf ==> Classify(INTENDED, m) == Complete(StrOf(m - 0xa0))
  {
    if 0x80 <= m <= 0x8f {
      LowMod(m, 0x80, 0x10);
    } else if 0x90 <= m <= 0x9f {
      LowMod(m, 0x90, 0x10);
    } else if 0xa0 <= m <= 0xbf {
      LowMod(m, 0xa0, 0x20);
    }
  }

  /** Short maps, arrays and strings, whose marker holds the length: 0x80 to 0xbf. */
  lemma {:induction false} ReadsShort(d: Bytes, pos: nat)
    requires pos < |d| && 0x80 <= d[pos] <= 0xbf
    ensures DecodeOne(INTENDED, d, pos) ==
            if d[pos] <= 0x8f then MapOf(Pairs(INTENDED, d, pos + 1, d[pos] - 0x80, map[]))
            else if d[pos] <= 0x9f then ArrayOf(Items(INTENDED, d, pos + 1, d[pos] - 0x90))
            else TextOf(d, pos + 1, d[pos] - 0xa0)
  {
    ShortMarks(d[pos]);
    if d[pos] <= 0x8f {
      OneMap(INTENDED, d, pos, d[pos] - 0x80, pos + 1);
    } else if d[pos] <= 0x9f {
      OneArray(INTENDED, d, pos, d[pos] - 0x90, pos + 1);
    } else {
      OneStr(INTENDED, d, pos, d[pos] - 0xa0, pos + 1);
    }
  }

  /** With the bounds as written only the short maps are left of these. */
  lemma {:induction false} ReadsShortAsWritten(d: Bytes, pos: nat)
    requires pos < |d| && 0x80 <= d[pos] <= 0xbf
    ensures DecodeOne(AS_WRITTEN, d, pos) ==
            if d[pos] <= 0x8f then MapOf(Pairs(AS_WRITTEN, d, pos + 1, d[pos] - 0x80, map[]))
            else Err(UnknownMarker(d[pos]))
  {
    ShortMarks(d[pos]);
    if d[pos] <= 0x8f {
      OneMap(AS_WRITTEN, d, pos, d[pos] - 0x80, pos + 1);
    } else {
      OneFails(AS_WRITTEN, d, pos, UnknownMarker(d[pos]));
    }
  }

  /** The markers that stand for nothing here. */
  const UNUSED: set<byte> := {0xc1, 0xc7, 0xc8, 0xc9, 0xd4, 0xd5, 0xd6, 0xd7, 0xd8}

  lemma {:induction false} UnusedMarks(r: Ranges, m: byte)
    requires m in UNUSED && r in {AS_WRITTEN, INTENDED}
    ensures Classify(r, m) == Unknown
  {
  }

  lemma {:induction false} ReadsUnused(r: Ranges, d: Bytes, pos: nat)
    requires pos < |d| && d[pos] in UNUSED && r in {AS_WRITTEN, INTENDED}
    ensures DecodeOne(r, d, pos) == Err(UnknownMarker(d[pos]))
  {
    UnusedMarks(r, d[pos]);
    OneFails(r, d, pos, UnknownMarker(d[pos]));
  }

  // ----- keys -----

  lemma {:induction false} SmallNext(r: Ranges, d: Bytes, pos: nat, x: int)
    requires pos < |d| && d[pos] == x <= 0x7f
    ensures Next(r, d, pos) == Ok((Int(x), pos + 1))
  {
    NextIsDecodeOne(r, d, pos);
    ReadsOneByte(r, d, pos, Int(x));
  }

  lemma {:induction false} SmallPairRead(r: Ranges, d: Bytes, pos: nat, n: nat, out: map<Value, Value>, k: int, x: int)
    requires pos + 1 < |d| && n > 0 && d[pos] == k <= 0x7f && d[pos + 1] == x <= 0x7f
    ensures Pairs(r, d, pos, n, out) == Pairs(r, d, pos + 2, n - 1, out[Int(k) := Int(x)])
  {
    PairsStep(r, d, pos, n, out);
    SmallNext(r, d, pos, k);
    SmallNext(r, d, pos + 1, x);
  }

  lemma {:induction false} NoMorePairs(r: Ranges, d: Bytes, pos: nat, n: nat, out: map<Value, Value>)
    requires pos <= |d| && n == 0
    ensures Pairs(r, d, pos, n, out) == Ok((out, pos))
  {
  }

  lemma {:induction false} ShortMap(r: Ranges, d: Bytes, n: nat)
    requires d != [] && d[0] == 0x80 + n && n <= 15 && r in {AS_WRITTEN, INTENDED}
    ensures DecodeOne(r, d, 0) == MapOf(Pairs(r, d, 1, n, map[]))
  {
    ShortMarks(d[0]);
    OneMap(r, d, 0, n, 1);
  }

  lemma Whole(r: Ranges, d: Bytes, v: Value)
    requires DecodeOne(r, d, 0) == Ok((v, |d|))
    ensures Decode(r, d) == Ok(v)
  {
  }

  /** Of two pairs with one key the second counts. */
  lemma {:induction false} LastPairWins(r: Ranges, d: Bytes, k: int, x: int, y: int, n: nat)
    requires k <= 0x7f && x <= 0x7f && y <= 0x7f && n == 2 && r in {AS_WRITTEN, INTENDED}
    requires |d| == 5 && d[0] == 0x82 && d[1] == d[3] == k && d[2] == x && d[4] == y
    ensures Decode(r, d) == Ok(Map(map[Int(k) := Int(y)]))
  {
    ShortMap(r, d, n);
    SmallPairRead(r, d, 1, n, map[], k, x);
    var one := map[Int(k) := Int(x)];
    assert map[][Int(k) := Int(x)] == one && one[Int(k) := Int(y)] == map[Int(k) := Int(y)];
    SmallPairRead(r, d, 3, n - 1, one, k, y);
    NoMorePairs(r, d, 5, n - 2, map[Int(k) := Int(y)]);
    Whole(r, d, Map(map[Int(k) := Int(y)]));
  }

  /** Arrays and maps cannot be keys, whatever else is in the data; anything else can. */
  lemma {:induction false} WhatCanBeKey(r: Ranges, d: Bytes, pos: nat, n: nat, out: map<Value, Value>)
    requires pos <= |d| && n > 0 && Next(r, d, pos).Ok? && Next(r, d, Next(r, d, pos).value.1).Ok?
    ensures var (key, p) := Next(r, d, pos).value;
            var (v, q) := Next(r, d, p).value;
            Pairs(r, d, pos, n, out) ==
            if key.Array? || key.Map? then Err(UnhashableKey) else Pairs(r, d, q, n - 1, out[key := v])
  {
    PairsStep(r, d, pos, n, out);
  }
}
