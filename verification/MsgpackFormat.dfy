/**
  The wire format: marker bytes, big-endian integers, UTF-8 validity, key order.
  MessagePack specification, section "Formats".
*/
module MsgpackFormat {
  type byte = b: int | 0 <= b < 256
  type Bytes = seq<byte>

  const NIL: byte := 0xc0
  const FALSE: byte := 0xc2
  const TRUE: byte := 0xc3
  const BIN_8: byte := 0xc4
  const BIN_16: byte := 0xc5
  const BIN_32: byte := 0xc6
  const FLOAT_32: byte := 0xca
  const FLOAT_64: byte := 0xcb
  const UINT_8: byte := 0xcc
  const UINT_16: byte := 0xcd
  const UINT_32: byte := 0xce
  const UINT_64: byte := 0xcf
  const INT_8: byte := 0xd0
  const INT_16: byte := 0xd1
  const INT_32: byte := 0xd2
  const INT_64: byte := 0xd3
  const STR_8: byte := 0xd9
  const STR_16: byte := 0xda
  const STR_32: byte := 0xdb
  const ARRAY_16: byte := 0xdc
  const ARRAY_32: byte := 0xdd
  const MAP_16: byte := 0xde
  const MAP_32: byte := 0xdf

  const FIXMAP_PREFIX: byte := 0x80
  const FIXARRAY_PREFIX: byte := 0x90
  const FIXSTR_PREFIX: byte := 0xa0

  const TWO_32 := 0x1_0000_0000
  const TWO_63 := 0x8000_0000_0000_0000
  const TWO_64 := 0x1_0000_0000_0000_0000

  /**
    A Python value the codec handles. A `str` is its UTF-8 bytes, a `float` its eight big-endian
    IEEE 754 bytes, a `dict` a finite map (its key order is irrelevant: equality ignores it and
    `pack_map` sorts).
  */
  datatype Value =
    | Nil
    | Bool(b: bool)
    | Int(n: int)
    | Float(bits: Bytes)
    | Str(utf8: Bytes)
    | Bin(data: Bytes)
    | Array(elems: seq<Value>)
    | Map(entries: map<Value, Value>)

  // ----- big-endian integers -----

  function Pow256(k: nat): (p: nat)
    ensures p > 0
  {
    if k == 0 then 1 else 256 * Pow256(k - 1)
  }

  /** `value >> 8 * i`; Python shifts negative numbers towards minus infinity, as `/` does here. */
  function Shifted(value: int, i: nat): int {
    if i == 0 then value else Shifted(value, i - 1) / 256
  }

  /** The `k` low bytes of `value`, most significant first. */
  function BigEndian(value: int, k: nat): (s: Bytes)
    ensures |s| == k
    decreases k, value
  {
    if k == 0 then [] else BigEndian(value / 256, k - 1) + [value % 256]
  }

  function FromBigEndian(s: Bytes): nat {
    if s == [] then 0 else FromBigEndian(s[..|s| - 1]) * 256 + s[|s| - 1]
  }

  /** The two's-complement reading of a `k`-byte unsigned number. */
  function Signed(u: int, k: nat): int {
    if 2 * u >= Pow256(k) then u - Pow256(k) else u
  }

  lemma Pow256Values()
    ensures Pow256(1) == 0x100
    ensures Pow256(2) == 0x1_0000
    ensures Pow256(4) == TWO_32
    ensures Pow256(8) == TWO_64
  {
  }

  lemma MulAtLeast(d: nat, x: int)
    requires x >= 1
    ensures d * x >= d
  {
  }

  lemma QuotientUnique(d: nat, q: int, r: int, q': int, r': int)
    requires 0 <= r < d && 0 <= r' < d && d * q + r == d * q' + r'
    ensures q == q' && r == r'
  {
    assert d * (q - q') == r' - r && d * (q' - q) == r - r';
    if q > q' {
      MulAtLeast(d, q - q');
    } else if q < q' {
      MulAtLeast(d, q' - q);
    }
  }

  lemma DivModUnique(v: int, d: nat, q: int, r: int)
    requires 0 <= r < d && v == d * q + r
    ensures v / d == q && v % d == r
  {
    QuotientUnique(d, q, r, v / d, v % d);
  }

  lemma SmallMod(n: int, d: nat)
    requires 0 <= n < d
    ensures n % d == n
  {
  }

  lemma ModSplit(v: int, p: nat)
    requires p > 0
    ensures ((v / 256) % p) * 256 + v % 256 == v % (256 * p)
  {
    var q, b := v / 256, v % 256;
    var h, r := q / p, q % p;
    SplitDigits(v, p, q, b, h, r);
    DivModUnique(v, 256 * p, h, r * 256 + b);
  }

  lemma SplitDigits(v: int, p: nat, q: int, b: int, h: int, r: int)
    requires v == 256 * q + b && q == p * h + r
    ensures v == (256 * p) * h + (r * 256 + b)
  {
  }

  lemma {:induction false} FromBigEndianBound(s: Bytes)
    ensures FromBigEndian(s) < Pow256(|s|)
  {
    if s != [] {
      FromBigEndianBound(s[..|s| - 1]);
    }
  }

  /** Reading back the `k` bytes written for `value` gives `value` modulo 256^k. */
  lemma {:induction false} BigEndianRoundTrip(value: int, k: nat)
    ensures FromBigEndian(BigEndian(value, k)) == value % Pow256(k)
    decreases k
  {
    if k > 0 {
      BigEndianRoundTrip(value / 256, k - 1);
      ModSplit(value, Pow256(k - 1));
      assert BigEndian(value, k)[..k - 1] == BigEndian(value / 256, k - 1);
    }
  }

  // ----- UTF-8 -----

  predicate Continuation(b: byte) {
    0x80 <= b <= 0xbf
  }

  /** Length of the well-formed code unit sequence at the front of `s`, or 0 if there is none. */
  function Utf8Step(s: Bytes): (n: nat)
    ensures n <= |s| && n <= 4
  {
    if s == [] then 0
    else if s[0] < 0x80 then 1
    else if |s| >= 2 && 0xc2 <= s[0] <= 0xdf && Continuation(s[1]) then 2
    else if |s| >= 3 && 0xe0 <= s[0] <= 0xef && Continuation(s[1]) && Continuation(s[2])
            && (s[0] == 0xe0 ==> 0xa0 <= s[1]) && (s[0] == 0xed ==> s[1] <= 0x9f) then 3
    else if |s| >= 4 && 0xf0 <= s[0] <= 0xf4 && Continuation(s[1]) && Continuation(s[2]) && Continuation(s[3])
            && (s[0] == 0xf0 ==> 0x90 <= s[1]) && (s[0] == 0xf4 ==> s[1] <= 0x8f) then 4
    else 0
  }

  /** What `bytes.decode("utf-8")` accepts: no overlong forms, no surrogates, nothing above U+10FFFF. */
  predicate ValidUtf8(s: Bytes)
    decreases |s|
  {
    s == [] || (Utf8Step(s) > 0 && ValidUtf8(s[Utf8Step(s)..]))
  }

  // ----- 32-bit floats -----

  function Pow2(k: nat): (p: nat)
    ensures p > 0
  {
    if k == 0 then 1 else 2 * Pow2(k - 1)
  }

  /** Position of the highest set bit. */
  function TopBit(m: nat): nat
    requires m > 0
  {
    if m == 1 then 0 else 1 + TopBit(m / 2)
  }

  /** Exponent and mantissa of a single, as the lower 63 bits of a double. */
  function WideMagnitude(exponent: nat, mantissa: nat): int {
    if exponent == 0xff then 0x7ff * Pow2(52) + mantissa * Pow2(29)
    else if exponent > 0 then (exponent + 896) * Pow2(52) + mantissa * Pow2(29)
    else if mantissa == 0 then 0
    else
      var top := TopBit(mantissa);
      (top + 874) * Pow2(52) + (mantissa - Pow2(top)) * (Pow2(52) / Pow2(top))
  }

  /** The IEEE 754 double with the value of the single whose big-endian bytes are `s`. */
  function WidenSingle(s: Bytes): (wide: Bytes)
    requires |s| == 4
    ensures |wide| == 2 * |s|
  {
    var u := FromBigEndian(s);
    var sign, exponent, mantissa := u / 0x8000_0000, (u / 0x80_0000) % 0x100, u % 0x80_0000;
    BigEndian(sign * TWO_63 + WideMagnitude(exponent, mantissa), 2 * |s|)
  }

  // ----- key order -----

  /** Code-point order of two strings, which UTF-8 preserves as byte order. */
  predicate KeyLess(a: Bytes, b: Bytes) {
    b != [] && (a == [] || a[0] < b[0] || (a[0] == b[0] && KeyLess(a[1..], b[1..])))
  }

  lemma {:induction false} KeyLessTransitive(a: Bytes, b: Bytes, c: Bytes)
    requires KeyLess(a, b) && KeyLess(b, c)
    ensures KeyLess(a, c)
  {
    if a != [] && a[0] == b[0] == c[0] {
      KeyLessTransitive(a[1..], b[1..], c[1..]);
    }
  }

  lemma {:induction false} KeyLessTotal(a: Bytes, b: Bytes)
    ensures a == b || KeyLess(a, b) || KeyLess(b, a)
    ensures !(KeyLess(a, b) && KeyLess(b, a))
    ensures !KeyLess(a, a)
  {
    if a != [] && b != [] {
      KeyLessTotal(a[1..], b[1..]);
      if a[0] == b[0] && a[1..] == b[1..] {
        assert a == [a[0]] + a[1..] && b == [b[0]] + b[1..];
      }
    }
    if a != [] {
      KeyLessTotal(a[1..], a[1..]);
    }
  }

  ghost predicate IsLeastKey(k: Bytes, keys: set<Bytes>) {
    k in keys && forall j :: j in keys && j != k ==> KeyLess(k, j)
  }

  lemma LeastKeyExists(keys: set<Bytes>)
    requires keys != {}
    ensures exists k :: IsLeastKey(k, keys)
  {
    var _ := LeastKey(keys);
  }

  lemma LeastKey(keys: set<Bytes>) returns (k: Bytes)
    requires keys != {}
    ensures IsLeastKey(k, keys)
    decreases |keys|
  {
    k :| k in keys;
    if keys - {k} != {} {
      var m := LeastKey(keys - {k});
      KeyLessTotal(k, m);
      if KeyLess(m, k) {
        k := m;
      } else {
        forall j | j in keys && j != k ensures KeyLess(k, j) {
          if j != m { KeyLessTransitive(k, m, j); }
        }
      }
    }
  }

  /** `sorted(keys)`. */
  ghost function SortedKeys(keys: set<Bytes>): (s: seq<Bytes>)
    ensures forall k :: k in s <==> k in keys
    ensures |s| == |keys|
    decreases |keys|
  {
    if keys == {} then []
    else
      LeastKeyExists(keys);
      var k :| IsLeastKey(k, keys);
      [k] + SortedKeys(keys - {k})
  }

  ghost predicate StrictlyIncreasing(s: seq<Bytes>) {
    forall i, j :: 0 <= i < j < |s| ==> KeyLess(s[i], s[j])
  }

  lemma {:induction false} SortedKeysIncrease(keys: set<Bytes>)
    ensures StrictlyIncreasing(SortedKeys(keys))
    decreases |keys|
  {
    if keys != {} {
      var s := SortedKeys(keys);
      LeastKeyExists(keys);
      assert IsLeastKey(s[0], keys);
      SortedKeysIncrease(keys - {s[0]});
      assert s[1..] == SortedKeys(keys - {s[0]});
      forall i, j | 0 <= i < j < |s| ensures KeyLess(s[i], s[j]) {
        assert s[j] in s[1..];
        if i > 0 { assert s[i] == s[1..][i - 1] && s[j] == s[1..][j - 1]; }
      }
    }
  }

  /** There is one increasing arrangement, so `sorted` is determined by the set of keys. */
  lemma {:induction false} IncreasingIsSorted(s: seq<Bytes>, keys: set<Bytes>)
    requires StrictlyIncreasing(s)
    requires forall k :: k in s <==> k in keys
    ensures s == SortedKeys(keys)
    decreases |s|
  {
    if s == [] {
      assert forall k :: k !in keys;
    } else {
      assert s[0] in keys;
      LeastKeyExists(keys);
      var t := SortedKeys(keys);
      assert IsLeastKey(t[0], keys);
      assert s[0] == t[0] by {
        var i :| 0 <= i < |s| && s[i] == t[0];
        if i != 0 {
          assert KeyLess(s[0], s[i]);
          KeyLessTotal(s[0], t[0]);
        }
      }
      forall k ensures k in s[1..] <==> k in keys - {s[0]} {
        if k in s[1..] {
          var i :| 1 <= i < |s| && s[i] == k;
          KeyLessTotal(s[0], k);
        }
      }
      IncreasingIsSorted(s[1..], keys - {s[0]});
    }
  }
}
