/**
  Strings as UTF-8: which bytes are strings, and in which order they stand. A string is a sequence
  of Unicode scalar values; each is written in one to four bytes, RFC 3629, section 3.
*/
module Utf8 {
  import opened MsgpackFormat

  /** The code points outside the surrogate range. */
  predicate IsScalar(c: int) {
    0 <= c <= 0xd7ff || 0xe000 <= c <= 0x10ffff
  }

  predicate AllScalar(cs: seq<int>) {
    forall i :: 0 <= i < |cs| ==> IsScalar(cs[i])
  }

  /** The six bits of a continuation byte. */
  function Low(c: int): byte {
    0x80 + c % 0x40
  }

  function Written(c: int): (s: Bytes)
    requires IsScalar(c)
    ensures s != []
  {
    if c <= 0x7f then [c]
    else if c <= 0x7ff then [0xc0 + c / 0x40, Low(c)]
    else if c <= 0xffff then [0xe0 + c / 0x1000, Low(c / 0x40), Low(c)]
    else [0xf0 + c / 0x4_0000, Low(c / 0x1000), Low(c / 0x40), Low(c)]
  }

  function Utf8Of(cs: seq<int>): Bytes
    requires AllScalar(cs)
  {
    if cs == [] then [] else Written(cs[0]) + Utf8Of(cs[1..])
  }

  // ----- the accepted bytes are exactly the written ones -----

  lemma SplitLow(c: int, a: int, b: int)
    requires c == 0x40 * a + b && 0 <= b < 0x40
    ensures c / 0x40 == a && Low(c) == 0x80 + b
  {
  }

  lemma {:induction false} StepOfWritten(c: int, rest: Bytes)
    requires IsScalar(c)
    ensures Utf8Step(Written(c) + rest) == |Written(c)|
  {
    if c <= 0x7f {
    } else if c <= 0x7ff {
      assert 2 <= c / 0x40 <= 0x1f;
    } else if c <= 0xffff {
      ThreeBytes(c);
    } else {
      FourBytes(c);
    }
  }

  lemma ThreeBytes(c: int)
    requires 0x800 <= c <= 0xffff && IsScalar(c)
    ensures 0 <= c / 0x1000 <= 0xf
    ensures c / 0x1000 == 0 ==> Low(c / 0x40) >= 0xa0
    ensures c / 0x1000 == 0xd ==> Low(c / 0x40) <= 0x9f
  {
    assert c / 0x40 / 0x40 == c / 0x1000;
    assert c / 0x40 == 0x40 * (c / 0x1000) + c / 0x40 % 0x40;
  }

  lemma FourBytes(c: int)
    requires 0x1_0000 <= c <= 0x10_ffff
    ensures 0 <= c / 0x4_0000 <= 4
    ensures c / 0x4_0000 == 0 ==> Low(c / 0x1000) >= 0x90
    ensures c / 0x4_0000 == 4 ==> Low(c / 0x1000) <= 0x8f
  {
    assert c / 0x1000 / 0x40 == c / 0x4_0000;
    assert c / 0x1000 == 0x40 * (c / 0x4_0000) + c / 0x1000 % 0x40;
  }

  lemma {:induction false} WrittenIsValid(cs: seq<int>)
    requires AllScalar(cs)
    ensures ValidUtf8(Utf8Of(cs))
  {
    if cs != [] {
      StepOfWritten(cs[0], Utf8Of(cs[1..]));
      WrittenIsValid(cs[1..]);
      assert Utf8Of(cs)[|Written(cs[0])|..] == Utf8Of(cs[1..]);
    }
  }

  /** The scalar value at the front of valid bytes. */
  lemma {:induction false} ScalarAt(s: Bytes) returns (c: int)
    requires Utf8Step(s) > 0
    ensures IsScalar(c) && Written(c) == s[..Utf8Step(s)]
  {
    var n := Utf8Step(s);
    if n == 1 {
      c := s[0];
    } else if n == 2 {
      c := TwoOf(s[0], s[1]);
    } else if n == 3 {
      c := ThreeOf(s[0] as int - 0xe0, s[1] as int - 0x80, s[2] as int - 0x80);
    } else {
      c := FourOf(s[0] as int - 0xf0, s[1] as int - 0x80, s[2] as int - 0x80, s[3] as int - 0x80);
    }
  }

  lemma TwoOf(a: int, b: int) returns (c: int)
    requires 0xc2 <= a <= 0xdf && 0x80 <= b <= 0xbf
    ensures 0x80 <= c <= 0x7ff && Written(c) == [a, b]
  {
    c := 0x40 * (a - 0xc0) + (b - 0x80);
    SplitLow(c, a - 0xc0, b - 0x80);
  }

  lemma ThreeOf(x: int, y: int, z: int) returns (c: int)
    requires 0 <= x <= 0xf && 0 <= y < 0x40 && 0 <= z < 0x40 && (x == 0 ==> y >= 0x20) && (x == 0xd ==> y < 0x20)
    ensures 0x800 <= c <= 0xffff && IsScalar(c)
    ensures Written(c) == [0xe0 + x, 0x80 + y, 0x80 + z]
  {
    c := 0x1000 * x + 0x40 * y + z;
    SplitLow(c, 0x40 * x + y, z);
    SplitLow(c / 0x40, x, y);
    assert c / 0x1000 == x;
  }

  lemma FourOf(w: int, x: int, y: int, z: int) returns (c: int)
    requires 0 <= w <= 4 && 0 <= x < 0x40 && 0 <= y < 0x40 && 0 <= z < 0x40
    requires (w == 0 ==> x >= 0x10) && (w == 4 ==> x < 0x10)
    ensures 0x1_0000 <= c <= 0x10_ffff
    ensures Written(c) == [0xf0 + w, 0x80 + x, 0x80 + y, 0x80 + z]
  {
    c := 0x4_0000 * w + 0x1000 * x + 0x40 * y + z;
    SplitLow(c, 0x1000 * w + 0x40 * x + y, z);
    SplitLow(c / 0x40, 0x40 * w + x, y);
    assert c / 0x1000 == 0x40 * w + x;
    SplitLow(c / 0x1000, w, x);
    assert c / 0x4_0000 == w;
  }

  lemma {:induction false} FirstScalar(s: Bytes) returns (c: int, rest: Bytes)
    requires s != [] && ValidUtf8(s)
    ensures IsScalar(c) && s == Written(c) + rest && ValidUtf8(rest) && |rest| < |s|
  {
    c := ScalarAt(s);
    rest := s[Utf8Step(s)..];
    assert s == s[..Utf8Step(s)] + rest;
  }

  lemma {:induction false} OneMore(c: int, cs: seq<int>)
    requires IsScalar(c) && AllScalar(cs)
    ensures AllScalar([c] + cs) && Utf8Of([c] + cs) == Written(c) + Utf8Of(cs)
  {
    assert ([c] + cs)[1..] == cs;
  }

  lemma {:induction false} ValidIsWritten(s: Bytes) returns (cs: seq<int>)
    requires ValidUtf8(s)
    ensures AllScalar(cs) && Utf8Of(cs) == s
    decreases |s|
  {
    if s == [] {
      cs := [];
    } else {
      var c, rest := FirstScalar(s);
      var ds := ValidIsWritten(rest);
      OneMore(c, ds);
      cs := [c] + ds;
    }
  }

  /** `bytes.decode("utf-8")` accepts exactly the UTF-8 form of a sequence of scalar values. */
  lemma {:induction false} ValidExactlyWritten(s: Bytes)
    ensures ValidUtf8(s) <==> exists cs :: AllScalar(cs) && Utf8Of(cs) == s
  {
    if ValidUtf8(s) {
      var cs := ValidIsWritten(s);
    }
    if cs :| AllScalar(cs) && Utf8Of(cs) == s {
      WrittenIsValid(cs);
    }
  }

  // ----- order -----

  /** A proper prefix, or a smaller element where the two first differ. */
  ghost predicate Precedes(a: seq<int>, b: seq<int>) {
    a < b || exists i :: 0 <= i < |a| && i < |b| && a[..i] == b[..i] && a[i] < b[i]
  }

  lemma {:induction false} PrecedesStep(a: seq<int>, b: seq<int>)
    ensures Precedes(a, b) <==>
            b != [] && (a == [] || a[0] < b[0] || (a[0] == b[0] && Precedes(a[1..], b[1..])))
  {
    if a != [] && b != [] && a[0] == b[0] {
      SameHead(a, b);
      if Precedes(a[1..], b[1..]) && !(a[1..] < b[1..]) {
        var j :| 0 <= j < |a[1..]| && j < |b[1..]| && a[1..][..j] == b[1..][..j] && a[1..][j] < b[1..][j];
        assert a[..j + 1] == [a[0]] + a[1..][..j] && b[..j + 1] == [b[0]] + b[1..][..j];
        assert a[j + 1] < b[j + 1];
      }
      if Precedes(a, b) && !(a < b) {
        var i :| 0 <= i < |a| && i < |b| && a[..i] == b[..i] && a[i] < b[i];
        assert i > 0 && a[1..][..i - 1] == a[..i][1..] && b[1..][..i - 1] == b[..i][1..];
        assert a[1..][i - 1] < b[1..][i - 1];
      }
    } else if a != [] && b != [] && a[0] < b[0] {
      assert a[..0] == b[..0];
    }
  }

  lemma SameHead(a: seq<int>, b: seq<int>)
    requires a != [] && b != [] && a[0] == b[0]
    ensures a < b <==> a[1..] < b[1..]
  {
    assert a == [a[0]] + a[1..] && b == [b[0]] + b[1..];
  }

  /** The order of the keys: what it decides, without its recursion. */
  lemma {:induction false} KeyLessDecides(a: Bytes, b: Bytes)
    ensures KeyLess(a, b) <==> Precedes(a, b)
  {
    PrecedesStep(a, b);
    if a != [] && b != [] {
      KeyLessDecides(a[1..], b[1..]);
    }
  }

  lemma KeyLessHead(a: byte, b: byte, x: Bytes, y: Bytes)
    ensures KeyLess([a] + x, [b] + y) <==> a < b || (a == b && KeyLess(x, y))
  {
    assert ([a] + x)[1..] == x && ([b] + y)[1..] == y;
  }

  lemma {:induction false} KeyLessSameFront(w: Bytes, x: Bytes, y: Bytes)
    ensures KeyLess(w + x, w + y) <==> KeyLess(x, y)
  {
    if w == [] {
      assert w + x == x && w + y == y;
    } else {
      assert w + x == [w[0]] + (w[1..] + x) && w + y == [w[0]] + (w[1..] + y);
      KeyLessHead(w[0], w[0], w[1..] + x, w[1..] + y);
      KeyLessSameFront(w[1..], x, y);
    }
  }

  /** The two bytes for `e`, after which more may follow. */
  function Leading(base: int, e: int): Bytes
    requires 0xc0 <= base && 0 <= e && base + e / 0x40 <= 0xff
  {
    [base + e / 0x40, Low(e)]
  }

  lemma {:induction false} LeadingOrder(base: int, e: int, f: int, x: Bytes, y: Bytes)
    requires 0xc0 <= base && 0 <= e < f && base + e / 0x40 <= 0xff && base + f / 0x40 <= 0xff
    ensures KeyLess(Leading(base, e) + x, Leading(base, f) + y)
  {
    assert e / 0x40 < f / 0x40 || (e / 0x40 == f / 0x40 && e % 0x40 < f % 0x40);
    assert Leading(base, e) + x == [base + e / 0x40] + ([Low(e)] + x);
    assert Leading(base, f) + y == [base + f / 0x40] + ([Low(f)] + y);
    KeyLessHead(base + e / 0x40, base + f / 0x40, [Low(e)] + x, [Low(f)] + y);
    KeyLessHead(Low(e), Low(f), x, y);
  }

  lemma {:induction false} LastOrder(w: Bytes, c: int, d: int, x: Bytes, y: Bytes)
    requires c < d && c / 0x40 == d / 0x40
    ensures KeyLess(w + ([Low(c)] + x), w + ([Low(d)] + y))
  {
    assert c % 0x40 < d % 0x40;
    KeyLessHead(Low(c), Low(d), x, y);
    KeyLessSameFront(w, [Low(c)] + x, [Low(d)] + y);
  }

  lemma ThreeWritten(c: int)
    requires 0x7ff < c <= 0xffff && IsScalar(c)
    ensures 0xe0 + c / 0x40 / 0x40 <= 0xef && Written(c) == Leading(0xe0, c / 0x40) + [Low(c)]
  {
    assert c / 0x40 / 0x40 == c / 0x1000;
  }

  lemma FourWritten(c: int)
    requires 0xffff < c && IsScalar(c)
    ensures 0xf0 + c / 0x1000 / 0x40 <= 0xf4
    ensures Written(c) == Leading(0xf0, c / 0x1000) + [Low(c / 0x40), Low(c)]
  {
    assert c / 0x1000 / 0x40 == c / 0x4_0000;
  }

  lemma {:induction false} ThreeOrder(c: int, d: int, x: Bytes, y: Bytes)
    requires 0x7ff < c < d <= 0xffff && IsScalar(c) && IsScalar(d)
    ensures KeyLess(Written(c) + x, Written(d) + y)
  {
    ThreeWritten(c);
    ThreeWritten(d);
    var v, w := Leading(0xe0, c / 0x40), Leading(0xe0, d / 0x40);
    assert Written(c) + x == v + ([Low(c)] + x) && Written(d) + y == w + ([Low(d)] + y);
    if c / 0x40 == d / 0x40 {
      LastOrder(v, c, d, x, y);
    } else {
      LeadingOrder(0xe0, c / 0x40, d / 0x40, [Low(c)] + x, [Low(d)] + y);
    }
  }

  lemma {:induction false} FourOrder(c: int, d: int, x: Bytes, y: Bytes)
    requires 0xffff < c < d && IsScalar(c) && IsScalar(d)
    ensures KeyLess(Written(c) + x, Written(d) + y)
  {
    FourWritten(c);
    FourWritten(d);
    var v, w := Leading(0xf0, c / 0x1000), Leading(0xf0, d / 0x1000);
    var s, t := [Low(c)] + x, [Low(d)] + y;
    assert Written(c) + x == v + ([Low(c / 0x40)] + s) && Written(d) + y == w + ([Low(d / 0x40)] + t);
    assert c / 0x40 / 0x40 == c / 0x1000 && d / 0x40 / 0x40 == d / 0x1000;
    if c / 0x1000 != d / 0x1000 {
      LeadingOrder(0xf0, c / 0x1000, d / 0x1000, [Low(c / 0x40)] + s, [Low(d / 0x40)] + t);
    } else if c / 0x40 != d / 0x40 {
      LastOrder(v, c / 0x40, d / 0x40, s, t);
    } else {
      assert v + ([Low(c / 0x40)] + s) == v + [Low(c / 0x40)] + ([Low(c)] + x);
      assert w + ([Low(d / 0x40)] + t) == v + [Low(c / 0x40)] + ([Low(d)] + y);
      LastOrder(v + [Low(c / 0x40)], c, d, x, y);
    }
  }

  /** Of two scalar values the smaller is written first, whatever follows them. */
  lemma {:induction false} ScalarOrder(c: int, d: int, x: Bytes, y: Bytes)
    requires IsScalar(c) && IsScalar(d) && c < d
    ensures KeyLess(Written(c) + x, Written(d) + y)
  {
    if c > 0xffff {
      FourOrder(c, d, x, y);
    } else if 0x7ff < c && d <= 0xffff {
      ThreeOrder(c, d, x, y);
    } else if 0x7f < c && d <= 0x7ff {
      LeadingOrder(0xc0, c, d, x, y);
    } else {
      LeadIsSmaller(c, d, x, y);
    }
  }

  /** A shorter form begins with a smaller byte. */
  lemma {:induction false} LeadIsSmaller(c: int, d: int, x: Bytes, y: Bytes)
    requires IsScalar(c) && IsScalar(d) && c < d
    requires |Written(c)| < |Written(d)| || d <= 0x7f
    ensures KeyLess(Written(c) + x, Written(d) + y)
  {
    assert Written(c)[0] < Written(d)[0];
    assert Written(c) + x == [Written(c)[0]] + (Written(c)[1..] + x);
    assert Written(d) + y == [Written(d)[0]] + (Written(d)[1..] + y);
    KeyLessHead(Written(c)[0], Written(d)[0], Written(c)[1..] + x, Written(d)[1..] + y);
  }

  /** The order of the keys is the order of the strings by code point. */
  lemma {:induction false} KeyOrderIsCodePointOrder(cs: seq<int>, ds: seq<int>)
    requires AllScalar(cs) && AllScalar(ds)
    ensures KeyLess(Utf8Of(cs), Utf8Of(ds)) <==> Precedes(cs, ds)
  {
    PrecedesStep(cs, ds);
    if cs != [] && ds != [] {
      var x, y := Utf8Of(cs[1..]), Utf8Of(ds[1..]);
      if cs[0] == ds[0] {
        KeyLessSameFront(Written(cs[0]), x, y);
        KeyOrderIsCodePointOrder(cs[1..], ds[1..]);
      } else if cs[0] < ds[0] {
        ScalarOrder(cs[0], ds[0], x, y);
      } else {
        ScalarOrder(ds[0], cs[0], y, x);
        KeyLessTotal(Utf8Of(cs), Utf8Of(ds));
      }
    }
  }
}
