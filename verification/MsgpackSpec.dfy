/**
  The codec as functions: what `pack` writes for a value and what `_unpack_one` reads at a
  position. The theorems are about these; the methods of `Msgpack` are proved equal to them.
*/
module MsgpackSpec {
  import opened Wrappers
  import opened MsgpackFormat

  // ----- encoding -----

  function EncodeUint(n: nat): (s: Bytes)
    ensures |s| > 0
  {
    if n <= 0x7f then [n]
    else if n <= 0xff then [UINT_8] + BigEndian(n, 1)
    else if n <= 0xffff then [UINT_16] + BigEndian(n, 2)
    else if n <= 0xffff_ffff then [UINT_32] + BigEndian(n, 4)
    else [UINT_64] + BigEndian(n, 8)
  }

  function EncodeInt(n: int): (s: Bytes)
    ensures |s| > 0
  {
    if n >= 0 then EncodeUint(n)
    else if n >= -0x20 then [0xe0 + n % 0x20]
    else if n >= -0x80 then [INT_8] + BigEndian(n, 1)
    else if n >= -0x8000 then [INT_16] + BigEndian(n, 2)
    else if n >= -0x8000_0000 then [INT_32] + BigEndian(n, 4)
    else [INT_64] + BigEndian(n, 8)
  }

  function StrHeader(n: nat): (s: Bytes) {
    if n <= 0x1f then [FIXSTR_PREFIX + n]
    else if n <= 0xff then [STR_8] + BigEndian(n, 1)
    else if n <= 0xffff then [STR_16] + BigEndian(n, 2)
    else [STR_32] + BigEndian(n, 4)
  }

  function BinHeader(n: nat): (s: Bytes) {
    if n <= 0xff then [BIN_8] + BigEndian(n, 1)
    else if n <= 0xffff then [BIN_16] + BigEndian(n, 2)
    else [BIN_32] + BigEndian(n, 4)
  }

  function ArrayHeader(n: nat): (s: Bytes) {
    if n <= 0x0f then [FIXARRAY_PREFIX + n]
    else if n <= 0xffff then [ARRAY_16] + BigEndian(n, 2)
    else [ARRAY_32] + BigEndian(n, 4)
  }

  function MapHeader(n: nat): (s: Bytes) {
    if n <= 0x0f then [FIXMAP_PREFIX + n]
    else if n <= 0xffff then [MAP_16] + BigEndian(n, 2)
    else [MAP_32] + BigEndian(n, 4)
  }

  function EncodeStr(utf8: Bytes): Bytes {
    StrHeader(|utf8|) + utf8
  }

  /** Every map inside `v` has string keys only, so `pack` does not raise. */
  predicate Packable(v: Value) {
    match v
    case Array(elems) => forall i :: 0 <= i < |elems| ==> Packable(elems[i])
    case Map(entries) => forall k {:trigger k in entries} :: k in entries ==> k.Str? && Packable(entries[k])
    case _ => true
  }

  ghost function StrKeys(m: map<Value, Value>): (keys: set<Bytes>)
    ensures forall u :: u in keys <==> Str(u) in m
  {
    set k | k in m && k.Str? :: k.utf8
  }

  ghost function Encode(v: Value): (s: Bytes)
    requires Packable(v)
    decreases v, 2, 0
  {
    match v
    case Nil => [NIL]
    case Bool(b) => if b then [TRUE] else [FALSE]
    case Int(n) => EncodeInt(n)
    case Float(bits) => [FLOAT_64] + bits
    case Str(utf8) => EncodeStr(utf8)
    case Bin(data) => BinHeader(|data|) + data
    case Array(elems) => ArrayHeader(|elems|) + EncodeItems(elems)
    case Map(entries) => MapHeader(|entries|) + EncodeBody(v)
  }

  /** The pairs of a map in the order of `sorted(value.keys())`. */
  ghost function EncodeBody(v: Value): Bytes
    requires v.Map? && Packable(v)
    decreases v, 1, 0
  {
    EncodePairs(v, SortedKeys(StrKeys(v.entries)))
  }

  ghost function EncodeItems(elems: seq<Value>): Bytes
    requires forall i :: 0 <= i < |elems| ==> Packable(elems[i])
    decreases elems, 0, 0
  {
    if elems == [] then [] else Encode(elems[0]) + EncodeItems(elems[1..])
  }

  ghost predicate KeysOf(v: Value, keys: seq<Bytes>) {
    v.Map? && forall i :: 0 <= i < |keys| ==> Str(keys[i]) in v.entries
  }

  ghost function EncodePairs(v: Value, keys: seq<Bytes>): Bytes
    requires Packable(v) && KeysOf(v, keys)
    decreases v, 0, |keys|
  {
    if keys == [] then []
    else EncodeStr(keys[0]) + Encode(v.entries[Str(keys[0])]) + EncodePairs(v, keys[1..])
  }

  // ----- decoding -----

  datatype UnpackError =
    | EofBeforeValue
    | Truncated
    | UnknownMarker(marker: byte)
    | TrailingBytes
    | InvalidUtf8    // UnicodeDecodeError
    | UnhashableKey  // TypeError: a list or dict used as a key

  /** The two upper bounds the decoder compares fixstr and fixarray markers with. */
  datatype Ranges = Ranges(fixstrEnd: int, fixarrayEnd: int)

  /** The bounds in the code: `FIXSTR_PREFIX | 0x20` (see `AsWrittenBounds`) and FIXMAP_PREFIX. */
  const AS_WRITTEN := Ranges(FIXSTR_PREFIX, FIXMAP_PREFIX)

  /** The bounds of the format: fixstr is 0xa0 to 0xbf, fixarray 0x90 to 0x9f. */
  const INTENDED := Ranges(0xc0, 0xa0)

  /** What the marker at the front of a value announces. */
  datatype Head = Scalar(v: Value) | StrOf(n: nat) | BinOf(n: nat) | ItemsOf(n: nat) | PairsOf(n: nat)

  type Read<T> = Result<(T, nat), UnpackError>

  function ReadUint(d: Bytes, pos: nat, k: nat): Read<nat> {
    if pos + k > |d| then Err(Truncated) else Ok((FromBigEndian(d[pos..pos + k]), pos + k))
  }

  function ReadInt(d: Bytes, pos: nat, k: nat): Read<int> {
    var (u, p) :- ReadUint(d, pos, k);
    Ok((Signed(u, k), p))
  }

  function ReadFloat(d: Bytes, pos: nat, k: nat): (r: Read<Bytes>)
    requires k == 4 || k == 8
    ensures r.Ok? ==> |r.value.0| == 8
  {
    if pos + k > |d| then Err(Truncated)
    else Ok((if k == 4 then WidenSingle(d[pos..pos + k]) else d[pos..pos + k], pos + k))
  }

  /** What a marker byte means; `k` is the number of bytes of the number that follows it. */
  datatype Shape =
    | Complete(head: Head)
    | UintIn(k: nat)
    | IntIn(k: nat)
    | FloatIn(k: nat)
    | StrLength(k: nat)
    | BinLength(k: nat)
    | ItemCount(k: nat)
    | PairCount(k: nat)
    | Unknown

  /** The marker dispatch, with the branches in the order of the code. */
  function Classify(r: Ranges, m: byte): (shape: Shape)
    ensures shape.FloatIn? ==> shape.k == 4 || shape.k == 8
  {
    if m <= 0x7f then Complete(Scalar(Int(m)))
    else if m >= 0xe0 then Complete(Scalar(Int(m - 0x100)))
    else if m == NIL then Complete(Scalar(Nil))
    else if m == TRUE then Complete(Scalar(Bool(true)))
    else if m == FALSE then Complete(Scalar(Bool(false)))
    else if m == UINT_8 then UintIn(1)
    else if m == UINT_16 then UintIn(2)
    else if m == UINT_32 then UintIn(4)
    else if m == UINT_64 then UintIn(8)
    else if m == INT_8 then IntIn(1)
    else if m == INT_16 then IntIn(2)
    else if m == INT_32 then IntIn(4)
    else if m == INT_64 then IntIn(8)
    else if m == FLOAT_32 then FloatIn(4)
    else if m == FLOAT_64 then FloatIn(8)
    else if FIXSTR_PREFIX <= m < r.fixstrEnd then Complete(StrOf(m % 0x20))
    else if m == STR_8 then StrLength(1)
    else if m == STR_16 then StrLength(2)
    else if m == STR_32 then StrLength(4)
    else if m == BIN_8 then BinLength(1)
    else if m == BIN_16 then BinLength(2)
    else if m == BIN_32 then BinLength(4)
    else if FIXARRAY_PREFIX <= m < r.fixarrayEnd then Complete(ItemsOf(m % 0x10))
    else if m == ARRAY_16 then ItemCount(2)
    else if m == ARRAY_32 then ItemCount(4)
    else if FIXMAP_PREFIX <= m < FIXARRAY_PREFIX then Complete(PairsOf(m % 0x10))
    else if m == MAP_16 then PairCount(2)
    else if m == MAP_32 then PairCount(4)
    else Unknown
  }

  /** The marker at `pos` with the number that follows it. */
  function ReadHead(r: Ranges, d: Bytes, pos: nat): Read<Head> {
    if pos >= |d| then Err(EofBeforeValue)
    else
      match Classify(r, d[pos])
      case Complete(head) => Ok((head, pos + 1))
      case UintIn(k) => var (n, p) :- ReadUint(d, pos + 1, k); Ok((Scalar(Int(n)), p))
      case IntIn(k) => var (n, p) :- ReadInt(d, pos + 1, k); Ok((Scalar(Int(n)), p))
      case FloatIn(k) => var (bits, p) :- ReadFloat(d, pos + 1, k); Ok((Scalar(Float(bits)), p))
      case StrLength(k) => var (n, p) :- ReadUint(d, pos + 1, k); Ok((StrOf(n), p))
      case BinLength(k) => var (n, p) :- ReadUint(d, pos + 1, k); Ok((BinOf(n), p))
      case ItemCount(k) => var (n, p) :- ReadUint(d, pos + 1, k); Ok((ItemsOf(n), p))
      case PairCount(k) => var (n, p) :- ReadUint(d, pos + 1, k); Ok((PairsOf(n), p))
      case Unknown => Err(UnknownMarker(d[pos]))
  }

  function ReadStr(d: Bytes, pos: nat, n: nat): Read<Value> {
    if pos + n > |d| then Err(Truncated)
    else if !ValidUtf8(d[pos..pos + n]) then Err(InvalidUtf8)
    else Ok((Str(d[pos..pos + n]), pos + n))
  }

  function ReadBin(d: Bytes, pos: nat, n: nat): Read<Value> {
    if pos + n > |d| then Err(Truncated) else Ok((Bin(d[pos..pos + n]), pos + n))
  }

  predicate Hashable(v: Value) {
    !v.Array? && !v.Map?
  }

  /** A successful read ends after `lo` and inside the data, whatever length its header claims. */
  predicate EndsIn<T>(r: Read<T>, lo: nat, d: Bytes) {
    r.Ok? ==> lo <= r.value.1 <= |d|
  }

  function DecodeOne(r: Ranges, d: Bytes, pos: nat): (res: Read<Value>)
    ensures EndsIn(res, pos + 1, d)
    decreases |d| - pos, 1, 0
  {
    var (head, p) :- ReadHead(r, d, pos);
    match head
    case Scalar(v) => Ok((v, p))
    case StrOf(n) => ReadStr(d, p, n)
    case BinOf(n) => ReadBin(d, p, n)
    case ItemsOf(n) =>
      var (elems, q) :- DecodeItems(r, d, p, n);
      Ok((Array(elems), q))
    case PairsOf(n) =>
      var (entries, q) :- DecodePairs(r, d, p, n, map[]);
      Ok((Map(entries), q))
  }

  function DecodeItems(r: Ranges, d: Bytes, pos: nat, n: nat): (res: Read<seq<Value>>)
    requires pos <= |d|
    ensures EndsIn(res, pos, d)
    ensures res.Ok? ==> |res.value.0| == n
    decreases |d| - pos, 2, n
  {
    if n == 0 then Ok(([], pos))
    else
      var (v, p) :- DecodeOne(r, d, pos);
      var (rest, q) :- DecodeItems(r, d, p, n - 1);
      Ok(([v] + rest, q))
  }

  /** `out[k] = v` for each decoded pair: a repeated key keeps its last value. */
  function DecodePairs(r: Ranges, d: Bytes, pos: nat, n: nat, out: map<Value, Value>): (res: Read<map<Value, Value>>)
    requires pos <= |d|
    ensures EndsIn(res, pos, d)
    decreases |d| - pos, 2, n
  {
    if n == 0 then Ok((out, pos))
    else
      var (k, p) :- DecodeOne(r, d, pos);
      var (v, q) :- DecodeOne(r, d, p);
      if !Hashable(k) then Err(UnhashableKey) else DecodePairs(r, d, q, n - 1, out[k := v])
  }

  function Decode(r: Ranges, d: Bytes): Result<Value, UnpackError> {
    var (v, p) :- DecodeOne(r, d, 0);
    if p != |d| then Err(TrailingBytes) else Ok(v)
  }

  // ----- synonyms for proofs -----

  // A proof that mentions a synonym unfolds the recursive function at most once, which keeps the
  // marker dispatch out of inductive arguments.

  ghost function Packed(v: Value): Bytes
    requires Packable(v)
  {
    Encode(v)
  }

  ghost function PackedItems(elems: seq<Value>): Bytes
    requires forall i :: 0 <= i < |elems| ==> Packable(elems[i])
  {
    EncodeItems(elems)
  }

  ghost function PackedPairs(v: Value, keys: seq<Bytes>): Bytes
    requires Packable(v) && KeysOf(v, keys)
  {
    EncodePairs(v, keys)
  }

  ghost function PackedBody(v: Value): Bytes
    requires v.Map? && Packable(v)
  {
    Encode(v)[|MapHeader(|v.entries|)|..]
  }

  function Items(r: Ranges, d: Bytes, pos: nat, n: nat): Read<seq<Value>>
    requires pos <= |d|
  {
    DecodeItems(r, d, pos, n)
  }

  function Pairs(r: Ranges, d: Bytes, pos: nat, n: nat, out: map<Value, Value>): Read<map<Value, Value>>
    requires pos <= |d|
  {
    DecodePairs(r, d, pos, n, out)
  }

  /** `DecodeOne`, reached through `DecodeItems`. */
  function Next(r: Ranges, d: Bytes, pos: nat): Read<Value>
    requires pos <= |d|
  {
    var (vs, p) :- DecodeItems(r, d, pos, 1);
    Ok((vs[0], p))
  }

  lemma {:induction false} NextIsDecodeOne(r: Ranges, d: Bytes, pos: nat)
    requires pos <= |d|
    ensures Next(r, d, pos) == DecodeOne(r, d, pos)
  {
    var one := DecodeOne(r, d, pos);
    if one.Ok? {
      assert DecodeItems(r, d, one.value.1, 0) == Ok(([], one.value.1));
    }
  }

  lemma {:induction false} ItemsStep(r: Ranges, d: Bytes, pos: nat, n: nat)
    requires pos <= |d| && n > 0
    ensures var first := Next(r, d, pos);
            if first.Err? then Items(r, d, pos, n) == Err(first.error)
            else var rest := Items(r, d, first.value.1, n - 1);
                 Items(r, d, pos, n) ==
                 if rest.Err? then rest else Ok(([first.value.0] + rest.value.0, rest.value.1))
  {
    NextIsDecodeOne(r, d, pos);
  }

  lemma {:induction false} PairsStep(r: Ranges, d: Bytes, pos: nat, n: nat, out: map<Value, Value>)
    requires pos <= |d| && n > 0
    ensures var key := Next(r, d, pos);
            if key.Err? then Pairs(r, d, pos, n, out) == Err(key.error)
            else var value := Next(r, d, key.value.1);
                 Pairs(r, d, pos, n, out) ==
                 if value.Err? then Err(value.error)
                 else if !Hashable(key.value.0) then Err(UnhashableKey)
                 else Pairs(r, d, value.value.1, n - 1, out[key.value.0 := value.value.0])
  {
    NextIsDecodeOne(r, d, pos);
    if DecodeOne(r, d, pos).Ok? {
      NextIsDecodeOne(r, d, DecodeOne(r, d, pos).value.1);
    }
  }
}
