/**
  Reading written documents: the parser recovers exactly what a text was written to mean, whatever
  its layout.
*/
module TomlReading {
  import opened Decimals
  import opened Wrappers
  import opened Slices
  import opened TomlSpec
  import opened TomlText

  // ----- layout -----

  /** Text that does not begin with layout. */
  predicate Solid(t: string) {
    t != "" && !IsSpace(t[0]) && t[0] != '#'
  }

  lemma {:induction false} SkipLayout(s: string, pos: nat, w: string)
    requires At(s, pos, w) && IsLayout(w)
    ensures Skip(s, pos) == Skip(s, pos + |w|)
    decreases |w|, 1
  {
    if w != [] {
      AtFirst(s, pos, w);
      if w[0] == '#' {
        SkipComment(s, pos + 1, w[1..]);
      } else {
        SkipLayout(s, pos + 1, w[1..]);
      }
    }
  }

  lemma {:induction false} SkipComment(s: string, pos: nat, w: string)
    requires At(s, pos, w) && IsComment(w)
    ensures Skip(s, CommentEnd(s, pos)) == Skip(s, pos + |w|)
    decreases |w|, 0
  {
    AtFirst(s, pos, w);
    if w[0] == '\n' {
      SkipLayout(s, pos + 1, w[1..]);
    } else {
      SkipComment(s, pos + 1, w[1..]);
    }
  }

  lemma {:induction false} CommentEndAtEnd(s: string, pos: nat)
    requires pos <= |s| && forall i :: pos <= i < |s| ==> s[i] != '\n'
    ensures CommentEnd(s, pos) == |s|
    decreases |s| - pos
  {
    if pos < |s| {
      CommentEndAtEnd(s, pos + 1);
    }
  }

  lemma {:induction false} SkipLastComment(s: string, pos: nat, comment: string)
    requires pos + |comment| == |s| && s[pos..] == comment && IsLastComment(comment)
    ensures Skip(s, pos) == |s|
  {
    if comment != [] {
      assert s[pos] == comment[0];
      forall i | pos + 1 <= i < |s| ensures s[i] != '\n' {
        assert s[i] == comment[i - pos];
      }
      CommentEndAtEnd(s, pos + 1);
    }
  }

  /** Layout and a comment that the end of the text cuts off. */
  lemma {:induction false} SkipToEnd(s: string, pos: nat, gap: string, comment: string)
    requires At(s, pos, gap + comment) && pos + |gap + comment| == |s|
    requires IsLayout(gap) && IsLastComment(comment)
    ensures Skip(s, pos) == |s|
  {
    AtConcat(s, pos, gap, comment);
    SkipLayout(s, pos, gap);
    SkipLastComment(s, pos + |gap|, comment);
  }

  /** Layout before solid text is skipped, and nothing else. */
  lemma {:induction false} SkipTo(s: string, pos: nat, gap: string, rest: string)
    requires At(s, pos, gap + rest) && IsLayout(gap) && Solid(rest)
    ensures Skip(s, pos) == pos + |gap| && At(s, pos + |gap|, rest)
  {
    AtConcat(s, pos, gap, rest);
    SkipLayout(s, pos, gap);
    SkipNothing(s, pos + |gap|, rest);
  }

  lemma {:induction false} SkipNothing(s: string, pos: nat, rest: string)
    requires At(s, pos, rest) && Solid(rest)
    ensures pos < |s| && s[pos] == rest[0] && Skip(s, pos) == pos
  {
  }

  // ----- how written forms begin -----

  lemma {:induction false} ValueIsSolid(w: Written)
    requires WrittenOk(w)
    ensures Solid(Show(w))
  {
  }

  lemma {:induction false} IntIsSolid(sign: string, digits: string)
    requires IsSign(sign) && IsDigits(digits)
    ensures var t := sign + digits; Solid(t) && (t[0] == '-' || t[0] == '+' || IsDigit(t[0]))
  {
  }

  lemma {:induction false} KeyIsSolid(key: string, rest: string)
    requires IsBareKey(key)
    ensures Solid(key + rest) && (key + rest)[0] != '}' && (key + rest)[0] != '['
  {
  }

  lemma {:induction false} ItemsAreSolid(items: Items)
    requires ItemsOk(items)
    ensures Solid(ShowItems(items))
  {
  }

  lemma {:induction false} PairsAreSolid(pairs: Pairs)
    requires PairsOk(pairs)
    ensures Solid(ShowPairs(pairs))
  {
  }

  // ----- strings, numbers and keys -----

  lemma {:induction false} ReadPieces(s: string, pos: nat, ps: seq<Piece>, out: string)
    requires At(s, pos, ShowPieces(ps)) && PiecesOk(ps)
    ensures BasicTail(s, pos, out) == Ok((out + PiecesMeaning(ps), pos + |ShowPieces(ps)|))
    decreases |ps|
  {
    AtFirst(s, pos, ShowPieces(ps));
    if ps == [] {
      assert out + [] == out;
    } else {
      ReadPiece(s, pos, ps[0], ShowPieces(ps[1..]), out);
      var next := out + [PieceMeaning(ps[0])];
      ReadPieces(s, pos + |ShowPiece(ps[0])|, ps[1..], next);
      PiecesMeaningStep(out, ps);
    }
  }

  lemma {:induction false} PiecesMeaningStep(out: string, ps: seq<Piece>)
    requires PiecesOk(ps) && ps != []
    ensures out + PiecesMeaning(ps) == out + [PieceMeaning(ps[0])] + PiecesMeaning(ps[1..])
  {
  }

  lemma {:induction false} ReadPiece(s: string, pos: nat, p: Piece, rest: string, out: string)
    requires PieceOk(p) && At(s, pos, ShowPiece(p) + rest)
    ensures At(s, pos + |ShowPiece(p)|, rest)
    ensures BasicTail(s, pos, out) == BasicTail(s, pos + |ShowPiece(p)|, out + [PieceMeaning(p)])
  {
    AtConcat(s, pos, ShowPiece(p), rest);
    AtFirst(s, pos, ShowPiece(p));
    if p.Escaped? {
      AtFirst(s, pos + 1, ShowPiece(p)[1..]);
    }
  }

  lemma {:induction false} ReadLiteral(s: string, pos: nat, text: string, out: string)
    requires At(s, pos, text + "'") && IsLiteral(text)
    ensures LiteralTail(s, pos, out) == Ok((out + text, pos + |text| + 1))
    decreases |text|
  {
    AtFirst(s, pos, text + "'");
    if text == [] {
      assert out + [] == out;
    } else {
      assert (text + "'")[1..] == text[1..] + "'";
      ReadLiteral(s, pos + 1, text[1..], out + [text[0]]);
      assert out + text == out + [text[0]] + text[1..];
    }
  }

  predicate NoDigitAt(s: string, pos: nat) {
    pos < |s| ==> !IsDigit(s[pos])
  }

  lemma {:induction false} DigitsEndAfter(s: string, pos: nat, digits: string)
    requires At(s, pos, digits) && AllDigits(digits)
    requires NoDigitAt(s, pos + |digits|)
    ensures DigitsEnd(s, pos) == pos + |digits|
    decreases |digits|
  {
    if digits != [] {
      AtFirst(s, pos, digits);
      DigitsEndAfter(s, pos + 1, digits[1..]);
    }
  }

  lemma {:induction false} IntStart(s: string, pos: nat, sign: string, digits: string)
    requires IsSign(sign) && IsDigits(digits) && At(s, pos, sign) && At(s, pos + |sign|, digits)
    ensures pos < |s| && (s[pos] == '-' <==> sign == "-")
    ensures pos + |sign| == if Sees(s, pos, '-') || Sees(s, pos, '+') then pos + 1 else pos
  {
    if sign == "" {
      AtFirst(s, pos, digits);
    } else {
      AtFirst(s, pos, sign);
    }
  }

  lemma {:induction false} IntStep(s: string, pos: nat, start: nat, end: nat)
    requires pos < |s| && start == (if Sees(s, pos, '-') || Sees(s, pos, '+') then pos + 1 else pos)
    requires end == DigitsEnd(s, start) && end != start
    ensures ParseInt(s, pos) == Ok((if s[pos] == '-' then -Decimal(s[start..end]) else Decimal(s[start..end]), end))
  {
  }

  lemma {:induction false} ReadInt(s: string, pos: nat, sign: string, digits: string)
    requires IsSign(sign) && IsDigits(digits) && At(s, pos, sign + digits)
    requires NoDigitAt(s, pos + |sign + digits|)
    ensures ParseInt(s, pos) == Ok((if sign == "-" then -Decimal(digits) else Decimal(digits), pos + |sign + digits|))
  {
    AtConcat(s, pos, sign, digits);
    var start, end := pos + |sign|, pos + |sign + digits|;
    IntStart(s, pos, sign, digits);
    DigitsEndAfter(s, start, digits);
    IntStep(s, pos, start, end);
  }

  predicate NoKeyCharAt(s: string, pos: nat) {
    pos < |s| ==> !IsKeyChar(s[pos])
  }

  lemma {:induction false} KeyEndAfter(s: string, pos: nat, key: string)
    requires At(s, pos, key) && forall i :: 0 <= i < |key| ==> IsKeyChar(key[i])
    requires NoKeyCharAt(s, pos + |key|)
    ensures KeyEnd(s, pos) == pos + |key|
    decreases |key|
  {
    if key != [] {
      AtFirst(s, pos, key);
      KeyEndAfter(s, pos + 1, key[1..]);
    }
  }

  lemma {:induction false} ReadKey(s: string, pos: nat, gap: string, key: string, rest: string, end: nat)
    requires IsLayout(gap) && IsBareKey(key) && At(s, pos, gap + (key + rest))
    requires rest != "" && !IsKeyChar(rest[0]) && end == pos + |gap| + |key|
    ensures ParseKey(s, pos) == Ok((key, end)) && At(s, end, rest)
  {
    KeyIsSolid(key, rest);
    SkipTo(s, pos, gap, key + rest);
    KeyHere(s, pos + |gap|, key, rest, end);
    KeyStep(s, pos, pos + |gap|, key, end);
  }

  lemma {:induction false} KeyHere(s: string, start: nat, key: string, rest: string, end: nat)
    requires IsBareKey(key) && At(s, start, key + rest) && rest != "" && !IsKeyChar(rest[0]) && end == start + |key|
    ensures KeyEnd(s, start) == end && At(s, start, key) && At(s, end, rest)
  {
    AtConcat(s, start, key, rest);
    AtFirst(s, end, rest);
    KeyEndAfter(s, start, key);
  }

  lemma {:induction false} KeyStep(s: string, pos: nat, start: nat, key: string, end: nat)
    requires pos <= |s| && Skip(s, pos) == start && At(s, start, key) && key != ""
    requires KeyEnd(s, start) == end == start + |key|
    ensures ParseKey(s, pos) == Ok((key, end))
  {
  }

  /** What follows an item or a key starts with layout or with the punctuation. */
  lemma {:induction false} AfterLayout(gap: string, mark: char, rest: string)
    requires IsLayout(gap)
    ensures var t := gap + ([mark] + rest); t[0] == mark || IsSpace(t[0]) || t[0] == '#'
  {
  }

  // ----- values -----

  // The written forms, under names that do not unfold by themselves.

  function Shown(w: Written): string {
    Show(w)
  }

  function Meant(w: Written): Value
    requires WrittenOk(w)
  {
    Meaning(w)
  }

  function ItemsMeant(items: Items): seq<Value>
    requires ItemsOk(items)
  {
    ItemsMeaning(items)
  }

  function PairsMeant(pairs: Pairs, out: Tree): Tree
    requires PairsOk(pairs)
  {
    PairsMeaning(pairs, out)
  }

  function ShownItems(items: Items): string {
    ShowItems(items)
  }

  function ShownPair(a: Assignment): string {
    ShowAssignment(a)
  }

  function ShownPairs(pairs: Pairs): string {
    ShowPairs(pairs)
  }

  /** A number has to end before a character that is no digit. */
  predicate MayEnd(w: Written, s: string, end: nat) {
    w.WrittenInt? ==> NoDigitAt(s, end)
  }

  lemma {:induction false} ReadValue(s: string, pos: nat, w: Written)
    requires WrittenOk(w) && At(s, pos, Shown(w)) && MayEnd(w, s, pos + |Shown(w)|)
    ensures ValueAt(s, pos) == Ok((Meant(w), pos + |Shown(w)|))
    decreases w, 6
  {
    ValueIsSolid(w);
    SkipNothing(s, pos, Show(w));
    match w
    case WrittenInt(sign, digits) =>
      ReadIntValue(s, pos, sign, digits);
    case WrittenBool(b) =>
      ReadBoolValue(s, pos, b);
    case WrittenBasic(pieces) =>
      ReadBasicValue(s, pos, pieces);
    case WrittenLiteral(text) =>
      ReadLiteralValue(s, pos, text);
    case WrittenArray(open, items) =>
      ReadArrayValue(s, pos, open, items);
    case WrittenTable(open, pairs) =>
      ReadTableValue(s, pos, open, pairs);
  }

  lemma {:induction false} ReadArrayValue(s: string, pos: nat, open: string, items: Items)
    requires IsLayout(open) && ItemsOk(items) && At(s, pos, "[" + (open + ShownItems(items))) && Skip(s, pos) == pos
    ensures ValueAt(s, pos) == Ok((Array(ItemsMeant(items)), pos + |"[" + (open + ShownItems(items))|))
    decreases items, 6
  {
    ReadArray(s, pos, open, items);
  }

  lemma {:induction false} ReadTableValue(s: string, pos: nat, open: string, pairs: Pairs)
    requires IsLayout(open) && PairsOk(pairs) && At(s, pos, "{" + (open + ShownPairs(pairs))) && Skip(s, pos) == pos
    ensures ValueAt(s, pos) == Ok((Table(PairsMeant(pairs, map[])), pos + |"{" + (open + ShownPairs(pairs))|))
    decreases pairs, 6
  {
    ReadInline(s, pos, open, pairs);
  }

  lemma {:induction false} ReadIntValue(s: string, pos: nat, sign: string, digits: string)
    requires IsSign(sign) && IsDigits(digits) && At(s, pos, sign + digits)
    requires NoDigitAt(s, pos + |sign + digits|) && Skip(s, pos) == pos
    ensures ValueAt(s, pos) ==
            Ok((Int(if sign == "-" then -Decimal(digits) else Decimal(digits)), pos + |sign + digits|))
  {
    IntIsSolid(sign, digits);
    AtFirst(s, pos, sign + digits);
    ReadInt(s, pos, sign, digits);
  }

  lemma {:induction false} ReadBoolValue(s: string, pos: nat, b: bool)
    requires At(s, pos, if b then "true" else "false") && Skip(s, pos) == pos
    ensures ValueAt(s, pos) == Ok((Bool(b), pos + |if b then "true" else "false"|))
  {
    AtFirst(s, pos, if b then "true" else "false");
  }

  lemma {:induction false} ReadBasicValue(s: string, pos: nat, pieces: seq<Piece>)
    requires PiecesOk(pieces) && At(s, pos, "\"" + ShowPieces(pieces))
    requires Sees(s, pos, '"') && Skip(s, pos) == pos
    ensures ValueAt(s, pos) == Ok((Str(PiecesMeaning(pieces)), pos + |"\"" + ShowPieces(pieces)|))
  {
    AtConcat(s, pos, "\"", ShowPieces(pieces));
    ReadPieces(s, pos + 1, pieces, []);
    assert [] + PiecesMeaning(pieces) == PiecesMeaning(pieces);
  }

  lemma {:induction false} ReadLiteralValue(s: string, pos: nat, text: string)
    requires IsLiteral(text) && At(s, pos, "'" + (text + "'"))
    requires Sees(s, pos, '\'') && Skip(s, pos) == pos
    ensures ValueAt(s, pos) == Ok((Str(text), pos + |"'" + (text + "'")|))
  {
    AtConcat(s, pos, "'", text + "'");
    ReadLiteral(s, pos + 1, text, []);
    assert [] + text == text;
  }

  lemma {:induction false} ArrayStep(s: string, pos: nat, p: nat, elems: seq<Value>, end: nat)
    requires Sees(s, pos, '[') && Skip(s, pos + 1) == p && ItemsAt(s, p) == Ok((elems, end))
    ensures ArrayAt(s, pos) == Ok((elems, end))
  {
  }

  lemma {:induction false} OpenedItems(s: string, pos: nat, open: string, items: Items) returns (p: nat)
    requires IsLayout(open) && ItemsOk(items) && At(s, pos, "[" + (open + ShownItems(items)))
    ensures Sees(s, pos, '[') && Skip(s, pos + 1) == p && At(s, p, ShownItems(items))
    ensures p + |ShownItems(items)| == pos + |"[" + (open + ShownItems(items))|
  {
    ItemsAreSolid(items);
    p := pos + 1 + |open|;
    ReadOpening(s, pos, '[', open, ShownItems(items));
  }

  lemma {:induction false} ReadArray(s: string, pos: nat, open: string, items: Items)
    requires IsLayout(open) && ItemsOk(items) && At(s, pos, "[" + (open + ShownItems(items)))
    ensures Sees(s, pos, '[') && ArrayAt(s, pos) == Ok((ItemsMeant(items), pos + |"[" + (open + ShownItems(items))|))
    decreases items, 5
  {
    var p := OpenedItems(s, pos, open, items);
    var end := pos + |"[" + (open + ShownItems(items))|;
    ReadRestOfItems(s, p, items, end);
    ArrayStep(s, pos, p, ItemsMeant(items), end);
  }

  lemma {:induction false} InlineStep(s: string, pos: nat, p: nat, entries: Tree, end: nat)
    requires Sees(s, pos, '{') && Skip(s, pos + 1) == p && PairsAt(s, p, map[]) == Ok((entries, end))
    ensures InlineAt(s, pos) == Ok((entries, end))
  {
  }

  lemma {:induction false} OpenedPairs(s: string, pos: nat, open: string, pairs: Pairs) returns (p: nat)
    requires IsLayout(open) && PairsOk(pairs) && At(s, pos, "{" + (open + ShownPairs(pairs)))
    ensures Sees(s, pos, '{') && Skip(s, pos + 1) == p && At(s, p, ShownPairs(pairs))
    ensures p + |ShownPairs(pairs)| == pos + |"{" + (open + ShownPairs(pairs))|
  {
    PairsAreSolid(pairs);
    p := pos + 1 + |open|;
    ReadOpening(s, pos, '{', open, ShownPairs(pairs));
  }

  lemma {:induction false} ReadInline(s: string, pos: nat, open: string, pairs: Pairs)
    requires IsLayout(open) && PairsOk(pairs) && At(s, pos, "{" + (open + ShownPairs(pairs)))
    ensures Sees(s, pos, '{')
            && InlineAt(s, pos) == Ok((PairsMeant(pairs, map[]), pos + |"{" + (open + ShownPairs(pairs))|))
    decreases pairs, 5
  {
    var p := OpenedPairs(s, pos, open, pairs);
    var end := pos + |"{" + (open + ShownPairs(pairs))|;
    ReadRestOfPairs(s, p, pairs, map[], end);
    InlineStep(s, pos, p, PairsMeant(pairs, map[]), end);
  }

  /** A bracket or a comma, and the layout after it. */
  lemma {:induction false} ReadOpening(s: string, pos: nat, mark: char, gap: string, rest: string)
    requires At(s, pos, [mark] + (gap + rest)) && IsLayout(gap) && Solid(rest)
    ensures Sees(s, pos, mark)
    ensures Skip(s, pos + 1) == pos + 1 + |gap| && At(s, pos + 1 + |gap|, rest)
  {
    AtFirst(s, pos, [mark] + (gap + rest));
    AtConcat(s, pos, [mark], gap + rest);
    SkipTo(s, pos + 1, gap, rest);
  }

  /** Layout and then punctuation, after something that ends at `pos`. */
  lemma {:induction false} ReadMark(s: string, pos: nat, after: string, mark: char, rest: string, q: nat)
    requires IsLayout(after) && At(s, pos, after + ([mark] + rest)) && q == pos + |after|
    requires !IsSpace(mark) && mark != '#' && !IsDigit(mark)
    ensures NoDigitAt(s, pos) && Skip(s, pos) == q
    ensures Sees(s, q, mark) && At(s, q, [mark] + rest)
  {
    AfterLayout(after, mark, rest);
    AtFirst(s, pos, after + ([mark] + rest));
    SkipTo(s, pos, after, [mark] + rest);
    AtFirst(s, q, [mark] + rest);
  }

  /** A value, the layout after it, and the punctuation that follows. */
  lemma {:induction false} ReadThen(s: string, pos: nat, w: Written, after: string, mark: char, rest: string)
    returns (p: nat, q: nat)
    requires WrittenOk(w) && IsLayout(after) && At(s, pos, Shown(w) + (after + ([mark] + rest)))
    requires !IsSpace(mark) && mark != '#' && !IsDigit(mark)
    ensures p == pos + |Shown(w)| && q == p + |after| && q < |s|
    ensures ValueAt(s, pos) == Ok((Meant(w), p)) && Skip(s, p) == q
    ensures Sees(s, q, mark) && At(s, q, [mark] + rest)
    decreases w, 7
  {
    AtConcat(s, pos, Shown(w), after + ([mark] + rest));
    p := pos + |Shown(w)|;
    q := p + |after|;
    ReadMark(s, p, after, mark, rest, q);
    ReadValue(s, pos, w);
  }

  lemma {:induction false} ItemIsSolid(item: Written)
    requires WrittenOk(item)
    ensures Solid(Shown(item)) && Shown(item)[0] != ']'
  {
  }

  lemma {:induction false} PairIsSolid(a: Assignment)
    requires IsNamed(a)
    ensures Solid(ShownPair(a)) && ShownPair(a)[0] != '}' && ShownPair(a)[0] != '['
  {
  }

  lemma {:induction false} LastItemStep(s: string, pos: nat, v: Value, p: nat, q: nat)
    requires pos < |s| && s[pos] != ']' && q < |s|
    requires ValueAt(s, pos) == Ok((v, p)) && Skip(s, p) == q && Sees(s, q, ']')
    ensures ItemsAt(s, pos) == Ok(([v], q + 1))
  {
  }

  lemma {:induction false} ItemStep(s: string, pos: nat, v: Value, p: nat, q: nat, next: nat, rest: seq<Value>,
      end: nat)
    requires pos < |s| && s[pos] != ']' && q < |s| && next <= |s|
    requires ValueAt(s, pos) == Ok((v, p)) && Skip(s, p) == q && Sees(s, q, ',') && Skip(s, q + 1) == next
    requires ItemsAt(s, next) == Ok((rest, end))
    ensures ItemsAt(s, pos) == Ok(([v] + rest, end))
  {
  }

  lemma {:induction false} ReadItems(s: string, pos: nat, items: Items)
    requires ItemsOk(items) && At(s, pos, ShowItems(items))
    ensures ItemsAt(s, pos) == Ok((ItemsMeaning(items), pos + |ShowItems(items)|))
    decreases items, 2
  {
    match items
    case NoItem =>
      AtFirst(s, pos, "]");
    case LastItem(item, after) =>
      ReadLastItem(s, pos, item, after);
    case Item(item, after, gap, rest) =>
      var end := pos + |Shown(item) + (after + ("," + (gap + ShownItems(rest))))|;
      ReadItem(s, pos, item, after, gap, rest, end);
  }

  lemma {:induction false} ReadLastItem(s: string, pos: nat, item: Written, after: string)
    requires WrittenOk(item) && IsLayout(after) && At(s, pos, Shown(item) + (after + "]"))
    ensures ItemsAt(s, pos) == Ok(([Meant(item)], pos + |Shown(item) + (after + "]")|))
    decreases item, 8
  {
    ItemIsSolid(item);
    FirstOf(s, pos, Shown(item), after + "]");
    assert "]" == [']'] + "";
    var p, q := ReadThen(s, pos, item, after, ']', "");
    LastItemStep(s, pos, Meant(item), p, q);
  }

  lemma {:induction false} FirstOf(s: string, pos: nat, t: string, rest: string)
    requires At(s, pos, t + rest) && t != ""
    ensures pos < |s| && s[pos] == t[0]
  {
    AtFirst(s, pos, t + rest);
  }

  lemma {:induction false} ReadItemThen(s: string, pos: nat, item: Written, after: string, gap: string, rest: string)
    returns (p: nat, q: nat, next: nat)
    requires WrittenOk(item) && IsLayout(after) && IsLayout(gap) && Solid(rest)
    requires At(s, pos, Shown(item) + (after + ([','] + (gap + rest))))
    ensures pos < |s| && s[pos] != ']' && q < |s| && next <= |s|
    ensures ValueAt(s, pos) == Ok((Meant(item), p)) && Skip(s, p) == q
    ensures Sees(s, q, ',') && Skip(s, q + 1) == next && At(s, next, rest)
    ensures next == pos + |Shown(item)| + |after| + 1 + |gap|
    decreases item, 8
  {
    ItemIsSolid(item);
    FirstOf(s, pos, Shown(item), after + ([','] + (gap + rest)));
    p, q := ReadThen(s, pos, item, after, ',', gap + rest);
    ReadOpening(s, q, ',', gap, rest);
    next := q + 1 + |gap|;
  }

  lemma {:induction false} ReadItemAndRest(s: string, pos: nat, item: Written, after: string, gap: string, rest: Items,
      end: nat)
    returns (p: nat, q: nat, next: nat)
    requires WrittenOk(item) && IsLayout(after) && IsLayout(gap) && ItemsOk(rest)
    requires At(s, pos, Shown(item) + (after + ("," + (gap + ShownItems(rest)))))
    requires end == pos + |Shown(item) + (after + ("," + (gap + ShownItems(rest))))|
    ensures pos < |s| && s[pos] != ']' && q < |s| && next <= |s|
    ensures ValueAt(s, pos) == Ok((Meant(item), p)) && Skip(s, p) == q
    ensures Sees(s, q, ',') && Skip(s, q + 1) == next && At(s, next, ShownItems(rest))
    ensures end == next + |ShownItems(rest)|
    decreases item, 9
  {
    ItemsAreSolid(rest);
    p, q, next := ReadItemThen(s, pos, item, after, gap, ShownItems(rest));
  }

  lemma {:induction false} ReadItem(s: string, pos: nat, item: Written, after: string, gap: string, rest: Items,
      end: nat)
    requires WrittenOk(item) && IsLayout(after) && IsLayout(gap) && ItemsOk(rest)
    requires At(s, pos, Shown(item) + (after + ("," + (gap + ShownItems(rest)))))
    requires end == pos + |Shown(item) + (after + ("," + (gap + ShownItems(rest))))|
    ensures ItemsAt(s, pos) == Ok(([Meant(item)] + ItemsMeant(rest), end))
    decreases Item(item, after, gap, rest), 1
  {
    var p, q, next := ReadItemAndRest(s, pos, item, after, gap, rest, end);
    ReadRestOfItems(s, next, rest, end);
    ItemStep(s, pos, Meant(item), p, q, next, ItemsMeant(rest), end);
  }

  lemma {:induction false} ReadRestOfItems(s: string, pos: nat, items: Items, end: nat)
    requires ItemsOk(items) && At(s, pos, ShownItems(items)) && end == pos + |ShownItems(items)|
    ensures ItemsAt(s, pos) == Ok((ItemsMeant(items), end))
    decreases items, 4
  {
    ReadItems(s, pos, items);
  }

  lemma {:induction false} ReadPairs(s: string, pos: nat, pairs: Pairs, out: Tree)
    requires PairsOk(pairs) && At(s, pos, ShowPairs(pairs))
    ensures PairsAt(s, pos, out) == Ok((PairsMeaning(pairs, out), pos + |ShowPairs(pairs)|))
    decreases pairs, 2
  {
    match pairs
    case NoPair =>
      AtFirst(s, pos, "}");
    case LastPair(pair, after) =>
      ReadLastPair(s, pos, pair, after, out);
    case APair(pair, after, gap, rest) =>
      var end := pos + |ShownPair(pair) + (after + ("," + (gap + ShownPairs(rest))))|;
      ReadPair(s, pos, pair, after, gap, rest, out, end);
  }

  lemma {:induction false} ReadRestOfPairs(s: string, pos: nat, pairs: Pairs, out: Tree, end: nat)
    requires PairsOk(pairs) && At(s, pos, ShownPairs(pairs)) && end == pos + |ShownPairs(pairs)|
    ensures PairsAt(s, pos, out) == Ok((PairsMeant(pairs, out), end))
    decreases pairs, 4
  {
    ReadPairs(s, pos, pairs, out);
  }

  lemma {:induction false} LayoutBeforeValue(s: string, pos: nat, p: nat)
    requires pos <= |s| && Skip(s, pos) == p && Skip(s, p) == p
    ensures ValueAt(s, pos) == ValueAt(s, p)
  {
  }

  /** Layout and then solid text. */
  lemma {:induction false} GapSkipped(s: string, pos: nat, gap: string, t: string, p: nat)
    requires IsLayout(gap) && Solid(t) && At(s, pos, gap + t) && p == pos + |gap|
    ensures Skip(s, pos) == p && Skip(s, p) == p && At(s, p, t)
  {
    SkipTo(s, pos, gap, t);
    SkipNothing(s, p, t);
  }

  lemma {:induction false} ReadValueAfter(s: string, pos: nat, gap: string, w: Written, end: nat)
    requires IsLayout(gap) && WrittenOk(w) && At(s, pos, gap + Shown(w))
    requires end == pos + |gap| + |Shown(w)| && MayEnd(w, s, end)
    ensures ValueAt(s, pos) == Ok((Meant(w), end))
    decreases w, 7
  {
    var p := pos + |gap|;
    ItemIsSolid(w);
    GapSkipped(s, pos, gap, Shown(w), p);
    LayoutBeforeValue(s, pos, p);
    ReadValue(s, p, w);
  }

  lemma {:induction false} ReadKeyHere(s: string, pos: nat, key: string, after: string, mark: char, rest: string,
      p: nat)
    requires IsBareKey(key) && IsLayout(after) && At(s, pos, key + (after + ([mark] + rest))) && !IsKeyChar(mark)
    requires p == pos + |key|
    ensures ParseKey(s, pos) == Ok((key, p)) && At(s, p, after + ([mark] + rest))
  {
    var tail := after + ([mark] + rest);
    assert "" + (key + tail) == key + tail;
    AfterLayout(after, mark, rest);
    ReadKey(s, pos, "", key, tail, p);
  }

  /** `key =`, as far as the value. */
  lemma {:induction false} ReadKeyAndEquals(s: string, pos: nat, a: Assignment, rest: string) returns (p: nat, q: nat)
    requires IsNamed(a) && At(s, pos, a.key + (a.afterKey + (['='] + rest)))
    ensures p == pos + |a.key| && q == p + |a.afterKey| && q < |s|
    ensures ParseKey(s, pos) == Ok((a.key, p)) && Skip(s, p) == q && Sees(s, q, '=') && At(s, q + 1, rest)
  {
    p := pos + |a.key|;
    q := p + |a.afterKey|;
    ReadKeyHere(s, pos, a.key, a.afterKey, '=', rest, p);
    ReadMark(s, p, a.afterKey, '=', rest, q);
    AtConcat(s, q, ['='], rest);
  }

  lemma {:induction false} PairStep(s: string, pos: nat, key: string, p: nat, q: nat, v: Value, end: nat)
    requires pos <= |s| && ParseKey(s, pos) == Ok((key, p)) && Skip(s, p) == q && Sees(s, q, '=')
    requires ValueAt(s, q + 1) == Ok((v, end))
    ensures PairAt(s, pos) == Ok(((key, v), end))
  {
  }

  lemma {:induction false} PairParts(a: Assignment, rest: string)
    requires rest == a.before + Shown(a.value)
    ensures ShownPair(a) == a.key + (a.afterKey + (['='] + rest))
    ensures |ShownPair(a)| == |a.key| + |a.afterKey| + 1 + |a.before| + |Shown(a.value)|
  {
  }

  lemma {:induction false} ReadNamed(s: string, pos: nat, a: Assignment, rest: string, end: nat)
    returns (p: nat, q: nat)
    requires IsNamed(a) && At(s, pos, ShownPair(a)) && rest == a.before + Shown(a.value) && end == pos + |ShownPair(a)|
    ensures q < |s| && ParseKey(s, pos) == Ok((a.key, p)) && Skip(s, p) == q && Sees(s, q, '=')
    ensures At(s, q + 1, rest) && end == q + 1 + |a.before| + |Shown(a.value)|
  {
    PairParts(a, rest);
    p, q := ReadKeyAndEquals(s, pos, a, rest);
  }

  /** The value after `key =`. */
  lemma {:induction false} ReadNamedValue(s: string, pos: nat, key: string, p: nat, q: nat, gap: string, w: Written,
      end: nat)
    requires pos <= |s| && q < |s| && ParseKey(s, pos) == Ok((key, p)) && Skip(s, p) == q && Sees(s, q, '=')
    requires IsLayout(gap) && WrittenOk(w) && At(s, q + 1, gap + Shown(w))
    requires end == q + 1 + |gap| + |Shown(w)| && MayEnd(w, s, end)
    ensures PairAt(s, pos) == Ok(((key, Meant(w)), end))
    decreases w, 8
  {
    ReadValueAfter(s, q + 1, gap, w, end);
    PairStep(s, pos, key, p, q, Meant(w), end);
  }

  lemma {:induction false} ReadAssignment(s: string, pos: nat, a: Assignment)
    requires IsNamed(a) && WrittenOk(a.value)
    requires At(s, pos, ShownPair(a)) && MayEnd(a.value, s, pos + |ShownPair(a)|)
    ensures PairAt(s, pos) == Ok(((a.key, Meant(a.value)), pos + |ShownPair(a)|))
    decreases a.value, 9
  {
    var end := pos + |ShownPair(a)|;
    var p, q := ReadNamed(s, pos, a, a.before + Shown(a.value), end);
    ReadNamedValue(s, pos, a.key, p, q, a.before, a.value, end);
  }

  /** An assignment, the layout after it, and the punctuation that follows. */
  lemma {:induction false} ReadAssignmentThen(s: string, pos: nat, a: Assignment, after: string, mark: char,
      rest: string)
    returns (p: nat, q: nat)
    requires IsNamed(a) && WrittenOk(a.value) && IsLayout(after)
    requires At(s, pos, ShownPair(a) + (after + ([mark] + rest)))
    requires !IsSpace(mark) && mark != '#' && !IsDigit(mark)
    ensures pos < |s| && s[pos] != '}'
    ensures p == pos + |ShownPair(a)| && q == p + |after| && q < |s|
    ensures PairAt(s, pos) == Ok(((a.key, Meant(a.value)), p)) && Skip(s, p) == q
    ensures Sees(s, q, mark) && At(s, q, [mark] + rest)
    decreases a.value, 10
  {
    AtConcat(s, pos, ShownPair(a), after + ([mark] + rest));
    PairIsSolid(a);
    AtFirst(s, pos, ShownPair(a));
    p := pos + |ShownPair(a)|;
    q := p + |after|;
    ReadMark(s, p, after, mark, rest, q);
    ReadAssignment(s, pos, a);
  }

  lemma {:induction false} LastPairStep(s: string, pos: nat, key: string, v: Value, p: nat, q: nat, out: Tree)
    requires pos < |s| && s[pos] != '}' && q < |s|
    requires PairAt(s, pos) == Ok(((key, v), p)) && Skip(s, p) == q && Sees(s, q, '}')
    ensures PairsAt(s, pos, out) == Ok((out[key := v], q + 1))
  {
  }

  lemma {:induction false} PairsStep(s: string, pos: nat, key: string, v: Value, p: nat, q: nat, next: nat, out: Tree)
    requires pos < |s| && s[pos] != '}' && q < |s| && next <= |s|
    requires PairAt(s, pos) == Ok(((key, v), p)) && Skip(s, p) == q && Sees(s, q, ',') && Skip(s, q + 1) == next
    ensures PairsAt(s, pos, out) == PairsAt(s, next, out[key := v])
  {
  }

  lemma {:induction false} ReadLastPair(s: string, pos: nat, a: Assignment, after: string, out: Tree)
    requires IsNamed(a) && WrittenOk(a.value) && IsLayout(after) && At(s, pos, ShownPair(a) + (after + "}"))
    ensures PairsAt(s, pos, out) == Ok((out[a.key := Meant(a.value)], pos + |ShownPair(a) + (after + "}")|))
    decreases a.value, 11
  {
    assert "}" == ['}'] + "";
    var p, q := ReadAssignmentThen(s, pos, a, after, '}', "");
    LastPairStep(s, pos, a.key, Meant(a.value), p, q, out);
  }

  lemma {:induction false} ReadPairThen(s: string, pos: nat, a: Assignment, after: string, gap: string, rest: string)
    returns (p: nat, q: nat, next: nat)
    requires IsNamed(a) && WrittenOk(a.value) && IsLayout(after) && IsLayout(gap) && Solid(rest)
    requires At(s, pos, ShownPair(a) + (after + ([','] + (gap + rest))))
    ensures pos < |s| && s[pos] != '}' && q < |s| && next <= |s|
    ensures PairAt(s, pos) == Ok(((a.key, Meant(a.value)), p)) && Skip(s, p) == q
    ensures Sees(s, q, ',') && Skip(s, q + 1) == next && At(s, next, rest)
    ensures next == pos + |ShownPair(a)| + |after| + 1 + |gap|
    decreases a.value, 11
  {
    p, q := ReadAssignmentThen(s, pos, a, after, ',', gap + rest);
    ReadOpening(s, q, ',', gap, rest);
    next := q + 1 + |gap|;
  }

  lemma {:induction false} ReadPair(s: string, pos: nat, a: Assignment, after: string, gap: string, rest: Pairs,
      out: Tree, end: nat)
    requires IsNamed(a) && WrittenOk(a.value) && IsLayout(after) && IsLayout(gap) && PairsOk(rest)
    requires At(s, pos, ShownPair(a) + (after + ("," + (gap + ShownPairs(rest)))))
    requires end == pos + |ShownPair(a) + (after + ("," + (gap + ShownPairs(rest))))|
    ensures PairsAt(s, pos, out) == Ok((PairsMeant(rest, out[a.key := Meant(a.value)]), end))
    decreases APair(a, after, gap, rest), 1
  {
    PairsAreSolid(rest);
    var p, q, next := ReadPairThen(s, pos, a, after, gap, ShownPairs(rest));
    ReadRestOfPairs(s, next, rest, out[a.key := Meant(a.value)], end);
    PairsStep(s, pos, a.key, Meant(a.value), p, q, next, out);
  }

  // ----- statements -----

  lemma {:induction false} PartsThenBracket(more: seq<Part>, after: string)
    requires IsLayout(after)
    ensures var t := ShowParts(more) + (after + "]");
            if more == [] then t[0] == ']' || IsSpace(t[0]) || t[0] == '#' else t[0] == '.'
  {
  }

  /** A key after a mark, the layout before it, and what follows it. */
  lemma {:induction false} ReadKeyAfter(s: string, pos: nat, mark: char, gap: string, key: string, tail: string, p: nat)
    requires IsLayout(gap) && IsBareKey(key) && tail != "" && !IsKeyChar(tail[0])
    requires At(s, pos, [mark] + (gap + (key + tail))) && p == pos + 1 + |gap| + |key|
    ensures Sees(s, pos, mark) && ParseKey(s, pos + 1) == Ok((key, p)) && At(s, p, tail)
  {
    FirstOf(s, pos, [mark], gap + (key + tail));
    AtConcat(s, pos, [mark], gap + (key + tail));
    ReadKey(s, pos + 1, gap, key, tail, p);
  }

  /** A key of a header. */
  lemma {:induction false} ReadPart(s: string, pos: nat, mark: char, part: Part, more: seq<Part>, after: string)
    returns (p: nat)
    requires PartOk(part) && PartsOk(more) && IsLayout(after)
    requires At(s, pos, [mark] + (part.gap + (part.key + (ShowParts(more) + (after + "]")))))
    ensures Sees(s, pos, mark) && p == pos + 1 + |part.gap| + |part.key|
    ensures ParseKey(s, pos + 1) == Ok((part.key, p))
    ensures At(s, p, ShowParts(more) + (after + "]"))
  {
    PartsThenBracket(more, after);
    p := pos + 1 + |part.gap| + |part.key|;
    ReadKeyAfter(s, pos, mark, part.gap, part.key, ShowParts(more) + (after + "]"), p);
  }

  lemma {:induction false} PartStep(s: string, pos: nat, key: string, p: nat, parts: seq<string>)
    requires Sees(s, pos, '.') && ParseKey(s, pos + 1) == Ok((key, p))
    ensures PartsAt(s, pos, parts) == PartsAt(s, p, parts + [key])
  {
  }

  lemma {:induction false} ReadParts(s: string, pos: nat, more: seq<Part>, after: string, parts: seq<string>)
    requires PartsOk(more) && IsLayout(after) && At(s, pos, ShowParts(more) + (after + "]"))
    ensures PartsAt(s, pos, parts) == Ok((parts + PartKeys(more), pos + |ShowParts(more)| + |after| + 1))
    decreases |more|
  {
    if more == [] {
      ReadHeaderEnd(s, pos, after, parts);
    } else {
      ShowFirstPart(more, after + "]");
      var p := ReadPart(s, pos, '.', more[0], more[1..], after);
      ReadParts(s, p, more[1..], after, parts + [more[0].key]);
      PartStep(s, pos, more[0].key, p, parts);
      PartKeysStep(parts, more);
    }
  }

  lemma {:induction false} PartKeysStep(parts: seq<string>, more: seq<Part>)
    requires more != []
    ensures parts + PartKeys(more) == parts + [more[0].key] + PartKeys(more[1..])
  {
  }

  lemma {:induction false} ShowFirstPart(more: seq<Part>, tail: string)
    requires more != []
    ensures ShowParts(more) + tail == ['.'] + (more[0].gap + (more[0].key + (ShowParts(more[1..]) + tail)))
    ensures |ShowParts(more)| == 1 + |more[0].gap| + |more[0].key| + |ShowParts(more[1..])|
  {
    Regroup(['.'], more[0].gap, more[0].key, ShowParts(more[1..]), tail);
  }

  lemma Regroup(a: string, b: string, c: string, d: string, e: string)
    ensures a + (b + (c + d)) + e == a + (b + (c + (d + e)))
  {
  }

  lemma {:induction false} ReadHeaderEnd(s: string, pos: nat, after: string, parts: seq<string>)
    requires IsLayout(after) && At(s, pos, ShowParts([]) + (after + "]"))
    ensures PartsAt(s, pos, parts) == Ok((parts + PartKeys([]), pos + |after| + 1))
  {
    assert ShowParts([]) + (after + "]") == after + ([']'] + "");
    AfterLayout(after, ']', "");
    AtFirst(s, pos, after + ([']'] + ""));
    ReadMark(s, pos, after, ']', "", pos + |after|);
    assert parts + PartKeys([]) == parts;
  }

  function StatementAt(s: string, pos: nat): Parse<Statement>
    requires pos < |s|
  {
    ParseStatement(s, pos)
  }

  function ShownLine(line: Line): string {
    ShowLine(line)
  }

  function LineMeant(line: Line): Statement
    requires LineOk(line)
  {
    LineMeaning(line)
  }

  lemma {:induction false} ReadHeader(s: string, pos: nat, first: Part, more: seq<Part>, after: string)
    requires PartOk(first) && PartsOk(more) && IsLayout(after)
    requires At(s, pos, "[" + (first.gap + (first.key + (ShowParts(more) + (after + "]")))))
    ensures pos < |s| && StatementAt(s, pos) == Ok((Header([first.key] + PartKeys(more)),
              pos + |"[" + (first.gap + (first.key + (ShowParts(more) + (after + "]"))))|))
  {
    var p := ReadPart(s, pos, '[', first, more, after);
    ReadParts(s, p, more, after, [first.key]);
  }

  lemma {:induction false} ReadPairLine(s: string, pos: nat, pair: Assignment)
    requires IsNamed(pair) && WrittenOk(pair.value)
    requires At(s, pos, ShownPair(pair)) && MayEnd(pair.value, s, pos + |ShownPair(pair)|)
    ensures pos < |s| && StatementAt(s, pos) == Ok((Pair(pair.key, Meant(pair.value)), pos + |ShownPair(pair)|))
  {
    PairIsSolid(pair);
    AtFirst(s, pos, ShownPair(pair));
    ReadAssignment(s, pos, pair);
  }

  lemma {:induction false} LineIsSolid(line: Line)
    requires LineOk(line)
    ensures Solid(ShownLine(line))
  {
  }

  predicate LineMayEnd(line: Line, s: string, end: nat) {
    line.PairLine? ==> MayEnd(line.pair.value, s, end)
  }

  lemma {:induction false} ReadLine(s: string, pos: nat, line: Line)
    requires LineOk(line) && At(s, pos, ShownLine(line)) && LineMayEnd(line, s, pos + |ShownLine(line)|)
    ensures pos < |s| && StatementAt(s, pos) == Ok((LineMeant(line), pos + |ShownLine(line)|))
  {
    match line
    case HeaderLine(first, more, after) => ReadHeader(s, pos, first, more, after);
    case PairLine(pair) => ReadPairLine(s, pos, pair);
  }

  // ----- documents -----

  /** What `loads` returns once its loop has ended. */
  function Finish(r: Result<Doc, LoadError>): Result<Tree, LoadError> {
    match r
    case Ok(d) => Ok(d.root)
    case Err(e) => Err(e)
  }

  lemma {:induction false} FindFirstLine(s: string, pos: nat, gap: string, t: string, rest: string)
    returns (p: nat, q: nat)
    requires IsLayout(gap) && Solid(t)
    requires At(s, pos, gap + (t + rest)) && pos + |gap + (t + rest)| == |s|
    ensures Skip(s, pos) == p && p < |s| && q == p + |t| && At(s, p, t)
    ensures (StartsApart(rest) ==> NoDigitAt(s, q)) && At(s, q, rest) && q + |rest| == |s|
  {
    SkipTo(s, pos, gap, t + rest);
    p := pos + |gap|;
    q := p + |t|;
    AtConcat(s, p, t, rest);
    if rest != "" {
      AtFirst(s, q, rest);
    }
  }

  lemma {:induction false} ReadLineTo(s: string, pos: nat, line: Line, end: nat)
    requires LineOk(line) && At(s, pos, ShownLine(line)) && end == pos + |ShownLine(line)| && LineMayEnd(line, s, end)
    ensures pos < |s| && StatementAt(s, pos) == Ok((LineMeant(line), end))
  {
    ReadLine(s, pos, line);
  }

  lemma {:induction false} ReadFirstLine(s: string, pos: nat, gap: string, line: Line, t: string, rest: string)
    returns (p: nat, q: nat)
    requires IsLayout(gap) && LineOk(line) && Separate(line, rest) && t == ShownLine(line) && Solid(t)
    requires At(s, pos, gap + (t + rest)) && pos + |gap + (t + rest)| == |s|
    ensures Skip(s, pos) == p && p < |s| && StatementAt(s, p) == Ok((LineMeant(line), q))
    ensures q <= |s| && At(s, q, rest) && q + |rest| == |s|
  {
    p, q := FindFirstLine(s, pos, gap, t, rest);
    ReadLineTo(s, p, line, q);
  }

  lemma {:induction false} ReadText(s: string, pos: nat, text: Text, d: Doc)
    requires TextOk(text) && At(s, pos, ShowText(text)) && pos + |ShowText(text)| == |s|
    ensures LoadFrom(s, pos, d) == Finish(ApplyAll(d, Statements(text)))
    decreases text
  {
    match text
    case End(gap, comment) =>
      SkipToEnd(s, pos, gap, comment);
    case Lines(gap, line, rest) =>
      LineIsSolid(line);
      var p, q := ReadFirstLine(s, pos, gap, line, ShownLine(line), ShowText(rest));
      ReadRest(s, q, text, d);
  }

  lemma {:induction false} ReadRest(s: string, q: nat, text: Text, d: Doc)
    requires text.Lines? && TextOk(text) && At(s, q, ShowText(text.rest)) && q + |ShowText(text.rest)| == |s|
    ensures var next := Apply(d, LineMeaning(text.line));
            Finish(ApplyAll(d, Statements(text))) == if next.Err? then Err(next.error) else LoadFrom(s, q, next.value)
    decreases text, 0
  {
    var sts := Statements(text);
    assert sts[0] == LineMeaning(text.line) && sts[1..] == Statements(text.rest);
    var next := Apply(d, LineMeaning(text.line));
    if next.Ok? {
      ReadText(s, q, text.rest, next.value);
    }
  }

  /** `loads` does to a written text what folding its statements does: layout and spelling are immaterial. */
  lemma {:induction false} LoadsWritten(text: Text)
    requires TextOk(text)
    ensures Loads(ShowText(text)) == Finish(ApplyAll(EMPTY, Statements(text)))
  {
    ReadText(ShowText(text), 0, text, EMPTY);
  }
}
