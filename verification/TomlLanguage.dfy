/**
  The accepted language: everything the parser accepts is a written text, and it is read as what
  that text means. Together with `TomlReading` this leaves no text undecided.
*/
module TomlLanguage {
  import opened Decimals
  import opened Wrappers
  import opened TomlSpec
  import opened TomlText
  import opened TomlReading

  /** The text from `pos` to `end`. */
  predicate Spans(s: string, pos: nat, end: nat, t: string) {
    pos <= end <= |s| && s[pos..end] == t
  }

  lemma SpansThen(s: string, a: nat, b: nat, c: nat, t: string, u: string)
    requires Spans(s, a, b, t) && Spans(s, b, c, u)
    ensures Spans(s, a, c, t + u)
  {
    assert s[a..c] == s[a..b] + s[b..c];
  }

  lemma SpansOne(s: string, pos: nat, mark: char)
    requires Sees(s, pos, mark)
    ensures Spans(s, pos, pos + 1, [mark])
  {
  }

  // ----- layout -----

  lemma {:induction false} SkippedLayout(s: string, pos: nat)
    requires pos <= |s| && Skip(s, pos) < |s|
    ensures IsLayout(s[pos..Skip(s, pos)])
    decreases |s| - pos, 1
  {
    var p := Skip(s, pos);
    if pos < p {
      assert s[pos..p][1..] == s[pos + 1..p];
      if s[pos] == '#' {
        SkippedComment(s, pos + 1);
      } else {
        SkippedLayout(s, pos + 1);
      }
    }
  }

  lemma {:induction false} SkippedComment(s: string, pos: nat)
    requires pos <= |s| && Skip(s, CommentEnd(s, pos)) < |s|
    ensures IsComment(s[pos..Skip(s, CommentEnd(s, pos))])
    decreases |s| - pos, 0
  {
    var p := Skip(s, CommentEnd(s, pos));
    assert pos < p;
    assert s[pos..p][1..] == s[pos + 1..p];
    if s[pos] == '\n' {
      SkippedLayout(s, pos + 1);
    } else {
      SkippedComment(s, pos + 1);
    }
  }

  lemma {:induction false} NoNewlineBefore(s: string, pos: nat)
    requires pos <= |s|
    ensures forall i :: pos <= i < CommentEnd(s, pos) ==> s[i] != '\n'
    ensures CommentEnd(s, pos) < |s| ==> s[CommentEnd(s, pos)] == '\n'
    decreases |s| - pos
  {
    if pos < |s| && s[pos] != '\n' {
      NoNewlineBefore(s, pos + 1);
    }
  }

  /** Layout and, if the text ends in a comment, that comment. */
  lemma {:induction false} SkippedToEnd(s: string, pos: nat) returns (gap: string, comment: string)
    requires pos <= |s| && Skip(s, pos) == |s|
    ensures s[pos..] == gap + comment && IsLayout(gap) && IsLastComment(comment)
    decreases |s| - pos, 1
  {
    if pos == |s| {
      gap, comment := "", "";
    } else if s[pos] == '#' {
      if CommentEnd(s, pos + 1) == |s| {
        NoNewlineBefore(s, pos + 1);
        gap, comment := "", s[pos..];
      } else {
        var tail;
        tail, comment := CommentToEnd(s, pos + 1);
        gap := [s[pos]] + tail;
        assert s[pos..] == [s[pos]] + s[pos + 1..];
      }
    } else {
      var tail;
      tail, comment := SkippedToEnd(s, pos + 1);
      gap := [s[pos]] + tail;
      assert s[pos..] == [s[pos]] + s[pos + 1..];
    }
  }

  lemma {:induction false} CommentToEnd(s: string, pos: nat) returns (gap: string, comment: string)
    requires pos <= |s| && CommentEnd(s, pos) < |s| && Skip(s, CommentEnd(s, pos)) == |s|
    ensures s[pos..] == gap + comment && IsComment(gap) && IsLastComment(comment)
    decreases |s| - pos, 0
  {
    var tail;
    if s[pos] == '\n' {
      tail, comment := SkippedToEnd(s, pos + 1);
    } else {
      tail, comment := CommentToEnd(s, pos + 1);
    }
    gap := [s[pos]] + tail;
    assert s[pos..] == [s[pos]] + s[pos + 1..];
  }

  lemma SkipStays(s: string, pos: nat)
    requires pos <= |s|
    ensures Skip(s, Skip(s, pos)) == Skip(s, pos)
  {
  }

  // ----- strings, numbers and keys -----

  lemma {:induction false} FoundPieces(s: string, pos: nat, out: string) returns (ps: seq<Piece>)
    requires pos <= |s| && BasicTail(s, pos, out).Ok?
    ensures var (t, end) := BasicTail(s, pos, out).value;
            PiecesOk(ps) && Spans(s, pos, end, ShowPieces(ps)) && t == out + PiecesMeaning(ps)
    decreases |s| - pos
  {
    if s[pos] == '"' {
      ps := [];
      assert out + [] == out;
    } else {
      var p := if s[pos] == '\\' then Escaped(s[pos + 1]) else Plain(s[pos]);
      var next := pos + |ShowPiece(p)|;
      var rest := FoundPieces(s, next, out + [PieceMeaning(p)]);
      ps := [p] + rest;
      assert ps[1..] == rest;
      SpansThen(s, pos, next, BasicTail(s, pos, out).value.1, ShowPiece(p), ShowPieces(rest));
      PiecesMeaningStep(out, ps);
    }
  }

  lemma {:induction false} FoundLiteral(s: string, pos: nat, out: string) returns (text: string)
    requires pos <= |s| && LiteralTail(s, pos, out).Ok?
    ensures var (t, end) := LiteralTail(s, pos, out).value;
            IsLiteral(text) && Spans(s, pos, end, text + "'") && t == out + text
    decreases |s| - pos
  {
    if s[pos] == '\'' {
      text := "";
      assert out + text == out;
    } else {
      var rest := FoundLiteral(s, pos + 1, out + [s[pos]]);
      text := [s[pos]] + rest;
      var end := LiteralTail(s, pos, out).value.1;
      assert s[pos..end] == [s[pos]] + s[pos + 1..end];
      assert text + "'" == [s[pos]] + (rest + "'");
      assert out + [s[pos]] + rest == out + text;
    }
  }

  lemma {:induction false} DigitsFound(s: string, pos: nat)
    requires pos <= |s|
    ensures AllDigits(s[pos..DigitsEnd(s, pos)]) && NoDigitAt(s, DigitsEnd(s, pos))
    decreases |s| - pos
  {
    if pos < |s| && IsDigit(s[pos]) {
      DigitsFound(s, pos + 1);
      assert s[pos..DigitsEnd(s, pos)] == [s[pos]] + s[pos + 1..DigitsEnd(s, pos)];
    }
  }

  lemma {:induction false} FoundInt(s: string, pos: nat) returns (sign: string, digits: string)
    requires pos <= |s| && ParseInt(s, pos).Ok?
    ensures var (n, end) := ParseInt(s, pos).value;
            IsSign(sign) && IsDigits(digits) && Spans(s, pos, end, sign + digits) && NoDigitAt(s, end)
            && n == if sign == "-" then -Decimal(digits) else Decimal(digits)
  {
    var start := if Sees(s, pos, '-') || Sees(s, pos, '+') then pos + 1 else pos;
    var end := DigitsEnd(s, start);
    DigitsFound(s, start);
    sign, digits := s[pos..start], s[start..end];
    SpansThen(s, pos, start, end, sign, digits);
  }

  lemma {:induction false} KeyFound(s: string, pos: nat)
    requires pos <= |s|
    ensures forall i :: pos <= i < KeyEnd(s, pos) ==> IsKeyChar(s[i])
    decreases |s| - pos
  {
    if pos < |s| && IsKeyChar(s[pos]) {
      KeyFound(s, pos + 1);
    }
  }

  lemma {:induction false} FoundKey(s: string, pos: nat) returns (gap: string)
    requires pos <= |s| && ParseKey(s, pos).Ok?
    ensures var (key, end) := ParseKey(s, pos).value;
            IsLayout(gap) && IsBareKey(key) && Spans(s, pos, end, gap + key) && (Skip(s, pos) == pos ==> gap == "")
  {
    var p := Skip(s, pos);
    gap := s[pos..p];
    KeyFound(s, p);
    SkippedLayout(s, pos);
    var (key, end) := ParseKey(s, pos).value;
    SpansThen(s, pos, p, end, gap, key);
  }

  // ----- values -----

  /** A written value, from where it begins to where it ends. */
  predicate IsWritten(s: string, pos: nat, end: nat, w: Written, v: Value) {
    WrittenOk(w) && Spans(s, pos, end, Shown(w)) && Meant(w) == v && MayEnd(w, s, end)
  }

  lemma {:induction false} FoundBasic(s: string, pos: nat) returns (w: Written)
    requires Sees(s, pos, '"') && Skip(s, pos) == pos && ValueAt(s, pos).Ok?
    ensures IsWritten(s, pos, ValueAt(s, pos).value.1, w, ValueAt(s, pos).value.0)
  {
    var ps := FoundPieces(s, pos + 1, []);
    w := WrittenBasic(ps);
    SpansThen(s, pos, pos + 1, ValueAt(s, pos).value.1, "\"", ShowPieces(ps));
    assert [] + PiecesMeaning(ps) == PiecesMeaning(ps);
  }

  lemma {:induction false} FoundQuoted(s: string, pos: nat) returns (w: Written)
    requires Sees(s, pos, '\'') && Skip(s, pos) == pos && ValueAt(s, pos).Ok?
    ensures IsWritten(s, pos, ValueAt(s, pos).value.1, w, ValueAt(s, pos).value.0)
  {
    var text := FoundLiteral(s, pos + 1, []);
    w := WrittenLiteral(text);
    SpansThen(s, pos, pos + 1, ValueAt(s, pos).value.1, "'", text + "'");
    assert [] + text == text;
  }

  lemma {:induction false} FoundBool(s: string, pos: nat) returns (w: Written)
    requires (Sees(s, pos, 't') || Sees(s, pos, 'f')) && Skip(s, pos) == pos && ValueAt(s, pos).Ok?
    ensures IsWritten(s, pos, ValueAt(s, pos).value.1, w, ValueAt(s, pos).value.0)
  {
    w := WrittenBool(ParseBool(s, pos).value.0);
  }

  lemma {:induction false} FoundNumber(s: string, pos: nat) returns (w: Written)
    requires (Sees(s, pos, '-') || Sees(s, pos, '+') || (pos < |s| && IsDigit(s[pos])))
    requires Skip(s, pos) == pos && ValueAt(s, pos).Ok?
    ensures IsWritten(s, pos, ValueAt(s, pos).value.1, w, ValueAt(s, pos).value.0)
  {
    var sign, digits := FoundInt(s, pos);
    w := WrittenInt(sign, digits);
  }

  /** What a successful parse found, if no layout stands before it. */
  lemma {:induction false} FoundHere(s: string, pos: nat) returns (w: Written)
    requires pos <= |s| && Skip(s, pos) == pos && ValueAt(s, pos).Ok?
    ensures IsWritten(s, pos, ValueAt(s, pos).value.1, w, ValueAt(s, pos).value.0)
    decreases |s| - pos, 3
  {
    if Sees(s, pos, '"') {
      w := FoundBasic(s, pos);
    } else if Sees(s, pos, '\'') {
      w := FoundQuoted(s, pos);
    } else if Sees(s, pos, '[') {
      w := FoundArray(s, pos);
    } else if Sees(s, pos, '{') {
      w := FoundTable(s, pos);
    } else if Sees(s, pos, 't') || Sees(s, pos, 'f') {
      w := FoundBool(s, pos);
    } else {
      w := FoundNumber(s, pos);
    }
  }

  lemma {:induction false} FoundArray(s: string, pos: nat) returns (w: Written)
    requires Sees(s, pos, '[') && Skip(s, pos) == pos && ValueAt(s, pos).Ok?
    ensures IsWritten(s, pos, ValueAt(s, pos).value.1, w, ValueAt(s, pos).value.0)
    decreases |s| - pos, 2
  {
    var elems, end := ArrayParts(s, pos);
    var p := Skip(s, pos + 1);
    ItemsNotAtEnd(s, p);
    SkippedLayout(s, pos + 1);
    SkipStays(s, pos + 1);
    var items := FoundItems(s, p);
    var open := s[pos + 1..p];
    w := WrittenArray(open, items);
    SpansThen(s, pos + 1, p, end, open, ShownItems(items));
    SpansOne(s, pos, '[');
    SpansThen(s, pos, pos + 1, end, "[", open + ShownItems(items));
  }

  lemma {:induction false} ArrayParts(s: string, pos: nat) returns (elems: seq<Value>, end: nat)
    requires Sees(s, pos, '[') && Skip(s, pos) == pos && ValueAt(s, pos).Ok?
    ensures ItemsAt(s, Skip(s, pos + 1)) == Ok((elems, end)) && ValueAt(s, pos) == Ok((Array(elems), end))
  {
    var (x, e) := ArrayAt(s, pos).value;
    elems, end := x, e;
  }

  lemma {:induction false} ItemsNotAtEnd(s: string, pos: nat)
    requires pos <= |s| && ItemsAt(s, pos).Ok?
    ensures pos < |s|
  {
  }

  lemma {:induction false} FoundItems(s: string, pos: nat) returns (items: Items)
    requires pos <= |s| && Skip(s, pos) == pos && ItemsAt(s, pos).Ok?
    ensures var (elems, end) := ItemsAt(s, pos).value;
            ItemsOk(items) && Spans(s, pos, end, ShownItems(items)) && ItemsMeant(items) == elems
    decreases |s| - pos, 4
  {
    if Sees(s, pos, ']') {
      items := NoItem;
    } else {
      var v, p := FirstValue(s, pos);
      var w := FoundHere(s, pos);
      var q := Skip(s, p);
      SkippedLayout(s, p);
      if Sees(s, q, ',') {
        items := FoundMoreItems(s, pos, v, p, q, w);
      } else {
        LastItemEnds(s, pos, v, p, q);
        items := LastItem(w, s[p..q]);
        LastSpans(s, pos, p, q, Shown(w), ']');
      }
    }
  }

  lemma {:induction false} FoundMoreItems(s: string, pos: nat, v: Value, p: nat, q: nat, w: Written)
    returns (items: Items)
    requires pos < p <= q && Sees(s, q, ',') && !Sees(s, pos, ']') && Skip(s, p) == q && IsLayout(s[p..q])
    requires ValueAt(s, pos) == Ok((v, p)) && IsWritten(s, pos, p, w, v) && ItemsAt(s, pos).Ok?
    ensures var (elems, end) := ItemsAt(s, pos).value;
            ItemsOk(items) && Spans(s, pos, end, ShownItems(items)) && ItemsMeant(items) == elems
    decreases |s| - pos, 0
  {
    var next := Skip(s, q + 1);
    var rest, end := MoreItems(s, pos, v, p, q);
    SkipStays(s, q + 1);
    SkippedLayout(s, q + 1);
    var tail := FoundItems(s, next);
    items := JoinItems(s, pos, p, q, next, end, w, v, tail, rest);
  }

  lemma {:induction false} JoinItems(s: string, pos: nat, p: nat, q: nat, next: nat, end: nat, w: Written, v: Value,
      tail: Items, rest: seq<Value>) returns (items: Items)
    requires p <= q < next <= |s| && Sees(s, q, ',') && IsLayout(s[p..q]) && IsLayout(s[q + 1..next])
    requires IsWritten(s, pos, p, w, v)
    requires ItemsOk(tail) && Spans(s, next, end, ShownItems(tail)) && ItemsMeant(tail) == rest
    ensures ItemsOk(items) && Spans(s, pos, end, ShownItems(items)) && ItemsMeant(items) == [v] + rest
  {
    items := Item(w, s[p..q], s[q + 1..next], tail);
    ItemSpans(s, pos, p, q, next, end, Shown(w), ',', ShownItems(tail));
  }

  lemma {:induction false} FirstValue(s: string, pos: nat) returns (v: Value, p: nat)
    requires pos <= |s| && !Sees(s, pos, ']') && ItemsAt(s, pos).Ok?
    ensures ValueAt(s, pos) == Ok((v, p)) && pos < p <= |s| && Skip(s, p) < |s|
  {
    var (x, e) := ValueAt(s, pos).value;
    v, p := x, e;
  }

  lemma {:induction false} MoreItems(s: string, pos: nat, v: Value, p: nat, q: nat) returns (rest: seq<Value>, end: nat)
    requires pos <= |s| && !Sees(s, pos, ']') && ItemsAt(s, pos).Ok?
    requires ValueAt(s, pos) == Ok((v, p)) && p <= |s| && Skip(s, p) == q && Sees(s, q, ',')
    ensures ItemsAt(s, Skip(s, q + 1)) == Ok((rest, end)) && ItemsAt(s, pos) == Ok(([v] + rest, end))
    ensures Skip(s, q + 1) < |s|
  {
    var (x, e) := ItemsAt(s, Skip(s, q + 1)).value;
    rest, end := x, e;
    ItemsNotAtEnd(s, Skip(s, q + 1));
  }

  lemma {:induction false} LastItemEnds(s: string, pos: nat, v: Value, p: nat, q: nat)
    requires pos <= |s| && !Sees(s, pos, ']') && ItemsAt(s, pos).Ok?
    requires ValueAt(s, pos) == Ok((v, p)) && p <= |s| && Skip(s, p) == q && !Sees(s, q, ',')
    ensures Sees(s, q, ']') && ItemsAt(s, pos) == Ok(([v], q + 1))
  {
  }

  /** A part, layout, punctuation, layout, and the rest. */
  lemma {:induction false} ItemSpans(s: string, pos: nat, p: nat, q: nat, next: nat, end: nat, t: string, mark: char,
      rest: string)
    requires Spans(s, pos, p, t) && p <= q < next && Sees(s, q, mark) && Spans(s, next, end, rest)
    ensures Spans(s, pos, end, t + (s[p..q] + ([mark] + (s[q + 1..next] + rest))))
  {
    SpansThen(s, q + 1, next, end, s[q + 1..next], rest);
    SpansOne(s, q, mark);
    SpansThen(s, q, q + 1, end, [mark], s[q + 1..next] + rest);
    SpansThen(s, p, q, end, s[p..q], [mark] + (s[q + 1..next] + rest));
    SpansThen(s, pos, p, end, t, s[p..q] + ([mark] + (s[q + 1..next] + rest)));
  }

  lemma {:induction false} LastSpans(s: string, pos: nat, p: nat, q: nat, t: string, mark: char)
    requires Spans(s, pos, p, t) && p <= q && Sees(s, q, mark)
    ensures Spans(s, pos, q + 1, t + (s[p..q] + [mark]))
  {
    SpansOne(s, q, mark);
    SpansThen(s, p, q, q + 1, s[p..q], [mark]);
    SpansThen(s, pos, p, q + 1, t, s[p..q] + [mark]);
  }

  // ----- inline tables -----

  lemma {:induction false} FoundTable(s: string, pos: nat) returns (w: Written)
    requires Sees(s, pos, '{') && Skip(s, pos) == pos && ValueAt(s, pos).Ok?
    ensures IsWritten(s, pos, ValueAt(s, pos).value.1, w, ValueAt(s, pos).value.0)
    decreases |s| - pos, 2
  {
    var entries, end := TableParts(s, pos);
    var p := Skip(s, pos + 1);
    PairsNotAtEnd(s, p, map[]);
    SkippedLayout(s, pos + 1);
    SkipStays(s, pos + 1);
    var pairs := FoundPairs(s, p, map[]);
    var open := s[pos + 1..p];
    w := WrittenTable(open, pairs);
    SpansThen(s, pos + 1, p, end, open, ShownPairs(pairs));
    SpansOne(s, pos, '{');
    SpansThen(s, pos, pos + 1, end, "{", open + ShownPairs(pairs));
  }

  lemma {:induction false} TableParts(s: string, pos: nat) returns (entries: Tree, end: nat)
    requires Sees(s, pos, '{') && Skip(s, pos) == pos && ValueAt(s, pos).Ok?
    ensures PairsAt(s, Skip(s, pos + 1), map[]) == Ok((entries, end)) && ValueAt(s, pos) == Ok((Table(entries), end))
  {
    var (x, e) := InlineAt(s, pos).value;
    entries, end := x, e;
  }

  lemma {:induction false} PairsNotAtEnd(s: string, pos: nat, out: Tree)
    requires pos <= |s| && PairsAt(s, pos, out).Ok?
    ensures pos < |s|
  {
  }

  /** An assignment, from its key to the end of its value. */
  predicate IsPair(s: string, pos: nat, end: nat, a: Assignment, key: string, v: Value) {
    && a.key == key && IsNamed(a) && WrittenOk(a.value) && Meant(a.value) == v
    && Spans(s, pos, end, ShownPair(a)) && MayEnd(a.value, s, end)
  }

  lemma {:induction false} FoundPair(s: string, pos: nat) returns (a: Assignment)
    requires pos <= |s| && Skip(s, pos) == pos && PairAt(s, pos).Ok?
    ensures var (kv, end) := PairAt(s, pos).value; IsPair(s, pos, end, a, kv.0, kv.1)
    decreases |s| - pos, 4
  {
    var key, p, v, end := PairParsed(s, pos);
    var q := Skip(s, p);
    var gap := FoundKey(s, pos);
    SkippedLayout(s, p);
    var start := Skip(s, q + 1);
    ValueNotAtEnd(s, q + 1);
    SkippedLayout(s, q + 1);
    SkipStays(s, q + 1);
    LayoutBeforeValue(s, q + 1, start);
    var w := FoundHere(s, start);
    a := Assignment(key, s[p..q], s[q + 1..start], w);
    assert gap + key == key;
    ItemSpans(s, pos, p, q, start, end, key, '=', Shown(w));
  }

  lemma {:induction false} PairParsed(s: string, pos: nat) returns (key: string, p: nat, v: Value, end: nat)
    requires pos <= |s| && PairAt(s, pos).Ok?
    ensures ParseKey(s, pos) == Ok((key, p)) && pos < p <= |s| && Sees(s, Skip(s, p), '=')
    ensures ValueAt(s, Skip(s, p) + 1) == Ok((v, end)) && PairAt(s, pos) == Ok(((key, v), end))
  {
    var (k, e) := ParseKey(s, pos).value;
    key, p := k, e;
    var (x, f) := ValueAt(s, Skip(s, p) + 1).value;
    v, end := x, f;
  }

  lemma {:induction false} ValueNotAtEnd(s: string, pos: nat)
    requires pos <= |s| && ValueAt(s, pos).Ok?
    ensures Skip(s, pos) < |s|
  {
  }

  lemma {:induction false} FoundPairs(s: string, pos: nat, out: Tree) returns (pairs: Pairs)
    requires pos <= |s| && Skip(s, pos) == pos && PairsAt(s, pos, out).Ok?
    ensures var (entries, end) := PairsAt(s, pos, out).value;
            PairsOk(pairs) && Spans(s, pos, end, ShownPairs(pairs)) && PairsMeant(pairs, out) == entries
    decreases |s| - pos, 5
  {
    if Sees(s, pos, '}') {
      pairs := NoPair;
    } else {
      var key, v, p := FirstPair(s, pos, out);
      var a := FoundPair(s, pos);
      var q := Skip(s, p);
      SkippedLayout(s, p);
      if Sees(s, q, ',') {
        pairs := FoundMorePairs(s, pos, out, key, v, p, q, a);
      } else {
        LastPairEnds(s, pos, out, key, v, p, q);
        pairs := LastPair(a, s[p..q]);
        LastSpans(s, pos, p, q, ShownPair(a), '}');
      }
    }
  }

  lemma {:induction false} FoundMorePairs(s: string, pos: nat, out: Tree, key: string, v: Value, p: nat, q: nat,
      a: Assignment) returns (pairs: Pairs)
    requires pos < p <= q && Sees(s, q, ',') && !Sees(s, pos, '}') && Skip(s, p) == q && IsLayout(s[p..q])
    requires PairAt(s, pos) == Ok(((key, v), p)) && IsPair(s, pos, p, a, key, v) && PairsAt(s, pos, out).Ok?
    ensures var (entries, end) := PairsAt(s, pos, out).value;
            PairsOk(pairs) && Spans(s, pos, end, ShownPairs(pairs)) && PairsMeant(pairs, out) == entries
    decreases |s| - pos, 0
  {
    var next := Skip(s, q + 1);
    var end := MorePairs(s, pos, out, key, v, p, q);
    SkipStays(s, q + 1);
    SkippedLayout(s, q + 1);
    var tail := FoundPairs(s, next, out[key := v]);
    pairs := JoinPairs(s, pos, p, q, next, end, a, key, v, tail, out);
  }

  lemma {:induction false} JoinPairs(s: string, pos: nat, p: nat, q: nat, next: nat, end: nat, a: Assignment,
      key: string, v: Value, tail: Pairs, out: Tree) returns (pairs: Pairs)
    requires p <= q < next <= |s| && Sees(s, q, ',') && IsLayout(s[p..q]) && IsLayout(s[q + 1..next])
    requires IsPair(s, pos, p, a, key, v) && PairsOk(tail) && Spans(s, next, end, ShownPairs(tail))
    ensures PairsOk(pairs) && Spans(s, pos, end, ShownPairs(pairs))
    ensures PairsMeant(pairs, out) == PairsMeant(tail, out[key := v])
  {
    pairs := APair(a, s[p..q], s[q + 1..next], tail);
    ItemSpans(s, pos, p, q, next, end, ShownPair(a), ',', ShownPairs(tail));
  }

  lemma {:induction false} FirstPair(s: string, pos: nat, out: Tree) returns (key: string, v: Value, p: nat)
    requires pos <= |s| && !Sees(s, pos, '}') && PairsAt(s, pos, out).Ok?
    ensures PairAt(s, pos) == Ok(((key, v), p)) && pos < p <= |s| && Skip(s, p) < |s|
  {
    var (kv, e) := PairAt(s, pos).value;
    key, v, p := kv.0, kv.1, e;
  }

  lemma {:induction false} MorePairs(s: string, pos: nat, out: Tree, key: string, v: Value, p: nat, q: nat)
    returns (end: nat)
    requires pos <= |s| && !Sees(s, pos, '}') && PairsAt(s, pos, out).Ok?
    requires PairAt(s, pos) == Ok(((key, v), p)) && p <= |s| && Skip(s, p) == q && Sees(s, q, ',')
    ensures PairsAt(s, pos, out) == PairsAt(s, Skip(s, q + 1), out[key := v]) && Skip(s, q + 1) < |s|
    ensures PairsAt(s, pos, out).value.1 == end
  {
    PairsNotAtEnd(s, Skip(s, q + 1), out[key := v]);
    end := PairsAt(s, pos, out).value.1;
  }

  lemma {:induction false} LastPairEnds(s: string, pos: nat, out: Tree, key: string, v: Value, p: nat, q: nat)
    requires pos <= |s| && !Sees(s, pos, '}') && PairsAt(s, pos, out).Ok?
    requires PairAt(s, pos) == Ok(((key, v), p)) && p <= |s| && Skip(s, p) == q && !Sees(s, q, ',')
    ensures Sees(s, q, '}') && PairsAt(s, pos, out) == Ok((out[key := v], q + 1))
  {
  }

  // ----- lines -----

  lemma {:induction false} FoundParts(s: string, pos: nat, parts: seq<string>) returns (more: seq<Part>, after: string)
    requires pos <= |s| && PartsAt(s, pos, parts).Ok?
    ensures var (path, end) := PartsAt(s, pos, parts).value;
            PartsOk(more) && IsLayout(after) && path == parts + PartKeys(more)
            && Spans(s, pos, end, ShowParts(more) + (after + "]"))
    decreases |s| - pos
  {
    if Sees(s, pos, '.') {
      more, after := FoundPart(s, pos, parts);
    } else {
      var q := Skip(s, pos);
      more, after := [], s[pos..q];
      SkippedLayout(s, pos);
      SpansOne(s, q, ']');
      SpansThen(s, pos, q, q + 1, after, "]");
      assert ShowParts([]) + (after + "]") == after + "]";
      assert parts + PartKeys([]) == parts;
    }
  }

  lemma {:induction false} FoundPart(s: string, pos: nat, parts: seq<string>) returns (more: seq<Part>, after: string)
    requires Sees(s, pos, '.') && PartsAt(s, pos, parts).Ok?
    ensures var (path, end) := PartsAt(s, pos, parts).value;
            PartsOk(more) && IsLayout(after) && path == parts + PartKeys(more)
            && Spans(s, pos, end, ShowParts(more) + (after + "]"))
    decreases |s| - pos, 0
  {
    var (key, p) := ParseKey(s, pos + 1).value;
    var gap := FoundKey(s, pos + 1);
    var rest;
    rest, after := FoundParts(s, p, parts + [key]);
    more := [Part(gap, key)] + rest;
    var end := PartsAt(s, pos, parts).value.1;
    assert more[1..] == rest;
    assert parts + [key] + PartKeys(rest) == parts + PartKeys(more);
    SpansOne(s, pos, '.');
    PartSpans(s, pos, p, end, gap, key, ShowParts(rest), after + "]");
  }

  lemma {:induction false} PartSpans(s: string, pos: nat, p: nat, end: nat, gap: string, key: string, rest: string,
      tail: string)
    requires Spans(s, pos, pos + 1, ".") && Spans(s, pos + 1, p, gap + key) && Spans(s, p, end, rest + tail)
    ensures Spans(s, pos, end, "." + (gap + (key + rest)) + tail)
  {
    SpansThen(s, pos + 1, p, end, gap + key, rest + tail);
    SpansThen(s, pos, pos + 1, end, ".", gap + key + (rest + tail));
    assert "." + (gap + key + (rest + tail)) == "." + (gap + (key + rest)) + tail;
  }

  /** A written line, from where it begins to where it ends. */
  predicate IsLine(s: string, pos: nat, end: nat, line: Line, st: Statement) {
    LineOk(line) && Spans(s, pos, end, ShownLine(line)) && LineMeant(line) == st && LineMayEnd(line, s, end)
  }

  lemma {:induction false} FoundHeader(s: string, pos: nat) returns (line: Line)
    requires Sees(s, pos, '[') && StatementAt(s, pos).Ok?
    ensures IsLine(s, pos, StatementAt(s, pos).value.1, line, StatementAt(s, pos).value.0)
  {
    var (key, p) := ParseKey(s, pos + 1).value;
    var end := StatementAt(s, pos).value.1;
    var gap := FoundKey(s, pos + 1);
    var more, after := FoundParts(s, p, [key]);
    line := HeaderLine(Part(gap, key), more, after);
    SpansOne(s, pos, '[');
    HeaderSpans(s, pos, p, end, gap, key, ShowParts(more) + (after + "]"));
  }

  lemma {:induction false} HeaderSpans(s: string, pos: nat, p: nat, end: nat, gap: string, key: string, rest: string)
    requires Spans(s, pos, pos + 1, "[") && Spans(s, pos + 1, p, gap + key) && Spans(s, p, end, rest)
    ensures Spans(s, pos, end, "[" + (gap + (key + rest)))
  {
    SpansThen(s, pos + 1, p, end, gap + key, rest);
    SpansThen(s, pos, pos + 1, end, "[", gap + key + rest);
    assert gap + key + rest == gap + (key + rest);
  }

  lemma {:induction false} FoundLine(s: string, pos: nat) returns (line: Line)
    requires pos < |s| && Skip(s, pos) == pos && StatementAt(s, pos).Ok?
    ensures IsLine(s, pos, StatementAt(s, pos).value.1, line, StatementAt(s, pos).value.0)
  {
    if s[pos] == '[' {
      line := FoundHeader(s, pos);
    } else {
      var a := FoundPair(s, pos);
      line := PairLine(a);
    }
  }

  // ----- documents -----

  lemma {:induction false} FoundText(s: string, pos: nat, d: Doc) returns (text: Text)
    requires pos <= |s| && LoadAt(s, pos, d).Ok?
    ensures TextOk(text) && Spans(s, pos, |s|, ShowText(text)) && ApplyAll(d, Statements(text)).Ok?
    ensures LoadAt(s, pos, d).value == ApplyAll(d, Statements(text)).value.root
    decreases |s| - pos
  {
    var p := Skip(s, pos);
    if p == |s| {
      var gap, comment := SkippedToEnd(s, pos);
      text := End(gap, comment);
      assert s[pos..|s|] == s[pos..];
    } else {
      SkippedLayout(s, pos);
      SkipStays(s, pos);
      var st, q, next := FirstStatement(s, pos, d, p);
      var line := FoundLine(s, p);
      var rest := FoundText(s, q, next);
      text := Lines(s[pos..p], line, rest);
      LineThenText(s, pos, p, q, line, st, rest);
      StatementsStep(d, st, next, Statements(rest));
    }
  }

  lemma {:induction false} LineThenText(s: string, pos: nat, p: nat, q: nat, line: Line, st: Statement, rest: Text)
    requires pos <= p <= |s| && IsLayout(s[pos..p]) && IsLine(s, p, q, line, st)
    requires TextOk(rest) && Spans(s, q, |s|, ShowText(rest))
    ensures var text := Lines(s[pos..p], line, rest);
            TextOk(text) && Spans(s, pos, |s|, ShowText(text)) && Statements(text) == [st] + Statements(rest)
  {
    NextStands(s, q, ShowText(rest));
    SpansThen(s, p, q, |s|, ShownLine(line), ShowText(rest));
    SpansThen(s, pos, p, |s|, s[pos..p], ShownLine(line) + ShowText(rest));
  }

  lemma {:induction false} FirstStatement(s: string, pos: nat, d: Doc, p: nat)
    returns (st: Statement, q: nat, next: Doc)
    requires pos <= |s| && Skip(s, pos) == p < |s| && LoadAt(s, pos, d).Ok?
    ensures StatementAt(s, p) == Ok((st, q)) && p < q <= |s| && Apply(d, st) == Ok(next)
    ensures LoadAt(s, pos, d) == LoadAt(s, q, next)
  {
    var (x, e) := StatementAt(s, p).value;
    st, q := x, e;
    next := Apply(d, st).value;
  }

  lemma NextStands(s: string, q: nat, rest: string)
    requires Spans(s, q, |s|, rest)
    ensures NoDigitAt(s, q) ==> StartsApart(rest)
  {
  }

  lemma {:induction false} StatementsStep(d: Doc, st: Statement, next: Doc, rest: seq<Statement>)
    requires Apply(d, st) == Ok(next)
    ensures ApplyAll(d, [st] + rest) == ApplyAll(next, rest)
  {
    assert ([st] + rest)[1..] == rest;
  }

  /** Every text that loads is a written text, and loads as the fold of its statements. */
  lemma {:induction false} LoadsFound(s: string) returns (text: Text)
    requires Loads(s).Ok?
    ensures TextOk(text) && ShowText(text) == s
    ensures Loads(s) == Finish(ApplyAll(EMPTY, Statements(text)))
  {
    text := FoundText(s, 0, EMPTY);
    assert s[0..|s|] == s;
  }

  /**
    The accepted texts, and what they load as: exactly the written texts whose statements can be
    folded, and the tree that the fold builds.
  */
  lemma {:induction false} LoadsExactlyWritten(s: string, t: Tree)
    ensures Loads(s) == Ok(t)
       <==> exists text :: TextOk(text) && ShowText(text) == s && Finish(ApplyAll(EMPTY, Statements(text))) == Ok(t)
  {
    if Loads(s) == Ok(t) {
      var text := LoadsFound(s);
    }
    if text :| TextOk(text) && ShowText(text) == s && Finish(ApplyAll(EMPTY, Statements(text))) == Ok(t) {
      LoadsWritten(text);
    }
  }
}
