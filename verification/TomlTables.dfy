/**
  The characters of the format by their code points: blanks, digits, key characters and escapes,
  and a document that uses every construct.
*/
module TomlTables {
  import opened Decimals
  import opened Wrappers
  import opened Slices
  import opened TomlSpec
  import opened TomlText
  import opened TomlReading
  import opened TomlDeviations

  // ----- classes of characters -----

  /** Space, tab, newline and return. */
  lemma Blanks(c: char)
    ensures IsSpace(c) <==> c as int in {0x20, 0x09, 0x0a, 0x0d}
  {
  }

  lemma UpperCase(c: char)
    ensures c in "ABCDEFGHIJKLM" || c in "NOPQRSTUVWXYZ" <==> 65 <= c as int <= 90
  {
    if 65 <= c as int <= 77 {
      assert "ABCDEFGHIJKLM"[c as int - 65] == c;
    } else if 78 <= c as int <= 90 {
      assert "NOPQRSTUVWXYZ"[c as int - 78] == c;
    }
  }

  lemma LowerCase(c: char)
    ensures c in "abcdefghijklm" || c in "nopqrstuvwxyz" <==> 97 <= c as int <= 122
  {
    if 97 <= c as int <= 109 {
      assert "abcdefghijklm"[c as int - 97] == c;
    } else if 110 <= c as int <= 122 {
      assert "nopqrstuvwxyz"[c as int - 110] == c;
    }
  }

  lemma TenDigits(c: char)
    ensures c in "0123456789" <==> 48 <= c as int <= 57
  {
    if 48 <= c as int <= 57 {
      assert "0123456789"[c as int - 48] == c;
    }
  }

  /** The 64 characters of a bare key. */
  lemma {:induction false} KeyCharacters(c: char)
    ensures IsKeyChar(c)
       <==> c in "ABCDEFGHIJKLM" || c in "NOPQRSTUVWXYZ" || c in "abcdefghijklm" || c in "nopqrstuvwxyz"
            || c in "0123456789" || c in "_-"
  {
    UpperCase(c);
    LowerCase(c);
    TenDigits(c);
  }

  /** A digit is one of the ten, and alone stands for its place among them. */
  lemma {:induction false} DigitCharacters(c: char)
    ensures IsDigit(c) <==> c in "0123456789"
    ensures forall i :: 0 <= i < 10 ==> Decimal(["0123456789"[i]]) == i
  {
    TenDigits(c);
    forall i | 0 <= i < 10 ensures Decimal(["0123456789"[i]]) == i {
      assert ["0123456789"[i]][..0] == [];
    }
  }

  /** A digit after the others counts ten times less than they do. */
  lemma {:induction false} DecimalPlaces(digits: string, i: nat)
    requires i < 10
    ensures Decimal(digits + ["0123456789"[i]]) == 10 * Decimal(digits) + i
  {
    assert (digits + ["0123456789"[i]])[..|digits|] == digits;
  }

  // ----- strings -----

  /** The letters after a backslash, and what they are read as. */
  const Letters: map<int, int> := map[0x6e := 0x0a, 0x74 := 0x09, 0x72 := 0x0d, 0x5c := 0x5c, 0x22 := 0x22]

  /** A backslash and one of five letters gives one character; with any other letter, or none, the string fails. */
  lemma {:induction false} Escapes(s: string, pos: nat, out: string)
    requires pos < |s| && s[pos] as int == 0x5c
    ensures BasicTail(s, pos, out) ==
            if pos + 1 < |s| && s[pos + 1] as int in Letters
            then BasicTail(s, pos + 2, out + [Letters[s[pos + 1] as int] as char])
            else Err(TomliError)
  {
  }

  /** A quote ends the string, any other character stands for itself, and a string has to end. */
  lemma {:induction false} StringCharacters(s: string, pos: nat, out: string)
    requires pos <= |s| && (pos < |s| ==> s[pos] as int != 0x5c)
    ensures BasicTail(s, pos, out) ==
            if pos == |s| then Err(TomliError)
            else if s[pos] as int == 0x22 then Ok((out, pos + 1))
            else BasicTail(s, pos + 1, out + [s[pos]])
  {
  }

  /** Between apostrophes a backslash is a backslash. */
  lemma {:induction false} LiteralCharacters(s: string, pos: nat, out: string)
    requires pos <= |s|
    ensures LiteralTail(s, pos, out) ==
            if pos == |s| then Err(TomliError)
            else if s[pos] as int == 0x27 then Ok((out, pos + 1))
            else LiteralTail(s, pos + 1, out + [s[pos]])
  {
  }

  lemma {:induction false} PieceThen(p: Piece, rest: seq<Piece>, t: string, r: string, c: char, meant: string)
    requires PieceOk(p) && ShowPiece(p) == t && PieceMeaning(p) == c
    requires PiecesOk(rest) && ShowPieces(rest) == r && PiecesMeaning(rest) == meant
    ensures PiecesOk([p] + rest) && ShowPieces([p] + rest) == t + r && PiecesMeaning([p] + rest) == [c] + meant
  {
    assert ([p] + rest)[1..] == rest;
  }

  lemma QuotedTexts()
    ensures "\"" + "\"" == "\"\"" && "\\\\" + "\"\"" == "\\\\\"\"" && "\\" + "\"" == "\\\""
    ensures "\\t" + "\\r\"" == "\\t\\r\"" && "\\n" + "\\t\\r\"" == "\\n\\t\\r\"" && "\\r" + "\"" == "\\r\""
    ensures "a" + ("=" + ("\"" + "\\n\\t\\r\"")) == "a=\"\\n\\t\\r\""
  {
  }

  /** The text `a="\n\t\r"`: a newline, a tab and a return. */
  lemma {:induction false} EscapeExample()
    ensures Loads("a=\"\\n\\t\\r\"") == Ok(map["a" := Str([10 as char, 9 as char, 13 as char])])
  {
    QuotedTexts();
    var r := [Escaped('r')] + [];
    PieceThen(Escaped('r'), [], "\\r", "\"", 13 as char, []);
    var tr := [Escaped('t')] + r;
    PieceThen(Escaped('t'), r, "\\t", "\\r\"", 9 as char, [13 as char] + []);
    var ntr := [Escaped('n')] + tr;
    PieceThen(Escaped('n'), tr, "\\n", "\\t\\r\"", 10 as char, [9 as char] + ([13 as char] + []));
    OnePairReadsAs("a", WrittenBasic(ntr), "\"" + "\\n\\t\\r\"", "a=\"\\n\\t\\r\"",
                   Str([10 as char, 9 as char, 13 as char]));
  }

  // ----- escapes that are none -----

  /** Pieces without the closing quote. */
  function Unclosed(ps: seq<Piece>): string {
    if ps == [] then "" else ShowPiece(ps[0]) + Unclosed(ps[1..])
  }

  lemma {:induction false} BadTail(s: string, pos: nat, ps: seq<Piece>, letter: char, rest: string, out: string)
    requires PiecesOk(ps) && letter as int !in Letters && At(s, pos, Unclosed(ps) + ([0x5c as char, letter] + rest))
    ensures BasicTail(s, pos, out) == Err(TomliError)
    decreases |ps|
  {
    var tail := [0x5c as char, letter] + rest;
    if ps == [] {
      assert Unclosed(ps) + tail == tail;
      AtFirst(s, pos, tail);
      AtFirst(s, pos + 1, tail[1..]);
      Escapes(s, pos, out);
    } else {
      assert Unclosed(ps) + tail == ShowPiece(ps[0]) + (Unclosed(ps[1..]) + tail);
      ReadPiece(s, pos, ps[0], Unclosed(ps[1..]) + tail, out);
      BadTail(s, pos + |ShowPiece(ps[0])|, ps[1..], letter, rest, out + [PieceMeaning(ps[0])]);
    }
  }

  lemma {:induction false} BadString(s: string, pos: nat, ps: seq<Piece>, letter: char, rest: string)
    requires PiecesOk(ps) && letter as int !in Letters
    requires At(s, pos, "\"" + (Unclosed(ps) + ([0x5c as char, letter] + rest)))
    ensures ValueAt(s, pos) == Err(TomliError)
  {
    var tail := Unclosed(ps) + ([0x5c as char, letter] + rest);
    AtFirst(s, pos, "\"" + tail);
    AtConcat(s, pos, "\"", tail);
    BadTail(s, pos + 1, ps, letter, rest, []);
  }

  lemma {:induction false} KeyReads(s: string, key: string, u: string) returns (p: nat, q: nat)
    requires IsBareKey(key) && s == key + ("=" + u)
    ensures s != "" && Solid(s) && s[0] != '['
    ensures ParseKey(s, 0) == Ok((key, p)) && p == q == |key| <= |s| && Skip(s, p) == q && Sees(s, q, '=')
  {
    assert "" + (['='] + u) == "=" + u;
    assert s[0..|s|] == s;
    KeyIsSolid(key, "=" + u);
    p, q := ReadKeyAndEquals(s, 0, Assignment(key, "", "", WrittenBool(true)), u);
  }

  lemma {:induction false} BadValue(s: string, key: string, u: string)
    requires IsBareKey(key) && s == key + ("=" + u) && ValueAt(s, |key| + 1) == Err(TomliError)
    ensures Loads(s) == Err(TomliError)
  {
    var p, q := KeyReads(s, key, u);
    PairFails(s, key, p, q);
  }

  lemma {:induction false} PairFails(s: string, key: string, p: nat, q: nat)
    requires s != "" && Solid(s) && s[0] != '['
    requires ParseKey(s, 0) == Ok((key, p)) && p <= |s| && Skip(s, p) == q && Sees(s, q, '=')
    requires ValueAt(s, q + 1) == Err(TomliError)
    ensures Loads(s) == Err(TomliError)
  {
    assert PairAt(s, 0) == Err(TomliError);
    assert Skip(s, 0) == 0;
  }

  /** Any other letter after a backslash, after whatever pieces, makes the text fail. */
  lemma {:induction false} BadEscapeFails(key: string, ps: seq<Piece>, letter: char, rest: string)
    requires IsBareKey(key) && PiecesOk(ps) && letter as int !in Letters
    ensures Loads(key + ("=" + ("\"" + (Unclosed(ps) + ([0x5c as char, letter] + rest))))) == Err(TomliError)
  {
    var u := "\"" + (Unclosed(ps) + ([0x5c as char, letter] + rest));
    var s := key + ("=" + u);
    assert s[|key| + 1..] == u;
    BadString(s, |key| + 1, ps, letter, rest);
    BadValue(s, key, u);
  }

  // ----- a document -----

  lemma {:induction false} ItemThen(w: Written, t: string, v: Value, rest: Items, r: string, vs: seq<Value>)
    requires WrittenOk(w) && Show(w) == t && Meaning(w) == v
    requires ItemsOk(rest) && ShowItems(rest) == r && ItemsMeaning(rest) == vs
    ensures ItemsOk(Item(w, "", "", rest)) && ShowItems(Item(w, "", "", rest)) == t + ("," + r)
    ensures ItemsMeaning(Item(w, "", "", rest)) == [v] + vs
  {
    assert "" + ("," + ("" + r)) == "," + r;
  }

  // The pieces of the text below.

  lemma {:induction false} TwelveMeans(w: Written)
    requires w == WrittenInt("-", "12")
    ensures WrittenOk(w) && Show(w) == "-12" && Meaning(w) == Int(-12)
  {
    assert "-" + "12" == "-12" && "12"[..1] == "1" && "1"[..0] == "";
    assert Decimal("1") == 1;
  }

  lemma {:induction false} TableMeans(w: Written)
    requires w == WrittenTable("", LastPair(Assignment("x", "", "", WrittenBasic([Plain('y')])), ""))
    ensures WrittenOk(w) && Show(w) == "{x=\"y\"}" && Meaning(w) == Table(map["x" := Str("y")])
  {
    var y := WrittenBasic([Plain('y')]);
    PieceThen(Plain('y'), [], "y", "\"", 'y', "");
    assert [Plain('y')] + [] == [Plain('y')] && "y" + "" == "y" && "y" + "\"" == "y\"";
    assert Show(y) == "\"" + "y\"" == "\"y\"";
    AssignmentShown(Assignment("x", "", "", y), "\"y\"");
    assert ("x" + ("=" + "\"y\"")) + ("" + "}") == "x=\"y\"}";
    TableShown("", LastPair(Assignment("x", "", "", y), ""));
    assert "{" + ("" + "x=\"y\"}") == "{x=\"y\"}";
  }

  lemma {:induction false} AssignmentShown(a: Assignment, t: string)
    requires a.afterKey == "" && a.before == "" && Show(a.value) == t
    ensures ShowAssignment(a) == a.key + ("=" + t)
  {
    assert "" + ("=" + ("" + t)) == "=" + t;
  }

  lemma DocumentTexts()
    ensures "'" + ("q" + "'") == "'q'" && "{x=\"y\"}" + ("" + "]") == "{x=\"y\"}]"
    ensures "'q'" + ("," + "{x=\"y\"}]") == "'q',{x=\"y\"}]"
    ensures "false" + ("," + "'q',{x=\"y\"}]") == "false,'q',{x=\"y\"}]"
  {
  }

  lemma MoreDocumentTexts()
    ensures "-12" + ("," + "false,'q',{x=\"y\"}]") == "-12,false,'q',{x=\"y\"}]"
    ensures "[" + ("" + "-12,false,'q',{x=\"y\"}]") == "[-12,false,'q',{x=\"y\"}]"
  {
  }

  lemma PairText()
    ensures "k" + ("=" + "[-12,false,'q',{x=\"y\"}]") == "k=[-12,false,'q',{x=\"y\"}]"
  {
    assert "=" + "[-12,false,'q',{x=\"y\"}]" == "=[-12,false,'q',{x=\"y\"}]";
  }

  lemma PairLineText()
    ensures "\n" + ("k=[-12,false,'q',{x=\"y\"}]" + "#c") == "\nk=[-12,false,'q',{x=\"y\"}]#c"
  {
    assert "k=[-12,false,'q',{x=\"y\"}]" + "#c" == "k=[-12,false,'q',{x=\"y\"}]#c";
  }

  lemma HeaderText()
    ensures "" + ("[" + ("t" + "]") + "\nk=[-12,false,'q',{x=\"y\"}]#c") == "[t]\nk=[-12,false,'q',{x=\"y\"}]#c"
  {
    assert "[" + ("t" + "]") == "[t]";
  }

  lemma {:induction false} ArrayMeans() returns (w: Written)
    ensures WrittenOk(w) && Show(w) == "[-12,false,'q',{x=\"y\"}]"
    ensures Meaning(w) == Array([Int(-12), Bool(false), Str("q"), Table(map["x" := Str("y")])])
  {
    DocumentTexts();
    MoreDocumentTexts();
    var table := WrittenTable("", LastPair(Assignment("x", "", "", WrittenBasic([Plain('y')])), ""));
    TableMeans(table);
    TwelveMeans(WrittenInt("-", "12"));
    var last := LastItem(table, "");
    var third := Item(WrittenLiteral("q"), "", "", last);
    ItemThen(WrittenLiteral("q"), "'q'", Str("q"), last, "{x=\"y\"}]", [Table(map["x" := Str("y")])]);
    var second := Item(WrittenBool(false), "", "", third);
    ItemThen(WrittenBool(false), "false", Bool(false), third, "'q',{x=\"y\"}]", ItemsMeaning(third));
    ItemThen(WrittenInt("-", "12"), "-12", Int(-12), second, "false,'q',{x=\"y\"}]", ItemsMeaning(second));
    w := WrittenArray("", Item(WrittenInt("-", "12"), "", "", second));
  }

  /** A header, a number, a truth value, strings, an array, an inline table and a comment. */
  lemma {:induction false} DocumentExample()
    ensures Loads("[t]\nk=[-12,false,'q',{x=\"y\"}]#c") == Ok(map["t" := Table(map["k" :=
              Array([Int(-12), Bool(false), Str("q"), Table(map["x" := Str("y")])])])])
  {
    PairText();
    PairLineText();
    HeaderText();
    var w := ArrayMeans();
    var end := End("", "#c");
    assert ShowText(end) == "#c";
    var pair := PairThen("\n", "k", w, end);
    PairThenReads("\n", "k", w, end, "[-12,false,'q',{x=\"y\"}]", "#c");
    var text := HeaderThen("", "t", pair);
    HeaderThenReads("", "t", pair, "\nk=[-12,false,'q',{x=\"y\"}]#c");
    HeaderThenPair(Statements(pair), Statements(text), "t", "k", Meaning(w));
    TextReadsAs(text, "[t]\nk=[-12,false,'q',{x=\"y\"}]#c", Doc(map["t" := Table(map["k" := Meaning(w)])], ["t"]));
  }

  lemma {:induction false} HeaderThenPair(pair: seq<Statement>, all: seq<Statement>, t: string, k: string, v: Value)
    requires pair == [Pair(k, v)] + [] && all == [Header([t])] + pair
    ensures ApplyAll(EMPTY, all) == Ok(Doc(map[t := Table(map[k := v])], [t]))
  {
    var empty: Tree := map[t := Table(map[])];
    var end := Doc(empty[t := Table(empty[t].entries[k := v])], [t]);
    assert [t][1..] == [];
    assert Touch(map[], []) == Ok(map[]);
    assert Apply(EMPTY, Header([t])) == Ok(Doc(empty, [t]));
    ApplyNext(EMPTY, Header([t]), pair, Doc(empty, [t]));
    PairBelow(empty, t, k, v);
    ApplyNext(Doc(empty, [t]), Pair(k, v), [], end);
    NothingMore(end);
    assert end.root == map[t := Table(map[k := v])];
  }
}
