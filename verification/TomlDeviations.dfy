/** Where the parser is more liberal than its documentation: the texts that show it, and what they read as. */
module TomlDeviations {
  import opened Decimals
  import opened Wrappers
  import opened TomlSpec
  import opened TomlText
  import opened TomlReading

  // ----- a trailing comma in an inline table -----

  /** The same pairs with a comma, and layout after it, before the closing brace. */
  function WithComma(pairs: Pairs, gap: string): Pairs {
    match pairs
    case NoPair => NoPair
    case LastPair(pair, after) => APair(pair, after, gap, NoPair)
    case APair(pair, after, next, rest) => APair(pair, after, next, WithComma(rest, gap))
  }

  lemma {:induction false} CommaKeepsMeaning(pairs: Pairs, gap: string, out: Tree)
    requires PairsOk(pairs) && IsLayout(gap)
    ensures PairsOk(WithComma(pairs, gap)) && PairsMeaning(WithComma(pairs, gap), out) == PairsMeaning(pairs, out)
  {
    match pairs
    case NoPair =>
    case LastPair(_, _) =>
    case APair(pair, _, _, rest) => CommaKeepsMeaning(rest, gap, out[pair.key := Meaning(pair.value)]);
  }

  // ----- documents, one statement after the other -----

  function Ending(): Text {
    End("", "")
  }

  function PairThen(gap: string, key: string, w: Written, rest: Text): Text {
    Lines(gap, PairLine(Assignment(key, "", "", w)), rest)
  }

  function HeaderThen(gap: string, key: string, rest: Text): Text {
    Lines(gap, HeaderLine(Part("", key), [], ""), rest)
  }

  lemma {:induction false} PairThenReads(gap: string, key: string, w: Written, rest: Text, t: string, r: string)
    requires IsLayout(gap) && IsBareKey(key) && WrittenOk(w) && t == Show(w)
    requires TextOk(rest) && r == ShowText(rest) && StartsApart(r)
    ensures TextOk(PairThen(gap, key, w, rest)) && ShowText(PairThen(gap, key, w, rest)) == gap + (key + ("=" + t) + r)
    ensures Statements(PairThen(gap, key, w, rest)) == [Pair(key, Meaning(w))] + Statements(rest)
  {
    assert "" + ("=" + ("" + t)) == "=" + t;
  }

  lemma {:induction false} HeaderThenReads(gap: string, key: string, rest: Text, r: string)
    requires IsLayout(gap) && IsBareKey(key) && TextOk(rest) && r == ShowText(rest) && StartsApart(r)
    ensures TextOk(HeaderThen(gap, key, rest)) && ShowText(HeaderThen(gap, key, rest)) == gap + ("[" + (key + "]") + r)
    ensures Statements(HeaderThen(gap, key, rest)) == [Header([key])] + Statements(rest)
  {
    assert "" + (key + ("" + ("" + "]"))) == key + "]";
    assert [key] + PartKeys([]) == [key];
  }

  lemma {:induction false} EndingReads()
    ensures TextOk(Ending()) && ShowText(Ending()) == "" && Statements(Ending()) == []
  {
  }

  lemma {:induction false} ApplyNext(d: Doc, st: Statement, sts: seq<Statement>, next: Doc)
    requires Apply(d, st) == Ok(next)
    ensures ApplyAll(d, [st] + sts) == ApplyAll(next, sts)
  {
    assert ([st] + sts)[1..] == sts;
  }

  lemma {:induction false} NothingMore(d: Doc)
    ensures ApplyAll(d, []) == Ok(d)
  {
  }

  /** A document of one pair. */
  function OnePair(key: string, w: Written): Text {
    PairThen("", key, w, Ending())
  }

  lemma {:induction false} OnePairLoads(key: string, w: Written)
    requires IsBareKey(key) && WrittenOk(w)
    ensures TextOk(OnePair(key, w)) && Loads(ShowText(OnePair(key, w))) == Ok(map[key := Meaning(w)])
    ensures ShowText(OnePair(key, w)) == key + ("=" + Show(w))
  {
    EndingReads();
    PairThenReads("", key, w, Ending(), Show(w), "");
    LoadsWritten(OnePair(key, w));
    var d := Doc(map[key := Meaning(w)], []);
    ApplyNext(EMPTY, Pair(key, Meaning(w)), [], d);
    NothingMore(d);
  }

  /** An inline table with a trailing comma is accepted, and is the table without it. */
  lemma {:induction false} TrailingCommaIsIgnored(key: string, open: string, pairs: Pairs, gap: string)
    requires IsBareKey(key) && WrittenOk(WrittenTable(open, pairs)) && IsLayout(gap)
    ensures var plain := OnePair(key, WrittenTable(open, pairs));
            var comma := OnePair(key, WrittenTable(open, WithComma(pairs, gap)));
            Loads(ShowText(comma)) == Loads(ShowText(plain)) == Ok(map[key := Table(PairsMeaning(pairs, map[]))])
  {
    CommaKeepsMeaning(pairs, gap, map[]);
    OnePairLoads(key, WrittenTable(open, pairs));
    OnePairLoads(key, WrittenTable(open, WithComma(pairs, gap)));
  }

  // ----- concrete texts -----

  function One(digit: char): Written {
    WrittenInt("", [digit])
  }

  lemma {:induction false} OneMeans(digit: char)
    requires IsDigit(digit)
    ensures WrittenOk(One(digit)) && Show(One(digit)) == [digit]
            && Meaning(One(digit)) == Int(digit as int - '0' as int)
  {
    assert [digit][..0] == [];
    assert Decimal([digit]) == digit as int - '0' as int;
  }

  /** The pair `b=1` and the closing brace. */
  function BIsOne(): Pairs {
    LastPair(Assignment("b", "", "", One('1')), "")
  }

  lemma {:induction false} BIsOneMeans(out: Tree)
    ensures PairsOk(BIsOne()) && PairsMeaning(BIsOne(), out) == out["b" := Int(1)] && ShowPairs(BIsOne()) == "b=1}"
  {
    OneMeans('1');
  }

  lemma {:induction false} TableShown(open: string, pairs: Pairs)
    requires IsLayout(open) && PairsOk(pairs)
    ensures WrittenOk(WrittenTable(open, pairs)) && Show(WrittenTable(open, pairs)) == "{" + (open + ShowPairs(pairs))
    ensures Meaning(WrittenTable(open, pairs)) == Table(PairsMeaning(pairs, map[]))
  {
  }

  lemma {:induction false} CommaShown()
    ensures ShowPairs(WithComma(BIsOne(), "")) == "b=1,}"
  {
    OneMeans('1');
  }

  // What the pieces of the texts below add up to.

  lemma CommaTexts()
    ensures "a" + ("=" + ("{" + ("" + "b=1,}"))) == "a={b=1,}" && "a" + ("=" + ("{" + ("" + "b=1}"))) == "a={b=1}"
  {
  }

  lemma RepeatedKeyTexts()
    ensures "\n" + ("a" + ("=" + "2") + "") == "\na=2" && "" + ("a" + ("=" + "1") + "\na=2") == "a=1\na=2"
  {
  }

  lemma ExtendedTableTexts()
    ensures "\n" + ("c" + ("=" + "2") + "") == "\nc=2" && "\n" + ("[" + ("a" + "]") + "\nc=2") == "\n[a]\nc=2"
    ensures "" + ("a" + ("=" + ("{" + ("" + "b=1}"))) + "\n[a]\nc=2") == "a={b=1}\n[a]\nc=2"
  {
  }

  lemma {:induction false} OnePairReadsAs(key: string, w: Written, t: string, text: string, v: Value)
    requires IsBareKey(key) && WrittenOk(w) && t == Show(w) && text == key + ("=" + t) && v == Meaning(w)
    ensures Loads(text) == Ok(map[key := v])
  {
    OnePairLoads(key, w);
  }

  lemma {:induction false} CommaExample()
    ensures Loads("a={b=1,}") == Loads("a={b=1}") == Ok(map["a" := Table(map["b" := Int(1)])])
  {
    CommaTexts();
    BIsOneMeans(map[]);
    TableShown("", BIsOne());
    OnePairReadsAs("a", WrittenTable("", BIsOne()), "{" + ("" + "b=1}"), "a={b=1}", Table(map["b" := Int(1)]));
    CommaKeepsMeaning(BIsOne(), "", map[]);
    CommaShown();
    TableShown("", WithComma(BIsOne(), ""));
    OnePairReadsAs("a", WrittenTable("", WithComma(BIsOne(), "")), "{" + ("" + "b=1,}"), "a={b=1,}",
                   Table(map["b" := Int(1)]));
  }

  lemma {:induction false} TextReadsAs(text: Text, t: string, end: Doc)
    requires TextOk(text) && t == ShowText(text) && ApplyAll(EMPTY, Statements(text)) == Ok(end)
    ensures Loads(t) == Ok(end.root)
  {
    LoadsWritten(text);
  }

  lemma {:induction false} PairAtRoot(t: Tree, key: string, v: Value)
    ensures Apply(Doc(t, []), Pair(key, v)) == Ok(Doc(t[key := v], []))
  {
    assert Put(t, [], key, v) == Ok(t[key := v]);
  }

  /** A later pair with the same key replaces the earlier one. */
  lemma {:induction false} RepeatedKeyExample()
    ensures Loads("a=1\na=2") == Ok(map["a" := Int(2)])
  {
    RepeatedKeyTexts();
    OneMeans('1');
    OneMeans('2');
    EndingReads();
    var second := PairThen("\n", "a", One('2'), Ending());
    PairThenReads("\n", "a", One('2'), Ending(), "2", "");
    var text := PairThen("", "a", One('1'), second);
    PairThenReads("", "a", One('1'), second, "1", "\na=2");
    Replaces(Statements(second), Statements(text));
    TextReadsAs(text, "a=1\na=2", Doc(map["a" := Int(2)], []));
  }

  lemma {:induction false} Replaces(second: seq<Statement>, all: seq<Statement>)
    requires second == [Pair("a", Int(2))] + [] && all == [Pair("a", Int(1))] + second
    ensures ApplyAll(EMPTY, all) == Ok(Doc(map["a" := Int(2)], []))
  {
    var t: Tree := map["a" := Int(1)];
    PairAtRoot(map[], "a", Int(1));
    ApplyNext(EMPTY, Pair("a", Int(1)), second, Doc(t, []));
    PairAtRoot(t, "a", Int(2));
    ApplyNext(Doc(t, []), Pair("a", Int(2)), [], Doc(t["a" := Int(2)], []));
    NothingMore(Doc(t["a" := Int(2)], []));
    assert t["a" := Int(2)] == map["a" := Int(2)];
  }

  lemma {:induction false} HeaderAgain(t: Tree, k: string)
    requires k in t && t[k].Table?
    ensures Apply(Doc(t, []), Header([k])) == Ok(Doc(t, [k]))
  {
    assert [k][1..] == [];
    assert Touch(t[k].entries, []) == Ok(t[k].entries);
    assert Touch(t, [k]) == Ok(t[k := Table(t[k].entries)]);
    assert t[k := Table(t[k].entries)] == t;
  }

  lemma {:induction false} PairBelow(t: Tree, k: string, key: string, v: Value)
    requires k in t && t[k].Table?
    ensures Apply(Doc(t, [k]), Pair(key, v)) == Ok(Doc(t[k := Table(t[k].entries[key := v])], [k]))
  {
    assert [k][1..] == [];
    assert Put(t[k].entries, [], key, v) == Ok(t[k].entries[key := v]);
    assert Put(t, [k], key, v) == Ok(t[k := Table(t[k].entries[key := v])]);
  }

  /** A header after an inline table adds to that table. */
  lemma {:induction false} ExtendedTableExample()
    ensures Loads("a={b=1}\n[a]\nc=2") == Ok(map["a" := Table(map["b" := Int(1), "c" := Int(2)])])
  {
    ExtendedTableTexts();
    OneMeans('2');
    EndingReads();
    var third := PairThen("\n", "c", One('2'), Ending());
    PairThenReads("\n", "c", One('2'), Ending(), "2", "");
    var second := HeaderThen("\n", "a", third);
    HeaderThenReads("\n", "a", third, "\nc=2");
    var table := WrittenTable("", BIsOne());
    BIsOneMeans(map[]);
    TableShown("", BIsOne());
    var text := PairThen("", "a", table, second);
    PairThenReads("", "a", table, second, "{" + ("" + "b=1}"), "\n[a]\nc=2");
    ExtendsTable(Statements(third), Statements(second), Statements(text));
    TextReadsAs(text, "a={b=1}\n[a]\nc=2", Doc(map["a" := Table(map["b" := Int(1), "c" := Int(2)])], ["a"]));
  }

  lemma {:induction false} ExtendsTable(third: seq<Statement>, second: seq<Statement>, all: seq<Statement>)
    requires third == [Pair("c", Int(2))] + [] && second == [Header(["a"])] + third
    requires all == [Pair("a", Table(map["b" := Int(1)]))] + second
    ensures ApplyAll(EMPTY, all) == Ok(Doc(map["a" := Table(map["b" := Int(1), "c" := Int(2)])], ["a"]))
  {
    var b: Tree := map["b" := Int(1)];
    var t: Tree := map["a" := Table(b)];
    var end := Doc(t["a" := Table(b["c" := Int(2)])], ["a"]);
    PairAtRoot(map[], "a", Table(b));
    ApplyNext(EMPTY, Pair("a", Table(b)), second, Doc(t, []));
    HeaderAgain(t, "a");
    ApplyNext(Doc(t, []), Header(["a"]), third, Doc(t, ["a"]));
    PairBelow(t, "a", "c", Int(2));
    ApplyNext(Doc(t, ["a"]), Pair("c", Int(2)), [], end);
    NothingMore(end);
    assert b["c" := Int(2)] == map["b" := Int(1), "c" := Int(2)];
    assert t["a" := Table(b["c" := Int(2)])] == map["a" := Table(b["c" := Int(2)])];
  }
}
