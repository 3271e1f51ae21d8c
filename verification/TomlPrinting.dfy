/**
  Printing trees: every tree of bare keys can be written, as sections and inline tables in any
  mixture and any order, and reading any such text back gives the tree.
*/
module TomlPrinting {
  import opened Decimals
  import opened Wrappers
  import opened TomlSpec
  import opened TomlText
  import opened TomlPaths
  import opened TomlReading

  /** Every key of every table is a non-empty bare key: what the format can say. */
  ghost predicate Bare(v: Value) {
    match v
    case Array(elems) => forall i :: 0 <= i < |elems| ==> Bare(elems[i])
    case Table(entries) => forall k {:trigger k in entries} :: k in entries ==> IsBareKey(k) && Bare(entries[k])
    case _ => true
  }

  ghost predicate Enumerates(keys: seq<string>, t: Tree) {
    && (forall k :: k in keys <==> k in t)
    && forall i, j :: 0 <= i < j < |keys| ==> keys[i] != keys[j]
  }

  /** The free choices of a printer: the order of the keys and which tables get a section of their own. */
  datatype Style = Style(order: Tree -> seq<string>, sectioned: seq<string> -> bool)

  ghost predicate IsStyle(style: Style) {
    forall t :: Enumerates(style.order(t), t)
  }

  // ----- sections -----

  predicate IsSection(v: Value, path: seq<string>, style: Style) {
    v.Table? && style.sectioned(path)
  }

  ghost predicate KeysIn(v: Value, keys: seq<string>) {
    v.Table? && forall i :: 0 <= i < |keys| ==> keys[i] in v.entries
  }

  /** The entries of a table that stand directly below its header. */
  ghost function Own(v: Value, keys: seq<string>, path: seq<string>, style: Style): seq<Statement>
    requires KeysIn(v, keys)
  {
    if keys == [] then []
    else
      var k := keys[0];
      (if IsSection(v.entries[k], path + [k], style) then [] else [Pair(k, v.entries[k])])
          + Own(v, keys[1..], path, style)
  }

  /** The entries of a table that get a header of their own. */
  ghost function Below(v: Value, keys: seq<string>, path: seq<string>, style: Style): seq<Statement>
    requires IsStyle(style) && KeysIn(v, keys)
    decreases v, 0, |keys|
  {
    if keys == [] then []
    else
      var k := keys[0];
      (if IsSection(v.entries[k], path + [k], style)
       then [Header(path + [k])] + Section(v.entries[k], path + [k], style)
       else [])
      + Below(v, keys[1..], path, style)
  }

  /** The statements that print a table below its header. */
  ghost function Section(v: Value, path: seq<string>, style: Style): seq<Statement>
    requires IsStyle(style) && v.Table?
    decreases v, 1
  {
    OrderListsKeys(v, style);
    Own(v, style.order(v.entries), path, style) + Below(v, style.order(v.entries), path, style)
  }

  lemma OrderListsKeys(v: Value, style: Style)
    requires IsStyle(style) && v.Table?
    ensures Enumerates(style.order(v.entries), v.entries) && KeysIn(v, style.order(v.entries))
  {
  }

  // ----- what the statements build -----

  /** `u` with the chosen entries of `v` under the given keys. */
  ghost function Fill(u: Tree, v: Value, keys: seq<string>, path: seq<string>, style: Style, sections: bool): Tree
    requires KeysIn(v, keys)
    decreases |keys|
  {
    if keys == [] then u
    else
      var k := keys[0];
      var next := if IsSection(v.entries[k], path + [k], style) == sections then u[k := v.entries[k]] else u;
      Fill(next, v, keys[1..], path, style, sections)
  }

  lemma {:induction false} FillAt(u: Tree, v: Value, keys: seq<string>, path: seq<string>, style: Style, sections: bool,
      k: string)
    requires KeysIn(v, keys)
    ensures var t := Fill(u, v, keys, path, style, sections);
            if k in keys && IsSection(v.entries[k], path + [k], style) == sections
            then k in t && t[k] == v.entries[k]
            else (k in t <==> k in u) && (k in u ==> t[k] == u[k])
    decreases |keys|
  {
    if keys != [] {
      var j := keys[0];
      var next := if IsSection(v.entries[j], path + [j], style) == sections then u[j := v.entries[j]] else u;
      FillAt(next, v, keys[1..], path, style, sections, k);
      assert k in keys <==> k == j || k in keys[1..];
    }
  }

  /** The direct entries and the sections together are the whole table. */
  lemma {:induction false} FillAll(v: Value, keys: seq<string>, path: seq<string>, style: Style)
    requires v.Table? && Enumerates(keys, v.entries) && KeysIn(v, keys)
    ensures Fill(Fill(map[], v, keys, path, style, false), v, keys, path, style, true) == v.entries
  {
    var own := Fill(map[], v, keys, path, style, false);
    var all := Fill(own, v, keys, path, style, true);
    forall k ensures (k in all <==> k in v.entries) && (k in all ==> all[k] == v.entries[k]) {
      FillAt(map[], v, keys, path, style, false, k);
      FillAt(own, v, keys, path, style, true, k);
    }
  }

  lemma {:induction false} ApplyConcat(d: Doc, a: seq<Statement>, b: seq<Statement>)
    ensures var x := ApplyAll(d, a); ApplyAll(d, a + b) == if x.Err? then x else ApplyAll(x.value, b)
    decreases |a|
  {
    if a == [] {
      assert a + b == b;
    } else {
      assert (a + b)[0] == a[0] && (a + b)[1..] == a[1..] + b;
      var next := Apply(d, a[0]);
      if next.Ok? {
        ApplyConcat(next.value, a[1..], b);
      }
    }
  }

  lemma {:induction false} ApplyOne(d: Doc, st: Statement, rest: seq<Statement>)
    requires Apply(d, st).Ok?
    ensures ApplyAll(d, [st] + rest) == ApplyAll(Apply(d, st).value, rest)
  {
    assert ([st] + rest)[1..] == rest;
  }

  lemma {:induction false} OwnBuilds(d: Doc, v: Value, keys: seq<string>, path: seq<string>, style: Style)
    requires KeysIn(v, keys) && d.current == path && Has(d.root, path)
    ensures ApplyAll(d, Own(v, keys, path, style)) ==
            Ok(Doc(Set(d.root, path, Fill(Get(d.root, path), v, keys, path, style, false)), path))
    decreases |keys|
  {
    if keys == [] {
      SetGet(d.root, path);
    } else {
      var k := keys[0];
      var rest := Own(v, keys[1..], path, style);
      if IsSection(v.entries[k], path + [k], style) {
        assert [] + rest == rest;
        OwnBuilds(d, v, keys[1..], path, style);
      } else {
        var u := Get(d.root, path)[k := v.entries[k]];
        var next := Doc(Set(d.root, path, u), path);
        PutIsSet(d.root, path, k, v.entries[k]);
        ApplyOne(d, Pair(k, v.entries[k]), rest);
        GetSet(d.root, path, u);
        OwnBuilds(next, v, keys[1..], path, style);
        SetSet(d.root, path, u, Fill(u, v, keys[1..], path, style, false));
      }
    }
  }

  /** The run succeeded and left this root. */
  predicate Builds(r: Result<Doc, LoadError>, root: Tree) {
    r.Ok? && r.value.root == root
  }

  /** The keys differ, and those that get a section are not yet in the table. */
  ghost predicate Unused(v: Value, keys: seq<string>, path: seq<string>, style: Style, u: Tree) {
    && KeysIn(v, keys)
    && (forall i, j :: 0 <= i < j < |keys| ==> keys[i] != keys[j])
    && forall i :: 0 <= i < |keys| && IsSection(v.entries[keys[i]], path + [keys[i]], style) ==> keys[i] !in u
  }

  /** A header for a new key: an empty table appears and becomes the current one. */
  lemma {:induction false} NewHeader(d: Doc, path: seq<string>, k: string) returns (next: Doc)
    requires Has(d.root, path) && k !in Get(d.root, path)
    ensures Apply(d, Header(path + [k])) == Ok(next) && next.current == path + [k]
    ensures Has(next.root, path + [k]) && Get(next.root, path + [k]) == map[]
    ensures forall w :: Set(next.root, path + [k], w) == Set(d.root, path, Get(d.root, path)[k := Table(w)])
  {
    TouchMissing(d.root, path, k);
    var u := Get(d.root, path)[k := Table(map[])];
    next := Doc(Set(d.root, path, u), path + [k]);
    GetSet(d.root, path, u);
    ChildPath(next.root, path, k);
    forall w ensures Set(next.root, path + [k], w) == Set(d.root, path, Get(d.root, path)[k := Table(w)]) {
      SetChild(next.root, path, k, w);
      SetSet(d.root, path, u, u[k := Table(w)]);
      assert u[k := Table(w)] == Get(d.root, path)[k := Table(w)];
    }
  }

  /** The header and the statements of one entry's section. */
  lemma {:induction false} EntrySectionBuilds(d: Doc, v: Value, k: string, path: seq<string>, style: Style)
    returns (next: Doc)
    requires IsStyle(style) && v.Table? && k in v.entries && v.entries[k].Table?
    requires Has(d.root, path) && k !in Get(d.root, path)
    ensures ApplyAll(d, [Header(path + [k])] + Section(v.entries[k], path + [k], style)) == Ok(next)
    ensures next.root == Set(d.root, path, Get(d.root, path)[k := v.entries[k]])
    decreases v, 0, 0
  {
    var w := v.entries[k];
    var mid := NewHeader(d, path, k);
    ApplyOne(d, Header(path + [k]), Section(w, path + [k], style));
    SectionBuilds(mid, w, path + [k], style);
    next := ApplyAll(mid, Section(w, path + [k], style)).value;
  }

  lemma {:induction false} BelowBuilds(d: Doc, v: Value, keys: seq<string>, path: seq<string>, style: Style)
    requires IsStyle(style) && Has(d.root, path) && Unused(v, keys, path, style, Get(d.root, path))
    ensures Builds(ApplyAll(d, Below(v, keys, path, style)),
            Set(d.root, path, Fill(Get(d.root, path), v, keys, path, style, true)))
    decreases v, 0, |keys| + 1
  {
    if keys == [] {
      SetGet(d.root, path);
    } else {
      var k := keys[0];
      var rest := Below(v, keys[1..], path, style);
      if IsSection(v.entries[k], path + [k], style) {
        var next := EntrySectionBuilds(d, v, k, path, style);
        var u := Get(d.root, path)[k := v.entries[k]];
        ApplyConcat(d, [Header(path + [k])] + Section(v.entries[k], path + [k], style), rest);
        GetSet(d.root, path, u);
        BelowBuilds(next, v, keys[1..], path, style);
        SetSet(d.root, path, u, Fill(u, v, keys[1..], path, style, true));
      } else {
        assert [] + rest == rest;
        BelowBuilds(d, v, keys[1..], path, style);
      }
    }
  }

  lemma {:induction false} OwnLeavesSections(v: Value, keys: seq<string>, path: seq<string>, style: Style)
    requires v.Table? && Enumerates(keys, v.entries) && KeysIn(v, keys)
    ensures Unused(v, keys, path, style, Fill(map[], v, keys, path, style, false))
  {
    forall i | 0 <= i < |keys| && IsSection(v.entries[keys[i]], path + [keys[i]], style)
      ensures keys[i] !in Fill(map[], v, keys, path, style, false)
    {
      FillAt(map[], v, keys, path, style, false, keys[i]);
    }
  }

  /** Below a header for a new table, its section builds the whole table. */
  lemma {:induction false} SectionBuilds(d: Doc, v: Value, path: seq<string>, style: Style)
    requires IsStyle(style) && v.Table? && d.current == path && Has(d.root, path) && Get(d.root, path) == map[]
    ensures Builds(ApplyAll(d, Section(v, path, style)), Set(d.root, path, v.entries))
    decreases v, 1
  {
    var keys := style.order(v.entries);
    OrderListsKeys(v, style);
    var u := Fill(map[], v, keys, path, style, false);
    var mid := Doc(Set(d.root, path, u), path);
    OwnBuilds(d, v, keys, path, style);
    ApplyConcat(d, Own(v, keys, path, style), Below(v, keys, path, style));
    GetSet(d.root, path, u);
    OwnLeavesSections(v, keys, path, style);
    BelowBuilds(mid, v, keys, path, style);
    SetSet(d.root, path, u, Fill(u, v, keys, path, style, true));
    FillAll(v, keys, path, style);
  }

  /** However a tree is divided into sections, and however those are written down, `loads` gives the tree back. */
  lemma {:induction false} WrittenTreeLoads(t: Tree, style: Style, text: Text)
    requires IsStyle(style) && TextOk(text) && Statements(text) == Section(Table(t), [], style)
    ensures Loads(ShowText(text)) == Ok(t)
  {
    SectionBuilds(EMPTY, Table(t), [], style);
    LoadsWritten(text);
  }

  // ----- a written form for every tree -----

  /** Newlines, tabs and returns by their letters; quotes and backslashes by themselves. */
  function WritePiece(c: char): Piece {
    if c == '\n' then Escaped('n')
    else if c == '\t' then Escaped('t')
    else if c == '\r' then Escaped('r')
    else if c == '"' || c == '\\' then Escaped(c)
    else Plain(c)
  }

  function WriteString(text: string): seq<Piece> {
    if text == [] then [] else [WritePiece(text[0])] + WriteString(text[1..])
  }

  lemma {:induction false} WrittenString(text: string)
    ensures PiecesOk(WriteString(text)) && PiecesMeaning(WriteString(text)) == text
  {
    if text != [] {
      WrittenString(text[1..]);
      var ps := WriteString(text);
      assert ps[1..] == WriteString(text[1..]);
      forall i | 0 <= i < |ps| ensures PieceOk(ps[i]) {
        if i > 0 {
          assert ps[i] == ps[1..][i - 1];
        }
      }
    }
  }

  /** A value with the same layout wherever layout may stand. */
  ghost function Write(v: Value, style: Style, gap: string): Written
    requires IsStyle(style)
    decreases v, 1
  {
    match v
    case Int(n) => if n < 0 then WrittenInt("-", Digits(-n)) else WrittenInt("", Digits(n))
    case Bool(b) => WrittenBool(b)
    case Str(text) => WrittenBasic(WriteString(text))
    case Array(elems) => WrittenArray(gap, WriteItems(v, 0, style, gap))
    case Table(entries) => WrittenTable(gap, WritePairs(v, style.order(entries), style, gap))
  }

  ghost function WriteItems(v: Value, i: nat, style: Style, gap: string): Items
    requires IsStyle(style) && v.Array? && i <= |v.elems|
    decreases v, 0, |v.elems| - i
  {
    if i == |v.elems| then NoItem
    else if i == |v.elems| - 1 then LastItem(Write(v.elems[i], style, gap), gap)
    else Item(Write(v.elems[i], style, gap), gap, gap, WriteItems(v, i + 1, style, gap))
  }

  ghost function WritePair(v: Value, k: string, style: Style, gap: string): Assignment
    requires IsStyle(style) && v.Table? && k in v.entries
    decreases v, 0, 0
  {
    Assignment(k, gap, gap, Write(v.entries[k], style, gap))
  }

  ghost function WritePairs(v: Value, keys: seq<string>, style: Style, gap: string): Pairs
    requires IsStyle(style) && KeysIn(v, keys)
    decreases v, 0, |keys| + 1
  {
    if keys == [] then NoPair
    else if |keys| == 1 then LastPair(WritePair(v, keys[0], style, gap), gap)
    else APair(WritePair(v, keys[0], style, gap), gap, gap, WritePairs(v, keys[1..], style, gap))
  }

  lemma {:induction false} WriteMeans(v: Value, style: Style, gap: string)
    requires IsStyle(style) && IsLayout(gap) && Bare(v)
    ensures WrittenOk(Write(v, style, gap)) && Meaning(Write(v, style, gap)) == v
    decreases v, 1
  {
    match v
    case Int(n) => DigitsRoundTrip(if n < 0 then -n else n);
    case Bool(_) =>
    case Str(text) => WrittenString(text);
    case Array(elems) => WriteItemsMeans(v, 0, style, gap);
    case Table(entries) => WriteTableMeans(v, style.order(entries), style, gap);
  }

  lemma {:induction false} WriteTableMeans(v: Value, keys: seq<string>, style: Style, gap: string)
    requires IsStyle(style) && IsLayout(gap) && Bare(v) && v.Table? && keys == style.order(v.entries)
    ensures KeysIn(v, keys)
    ensures var pairs := WritePairs(v, keys, style, gap); PairsOk(pairs) && PairsMeaning(pairs, map[]) == v.entries
    decreases v, 0, |keys| + 2
  {
    OrderListsKeys(v, style);
    WritePairsMean(v, keys, map[], style, gap);
    WithAll(v, keys);
  }

  lemma {:induction false} WithAll(v: Value, keys: seq<string>)
    requires v.Table? && forall k :: k in keys <==> k in v.entries
    ensures With(map[], v, keys) == v.entries
  {
  }

  lemma {:induction false} WriteItemsMeans(v: Value, i: nat, style: Style, gap: string)
    requires IsStyle(style) && IsLayout(gap) && v.Array? && i <= |v.elems| && Bare(v)
    ensures ItemsOk(WriteItems(v, i, style, gap)) && ItemsMeaning(WriteItems(v, i, style, gap)) == v.elems[i..]
    decreases v, 0, |v.elems| - i
  {
    if i < |v.elems| {
      assert Bare(v.elems[i]);
      WriteMeans(v.elems[i], style, gap);
      WriteItemsMeans(v, i + 1, style, gap);
    }
  }

  /** `u` with the entries of `v` under the given keys. */
  ghost function With(u: Tree, v: Value, keys: seq<string>): Tree
    requires v.Table?
  {
    u + map k | k in v.entries && k in keys :: v.entries[k]
  }

  lemma {:induction false} WithStep(u: Tree, v: Value, keys: seq<string>)
    requires KeysIn(v, keys) && keys != []
    ensures With(u, v, keys) == With(u[keys[0] := v.entries[keys[0]]], v, keys[1..])
  {
    assert keys == [keys[0]] + keys[1..];
  }

  lemma {:induction false} WritePairMeans(v: Value, k: string, style: Style, gap: string)
    requires IsStyle(style) && IsLayout(gap) && v.Table? && k in v.entries && Bare(v)
    ensures var a := WritePair(v, k, style, gap);
            a.key == k && IsNamed(a) && WrittenOk(a.value) && Meaning(a.value) == v.entries[k]
    decreases v, 0, 0
  {
    assert IsBareKey(k) && Bare(v.entries[k]);
    WriteMeans(v.entries[k], style, gap);
  }

  lemma {:induction false} WritePairsMean(v: Value, keys: seq<string>, out: Tree, style: Style, gap: string)
    requires IsStyle(style) && IsLayout(gap) && KeysIn(v, keys) && Bare(v)
    ensures PairsOk(WritePairs(v, keys, style, gap))
    ensures PairsMeaning(WritePairs(v, keys, style, gap), out) == With(out, v, keys)
    decreases v, 0, |keys| + 1
  {
    if keys != [] {
      WithStep(out, v, keys);
      WritePairMeans(v, keys[0], style, gap);
      WritePairsMean(v, keys[1..], out[keys[0] := v.entries[keys[0]]], style, gap);
    }
  }

  // ----- a text for every tree -----

  /** Statements the format can say. */
  ghost predicate Sayable(st: Statement) {
    match st
    case Header(path) => path != [] && forall i :: 0 <= i < |path| ==> IsBareKey(path[i])
    case Pair(key, v) => IsBareKey(key) && Bare(v)
  }

  ghost predicate AllSayable(sts: seq<Statement>) {
    forall i :: 0 <= i < |sts| ==> Sayable(sts[i])
  }

  function WriteParts(path: seq<string>, gap: string): seq<Part> {
    if path == [] then [] else [Part(gap, path[0])] + WriteParts(path[1..], gap)
  }

  lemma {:induction false} WritePartsMean(path: seq<string>, gap: string)
    requires IsLayout(gap) && forall i :: 0 <= i < |path| ==> IsBareKey(path[i])
    ensures PartsOk(WriteParts(path, gap)) && PartKeys(WriteParts(path, gap)) == path
  {
    if path != [] {
      WritePartsMean(path[1..], gap);
      var parts := WriteParts(path, gap);
      assert parts[1..] == WriteParts(path[1..], gap);
      forall i | 0 <= i < |parts| ensures PartOk(parts[i]) {
        if i > 0 {
          assert parts[i] == parts[1..][i - 1];
        }
      }
    }
  }

  ghost function WriteLine(st: Statement, style: Style, gap: string): Line
    requires IsStyle(style) && Sayable(st)
  {
    match st
    case Header(path) => HeaderLine(Part(gap, path[0]), WriteParts(path[1..], gap), gap)
    case Pair(key, v) => PairLine(Assignment(key, gap, gap, Write(v, style, gap)))
  }

  lemma {:induction false} WriteLineMeans(st: Statement, style: Style, gap: string)
    requires IsStyle(style) && IsLayout(gap) && Sayable(st)
    ensures LineOk(WriteLine(st, style, gap)) && LineMeaning(WriteLine(st, style, gap)) == st
  {
    match st
    case Header(path) =>
      WritePartsMean(path[1..], gap);
      assert path == [path[0]] + path[1..];
    case Pair(key, v) =>
      WriteMeans(v, style, gap);
  }

  ghost function WriteText(sts: seq<Statement>, style: Style, gap: string): Text
    requires IsStyle(style) && AllSayable(sts)
  {
    if sts == [] then End(gap, "") else Lines(gap, WriteLine(sts[0], style, gap), WriteText(sts[1..], style, gap))
  }

  lemma {:induction false} WriteTextMeans(sts: seq<Statement>, style: Style, gap: string)
    requires IsStyle(style) && IsLayout(gap) && gap != "" && AllSayable(sts)
    ensures var text := WriteText(sts, style, gap);
            TextOk(text) && Statements(text) == sts && StartsApart(ShowText(text))
  {
    if sts != [] {
      WriteLineMeans(sts[0], style, gap);
      WriteTextMeans(sts[1..], style, gap);
      assert sts == [sts[0]] + sts[1..];
    }
  }

  ghost predicate BarePath(path: seq<string>) {
    forall i :: 0 <= i < |path| ==> IsBareKey(path[i])
  }

  lemma {:induction false} SayBoth(a: seq<Statement>, b: seq<Statement>)
    requires AllSayable(a) && AllSayable(b)
    ensures AllSayable(a + b)
  {
  }

  lemma {:induction false} OwnSayable(v: Value, keys: seq<string>, path: seq<string>, style: Style)
    requires KeysIn(v, keys) && Bare(v)
    ensures AllSayable(Own(v, keys, path, style))
    decreases |keys|
  {
    if keys != [] {
      var k := keys[0];
      assert IsBareKey(k) && Bare(v.entries[k]);
      OwnSayable(v, keys[1..], path, style);
      SayBoth([Pair(k, v.entries[k])], Own(v, keys[1..], path, style));
      SayBoth([], Own(v, keys[1..], path, style));
    }
  }

  lemma {:induction false} EntrySectionSayable(v: Value, k: string, path: seq<string>, style: Style)
    requires IsStyle(style) && v.Table? && k in v.entries && v.entries[k].Table? && Bare(v) && BarePath(path)
    ensures AllSayable([Header(path + [k])] + Section(v.entries[k], path + [k], style))
    decreases v, 0, 0
  {
    assert IsBareKey(k) && Bare(v.entries[k]);
    SectionSayable(v.entries[k], path + [k], style);
    SayBoth([Header(path + [k])], Section(v.entries[k], path + [k], style));
  }

  lemma {:induction false} BelowSayable(v: Value, keys: seq<string>, path: seq<string>, style: Style)
    requires IsStyle(style) && KeysIn(v, keys) && Bare(v) && BarePath(path)
    ensures AllSayable(Below(v, keys, path, style))
    decreases v, 0, |keys| + 1
  {
    if keys != [] {
      var k := keys[0];
      var rest := Below(v, keys[1..], path, style);
      BelowSayable(v, keys[1..], path, style);
      if IsSection(v.entries[k], path + [k], style) {
        EntrySectionSayable(v, k, path, style);
        SayBoth([Header(path + [k])] + Section(v.entries[k], path + [k], style), rest);
      } else {
        SayBoth([], rest);
      }
    }
  }

  lemma {:induction false} SectionSayable(v: Value, path: seq<string>, style: Style)
    requires IsStyle(style) && v.Table? && Bare(v) && BarePath(path)
    ensures AllSayable(Section(v, path, style))
    decreases v, 1
  {
    var keys := style.order(v.entries);
    OrderListsKeys(v, style);
    OwnSayable(v, keys, path, style);
    BelowSayable(v, keys, path, style);
    SayBoth(Own(v, keys, path, style), Below(v, keys, path, style));
  }

  /** Every tree of bare keys has a text in every style and with any non-empty layout, and it loads back. */
  lemma {:induction false} EveryTreePrints(t: Tree, style: Style, gap: string) returns (text: Text)
    requires IsStyle(style) && IsLayout(gap) && gap != "" && Bare(Table(t))
    ensures TextOk(text) && Statements(text) == Section(Table(t), [], style)
    ensures Loads(ShowText(text)) == Ok(t)
  {
    SectionSayable(Table(t), [], style);
    text := WriteText(Section(Table(t), [], style), style, gap);
    WriteTextMeans(Section(Table(t), [], style), style, gap);
    WrittenTreeLoads(t, style, text);
  }

  ghost function KeyList(t: Tree): seq<string>
    decreases |t|
  {
    if t == map[] then []
    else
      var k :| k in t;
      [k] + KeyList(t - {k})
  }

  lemma {:induction false} KeyListEnumerates(t: Tree)
    ensures Enumerates(KeyList(t), t)
    decreases |t|
  {
    if t != map[] {
      var keys := KeyList(t);
      var rest := t - {keys[0]};
      KeyListEnumerates(rest);
      assert keys[1..] == KeyList(rest);
      assert forall k :: k in keys <==> k == keys[0] || k in keys[1..];
      forall i, j | 0 <= i < j < |keys| ensures keys[i] != keys[j] {
        assert keys[j] == keys[1..][j - 1];
        if i > 0 {
          assert keys[i] == keys[1..][i - 1];
        } else {
          assert keys[1..][j - 1] in keys[1..];
        }
      }
    }
  }

  /** There are styles: one for each way of dividing a tree into sections. */
  lemma {:induction false} StyleExists(sectioned: seq<string> -> bool) returns (style: Style)
    ensures IsStyle(style) && style.sectioned == sectioned
  {
    style := Style(t => KeyList(t), sectioned);
    forall t ensures Enumerates(style.order(t), t) {
      KeyListEnumerates(t);
    }
  }
}
