/**
  What `loads` can return: trees whose keys are all non-empty bare keys, and every one of those.
*/
module TomlRange {
  import opened Wrappers
  import opened TomlSpec
  import opened TomlText
  import opened TomlPrinting
  import opened TomlReading

  lemma {:induction false} KeyEndStops(s: string, pos: nat)
    requires pos <= |s|
    ensures forall i :: pos <= i < KeyEnd(s, pos) ==> IsKeyChar(s[i])
    decreases |s| - pos
  {
    if pos < |s| && IsKeyChar(s[pos]) {
      KeyEndStops(s, pos + 1);
    }
  }

  lemma {:induction false} ParsedKey(s: string, pos: nat)
    requires pos <= |s|
    ensures ParseKey(s, pos).Ok? ==> IsBareKey(ParseKey(s, pos).value.0)
  {
    KeyEndStops(s, Skip(s, pos));
  }

  ghost predicate AllBare(elems: seq<Value>) {
    forall i :: 0 <= i < |elems| ==> Bare(elems[i])
  }

  lemma {:induction false} BareWith(t: Tree, k: string, v: Value)
    requires Bare(Table(t)) && IsBareKey(k) && Bare(v)
    ensures Bare(Table(t[k := v]))
  {
  }

  lemma {:induction false} BareEntry(t: Tree, k: string)
    requires Bare(Table(t)) && k in t
    ensures Bare(t[k])
  {
  }

  lemma {:induction false} ParsedValue(s: string, pos: nat)
    requires pos <= |s|
    ensures ParseValue(s, pos).Ok? ==> Bare(ParseValue(s, pos).value.0)
    decreases |s| - pos, 3
  {
    var p := Skip(s, pos);
    if Sees(s, p, '[') {
      ParsedItems(s, Skip(s, p + 1));
    } else if Sees(s, p, '{') {
      ParsedPairs(s, Skip(s, p + 1), map[]);
    }
  }

  lemma {:induction false} ParsedItems(s: string, pos: nat)
    requires pos <= |s|
    ensures ItemsAt(s, pos).Ok? ==> AllBare(ItemsAt(s, pos).value.0)
    decreases |s| - pos, 4
  {
    if !Sees(s, pos, ']') {
      ParsedValue(s, pos);
      var v := ParseValue(s, pos);
      if v.Ok? {
        var q := Skip(s, v.value.1);
        if Sees(s, q, ',') {
          ParsedItems(s, Skip(s, q + 1));
        }
      }
    }
  }

  lemma {:induction false} ParsedPair(s: string, pos: nat)
    requires pos <= |s|
    ensures PairAt(s, pos).Ok? ==> IsBareKey(PairAt(s, pos).value.0.0) && Bare(PairAt(s, pos).value.0.1)
    decreases |s| - pos, 4
  {
    ParsedKey(s, pos);
    var k := ParseKey(s, pos);
    if k.Ok? {
      var q := Skip(s, k.value.1);
      if Sees(s, q, '=') {
        ParsedValue(s, q + 1);
      }
    }
  }

  lemma {:induction false} ParsedPairs(s: string, pos: nat, out: Tree)
    requires pos <= |s| && Bare(Table(out))
    ensures PairsAt(s, pos, out).Ok? ==> Bare(Table(PairsAt(s, pos, out).value.0))
    decreases |s| - pos, 5
  {
    if !Sees(s, pos, '}') {
      ParsedPair(s, pos);
      var kv := PairAt(s, pos);
      if kv.Ok? {
        var q := Skip(s, kv.value.1);
        BareWith(out, kv.value.0.0, kv.value.0.1);
        if Sees(s, q, ',') {
          ParsedPairs(s, Skip(s, q + 1), out[kv.value.0.0 := kv.value.0.1]);
        }
      }
    }
  }

  lemma {:induction false} ParsedHeaderTail(s: string, pos: nat, parts: seq<string>)
    requires pos <= |s| && BarePath(parts)
    ensures HeaderTail(s, pos, parts).Ok? ==>
              BarePath(HeaderTail(s, pos, parts).value.0) && |HeaderTail(s, pos, parts).value.0| >= |parts|
    decreases |s| - pos
  {
    if Sees(s, pos, '.') {
      ParsedKey(s, pos + 1);
      var k := ParseKey(s, pos + 1);
      if k.Ok? {
        ParsedHeaderTail(s, k.value.1, parts + [k.value.0]);
      }
    }
  }

  lemma {:induction false} ParsedStatement(s: string, pos: nat)
    requires pos < |s|
    ensures StatementAt(s, pos).Ok? ==> Sayable(StatementAt(s, pos).value.0)
  {
    if s[pos] == '[' {
      ParsedKey(s, pos + 1);
      var k := ParseKey(s, pos + 1);
      if k.Ok? {
        ParsedHeaderTail(s, k.value.1, [k.value.0]);
      }
    } else {
      ParsedPair(s, pos);
    }
  }

  lemma {:induction false} TouchBare(t: Tree, path: seq<string>)
    requires Bare(Table(t)) && BarePath(path)
    ensures Touch(t, path).Ok? ==> Bare(Table(Touch(t, path).value))
    decreases |path|
  {
    if path != [] {
      var k := path[0];
      if k !in t {
        TouchBare(map[], path[1..]);
        if Touch(map[], path[1..]).Ok? {
          BareWith(t, k, Table(Touch(map[], path[1..]).value));
        }
      } else if t[k].Table? {
        BareEntry(t, k);
        TouchBare(t[k].entries, path[1..]);
        if Touch(t[k].entries, path[1..]).Ok? {
          BareWith(t, k, Table(Touch(t[k].entries, path[1..]).value));
        }
      }
    }
  }

  lemma {:induction false} PutBare(t: Tree, path: seq<string>, key: string, v: Value)
    requires Bare(Table(t)) && BarePath(path) && IsBareKey(key) && Bare(v)
    ensures Put(t, path, key, v).Ok? ==> Bare(Table(Put(t, path, key, v).value))
    decreases |path|
  {
    if path == [] {
      BareWith(t, key, v);
    } else if path[0] in t && t[path[0]].Table? {
      BareEntry(t, path[0]);
      PutBare(t[path[0]].entries, path[1..], key, v);
      var below := Put(t[path[0]].entries, path[1..], key, v);
      if below.Ok? {
        BareWith(t, path[0], Table(below.value));
      }
    }
  }

  lemma {:induction false} ApplyBare(d: Doc, st: Statement)
    requires Bare(Table(d.root)) && BarePath(d.current) && Sayable(st)
    ensures Apply(d, st).Ok? ==> Bare(Table(Apply(d, st).value.root)) && BarePath(Apply(d, st).value.current)
  {
    match st
    case Header(path) => TouchBare(d.root, path);
    case Pair(key, v) => PutBare(d.root, d.current, key, v);
  }

  lemma {:induction false} LoadFromBare(s: string, pos: nat, d: Doc)
    requires pos <= |s| && Bare(Table(d.root)) && BarePath(d.current)
    ensures LoadFrom(s, pos, d).Ok? ==> Bare(Table(LoadFrom(s, pos, d).value))
    decreases |s| - pos
  {
    var p := Skip(s, pos);
    if p < |s| {
      ParsedStatement(s, p);
      var st := ParseStatement(s, p);
      if st.Ok? {
        ApplyBare(d, st.value.0);
        var next := Apply(d, st.value.0);
        if next.Ok? {
          LoadFromBare(s, st.value.1, next.value);
        }
      }
    }
  }

  lemma {:induction false} LoadsReturnsBare(s: string)
    requires Loads(s).Ok?
    ensures Bare(Table(Loads(s).value))
  {
    LoadFromBare(s, 0, EMPTY);
  }

  /** A tree is the result of `loads` on some text exactly if all its keys are non-empty bare keys. */
  lemma {:induction false} LoadsRange(t: Tree)
    ensures (exists s :: Loads(s) == Ok(t)) <==> Bare(Table(t))
  {
    if s :| Loads(s) == Ok(t) {
      LoadsReturnsBare(s);
    }
    if Bare(Table(t)) {
      var style := StyleExists(path => true);
      var text := EveryTreePrints(t, style, "\n");
      assert Loads(ShowText(text)) == Ok(t);
    }
  }
}
