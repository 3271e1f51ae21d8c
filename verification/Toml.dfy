/**
  The parser itself: a cursor over the text that every routine moves, and `loads`, which builds
  dictionaries in place through `root`, `cursor` and `current`.
*/
module Toml {
  import opened Decimals
  import opened Wrappers
  import opened TomlSpec
  import opened TomlPaths
  import opened TomlMirror

  class State {
    const src: string
    var pos: nat

    constructor (src: string)
      ensures this.src == src && pos == 0
    {
      this.src := src;
      pos := 0;
    }

    predicate Eof()
      reads this
    {
      pos >= |src|
    }

    /** None stands for the empty string that `peek` returns at the end. */
    function Peek(): Option<char>
      reads this
    {
      if Eof() then None else Some(src[pos])
    }

    method Advance() returns (ch: Option<char>)
      modifies this`pos
      ensures ch == old(Peek()) && pos == old(pos) + 1
    {
      ch := Peek();
      pos := pos + 1;
    }

    method Expect(ch: char) returns (r: Result<(), LoadError>)
      modifies this`pos
      ensures if Sees(src, old(pos), ch) then r == Ok(()) && pos == old(pos) + 1
              else r == Err(TomliError) && pos == old(pos)
    {
      if Peek() != Some(ch) {
        return Err(TomliError);
      }
      pos := pos + 1;
      r := Ok(());
    }
  }

  /** The routine returned what the specification reads, and left the cursor where it ends. */
  predicate Outcome<T(==)>(r: Result<T, LoadError>, pos: nat, spec: Parse<T>) {
    match spec
    case Ok(read) => r == Ok(read.0) && pos == read.1
    case Err(e) => r == Err(e)
  }

  method SkipWhitespace(state: State)
    requires state.pos <= |state.src|
    modifies state`pos
    ensures state.pos == Skip(state.src, old(state.pos))
  {
    ghost var s, start := state.src, state.pos;
    while !state.Eof()
      invariant state.pos <= |s| && Skip(s, state.pos) == Skip(s, start)
      decreases |s| - state.pos
    {
      var ch := state.Peek().value;
      if ch == ' ' || ch == '\t' || ch == '\n' || ch == '\r' {
        state.pos := state.pos + 1;
      } else if ch == '#' {
        ghost var hash := state.pos;
        while !state.Eof() && state.Peek() != Some('\n')
          invariant hash <= state.pos <= |s| && CommentEnd(s, state.pos) == CommentEnd(s, hash)
          invariant state.pos == hash ==> s[hash] == '#'
          decreases |s| - state.pos
        {
          state.pos := state.pos + 1;
        }
      } else {
        return;
      }
    }
  }

  method ParseBasicString(state: State) returns (r: Result<string, LoadError>)
    requires state.pos <= |state.src|
    modifies state`pos
    ensures Outcome(r, state.pos, var s, p := state.src, old(state.pos);
                                  if Sees(s, p, '"') then BasicTail(s, p + 1, []) else Err(TomliError))
  {
    var bracket := state.Expect('"');
    if bracket.Err? {
      return Err(bracket.error);
    }
    ghost var s, start := state.src, state.pos;
    var out := "";
    while !state.Eof()
      invariant state.pos <= |s| && BasicTail(s, state.pos, out) == BasicTail(s, start, [])
      decreases |s| - state.pos
    {
      var ch := state.Advance();
      if ch == Some('"') {
        return Ok(out);
      }
      if ch == Some('\\') {
        if state.Eof() {
          return Err(TomliError);
        }
        var esc := state.Advance();
        if esc == Some('n') {
          out := out + "\n";
        } else if esc == Some('t') {
          out := out + "\t";
        } else if esc == Some('\\') {
          out := out + "\\";
        } else if esc == Some('"') {
          out := out + "\"";
        } else if esc == Some('r') {
          out := out + "\r";
        } else {
          return Err(TomliError);
        }
      } else {
        out := out + [ch.value];
      }
    }
    r := Err(TomliError);
  }

  method ParseLiteralString(state: State) returns (r: Result<string, LoadError>)
    requires state.pos <= |state.src|
    modifies state`pos
    ensures Outcome(r, state.pos, var s, p := state.src, old(state.pos);
                                  if Sees(s, p, '\'') then LiteralTail(s, p + 1, []) else Err(TomliError))
  {
    var bracket := state.Expect('\'');
    if bracket.Err? {
      return Err(bracket.error);
    }
    ghost var s, start := state.src, state.pos;
    var out := "";
    while !state.Eof()
      invariant state.pos <= |s| && LiteralTail(s, state.pos, out) == LiteralTail(s, start, [])
      decreases |s| - state.pos
    {
      var ch := state.Advance();
      if ch == Some('\'') {
        return Ok(out);
      }
      out := out + [ch.value];
    }
    r := Err(TomliError);
  }

  /** Python's `int` on an optional sign and digits. */
  function IntOf(text: string): int
    requires text != ""
  {
    if text[0] == '-' then -Decimal(text[1..])
    else if text[0] == '+' then Decimal(text[1..])
    else Decimal(text)
  }

  method ParseInt(state: State) returns (r: Result<int, LoadError>)
    requires state.pos <= |state.src|
    modifies state`pos
    ensures Outcome(r, state.pos, TomlSpec.ParseInt(state.src, old(state.pos)))
  {
    ghost var s := state.src;
    var start := state.pos;
    if state.Peek() == Some('-') || state.Peek() == Some('+') {
      state.pos := state.pos + 1;
    }
    var digitsStart := state.pos;
    while !state.Eof() && IsDigit(state.Peek().value)
      invariant digitsStart <= state.pos <= |s| && DigitsEnd(s, state.pos) == DigitsEnd(s, digitsStart)
      decreases |s| - state.pos
    {
      state.pos := state.pos + 1;
    }
    if state.pos == digitsStart {
      return Err(TomliError);
    }
    SignedSlice(s, start, digitsStart, state.pos);
    r := Ok(IntOf(state.src[start..state.pos]));
  }

  lemma SignedSlice(s: string, start: nat, digitsStart: nat, end: nat)
    requires start <= digitsStart <= start + 1 && digitsStart < end <= |s| && end == DigitsEnd(s, digitsStart)
    requires digitsStart == start + 1 <==> Sees(s, start, '-') || Sees(s, start, '+')
    ensures IntOf(s[start..end]) == if s[start] == '-' then -Decimal(s[digitsStart..end])
            else Decimal(s[digitsStart..end])
  {
    assert s[start..end][0] == s[start];
    if digitsStart == start + 1 {
      assert s[start..end][1..] == s[digitsStart..end];
    }
  }

  method ParseBool(state: State) returns (r: Result<bool, LoadError>)
    requires state.pos <= |state.src|
    modifies state`pos
    ensures Outcome(r, state.pos, TomlSpec.ParseBool(state.src, old(state.pos)))
  {
    var s, pos := state.src, state.pos;
    if pos + 4 <= |s| && s[pos..pos + 4] == "true" {
      state.pos := pos + 4;
      return Ok(true);
    }
    if pos + 5 <= |s| && s[pos..pos + 5] == "false" {
      state.pos := pos + 5;
      return Ok(false);
    }
    r := Err(TomliError);
  }

  method ParseKey(state: State) returns (r: Result<string, LoadError>)
    requires state.pos <= |state.src|
    modifies state`pos
    ensures Outcome(r, state.pos, TomlSpec.ParseKey(state.src, old(state.pos)))
  {
    SkipWhitespace(state);
    ghost var s := state.src;
    var start := state.pos;
    while !state.Eof()
      invariant start <= state.pos <= |s| && KeyEnd(s, state.pos) == KeyEnd(s, start)
      decreases |s| - state.pos
    {
      if IsKeyChar(state.Peek().value) {
        state.pos := state.pos + 1;
      } else {
        break;
      }
    }
    if state.pos == start {
      return Err(TomliError);
    }
    r := Ok(state.src[start..state.pos]);
  }

  method ParseValue(state: State) returns (r: Result<Value, LoadError>)
    requires state.pos <= |state.src|
    modifies state`pos
    ensures Outcome(r, state.pos, ValueAt(state.src, old(state.pos)))
    decreases |state.src| - state.pos, 3
  {
    ghost var start := state.pos;
    SkipWhitespace(state);
    var ch := state.Peek();
    if ch == Some('"') {
      var text := ParseBasicString(state);
      r := if text.Ok? then Ok(Str(text.value)) else Err(text.error);
    } else if ch == Some('\'') {
      var text := ParseLiteralString(state);
      r := if text.Ok? then Ok(Str(text.value)) else Err(text.error);
    } else if ch == Some('[') {
      var elems := ParseArray(state);
      r := if elems.Ok? then Ok(Array(elems.value)) else Err(elems.error);
    } else if ch == Some('{') {
      var entries := ParseInlineTable(state);
      r := if entries.Ok? then Ok(Table(entries.value)) else Err(entries.error);
    } else if ch == Some('t') || ch == Some('f') {
      var b := ParseBool(state);
      r := if b.Ok? then Ok(Bool(b.value)) else Err(b.error);
    } else if ch == Some('-') || ch == Some('+') || (ch.Some? && IsDigit(ch.value)) {
      var n := ParseInt(state);
      r := if n.Ok? then Ok(Int(n.value)) else Err(n.error);
    } else {
      r := Err(TomliError);
    }
  }

  /**
    What stands after an item: the closing bracket (true), perhaps after a comma, or a comma and
    more items (false).
  */
  function Separator(s: string, pos: nat, close: char): (r: Parse<bool>)
    requires pos <= |s|
    ensures r.Ok? ==> pos < r.value.1 <= |s| && (!r.value.0 ==> !Sees(s, r.value.1, close))
  {
    var q := Skip(s, pos);
    if Sees(s, q, ',') then
      var next := Skip(s, q + 1);
      if Sees(s, next, close) then Ok((true, next + 1)) else Ok((false, next))
    else if Sees(s, q, close) then Ok((true, q + 1))
    else Err(TomliError)
  }

  /** The end of each turn of the loops over items and pairs. */
  method ParseSeparator(state: State, close: char) returns (r: Result<bool, LoadError>)
    requires state.pos <= |state.src|
    modifies state`pos
    ensures Outcome(r, state.pos, Separator(state.src, old(state.pos), close))
  {
    SkipWhitespace(state);
    var ch := state.Peek();
    if ch == Some(',') {
      state.pos := state.pos + 1;
      SkipWhitespace(state);
      if state.Peek() == Some(close) {
        state.pos := state.pos + 1;
        return Ok(true);
      }
      return Ok(false);
    }
    if ch == Some(close) {
      state.pos := state.pos + 1;
      return Ok(true);
    }
    r := Err(TomliError);
  }

  /** What remains to be read after some values, as the outcome of the whole array. */
  function After(out: seq<Value>, rest: Parse<seq<Value>>): Parse<seq<Value>> {
    match rest
    case Ok(read) => Ok((out + read.0, read.1))
    case Err(e) => Err(e)
  }

  lemma {:induction false} ArrayStart(s: string, pos: nat)
    requires Sees(s, pos, '[')
    ensures ArrayAt(s, pos) == ItemsAt(s, Skip(s, pos + 1))
    ensures After([], ItemsAt(s, Skip(s, pos + 1))) == ItemsAt(s, Skip(s, pos + 1))
  {
    var all := ItemsAt(s, Skip(s, pos + 1));
    if all.Ok? {
      assert [] + all.value.0 == all.value.0;
    }
  }

  lemma {:induction false} NoItems(s: string, pos: nat)
    requires Sees(s, pos, ']')
    ensures ItemsAt(s, pos) == Ok(([], pos + 1))
  {
  }

  lemma {:induction false} ItemFails(s: string, pos: nat, out: seq<Value>)
    requires pos <= |s| && !Sees(s, pos, ']') && ValueAt(s, pos).Err?
    ensures After(out, ItemsAt(s, pos)) == Err(ValueAt(s, pos).error)
  {
  }

  lemma {:induction false} ItemClosed(s: string, pos: nat, v: Value, p: nat, q: nat)
    requires pos <= |s| && p <= |s| && !Sees(s, pos, ']') && ValueAt(s, pos) == Ok((v, p)) && q == Skip(s, p)
    requires !Sees(s, q, ',')
    ensures ItemsAt(s, pos) == if Sees(s, q, ']') then Ok(([v], q + 1)) else Err(TomliError)
  {
  }

  lemma {:induction false} ItemFollowed(s: string, pos: nat, v: Value, p: nat, q: nat, next: nat)
    requires pos <= |s| && p <= |s| && !Sees(s, pos, ']') && ValueAt(s, pos) == Ok((v, p)) && q == Skip(s, p)
    requires Sees(s, q, ',') && next == Skip(s, q + 1)
    ensures ItemsAt(s, pos) == After([v], ItemsAt(s, next))
  {
  }

  lemma {:induction false} AfterAfter(out: seq<Value>, v: Value, rest: Parse<seq<Value>>)
    ensures After(out, After([v], rest)) == After(out + [v], rest)
  {
    if rest.Ok? {
      assert out + ([v] + rest.value.0) == out + [v] + rest.value.0;
    }
  }

  /** One turn of the loop, as the specification sees it. */
  lemma {:induction false} ItemsAfter(s: string, pos: nat, out: seq<Value>, v: Value, p: nat)
    requires pos <= |s| && p <= |s| && !Sees(s, pos, ']') && ValueAt(s, pos) == Ok((v, p))
    ensures After(out, ItemsAt(s, pos)) == match Separator(s, p, ']')
            case Ok((true, end)) => Ok((out + [v], end))
            case Ok((false, next)) => After(out + [v], ItemsAt(s, next))
            case Err(e) => Err(e)
  {
    var q := Skip(s, p);
    if Sees(s, q, ',') {
      var next := Skip(s, q + 1);
      ItemFollowed(s, pos, v, p, q, next);
      AfterAfter(out, v, ItemsAt(s, next));
      if Sees(s, next, ']') {
        NoItems(s, next);
        assert out + [v] + [] == out + [v];
      }
    } else {
      ItemClosed(s, pos, v, p, q);
    }
  }

  method ParseArray(state: State) returns (r: Result<seq<Value>, LoadError>)
    requires state.pos <= |state.src|
    modifies state`pos
    ensures Outcome(r, state.pos, var s, p := state.src, old(state.pos);
                                  if Sees(s, p, '[') then ArrayAt(s, p) else Err(TomliError))
    decreases |state.src| - state.pos, 2
  {
    ghost var s, start := state.src, state.pos;
    var bracket := state.Expect('[');
    if bracket.Err? {
      return Err(bracket.error);
    }
    ArrayStart(s, start);
    var out := [];
    SkipWhitespace(state);
    if state.Peek() == Some(']') {
      NoItems(s, state.pos);
      state.pos := state.pos + 1;
      return Ok(out);
    }
    while true
      invariant start < state.pos <= |s| && !Sees(s, state.pos, ']')
      invariant After(out, ItemsAt(s, state.pos)) == ArrayAt(s, start)
      decreases |s| - state.pos
    {
      ghost var here := state.pos;
      var v := ParseValue(state);
      if v.Err? {
        ItemFails(s, here, out);
        return Err(v.error);
      }
      ItemsAfter(s, here, out, v.value, state.pos);
      out := out + [v.value];
      var closed := ParseSeparator(state, ']');
      if closed.Err? {
        return Err(closed.error);
      }
      if closed.value {
        return Ok(out);
      }
    }
  }

  lemma {:induction false} InlineStart(s: string, pos: nat)
    requires Sees(s, pos, '{')
    ensures InlineAt(s, pos) == PairsAt(s, Skip(s, pos + 1), map[])
  {
  }

  lemma {:induction false} NoPairs(s: string, pos: nat, out: Tree)
    requires Sees(s, pos, '}')
    ensures PairsAt(s, pos, out) == Ok((out, pos + 1))
  {
  }

  lemma {:induction false} PairFails(s: string, pos: nat, out: Tree)
    requires pos <= |s| && !Sees(s, pos, '}') && PairAt(s, pos).Err?
    ensures PairsAt(s, pos, out) == Err(PairAt(s, pos).error)
  {
  }

  lemma {:induction false} PairsAfter(s: string, pos: nat, out: Tree, k: string, v: Value, p: nat)
    requires pos <= |s| && p <= |s| && !Sees(s, pos, '}') && PairAt(s, pos) == Ok(((k, v), p))
    ensures PairsAt(s, pos, out) == match Separator(s, p, '}')
            case Ok((true, end)) => Ok((out[k := v], end))
            case Ok((false, next)) => PairsAt(s, next, out[k := v])
            case Err(e) => Err(e)
  {
    var q := Skip(s, p);
    if Sees(s, q, ',') {
      var next := Skip(s, q + 1);
      if Sees(s, next, '}') {
        NoPairs(s, next, out[k := v]);
      }
    }
  }

  /** `key = value`, without the write. */
  method ParseKeyValue(state: State) returns (r: Result<(string, Value), LoadError>)
    requires state.pos <= |state.src|
    modifies state`pos
    ensures Outcome(r, state.pos, PairAt(state.src, old(state.pos)))
    decreases |state.src| - state.pos, 4
  {
    var key := ParseKey(state);
    if key.Err? {
      return Err(key.error);
    }
    SkipWhitespace(state);
    var equals := state.Expect('=');
    if equals.Err? {
      return Err(equals.error);
    }
    var value := ParseValue(state);
    r := if value.Ok? then Ok((key.value, value.value)) else Err(value.error);
  }

  method ParseInlineTable(state: State) returns (r: Result<Tree, LoadError>)
    requires state.pos <= |state.src|
    modifies state`pos
    ensures Outcome(r, state.pos, var s, p := state.src, old(state.pos);
                                  if Sees(s, p, '{') then InlineAt(s, p) else Err(TomliError))
    decreases |state.src| - state.pos, 2
  {
    ghost var s, start := state.src, state.pos;
    var bracket := state.Expect('{');
    if bracket.Err? {
      return Err(bracket.error);
    }
    InlineStart(s, start);
    var out: Tree := map[];
    SkipWhitespace(state);
    if state.Peek() == Some('}') {
      NoPairs(s, state.pos, out);
      state.pos := state.pos + 1;
      return Ok(out);
    }
    while true
      invariant start < state.pos <= |s| && !Sees(s, state.pos, '}')
      invariant PairsAt(s, state.pos, out) == InlineAt(s, start)
      decreases |s| - state.pos
    {
      ghost var here := state.pos;
      var kv := ParseKeyValue(state);
      if kv.Err? {
        PairFails(s, here, out);
        return Err(kv.error);
      }
      PairsAfter(s, here, out, kv.value.0, kv.value.1, state.pos);
      out := out[kv.value.0 := kv.value.1];
      var closed := ParseSeparator(state, '}');
      if closed.Err? {
        return Err(closed.error);
      }
      if closed.value {
        return Ok(out);
      }
    }
  }

  lemma {:induction false} HeaderStart(s: string, pos: nat)
    requires Sees(s, pos, '[')
    ensures var first := TomlSpec.ParseKey(s, pos + 1);
            ParseHeader(s, pos) == if first.Err? then Err(first.error) else PartsAt(s, first.value.1, [first.value.0])
  {
  }

  lemma {:induction false} HeaderNext(s: string, pos: nat, parts: seq<string>)
    requires Sees(s, pos, '.')
    ensures var part := TomlSpec.ParseKey(s, pos + 1);
            PartsAt(s, pos, parts) ==
            if part.Err? then Err(part.error) else PartsAt(s, part.value.1, parts + [part.value.0])
  {
  }

  lemma {:induction false} HeaderEnd(s: string, pos: nat, parts: seq<string>)
    requires pos <= |s| && !Sees(s, pos, '.')
    ensures var q := Skip(s, pos);
            PartsAt(s, pos, parts) == if Sees(s, q, ']') then Ok((parts, q + 1)) else Err(TomliError)
  {
  }

  method ParseTableHeader(state: State) returns (r: Result<seq<string>, LoadError>)
    requires state.pos <= |state.src|
    modifies state`pos
    ensures Outcome(r, state.pos, var s, p := state.src, old(state.pos);
                                  if Sees(s, p, '[') then ParseHeader(s, p) else Err(TomliError))
  {
    var bracket := state.Expect('[');
    if bracket.Err? {
      return Err(bracket.error);
    }
    HeaderStart(state.src, state.pos - 1);
    var first := ParseKey(state);
    if first.Err? {
      return Err(first.error);
    }
    r := ParseMoreKeys(state, first.value);
  }

  /** The loop over the dots of a header, and its closing bracket. */
  method ParseMoreKeys(state: State, first: string) returns (r: Result<seq<string>, LoadError>)
    requires state.pos <= |state.src|
    modifies state`pos
    ensures Outcome(r, state.pos, PartsAt(state.src, old(state.pos), [first]))
  {
    ghost var s, start := state.src, state.pos;
    var parts := [first];
    while !state.Eof() && state.Peek() == Some('.')
      invariant state.pos <= |s| && PartsAt(s, state.pos, parts) == PartsAt(s, start, [first])
      decreases |s| - state.pos
    {
      HeaderNext(s, state.pos, parts);
      state.pos := state.pos + 1;
      var part := ParseKey(state);
      if part.Err? {
        return Err(part.error);
      }
      parts := parts + [part.value];
    }
    HeaderEnd(s, state.pos, parts);
    SkipWhitespace(state);
    var closed := state.Expect(']');
    r := if closed.Ok? then Ok(parts) else Err(closed.error);
  }

  // ----- dictionaries -----

  lemma {:induction false} HoldsGraftAt(h: Tables, c: Contents, at: Path, hs: Tables, cs: Contents, q: Path)
    requires Holds(h, c) && Holds(hs, cs)
    ensures q in Graft(h, at, hs) <==> q in Graft(c, at, cs)
    ensures q in Graft(h, at, hs) ==> Graft(h, at, hs)[q].entries == Graft(c, at, cs)[q]
  {
    if at <= q {
      SplitBelow(at, q);
      GraftBelow(h, at, hs, q[|at|..]);
      GraftBelow(c, at, cs, q[|at|..]);
    } else {
      GraftElsewhere(h, at, hs, q);
      GraftElsewhere(c, at, cs, q);
    }
  }

  lemma {:induction false} HoldsGraft(h: Tables, c: Contents, at: Path, hs: Tables, cs: Contents)
    requires Holds(h, c) && Holds(hs, cs)
    ensures Holds(Graft(h, at, hs), Graft(c, at, cs))
  {
    var h', c' := Graft(h, at, hs), Graft(c, at, cs);
    forall q ensures (q in h' <==> q in c') && (q in h' ==> h'[q].entries == c'[q]) {
      HoldsGraftAt(h, c, at, hs, cs, q);
    }
  }

  lemma {:induction false} GraftFresh(h: Tables, at: Path, hs: Tables)
    ensures forall q :: q in h && !(at <= q) ==> q in Graft(h, at, hs) && Graft(h, at, hs)[q] == h[q]
    ensures Graft(h, at, hs).Values <= h.Values + hs.Values
  {
    var h' := Graft(h, at, hs);
    forall q | q in h && !(at <= q) ensures q in h' && h'[q] == h[q] {
      GraftElsewhere(h, at, hs, q);
    }
    forall d | d in h'.Values ensures d in h.Values + hs.Values {
      var q :| q in h' && h'[q] == d;
      GraftValue(h, at, hs, q);
    }
  }

  /** `d[k] = v` for the dictionary at path `p`; a table that is stored becomes fresh dictionaries. */
  method Store(d: Dict, k: string, v: Value, ghost h: Tables, ghost c: Contents, ghost t: Tree, ghost p: Path)
    returns (ghost h': Tables, ghost c': Contents)
    requires Mirrors(h, c, t) && Holds(h, c) && p in h && h[p] == d && Has(t, p)
    modifies d
    ensures Mirrors(h', c', SetKey(t, p, k, v)) && Holds(h', c')
    ensures forall q :: q in h && !(p + [k] <= q) ==> q in h' && h'[q] == h[q]
    ensures fresh(h'.Values - h.Values)
    decreases v, 3
  {
    ghost var hs: Tables, cs: Contents;
    var e;
    e, hs, cs := ToStore(v);
    WriteOne(d, k, e, h, c, p);
    StoreMirrors(h, c, t, p, k, v, e, hs, cs);
    HoldsGraft(h, c[p := c[p][k := e]], p + [k], hs, cs);
    GraftFresh(h, p + [k], hs);
    h', c' := Graft(h, p + [k], hs), Graft(c[p := c[p][k := e]], p + [k], cs);
  }

  /** The write itself: no other dictionary changes. */
  method WriteOne(d: Dict, k: string, e: Entry, ghost h: Tables, ghost c: Contents, ghost p: Path)
    requires NoSharing(h) && Holds(h, c) && p in h && h[p] == d
    modifies d
    ensures Holds(h, c[p := c[p][k := e]])
  {
    d.entries := d.entries[k := e];
  }

  method ToStore(v: Value) returns (e: Entry, ghost h: Tables, ghost c: Contents)
    ensures Stored(v, e, h, c) && Holds(h, c) && fresh(h.Values)
    decreases v, 2
  {
    if v.Table? {
      var d;
      d, h, c := Build(v);
      e := Sub(d);
    } else {
      e, h, c := Leaf(v), map[], map[];
    }
  }

  /** The dictionaries of an inline table. */
  method Build(v: Value) returns (d: Dict, ghost h: Tables, ghost c: Contents)
    requires v.Table?
    ensures Mirrors(h, c, v.entries) && Holds(h, c) && [] in h && h[[]] == d && fresh(h.Values)
    decreases v, 1
  {
    d := new Dict();
    h, c := map[[] := d], map[[] := map[]];
    ghost var t: Tree := map[];
    EmptyMirrors(d);
    var todo := v.entries.Keys;
    while todo != {}
      invariant Mirrors(h, c, t) && Holds(h, c) && [] in h && h[[]] == d && fresh(h.Values)
      invariant todo <= v.entries.Keys && t == Except(v.entries, todo)
      decreases |todo|
    {
      var k :| k in todo;
      h, c := Store(d, k, v.entries[k], h, c, t, []);
      ExceptStep(v.entries, todo, k);
      t := SetKey(t, [], k, v.entries[k]);
      todo := todo - {k};
    }
    assert Except(v.entries, {}) == v.entries;
  }

  lemma {:induction false} ExceptStep(t: Tree, keys: set<string>, k: string)
    requires k in keys && k in t
    ensures SetKey(Except(t, keys), [], k, t[k]) == Except(t, keys - {k})
  {
    assert Except(t, keys)[k := t[k]] == Except(t, keys - {k});
  }

  ghost function Except(t: Tree, keys: set<string>): Tree {
    map k | k in t && k !in keys :: t[k]
  }

  // ----- `loads` -----

  /** `cursor` is the dictionary at the path, or some other value if no table is there. */
  ghost predicate Reached(h: Tables, t: Tree, p: Path, cursor: Entry) {
    if Has(t, p) then p in h && cursor == Sub(h[p]) else cursor.Leaf?
  }

  /** The dictionaries below `root` stand for the tree. */
  ghost predicate Standing(root: Dict, h: Tables, c: Contents, t: Tree)
    reads h.Values
  {
    Mirrors(h, c, t) && Holds(h, c) && [] in h && h[[]] == root
  }

  lemma {:induction false} EntryAt(h: Tables, c: Contents, t: Tree, p: Path, k: string)
    requires Mirrors(h, c, t) && Has(t, p)
    ensures p in h && p in c && (k in c[p] <==> k in Get(t, p))
    ensures k in c[p] ==> Reached(h, t, p + [k], c[p][k])
  {
    MirrorsCovers(h, c, t, p);
    MirrorsLink(h, c, t, p, k);
    ChildPath(t, p, k);
  }

  /** One key of a header: the missing dictionary is created, and the cursor moves into what the key holds. */
  method Descend(d: Dict, part: string, ghost h: Tables, ghost c: Contents, ghost t: Tree, ghost p: Path)
    returns (cursor: Entry, ghost h': Tables, ghost c': Contents, ghost t': Tree)
    requires Mirrors(h, c, t) && Holds(h, c) && Has(t, p) && p in h && h[p] == d
    modifies d
    ensures Mirrors(h', c', t') && Holds(h', c') && Reached(h', t', p + [part], cursor)
    ensures fresh(h'.Values - h.Values) && ([] in h ==> [] in h' && h'[[]] == h[[]])
    ensures t' == if part in Get(t, p) then t else SetKey(t, p, part, Table(map[]))
  {
    h', c', t' := h, c, t;
    EntryAt(h, c, t, p, part);
    if part !in d.entries {
      h', c' := Store(d, part, Table(map[]), h, c, t, p);
      t' := SetKey(t, p, part, Table(map[]));
      GetSet(t, p, Get(t, p)[part := Table(map[])]);
      NotBelow(p, part);
      EntryAt(h', c', t', p, part);
    }
    cursor := d.entries[part];
  }

  lemma NotBelow(p: Path, k: string)
    ensures !(p + [k] <= p) && !(p + [k] <= [])
  {
  }

  lemma {:induction false} WalkStep(t: Tree, p: Path, k: string, rest: Path, t': Tree)
    requires Has(t, p) && t' == if k in Get(t, p) then t else SetKey(t, p, k, Table(map[]))
    ensures TouchBelow(t, p, [k] + rest) ==
            if Has(t', p + [k]) then TouchBelow(t', p + [k], rest) else if rest == [] then Ok(t') else Err(TypeError)
  {
    if k !in Get(t, p) {
      TouchBelowMissing(t, p, k, rest);
    } else if Has(t, p + [k]) {
      TouchBelowPresent(t, p, k, rest);
    } else {
      TouchBelowOther(t, p, k, rest);
    }
  }

  /** What the whole walk comes to, once some keys have been walked. */
  function WalkResult(t: Tree, done: Path, rest: Path): Result<Tree, LoadError> {
    if Has(t, done) then TouchBelow(t, done, rest) else if rest == [] then Ok(t) else Err(TypeError)
  }

  lemma {:induction false} WalkTurn(t: Tree, parts: Path, i: nat, t': Tree)
    requires i < |parts| && Has(t, parts[..i])
    requires t' == if parts[i] in Get(t, parts[..i]) then t else SetKey(t, parts[..i], parts[i], Table(map[]))
    ensures parts[..i + 1] == parts[..i] + [parts[i]]
    ensures WalkResult(t, parts[..i], parts[i..]) == WalkResult(t', parts[..i + 1], parts[i + 1..])
  {
    assert parts[..i + 1] == parts[..i] + [parts[i]];
    assert parts[i..] == [parts[i]] + parts[i + 1..];
    WalkStep(t, parts[..i], parts[i], parts[i + 1..], t');
  }

  lemma {:induction false} WalkEnds(t: Tree, parts: Path)
    ensures WalkResult(t, [], parts) == Touch(t, parts) && WalkResult(t, parts, []) == Ok(t)
  {
    if Has(t, parts) {
      TouchBelowDone(t, parts);
    }
  }

  /** The loop of `loads` over the keys of a header. */
  method Walk(root: Dict, parts: seq<string>, ghost h: Tables, ghost c: Contents, ghost t: Tree)
    returns (r: Result<Entry, LoadError>, ghost h': Tables, ghost c': Contents, ghost t': Tree)
    requires Standing(root, h, c, t)
    modifies h.Values
    ensures if r.Ok? then Touch(t, parts) == Ok(t') && Standing(root, h', c', t') && Reached(h', t', parts, r.value)
            else Touch(t, parts) == Err(r.error)
    ensures fresh(h'.Values - h.Values)
  {
    h', c', t' := h, c, t;
    var cursor := Sub(root);
    WalkEnds(t, parts);
    assert parts[..0] == [] && parts[0..] == parts;
    for i := 0 to |parts|
      invariant Standing(root, h', c', t') && fresh(h'.Values - h.Values)
      invariant Reached(h', t', parts[..i], cursor)
      invariant WalkResult(t', parts[..i], parts[i..]) == Touch(t, parts)
    {
      if cursor.Leaf? {
        return Err(TypeError), h', c', t';
      }
      ghost var before := t';
      cursor, h', c', t' := Descend(cursor.dict, parts[i], h', c', t', parts[..i]);
      WalkTurn(before, parts, i, t');
    }
    assert parts[..|parts|] == parts && parts[|parts|..] == [];
    WalkEnds(t', parts);
    r := Ok(cursor);
  }

  /** `_parse_kv`: reads `key = value` and writes it into `dest`. */
  method ParseKv(state: State, dest: Entry, ghost root: Dict, ghost h: Tables, ghost c: Contents, ghost d: Doc)
    returns (r: Result<(), LoadError>, ghost h': Tables, ghost c': Contents, ghost d': Doc)
    requires state.pos <= |state.src|
    requires Standing(root, h, c, d.root) && Reached(h, d.root, d.current, dest)
    modifies state`pos, h.Values
    ensures var read := PairAt(state.src, old(state.pos));
            if read.Err? then r == Err(read.error)
            else var next := Apply(d, Pair(read.value.0.0, read.value.0.1));
                 if next.Err? then r == Err(next.error)
                 else r.Ok? && d' == next.value && state.pos == read.value.1
    ensures r.Ok? ==>
            Standing(root, h', c', d'.root) && Reached(h', d'.root, d'.current, dest) && fresh(h'.Values - h.Values)
  {
    h', c', d' := h, c, d;
    var kv := ParseKeyValue(state);
    if kv.Err? {
      return Err(kv.error), h, c, d;
    }
    var key, value := kv.value.0, kv.value.1;
    PutIsSet(d.root, d.current, key, value);
    if dest.Leaf? {
      return Err(TypeError), h, c, d;
    }
    h', c' := Store(dest.dict, key, value, h, c, d.root, d.current);
    d' := d.(root := SetKey(d.root, d.current, key, value));
    GetSet(d.root, d.current, Get(d.root, d.current)[key := value]);
    NotBelow(d.current, key);
    r := Ok(());
  }

  /** One statement of `loads`: the document after it, and where it ends. */
  function Turn(s: string, pos: nat, d: Doc): (r: Parse<Doc>)
    requires pos < |s|
    ensures Advances(r, pos, s)
  {
    var (st, q) :- ParseStatement(s, pos);
    var next :- Apply(d, st);
    Ok((next, q))
  }

  lemma {:induction false} LoadEnds(s: string, pos: nat, d: Doc)
    requires pos <= |s|
    ensures Skip(s, pos) == |s| ==> LoadAt(s, pos, d) == Ok(d.root)
  {
  }

  lemma {:induction false} LoadTurns(s: string, pos: nat, p: nat, d: Doc)
    requires pos <= |s| && p == Skip(s, pos) < |s|
    ensures var turn := Turn(s, p, d);
            LoadAt(s, pos, d) == if turn.Err? then Err(turn.error) else LoadAt(s, turn.value.1, turn.value.0)
  {
  }

  lemma {:induction false} TurnHeader(s: string, pos: nat, d: Doc)
    requires Sees(s, pos, '[')
    ensures Turn(s, pos, d) == match ParseHeader(s, pos)
            case Err(e) => Err(e)
            case Ok((path, q)) => match Touch(d.root, path)
              case Err(e) => Err(e)
              case Ok(t) => Ok((Doc(t, path), q))
  {
  }

  lemma {:induction false} TurnPair(s: string, pos: nat, d: Doc)
    requires pos < |s| && s[pos] != '['
    ensures Turn(s, pos, d) == match PairAt(s, pos)
            case Err(e) => Err(e)
            case Ok((kv, q)) => match Apply(d, Pair(kv.0, kv.1))
              case Err(e) => Err(e)
              case Ok(next) => Ok((next, q))
  {
  }

  /** A header of `loads`: its keys, and the walk along them. */
  method EnterHeader(state: State, root: Dict, ghost h: Tables, ghost c: Contents, ghost d: Doc)
    returns (r: Result<Entry, LoadError>, ghost h': Tables, ghost c': Contents, ghost d': Doc)
    requires Sees(state.src, state.pos, '[') && Standing(root, h, c, d.root)
    modifies state`pos, h.Values
    ensures var read := ParseHeader(state.src, old(state.pos));
            if read.Err? then r == Err(read.error)
            else var walked := Touch(d.root, read.value.0);
                 if walked.Err? then r == Err(walked.error)
                 else r.Ok? && d' == Doc(walked.value, read.value.0) && state.pos == read.value.1
    ensures r.Ok? ==>
            Standing(root, h', c', d'.root) && Reached(h', d'.root, d'.current, r.value) && fresh(h'.Values - h.Values)
  {
    var parts := ParseTableHeader(state);
    if parts.Err? {
      return Err(parts.error), h, c, d;
    }
    ghost var t;
    r, h', c', t := Walk(root, parts.value, h, c, d.root);
    d' := Doc(t, parts.value);
  }

  /** One turn of the loop of `loads`: a header moves `current`, a pair writes into it. */
  method LoadStatement(state: State, root: Dict, current: Entry, ghost h: Tables, ghost c: Contents, ghost d: Doc)
    returns (r: Result<Entry, LoadError>, ghost h': Tables, ghost c': Contents, ghost d': Doc)
    requires state.pos < |state.src|
    requires Standing(root, h, c, d.root) && Reached(h, d.root, d.current, current)
    modifies state`pos, h.Values
    ensures var turn := Turn(state.src, old(state.pos), d);
            if turn.Err? then r == Err(turn.error)
            else r.Ok? && d' == turn.value.0 && state.pos == turn.value.1
    ensures r.Ok? ==>
            Standing(root, h', c', d'.root) && Reached(h', d'.root, d'.current, r.value) && fresh(h'.Values - h.Values)
  {
    if state.Peek() == Some('[') {
      TurnHeader(state.src, state.pos, d);
      r, h', c', d' := EnterHeader(state, root, h, c, d);
    } else {
      TurnPair(state.src, state.pos, d);
      var written;
      written, h', c', d' := ParseKv(state, current, root, h, c, d);
      r := if written.Ok? then Ok(current) else Err(written.error);
    }
  }

  /**
    The dictionaries that `loads` builds stand for the tree that folding the statements gives; it
    fails as the fold does.
  */
  method Loads(src: string) returns (r: Result<Dict, LoadError>, ghost h: Tables, ghost c: Contents)
    ensures match TomlSpec.Loads(src)
            case Ok(t) => r.Ok? && Standing(r.value, h, c, t) && fresh(h.Values)
            case Err(e) => r == Err(e)
  {
    var state := new State(src);
    var root := new Dict();
    EmptyMirrors(root);
    h, c := map[[] := root], map[[] := map[]];
    r, h, c := LoadLoop(state, root, h, c);
  }

  /** The loop of `loads`. */
  method LoadLoop(state: State, root: Dict, ghost h0: Tables, ghost c0: Contents)
    returns (r: Result<Dict, LoadError>, ghost h: Tables, ghost c: Contents)
    requires state.pos == 0 && Standing(root, h0, c0, map[]) && Reached(h0, map[], [], Sub(root))
    modifies state`pos, h0.Values
    ensures match TomlSpec.Loads(state.src)
            case Ok(t) => r == Ok(root) && Standing(root, h, c, t) && fresh(h.Values - h0.Values)
            case Err(e) => r == Err(e)
  {
    ghost var src := state.src;
    var current := Sub(root);
    h, c := h0, c0;
    ghost var d := EMPTY;
    while true
      invariant state.pos <= |src| && LoadAt(src, state.pos, d) == TomlSpec.Loads(src)
      invariant Standing(root, h, c, d.root) && Reached(h, d.root, d.current, current) && fresh(h.Values - h0.Values)
      decreases |src| - state.pos
    {
      ghost var here := state.pos;
      SkipWhitespace(state);
      if state.Eof() {
        LoadEnds(src, here, d);
        return Ok(root), h, c;
      }
      LoadTurns(src, here, state.pos, d);
      var next;
      next, h, c, d := LoadStatement(state, root, current, h, c, d);
      if next.Err? {
        return Err(next.error), h, c;
      }
      current := next.value;
    }
  }
}
