/**
  The TOML subset: what each parsing routine reads at a position, and the tree a sequence of
  statements builds.
*/
module TomlSpec {
  import opened Decimals
  import opened Wrappers

  datatype Value =
    | Int(n: int)
    | Bool(b: bool)
    | Str(s: string)
    | Array(elems: seq<Value>)
    | Table(entries: Tree)

  type Tree = map<string, Value>

  /** `TomliError` for malformed text; `TypeError` when a header or a write runs into a value that is not a table. */
  datatype LoadError = TomliError | TypeError

  type Parse<T> = Result<(T, nat), LoadError>

  /** A successful parse consumed at least one character and stayed inside the text. */
  predicate Advances<T>(r: Parse<T>, pos: nat, s: string) {
    r.Ok? ==> pos < r.value.1 <= |s|
  }

  /** `peek() == ch`. */
  predicate Sees(s: string, pos: nat, ch: char) {
    pos < |s| && s[pos] == ch
  }

  // ----- layout -----

  predicate IsSpace(c: char) {
    c == ' ' || c == '\t' || c == '\n' || c == '\r'
  }

  /** End of the comment that contains `pos`: the next newline, or the end of the text. */
  function CommentEnd(s: string, pos: nat): (p: nat)
    requires pos <= |s|
    ensures pos <= p <= |s|
    decreases |s| - pos
  {
    if pos == |s| || s[pos] == '\n' then pos else CommentEnd(s, pos + 1)
  }

  /** `_skip_whitespace`. */
  function Skip(s: string, pos: nat): (p: nat)
    requires pos <= |s|
    ensures pos <= p <= |s|
    ensures p < |s| ==> !IsSpace(s[p]) && s[p] != '#'
    decreases |s| - pos
  {
    if pos == |s| then pos
    else if IsSpace(s[pos]) then Skip(s, pos + 1)
    else if s[pos] == '#' then Skip(s, CommentEnd(s, pos + 1))
    else pos
  }

  // ----- strings -----

  /** The character an escape letter stands for. */
  function Unescape(c: char): Option<char> {
    if c == 'n' then Some('\n')
    else if c == 't' then Some('\t')
    else if c == '\\' then Some('\\')
    else if c == '"' then Some('"')
    else if c == 'r' then Some('\r')
    else None
  }

  /** The rest of a "..." string, after `out`. */
  function BasicTail(s: string, pos: nat, out: string): (r: Parse<string>)
    requires pos <= |s|
    ensures Advances(r, pos, s)
    decreases |s| - pos
  {
    if pos == |s| then Err(TomliError)
    else if s[pos] == '"' then Ok((out, pos + 1))
    else if s[pos] == '\\' then
      if pos + 1 == |s| || Unescape(s[pos + 1]).None? then Err(TomliError)
      else BasicTail(s, pos + 2, out + [Unescape(s[pos + 1]).value])
    else BasicTail(s, pos + 1, out + [s[pos]])
  }

  /** The rest of a '...' string, after `out`. */
  function LiteralTail(s: string, pos: nat, out: string): (r: Parse<string>)
    requires pos <= |s|
    ensures Advances(r, pos, s)
    decreases |s| - pos
  {
    if pos == |s| then Err(TomliError)
    else if s[pos] == '\'' then Ok((out, pos + 1))
    else LiteralTail(s, pos + 1, out + [s[pos]])
  }

  // ----- numbers, Booleans and keys -----

  function DigitsEnd(s: string, pos: nat): (p: nat)
    requires pos <= |s|
    ensures pos <= p <= |s|
    decreases |s| - pos
  {
    if pos < |s| && IsDigit(s[pos]) then DigitsEnd(s, pos + 1) else pos
  }

  function ParseInt(s: string, pos: nat): (r: Parse<int>)
    requires pos <= |s|
    ensures Advances(r, pos, s)
  {
    var start := if Sees(s, pos, '-') || Sees(s, pos, '+') then pos + 1 else pos;
    var end := DigitsEnd(s, start);
    if end == start then Err(TomliError)
    else Ok((if s[pos] == '-' then -Decimal(s[start..end]) else Decimal(s[start..end]), end))
  }

  function ParseBool(s: string, pos: nat): (r: Parse<bool>)
    requires pos <= |s|
    ensures Advances(r, pos, s)
  {
    if pos + 4 <= |s| && s[pos..pos + 4] == "true" then Ok((true, pos + 4))
    else if pos + 5 <= |s| && s[pos..pos + 5] == "false" then Ok((false, pos + 5))
    else Err(TomliError)
  }

  predicate IsKeyChar(c: char) {
    'a' <= c <= 'z' || 'A' <= c <= 'Z' || '0' <= c <= '9' || c == '_' || c == '-'
  }

  function KeyEnd(s: string, pos: nat): (p: nat)
    requires pos <= |s|
    ensures pos <= p <= |s|
    decreases |s| - pos
  {
    if pos < |s| && IsKeyChar(s[pos]) then KeyEnd(s, pos + 1) else pos
  }

  function ParseKey(s: string, pos: nat): (r: Parse<string>)
    requires pos <= |s|
    ensures Advances(r, pos, s)
  {
    var start := Skip(s, pos);
    var end := KeyEnd(s, start);
    if end == start then Err(TomliError) else Ok((s[start..end], end))
  }

  // ----- values -----

  function ParseValue(s: string, pos: nat): (r: Parse<Value>)
    requires pos <= |s|
    ensures Advances(r, pos, s)
    decreases |s| - pos, 3
  {
    var p := Skip(s, pos);
    if Sees(s, p, '"') then var (t, q) :- BasicTail(s, p + 1, []); Ok((Str(t), q))
    else if Sees(s, p, '\'') then var (t, q) :- LiteralTail(s, p + 1, []); Ok((Str(t), q))
    else if Sees(s, p, '[') then var (elems, q) :- ParseArray(s, p); Ok((Array(elems), q))
    else if Sees(s, p, '{') then var (entries, q) :- ParseInline(s, p); Ok((Table(entries), q))
    else if Sees(s, p, 't') || Sees(s, p, 'f') then var (b, q) :- ParseBool(s, p); Ok((Bool(b), q))
    else if Sees(s, p, '-') || Sees(s, p, '+') || (p < |s| && IsDigit(s[p]))
      then var (n, q) :- ParseInt(s, p); Ok((Int(n), q))
    else Err(TomliError)
  }

  function ParseArray(s: string, pos: nat): (r: Parse<seq<Value>>)
    requires Sees(s, pos, '[')
    ensures Advances(r, pos, s)
    decreases |s| - pos, 2
  {
    ParseItems(s, Skip(s, pos + 1))
  }

  /** The values from here on and their closing bracket. */
  function ParseItems(s: string, pos: nat): (r: Parse<seq<Value>>)
    requires pos <= |s|
    ensures Advances(r, pos, s)
    decreases |s| - pos, 4
  {
    if Sees(s, pos, ']') then Ok(([], pos + 1))
    else
      var (v, p) :- ParseValue(s, pos);
      var q := Skip(s, p);
      if Sees(s, q, ',') then
        var (rest, end) :- ParseItems(s, Skip(s, q + 1));
        Ok(([v] + rest, end))
      else if Sees(s, q, ']') then Ok(([v], q + 1))
      else Err(TomliError)
  }

  /** `key = value`. */
  function ParsePair(s: string, pos: nat): (r: Parse<(string, Value)>)
    requires pos <= |s|
    ensures Advances(r, pos, s)
    decreases |s| - pos, 4
  {
    var (key, p) :- ParseKey(s, pos);
    var q := Skip(s, p);
    if !Sees(s, q, '=') then Err(TomliError)
    else
      var (v, end) :- ParseValue(s, q + 1);
      Ok(((key, v), end))
  }

  function ParseInline(s: string, pos: nat): (r: Parse<Tree>)
    requires Sees(s, pos, '{')
    ensures Advances(r, pos, s)
    decreases |s| - pos, 2
  {
    ParsePairs(s, Skip(s, pos + 1), map[])
  }

  /** The pairs from here on and their closing brace, added to `out`; a repeated key keeps its last value. */
  function ParsePairs(s: string, pos: nat, out: Tree): (r: Parse<Tree>)
    requires pos <= |s|
    ensures Advances(r, pos, s)
    decreases |s| - pos, 5
  {
    if Sees(s, pos, '}') then Ok((out, pos + 1))
    else
      var (kv, p) :- ParsePair(s, pos);
      var q := Skip(s, p);
      var out' := out[kv.0 := kv.1];
      if Sees(s, q, ',') then ParsePairs(s, Skip(s, q + 1), out')
      else if Sees(s, q, '}') then Ok((out', q + 1))
      else Err(TomliError)
  }

  // The mutually recursive parsers, under names that do not unfold by themselves.

  function ValueAt(s: string, pos: nat): Parse<Value>
    requires pos <= |s|
  {
    ParseValue(s, pos)
  }

  function ItemsAt(s: string, pos: nat): Parse<seq<Value>>
    requires pos <= |s|
  {
    ParseItems(s, pos)
  }

  function PairsAt(s: string, pos: nat, out: Tree): Parse<Tree>
    requires pos <= |s|
  {
    ParsePairs(s, pos, out)
  }

  function ArrayAt(s: string, pos: nat): Parse<seq<Value>>
    requires Sees(s, pos, '[')
  {
    ParseArray(s, pos)
  }

  function InlineAt(s: string, pos: nat): Parse<Tree>
    requires Sees(s, pos, '{')
  {
    ParseInline(s, pos)
  }

  function PairAt(s: string, pos: nat): Parse<(string, Value)>
    requires pos <= |s|
  {
    ParsePair(s, pos)
  }

  // ----- statements -----

  datatype Statement = Header(path: seq<string>) | Pair(key: string, value: Value)

  /** The keys of a header after its first, and its closing bracket. */
  function HeaderTail(s: string, pos: nat, parts: seq<string>): (r: Parse<seq<string>>)
    requires pos <= |s|
    ensures Advances(r, pos, s)
    decreases |s| - pos
  {
    if Sees(s, pos, '.') then
      var (key, p) :- ParseKey(s, pos + 1);
      HeaderTail(s, p, parts + [key])
    else
      var q := Skip(s, pos);
      if Sees(s, q, ']') then Ok((parts, q + 1)) else Err(TomliError)
  }

  function PartsAt(s: string, pos: nat, parts: seq<string>): Parse<seq<string>>
    requires pos <= |s|
  {
    HeaderTail(s, pos, parts)
  }

  function ParseHeader(s: string, pos: nat): (r: Parse<seq<string>>)
    requires Sees(s, pos, '[')
    ensures Advances(r, pos, s)
  {
    var (key, p) :- ParseKey(s, pos + 1);
    HeaderTail(s, p, [key])
  }

  /** One statement, at a position that `Skip` has reached. */
  function ParseStatement(s: string, pos: nat): (r: Parse<Statement>)
    requires pos < |s|
    ensures Advances(r, pos, s)
  {
    if s[pos] == '[' then
      var (path, p) :- ParseHeader(s, pos);
      Ok((Header(path), p))
    else
      var (kv, p) :- ParsePair(s, pos);
      Ok((Pair(kv.0, kv.1), p))
  }

  // ----- the tree -----

  /** Walks a header path, creating the tables that are missing. It may end at, but not cross, another value. */
  function Touch(t: Tree, path: seq<string>): Result<Tree, LoadError>
    decreases path
  {
    if path == [] then Ok(t)
    else
      var k := path[0];
      if k !in t then
        var below :- Touch(map[], path[1..]);
        Ok(t[k := Table(below)])
      else if t[k].Table? then
        var below :- Touch(t[k].entries, path[1..]);
        Ok(t[k := Table(below)])
      else if path[1..] == [] then Ok(t)
      else Err(TypeError)
  }

  /** Sets a key in the table at the end of a path. */
  function Put(t: Tree, path: seq<string>, key: string, v: Value): Result<Tree, LoadError>
    decreases path
  {
    if path == [] then Ok(t[key := v])
    else if path[0] in t && t[path[0]].Table? then
      var below :- Put(t[path[0]].entries, path[1..], key, v);
      Ok(t[path[0] := Table(below)])
    else Err(TypeError)
  }

  /** The tree so far and the path of the last header. */
  datatype Doc = Doc(root: Tree, current: seq<string>)

  function Apply(d: Doc, st: Statement): Result<Doc, LoadError> {
    match st
    case Header(path) =>
      var root :- Touch(d.root, path);
      Ok(Doc(root, path))
    case Pair(key, v) =>
      var root :- Put(d.root, d.current, key, v);
      Ok(d.(root := root))
  }

  function ApplyAll(d: Doc, sts: seq<Statement>): Result<Doc, LoadError>
    decreases |sts|
  {
    if sts == [] then Ok(d)
    else
      var next :- Apply(d, sts[0]);
      ApplyAll(next, sts[1..])
  }

  /** The loop of `loads` from a position on. */
  function LoadFrom(s: string, pos: nat, d: Doc): Result<Tree, LoadError>
    requires pos <= |s|
    decreases |s| - pos
  {
    var p := Skip(s, pos);
    if p == |s| then Ok(d.root)
    else
      var (st, q) :- ParseStatement(s, p);
      var next :- Apply(d, st);
      LoadFrom(s, q, next)
  }

  function LoadAt(s: string, pos: nat, d: Doc): Result<Tree, LoadError>
    requires pos <= |s|
  {
    LoadFrom(s, pos, d)
  }

  const EMPTY := Doc(map[], [])

  function Loads(s: string): Result<Tree, LoadError> {
    LoadFrom(s, 0, EMPTY)
  }
}
