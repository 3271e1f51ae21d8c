/**
  Tables reached by a path of keys: reading one, replacing one, and what the header walk and a
  write through the current table do in those terms.
*/
module TomlPaths {
  import opened Wrappers
  import opened TomlSpec

  /** The path crosses tables only, and ends at one. */
  predicate Has(t: Tree, path: seq<string>)
    decreases |path|
  {
    path == [] || (path[0] in t && t[path[0]].Table? && Has(t[path[0]].entries, path[1..]))
  }

  function Get(t: Tree, path: seq<string>): Tree
    requires Has(t, path)
    decreases |path|
  {
    if path == [] then t else Get(t[path[0]].entries, path[1..])
  }

  function Set(t: Tree, path: seq<string>, u: Tree): Tree
    requires Has(t, path)
    decreases |path|
  {
    if path == [] then u else t[path[0] := Table(Set(t[path[0]].entries, path[1..], u))]
  }

  lemma {:induction false} GetSet(t: Tree, path: seq<string>, u: Tree)
    requires Has(t, path)
    ensures Has(Set(t, path, u), path) && Get(Set(t, path, u), path) == u
    decreases |path|
  {
    if path != [] {
      GetSet(t[path[0]].entries, path[1..], u);
    }
  }

  lemma {:induction false} SetSet(t: Tree, path: seq<string>, u: Tree, w: Tree)
    requires Has(t, path)
    ensures Has(Set(t, path, u), path) && Set(Set(t, path, u), path, w) == Set(t, path, w)
    decreases |path|
  {
    if path != [] {
      SetSet(t[path[0]].entries, path[1..], u, w);
    }
  }

  lemma {:induction false} SetGet(t: Tree, path: seq<string>)
    requires Has(t, path)
    ensures Set(t, path, Get(t, path)) == t
    decreases |path|
  {
    if path != [] {
      SetGet(t[path[0]].entries, path[1..]);
    }
  }

  /** A write through the current table replaces that table, and fails exactly when there is none. */
  lemma {:induction false} PutIsSet(t: Tree, path: seq<string>, key: string, v: Value)
    ensures Put(t, path, key, v) == if Has(t, path) then Ok(Set(t, path, Get(t, path)[key := v])) else Err(TypeError)
    decreases |path|
  {
    if path != [] && path[0] in t && t[path[0]].Table? {
      PutIsSet(t[path[0]].entries, path[1..], key, v);
    }
  }

  /** One key below a table. */
  lemma {:induction false} ChildPath(t: Tree, path: seq<string>, k: string)
    requires Has(t, path)
    ensures Has(t, path + [k]) <==> k in Get(t, path) && Get(t, path)[k].Table?
    ensures Has(t, path + [k]) ==> Get(t, path + [k]) == Get(t, path)[k].entries
    decreases |path|
  {
    if path == [] {
      assert path + [k] == [k] && [k][1..] == [];
    } else {
      assert (path + [k])[1..] == path[1..] + [k];
      ChildPath(t[path[0]].entries, path[1..], k);
    }
  }

  lemma {:induction false} SetChild(t: Tree, path: seq<string>, k: string, u: Tree)
    requires Has(t, path) && Has(t, path + [k])
    ensures Set(t, path + [k], u) == Set(t, path, Get(t, path)[k := Table(u)])
    decreases |path|
  {
    if path == [] {
      assert path + [k] == [k] && [k][1..] == [];
    } else {
      assert (path + [k])[1..] == path[1..] + [k];
      SetChild(t[path[0]].entries, path[1..], k, u);
    }
  }

  /** A header that names a missing key of a table adds an empty table there, and nothing else. */
  lemma {:induction false} TouchMissing(t: Tree, path: seq<string>, k: string)
    requires Has(t, path) && k !in Get(t, path)
    ensures Touch(t, path + [k]) == Ok(Set(t, path, Get(t, path)[k := Table(map[])]))
    decreases |path|
  {
    if path == [] {
      assert path + [k] == [k] && [k][1..] == [];
      assert Touch(map[], []) == Ok(map[]);
    } else {
      assert (path + [k])[1..] == path[1..] + [k];
      TouchMissing(t[path[0]].entries, path[1..], k);
    }
  }

  /** A header that names a table leaves everything as it is. */
  lemma {:induction false} TouchPresent(t: Tree, path: seq<string>)
    requires Has(t, path)
    ensures Touch(t, path) == Ok(t)
    decreases |path|
  {
    if path != [] {
      TouchPresent(t[path[0]].entries, path[1..]);
      assert t[path[0] := Table(t[path[0]].entries)] == t;
    }
  }

  // ----- walking a header path one key at a time -----

  /** The rest of a walk that has reached the table at `p`. */
  function TouchBelow(t: Tree, p: seq<string>, rest: seq<string>): Result<Tree, LoadError>
    requires Has(t, p)
  {
    var u :- Touch(Get(t, p), rest);
    Ok(Set(t, p, u))
  }

  lemma {:induction false} TouchBelowDone(t: Tree, p: seq<string>)
    requires Has(t, p)
    ensures TouchBelow(t, p, []) == Ok(t)
  {
    SetGet(t, p);
  }

  lemma {:induction false} TouchFirst(u: Tree, k: string, rest: seq<string>)
    ensures var sub := if k !in u then map[] else if u[k].Table? then u[k].entries else map[];
            Touch(u, [k] + rest) ==
            if k !in u || u[k].Table?
              then (if Touch(sub, rest).Ok? then Ok(u[k := Table(Touch(sub, rest).value)]) else Touch(sub, rest))
            else if rest == [] then Ok(u)
            else Err(TypeError)
  {
    assert ([k] + rest)[1..] == rest;
  }

  lemma {:induction false} TouchBelowMissing(t: Tree, p: seq<string>, k: string, rest: seq<string>)
    requires Has(t, p) && k !in Get(t, p)
    ensures var next := Set(t, p, Get(t, p)[k := Table(map[])]);
            Has(next, p + [k]) && TouchBelow(t, p, [k] + rest) == TouchBelow(next, p + [k], rest)
  {
    var u := Get(t, p)[k := Table(map[])];
    var next := Set(t, p, u);
    GetSet(t, p, u);
    ChildPath(next, p, k);
    TouchFirst(Get(t, p), k, rest);
    var below := Touch(map[], rest);
    if below.Ok? {
      SetChild(next, p, k, below.value);
      SetSet(t, p, u, u[k := Table(below.value)]);
      assert u[k := Table(below.value)] == Get(t, p)[k := Table(below.value)];
    }
  }

  lemma {:induction false} TouchBelowPresent(t: Tree, p: seq<string>, k: string, rest: seq<string>)
    requires Has(t, p) && Has(t, p + [k])
    ensures TouchBelow(t, p, [k] + rest) == TouchBelow(t, p + [k], rest)
  {
    ChildPath(t, p, k);
    TouchFirst(Get(t, p), k, rest);
    var below := Touch(Get(t, p)[k].entries, rest);
    if below.Ok? {
      SetChild(t, p, k, below.value);
    }
  }

  lemma {:induction false} TouchBelowOther(t: Tree, p: seq<string>, k: string, rest: seq<string>)
    requires Has(t, p) && k in Get(t, p) && !Has(t, p + [k])
    ensures TouchBelow(t, p, [k] + rest) == if rest == [] then Ok(t) else Err(TypeError)
  {
    ChildPath(t, p, k);
    TouchFirst(Get(t, p), k, rest);
    SetGet(t, p);
  }

  // ----- what stays unchanged -----

  function Lookup(t: Tree, path: seq<string>): Option<Value>
    requires path != []
    decreases |path|
  {
    if path[0] !in t then None
    else if path[1..] == [] then Some(t[path[0]])
    else if t[path[0]].Table? then Lookup(t[path[0]].entries, path[1..])
    else None
  }

  /** Neither path begins with the other. */
  predicate Apart(p: seq<string>, q: seq<string>) {
    exists i :: 0 <= i < |p| && i < |q| && p[i] != q[i]
  }

  lemma {:induction false} ApartTail(p: seq<string>, q: seq<string>)
    requires p != [] && q != [] && Apart(p, q)
    ensures p[0] != q[0] || (p[1..] != [] && q[1..] != [] && Apart(p[1..], q[1..]))
  {
    var i :| 0 <= i < |p| && i < |q| && p[i] != q[i];
    if i > 0 {
      assert p[1..][i - 1] != q[1..][i - 1];
    }
  }

  /** A write through the current table is seen at its own path only. */
  lemma {:induction false} PutElsewhere(t: Tree, path: seq<string>, key: string, v: Value, other: seq<string>)
    requires Put(t, path, key, v).Ok? && other != [] && Apart(path + [key], other)
    ensures Lookup(Put(t, path, key, v).value, other) == Lookup(t, other)
    decreases |path|
  {
    ApartTail(path + [key], other);
    if path != [] && path[0] == other[0] {
      assert (path + [key])[1..] == path[1..] + [key];
      PutElsewhere(t[path[0]].entries, path[1..], key, v, other[1..]);
    } else if path == [] {
      assert (path + [key])[1..] == [];
    }
  }

  lemma {:induction false} PutHere(t: Tree, path: seq<string>, key: string, v: Value)
    requires Put(t, path, key, v).Ok?
    ensures Lookup(Put(t, path, key, v).value, path + [key]) == Some(v)
    decreases |path|
  {
    if path == [] {
      assert path + [key] == [key] && [key][1..] == [];
    } else {
      assert (path + [key])[1..] == path[1..] + [key];
      PutHere(t[path[0]].entries, path[1..], key, v);
    }
  }

  /** A header never loses or alters a value that is not a table. */
  lemma {:induction false} TouchKeepsLeaves(t: Tree, path: seq<string>, other: seq<string>)
    requires Touch(t, path).Ok? && other != [] && Lookup(t, other).Some? && !Lookup(t, other).value.Table?
    ensures Lookup(Touch(t, path).value, other) == Lookup(t, other)
    decreases |path|
  {
    if path != [] && path[0] in t && t[path[0]].Table? && path[0] == other[0] {
      TouchKeepsLeaves(t[path[0]].entries, path[1..], other[1..]);
    }
  }

  lemma PrefixTail(path: seq<string>, n: nat)
    requires 0 < n <= |path|
    ensures path[..n][0] == path[0] && path[..n][1..] == path[1..][..n - 1]
  {
  }

  /** After a header, its path leads through tables only. */
  lemma {:induction false} TouchReaches(t: Tree, path: seq<string>, n: nat)
    requires Touch(t, path).Ok? && 0 < n <= |path|
    ensures var v := Lookup(Touch(t, path).value, path[..n]); v.Some? && (n < |path| ==> v.value.Table?)
    decreases |path|
  {
    PrefixTail(path, n);
    if n > 1 {
      TouchReaches(if path[0] in t then t[path[0]].entries else map[], path[1..], n - 1);
    }
  }

  /** A header adds nothing on any other path. */
  lemma {:induction false} TouchAddsNothingElse(t: Tree, path: seq<string>, other: seq<string>)
    requires Touch(t, path).Ok? && other != [] && Lookup(t, other).None? && !(other <= path)
    ensures Lookup(Touch(t, path).value, other).None?
    decreases |path|
  {
    if path != [] && path[0] == other[0] && other[1..] != [] && !(path[0] in t && !t[path[0]].Table?) {
      TouchAddsNothingElse(if path[0] in t then t[path[0]].entries else map[], path[1..], other[1..]);
    }
  }

  /** Something other than a table stands on the way to the end of the path. */
  predicate IsBlocked(t: Tree, path: seq<string>) {
    exists n :: 0 < n < |path| && var v := Lookup(t, path[..n]); v.Some? && !v.value.Table?
  }

  lemma {:induction false} BlockedBelow(t: Tree, path: seq<string>)
    requires path != [] && path[0] in t && t[path[0]].Table?
    ensures IsBlocked(t, path) <==> IsBlocked(t[path[0]].entries, path[1..])
  {
    if n :| 0 < n < |path| && var v := Lookup(t, path[..n]); v.Some? && !v.value.Table? {
      PrefixTail(path, n);
      assert Lookup(t[path[0]].entries, path[1..][..n - 1]) == Lookup(t, path[..n]);
    }
    if n :| 0 < n < |path[1..]| && var v := Lookup(t[path[0]].entries, path[1..][..n]); v.Some? && !v.value.Table? {
      PrefixTail(path, n + 1);
      assert Lookup(t[path[0]].entries, path[1..][..n]) == Lookup(t, path[..n + 1]);
    }
  }

  lemma {:induction false} BlockedHere(t: Tree, path: seq<string>)
    requires path == [] || !(path[0] in t && t[path[0]].Table?)
    ensures IsBlocked(t, path) <==> |path| > 1 && path[0] in t
  {
    if |path| > 1 && path[0] in t {
      PrefixTail(path, 1);
      assert Lookup(t, path[..1]) == Some(t[path[0]]);
    }
    if n :| 0 < n < |path| && var v := Lookup(t, path[..n]); v.Some? && !v.value.Table? {
      PrefixTail(path, n);
    }
  }

  /** A header fails exactly if some value before the end of its path is there and is no table. */
  lemma {:induction false} TouchFails(t: Tree, path: seq<string>)
    ensures Touch(t, path).Err? <==> IsBlocked(t, path)
    ensures Touch(t, path).Err? ==> Touch(t, path).error == TypeError
    decreases |path|
  {
    if path != [] && path[0] in t && t[path[0]].Table? {
      BlockedBelow(t, path);
      TouchFails(t[path[0]].entries, path[1..]);
    } else {
      BlockedHere(t, path);
      if path != [] && path[0] !in t {
        TouchFails(map[], path[1..]);
        NothingBlocks(path[1..]);
      }
    }
  }

  lemma {:induction false} NothingBlocks(path: seq<string>)
    ensures !IsBlocked(map[], path)
  {
    forall n | 0 < n < |path| ensures Lookup(map[], path[..n]).None? {
    }
  }
}
