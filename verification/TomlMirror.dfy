/**
  Dictionaries on the heap and the tree they stand for: every table of the tree is one dictionary,
  found by its path, and no two paths share one.
*/
module TomlMirror {
  import opened Wrappers
  import opened TomlSpec
  import opened TomlPaths

  type Path = seq<string>

  /** A Python `dict`: what a key holds is another dictionary or a value of any other kind. */
  class Dict {
    var entries: map<string, Entry>

    constructor ()
      ensures entries == map[]
    {
      entries := map[];
    }
  }

  datatype Entry = Leaf(value: Value) | Sub(dict: Dict)

  /** The dictionary of each table, by path. */
  type Tables = map<Path, Dict>

  /** What each dictionary holds. */
  type Contents = map<Path, map<string, Entry>>

  ghost predicate Holds(h: Tables, c: Contents)
    reads h.Values
  {
    h.Keys == c.Keys && forall p :: p in h ==> h[p].entries == c[p]
  }

  /** A dictionary holds what the table does; where the table holds a table, it holds a dictionary. */
  ghost predicate SameTable(entries: map<string, Entry>, u: Tree) {
    && entries.Keys == u.Keys
    && forall k :: k in entries ==> if u[k].Table? then entries[k].Sub? else entries[k] == Leaf(u[k])
  }

  /** The key leads to the dictionary of the path one key longer. */
  ghost predicate LinkedAt(h: Tables, c: Contents, p: Path, k: string) {
    p in c && k in c[p] && c[p][k].Sub? ==> p + [k] in h && h[p + [k]] == c[p][k].dict
  }

  /** No dictionary is reached by two paths. */
  ghost predicate NoSharing(h: Tables) {
    forall p, q :: p in h && q in h && h[p] == h[q] ==> p == q
  }

  ghost predicate Linked(h: Tables, c: Contents) {
    forall p, k :: LinkedAt(h, c, p, k)
  }

  /** There is a dictionary for the path exactly if there is a table. */
  ghost predicate CoveredAt(h: Tables, c: Contents, t: Tree, p: Path) {
    (p in h <==> Has(t, p)) && (p in h <==> p in c)
  }

  ghost predicate Covers(h: Tables, c: Contents, t: Tree) {
    forall p :: CoveredAt(h, c, t, p)
  }

  ghost predicate SameTableAt(c: Contents, t: Tree, p: Path) {
    p in c && Has(t, p) ==> SameTable(c[p], Get(t, p))
  }

  ghost predicate SameTables(c: Contents, t: Tree) {
    forall p :: SameTableAt(c, t, p)
  }

  /** The dictionaries stand for the tree. */
  ghost predicate Mirrors(h: Tables, c: Contents, t: Tree) {
    Covers(h, c, t) && SameTables(c, t) && Linked(h, c) && NoSharing(h)
  }

  // ----- what changes in a tree when one key of one of its tables is set -----

  /** Equal up to the contents of the tables below. */
  ghost predicate SameShape(u: Tree, w: Tree) {
    && u.Keys == w.Keys
    && forall k :: k in u ==> u[k] == w[k] || (u[k].Table? && w[k].Table?)
  }

  function SetKey(t: Tree, p: Path, k: string, w: Value): Tree
    requires Has(t, p)
  {
    Set(t, p, Get(t, p)[k := w])
  }

  /** Below the key there is now what the value holds. */
  lemma {:induction false} SetKeyBelow(t: Tree, p: Path, k: string, w: Value, r: Path)
    requires Has(t, p)
    ensures Has(SetKey(t, p, k, w), p + [k] + r) <==> w.Table? && Has(w.entries, r)
    ensures Has(SetKey(t, p, k, w), p + [k] + r) ==> Get(SetKey(t, p, k, w), p + [k] + r) == Get(w.entries, r)
    decreases |p|
  {
    var q := p + [k] + r;
    if p == [] {
      assert q[0] == k && q[1..] == r;
    } else {
      assert q[0] == p[0] && q[1..] == p[1..] + [k] + r;
      SetKeyBelow(t[p[0]].entries, p[1..], k, w, r);
    }
  }

  /** Everywhere else the tables are the same, but for the one that was written. */
  lemma {:induction false} SetKeyElsewhere(t: Tree, p: Path, k: string, w: Value, q: Path)
    requires Has(t, p) && !(p + [k] <= q)
    ensures Has(SetKey(t, p, k, w), q) <==> Has(t, q)
    ensures Has(t, q) && q != p ==> SameShape(Get(t, q), Get(SetKey(t, p, k, w), q))
    decreases |p|
  {
    if q != [] && p != [] && q[0] == p[0] {
      NotBelowTail(p, k, q);
      SetKeyElsewhere(t[p[0]].entries, p[1..], k, w, q[1..]);
    } else if q != [] && p == [] {
      assert q == [q[0]] + q[1..];
    }
  }

  lemma {:induction false} NotBelowTail(p: Path, k: string, q: Path)
    requires p != [] && q != []
    ensures p + [k] <= q <==> p[0] == q[0] && p[1..] + [k] <= q[1..]
  {
    assert p + [k] == [p[0]] + (p[1..] + [k]);
    assert q == [q[0]] + q[1..];
  }

  // ----- grafting dictionaries -----

  /** The map with everything at and below a path replaced. */
  ghost function Graft<X>(m: map<Path, X>, at: Path, sub: map<Path, X>): map<Path, X> {
    var kept := map q | q in m && !(at <= q) :: m[q];
    ShiftInjective(sub, at);
    var shifted := map r | r in sub :: at + r := sub[r];
    kept + shifted
  }

  lemma ShiftInjective<X>(sub: map<Path, X>, at: Path)
    ensures forall r, r' :: r in sub && r' in sub && at + r == at + r' ==> r == r'
  {
    forall r, r' | r in sub && r' in sub && at + r == at + r' ensures r == r' {
      assert (at + r)[|at|..] == r && (at + r')[|at|..] == r';
    }
  }

  lemma {:induction false} GraftBelow<X>(m: map<Path, X>, at: Path, sub: map<Path, X>, r: Path)
    ensures at + r in Graft(m, at, sub) <==> r in sub
    ensures r in sub ==> Graft(m, at, sub)[at + r] == sub[r]
  {
    ShiftInjective(sub, at);
    var shifted := map r | r in sub :: at + r := sub[r];
    if r in sub {
      assert at + r in shifted;
    }
    if at + r in shifted {
      var r' :| r' in sub && at + r' == at + r;
      assert (at + r)[|at|..] == r && (at + r')[|at|..] == r';
    }
    assert at <= at + r;
  }

  lemma {:induction false} GraftElsewhere<X>(m: map<Path, X>, at: Path, sub: map<Path, X>, q: Path)
    requires !(at <= q)
    ensures q in Graft(m, at, sub) <==> q in m
    ensures q in m ==> Graft(m, at, sub)[q] == m[q]
  {
    ShiftInjective(sub, at);
  }

  // ----- storing a value under a key -----

  /** How a value is stored: tables as fresh dictionaries of their own, anything else as it is. */
  ghost predicate Stored(w: Value, e: Entry, hs: Tables, cs: Contents) {
    if w.Table? then Mirrors(hs, cs, w.entries) && [] in hs && e == Sub(hs[[]])
    else hs == map[] && cs == map[] && e == Leaf(w)
  }

  lemma {:induction false} SplitBelow(at: Path, q: Path)
    requires at <= q
    ensures at + q[|at|..] == q
  {
  }

  lemma {:induction false} CoveredBelow(h: Tables, c: Contents, t: Tree, p: Path, k: string, w: Value, hs: Tables,
      cs: Contents, r: Path)
    requires Has(t, p) && if w.Table? then CoveredAt(hs, cs, w.entries, r) else hs == map[] && cs == map[]
    ensures CoveredAt(Graft(h, p + [k], hs), Graft(c, p + [k], cs), SetKey(t, p, k, w), p + [k] + r)
  {
    GraftBelow(h, p + [k], hs, r);
    GraftBelow(c, p + [k], cs, r);
    SetKeyBelow(t, p, k, w, r);
  }

  lemma {:induction false} CoveredElsewhere(h: Tables, c: Contents, t: Tree, p: Path, k: string, w: Value, hs: Tables,
      cs: Contents, q: Path)
    requires Has(t, p) && CoveredAt(h, c, t, q) && !(p + [k] <= q)
    ensures CoveredAt(Graft(h, p + [k], hs), Graft(c, p + [k], cs), SetKey(t, p, k, w), q)
  {
    GraftElsewhere(h, p + [k], hs, q);
    GraftElsewhere(c, p + [k], cs, q);
    SetKeyElsewhere(t, p, k, w, q);
  }

  lemma {:induction false} StoreCovered(h: Tables, c: Contents, t: Tree, p: Path, k: string, w: Value, hs: Tables,
      cs: Contents, q: Path)
    requires Has(t, p) && CoveredAt(h, c, t, q)
    requires p + [k] <= q ==>
             if w.Table? then CoveredAt(hs, cs, w.entries, q[|p| + 1..]) else hs == map[] && cs == map[]
    ensures CoveredAt(Graft(h, p + [k], hs), Graft(c, p + [k], cs), SetKey(t, p, k, w), q)
  {
    if p + [k] <= q {
      SplitBelow(p + [k], q);
      CoveredBelow(h, c, t, p, k, w, hs, cs, q[|p| + 1..]);
    } else {
      CoveredElsewhere(h, c, t, p, k, w, hs, cs, q);
    }
  }

  lemma {:induction false} StoreCoveredAt(h: Tables, c: Contents, t: Tree, p: Path, k: string, w: Value, hs: Tables,
      cs: Contents, q: Path)
    requires Has(t, p) && Covers(h, c, t) && if w.Table? then Covers(hs, cs, w.entries) else hs == map[] && cs == map[]
    ensures CoveredAt(Graft(h, p + [k], hs), Graft(c, p + [k], cs), SetKey(t, p, k, w), q)
  {
    assert CoveredAt(h, c, t, q);
    assert p + [k] <= q && w.Table? ==> CoveredAt(hs, cs, w.entries, q[|p| + 1..]);
    StoreCovered(h, c, t, p, k, w, hs, cs, q);
  }

  lemma {:induction false} StoreCovers(h: Tables, c: Contents, t: Tree, p: Path, k: string, w: Value, hs: Tables,
      cs: Contents)
    requires Has(t, p) && Covers(h, c, t) && if w.Table? then Covers(hs, cs, w.entries) else hs == map[] && cs == map[]
    ensures Covers(Graft(h, p + [k], hs), Graft(c, p + [k], cs), SetKey(t, p, k, w))
  {
    var h', c', t' := Graft(h, p + [k], hs), Graft(c, p + [k], cs), SetKey(t, p, k, w);
    forall q ensures CoveredAt(h', c', t', q) {
      StoreCoveredAt(h, c, t, p, k, w, hs, cs, q);
    }
  }

  lemma {:induction false} SameTableWith(entries: map<string, Entry>, u: Tree, k: string, e: Entry, w: Value)
    requires SameTable(entries, u) && if w.Table? then e.Sub? else e == Leaf(w)
    ensures SameTable(entries[k := e], u[k := w])
  {
  }

  lemma {:induction false} SameTableShape(entries: map<string, Entry>, u: Tree, w: Tree)
    requires SameTable(entries, u) && SameShape(u, w)
    ensures SameTable(entries, w)
  {
  }

  lemma {:induction false} TableBelow(c: Contents, t: Tree, p: Path, k: string, w: Value, cs: Contents, r: Path)
    requires Has(t, p) && if w.Table? then SameTableAt(cs, w.entries, r) else cs == map[]
    ensures SameTableAt(Graft(c, p + [k], cs), SetKey(t, p, k, w), p + [k] + r)
  {
    GraftBelow(c, p + [k], cs, r);
    SetKeyBelow(t, p, k, w, r);
  }

  lemma {:induction false} TableHere(c: Contents, t: Tree, p: Path, k: string, w: Value, e: Entry, cs: Contents)
    requires Has(t, p) && p in c && SameTable(c[p], Get(t, p)) && if w.Table? then e.Sub? else e == Leaf(w)
    ensures SameTableAt(Graft(c[p := c[p][k := e]], p + [k], cs), SetKey(t, p, k, w), p)
  {
    GraftElsewhere(c[p := c[p][k := e]], p + [k], cs, p);
    GetSet(t, p, Get(t, p)[k := w]);
    SameTableWith(c[p], Get(t, p), k, e, w);
  }

  lemma {:induction false} TableElsewhere(c: Contents, t: Tree, p: Path, k: string, w: Value, cs: Contents, q: Path)
    requires Has(t, p) && SameTableAt(c, t, q) && !(p + [k] <= q) && q != p
    ensures SameTableAt(Graft(c, p + [k], cs), SetKey(t, p, k, w), q)
  {
    GraftElsewhere(c, p + [k], cs, q);
    SetKeyElsewhere(t, p, k, w, q);
    if q in c && Has(t, q) {
      SameTableShape(c[q], Get(t, q), Get(SetKey(t, p, k, w), q));
    }
  }

  lemma {:induction false} StoreTables(c: Contents, t: Tree, p: Path, k: string, w: Value, e: Entry, cs: Contents)
    requires Has(t, p) && p in c && SameTables(c, t)
    requires if w.Table? then SameTables(cs, w.entries) && e.Sub? else cs == map[] && e == Leaf(w)
    ensures SameTables(Graft(c[p := c[p][k := e]], p + [k], cs), SetKey(t, p, k, w))
  {
    var at := p + [k];
    var c0 := c[p := c[p][k := e]];
    var c', t' := Graft(c0, at, cs), SetKey(t, p, k, w);
    forall q ensures SameTableAt(c', t', q) {
      assert SameTableAt(c, t, q);
      if at <= q {
        SplitBelow(at, q);
        assert w.Table? ==> SameTableAt(cs, w.entries, q[|at|..]);
        TableBelow(c0, t, p, k, w, cs, q[|at|..]);
      } else if q == p {
        TableHere(c, t, p, k, w, e, cs);
      } else {
        assert SameTableAt(c0, t, q);
        TableElsewhere(c0, t, p, k, w, cs, q);
      }
    }
  }

  lemma {:induction false} LinkBelow(h: Tables, c: Contents, at: Path, hs: Tables, cs: Contents, r: Path, j: string)
    requires LinkedAt(hs, cs, r, j)
    ensures LinkedAt(Graft(h, at, hs), Graft(c, at, cs), at + r, j)
  {
    GraftBelow(c, at, cs, r);
    GraftBelow(h, at, hs, r + [j]);
    assert at + (r + [j]) == at + r + [j];
  }

  lemma {:induction false} LinkHere(h: Tables, c: Contents, p: Path, k: string, hs: Tables, cs: Contents)
    requires p in c && k in c[p] && (c[p][k].Sub? ==> [] in hs && hs[[]] == c[p][k].dict)
    ensures LinkedAt(Graft(h, p + [k], hs), Graft(c, p + [k], cs), p, k)
  {
    GraftElsewhere(c, p + [k], cs, p);
    GraftBelow(h, p + [k], hs, []);
    assert p + [k] + [] == p + [k];
  }

  lemma {:induction false} LinkElsewhere(h: Tables, c: Contents, at: Path, hs: Tables, cs: Contents, q: Path, j: string)
    requires LinkedAt(h, c, q, j) && !(at <= q) && !(at <= q + [j])
    ensures LinkedAt(Graft(h, at, hs), Graft(c, at, cs), q, j)
  {
    GraftElsewhere(c, at, cs, q);
    GraftElsewhere(h, at, hs, q + [j]);
  }

  lemma {:induction false} LinkUnwritten(h: Tables, c: Contents, p: Path, k: string, e: Entry, q: Path, j: string)
    requires p in c && LinkedAt(h, c, q, j) && !(q == p && j == k)
    ensures LinkedAt(h, c[p := c[p][k := e]], q, j)
  {
  }

  lemma {:induction false} StoreLink(h: Tables, c: Contents, p: Path, k: string, e: Entry, hs: Tables, cs: Contents,
      q: Path, j: string)
    requires Linked(h, c) && Linked(hs, cs) && p in c && (e.Sub? ==> [] in hs && hs[[]] == e.dict)
    ensures LinkedAt(Graft(h, p + [k], hs), Graft(c[p := c[p][k := e]], p + [k], cs), q, j)
  {
    var at := p + [k];
    var c0 := c[p := c[p][k := e]];
    if at <= q {
      SplitBelow(at, q);
      LinkBelow(h, c0, at, hs, cs, q[|at|..], j);
    } else if q == p && j == k {
      LinkHere(h, c0, p, k, hs, cs);
    } else {
      LongerElsewhere(p, k, q, j);
      LinkUnwritten(h, c, p, k, e, q, j);
      LinkElsewhere(h, c0, at, hs, cs, q, j);
    }
  }

  lemma {:induction false} LongerElsewhere(p: Path, k: string, q: Path, j: string)
    requires !(p + [k] <= q) && !(q == p && j == k)
    ensures !(p + [k] <= q + [j])
  {
    if |q| < |p| {
    } else if |q| == |p| {
      assert p + [k] <= q + [j] ==> p + [k] == q + [j];
      assert (p + [k])[..|p|] == p && (q + [j])[..|p|] == q;
      assert (p + [k])[|p|] == k && (q + [j])[|p|] == j;
    } else {
      assert (q + [j])[..|p| + 1] == q[..|p| + 1];
    }
  }

  lemma {:induction false} GraftNoSharing(h: Tables, at: Path, hs: Tables)
    requires NoSharing(h) && NoSharing(hs) && h.Values !! hs.Values
    ensures NoSharing(Graft(h, at, hs))
  {
    var h' := Graft(h, at, hs);
    forall q, q' | q in h' && q' in h' && h'[q] == h'[q'] ensures q == q' {
      GraftValue(h, at, hs, q);
      GraftValue(h, at, hs, q');
    }
  }

  lemma {:induction false} GraftValue(h: Tables, at: Path, hs: Tables, q: Path)
    requires q in Graft(h, at, hs)
    ensures at <= q ==>
            q[|at|..] in hs && Graft(h, at, hs)[q] == hs[q[|at|..]] && hs[q[|at|..]] in hs.Values && q == at + q[|at|..]
    ensures !(at <= q) ==> q in h && Graft(h, at, hs)[q] == h[q] && h[q] in h.Values
  {
    if at <= q {
      SplitBelow(at, q);
      GraftBelow(h, at, hs, q[|at|..]);
    } else {
      GraftElsewhere(h, at, hs, q);
    }
  }

  lemma {:induction false} StoreLinks(h: Tables, c: Contents, p: Path, k: string, e: Entry, hs: Tables, cs: Contents)
    requires Linked(h, c) && Linked(hs, cs) && p in c && (e.Sub? ==> [] in hs && hs[[]] == e.dict)
    ensures Linked(Graft(h, p + [k], hs), Graft(c[p := c[p][k := e]], p + [k], cs))
  {
    var h', c' := Graft(h, p + [k], hs), Graft(c[p := c[p][k := e]], p + [k], cs);
    forall q, j ensures LinkedAt(h', c', q, j) {
      StoreLink(h, c, p, k, e, hs, cs, q, j);
    }
  }

  /** Writing into one dictionary sets one key of one table, and no dictionary comes to be shared. */
  lemma {:induction false} StoreMirrors(h: Tables, c: Contents, t: Tree, p: Path, k: string, w: Value, e: Entry,
      hs: Tables, cs: Contents)
    requires Mirrors(h, c, t) && Has(t, p) && p in c && Stored(w, e, hs, cs) && h.Values !! hs.Values
    ensures Mirrors(Graft(h, p + [k], hs), Graft(c[p := c[p][k := e]], p + [k], cs), SetKey(t, p, k, w))
  {
    WriteCovers(h, c, t, p, k, e);
    StoreCovers(h, c[p := c[p][k := e]], t, p, k, w, hs, cs);
    StoreTables(c, t, p, k, w, e, cs);
    StoreLinks(h, c, p, k, e, hs, cs);
    GraftNoSharing(h, p + [k], hs);
  }

  lemma {:induction false} WriteCovers(h: Tables, c: Contents, t: Tree, p: Path, k: string, e: Entry)
    requires Covers(h, c, t) && p in c
    ensures Covers(h, c[p := c[p][k := e]], t)
  {
    var c0 := c[p := c[p][k := e]];
    forall q ensures CoveredAt(h, c0, t, q) {
      assert CoveredAt(h, c, t, q);
    }
  }

  lemma {:induction false} EmptyMirrors(d: Dict)
    ensures Mirrors(map[[] := d], map[[] := map[]], map[])
  {
  }

  // ----- the dictionaries determine the tree -----

  /** The heaps agree on the dictionaries they share. */
  ghost predicate Agree(h: Tables, c: Contents, h': Tables, c': Contents) {
    forall p, q :: p in h && q in h' && p in c && q in c' && h[p] == h'[q] ==> c[p] == c'[q]
  }

  lemma {:induction false} MirrorsCovers(h: Tables, c: Contents, t: Tree, p: Path)
    requires Mirrors(h, c, t)
    ensures CoveredAt(h, c, t, p) && SameTableAt(c, t, p)
  {
  }

  lemma {:induction false} MirrorsLink(h: Tables, c: Contents, t: Tree, p: Path, k: string)
    requires Mirrors(h, c, t)
    ensures LinkedAt(h, c, p, k)
  {
  }

  lemma {:induction false} SameDictAt(h: Tables, c: Contents, t: Tree, h': Tables, c': Contents, t': Tree, p: Path)
    requires Mirrors(h, c, t) && Mirrors(h', c', t') && Agree(h, c, h', c')
    requires [] in h && [] in h' && h[[]] == h'[[]] && Has(t, p)
    ensures p in h && p in h' && h[p] == h'[p]
    decreases |p|
  {
    MirrorsCovers(h, c, t, p);
    if p != [] {
      var q, k := p[..|p| - 1], p[|p| - 1];
      assert p == q + [k];
      PrefixHas(t, q, k);
      SameDictAt(h, c, t, h', c', t', q);
      MirrorsCovers(h, c, t, q);
      MirrorsCovers(h', c', t', q);
      MirrorsLink(h, c, t, q, k);
      MirrorsLink(h', c', t', q, k);
    }
  }

  lemma {:induction false} PrefixHas(t: Tree, p: Path, k: string)
    requires Has(t, p + [k])
    ensures Has(t, p) && k in Get(t, p) && Get(t, p)[k].Table?
    decreases |p|
  {
    if p != [] {
      assert (p + [k])[1..] == p[1..] + [k];
      PrefixHas(t[p[0]].entries, p[1..], k);
    }
  }

  ghost predicate AlikeAt(t: Tree, t': Tree, p: Path) {
    Has(t, p) ==> Has(t', p) && SameShape(Get(t, p), Get(t', p))
  }

  lemma {:induction false} AlikeIsEqual(v: Value, v': Value)
    requires v.Table? && v'.Table? && forall p :: AlikeAt(v.entries, v'.entries, p)
    ensures v == v'
    decreases v
  {
    assert AlikeAt(v.entries, v'.entries, []);
    forall k | k in v.entries ensures v.entries[k] == v'.entries[k] {
      if v.entries[k].Table? {
        var w, w' := v.entries[k], v'.entries[k];
        forall p ensures AlikeAt(w.entries, w'.entries, p) {
          assert AlikeAt(v.entries, v'.entries, [k] + p);
          assert ([k] + p)[1..] == p;
        }
        AlikeIsEqual(w, w');
      }
    }
  }

  /** The dictionaries reached from a root stand for one tree only. */
  lemma {:induction false} MirrorIsUnique(h: Tables, c: Contents, t: Tree, h': Tables, c': Contents, t': Tree)
    requires Mirrors(h, c, t) && Holds(h, c) && Mirrors(h', c', t') && Holds(h', c')
    requires [] in h && [] in h' && h[[]] == h'[[]]
    ensures t == t'
  {
    forall p ensures AlikeAt(t, t', p) {
      if Has(t, p) {
        SameDictAt(h, c, t, h', c', t', p);
        MirrorsCovers(h, c, t, p);
        MirrorsCovers(h', c', t', p);
        SameTableAlike(c[p], Get(t, p), Get(t', p));
      }
    }
    AlikeIsEqual(Table(t), Table(t'));
  }

  lemma {:induction false} SameTableAlike(entries: map<string, Entry>, u: Tree, w: Tree)
    requires SameTable(entries, u) && SameTable(entries, w)
    ensures SameShape(u, w)
  {
  }
}
