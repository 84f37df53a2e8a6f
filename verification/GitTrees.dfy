/**
 Immutable git trees, and the one rewriting step of the driver.

 A git object id is a collision-free hash of the object, so the model lets an object stand for
 its own id: equal ids are equal objects, an id says whether it names a blob, a commit or a
 tree, and no tree can contain its own id.
 */
module GitTrees {
  import opened Paths

  datatype Node =
    | Blob(content: string)
    | Submodule(commit: string)
    | Tree(entries: Entries)

  datatype Entry = Entry(mode: string, node: Node)

  type Entries = map<string, Entry>

  const KEEP := ".gitkeep"
  const KeepEntry := Entry("100644", Blob(""))

  /** The order in which the server lists the names of a tree: any enumeration. */
  type Order = Entries -> seq<string>

  ghost predicate Enumerates(names: seq<string>, m: Entries) {
    && (forall n :: n in names <==> n in m)
    && (forall i, j :: 0 <= i < j < |names| ==> names[i] != names[j])
  }

  ghost predicate ValidOrder(order: Order) {
    forall m: Entries :: Enumerates(order(m), m)
  }

  /** There is an order to list every directory in, so what holds for all orders is not idle. */
  lemma OrderExists()
    ensures exists order: Order :: ValidOrder(order)
  {
    var order: Order := (m: Entries) => Chain(m.Keys);
    forall m: Entries
      ensures Enumerates(order(m), m)
    {
      ChainLists(m.Keys);
    }
    assert ValidOrder(order);
  }

  ghost function Chain(keys: set<string>): seq<string> {
    if keys == {} then []
    else
      var k :| k in keys;
      [k] + Chain(keys - {k})
  }

  lemma {:induction false} ChainLists(keys: set<string>)
    ensures forall n :: n in Chain(keys) <==> n in keys
    ensures forall i, j :: 0 <= i < j < |Chain(keys)| ==> Chain(keys)[i] != Chain(keys)[j]
  {
    if keys != {} {
      var c := Chain(keys);
      ChainLists(keys - {c[0]});
    }
  }

  // ---- Paths in a tree ----

  predicate Resolves(t: Node, cs: seq<string>) {
    cs == [] || (t.Tree? && cs[0] in t.entries && Resolves(t.entries[cs[0]].node, cs[1..]))
  }

  function Resolve(t: Node, cs: seq<string>): Node
    requires Resolves(t, cs)
  {
    if cs == [] then t else Resolve(t.entries[cs[0]].node, cs[1..])
  }

  predicate IsDir(t: Node, cs: seq<string>) {
    Resolves(t, cs) && Resolve(t, cs).Tree?
  }

  /** The entries of the directory at cs. */
  function At(t: Node, cs: seq<string>): Entries
    requires IsDir(t, cs)
  {
    Resolve(t, cs).entries
  }

  /** t with the object at cs, and nothing else, replaced. */
  function SetAt(t: Node, cs: seq<string>, new': Node): Node
    requires Resolves(t, cs)
  {
    if cs == [] then new'
    else Tree(t.entries[cs[0] := t.entries[cs[0]].(node := SetAt(t.entries[cs[0]].node, cs[1..], new'))])
  }

  // ---- What renewParentTrees computes ----

  /** The position of the first listed name, from i on, whose id is the given one. */
  function First(names: seq<string>, m: Entries, id: Node, i: nat): (r: nat)
    requires i <= |names| && forall n :: n in names ==> n in m
    ensures i <= r <= |names| && forall j :: i <= j < r ==> m[names[j]].node != id
    ensures r < |names| ==> m[names[r]].node == id
    decreases |names| - i
  {
    if i == |names| || m[names[i]].node == id then i else First(names, m, id, i + 1)
  }

  /** The entry that renewParentTrees rewrites when it looks for the child called name. */
  ghost function Chosen(order: Order, m: Entries, name: string): (n: string)
    requires ValidOrder(order) && name in m
    ensures n in m && m[n].node == m[name].node
  {
    assert Enumerates(order(m), m);
    var r := First(order(m), m, m[name].node, 0);
    assert name in order(m);
    order(m)[r]
  }

  /** Re-hanging new' in place of the object at cs, level by level, matching entries by id. */
  ghost function Rehung(order: Order, t: Node, cs: seq<string>, new': Node): Node
    requires ValidOrder(order) && Resolves(t, cs)
  {
    if cs == [] then new'
    else
      var inner := Rehung(order, t.entries[cs[0]].node, cs[1..], new');
      var n := Chosen(order, t.entries, cs[0]);
      Tree(t.entries[n := t.entries[n].(node := inner)])
  }

  /** At no level down to cs does an earlier sibling hold the same object as the entry on the path. */
  ghost predicate NoTwin(order: Order, t: Node, cs: seq<string>)
    requires ValidOrder(order) && Resolves(t, cs)
  {
    cs == [] || (Chosen(order, t.entries, cs[0]) == cs[0] && NoTwin(order, t.entries[cs[0]].node, cs[1..]))
  }

  /** No name that is listed before the given one has the same object. */
  ghost predicate NoEarlier(order: Order, m: Entries, name: string)
    requires ValidOrder(order) && name in m
  {
    forall i, j :: 0 <= i < j < |order(m)| && order(m)[j] == name && order(m)[i] in m ==>
                     m[order(m)[i]].node != m[name].node
  }

  lemma ChosenIff(order: Order, m: Entries, name: string)
    requires ValidOrder(order) && name in m
    ensures Chosen(order, m, name) == name <==> NoEarlier(order, m, name)
  {
    var names := order(m);
    assert Enumerates(names, m);
    var r := First(names, m, m[name].node, 0);
    var j :| 0 <= j < |names| && names[j] == name;
    assert r <= j;
    if r < j { assert names[r] != names[j]; }
  }

  /** At level k of the path nothing is listed in the way. */
  ghost predicate FreeAt(order: Order, t: Node, cs: seq<string>, k: nat)
    requires ValidOrder(order) && k < |cs|
  {
    IsDir(t, cs[..k]) && cs[k] in At(t, cs[..k]) && NoEarlier(order, At(t, cs[..k]), cs[k])
  }

  /** In terms of the listings of the directories on the path. */
  lemma {:induction false} NoTwinIff(order: Order, t: Node, cs: seq<string>)
    requires ValidOrder(order) && Resolves(t, cs)
    ensures NoTwin(order, t, cs) <==> forall k :: 0 <= k < |cs| ==> FreeAt(order, t, cs, k)
  {
    if cs != [] {
      var up, rest := t.entries[cs[0]].node, cs[1..];
      assert cs[..0] == [];
      ChosenIff(order, t.entries, cs[0]);
      NoTwinIff(order, up, rest);
      forall k | 0 <= k < |rest|
        ensures FreeAt(order, t, cs, k + 1) <==> FreeAt(order, up, rest, k)
      {
        OneDown(t, cs, k);
      }
      if forall k :: 0 <= k < |cs| ==> FreeAt(order, t, cs, k) {
        assert FreeAt(order, t, cs, 0);
        forall k | 0 <= k < |rest|
          ensures FreeAt(order, up, rest, k)
        {
          assert FreeAt(order, t, cs, k + 1);
        }
      }
      if NoTwin(order, t, cs) {
        forall k | 0 <= k < |cs|
          ensures FreeAt(order, t, cs, k)
        {
          if k > 0 { assert FreeAt(order, up, rest, k - 1); }
        }
      }
    }
  }

  lemma OneDown(t: Node, cs: seq<string>, k: nat)
    requires Resolves(t, cs) && k + 1 < |cs|
    ensures var up, rest := t.entries[cs[0]].node, cs[1..];
            && IsDir(t, cs[..k + 1]) && IsDir(up, rest[..k])
            && At(t, cs[..k + 1]) == At(up, rest[..k]) && cs[k + 1] == rest[k]
  {
    WayResolves(t, cs, k + 1);
    assert cs[..k + 1][1..] == cs[1..][..k];
  }

  lemma WayResolves(t: Node, cs: seq<string>, k: nat)
    requires Resolves(t, cs) && k < |cs|
    ensures IsDir(t, cs[..k]) && cs[k] in At(t, cs[..k])
  {
    assert cs == cs[..k] + cs[k..];
    ResolveConcat(t, cs[..k], cs[k..]);
  }

  // ---- Algebra of paths ----

  lemma {:induction false} ResolveConcat(t: Node, cs: seq<string>, ds: seq<string>)
    ensures Resolves(t, cs + ds) <==> Resolves(t, cs) && Resolves(Resolve(t, cs), ds)
    ensures Resolves(t, cs + ds) ==> Resolve(t, cs + ds) == Resolve(Resolve(t, cs), ds)
  {
    if cs == [] {
      assert cs + ds == ds;
    } else {
      assert (cs + ds)[1..] == cs[1..] + ds;
      if t.Tree? && cs[0] in t.entries {
        ResolveConcat(t.entries[cs[0]].node, cs[1..], ds);
      }
    }
  }

  lemma {:induction false} SetAtConcat(t: Node, cs: seq<string>, ds: seq<string>, new': Node)
    requires Resolves(t, cs + ds)
    ensures Resolves(t, cs) && Resolves(Resolve(t, cs), ds)
    ensures SetAt(t, cs + ds, new') == SetAt(t, cs, SetAt(Resolve(t, cs), ds, new'))
  {
    ResolveConcat(t, cs, ds);
    if cs == [] {
      assert cs + ds == ds;
    } else {
      assert (cs + ds)[1..] == cs[1..] + ds;
      SetAtConcat(t.entries[cs[0]].node, cs[1..], ds, new');
    }
  }

  lemma {:induction false} ResolveSetAt(t: Node, cs: seq<string>, x: Node)
    requires Resolves(t, cs)
    ensures Resolves(SetAt(t, cs, x), cs) && Resolve(SetAt(t, cs, x), cs) == x
    ensures forall y: Node :: SetAt(SetAt(t, cs, x), cs, y) == SetAt(t, cs, y)
  {
    if cs != [] {
      ResolveSetAt(t.entries[cs[0]].node, cs[1..], x);
      forall y: Node
        ensures SetAt(SetAt(t, cs, x), cs, y) == SetAt(t, cs, y)
      {
        var inner := SetAt(t.entries[cs[0]].node, cs[1..], x);
        assert SetAt(inner, cs[1..], y) == SetAt(t.entries[cs[0]].node, cs[1..], y);
      }
    }
  }

  lemma {:induction false} SetAtInjective(t: Node, cs: seq<string>, x: Node, y: Node)
    requires Resolves(t, cs)
    ensures SetAt(t, cs, x) == SetAt(t, cs, y) ==> x == y
  {
    ResolveSetAt(t, cs, x);
    ResolveSetAt(t, cs, y);
  }

  lemma {:induction false} SetAtSame(t: Node, cs: seq<string>)
    requires Resolves(t, cs)
    ensures SetAt(t, cs, Resolve(t, cs)) == t
  {
    if cs != [] {
      SetAtSame(t.entries[cs[0]].node, cs[1..]);
      assert t.entries[cs[0] := t.entries[cs[0]]] == t.entries;
    }
  }

  /** An object is never found inside itself. */
  lemma {:induction false} Acyclic(t: Node, cs: seq<string>)
    requires Resolves(t, cs) && cs != []
    ensures Resolve(t, cs) != t && Resolve(t, cs) < t
  {
    if |cs| > 1 {
      Acyclic(t.entries[cs[0]].node, cs[1..]);
    }
  }

  // ---- renewParentTrees against its intended meaning ----

  lemma {:induction false} RehungSame(order: Order, t: Node, cs: seq<string>)
    requires ValidOrder(order) && Resolves(t, cs)
    ensures Rehung(order, t, cs, Resolve(t, cs)) == t
  {
    if cs != [] {
      RehungSame(order, t.entries[cs[0]].node, cs[1..]);
      var n := Chosen(order, t.entries, cs[0]);
      assert t.entries[n := t.entries[n]] == t.entries;
    }
  }

  lemma {:induction false} RehungClear(order: Order, t: Node, cs: seq<string>, new': Node)
    requires ValidOrder(order) && Resolves(t, cs) && NoTwin(order, t, cs)
    ensures Rehung(order, t, cs, new') == SetAt(t, cs, new')
  {
    if cs != [] {
      RehungClear(order, t.entries[cs[0]].node, cs[1..], new');
    }
  }

  /** With a twin on the way, the path still shows the old object: the new one went elsewhere. */
  lemma {:induction false} RehungStale(order: Order, t: Node, cs: seq<string>, new': Node)
    requires ValidOrder(order) && Resolves(t, cs) && !NoTwin(order, t, cs)
    ensures Resolves(Rehung(order, t, cs, new'), cs)
    ensures Resolve(Rehung(order, t, cs, new'), cs) == Resolve(t, cs)
  {
    if Chosen(order, t.entries, cs[0]) == cs[0] {
      RehungStale(order, t.entries[cs[0]].node, cs[1..], new');
    }
  }

  /**
   The rewriting puts exactly the new object at exactly the given path if and only if no earlier
   sibling along the path holds an equal object, or there was nothing to change.
   */
  lemma RehungIff(order: Order, t: Node, cs: seq<string>, new': Node)
    requires ValidOrder(order) && Resolves(t, cs)
    ensures Rehung(order, t, cs, new') == SetAt(t, cs, new') <==>
            NoTwin(order, t, cs) || new' == Resolve(t, cs)
  {
    if NoTwin(order, t, cs) {
      RehungClear(order, t, cs, new');
    } else if new' == Resolve(t, cs) {
      RehungSame(order, t, cs);
      SetAtSame(t, cs);
    } else {
      RehungStale(order, t, cs, new');
      ResolveSetAt(t, cs, new');
    }
  }

  lemma {:induction false} RehungChanges(order: Order, t: Node, cs: seq<string>, new': Node)
    requires ValidOrder(order) && Resolves(t, cs) && new' != Resolve(t, cs)
    ensures Rehung(order, t, cs, new') != t
  {
    if cs != [] {
      RehungChanges(order, t.entries[cs[0]].node, cs[1..], new');
      var n := Chosen(order, t.entries, cs[0]);
      assert Rehung(order, t, cs, new').entries[n].node != t.entries[n].node;
    }
  }

  lemma {:induction false} RehungConcat(order: Order, t: Node, cs: seq<string>, ds: seq<string>, new': Node)
    requires ValidOrder(order) && Resolves(t, cs + ds)
    ensures Resolves(t, cs) && Resolves(Resolve(t, cs), ds)
    ensures Rehung(order, t, cs + ds, new') == Rehung(order, t, cs, Rehung(order, Resolve(t, cs), ds, new'))
  {
    ResolveConcat(t, cs, ds);
    if cs == [] {
      assert cs + ds == ds;
    } else {
      assert (cs + ds)[1..] == cs[1..] + ds;
      RehungConcat(order, t.entries[cs[0]].node, cs[1..], ds, new');
    }
  }

  // ---- The shape of a snapshot ----

  /**
   Every name is one that git accepts; and, where alive is asked for, every directory is
   non-empty and holds .gitkeep, a plain file, only as its sole entry.
   */
  ghost predicate Shaped(t: Node, alive: bool) {
    t.Tree? ==>
      && (alive ==> t.entries != map[])
      && (alive && KEEP in t.entries ==> t.entries.Keys == {KEEP} && t.entries[KEEP].node.Blob?)
      && forall n :: n in t.entries ==> IsName(n) && Shaped(t.entries[n].node, alive)
  }

  /** What git guarantees of every tree. */
  ghost predicate Named(t: Node) { Shaped(t, false) }

  /** What the driver keeps of a tree that has it. */
  ghost predicate Kept(t: Node) { Shaped(t, true) }

  /** In terms of each single directory. */
  lemma {:induction false} KeptIff(t: Node)
    ensures Kept(t) <==> forall q :: IsDir(t, q) ==> KeptHere(At(t, q))
  {
    if t.Tree? {
      assert At(t, []) == t.entries;
      forall n | n in t.entries
        ensures forall q :: IsDir(t.entries[n].node, q) ==>
                              IsDir(t, [n] + q) && At(t, [n] + q) == At(t.entries[n].node, q)
      {
        forall q | IsDir(t.entries[n].node, q)
          ensures IsDir(t, [n] + q) && At(t, [n] + q) == At(t.entries[n].node, q)
        {
          assert ([n] + q)[1..] == q;
        }
        KeptIff(t.entries[n].node);
      }
      if forall q :: IsDir(t, q) ==> KeptHere(At(t, q)) {
        forall n | n in t.entries
          ensures Kept(t.entries[n].node)
        {
          forall q | IsDir(t.entries[n].node, q)
            ensures KeptHere(At(t.entries[n].node, q))
          {
            assert IsDir(t, [n] + q);
          }
          KeptIff(t.entries[n].node);
        }
      }
      if Kept(t) {
        forall q | IsDir(t, q)
          ensures KeptHere(At(t, q))
        {
          ShapedResolve(t, q, true);
        }
      }
    }
  }

  predicate KeptHere(m: Entries) {
    && m != map[]
    && (".gitkeep" in m ==> m.Keys == {".gitkeep"} && m[".gitkeep"].node.Blob?)
    && forall n :: n in m ==> n != "" && n != "." && n != ".." && '/' !in n
  }

  lemma {:induction false} ShapedResolve(t: Node, cs: seq<string>, alive: bool)
    requires Shaped(t, alive) && Resolves(t, cs)
    ensures Shaped(Resolve(t, cs), alive)
  {
    if cs != [] {
      ShapedResolve(t.entries[cs[0]].node, cs[1..], alive);
    }
  }

  lemma {:induction false} RehungShaped(order: Order, t: Node, cs: seq<string>, new': Node, alive: bool)
    requires ValidOrder(order) && IsDir(t, cs) && Shaped(t, alive) && Shaped(new', alive)
    ensures Shaped(Rehung(order, t, cs, new'), alive)
    ensures new'.Tree? ==> Rehung(order, t, cs, new').Tree?
  {
    if cs != [] {
      RehungShaped(order, t.entries[cs[0]].node, cs[1..], new', alive);
      var n := Chosen(order, t.entries, cs[0]);
      var r := Rehung(order, t, cs, new');
      assert r.entries.Keys == t.entries.Keys;
      assert t.entries[n].node.Tree?;
    }
  }
}
