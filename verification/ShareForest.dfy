/**
 The virtual forest of shares. Nodes are copied by value into their parent's list, but every copy
 shares one list of children; the map is extended while it is being ranged over, so an iteration
 may or may not visit what it inserts.
 */
module ShareForest {
  import opened VirtualPaths

  /** The slice that all copies of a node point to. */
  class Children {
    var items: seq<RootFile>

    constructor ()
      ensures items == []
    {
      items := [];
    }
  }

  datatype RootFile = RootFile(shareId: string, virtualPath: string, child: Children)

  lemma CountMore(items: seq<RootFile>, f: RootFile)
    ensures forall g :: multiset(items + [f])[g] == multiset(items)[g] + if g == f then 1 else 0
  {
  }

  /** p is a non-empty path at or above a configured share. */
  ghost predicate InClosure(configs: map<string, string>, p: string) {
    p != "" && exists s :: s in configs && AtOrUnder(p, s)
  }

  /** Nothing is missing above a member of c. */
  ghost predicate UpClosed(c: set<string>) {
    forall p, q {:trigger AtOrUnder(p, q)} :: q in c && p != "" && AtOrUnder(p, q) ==> p in c
  }

  /** The closure is a finite set. */
  lemma ClosureSet(configs: map<string, string>) returns (c: set<string>)
    ensures UpClosed(c) && ("" !in configs ==> configs.Keys <= c)
    ensures forall p {:trigger InClosure(configs, p)} :: p in c <==> InClosure(configs, p)
  {
    var prefixes := set s, i | s in configs && 0 <= i <= |s| :: s[..i];
    c := set p | p in prefixes && InClosure(configs, p);
    forall p | InClosure(configs, p)
      ensures p in prefixes
    {
      var s :| s in configs && AtOrUnder(p, s);
      assert p == s[..|p|];
    }
    forall p, q | q in c && p != "" && AtOrUnder(p, q)
      ensures InClosure(configs, p)
    {
      var s :| s in configs && AtOrUnder(q, s);
      UnderTransitive(p, q, s);
    }
    forall s | s in configs && s != ""
      ensures InClosure(configs, s)
    {
      assert AtOrUnder(s, s);
    }
  }

  /** A node that belongs below another node. */
  predicate Linkable(p: string) {
    HasParent(p) && Parent(p) != ""
  }

  /** The Go map from virtual path to node. */
  class RootMap {
    var m: map<string, RootFile>

    ghost function Lists(): set<Children>
      reads this
    {
      set k | k in m :: m[k].child
    }

    /** Every list holds copies of the map's own nodes, each one level below the list's owner. */
    ghost predicate Sound()
      reads this, Lists()
    {
      && (forall k :: k in m ==> k != "" && m[k].virtualPath == k)
      && (forall k, l {:trigger m[k].child, m[l].child} :: k in m && l in m && k != l ==> m[k].child != m[l].child)
      && (forall k, f {:trigger f in m[k].child.items} :: k in m && f in m[k].child.items ==>
            && f.virtualPath in m && m[f.virtualPath] == f
            && HasParent(f.virtualPath) && Parent(f.virtualPath) == k)
    }

    /** How many copies of node k its parent's list holds. */
    ghost function Copies(k: string): nat
      requires k in m
      reads this, Lists()
    {
      if Linkable(k) && Parent(k) in m then multiset(m[Parent(k)].child.items)[m[k]] else 0
    }

    constructor ()
      ensures m == map[] && Sound()
    {
      m := map[];
    }

    method Append(k: string, f: RootFile)
      requires Sound() && k in m && f.virtualPath in m && m[f.virtualPath] == f
      requires HasParent(f.virtualPath) && Parent(f.virtualPath) == k
      modifies Lists()
      ensures Sound()
      ensures forall l {:trigger Copies(l)} :: l in m ==>
                Copies(l) == old(Copies(l)) + if l == f.virtualPath then 1 else 0
    {
      CountMore(m[k].child.items, f);
      Grow(k, f);
      forall l | l in m
        ensures Copies(l) == old(Copies(l)) + if l == f.virtualPath then 1 else 0
      {
        if Linkable(l) && Parent(l) in m {
          assert Parent(l) != k ==> m[Parent(l)].child.items == old(m[Parent(l)].child.items);
        }
      }
    }

    /** Only the one list changes. */
    method Grow(k: string, f: RootFile)
      requires Sound() && k in m && f.virtualPath in m && m[f.virtualPath] == f
      requires HasParent(f.virtualPath) && Parent(f.virtualPath) == k
      modifies Lists()
      ensures Sound() && m[k].child.items == old(m[k].child.items) + [f]
      ensures forall l :: l in m && l != k ==> m[l].child.items == old(m[l].child.items)
    {
      var list := m[k].child;
      list.items := list.items + [f];
    }

    /** A new node with an empty list of its own. */
    method Insert(path: string, shareId: string)
      requires Sound() && path != "" && path !in m
      modifies this
      ensures m.Keys == old(m).Keys + {path} && fresh(m[path].child)
      ensures m[path].shareId == shareId && Sound() && Copies(path) == 0
      ensures forall k :: k in old(m) ==> m[k] == old(m)[k]
      ensures forall k {:trigger Copies(k)} :: k in old(m) ==> Copies(k) == old(Copies(k))
    {
      var children := new Children();
      var node := RootFile(shareId, path, children);
      m := m[path := node];
      assert forall k :: k in old(m) ==> m[k] == old(m)[k] && m[k].child.items == old(m[k].child.items);
      assert Copies(path) == 0;
      forall k | k in old(m)
        ensures Copies(k) == old(Copies(k))
      {
        if Linkable(k) && Parent(k) == path { assert m[path].child.items == []; }
      }
    }

    /** What the nodes that a call inserts look like. */
    ghost predicate Inserted(k: string, path: string)
      requires k in m
      reads this, Lists()
    {
      AtOrUnder(k, path) && m[k].shareId == "" && Copies(k) == if Linkable(k) then 1 else 0
    }

    method EnsurePathExists(path: string)
      requires Sound()
      modifies this, Lists()
      ensures Sound()
      ensures path != "" ==> path in m
      ensures forall k :: k in old(m) ==> k in m && m[k] == old(m)[k]
      ensures forall k {:trigger Copies(k)} :: k in old(m) ==> Copies(k) == old(Copies(k))
      ensures forall k :: k in m && k !in old(m) ==> fresh(m[k].child) && Inserted(k, path)
      decreases |path|
    {
      if path == "" || path in m { return; }
      Insert(path, "");
      if HasParent(path) {
        EnsureParent(path);
      }
    }

    /** The second half of EnsurePathExists: the parent, and the link to it. */
    method EnsureParent(path: string)
      requires Sound() && path in m && HasParent(path) && m[path].shareId == "" && Copies(path) == 0
      modifies this, Lists()
      ensures Sound()
      ensures forall k :: k in old(m) ==> k in m && m[k] == old(m)[k]
      ensures forall k {:trigger Copies(k)} :: k in old(m) && k != path ==> Copies(k) == old(Copies(k))
      ensures Inserted(path, path)
      ensures forall k :: k in m && k !in old(m) ==> fresh(m[k].child) && Inserted(k, path)
      decreases |path|, 0
    {
      var parentPath := Parent(path);
      ParentAbove(path);
      EnsurePathExists(parentPath);
      forall k | k in m && AtOrUnder(k, parentPath)
        ensures AtOrUnder(k, path)
      {
        UnderTransitive(k, parentPath, path);
      }
      if parentPath in m {
        Append(parentPath, m[path]);
      }
    }

    /** How often the range loop ends up linking a node: once when it visits it, once when it inserts it. */
    ghost predicate Linked(configs: map<string, string>, visited: set<string>)
      reads this, Lists()
    {
      forall k {:trigger Copies(k)} :: k in m ==>
        Copies(k) == if !Linkable(k) then 0
                     else (if k in visited then 1 else 0) + (if k in configs then 0 else 1)
    }

    ghost predicate Configured(configs: map<string, string>, allowed: set<string>)
      reads this
    {
      && (forall k :: k in configs ==> k in m && m[k].shareId == configs[k])
      && (forall k :: k in m && k !in configs ==> m[k].shareId == "")
      && m.Keys <= allowed
    }

    /** Link one visited node to its parent, creating the parents that are missing. */
    method Link(k: string)
      requires Sound() && k in m
      modifies this, Lists()
      ensures Sound()
      ensures forall l :: l in old(m) ==> l in m && m[l] == old(m)[l]
      ensures forall l {:trigger Copies(l)} :: l in old(m) ==>
                Copies(l) == old(Copies(l)) + if l == k && Linkable(k) then 1 else 0
      ensures forall l :: l in m && l !in old(m) ==> fresh(m[l].child) && Inserted(l, k)
    {
      if HasParent(k) {
        var parentPath := Parent(k);
        ParentAbove(k);
        EnsurePathExists(parentPath);
        forall l | l in m && AtOrUnder(l, parentPath)
          ensures AtOrUnder(l, k)
        {
          UnderTransitive(l, parentPath, k);
        }
        if parentPath in m {
          Append(parentPath, m[k]);
        }
      }
    }

    /** One turn of the range loop. */
    method Visit(configs: map<string, string>, k: string, ghost visited: set<string>, ghost allowed: set<string>)
      requires Sound() && Configured(configs, allowed) && Linked(configs, visited)
      requires k in m && k !in visited && visited <= m.Keys && UpClosed(allowed)
      modifies this, Lists()
      ensures Sound() && Configured(configs, allowed) && Linked(configs, visited + {k})
      ensures forall l :: l in old(m) ==> l in m && m[l] == old(m)[l]
      ensures forall l :: l in m && l !in old(m) ==> fresh(m[l].child)
    {
      Link(k);
      forall l | l in m && l !in old(m)
        ensures l in allowed && l !in configs && m[l].shareId == "" && Copies(l) == if Linkable(l) then 1 else 0
      {
        assert Inserted(l, k) && l != "";
        assert AtOrUnder(l, k);
      }
      forall l | l in m
        ensures Copies(l) == if !Linkable(l) then 0
                             else (if l in visited + {k} then 1 else 0) + (if l in configs then 0 else 1)
      {
        if l in old(m) {
          assert Copies(l) == old(Copies(l)) + if l == k && Linkable(k) then 1 else 0;
        } else {
          assert l !in configs && l !in visited + {k};
        }
      }
    }

    ghost predicate UpLinked()
      reads this, Lists()
    {
      forall k {:trigger Copies(k)} :: k in m && Linkable(k) ==> Parent(k) in m && 1 <= Copies(k) <= 2
    }

    /** Every configured share is in the map, with everything above it, and every node is linked to its parent. */
    ghost predicate Built(configs: map<string, string>)
      reads this, Lists()
    {
      && Sound() && Configured(configs, m.Keys)
      && (forall p {:trigger InClosure(configs, p)} :: p in m <==> InClosure(configs, p))
      && UpLinked()
      && (forall k {:trigger Copies(k)} :: k in m && k in configs && Linkable(k) ==> Copies(k) == 1)
    }

    /** The first loop: one node for each configured share. */
    method AddShares(configs: map<string, string>)
      requires m == map[] && "" !in configs
      modifies this
      ensures m.Keys == configs.Keys && Sound()
      ensures forall k :: k in m ==> fresh(m[k].child)
      ensures forall k :: k in m ==> m[k].shareId == configs[k]
      ensures forall k {:trigger Copies(k)} :: k in m ==> Copies(k) == 0
    {
      var rest := configs.Keys;
      while rest != {}
        invariant rest <= configs.Keys && m.Keys == configs.Keys - rest
        invariant Sound() && forall k :: k in m ==> fresh(m[k].child)
        invariant forall k :: k in m ==> m[k].shareId == configs[k]
        invariant forall k {:trigger Copies(k)} :: k in m ==> Copies(k) == 0
      {
        var k :| k in rest;
        ghost var was := m;
        Insert(k, configs[k]);
        assert forall l :: l in m ==> l == k || (l in was && m[l] == was[l]);
        rest := rest - {k};
      }
    }

    /** The second loop: range over the map while it grows. */
    method LinkShares(configs: map<string, string>, ghost allowed: set<string>) returns (visited: set<string>)
      requires Sound() && Configured(configs, allowed) && Linked(configs, {}) && UpClosed(allowed)
      modifies this, Lists()
      ensures Sound() && Configured(configs, allowed) && Linked(configs, visited) && configs.Keys <= visited
      ensures forall k :: k in m && k !in old(m) ==> fresh(m[k].child)
      ensures forall k :: k in old(m) ==> k in m && m[k] == old(m)[k]
    {
      visited := {};
      while true
        invariant visited <= m.Keys && Sound()
        invariant Configured(configs, allowed) && Linked(configs, visited)
        invariant forall k :: k in m && k !in old(m) ==> fresh(m[k].child)
        invariant forall k :: k in old(m) ==> k in m && m[k] == old(m)[k]
        decreases allowed - visited
      {
        // Every key that was there at the start is visited; one inserted since may be.
        var stop: bool := *;
        if m.Keys <= visited || (configs.Keys <= visited && stop) { break; }
        var k :| k in m && k !in visited;
        Visit(configs, k, visited, allowed);
        visited := visited + {k};
      }
    }

    method BuildTreeStructure(configs: map<string, string>)
      requires m == map[] && "" !in configs
      modifies this
      ensures Built(configs) && forall k :: k in m ==> fresh(m[k].child)
    {
      AddShares(configs);
      ghost var allowed := ClosureSet(configs);
      var visited := LinkShares(configs, allowed);
      LinkedIsBuilt(configs, visited, allowed);
    }

    lemma LinkedIsBuilt(configs: map<string, string>, visited: set<string>, allowed: set<string>)
      requires Sound() && Configured(configs, allowed) && Linked(configs, visited)
      requires configs.Keys <= visited
      requires forall p {:trigger InClosure(configs, p)} :: p in allowed <==> InClosure(configs, p)
      ensures Built(configs)
    {
      forall k | k in m && Linkable(k)
        ensures Parent(k) in m && 1 <= Copies(k) <= 2
      {
        assert k in visited || k !in configs;
        assert Copies(k) >= 1;
      }
      forall p | InClosure(configs, p)
        ensures p in m
      {
        var s :| s in configs && AtOrUnder(p, s);
        ReachesUp(p, s);
      }
    }

    /** With every parent present, everything above a node is present. */
    lemma {:induction false} ReachesUp(p: string, s: string)
      requires UpLinked() && s in m && p != "" && AtOrUnder(p, s)
      ensures p in m
      decreases |s|
    {
      if p != s {
        AboveParent(p, s);
        ParentAbove(s);
        assert Copies(s) >= 0;
        ReachesUp(p, Parent(s));
      }
    }

    /** A node that no list of the forest holds. */
    predicate IsTop(k: string)
      reads this
    {
      k in m && (HasParent(k) ==> Parent(k) !in m)
    }

    /** The top nodes of the map, each once. */
    ghost predicate TopsAre(nodes: seq<RootFile>)
      reads this
    {
      && (forall i :: 0 <= i < |nodes| ==> IsTop(nodes[i].virtualPath) && nodes[i] == m[nodes[i].virtualPath])
      && (forall k :: IsTop(k) ==> m[k] in nodes)
      && (forall i, j :: 0 <= i < j < |nodes| ==> nodes[i].virtualPath != nodes[j].virtualPath)
    }

    /** The extracted list: the shares of the root directory first, then the top nodes of the map. */
    ghost predicate Extracted(top: seq<RootFile>, rootShares: seq<string>)
      reads this, set f | f in top :: f.child
    {
      && |rootShares| <= |top|
      && AreRoots(top[..|rootShares|], rootShares)
      && TopsAre(top[|rootShares|..])
    }

    lemma TopIs(top: seq<RootFile>, rootShares: seq<string>, f: RootFile)
      requires Extracted(top, rootShares) && f in top
      ensures (f.virtualPath == "" && f.child.items == []) || (IsTop(f.virtualPath) && f == m[f.virtualPath])
    {
      var n := |rootShares|;
      var i :| 0 <= i < |top| && top[i] == f;
      var roots, nodes := top[..n], top[n..];
      if i < n { assert roots[i] == f; } else { assert nodes[i - n] == f; }
    }

    lemma TopHas(top: seq<RootFile>, rootShares: seq<string>, k: string)
      requires Extracted(top, rootShares) && IsTop(k)
      ensures m[k] in top
    {
      assert m[k] in top[|rootShares|..];
    }

    method ExtractTopLevelNodes(rootShares: seq<string>) returns (top: seq<RootFile>)
      requires Sound()
      ensures Extracted(top, rootShares)
    {
      var first := RootNodes(rootShares);
      var nodes := TopNodes();
      top := first + nodes;
      assert top[..|rootShares|] == first && top[|rootShares|..] == nodes;
    }

    method TopNodes() returns (nodes: seq<RootFile>)
      requires Sound()
      ensures TopsAre(nodes)
    {
      nodes := [];
      var rest := m.Keys;
      while rest != {}
        invariant rest <= m.Keys
        invariant forall i :: 0 <= i < |nodes| ==>
                    && IsTop(nodes[i].virtualPath) && nodes[i] == m[nodes[i].virtualPath]
                    && nodes[i].virtualPath !in rest
        invariant forall k :: IsTop(k) && k !in rest ==> m[k] in nodes
        invariant forall i, j :: 0 <= i < j < |nodes| ==> nodes[i].virtualPath != nodes[j].virtualPath
      {
        var k :| k in rest;
        if IsTop(k) {
          nodes := nodes + [m[k]];
        }
        rest := rest - {k};
      }
    }
  }

  /** The nodes for the shares of the root directory, with nothing below them. */
  ghost predicate AreRoots(nodes: seq<RootFile>, rootShares: seq<string>)
    reads set f | f in nodes :: f.child
  {
    && |nodes| == |rootShares|
    && forall i :: 0 <= i < |nodes| ==>
         nodes[i].shareId == rootShares[i] && nodes[i].virtualPath == "" && nodes[i].child.items == []
  }

  method RootNodes(rootShares: seq<string>) returns (top: seq<RootFile>)
    ensures AreRoots(top, rootShares)
  {
    top := [];
    var i := 0;
    while i < |rootShares|
      invariant 0 <= i <= |rootShares| && |top| == i
      invariant forall j :: 0 <= j < i ==>
                  top[j].shareId == rootShares[j] && top[j].virtualPath == "" && top[j].child.items == []
    {
      var children := new Children();
      top := top + [RootFile(rootShares[i], "", children)];
      i := i + 1;
    }
  }

  // ---- What can be reached ----

  /** A walk down the forest, through the lists that the copies share. */
  datatype Trail = Start(node: RootFile) | Down(up: Trail, node: RootFile)

  ghost function ListsOf(t: Trail): set<Children> {
    match t
    case Start(f) => {f.child}
    case Down(up, f) => ListsOf(up) + {f.child}
  }

  ghost predicate Walk(top: seq<RootFile>, t: Trail)
    reads ListsOf(t)
  {
    match t
    case Start(f) => f in top
    case Down(up, f) => Walk(top, up) && f in up.node.child.items
  }

  ghost predicate Visits(t: Trail, p: string) {
    t.node.virtualPath == p || (t.Down? && Visits(t.up, p))
  }

  /** Every node of a walk is the map's own, or a share of the root directory with nothing below it. */
  lemma {:induction false} WalkStays(r: RootMap, rootShares: seq<string>, top: seq<RootFile>, t: Trail)
    requires r.Sound() && r.Extracted(top, rootShares) && Walk(top, t)
    ensures var p := t.node.virtualPath;
            if p == "" then t.node.child.items == [] else p in r.m && r.m[p] == t.node
    ensures t.Down? ==> Under(t.up.node.virtualPath, t.node.virtualPath)
  {
    match t
    case Start(f) => r.TopIs(top, rootShares, f);
    case Down(up, f) =>
      WalkStays(r, rootShares, top, up);
      var k := up.node.virtualPath;
      assert k != "" && f in r.m[k].child.items;
      ParentAbove(f.virtualPath);
  }

  /** A walk only ever goes to longer paths, so it never comes back. */
  lemma {:induction false} WalkClimbs(r: RootMap, rootShares: seq<string>, top: seq<RootFile>, t: Trail, p: string)
    requires r.Sound() && r.Extracted(top, rootShares) && Walk(top, t)
    requires t.Down? && Visits(t.up, p)
    ensures Under(p, t.node.virtualPath)
  {
    WalkStays(r, rootShares, top, t);
    if p != t.up.node.virtualPath {
      WalkClimbs(r, rootShares, top, t.up, p);
      UnderTransitive(p, t.up.node.virtualPath, t.node.virtualPath);
    }
  }

  lemma {:induction false} WalkTo(r: RootMap, configs: map<string, string>, rootShares: seq<string>,
                                  top: seq<RootFile>, p: string)
      returns (t: Trail)
    requires r.Built(configs) && r.Extracted(top, rootShares) && p in r.m
    ensures Walk(top, t) && t.node == r.m[p]
    decreases |p|
  {
    if r.IsTop(p) {
      r.TopHas(top, rootShares, p);
      t := Start(r.m[p]);
    } else {
      ParentAbove(p);
      assert r.Copies(p) >= 1;
      var up := WalkTo(r, configs, rootShares, top, Parent(p));
      t := Down(up, r.m[p]);
    }
  }

  /**
   Whatever order the map is ranged over in, the paths that can be reached from the extracted
   nodes are exactly the non-empty component prefixes of the configured share paths, and no walk
   comes back to a path it has been at.
   */
  lemma ReachableIsClosure(r: RootMap, configs: map<string, string>, rootShares: seq<string>,
                           top: seq<RootFile>, p: string)
    requires r.Built(configs) && r.Extracted(top, rootShares) && p != ""
    ensures (exists t: Trail :: Walk(top, t) && t.node.virtualPath == p) <==> InClosure(configs, p)
    ensures forall t: Trail :: Walk(top, t) && t.Down? ==> !Visits(t.up, t.node.virtualPath)
  {
    forall t: Trail | Walk(top, t)
      ensures t.node.virtualPath == p ==> InClosure(configs, p)
      ensures t.Down? ==> !Visits(t.up, t.node.virtualPath)
    {
      WalkStays(r, rootShares, top, t);
      assert InClosure(configs, p) <==> p in r.m;
      if t.Down? && Visits(t.up, t.node.virtualPath) {
        WalkClimbs(r, rootShares, top, t, t.node.virtualPath);
        assert false;
      }
    }
    if InClosure(configs, p) {
      var t := WalkTo(r, configs, rootShares, top, p);
      assert Walk(top, t);
    }
  }
}
