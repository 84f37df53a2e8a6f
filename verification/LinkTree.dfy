/**
 The folder tree of a link list. Each line of the list has a level; it goes below the last folder
 that is still open and has a smaller level.
 */
module LinkTree {
  datatype Entry = Entry(url: string, name: string, level: int, modified: int, size: int)

  datatype Tree = Tree(entry: Entry, kids: seq<Tree>)

  const Root := Entry("", "root", -1, 0, 0)

  predicate IsFile(e: Entry) { e.url != "" }

  /** A line of this level goes somewhere below t. */
  predicate Under(t: Tree, e: Entry) { !IsFile(t.entry) && t.entry.level < e.level }

  predicate LastTakes(kids: seq<Tree>, e: Entry) { kids != [] && Under(kids[|kids| - 1], e) }

  function Add(t: Tree, e: Entry): Tree {
    var n := |t.kids|;
    if LastTakes(t.kids, e)
    then Tree(t.entry, t.kids[..n - 1] + [Add(t.kids[n - 1], e)])
    else Tree(t.entry, t.kids + [Tree(e, [])])
  }

  function AddAll(t: Tree, es: seq<Entry>): Tree {
    if es == [] then t else Add(AddAll(t, es[..|es| - 1]), es[|es| - 1])
  }

  function Build(es: seq<Entry>): Tree { AddAll(Tree(Root, []), es) }

  function Preorder(t: Tree): seq<Entry> { [t.entry] + PreorderAll(t.kids) }

  function PreorderAll(f: seq<Tree>): seq<Entry> {
    if f == [] then [] else Preorder(f[0]) + PreorderAll(f[1..])
  }

  lemma {:induction false} PreorderConcat(f: seq<Tree>, g: seq<Tree>)
    ensures PreorderAll(f + g) == PreorderAll(f) + PreorderAll(g)
  {
    if f == [] {
      assert f + g == g;
    } else {
      assert (f + g)[1..] == f[1..] + g;
      PreorderConcat(f[1..], g);
    }
  }

  lemma {:induction false} PreorderAdd(t: Tree, e: Entry)
    ensures Preorder(Add(t, e)) == Preorder(t) + [e]
    decreases t
  {
    var n := |t.kids|;
    if LastTakes(t.kids, e) {
      var front, last := t.kids[..n - 1], t.kids[n - 1];
      assert t.kids == front + [last];
      PreorderAdd(last, e);
      PreorderConcat(front, [last]);
      PreorderConcat(front, [Add(last, e)]);
    } else {
      PreorderConcat(t.kids, [Tree(e, [])]);
    }
  }

  /** Nothing is lost, added or reordered: read from top to bottom, the tree is the list. */
  lemma {:induction false} BuildKeepsList(es: seq<Entry>)
    ensures Preorder(Build(es)) == [Root] + es
    decreases |es|
  {
    if es != [] {
      var n := |es| - 1;
      BuildKeepsList(es[..n]);
      PreorderAdd(Build(es[..n]), es[n]);
      assert es == es[..n] + [es[n]];
    }
  }

  /**
     The trees that a list can describe: files have nothing below them, levels grow downwards, and
     what follows a folder is not deeper than it.
     */
  predicate WellNested(t: Tree) {
    && (t.entry.url != "" ==> t.kids == [])
    && (forall i :: 0 <= i < |t.kids| ==> t.entry.level < t.kids[i].entry.level && WellNested(t.kids[i]))
    && (forall i :: 0 < i < |t.kids| ==>
          t.kids[i - 1].entry.url != "" || t.kids[i].entry.level <= t.kids[i - 1].entry.level)
  }

  lemma {:induction false} AddStaysNested(t: Tree, e: Entry)
    requires WellNested(t) && Under(t, e)
    ensures WellNested(Add(t, e))
    decreases t
  {
    if LastTakes(t.kids, e) { AddStaysNested(t.kids[|t.kids| - 1], e); }
  }

  lemma {:induction false} BuildIsNested(es: seq<Entry>)
    requires forall i :: 0 <= i < |es| ==> es[i].level >= 0
    ensures WellNested(Build(es)) && Build(es).entry == Root
    decreases |es|
  {
    if es != [] {
      BuildIsNested(es[..|es| - 1]);
      AddStaysNested(Build(es[..|es| - 1]), es[|es| - 1]);
    }
  }

  lemma {:induction false} AddAllConcat(t: Tree, a: seq<Entry>, b: seq<Entry>)
    ensures AddAll(t, a + b) == AddAll(AddAll(t, a), b)
    decreases |b|
  {
    if b == [] {
      assert a + b == a;
    } else {
      assert (a + b)[..|a + b| - 1] == a + b[..|b| - 1];
      AddAllConcat(t, a, b[..|b| - 1]);
    }
  }

  /** What is deeper than the last folder goes below it. */
  lemma {:induction false} AddBelow(e: Entry, done: seq<Tree>, t: Tree, es: seq<Entry>)
    requires forall i :: 0 <= i < |es| ==> Under(t, es[i])
    ensures AddAll(Tree(e, done + [t]), es) == Tree(e, done + [AddAll(t, es)])
    ensures AddAll(t, es).entry == t.entry
    decreases |es|
  {
    if es != [] {
      var n := |es| - 1;
      AddBelow(e, done, t, es[..n]);
      var was := done + [AddAll(t, es[..n])];
      assert was[..|was| - 1] == done;
    }
  }

  lemma {:induction false} AllDeeper(f: seq<Tree>, level: int)
    requires forall i :: 0 <= i < |f| ==> level < f[i].entry.level && WellNested(f[i])
    ensures forall i :: 0 <= i < |PreorderAll(f)| ==> level < PreorderAll(f)[i].level
  {
    if f != [] {
      assert WellNested(f[0]);
      AllDeeper(f[0].kids, level);
      AllDeeper(f[1..], level);
      assert PreorderAll(f) == [f[0].entry] + PreorderAll(f[0].kids) + PreorderAll(f[1..]);
    }
  }

  lemma {:induction false} RebuildKids(e: Entry, done: seq<Tree>, f: seq<Tree>)
    requires WellNested(Tree(e, done + f))
    ensures AddAll(Tree(e, done), PreorderAll(f)) == Tree(e, done + f)
    decreases f
  {
    if f == [] {
      assert done + f == done;
    } else {
      var k, rest := f[0], f[1..];
      var i := |done|;
      assert (done + f)[i] == k && done + [k] + rest == done + f;
      assert done != [] ==> (done + f)[i - 1] == done[i - 1];
      assert AddAll(Tree(e, done), [k.entry]) == Tree(e, done + [Tree(k.entry, [])]);
      assert WellNested(k);
      AllDeeper(k.kids, k.entry.level);
      AddBelow(e, done, Tree(k.entry, []), PreorderAll(k.kids));
      assert [] + k.kids == k.kids;
      RebuildKids(k.entry, [], k.kids);
      RebuildKids(e, done + [k], rest);
      AddAllConcat(Tree(e, done), [k.entry], PreorderAll(k.kids));
      AddAllConcat(Tree(e, done), Preorder(k), PreorderAll(rest));
    }
  }

  /** Listing a tree and building it again gives the same tree, for exactly the trees a list can describe. */
  lemma RebuildIff(t: Tree)
    requires t.entry == Root && forall i :: 0 <= i < |PreorderAll(t.kids)| ==> PreorderAll(t.kids)[i].level >= 0
    ensures Build(PreorderAll(t.kids)) == t <==> WellNested(t)
  {
    BuildIsNested(PreorderAll(t.kids));
    if WellNested(t) {
      assert [] + t.kids == t.kids;
      RebuildKids(Root, [], t.kids);
    }
  }

  /** Every level is the depth. */
  predicate Leveled(t: Tree, level: int) {
    t.entry.level == level && forall i :: 0 <= i < |t.kids| ==> Leveled(t.kids[i], level + 1)
  }

  predicate FilesAreLeaves(t: Tree) {
    (t.entry.url != "" ==> t.kids == []) && forall i :: 0 <= i < |t.kids| ==> FilesAreLeaves(t.kids[i])
  }

  lemma {:induction false} LeveledIsNested(t: Tree, level: int)
    requires Leveled(t, level) && FilesAreLeaves(t)
    ensures WellNested(t)
    decreases t
  {
    forall i | 0 <= i < |t.kids|
      ensures t.entry.level < t.kids[i].entry.level && WellNested(t.kids[i])
    {
      LeveledIsNested(t.kids[i], level + 1);
    }
    assert forall i :: 0 < i < |t.kids| ==> t.kids[i - 1].entry.level == t.kids[i].entry.level;
  }

  lemma {:induction false} NestedLeaves(t: Tree)
    requires WellNested(t)
    ensures FilesAreLeaves(t)
    decreases t
  {
    forall i | 0 <= i < |t.kids|
      ensures FilesAreLeaves(t.kids[i])
    {
      NestedLeaves(t.kids[i]);
    }
  }

  // ---- Finding a node by its path ----

  /** The indices that lead from t down to a node. */
  predicate IsChain(t: Tree, chain: seq<nat>)
    decreases |chain|
  {
    chain == [] || (chain[0] < |t.kids| && IsChain(t.kids[chain[0]], chain[1..]))
  }

  function NodeAt(t: Tree, chain: seq<nat>): Tree
    requires IsChain(t, chain)
    decreases |chain|
  {
    if chain == [] then t else NodeAt(t.kids[chain[0]], chain[1..])
  }

  /** The names on the way down, from the name of t on. */
  function NamesTo(t: Tree, chain: seq<nat>): seq<string>
    requires IsChain(t, chain)
    decreases |chain|
  {
    [t.entry.name] + if chain == [] then [] else NamesTo(t.kids[chain[0]], chain[1..])
  }

  datatype Found = NotFound | Found(chain: seq<nat>)

  /** Depth first, with backtracking: siblings may have equal names. */
  function GetByPath(t: Tree, paths: seq<string>): Found
    decreases t, |t.kids| + 1
  {
    if paths == [] || t.entry.name != paths[0] then NotFound
    else if |paths| == 1 then Found([])
    else GetFromKids(t, 0, paths[1..])
  }

  function GetFromKids(t: Tree, i: nat, paths: seq<string>): Found
    decreases t, |t.kids| - i
  {
    if i >= |t.kids| then NotFound
    else
      match GetByPath(t.kids[i], paths)
      case Found(chain) => Found([i] + chain)
      case NotFound => GetFromKids(t, i + 1, paths)
  }

  /** A node is found exactly when some chain of names spells the path, and it is the end of such a chain. */
  lemma {:induction false} FoundIff(t: Tree, paths: seq<string>)
    ensures var r := GetByPath(t, paths);
            && (r.Found? ==> IsChain(t, r.chain) && NamesTo(t, r.chain) == paths)
            && (r.NotFound? ==> forall chain :: IsChain(t, chain) ==> NamesTo(t, chain) != paths)
    decreases t, |t.kids| + 1
  {
    if paths != [] && t.entry.name == paths[0] {
      if |paths| > 1 {
        FoundInKids(t, 0, paths[1..]);
        forall chain | IsChain(t, chain) && GetByPath(t, paths).NotFound?
          ensures NamesTo(t, chain) != paths
        {
          if chain != [] { assert NamesTo(t, chain)[1..] == NamesTo(t.kids[chain[0]], chain[1..]); }
        }
      } else {
        assert paths == [t.entry.name];
      }
    }
  }

  lemma {:induction false} FoundInKids(t: Tree, i: nat, paths: seq<string>)
    ensures var r := GetFromKids(t, i, paths);
            && (r.Found? ==> IsChain(t, r.chain) && r.chain != [] && NamesTo(t.kids[r.chain[0]], r.chain[1..]) == paths)
            && (r.NotFound? ==> forall chain :: IsChain(t, chain) && chain != [] && chain[0] >= i ==>
                  NamesTo(t.kids[chain[0]], chain[1..]) != paths)
    decreases t, |t.kids| - i
  {
    if i < |t.kids| {
      FoundIff(t.kids[i], paths);
      match GetByPath(t.kids[i], paths)
      case Found(chain) => assert ([i] + chain)[1..] == chain;
      case NotFound => FoundInKids(t, i + 1, paths);
    }
  }

  /** The chain that comes first when the tree is searched from top to bottom. */
  predicate NotLater(a: seq<nat>, b: seq<nat>)
    decreases |a|
  {
    a == [] || (b != [] && (a[0] < b[0] || (a[0] == b[0] && NotLater(a[1..], b[1..]))))
  }

  /** Of several chains that spell the path, the search finds the first one. */
  lemma {:induction false} FoundFirst(t: Tree, paths: seq<string>, chain: seq<nat>)
    requires IsChain(t, chain) && NamesTo(t, chain) == paths
    ensures GetByPath(t, paths).Found? && NotLater(GetByPath(t, paths).chain, chain)
    decreases t, |t.kids| + 1
  {
    if chain != [] {
      var rest := NamesTo(t.kids[chain[0]], chain[1..]);
      assert paths == [t.entry.name] + rest && paths[1..] == rest && rest != [];
      FirstInKids(t, 0, rest, chain);
    }
  }

  lemma {:induction false} FirstInKids(t: Tree, i: nat, paths: seq<string>, chain: seq<nat>)
    requires IsChain(t, chain) && chain != [] && i <= chain[0] && NamesTo(t.kids[chain[0]], chain[1..]) == paths
    ensures GetFromKids(t, i, paths).Found? && NotLater(GetFromKids(t, i, paths).chain, chain)
    decreases t, |t.kids| - i
  {
    if i == chain[0] { FoundFirst(t.kids[i], paths, chain[1..]); }
    match GetByPath(t.kids[i], paths)
    case Found(first) => assert ([i] + first)[1..] == first;
    case NotFound => FirstInKids(t, i + 1, paths, chain);
  }
}
