/** Building the tree of a link list in place, with a stack of open folders, and filling in folder sizes. */
module LinkNodes {
  import opened Wrappers
  import opened Paths
  import opened Texts
  import opened LinkTree
  import opened LinkLines

  class Node {
    var url: string
    var name: string
    var level: int
    var modified: int
    var size: int
    var children: seq<Node>

    constructor (e: Entry)
      ensures Value() == e && children == []
    {
      url, name, level, modified, size := e.url, e.name, e.level, e.modified, e.size;
      children := [];
    }

    ghost function Value(): Entry
      reads this
    {
      Entry(url, name, level, modified, size)
    }
  }

  // ---- Nodes that form a tree ----

  /** The first node of each tree, when the trees lie one after the other in preorder. */
  ghost function Heads(ns: seq<Node>, f: seq<Tree>): seq<Node> {
    if f == [] || ns == [] then []
    else
      var c := |Preorder(f[0])|;
      [ns[0]] + if c <= |ns| then Heads(ns[c..], f[1..]) else []
  }

  /** The nodes, in preorder, form the tree. */
  ghost predicate Shows(ns: seq<Node>, t: Tree)
    reads ns
    decreases t, 0
  {
    && ns != [] && ns[0].Value() == t.entry
    && ns[0].children == Heads(ns[1..], t.kids)
    && ShowsAll(ns[1..], t.kids)
  }

  ghost predicate ShowsAll(ns: seq<Node>, f: seq<Tree>)
    reads ns
    decreases f
  {
    if f == [] then ns == []
    else
      var c := |Preorder(f[0])|;
      c <= |ns| && Shows(ns[..c], f[0]) && ShowsAll(ns[c..], f[1..])
  }

  ghost predicate Differ(ns: seq<Node>, i: nat, j: nat)
    requires i < |ns| && j < |ns|
  {
    ns[i] != ns[j]
  }

  ghost predicate Distinct(ns: seq<Node>) { forall i, j :: 0 <= i < j < |ns| ==> Differ(ns, i, j) }

  lemma {:induction false} HeadsConcat(ns: seq<Node>, f: seq<Tree>, ms: seq<Node>, g: seq<Tree>)
    requires |ns| == |PreorderAll(f)|
    ensures Heads(ns + ms, f + g) == Heads(ns, f) + Heads(ms, g)
  {
    if f == [] {
      assert f + g == g && ns + ms == ms;
    } else {
      var c := |Preorder(f[0])|;
      assert (f + g)[0] == f[0] && (f + g)[1..] == f[1..] + g;
      assert (ns + ms)[c..] == ns[c..] + ms;
      HeadsConcat(ns[c..], f[1..], ms, g);
      assert (ns + ms)[0] == ns[0];
      ConsConcat(ns[0], Heads(ns[c..], f[1..]), Heads(ms, g));
    }
  }

  lemma ConsConcat(n: Node, a: seq<Node>, b: seq<Node>)
    ensures [n] + (a + b) == [n] + a + b
  {
  }

  lemma {:induction false} ShowsConcat(ns: seq<Node>, f: seq<Tree>, ms: seq<Node>, g: seq<Tree>)
    requires ShowsAll(ns, f) && ShowsAll(ms, g)
    ensures ShowsAll(ns + ms, f + g)
    decreases f
  {
    if f == [] {
      assert f + g == g && ns + ms == ms;
    } else {
      var c := |Preorder(f[0])|;
      assert (f + g)[0] == f[0] && (f + g)[1..] == f[1..] + g;
      assert (ns + ms)[..c] == ns[..c] && (ns + ms)[c..] == ns[c..] + ms;
      ShowsConcat(ns[c..], f[1..], ms, g);
    }
  }

  /** The nodes that are reached from node are the tree, child by child. */
  ghost predicate Stands(node: Node, t: Tree, ns: seq<Node>)
    reads ns
    decreases t
  {
    && node in ns && |node.children| == |t.kids|
    && node.url == t.entry.url && node.name == t.entry.name && node.level == t.entry.level
    && node.modified == t.entry.modified && node.size == t.entry.size
    && forall i :: 0 <= i < |t.kids| ==> Stands(node.children[i], t.kids[i], ns)
  }

  lemma {:induction false} ShowsStands(ns: seq<Node>, t: Tree, all: seq<Node>)
    requires Shows(ns, t) && forall n :: n in ns ==> n in all
    ensures Stands(ns[0], t, all)
    decreases t, 0
  {
    HeadsStand(ns[1..], t.kids, all);
  }

  lemma {:induction false} HeadsStand(ns: seq<Node>, f: seq<Tree>, all: seq<Node>)
    requires ShowsAll(ns, f) && forall n :: n in ns ==> n in all
    ensures |Heads(ns, f)| == |f| && forall i :: 0 <= i < |f| ==> Stands(Heads(ns, f)[i], f[i], all)
    decreases f
  {
    if f != [] {
      var c := |Preorder(f[0])|;
      ShowsStands(ns[..c], f[0], all);
      HeadsStand(ns[c..], f[1..], all);
      var rest := Heads(ns[c..], f[1..]);
      assert Heads(ns, f) == [ns[..c][0]] + rest;
      forall i | 0 <= i < |f|
        ensures Stands(Heads(ns, f)[i], f[i], all)
      {
        if i > 0 { assert Heads(ns, f)[i] == rest[i - 1] && f[i] == f[1..][i - 1]; }
      }
    }
  }

  lemma ShowsOne(ns: seq<Node>, t: Tree)
    requires Shows(ns, t) && |ns| == |Preorder(t)|
    ensures ShowsAll(ns, [t]) && Heads(ns, [t]) == [ns[0]]
  {
    assert ns[..|ns|] == ns;
    assert [t][1..] == [] && ns[|ns|..] == [];
  }

  lemma {:induction false} ShowsCount(ns: seq<Node>, t: Tree)
    requires Shows(ns, t)
    ensures |ns| == |Preorder(t)|
    decreases t, 0
  {
    ShowsCountAll(ns[1..], t.kids);
  }

  lemma {:induction false} ShowsCountAll(ns: seq<Node>, f: seq<Tree>)
    requires ShowsAll(ns, f)
    ensures |ns| == |PreorderAll(f)|
    decreases f
  {
    if f != [] { ShowsCountAll(ns[|Preorder(f[0])|..], f[1..]); }
  }

  // ---- The open folders ----

  /** An open folder: its node is at this place, and done are the closed trees below it. */
  datatype Frame = Frame(at: nat, entry: Entry, done: seq<Tree>)

  /** The tree that results when all folders from the top down are closed. */
  ghost function Close(fs: seq<Frame>, t: Tree): Tree {
    if fs == [] then t
    else
      var top := fs[|fs| - 1];
      Close(fs[..|fs| - 1], Tree(top.entry, top.done + [t]))
  }

  ghost function Closed(fs: seq<Frame>): Tree
    requires fs != []
  {
    var top := fs[|fs| - 1];
    Close(fs[..|fs| - 1], Tree(top.entry, top.done))
  }

  ghost predicate OpenFor(fs: seq<Frame>, e: Entry) {
    forall k :: 0 <= k < |fs| ==> !IsFile(fs[k].entry) && fs[k].entry.level < e.level
  }

  lemma {:induction false} AddDeep(fs: seq<Frame>, t: Tree, e: Entry)
    requires OpenFor(fs, e) && Under(t, e)
    ensures Add(Close(fs, t), e) == Close(fs, Add(t, e))
    decreases |fs|
  {
    if fs != [] {
      var top := fs[|fs| - 1];
      var u := Tree(top.entry, top.done + [t]);
      assert u.kids[..|u.kids| - 1] == top.done;
      AddDeep(fs[..|fs| - 1], u, e);
    }
  }

  /** A line added to the top folder is added to the tree. */
  lemma AddToTop(fs: seq<Frame>, e: Entry)
    requires fs != [] && OpenFor(fs, e) && !LastTakes(fs[|fs| - 1].done, e)
    ensures var top := fs[|fs| - 1];
            Close(fs[..|fs| - 1], Tree(top.entry, top.done + [Tree(e, [])])) == Add(Closed(fs), e)
  {
    var top := fs[|fs| - 1];
    AddDeep(fs[..|fs| - 1], Tree(top.entry, top.done), e);
  }

  /** Where the nodes below the k-th open folder end, up to the next open folder. */
  ghost function End(n: nat, fs: seq<Frame>, k: nat): nat { if k + 1 < |fs| then fs[k + 1].at else n }

  ghost predicate Places(n: nat, fs: seq<Frame>) {
    && fs != [] && fs[0].at == 0 && fs[|fs| - 1].at < n
    && (forall i, j :: 0 <= i < j < |fs| ==> fs[i].at < fs[j].at)
  }

  /** An open folder with the nodes below it, and the next open folder, if any, as its last child. */
  ghost predicate Held(node: Node, frame: Frame, below: seq<Node>, next: seq<Node>)
    reads {node} + set n | n in below
  {
    && node.Value() == frame.entry
    && ShowsAll(below, frame.done)
    && node.children == Heads(below, frame.done) + next
  }

  ghost function Below(all: seq<Node>, fs: seq<Frame>, k: nat): seq<Node>
    requires Places(|all|, fs) && k < |fs|
  {
    all[fs[k].at + 1..End(|all|, fs, k)]
  }

  ghost function Next(all: seq<Node>, fs: seq<Frame>, k: nat): seq<Node>
    requires Places(|all|, fs) && k < |fs|
  {
    if k + 1 < |fs| then [all[fs[k + 1].at]] else []
  }

  ghost predicate HeldAt(all: seq<Node>, fs: seq<Frame>, k: nat)
    requires Places(|all|, fs) && k < |fs|
    reads all
  {
    Held(all[fs[k].at], fs[k], Below(all, fs, k), Next(all, fs, k))
  }

  /** The nodes made so far are the open folders with the closed trees below them. */
  ghost predicate Holds(all: seq<Node>, fs: seq<Frame>)
    reads all
  {
    Places(|all|, fs) && forall k :: 0 <= k < |fs| ==> HeldAt(all, fs, k)
  }

  lemma TopShows(node: Node, frame: Frame, below: seq<Node>)
    requires Held(node, frame, below, [])
    ensures var t := Tree(frame.entry, frame.done);
            Shows([node] + below, t) && ShowsAll([node] + below, [t]) && Heads([node] + below, [t]) == [node]
  {
    var ns := [node] + below;
    assert ns[1..] == below;
    assert Heads(below, frame.done) + [] == Heads(below, frame.done);
    ShowsCount(ns, Tree(frame.entry, frame.done));
    ShowsOne(ns, Tree(frame.entry, frame.done));
  }

  lemma HeldWithTop(node: Node, frame: Frame, below: seq<Node>, top: Node, topFrame: Frame, topBelow: seq<Node>)
    requires Held(node, frame, below, [top]) && Held(top, topFrame, topBelow, [])
    ensures var t := Tree(topFrame.entry, topFrame.done);
            Held(node, frame.(done := frame.done + [t]), below + ([top] + topBelow), [])
  {
    var t := Tree(topFrame.entry, topFrame.done);
    TopShows(top, topFrame, topBelow);
    ShowsConcat(below, frame.done, [top] + topBelow, [t]);
    ShowsCountAll(below, frame.done);
    HeadsConcat(below, frame.done, [top] + topBelow, [t]);
  }

  /** The top folder becomes the last closed tree of the one below. */
  ghost function Popped(fs: seq<Frame>): seq<Frame>
    requires |fs| > 1
  {
    var m := |fs| - 1;
    fs[..m][m - 1 := fs[m - 1].(done := fs[m - 1].done + [Tree(fs[m].entry, fs[m].done)])]
  }

  lemma PopCloses(fs: seq<Frame>)
    requires |fs| > 1
    ensures Closed(Popped(fs)) == Closed(fs)
  {
    var m := |fs| - 1;
    assert Popped(fs)[..m - 1] == fs[..m][..m - 1];
  }

  lemma Around<T>(s: seq<T>, i: nat, j: nat)
    requires i <= j < |s|
    ensures s[i..j] + ([s[j]] + s[j + 1..]) == s[i..]
  {
  }

  lemma PopPlaces(all: seq<Node>, fs: seq<Frame>, k: nat)
    requires |fs| > 1 && Places(|all|, fs) && k < |fs| - 1
    ensures Places(|all|, Popped(fs)) && Popped(fs)[k].at == fs[k].at
    ensures var m, gs := |fs| - 1, Popped(fs);
            if k < m - 1 then
              gs[k] == fs[k] && Below(all, gs, k) == Below(all, fs, k) && Next(all, gs, k) == Next(all, fs, k)
            else
              Below(all, gs, k) == Below(all, fs, k) + ([all[fs[m].at]] + Below(all, fs, m)) && Next(all, gs, k) == []
  {
    var m := |fs| - 1;
    if k == m - 1 { Around(all, fs[k].at + 1, fs[m].at); }
  }

  lemma PopHolds(all: seq<Node>, fs: seq<Frame>)
    requires |fs| > 1 && Holds(all, fs)
    ensures Holds(all, Popped(fs))
  {
    var m, gs := |fs| - 1, Popped(fs);
    PopPlaces(all, fs, 0);
    forall k | 0 <= k < m
      ensures HeldAt(all, gs, k)
    {
      PopPlaces(all, fs, k);
      assert HeldAt(all, fs, k);
      if k == m - 1 {
        assert HeldAt(all, fs, m);
        HeldWithTop(all[fs[k].at], fs[k], Below(all, fs, k), all[fs[m].at], fs[m], Below(all, fs, m));
      }
    }
  }

  // ---- Adding a node ----

  /** A file is closed at once, a folder is opened. */
  ghost function Added(fs: seq<Frame>, n: nat, e: Entry): seq<Frame>
    requires fs != []
  {
    var m := |fs| - 1;
    if IsFile(e) then fs[m := fs[m].(done := fs[m].done + [Tree(e, [])])] else fs + [Frame(n, e, [])]
  }

  lemma AddedCloses(fs: seq<Frame>, n: nat, e: Entry)
    requires fs != [] && OpenFor(fs, e) && !LastTakes(fs[|fs| - 1].done, e)
    ensures Closed(Added(fs, n, e)) == Add(Closed(fs), e)
  {
    var m := |fs| - 1;
    AddToTop(fs, e);
    if IsFile(e) {
      assert Added(fs, n, e)[..m] == fs[..m];
    } else {
      assert Added(fs, n, e)[..m + 1] == fs;
    }
  }

  lemma SliceOfAppend<T>(s: seq<T>, x: T, a: nat, b: nat)
    requires a <= b <= |s|
    ensures (s + [x])[a..b] == s[a..b] && (s + [x])[a..] == s[a..] + [x]
  {
  }

  lemma AddPlaces(all: seq<Node>, node: Node, fs: seq<Frame>, e: Entry, k: nat)
    requires Places(|all|, fs) && k < |fs|
    ensures var m, now, gs := |fs| - 1, all + [node], Added(fs, |all|, e);
            && Places(|now|, gs)
            && now[gs[k].at] == all[fs[k].at]
            && (k < m ==> gs[k] == fs[k] && Below(now, gs, k) == Below(all, fs, k)
                          && Next(now, gs, k) == Next(all, fs, k))
            && (k == m && IsFile(e) ==> Below(now, gs, m) == Below(all, fs, m) + [node] && Next(now, gs, m) == [])
            && (k == m && !IsFile(e) ==> gs[m] == fs[m] && Below(now, gs, m) == Below(all, fs, m)
                                         && Next(now, gs, m) == [node])
  {
    var m, a, b := |fs| - 1, fs[k].at + 1, End(|all|, fs, k);
    SliceOfAppend(all, node, a, b);
    if k < m { assert Added(fs, |all|, e)[k] == fs[k]; }
  }

  lemma NotBelow(all: seq<Node>, fs: seq<Frame>, k: nat)
    requires Places(|all|, fs) && Distinct(all) && k < |fs|
    ensures var top := all[fs[|fs| - 1].at];
            top !in Below(all, fs, k) && (k < |fs| - 1 ==> top != all[fs[k].at])
  {
    var m, below := |fs| - 1, Below(all, fs, k);
    assert k < m ==> Differ(all, fs[k].at, fs[m].at);
    forall j | 0 <= j < |below|
      ensures below[j] != all[fs[m].at]
    {
      var at := fs[k].at + 1 + j;
      assert below[j] == all[at];
      assert if k < m then Differ(all, at, fs[m].at) else Differ(all, fs[m].at, at);
    }
  }

  lemma DistinctSnoc(all: seq<Node>, node: Node)
    requires Distinct(all) && node !in all
    ensures Distinct(all + [node])
  {
    forall i, j | 0 <= i < j < |all + [node]|
      ensures Differ(all + [node], i, j)
    {
      if j < |all| { assert Differ(all, i, j); }
    }
  }

  lemma LeafShows(node: Node, e: Entry)
    requires node.Value() == e && node.children == []
    ensures ShowsAll([node], [Tree(e, [])])
  {
    assert [node][1..] == [];
    ShowsOne([node], Tree(e, []));
  }

  lemma HeldWithLeaf(top: Node, frame: Frame, below: seq<Node>, node: Node, e: Entry)
    requires top.Value() == frame.entry && ShowsAll(below, frame.done)
    requires top.children == Heads(below, frame.done) + [node]
    requires node.Value() == e && node.children == []
    ensures Held(top, frame.(done := frame.done + [Tree(e, [])]), below + [node], [])
  {
    var leaf := Tree(e, []);
    LeafShows(node, e);
    ShowsConcat(below, frame.done, [node], [leaf]);
    ShowsCountAll(below, frame.done);
    HeadsConcat(below, frame.done, [node], [leaf]);
    assert [node][1..] == [];
  }

  ghost predicate HoldsBut(all: seq<Node>, fs: seq<Frame>)
    reads all
  {
    Places(|all|, fs) && forall k :: 0 <= k < |fs| - 1 ==> HeldAt(all, fs, k)
  }

  lemma AddedHolds(all: seq<Node>, fs: seq<Frame>, node: Node, e: Entry)
    requires HoldsBut(all, fs) && node.Value() == e && node.children == []
    requires Held(all[fs[|fs| - 1].at], fs[|fs| - 1], Below(all, fs, |fs| - 1), [node])
    ensures Holds(all + [node], Added(fs, |all|, e))
  {
    var m, now, gs := |fs| - 1, all + [node], Added(fs, |all|, e);
    AddPlaces(all, node, fs, e, m);
    if IsFile(e) { HeldWithLeaf(all[fs[m].at], fs[m], Below(all, fs, m), node, e); }
    forall k | 0 <= k < |gs|
      ensures HeldAt(now, gs, k)
    {
      if k < m {
        AddPlaces(all, node, fs, e, k);
        assert HeldAt(all, fs, k);
      }
    }
  }

  /** A change of the top folder alone does not concern the folders below it on the stack. */
  method Append(top: Node, node: Node, ghost all: seq<Node>, ghost fs: seq<Frame>)
    requires HoldsBut(all, fs) && Distinct(all) && top == all[fs[|fs| - 1].at]
    modifies top`children
    ensures HoldsBut(all, fs) && top.children == old(top.children) + [node]
  {
    label before:
    top.children := top.children + [node];
    forall k | 0 <= k < |fs| - 1
      ensures HeldAt(all, fs, k)
    {
      assert old@before(HeldAt(all, fs, k));
      NotBelow(all, fs, k);
    }
  }

  /** Append the node to the children of the top folder. */
  method AddChild(top: Node, node: Node, ghost all: seq<Node>, ghost fs: seq<Frame>, ghost e: Entry)
    requires Holds(all, fs) && Distinct(all) && top == all[fs[|fs| - 1].at]
    requires node !in all && node.Value() == e && node.children == []
    modifies top`children
    ensures Holds(all + [node], Added(fs, |all|, e)) && Distinct(all + [node])
  {
    ghost var m := |fs| - 1;
    assert HeldAt(all, fs, m);
    assert Held(top, fs[m], Below(all, fs, m), []);
    NotBelow(all, fs, m);
    Append(top, node, all, fs);
    assert Held(top, fs[m], Below(all, fs, m), [node]);
    AddedHolds(all, fs, node, e);
    DistinctSnoc(all, node);
  }

  // ---- The parser ----

  ghost predicate Levels(fs: seq<Frame>) {
    && fs != [] && fs[0].entry == Root
    && (forall k :: 0 <= k < |fs| ==> !IsFile(fs[k].entry))
    && (forall i, j :: 0 <= i < j < |fs| ==> fs[i].entry.level < fs[j].entry.level)
  }

  /** The stack holds the open folders of the tree t, whose nodes are all. */
  ghost predicate Ready(all: seq<Node>, fs: seq<Frame>, stack: seq<Node>, t: Tree)
    reads all
  {
    Holds(all, fs) && Distinct(all) && Levels(fs) && Closed(fs) == t && Stacked(all, fs, stack)
  }

  ghost predicate Stacked(all: seq<Node>, fs: seq<Frame>, stack: seq<Node>) {
    |stack| == |fs| && forall k :: 0 <= k < |fs| ==> fs[k].at < |all| && stack[k] == all[fs[k].at]
  }

  /** The root is at the bottom of the stack and levels grow strictly, so it is never emptied. */
  lemma StackGrows(all: seq<Node>, fs: seq<Frame>, stack: seq<Node>, t: Tree)
    requires Ready(all, fs, stack, t)
    ensures stack != [] && stack[0] == all[0] && stack[0].level == -1
    ensures forall k :: 0 <= k < |stack| ==> stack[k].level == fs[k].entry.level
    ensures forall i, j :: 0 <= i < j < |stack| ==> stack[i].level < stack[j].level
  {
    forall k | 0 <= k < |stack|
      ensures stack[k].level == fs[k].entry.level
    {
      assert HeldAt(all, fs, k);
    }
  }

  lemma PopReady(all: seq<Node>, fs: seq<Frame>, stack: seq<Node>, t: Tree)
    requires Ready(all, fs, stack, t) && |stack| > 1
    ensures Ready(all, Popped(fs), stack[..|stack| - 1], t)
  {
    PopHolds(all, fs);
    PopCloses(fs);
    PopStacked(all, fs, stack);
  }

  lemma PopStacked(all: seq<Node>, fs: seq<Frame>, stack: seq<Node>)
    requires |stack| > 1 && Stacked(all, fs, stack) && Levels(fs)
    ensures Stacked(all, Popped(fs), stack[..|stack| - 1]) && Levels(Popped(fs))
  {
  }

  lemma AddStacked(all: seq<Node>, fs: seq<Frame>, stack: seq<Node>, node: Node, e: Entry)
    requires Stacked(all, fs, stack) && Levels(fs) && OpenFor(fs, e)
    ensures var out := if IsFile(e) then stack else stack + [node];
            && Stacked(all + [node], Added(fs, |all|, e), out) && Levels(Added(fs, |all|, e))
            && Settled(Added(fs, |all|, e))
  {
    var gs, out := Added(fs, |all|, e), if IsFile(e) then stack else stack + [node];
    AddedIs(fs, |all|, e);
    forall k | 0 <= k < |gs|
      ensures gs[k].at < |all + [node]| && out[k] == (all + [node])[gs[k].at]
    {
      if k < |fs| { assert stack[k] == all[fs[k].at]; }
    }
    AddedLevels(fs, gs, e);
  }

  lemma AddedLevels(fs: seq<Frame>, gs: seq<Frame>, e: Entry)
    requires Levels(fs) && OpenFor(fs, e) && |fs| <= |gs| <= |fs| + 1
    requires forall k :: 0 <= k < |fs| ==> gs[k].entry == fs[k].entry
    requires |gs| > |fs| ==> gs[|fs|].entry == e && !IsFile(e)
    ensures Levels(gs)
  {
    forall i, j | 0 <= i < j < |gs|
      ensures gs[i].entry.level < gs[j].entry.level
    {
      if j < |fs| { assert fs[i].entry.level < fs[j].entry.level; }
    }
  }

  /** The new frames: the old ones with the same folders, and the new folder on top. */
  lemma AddedIs(fs: seq<Frame>, n: nat, e: Entry)
    requires fs != []
    ensures var gs := Added(fs, n, e);
            && |gs| == |fs| + (if IsFile(e) then 0 else 1) && Settled(gs)
            && (forall k :: 0 <= k < |fs| ==> gs[k].at == fs[k].at && gs[k].entry == fs[k].entry)
            && (!IsFile(e) ==> gs[|fs|] == Frame(n, e, []))
  {
  }

  lemma PopTakes(fs: seq<Frame>, e: Entry)
    requires |fs| > 1 && fs[|fs| - 1].entry.level >= e.level
    ensures !LastTakes(Popped(fs)[|fs| - 2].done, e)
  {
  }

  lemma TopOpens(fs: seq<Frame>, e: Entry)
    requires Levels(fs) && fs[|fs| - 1].entry.level < e.level
    ensures OpenFor(fs, e)
  {
  }

  /** Popping closes folders without changing the tree. */
  lemma {:induction false} PopAll(all: seq<Node>, fs: seq<Frame>, stack: seq<Node>, t: Tree, e: Entry)
    returns (gs: seq<Frame>)
    requires Ready(all, fs, stack, t) && 0 <= e.level && !LastTakes(fs[|fs| - 1].done, e)
    ensures 0 < |gs| <= |fs| && Ready(all, gs, stack[..|gs|], t)
    ensures OpenFor(gs, e) && !LastTakes(gs[|gs| - 1].done, e)
    ensures forall k :: 0 <= k < |fs| ==> (fs[k].entry.level >= e.level <==> k >= |gs|)
    decreases |fs|
  {
    if fs[|fs| - 1].entry.level < e.level {
      TopOpens(fs, e);
      assert stack[..|fs|] == stack;
      gs := fs;
    } else {
      PopReady(all, fs, stack, t);
      PopTakes(fs, e);
      var rest := stack[..|stack| - 1];
      gs := PopAll(all, Popped(fs), rest, t, e);
      assert rest[..|gs|] == stack[..|gs|];
      assert forall k :: 0 <= k < |fs| - 1 ==> fs[k].entry == Popped(fs)[k].entry;
    }
  }

  /** Pop the folders that a line of this level does not belong to. */
  method PopTo(stack: seq<Node>, level: int, ghost all: seq<Node>, ghost fs: seq<Frame>, ghost t: Tree, ghost e: Entry)
    returns (out: seq<Node>, ghost gs: seq<Frame>)
    requires Ready(all, fs, stack, t) && 0 <= level == e.level && !LastTakes(fs[|fs| - 1].done, e)
    ensures 0 < |out| <= |stack| && out == stack[..|out|] && Ready(all, gs, out, t)
    ensures OpenFor(gs, e) && !LastTakes(gs[|gs| - 1].done, e)
  {
    gs := PopAll(all, fs, stack, t, e);
    StackGrows(all, fs, stack, t);
    out := stack;
    while level <= out[|out| - 1].level
      invariant |gs| <= |out| <= |stack| && out == stack[..|out|]
    {
      assert fs[|out| - 1].entry.level >= e.level;
      out := out[..|out| - 1];
    }
    assert out[|out| - 1].level == fs[|out| - 1].entry.level;
  }

  /** Put the node for a line below the folder at the top of the stack. */
  method Put(stack: seq<Node>, e: Entry, ghost all: seq<Node>, ghost fs: seq<Frame>, ghost t: Tree)
    returns (out: seq<Node>, ghost now: seq<Node>, ghost gs: seq<Frame>)
    requires Ready(all, fs, stack, t) && OpenFor(fs, e) && !LastTakes(fs[|fs| - 1].done, e)
    modifies all
    ensures Ready(now, gs, out, Add(t, e)) && Settled(gs)
    ensures |now| == |all| + 1 && all <= now && fresh(now[|all|])
  {
    var node := new Node(e);
    var top := stack[|stack| - 1];
    AddChild(top, node, all, fs, e);
    now, gs := all + [node], Added(fs, |all|, e);
    out := if IsFile(e) then stack else stack + [node];
    AddedCloses(fs, |all|, e);
    AddStacked(all, fs, stack, node, e);
  }

  /** Between two lines, the last closed tree below the top folder is a file. */
  ghost predicate Settled(fs: seq<Frame>) {
    fs != [] && var done := fs[|fs| - 1].done; done == [] || IsFile(done[|done| - 1].entry)
  }

  method CountIndent(line: string) returns (indent: nat)
    ensures indent == Indent(line)
  {
    indent := 0;
    while indent < |line|
      invariant 0 <= indent <= |line|
      invariant indent + Indent(line[indent..]) == Indent(line)
    {
      if line[indent] != ' ' { break; }
      assert line[indent..][1..] == line[indent + 1..];
      indent := indent + 1;
    }
  }

  lemma BuildOneMore(es: seq<Entry>, e: Entry)
    ensures Build(es + [e]) == Add(Build(es), e)
  {
    assert (es + [e])[..|es|] == es;
  }

  lemma SettledTakesNone(fs: seq<Frame>, e: Entry)
    requires Settled(fs)
    ensures !LastTakes(fs[|fs| - 1].done, e)
  {
  }

  ghost predicate Parsed(lines: seq<string>, env: Env, ls: seq<Line>) {
    && |ls| == |lines|
    && forall i {:trigger ParseLine(lines[i], env)} :: 0 <= i < |lines| ==> ls[i] == ParseLine(lines[i], env)
  }

  method ReadLine(lines: seq<string>, i: nat, env: Env, ghost ls: seq<Line>) returns (l: Line)
    requires i < |lines| && Parsed(lines, env, ls)
    ensures l == ls[i] && (l.Item? ==> l.entry.level >= 0)
  {
    var line := lines[i];
    assert ls[i] == ParseLine(line, env);
    var indent := CountIndent(line);
    if indent % 2 != 0 { return Bad; }
    var body := TrimSpace(line[indent..]);
    l := ParseBody(body, indent / 2, env);
  }

  /** A line with an entry: close the folders it does not belong to, and put it below the top one. */
  method AddLine(e: Entry, stack: seq<Node>, ghost all: seq<Node>, ghost fs: seq<Frame>, ghost es: seq<Entry>)
    returns (out: seq<Node>, ghost now: seq<Node>, ghost gs: seq<Frame>)
    requires Ready(all, fs, stack, Build(es)) && Settled(fs) && e.level >= 0
    modifies all
    ensures Ready(now, gs, out, Build(es + [e])) && Settled(gs)
    ensures |now| == |all| + 1 && all <= now && fresh(now[|all|])
  {
    SettledTakesNone(fs, e);
    out, gs := PopTo(stack, e.level, all, fs, Build(es), e);
    BuildOneMore(es, e);
    out, now, gs := Put(out, e, all, gs, Build(es));
  }

  lemma ReadyAtFirst(root: Node)
    requires root.Value() == Root && root.children == []
    ensures Ready([root], [Frame(0, Root, [])], [root], Build([]))
  {
    assert HeldAt([root], [Frame(0, Root, [])], 0);
  }

  lemma ReadyAtLast(all: seq<Node>, fs: seq<Frame>, stack: seq<Node>, t: Tree)
    requires Ready(all, fs, stack, t)
    ensures Shows(all, t)
    decreases |fs|
  {
    if |fs| == 1 {
      assert HeldAt(all, fs, 0);
      TopShows(all[0], fs[0], Below(all, fs, 0));
      assert [all[0]] + Below(all, fs, 0) == all;
    } else {
      PopReady(all, fs, stack, t);
      ReadyAtLast(all, Popped(fs), stack[..|stack| - 1], t);
    }
  }

  /** The nodes, in preorder, are the tree of the list. */
  ghost predicate IsTreeOf(all: seq<Node>, root: Node?, es: seq<Entry>)
    reads all
  {
    all != [] && all[0] == root && Distinct(all) && Shows(all, Build(es))
  }

  lemma NextLine(ls: seq<Line>, i: nat, es: seq<Entry>)
    requires i < |ls| && Collect(ls[..i]) == Some(es)
    ensures ls[i].Bad? ==> Collect(ls).None?
    ensures ls[i].Blank? ==> Collect(ls[..i + 1]) == Some(es)
    ensures ls[i].Item? ==> Collect(ls[..i + 1]) == Some(es + [ls[i].entry])
  {
    assert ls[..i + 1][..i] == ls[..i];
    BadSpoils(ls, i + 1);
  }

  method BuildFromLines(lines: seq<string>, env: Env, ghost ls: seq<Line>) returns (root: Node?, ghost all: seq<Node>)
    requires Parsed(lines, env, ls)
    ensures Collect(ls).None? <==> root == null
    ensures root != null ==> IsTreeOf(all, root, Collect(ls).value) && forall k :: 0 <= k < |all| ==> fresh(all[k])
  {
    var first := new Node(Root);
    var stack := [first];
    root, all := first, [first];
    ghost var fs, es := [Frame(0, Root, [])], [];
    ReadyAtFirst(first);
    var i := 0;
    while i < |lines|
      invariant 0 <= i <= |lines| && Collect(ls[..i]) == Some(es)
      invariant Ready(all, fs, stack, Build(es)) && Settled(fs)
      invariant all != [] && root == all[0] && forall k :: 0 <= k < |all| ==> fresh(all[k])
    {
      NextLine(ls, i, es);
      var line := ReadLine(lines, i, env, ls);
      if line.Bad? { return null, all; }
      if line.Item? {
        stack, all, fs := AddLine(line.entry, stack, all, fs, es);
        es := es + [line.entry];
      }
      i := i + 1;
    }
    assert ls[..i] == ls;
    ReadyAtLast(all, fs, stack, Build(es));
  }

  /** All nodes are new, and in preorder they form the tree of the list; one bad line means no tree. */
  method BuildTree(text: string, env: Env) returns (root: Node?, ghost all: seq<Node>)
    ensures ParseText(text, env).None? <==> root == null
    ensures root != null ==> IsTreeOf(all, root, ParseText(text, env).value)
    ensures root != null ==> Stands(root, Build(ParseText(text, env).value), all)
    ensures root != null ==> forall k :: 0 <= k < |all| ==> fresh(all[k])
  {
    var lines := Split(text, '\n');
    root, all := BuildFromLines(lines, env, ParseLines(lines, env));
    if root != null { ShowsStands(all, Build(ParseText(text, env).value), all); }
  }
}
