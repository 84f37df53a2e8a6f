/**
 What every write of the driver computes on the branch's root tree, and what it is meant to do.
 The functions ending in Code follow the driver's own steps; AttachAt, DetachAt, Moved and
 Renamed say what the operation is for.
 */
module GitMoves {
  import opened Wrappers
  import opened Paths
  import opened GitTrees

  // ---- Editing one directory ----

  /** Set an entry; a directory that only held .gitkeep no longer needs it. */
  function Attach(m: Entries, name: string, e: Entry): Entries {
    if m.Keys == {KEEP} then m[name := e] - {KEEP} else m[name := e]
  }

  /** Drop an entry; a directory that becomes empty gets .gitkeep. */
  function Detach(m: Entries, name: string): Entries {
    if |m| == 1 then (m - {name})[KEEP := KeepEntry] else m - {name}
  }

  predicate IsSource(t: Node, src: seq<string>) {
    && src != []
    && IsDir(t, Front(src))
    && Last(src) in At(t, Front(src))
  }

  function EntryAt(t: Node, src: seq<string>): Entry
    requires IsSource(t, src)
  {
    At(t, Front(src))[Last(src)]
  }

  // ---- Intended meanings ----

  function AttachAt(t: Node, dst: seq<string>, name: string, e: Entry): Node
    requires IsDir(t, dst)
  {
    SetAt(t, dst, Tree(Attach(At(t, dst), name, e)))
  }

  function DetachAt(t: Node, src: seq<string>): Node
    requires IsSource(t, src)
  {
    SetAt(t, Front(src), Tree(Detach(At(t, Front(src)), Last(src))))
  }

  function RenamedAt(t: Node, src: seq<string>, name: string): Node
    requires IsSource(t, src)
  {
    SetAt(t, Front(src), Tree((At(t, Front(src)) - {Last(src)})[name := EntryAt(t, src)]))
  }

  /** The source exists, the destination is a directory, and it is neither inside the source nor its parent. */
  predicate Movable(t: Node, src: seq<string>, dst: seq<string>) {
    && IsSource(t, src)
    && IsDir(t, dst)
    && !(src <= dst)
    && Front(src) != dst
  }

  /** Detach the source, then attach its subtree under its own name in the destination. */
  ghost function Moved(t: Node, src: seq<string>, dst: seq<string>): Node
    requires Movable(t, src, dst)
  {
    DetachKeepsOthers(t, src, dst);
    AttachAt(DetachAt(t, src), dst, Last(src), EntryAt(t, src))
  }

  // ---- The driver's own steps ----

  ghost function PutCode(order: Order, t: Node, dst: seq<string>, name: string, e: Entry): Node
    requires ValidOrder(order) && IsDir(t, dst)
  {
    Rehung(order, t, dst, Tree(Attach(At(t, dst), name, e)))
  }

  ghost function RemoveCode(order: Order, t: Node, src: seq<string>): Node
    requires ValidOrder(order) && IsSource(t, src)
  {
    Rehung(order, t, Front(src), Tree(Detach(At(t, Front(src)), Last(src))))
  }

  ghost function RenameCode(order: Order, t: Node, src: seq<string>, name: string): Node
    requires ValidOrder(order) && IsSource(t, src)
  {
    Rehung(order, t, Front(src), Tree((At(t, Front(src)) - {Last(src)})[name := EntryAt(t, src)]))
  }

  /** The number of leading components two paths share. */
  function Common(a: seq<string>, b: seq<string>): (k: nat)
    ensures k <= |a| && k <= |b|
  {
    if a == [] || b == [] || a[0] != b[0] then 0 else 1 + Common(a[1..], b[1..])
  }

  /** The subtree hanging below entry n of a directory, after re-hanging the object at rest inside it. */
  ghost function Below(order: Order, m: Entries, n: string, rest: seq<string>, new': Node): Entry
    requires ValidOrder(order) && n in m && Resolves(m[n].node, rest)
  {
    m[n].(node := Rehung(order, m[n].node, rest, new'))
  }

  /** First branch of Move: the destination is below the directory that holds the source. */
  ghost function MoveDownCode(order: Order, m: Entries, name: string, nx: string, rest: seq<string>): Entries
    requires ValidOrder(order) && name in m && nx in m && name != nx && IsDir(m[nx].node, rest)
  {
    var dstNew := Tree(Attach(At(m[nx].node, rest), name, m[name]));
    (m - {name})[nx := Below(order, m, nx, rest, dstNew)]
  }

  /** Second branch: the source is below an entry of the destination. */
  ghost function MoveUpCode(order: Order, m: Entries, nx: string, rest: seq<string>, name: string): Entries
    requires ValidOrder(order) && nx in m && IsDir(m[nx].node, rest) && name in At(m[nx].node, rest)
  {
    var parent := At(m[nx].node, rest);
    m[nx := Below(order, m, nx, rest, Tree(Detach(parent, name)))][name := parent[name]]
  }

  /** Third branch: source and destination are below two different entries of their last common ancestor. */
  ghost function MoveAcrossCode(order: Order, m: Entries, sn: string, srest: seq<string>, name: string,
                                dn: string, drest: seq<string>): Entries
    requires ValidOrder(order) && sn in m && dn in m && sn != dn
    requires IsDir(m[sn].node, srest) && name in At(m[sn].node, srest) && IsDir(m[dn].node, drest)
  {
    var parent := At(m[sn].node, srest);
    var dstNew := Tree(Attach(At(m[dn].node, drest), name, parent[name]));
    m[sn := Below(order, m, sn, srest, Tree(Detach(parent, name)))][dn := Below(order, m, dn, drest, dstNew)]
  }

  /** The new contents of the last directory above both ends of a move. */
  ghost function MoveStepCode(order: Order, t: Node, src: seq<string>, dst: seq<string>): Entries
    requires ValidOrder(order) && Movable(t, src, dst) && Common(Front(src), dst) == 0
  {
    var m, name := t.entries, Last(src);
    if |src| == 1 then MoveDownCode(order, m, name, dst[0], dst[1..])
    else if dst == [] then MoveUpCode(order, m, src[0], Front(src)[1..], name)
    else MoveAcrossCode(order, m, src[0], Front(src)[1..], name, dst[0], dst[1..])
  }

  ghost function MoveCode(order: Order, t: Node, src: seq<string>, dst: seq<string>): Node
    requires ValidOrder(order) && Movable(t, src, dst)
  {
    var k := Common(Front(src), dst);
    BelowAncestor(t, src, dst, k);
    Rehung(order, t, dst[..k], Tree(MoveStepCode(order, Resolve(t, dst[..k]), src[k..], dst[k..])))
  }

  // ---- Facts about paths and detaching ----

  lemma {:induction false} CommonPrefix(a: seq<string>, b: seq<string>)
    ensures var k := Common(a, b);
            && k <= |a| && k <= |b| && a[..k] == b[..k]
            && (k < |a| && k < |b| ==> a[k] != b[k])
  {
    if a != [] && b != [] && a[0] == b[0] {
      CommonPrefix(a[1..], b[1..]);
      var k := Common(a, b);
      assert a[..k] == [a[0]] + a[1..][..k - 1] && b[..k] == [b[0]] + b[1..][..k - 1];
    }
  }

  lemma {:induction false} CommonIs(a: seq<string>, b: seq<string>, k: nat)
    requires k <= |a| && k <= |b| && a[..k] == b[..k]
    requires k < |a| && k < |b| ==> a[k] != b[k]
    ensures Common(a, b) == k
  {
    if k > 0 {
      assert a[..k][0] == b[..k][0];
      assert a[1..][..k - 1] == a[..k][1..] && b[1..][..k - 1] == b[..k][1..];
      CommonIs(a[1..], b[1..], k - 1);
    }
  }

  lemma TwoKeys(m: Entries, a: string, b: string)
    requires a in m && b in m && a != b
    ensures |m| != 1
  {
    assert |{a, b}| == 2;
    assert |m.Keys - {a, b}| == |m.Keys| - |{a, b}|;
  }

  /** Both ends of a move, seen from their last common directory. */
  lemma {:induction false} BelowAncestor(t: Node, src: seq<string>, dst: seq<string>, k: nat)
    requires Movable(t, src, dst) && k == Common(Front(src), dst)
    ensures k < |src| && dst[..k] == src[..k] && IsDir(t, dst[..k])
    ensures dst == dst[..k] + dst[k..] && Front(src) == dst[..k] + Front(src[k..])
    ensures Movable(Resolve(t, dst[..k]), src[k..], dst[k..])
    ensures Common(Front(src[k..]), dst[k..]) == 0
    ensures EntryAt(Resolve(t, dst[..k]), src[k..]) == EntryAt(t, src)
    ensures At(Resolve(t, dst[..k]), Front(src[k..])) == At(t, Front(src))
    ensures At(Resolve(t, dst[..k]), dst[k..]) == At(t, dst)
  {
    CommonPrefix(Front(src), dst);
    assert dst == dst[..k] + dst[k..];
    ResolveConcat(t, dst[..k], dst[k..]);
    assert src[..k] == Front(src)[..k];
    assert src == src[..k] + src[k..];
    assert Front(src) == dst[..k] + Front(src[k..]);
    ResolveConcat(t, dst[..k], Front(src[k..]));
    CommonIs(Front(src[k..]), dst[k..], 0);
  }

  lemma {:induction false} DetachKeepsOthers(t: Node, src: seq<string>, dst: seq<string>)
    requires Movable(t, src, dst)
    ensures IsDir(DetachAt(t, src), dst)
    ensures !(dst < Front(src)) ==> At(DetachAt(t, src), dst) == At(t, dst)
  {
    if dst != [] && |src| > 1 && src[0] == dst[0] {
      assert Front(src)[1..] == Front(src[1..]);
      assert Front(src) == [src[0]] + Front(src[1..]);
      DetachKeepsOthers(t.entries[src[0]].node, src[1..], dst[1..]);
    } else if dst != [] && |src| == 1 {
      TwoKeys(t.entries, src[0], dst[0]);
    }
  }

  /** Moving is local to the last common directory. */
  lemma MovedIsLocal(t: Node, src: seq<string>, dst: seq<string>, k: nat)
    requires Movable(t, src, dst) && k == Common(Front(src), dst)
    ensures k < |src| && Resolves(t, dst[..k]) && Movable(Resolve(t, dst[..k]), src[k..], dst[k..])
    ensures Moved(t, src, dst) == SetAt(t, dst[..k], Moved(Resolve(t, dst[..k]), src[k..], dst[k..]))
  {
    BelowAncestor(t, src, dst, k);
    var anc, s, d := dst[..k], src[k..], dst[k..];
    var a := Resolve(t, anc);
    SetAtConcat(t, anc, Front(s), Tree(Detach(At(t, Front(src)), Last(src))));
    var t1, a1 := DetachAt(t, src), DetachAt(a, s);
    assert t1 == SetAt(t, anc, a1);
    ResolveSetAt(t, anc, a1);
    DetachKeepsOthers(t, src, dst);
    DetachKeepsOthers(a, s, d);
    ResolveConcat(t1, anc, d);
    SetAtConcat(t1, anc, d, Tree(Attach(At(t1, dst), Last(src), EntryAt(t, src))));
  }

  // ---- Move against its intended meaning ----

  /**
   When Move does the right thing below the last common directory: on each chain it re-hangs by
   id, no earlier sibling is a twin, unless that chain's change is void (the destination already
   holds the very entry) or is overwritten by the arriving entry. A directory that holds only
   .gitkeep loses it when something is attached, but not when the source comes from within it.
   */
  ghost predicate StepClear(order: Order, t: Node, src: seq<string>, dst: seq<string>)
    requires ValidOrder(order) && Movable(t, src, dst) && Common(Front(src), dst) == 0
  {
    && (dst != [] ==> NoTwin(order, t.entries[dst[0]].node, dst[1..])
                      || Attach(At(t, dst), Last(src), EntryAt(t, src)) == At(t, dst))
    && (|src| > 1 ==> NoTwin(order, t.entries[src[0]].node, Front(src)[1..])
                      || (dst == [] && src[0] == Last(src)))
    && (|src| > 1 && dst == [] ==> t.entries.Keys != {KEEP})
  }

  ghost predicate MoveClear(order: Order, t: Node, src: seq<string>, dst: seq<string>)
    requires ValidOrder(order) && Movable(t, src, dst)
  {
    var k := Common(Front(src), dst);
    BelowAncestor(t, src, dst, k);
    && NoTwin(order, t, dst[..k])
    && StepClear(order, Resolve(t, dst[..k]), src[k..], dst[k..])
  }

  lemma StepDownIff(order: Order, t: Node, src: seq<string>, dst: seq<string>)
    requires ValidOrder(order) && Movable(t, src, dst) && Common(Front(src), dst) == 0
    requires |src| == 1
    ensures Tree(MoveStepCode(order, t, src, dst)) == Moved(t, src, dst) <==> StepClear(order, t, src, dst)
    ensures Moved(t, src, dst) != t
  {
    var m, name, nx, rest := t.entries, src[0], dst[0], dst[1..];
    TwoKeys(m, name, nx);
    DetachKeepsOthers(t, src, dst);
    var dstNew := Tree(Attach(At(t, dst), name, m[name]));
    RehungIff(order, m[nx].node, rest, dstNew);
    var code, moved := MoveStepCode(order, t, src, dst), Moved(t, src, dst);
    assert moved.entries == (m - {name})[nx := m[nx].(node := SetAt(m[nx].node, rest, dstNew))];
    assert code[nx].node == Rehung(order, m[nx].node, rest, dstNew);
    assert moved.entries[nx].node == SetAt(m[nx].node, rest, dstNew);
    assert name !in moved.entries;
  }

  lemma DetachChanges(m: Entries, name: string)
    requires name in m && name != KEEP
    ensures Detach(m, name) != m
  {
    assert name !in Detach(m, name);
  }

  lemma SetAtChanges(t: Node, cs: seq<string>, x: Node)
    requires Resolves(t, cs) && x != Resolve(t, cs)
    ensures SetAt(t, cs, x) != t
  {
    ResolveSetAt(t, cs, x);
  }

  /** The parts of a move into a directory above the source. */
  lemma StepUpParts(order: Order, t: Node, src: seq<string>)
    requires ValidOrder(order) && Movable(t, src, []) && |src| > 1 && Last(src) != KEEP
    ensures var m, name, nx, rest := t.entries, Last(src), src[0], Front(src)[1..];
            && nx in m && IsDir(m[nx].node, rest) && name in At(m[nx].node, rest)
            && var parent := At(m[nx].node, rest);
            && parent[name].node != m[nx].node && Tree(Detach(parent, name)) != Resolve(m[nx].node, rest)
            && var d := m[nx := m[nx].(node := SetAt(m[nx].node, rest, Tree(Detach(parent, name))))];
            && Moved(t, src, []) == Tree(Attach(d, name, parent[name])) && d.Keys == m.Keys
  {
    var m, name, nx, rest := t.entries, Last(src), src[0], Front(src)[1..];
    assert Front(src) == [nx] + rest;
    var parent := At(m[nx].node, rest);
    DetachChanges(parent, name);
    ResolveConcat(m[nx].node, rest, [name]);
    Acyclic(m[nx].node, rest + [name]);
  }

  lemma StepUpIff(order: Order, t: Node, src: seq<string>)
    requires ValidOrder(order) && Movable(t, src, []) && |src| > 1 && Last(src) != KEEP
    ensures Tree(MoveStepCode(order, t, src, [])) == Moved(t, src, []) <==> StepClear(order, t, src, [])
    ensures Moved(t, src, []) != t
  {
    StepUpParts(order, t, src);
    var m, name, nx, rest := t.entries, Last(src), src[0], Front(src)[1..];
    var pNew := Tree(Detach(At(m[nx].node, rest), name));
    RehungIff(order, m[nx].node, rest, pNew);
    SetAtChanges(m[nx].node, rest, pNew);
    var code, moved := MoveStepCode(order, t, src, []), Moved(t, src, []);
    if m.Keys == {KEEP} {
      assert KEEP in code && KEEP !in moved.entries;
    } else if name != nx {
      assert moved.entries[nx].node == SetAt(m[nx].node, rest, pNew);
      assert code[nx].node == Rehung(order, m[nx].node, rest, pNew);
    } else {
      assert moved.entries == code;
      assert moved.entries[nx].node != m[nx].node;
    }
  }

  lemma StepAcrossIff(order: Order, t: Node, src: seq<string>, dst: seq<string>)
    requires ValidOrder(order) && Movable(t, src, dst) && Common(Front(src), dst) == 0
    requires |src| > 1 && dst != [] && Last(src) != KEEP
    ensures Tree(MoveStepCode(order, t, src, dst)) == Moved(t, src, dst) <==> StepClear(order, t, src, dst)
    ensures Moved(t, src, dst) != t
  {
    var m, name, sn, srest, dn, drest := t.entries, Last(src), src[0], Front(src)[1..], dst[0], dst[1..];
    assert Front(src) == [sn] + srest;
    var parent := At(m[sn].node, srest);
    var pNew, dNew := Tree(Detach(parent, name)), Tree(Attach(At(t, dst), name, parent[name]));
    DetachChanges(parent, name);
    SetAtChanges(m[sn].node, srest, pNew);
    RehungIff(order, m[sn].node, srest, pNew);
    RehungIff(order, m[dn].node, drest, dNew);
    DetachKeepsOthers(t, src, dst);
    var code, moved := MoveStepCode(order, t, src, dst), Moved(t, src, dst);
    assert moved.entries == m[sn := m[sn].(node := SetAt(m[sn].node, srest, pNew))]
                             [dn := m[dn].(node := SetAt(m[dn].node, drest, dNew))];
    assert code[sn].node == Rehung(order, m[sn].node, srest, pNew);
    assert code[dn].node == Rehung(order, m[dn].node, drest, dNew);
    assert moved.entries[sn].node == SetAt(m[sn].node, srest, pNew);
    assert moved.entries[dn].node == SetAt(m[dn].node, drest, dNew);
  }

  lemma StepIff(order: Order, t: Node, src: seq<string>, dst: seq<string>)
    requires ValidOrder(order) && Movable(t, src, dst) && Common(Front(src), dst) == 0
    requires Last(src) != KEEP
    ensures Tree(MoveStepCode(order, t, src, dst)) == Moved(t, src, dst) <==> StepClear(order, t, src, dst)
    ensures Moved(t, src, dst) != t
  {
    if |src| == 1 { StepDownIff(order, t, src, dst); }
    else if dst == [] { StepUpIff(order, t, src); }
    else { StepAcrossIff(order, t, src, dst); }
  }

  /** A real change is re-hung as it should be exactly when it is the right one and the way is clear. */
  lemma RehungAs(order: Order, t: Node, cs: seq<string>, code: Node, meant: Node)
    requires ValidOrder(order) && Resolves(t, cs) && meant != Resolve(t, cs)
    ensures Rehung(order, t, cs, code) == SetAt(t, cs, meant) <==> NoTwin(order, t, cs) && code == meant
  {
    if NoTwin(order, t, cs) {
      RehungClear(order, t, cs, code);
      SetAtInjective(t, cs, code, meant);
    } else {
      RehungStale(order, t, cs, code);
      ResolveSetAt(t, cs, meant);
    }
  }

  /**
   The root that Move commits is the old root with the source detached and its subtree set under
   its own name in the destination, in all three branches, exactly when the caller-checkable
   condition MoveClear holds.
   */
  lemma MoveIff(order: Order, t: Node, src: seq<string>, dst: seq<string>)
    requires ValidOrder(order) && Movable(t, src, dst) && Last(src) != KEEP
    ensures MoveCode(order, t, src, dst) == Moved(t, src, dst) <==> MoveClear(order, t, src, dst)
  {
    var k := Common(Front(src), dst);
    BelowAncestor(t, src, dst, k);
    MovedIsLocal(t, src, dst, k);
    var anc, s, d := dst[..k], src[k..], dst[k..];
    var a := Resolve(t, anc);
    StepIff(order, a, s, d);
    RehungAs(order, t, anc, Tree(MoveStepCode(order, a, s, d)), Moved(a, s, d));
  }

  // ---- When nothing changes ----

  lemma RehungVoidIff(order: Order, t: Node, cs: seq<string>, new': Node)
    requires ValidOrder(order) && Resolves(t, cs)
    ensures Rehung(order, t, cs, new') == t <==> SetAt(t, cs, new') == t
  {
    if new' == Resolve(t, cs) {
      RehungSame(order, t, cs);
      SetAtSame(t, cs);
    } else {
      RehungChanges(order, t, cs, new');
      SetAtChanges(t, cs, new');
    }
  }

  lemma StepCodeChanges(order: Order, t: Node, src: seq<string>, dst: seq<string>)
    requires ValidOrder(order) && Movable(t, src, dst) && Common(Front(src), dst) == 0 && Last(src) != KEEP
    ensures MoveStepCode(order, t, src, dst) != t.entries
  {
    var m, name, code := t.entries, Last(src), MoveStepCode(order, t, src, dst);
    if |src| == 1 {
      assert name !in code;
    } else {
      var sn, rest := src[0], Front(src)[1..];
      assert Front(src) == [sn] + rest;
      var parent := At(m[sn].node, rest);
      DetachChanges(parent, name);
      RehungChanges(order, m[sn].node, rest, Tree(Detach(parent, name)));
      ResolveConcat(m[sn].node, rest, [name]);
      Acyclic(m[sn].node, rest + [name]);
      assert code[sn].node != m[sn].node;
    }
  }

  /** A move is never void, neither as it is meant nor as it is done. */
  lemma MoveChanges(order: Order, t: Node, src: seq<string>, dst: seq<string>)
    requires ValidOrder(order) && Movable(t, src, dst) && Last(src) != KEEP
    ensures MoveCode(order, t, src, dst) != t && Moved(t, src, dst) != t
  {
    var k := Common(Front(src), dst);
    BelowAncestor(t, src, dst, k);
    MovedIsLocal(t, src, dst, k);
    var anc, s, d := dst[..k], src[k..], dst[k..];
    var a := Resolve(t, anc);
    StepIff(order, a, s, d);
    StepCodeChanges(order, a, s, d);
    SetAtChanges(t, anc, Moved(a, s, d));
    RehungChanges(order, t, anc, Tree(MoveStepCode(order, a, s, d)));
  }

  // ---- What the intended meanings do at each single path ----

  /** What is to be seen at a path: the mode, and the content of a file or the commit of a submodule. */
  datatype Face = Folder(mode: string) | File(mode: string, content: string) | Module(mode: string, commit: string)

  function FaceOf(e: Entry): Face {
    match e.node
    case Tree(_) => Folder(e.mode)
    case Blob(content) => File(e.mode, content)
    case Submodule(commit) => Module(e.mode, commit)
  }

  /** What is at a path below an entry. */
  function Look(e: Entry, p: seq<string>): Option<Face>
    decreases |p|
  {
    if p == [] then Some(FaceOf(e))
    else if e.node.Tree? && p[0] in e.node.entries then Look(e.node.entries[p[0]], p[1..])
    else None
  }

  /** What is at a path of a root tree. */
  function LookIn(t: Node, p: seq<string>): Option<Face> { Look(Entry("040000", t), p) }

  /** A path resolves exactly where there is something to be seen, and it resolves to that. */
  lemma {:induction false} LookIsResolve(e: Entry, p: seq<string>)
    ensures Resolves(e.node, p) <==> Look(e, p).Some?
    ensures Resolves(e.node, p) ==>
              match Look(e, p).value
              case Folder(_) => Resolve(e.node, p).Tree?
              case File(_, content) => Resolve(e.node, p) == Blob(content)
              case Module(_, commit) => Resolve(e.node, p) == Submodule(commit)
    decreases |p|
  {
    if p != [] && e.node.Tree? && p[0] in e.node.entries { LookIsResolve(e.node.entries[p[0]], p[1..]); }
  }

  lemma {:induction false} LookConcat(e: Entry, p: seq<string>, q: seq<string>)
    requires Resolves(e.node, p) && p != []
    ensures IsSource(e.node, p) && Look(e, p + q) == Look(EntryAt(e.node, p), q)
    decreases |p|
  {
    assert (p + q)[0] == p[0] && (p + q)[1..] == p[1..] + q;
    ResolveConcat(e.node, Front(p), [Last(p)]);
    assert p == Front(p) + [Last(p)];
    if |p| > 1 {
      LookConcat(e.node.entries[p[0]], p[1..], q);
      assert Front(p)[1..] == Front(p[1..]);
    } else {
      assert p[1..] + q == q;
    }
  }

  /** A path that leads through a name of a directory, or past it. */
  lemma HeadedBy(p: seq<string>, name: string)
    ensures [name] <= p <==> p != [] && p[0] == name
  {
  }

  lemma PrefixTail(a: seq<string>, p: seq<string>)
    requires a != [] && p != [] && a[0] == p[0]
    ensures a <= p <==> a[1..] <= p[1..]
  {
    assert a == [a[0]] + a[1..] && p == [p[0]] + p[1..];
  }

  /**
   Attaching puts the entry under its name, takes away a .gitkeep that was alone there, and
   leaves every other path as it was.
   */
  lemma {:induction false} AttachLooks(r: Entry, dst: seq<string>, name: string, e: Entry, p: seq<string>)
    requires IsDir(r.node, dst) && name != ".gitkeep"
    ensures Look(r.(node := AttachAt(r.node, dst, name, e)), p) ==
            if dst + [name] <= p then Look(e, p[|dst| + 1..])
            else if dst + [".gitkeep"] <= p && At(r.node, dst).Keys == {".gitkeep"} then None
            else Look(r, p)
    decreases |dst|
  {
    if dst == [] {
      assert [] + [name] == [name] && [] + [".gitkeep"] == [".gitkeep"];
      HeadedBy(p, name);
      HeadedBy(p, ".gitkeep");
    } else if p != [] && p[0] == dst[0] {
      AttachLooks(r.node.entries[dst[0]], dst[1..], name, e, p[1..]);
      StepDown(dst, name, p);
      StepDown(dst, ".gitkeep", p);
    }
  }

  lemma StepDown(dst: seq<string>, name: string, p: seq<string>)
    requires dst != [] && p != [] && dst[0] == p[0]
    ensures dst + [name] <= p <==> dst[1..] + [name] <= p[1..]
    ensures p == dst + [name] <==> p[1..] == dst[1..] + [name]
    ensures dst + [name] <= p ==> p[|dst| + 1..] == p[1..][|dst[1..]| + 1..]
  {
    assert (dst + [name])[1..] == dst[1..] + [name];
    PrefixTail(dst + [name], p);
    assert p == [p[0]] + p[1..] && dst + [name] == [dst[0]] + (dst[1..] + [name]);
  }

  /**
   Detaching takes away the entry with all that is below it, puts an empty .gitkeep where
   it was the only one, and leaves every other path as it was.
   */
  lemma {:induction false} DetachLooks(r: Entry, src: seq<string>, p: seq<string>)
    requires IsSource(r.node, src) && Last(src) != ".gitkeep"
    ensures Look(r.(node := DetachAt(r.node, src)), p) ==
            if src <= p then None
            else if Front(src) + [".gitkeep"] <= p && At(r.node, Front(src)).Keys == {Last(src)} then
              if p == Front(src) + [".gitkeep"] then Some(File("100644", "")) else None
            else Look(r, p)
    decreases |src|
  {
    if |src| == 1 {
      assert Front(src) + [".gitkeep"] == [".gitkeep"] && src == [src[0]];
      HeadedBy(p, src[0]);
      HeadedBy(p, ".gitkeep");
      OneKey(r.node.entries, src[0]);
    } else if p != [] && p[0] == src[0] {
      assert Front(src)[1..] == Front(src[1..]);
      DetachLooks(r.node.entries[src[0]], src[1..], p[1..]);
      PrefixTail(src, p);
      StepDown(Front(src), ".gitkeep", p);
    }
  }

  lemma OneKey(m: Entries, name: string)
    requires name in m
    ensures |m| == 1 <==> m.Keys == {name}
  {
    if m.Keys != {name} {
      var other :| other in m && other != name;
      TwoKeys(m, name, other);
    }
  }

  /** Whether a directory holds only .gitkeep is not changed by a detaching further down or elsewhere. */
  lemma {:induction false} DetachKeepsKeys(t: Node, src: seq<string>, dst: seq<string>)
    requires Movable(t, src, dst)
    ensures IsDir(DetachAt(t, src), dst) && At(DetachAt(t, src), dst).Keys == At(t, dst).Keys
    decreases |src|
  {
    DetachKeepsOthers(t, src, dst);
    if dst < Front(src) {
      if dst != [] {
        assert Front(src)[1..] == Front(src[1..]) && dst[1..] < Front(src[1..]) && src[0] == dst[0];
        assert Front(src) == [src[0]] + Front(src[1..]);
        DetachKeepsKeys(t.entries[src[0]].node, src[1..], dst[1..]);
      }
    }
  }

  /**
   Moving takes everything at or below the source to the same place below the destination's new
   entry, replaces whatever that entry held, moves .gitkeep in and out of the two directories, and
   leaves every other path as it was.
   */
  lemma MovedLooks(t: Node, src: seq<string>, dst: seq<string>, p: seq<string>)
    requires Movable(t, src, dst) && Last(src) != ".gitkeep"
    ensures LookIn(Moved(t, src, dst), p) ==
            if dst + [Last(src)] <= p then LookIn(t, src + p[|dst| + 1..])
            else if dst + [".gitkeep"] <= p && At(t, dst).Keys == {".gitkeep"} then None
            else if src <= p then None
            else if Front(src) + [".gitkeep"] <= p && At(t, Front(src)).Keys == {Last(src)} then
              if p == Front(src) + [".gitkeep"] then Some(File("100644", "")) else None
            else LookIn(t, p)
  {
    var r := Entry("040000", t);
    DetachKeepsOthers(t, src, dst);
    DetachKeepsKeys(t, src, dst);
    DetachLooks(r, src, p);
    AttachLooks(Entry("040000", DetachAt(t, src)), dst, Last(src), EntryAt(t, src), p);
    if dst + [Last(src)] <= p { SourceLooks(t, src, p[|dst| + 1..]); }
  }

  /** What is below a source is below its entry. */
  lemma SourceLooks(t: Node, src: seq<string>, q: seq<string>)
    requires IsSource(t, src)
    ensures LookIn(t, src + q) == Look(EntryAt(t, src), q)
  {
    assert src == Front(src) + [Last(src)];
    ResolveConcat(t, Front(src), [Last(src)]);
    LookConcat(Entry("040000", t), src, q);
  }

  /** Renaming takes everything at or below the source to the same place below the new name. */
  lemma {:induction false} RenamedLooks(r: Entry, src: seq<string>, name: string, p: seq<string>)
    requires IsSource(r.node, src)
    ensures Look(r.(node := RenamedAt(r.node, src, name)), p) ==
            if Front(src) + [name] <= p then Look(EntryAt(r.node, src), p[|src|..])
            else if src <= p then None
            else Look(r, p)
    decreases |src|
  {
    if |src| == 1 {
      assert Front(src) + [name] == [name] && src == [src[0]];
      HeadedBy(p, src[0]);
      HeadedBy(p, name);
    } else if p != [] && p[0] == src[0] {
      assert Front(src)[1..] == Front(src[1..]);
      RenamedLooks(r.node.entries[src[0]], src[1..], name, p[1..]);
      PrefixTail(src, p);
      StepDown(Front(src), name, p);
    }
  }
}
