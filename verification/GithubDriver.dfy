/**
 The driver's writes, call by call. The branch's root tree is the only state that lasts; every
 remote call may fail, and a write holds the commit mutex, so nothing else moves the head
 while it runs.
 */
module GithubDriver {
  import opened Wrappers
  import opened Paths
  import opened GitTrees
  import opened GitMoves
  import opened GitRuns
  import CommonAncestor

  datatype Failure =
    | NotOnBranch
    | NotFolder
    | ObjectNotFound
    | SubmoduleRefused
    | ParentToChild
    | MoveInPlace
    | RemoteError
    | OutOfRange    // a Go index or slice expression out of range

  /** Everything but a failed remote call is the driver's own answer. */
  datatype Result<+T> = Ok(value: T) | Err(error: Failure) {
    predicate Refused() { Err? && error != RemoteError }
  }

  /** One element of a tree request; no id means delete. */
  datatype Edit = Edit(path: string, mode: string, id: Option<Node>)

  /** One element of a tree response. */
  datatype TreeObj = TreeObj(path: string, mode: string, id: Node) {
    function Delete(): Edit { Edit(path, mode, None) }
  }

  function ApplyEdit(m: Entries, e: Edit): Entries {
    match e.id
    case None => m - {e.path}
    case Some(o) => m[e.path := Entry(e.mode, o)]
  }

  function ApplyAll(m: Entries, edits: seq<Edit>): Entries
    decreases |edits|
  {
    if edits == [] then m else ApplyAll(ApplyEdit(m, edits[0]), edits[1..])
  }

  lemma FewEdits(m: Entries, e: Edit, f: Edit)
    ensures ApplyAll(m, [e]) == ApplyEdit(m, e)
    ensures ApplyAll(m, [e, f]) == ApplyEdit(ApplyEdit(m, e), f)
  {
    assert ApplyAll(m, [e, f]) == ApplyAll(ApplyEdit(m, e), [f]) by { assert [e, f][1..] == [f]; }
    assert ApplyAll(ApplyEdit(m, e), [f]) == ApplyEdit(ApplyEdit(m, e), f);
  }

  function KeepEdit(): Edit { Edit(KEEP, "100644", Some(Blob(""))) }

  function DropKeep(): Edit { Edit(KEEP, "100644", None) }

  ghost predicate IsListing(trees: seq<TreeObj>, order: Order, m: Entries) {
    var names := order(m);
    && |trees| == |names|
    && (forall i :: 0 <= i < |names| ==>
          names[i] in m && trees[i] == TreeObj(names[i], m[names[i]].mode, m[names[i]].node))
  }

  /** The loops that look for an entry by its name. */
  method FindName(trees: seq<TreeObj>, name: string) returns (i: int)
    ensures -1 <= i < |trees|
    ensures i >= 0 ==> trees[i].path == name
    ensures i < 0 ==> forall j :: 0 <= j < |trees| ==> trees[j].path != name
  {
    i := 0;
    while i < |trees|
      invariant 0 <= i <= |trees|
      invariant forall j :: 0 <= j < i ==> trees[j].path != name
    {
      if trees[i].path == name { return; }
      i := i + 1;
    }
    i := -1;
  }

  /** The loop of renewParentTrees that looks for an entry by its id. */
  method FindId(trees: seq<TreeObj>, id: Node) returns (i: int)
    ensures -1 <= i < |trees|
    ensures i >= 0 ==> trees[i].id == id && forall j :: 0 <= j < i ==> trees[j].id != id
    ensures i < 0 ==> forall j :: 0 <= j < |trees| ==> trees[j].id != id
  {
    i := 0;
    while i < |trees|
      invariant 0 <= i <= |trees|
      invariant forall j :: 0 <= j < i ==> trees[j].id != id
    {
      if trees[i].id == id { return; }
      i := i + 1;
    }
    i := -1;
  }

  /** FindName on the listing of a directory. */
  method FindEntry(trees: seq<TreeObj>, ghost order: Order, ghost m: Entries, name: string) returns (i: int)
    requires ValidOrder(order) && IsListing(trees, order, m)
    ensures -1 <= i < |trees|
    ensures i >= 0 ==> name in m && trees[i] == TreeObj(name, m[name].mode, m[name].node)
    ensures i < 0 ==> name !in m
  {
    ListingHas(trees, order, m, name);
    i := FindName(trees, name);
  }

  /** The first name in what is left of path after dir, and whether a slash follows it; nothing when nothing is left. */
  function NextPart(dir: string, path: string): Option<(string, bool)>
    requires dir <= path
  {
    var rest := path[|dir|..];
    if rest == "" then None
    else
      var r := if rest[0] == '/' then rest[1..] else rest;
      Some((Before(r, '/'), '/' in r))
  }

  /** Below dir there is more than one component, by the characters. */
  predicate HasMore(dir: string, path: string)
    requires dir < path
  {
    var rest := path[|dir|..];
    '/' in if rest[0] == '/' then rest[1..] else rest
  }

  /** Indexing the empty rest panics. */
  method NextName(dir: string, path: string) returns (r: Result<(string, bool)>)
    requires dir <= path && IsClean(dir) && IsClean(path)
    ensures if path == dir then r == Err(OutOfRange) else r.Ok? && (r.value.1 <==> HasMore(dir, path))
    ensures var xs, ys := Components(dir), Components(path);
            r.Ok? && xs < ys ==> xs + [r.value.0] <= ys && (r.value.1 <==> |ys| > |xs| + 1)
  {
    ghost var next := NextPart(dir, path);
    NextIsWithin(dir, path);
    var rest := path[|dir|..];
    if rest == "" {
      assert path == dir;
      return Err(OutOfRange);
    }
    if rest[0] == '/' { rest := rest[1..]; }
    r := Ok((Before(rest, '/'), '/' in rest));
    assert next == Some(r.value);
  }

  /** Below a directory, it is the next component. */
  lemma NextPartIs(xs: seq<string>, ys: seq<string>)
    requires AreNames(xs) && AreNames(ys) && xs < ys
    ensures Render(xs) <= Render(ys) && NextPart(Render(xs), Render(ys)) == Some((ys[|xs|], |ys| > |xs| + 1))
  {
    RenderBelow(xs, ys);
    PartAfter(Render(xs), Render(ys), ys[|xs|], ys[|xs| + 1..], xs == []);
  }

  lemma NextIsWithin(dir: string, path: string)
    requires dir <= path && IsClean(dir) && IsClean(path)
    ensures var xs, ys, next := Components(dir), Components(path), NextPart(dir, path);
            xs < ys ==> next.Some? && xs + [next.value.0] <= ys && (next.value.1 <==> |ys| > |xs| + 1)
  {
    var xs, ys := Components(dir), Components(path);
    if xs < ys {
      NextPartIs(xs, ys);
      OneMore(xs, ys);
    }
  }

  lemma OneMore(xs: seq<string>, ys: seq<string>)
    requires xs < ys
    ensures xs + [ys[|xs|]] <= ys
  {
  }

  lemma RenderBelow(xs: seq<string>, ys: seq<string>)
    requires xs < ys
    ensures var tail := ys[|xs|] + Body(ys[|xs| + 1..]);
            Render(ys) == Render(xs) + if xs == [] then tail else "/" + tail
  {
    var k := |xs|;
    CommonAncestor.RenderAt(ys, k);
    assert ys[..k] == xs;
    assert Render(xs) == if xs == [] then Body(xs) + "/" else Body(xs);
  }

  lemma PartAfter(dir: string, path: string, name: string, more: seq<string>, root: bool)
    requires IsName(name)
    requires var tail := name + Body(more); path == dir + if root then tail else "/" + tail
    ensures dir <= path && NextPart(dir, path) == Some((name, more != []))
  {
    var tail := name + Body(more);
    var rest := if root then tail else "/" + tail;
    assert path[|dir|..] == rest;
    assert (if rest[0] == '/' then rest[1..] else rest) == tail;
    if more != [] { assert tail[|name|] == '/'; }
    IndexOfIs(tail, '/', |name|);
    assert tail[..|name|] == name;
  }

  lemma ListingHas(trees: seq<TreeObj>, order: Order, m: Entries, name: string)
    requires ValidOrder(order) && IsListing(trees, order, m)
    ensures (exists i :: 0 <= i < |trees| && trees[i].path == name) <==> name in m
    ensures forall i :: 0 <= i < |trees| && trees[i].path == name ==>
                          trees[i] == TreeObj(name, m[name].mode, m[name].node)
  {
    assert Enumerates(order(m), m);
    if name in m {
      var i :| 0 <= i < |order(m)| && order(m)[i] == name;
      assert trees[i].path == name;
    }
  }

  /** The first listed entry with the child's id is the one that Rehung rewrites. */
  lemma FirstListed(trees: seq<TreeObj>, order: Order, m: Entries, name: string, i: nat)
    requires ValidOrder(order) && IsListing(trees, order, m) && name in m && i < |trees|
    requires trees[i].id == m[name].node && forall j :: 0 <= j < i ==> trees[j].id != m[name].node
    ensures trees[i].path == Chosen(order, m, name)
  {
    var names := order(m);
    assert Enumerates(names, m);
    var c := Chosen(order, m, name);
    var k: nat :| k < |names| && c == names[k] && m[names[k]].node == m[name].node &&
                  forall j :: 0 <= j < k ==> m[names[j]].node != m[name].node;
    assert trees[k].id == m[name].node;
    assert k >= i && (k > i ==> m[names[i]].node == trees[i].id);
  }

  /** The source can be moved at all, and the destination can take it. */
  predicate Movables(t: Node, ss: seq<string>, ds: seq<string>) {
    IsSource(t, ss) && !EntryAt(t, ss).node.Submodule? && IsDir(t, ds)
  }

  /**
   The string comparisons of Move agree with the components: the guard lets the move pass, and the
   branch it takes is the one that fits the two paths.
   */
  predicate Passes(src: string, dstDir: string) {
    var ss, ds := Components(src), Components(dstDir);
    && !(src <= dstDir) && ss != []
    && if Dir(src) <= dstDir then Front(ss) < ds
       else if dstDir <= src then ds <= Front(ss)
       else !CommonAncestor.Trips(ss, ds)
  }

  /** On the way from a directory to one below it, the next name is an entry. */
  lemma NextOnPath(t: Node, xs: seq<string>, ys: seq<string>, nx: string)
    requires IsDir(t, ys) && xs + [nx] <= ys
    ensures IsDir(t, xs) && nx in At(t, xs)
  {
    assert ys == xs + ys[|xs|..];
    ResolveConcat(t, xs, ys[|xs|..]);
    assert ys[|xs|..][0] == nx;
  }

  /** The path of that entry, which is where a climb from ys stops. */
  lemma NextPath(t: Node, dir: string, xs: seq<string>, ys: seq<string>, nx: string)
    requires Named(t) && IsClean(dir) && Components(dir) == xs && IsDir(t, ys) && xs + [nx] <= ys
    ensures IsDir(t, xs) && nx in At(t, xs)
    ensures IsClean(Join(dir, nx)) && Components(Join(dir, nx)) == xs + [nx]
  {
    NextOnPath(t, xs, ys, nx);
    EntryPath(t, xs, nx);
  }

  class Github {
    const order: Order
    const isOnBranch: bool
    var head: Node

    ghost predicate Valid()
      reads this
    {
      ValidOrder(order) && head.Tree? && Named(head)
    }

    /** The contents API. */
    method Get(path: string) returns (r: Result<Node>)
      requires Valid() && IsClean(path)
      ensures r.Ok? ==> Resolves(head, Components(path)) && r.value == Resolve(head, Components(path))
      ensures r.Refused() ==> !Resolves(head, Components(path))
    {
      if * { return Err(RemoteError); }
      var cs := Components(path);
      if Resolves(head, cs) { return Ok(Resolve(head, cs)); }
      return Err(ObjectNotFound);
    }

    method GetDir(path: string) returns (r: Result<Node>)
      requires Valid() && IsClean(path)
      ensures r.Ok? ==> IsDir(head, Components(path)) && r.value == Resolve(head, Components(path))
      ensures r.Refused() ==> !IsDir(head, Components(path))
    {
      r := Get(path);
      if r.Ok? && !r.value.Tree? { r := Err(NotFolder); }
    }

    method GetTreeDirectly(path: string) returns (r: Result<(seq<TreeObj>, Node)>)
      requires Valid() && IsClean(path)
      ensures r.Ok? ==>
                && IsDir(head, Components(path))
                && r.value.1 == Resolve(head, Components(path))
                && IsListing(r.value.0, order, At(head, Components(path)))
      ensures r.Refused() ==> !IsDir(head, Components(path))
    {
      var p := GetDir(path);
      if p.Err? { return Err(p.error); }
      if * { return Err(RemoteError); }
      var m := p.value.entries;
      var names := order(m);
      assert Enumerates(names, m);
      var trees := seq(|names|, i requires 0 <= i < |names| && names[i] in m =>
        TreeObj(names[i], m[names[i]].mode, m[names[i]].node));
      return Ok((trees, p.value));
    }

    /** Create a tree from a base tree (or from nothing) and a list of edits. */
    method NewTree(base: Node, edits: seq<Edit>) returns (r: Result<Node>)
      requires base.Tree?
      ensures r.Ok? ==> r.value == Tree(ApplyAll(base.entries, edits))
      ensures !r.Refused()
    {
      if * { return Err(RemoteError); }
      return Ok(Tree(ApplyAll(base.entries, edits)));
    }

    /** Create a commit and move the branch to it; a lost answer leaves it open whether the branch moved. */
    method Commit(root: Node) returns (r: Result<()>)
      modifies this`head
      ensures r.Ok? ==> head == root
      ensures r.Err? ==> head == old(head) || head == root
      ensures !r.Refused()
    {
      if * { return Err(RemoteError); }
      if * {
        if * { head := root; }
        return Err(RemoteError);
      }
      head := root;
      return Ok(());
    }

    /**
     Climbs from path to until, replacing prevSha by curSha by id at each level. It always ends,
     and it ends well only if until is path or above it; what it then returns is Rehung.
     */
    method RenewParentTrees(path: string, prevSha: Node, curSha: Node, until: string) returns (r: Result<Node>)
      requires Valid() && IsClean(path)
      ensures r.Ok? ==> IsClean(until) && Components(until) <= Components(path)
      ensures r.Ok? && Resolves(head, Components(path)) && prevSha == Resolve(head, Components(path)) ==>
                && Renewed(order, head, Components(path), |Components(until)|, curSha, r.value)
                && Completes(order, head, Components(path), Components(until), curSha, r.value)
      ensures r.Refused() ==> !(IsClean(until) && Components(until) <= Components(path) &&
                                Resolves(head, Components(path)) && prevSha == Resolve(head, Components(path)))
    {
      ghost var cs := Components(path);
      ghost var rightStart := Resolves(head, cs) && prevSha == Resolve(head, cs);
      ghost var rightWay := rightStart && IsClean(until) && Components(until) <= cs;
      var p, prev, cur := path, prevSha, curSha;
      ghost var n := |cs|;
      assert cs[..n] == cs;
      while p != until
        invariant IsClean(p) && n <= |cs| && Components(p) == cs[..n]
        invariant rightStart ==> Climbed(order, head, cs, n, prev, cur, curSha)
        invariant rightWay ==> n >= |Components(until)|
        decreases n, if prev == head then 0 else 1
      {
        if rightWay { NotYet(p, until, cs, n); }
        UpOne(p);
        p := Dir(p);
        ghost var up := if n == 0 then 0 else n - 1;
        assert Components(p) == cs[..up];
        if rightStart && n > 0 {
          ClimbStep(order, head, cs, n, cur, curSha);
        }
        var step := ClimbOnce(p, prev, cur, if n == 0 then "" else cs[n - 1]);
        if step.Err? { return Err(step.error); }
        prev, cur, n := step.value.0, step.value.1, up;
      }
      r := Ok(cur);
      if rightStart { Arrived(order, head, cs, n, prev, cur, curSha); }
    }

    /** One level: in the directory at p, the first entry with id prev gets id cur. */
    method ClimbOnce(p: string, prev: Node, cur: Node, ghost name: string) returns (r: Result<(Node, Node)>)
      requires Valid() && IsClean(p)
      ensures r.Ok? ==>
                && IsDir(head, Components(p))
                && var m := At(head, Components(p));
                && r.value.0 == Resolve(head, Components(p))
                && (r.value.0 == head ==> prev != head)
                && (name in m && m[name].node == prev ==> r.value.1 == Replaced(order, m, name, cur))
      ensures r.Refused() ==> !IsDir(head, Components(p)) ||
                              var m := At(head, Components(p)); !(name in m && m[name].node == prev)
    {
      var got := GetTreeDirectly(p);
      if got.Err? { return Err(got.error); }
      var (trees, sha) := got.value;
      var i := FindId(trees, prev);
      if i < 0 { return Err(ObjectNotFound); }
      var edit := Edit(trees[i].path, trees[i].mode, Some(cur));
      FewEdits(sha.entries, edit, edit);
      var made := NewTree(sha, [edit]);
      if made.Err? { return Err(made.error); }
      NoSelf(trees, order, sha, i);
      if name in sha.entries && sha.entries[name].node == prev {
        FirstListed(trees, order, sha.entries, name, i);
      }
      r := Ok((sha, made.value));
    }

    method RenewToRoot(path: string, prevSha: Node, curSha: Node) returns (r: Result<Node>)
      requires Valid() && IsClean(path)
      requires Resolves(head, Components(path)) && prevSha == Resolve(head, Components(path))
      ensures r.Ok? ==> r.value == Rehung(order, head, Components(path), curSha)
      ensures !r.Refused()
    {
      r := RenewParentTrees(path, prevSha, curSha, "/");
      assert Components(path)[0..] == Components(path);
    }

    /** Two edits to a directory, re-hung up to the root: the end of every branch of Move. */
    method EditToRoot(path: string, dir: Node, e: Edit, f: Edit) returns (r: Result<Node>)
      requires Valid() && IsClean(path) && IsDir(head, Components(path)) && dir == Resolve(head, Components(path))
      ensures r.Ok? ==> r.value == Rehung(order, head, Components(path),
                                          Tree(ApplyEdit(ApplyEdit(dir.entries, e), f)))
      ensures !r.Refused()
    {
      FewEdits(dir.entries, e, f);
      var made := NewTree(dir, [e, f]);
      if made.Err? { return Err(made.error); }
      r := RenewToRoot(path, dir, made.value);
    }

    /** Re-hang a new directory at path up to the root and commit: the end of every write. */
    method RenewAndCommit(path: string, prevSha: Node, curSha: Node) returns (r: Result<()>)
      requires Valid() && IsClean(path)
      requires IsDir(head, Components(path)) && prevSha == Resolve(head, Components(path))
      modifies this`head
      ensures r.Ok? ==> head == old(Rehung(order, head, Components(path), curSha))
      ensures r.Err? ==> head == old(head) || head == old(Rehung(order, head, Components(path), curSha))
      ensures !r.Refused()
    {
      ghost var cs := Components(path);
      var root := RenewToRoot(path, prevSha, curSha);
      if root.Err? { return Err(root.error); }
      r := Commit(root.value);
    }

    method MakeDir(parentDir: string, dirName: string) returns (r: Result<()>)
      requires Valid() && IsClean(parentDir) && Operand(dirName)
      modifies this`head
      ensures Valid() && (old(Kept(head)) ==> Kept(head))
      ensures var cmd := Command.MakeDir(Components(parentDir), dirName);
              && Step(order, old(head), cmd, head)
              && (r.Ok? ==> Applies(old(head), cmd) && head == Outcome(order, old(head), cmd))
              && (r.Ok? ==> (head == Intended(old(head), cmd) <==> Clear(order, old(head), cmd)))
              && (r.Ok? ==> isOnBranch) && (r.Refused() ==> !isOnBranch || !Applies(old(head), cmd))
    {
      if !isOnBranch { return Err(NotOnBranch); }
      var parent := GetDir(parentDir);
      if parent.Err? { return Err(parent.error); }
      var subDir := NewTree(Tree(map[]), [KeepEdit()]);
      if subDir.Err? { return Err(subDir.error); }
      ghost var cmd := Command.MakeDir(Components(parentDir), dirName);
      var m := parent.value.entries;
      r := AttachAndCommit(parentDir, parent.value, dirName, Entry("040000", subDir.value), cmd);
    }

    method Put(dstDir: string, name: string, content: string) returns (r: Result<()>)
      requires Valid() && IsClean(dstDir) && Operand(name)
      modifies this`head
      ensures Valid() && (old(Kept(head)) ==> Kept(head))
      ensures var cmd := Command.Put(Components(dstDir), name, content);
              && Step(order, old(head), cmd, head)
              && (r.Ok? ==> Applies(old(head), cmd) && head == Outcome(order, old(head), cmd))
              && (r.Ok? ==> (head == Intended(old(head), cmd) <==> Clear(order, old(head), cmd)))
              && (r.Ok? ==> isOnBranch) && (r.Refused() ==> !isOnBranch || !Applies(old(head), cmd))
    {
      if !isOnBranch { return Err(NotOnBranch); }
      if * { return Err(RemoteError); }   // putBlob
      var parent := GetDir(dstDir);
      if parent.Err? { return Err(parent.error); }
      ghost var cmd := Command.Put(Components(dstDir), name, content);
      r := AttachAndCommit(dstDir, parent.value, name, Entry("100644", Blob(content)), cmd);
    }

    /** The shared middle of MakeDir, Put and Copy: set one entry, drop a sole .gitkeep. */
    method AttachAndCommit(dir: string, parent: Node, name: string, e: Entry, ghost cmd: Command)
      returns (r: Result<()>)
      requires Valid() && IsClean(dir) && IsDir(head, Components(dir)) && parent == Resolve(head, Components(dir))
      requires Operands(cmd) && Applies(head, cmd) && !cmd.Move?
      requires Outcome(order, head, cmd) == PutCode(order, head, Components(dir), name, e)
      modifies this`head
      ensures Valid() && (old(Kept(head)) ==> Kept(head))
      ensures Step(order, old(head), cmd, head)
      ensures r.Ok? ==> head == Outcome(order, old(head), cmd)
      ensures r.Ok? ==> (head == Intended(old(head), cmd) <==> Clear(order, old(head), cmd))
      ensures !r.Refused()
    {
      var made := AttachTree(parent, name, e);
      if made.Err? { return Err(made.error); }
      OutcomeIff(order, head, cmd);
      OutcomeKept(order, head, cmd);
      r := RenewAndCommit(dir, parent, made.value);
    }

    method AttachTree(parent: Node, name: string, e: Entry) returns (r: Result<Node>)
      requires parent.Tree?
      ensures r.Ok? ==> r.value == Tree(Attach(parent.entries, name, e))
      ensures !r.Refused()
    {
      var m := parent.entries;
      var edits := [Edit(name, e.mode, Some(e.node))];
      if m.Keys == {KEEP} { edits := edits + [DropKeep()]; }
      FewEdits(m, edits[0], DropKeep());
      assert ApplyAll(m, edits) == Attach(m, name, e);
      r := NewTree(parent, edits);
    }

    /** Delete one entry; a directory left empty gets .gitkeep. */
    method DetachTree(parent: Node, trees: seq<TreeObj>, name: string) returns (r: Result<Node>)
      requires parent.Tree? && ValidOrder(order) && IsListing(trees, order, parent.entries)
      ensures r.Ok? ==> r.value == Tree(Detach(parent.entries, name))
      ensures !r.Refused()
    {
      var m := parent.entries;
      var edits := [Edit(name, "100644", None)];
      ListingLength(trees, order, m);
      if |trees| == 1 { edits := edits + [KeepEdit()]; }
      FewEdits(m, edits[0], KeepEdit());
      assert ApplyAll(m, edits) == Detach(m, name);
      r := NewTree(parent, edits);
    }

    method Remove(obj: string) returns (r: Result<()>)
      requires Valid() && IsClean(obj) && Components(obj) != [] && Operand(Base(obj))
      modifies this`head
      ensures Valid() && (old(Kept(head)) ==> Kept(head))
      ensures var cmd := Command.Remove(Components(obj));
              && Step(order, old(head), cmd, head)
              && (r.Ok? ==> Applies(old(head), cmd) && head == Outcome(order, old(head), cmd))
              && (r.Ok? ==> (head == Intended(old(head), cmd) <==> Clear(order, old(head), cmd)))
              && (r.Ok? ==> isOnBranch) && (r.Refused() ==> !isOnBranch || !Applies(old(head), cmd))
    {
      if !isOnBranch { return Err(NotOnBranch); }
      var parentDir := Dir(obj);
      UpOne(obj);
      DirRender(Components(obj));
      var got := GetTreeDirectly(parentDir);
      if got.Err? { return Err(got.error); }
      var (trees, parent) := got.value;
      var i := FindEntry(trees, order, parent.entries, Base(obj));
      if i < 0 { return Err(ObjectNotFound); }
      if trees[i].id.Submodule? { return Err(SubmoduleRefused); }
      ghost var cmd := Command.Remove(Components(obj));
      var made := DetachTree(parent, trees, Base(obj));
      if made.Err? { return Err(made.error); }
      OutcomeIff(order, head, cmd);
      OutcomeKept(order, head, cmd);
      r := RenewAndCommit(parentDir, parent, made.value);
    }

    method Rename(obj: string, newName: string) returns (r: Result<()>)
      requires Valid() && IsClean(obj) && Components(obj) != [] && Operand(Base(obj)) && Operand(newName)
      modifies this`head
      ensures Valid() && (old(Kept(head)) ==> Kept(head))
      ensures var cmd := Command.Rename(Components(obj), newName);
              && Step(order, old(head), cmd, head)
              && (r.Ok? ==> Applies(old(head), cmd) && head == Outcome(order, old(head), cmd))
              && (r.Ok? ==> (head == Intended(old(head), cmd) <==> Clear(order, old(head), cmd)))
              && (r.Ok? ==> isOnBranch) && (r.Refused() ==> !isOnBranch || !Applies(old(head), cmd))
    {
      if !isOnBranch { return Err(NotOnBranch); }
      var parentDir := Dir(obj);
      UpOne(obj);
      DirRender(Components(obj));
      var got := GetTreeDirectly(parentDir);
      if got.Err? { return Err(got.error); }
      var (trees, parent) := got.value;
      var i := FindEntry(trees, order, parent.entries, Base(obj));
      if i < 0 { return Err(ObjectNotFound); }
      if trees[i].id.Submodule? { return Err(SubmoduleRefused); }
      ghost var cmd := Command.Rename(Components(obj), newName);
      var edits := [trees[i].Delete(), Edit(newName, trees[i].mode, Some(trees[i].id))];
      FewEdits(parent.entries, edits[0], edits[1]);
      var made := NewTree(parent, edits);
      if made.Err? { return Err(made.error); }
      OutcomeIff(order, head, cmd);
      OutcomeKept(order, head, cmd);
      r := RenewAndCommit(parentDir, parent, made.value);
    }

    /** The new tree of the destination directory, and the source's directory as it was. */
    method CopyWithoutRenewTree(src: string, dstDir: string)
      returns (r: Result<(Node, Node, Node, seq<TreeObj>)>)
      requires Valid() && IsClean(src) && Components(src) != [] && IsClean(dstDir)
      ensures r.Ok? ==>
                && CopyReady(order, head, Components(src), Components(dstDir), r.value)
      ensures r.Refused() ==> !Movables(head, Components(src), Components(dstDir))
    {
      UpOne(src);
      DirRender(Components(src));
      var dst := GetDir(dstDir);
      if dst.Err? { return Err(dst.error); }
      var got := GetTreeDirectly(Dir(src));
      if got.Err? { return Err(got.error); }
      var (trees, parent) := got.value;
      var i := FindEntry(trees, order, parent.entries, Base(src));
      if i < 0 { return Err(ObjectNotFound); }
      if trees[i].id.Submodule? { return Err(SubmoduleRefused); }
      var made := AttachTree(dst.value, trees[i].path, Entry(trees[i].mode, trees[i].id));
      if made.Err? { return Err(made.error); }
      return Ok((dst.value, made.value, parent, trees));
    }

    method Copy(src: string, dstDir: string) returns (r: Result<()>)
      requires Valid() && IsClean(src) && Components(src) != [] && Operand(Base(src)) && IsClean(dstDir)
      modifies this`head
      ensures Valid() && (old(Kept(head)) ==> Kept(head))
      ensures var cmd := Command.Copy(Components(src), Components(dstDir));
              && Step(order, old(head), cmd, head)
              && (r.Ok? ==> Applies(old(head), cmd) && head == Outcome(order, old(head), cmd))
              && (r.Ok? ==> (head == Intended(old(head), cmd) <==> Clear(order, old(head), cmd)))
              && (r.Ok? ==> isOnBranch && !(src <= dstDir))
              && (r.Refused() ==> !isOnBranch || src <= dstDir || !Applies(old(head), cmd))
    {
      if !isOnBranch { return Err(NotOnBranch); }
      if src <= dstDir { return Err(ParentToChild); }
      DirRender(Components(src));
      var got := CopyWithoutRenewTree(src, dstDir);
      if got.Err? { return Err(got.error); }
      var (dst, dstNew, _, _) := got.value;
      ghost var cmd := Command.Copy(Components(src), Components(dstDir));
      NotBelow(src, dstDir);
      OutcomeIff(order, head, cmd);
      OutcomeKept(order, head, cmd);
      r := RenewAndCommit(dstDir, dst, dstNew);
    }

    method Move(src: string, dstDir: string) returns (r: Result<()>)
      requires Valid() && IsClean(src) && IsClean(dstDir)
      requires src != "/" ==> Operand(Base(src))
      modifies this`head
      ensures Valid() && (old(Kept(head)) ==> Kept(head))
      ensures var cmd := Command.Move(Components(src), Components(dstDir));
              && Step(order, old(head), cmd, head)
              && (r.Ok? ==> Applies(old(head), cmd) && head == Outcome(order, old(head), cmd))
              && (r.Ok? ==> (head == Intended(old(head), cmd) <==> Clear(order, old(head), cmd)))
              && (r.Ok? ==> isOnBranch && Passes(src, dstDir))
              && (r.Refused() ==> !isOnBranch || !Passes(src, dstDir) || !Applies(old(head), cmd))
    {
      if !isOnBranch { return Err(NotOnBranch); }
      if src <= dstDir { return Err(ParentToChild); }
      NotBelow(src, dstDir);
      ghost var cmd := Command.Move(Components(src), Components(dstDir));
      DirRender(Components(src));
      var root: Result<Node>;
      if Dir(src) <= dstDir {
        root := MoveDown(src, dstDir);
      } else if dstDir <= src {
        root := MoveUp(src, dstDir);
      } else {
        root := MoveAcross(src, dstDir);
      }
      if root.Err? { return Err(root.error); }
      assert Applies(head, cmd) && root.value == Outcome(order, head, cmd);
      OutcomeIff(order, head, cmd);
      OutcomeKept(order, head, cmd);
      OutcomeIsDir(order, head, cmd);
      r := Commit(root.value);
    }

    /** First branch: the destination's path starts with the path of the source's directory. */
    method MoveDown(src: string, dstDir: string) returns (r: Result<Node>)
      requires Valid() && IsClean(src) && Components(src) != [] && IsClean(dstDir) && !(src <= dstDir)
      requires Dir(src) <= dstDir
      ensures r.Ok? ==> MovesTo(order, head, Components(src), Components(dstDir), r.value)
      ensures r.Ok? ==> Front(Components(src)) < Components(dstDir)
      ensures r.Refused() ==> !Movables(head, Components(src), Components(dstDir)) ||
                              !(Front(Components(src)) < Components(dstDir))
    {
      UpOne(src);
      DirRender(Components(src));
      NotBelow(src, dstDir);
      var got := CopyWithoutRenewTree(src, dstDir);
      if got.Err? { return Err(got.error); }
      var srcParentPath := Dir(src);
      var step := NextName(srcParentPath, dstDir);
      if step.Err? { return Err(step.error); }
      r := RenewDown(Components(src), Components(dstDir), Base(src), dstDir, srcParentPath, step.value.0, got.value);
    }

    /** Re-hang the destination up to the child of the source's directory, then renew that directory. */
    method RenewDown(ghost ss: seq<string>, ghost ds: seq<string>, name: string, dstDir: string, srcParentPath: string,
                     dstNextName: string, got: (Node, Node, Node, seq<TreeObj>))
      returns (r: Result<Node>)
      requires Valid() && ss != [] && IsClean(dstDir) && ds == Components(dstDir)
      requires IsClean(srcParentPath) && Components(srcParentPath) == Front(ss) && name == Last(ss)
      requires CopyReady(order, head, ss, ds, got) && !(ss <= ds)
      ensures r.Ok? ==> MovesTo(order, head, ss, ds, r.value) && Front(ss) < ds
      ensures r.Refused() ==> !(Front(ss) + [dstNextName] <= ds)
    {
      ghost var until := Front(ss) + [dstNextName];
      if until <= ds { NextPath(head, srcParentPath, Front(ss), ds, dstNextName); }
      var (dstOld, dstNew, ancestorOld, srcParentTrees) := got;
      var dstNextPath := Join(srcParentPath, dstNextName);
      var next := RenewParentTrees(dstDir, dstOld, dstNew, dstNextPath);
      if next.Err? { return Err(next.error); }
      r := BindDown(srcParentPath, ancestorOld, srcParentTrees, name, dstNextName, next.value);
      if r.Ok? { DownReady(order, head, ss, ds, srcParentPath, dstNextName, next.value); }
    }

    /** Renew the source's directory without the source and with the rewritten child. */
    method BindDown(path: string, dir: Node, trees: seq<TreeObj>, name: string, nx: string, next: Node)
      returns (r: Result<Node>)
      requires Valid() && IsClean(path) && IsDir(head, Components(path)) && dir == Resolve(head, Components(path))
      requires IsListing(trees, order, dir.entries)
      ensures r.Ok? ==>
                && nx in dir.entries
                && r.value == Rehung(order, head, Components(path),
                                     Tree((dir.entries - {name})[nx := Entry(dir.entries[nx].mode, next)]))
      ensures r.Refused() ==> nx !in dir.entries || name !in dir.entries
    {
      var iDst := FindEntry(trees, order, dir.entries, nx);
      var iSrc := FindEntry(trees, order, dir.entries, name);
      if iDst < 0 || iSrc < 0 { return Err(ObjectNotFound); }
      r := EditToRoot(path, dir, trees[iSrc].Delete(), Edit(nx, trees[iDst].mode, Some(next)));
    }

    /** The source's directory before and after it loses the source, and the source's entry. */
    method DetachSource(src: string) returns (r: Result<(Node, Node, TreeObj)>)
      requires Valid() && IsClean(src) && Components(src) != []
      ensures r.Ok? ==>
                var ss, e := Components(src), r.value.2;
                && IsSource(head, ss) && !EntryAt(head, ss).node.Submodule?
                && r.value.0 == Resolve(head, Front(ss))
                && r.value.1 == Tree(Detach(At(head, Front(ss)), Last(ss)))
                && e.path == Last(ss) && Entry(e.mode, e.id) == EntryAt(head, ss)
      ensures r.Refused() ==> !(IsSource(head, Components(src)) && !EntryAt(head, Components(src)).node.Submodule?)
    {
      UpOne(src);
      DirRender(Components(src));
      var got := GetTreeDirectly(Dir(src));
      if got.Err? { return Err(got.error); }
      var (trees, parent) := got.value;
      var i := FindEntry(trees, order, parent.entries, Base(src));
      if i < 0 { return Err(ObjectNotFound); }
      if trees[i].id.Submodule? { return Err(SubmoduleRefused); }
      var made := DetachTree(parent, trees, Base(src));
      if made.Err? { return Err(made.error); }
      r := Ok((parent, made.value, trees[i]));
    }

    /** Second branch: the source's path starts with the destination's path. */
    method MoveUp(src: string, dstDir: string) returns (r: Result<Node>)
      requires Valid() && IsClean(src) && Components(src) != [] && IsClean(dstDir) && !(src <= dstDir)
      requires dstDir <= src && !(Dir(src) <= dstDir)
      ensures r.Ok? ==> MovesTo(order, head, Components(src), Components(dstDir), r.value)
      ensures r.Ok? ==> Components(dstDir) <= Front(Components(src))
      ensures r.Refused() ==> !Movables(head, Components(src), Components(dstDir)) ||
                              !(Components(dstDir) <= Front(Components(src)))
    {
      ghost var ss, ds := Components(src), Components(dstDir);
      UpOne(src);
      NotBelow(src, dstDir);
      var got := DetachSource(src);
      if got.Err? { return Err(got.error); }
      var (srcParentOld, srcParentNew, srcEntry) := got.value;
      NeverInPlace(src, dstDir);
      var step := NextName(dstDir, src);
      var (srcNextName, more) := step.value;
      if ds + [srcNextName] <= Front(ss) { NextPath(head, dstDir, ds, Front(ss), srcNextName); }
      if !more { return Err(MoveInPlace); }
      var srcNextPath := Join(dstDir, srcNextName);
      var next := RenewParentTrees(Dir(src), srcParentOld, srcParentNew, srcNextPath);
      if next.Err? { return Err(next.error); }
      r := BindUp(dstDir, srcNextName, next.value, srcEntry, ss);
    }

    /** Renew the destination with the rewritten child and the moved entry. */
    method BindUp(dstDir: string, nx: string, srcNext: Node, srcEntry: TreeObj, ghost ss: seq<string>)
      returns (r: Result<Node>)
      requires Valid() && IsClean(dstDir) && ss != [] && IsSource(head, ss) && !(ss <= Components(dstDir))
      requires !EntryAt(head, ss).node.Submodule?
      requires srcEntry.path == Last(ss) && Entry(srcEntry.mode, srcEntry.id) == EntryAt(head, ss)
      requires var until := Join(dstDir, nx);
               && IsClean(until) && Components(until) <= Front(ss)
               && Renewed(order, head, Front(ss), |Components(until)|,
                          Tree(Detach(At(head, Front(ss)), Last(ss))), srcNext)
      ensures r.Ok? ==> MovesTo(order, head, ss, Components(dstDir), r.value)
      ensures r.Ok? ==> Components(dstDir) <= Front(ss)
      ensures r.Refused() ==> !IsDir(head, Components(dstDir)) || nx !in At(head, Components(dstDir))
    {
      var top := GetTreeDirectly(dstDir);
      if top.Err? { return Err(top.error); }
      var (ancestorTrees, ancestorOld) := top.value;
      var i := FindEntry(ancestorTrees, order, ancestorOld.entries, nx);
      if i < 0 { return Err(ObjectNotFound); }
      UpReady(order, head, ss, dstDir, nx, srcNext);
      r := EditToRoot(dstDir, ancestorOld, Edit(nx, ancestorTrees[i].mode, Some(srcNext)),
                      Edit(srcEntry.path, srcEntry.mode, Some(srcEntry.id)));
    }

    /** Third branch: the paths part below a common directory. */
    method MoveAcross(src: string, dstDir: string) returns (r: Result<Node>)
      requires Valid() && IsClean(src) && Components(src) != [] && IsClean(dstDir) && !(src <= dstDir)
      requires !(dstDir <= src) && !(Dir(src) <= dstDir)
      ensures r.Ok? ==> MovesTo(order, head, Components(src), Components(dstDir), r.value)
      ensures r.Ok? ==> !CommonAncestor.Trips(Components(src), Components(dstDir))
      ensures r.Refused() ==> !Movables(head, Components(src), Components(dstDir)) ||
                              CommonAncestor.Trips(Components(src), Components(dstDir))
    {
      ghost var ss, ds := Components(src), Components(dstDir);
      UpOne(src);
      DirRender(ss);
      NotBelow(src, dstDir);
      NotBelow(dstDir, src);
      NotBelow(Dir(src), dstDir);
      var got := CopyAndDetach(src, dstDir);
      if got.Err? { return Err(got.error); }
      var meet := CommonAncestor.GetPathCommonAncestor(src, dstDir);
      CommonAncestor.WalkIsCommonAncestor(ss, ds);
      if meet.Panic? { return Err(OutOfRange); }
      MeetingPaths(ss, ds);
      MeetingTrees(ss, ds, meet);
      r := RenewAcross(ss, Dir(src), dstDir, got.value, meet);
    }

    /** Re-hang both ends up to the children of the common directory, then renew that directory. */
    method RenewAcross(ghost ss: seq<string>, srcParentPath: string, dstDir: string, got: (Node, Node, Node, Node),
                       meet: CommonAncestor.Answer)
      returns (r: Result<Node>)
      requires Valid() && IsClean(srcParentPath) && IsClean(dstDir) && meet.Answer? && IsClean(meet.ancestor)
      requires ss != [] && Components(srcParentPath) == Front(ss) && !(ss <= Components(dstDir))
      requires MoveReady(head, ss, Components(dstDir), got)
      requires MeetsTrees(ss, Components(dstDir), meet)
      ensures r.Ok? ==> MovesTo(order, head, ss, Components(dstDir), r.value)
      ensures !r.Refused()
    {
      var (dstOld, dstNew, srcParentOld, srcParentNew) := got;
      var dstNext := RenewParentTrees(dstDir, dstOld, dstNew, Join(meet.ancestor, meet.bChild));
      if dstNext.Err? { return Err(dstNext.error); }
      var srcNext := RenewParentTrees(srcParentPath, srcParentOld, srcParentNew, Join(meet.ancestor, meet.aChild));
      if srcNext.Err? { return Err(srcNext.error); }
      AcrossIsMove(order, head, ss, Components(dstDir), srcNext.value, dstNext.value);
      r := BindAcross(meet.ancestor, meet.aChild, srcNext.value, meet.bChild, dstNext.value);
    }

    /** The destination with the copy, and the source's directory without the source. */
    method CopyAndDetach(src: string, dstDir: string) returns (r: Result<(Node, Node, Node, Node)>)
      requires Valid() && IsClean(src) && Components(src) != [] && IsClean(dstDir)
      ensures r.Ok? ==> MoveReady(head, Components(src), Components(dstDir), r.value)
      ensures r.Refused() ==> !Movables(head, Components(src), Components(dstDir))
    {
      DirRender(Components(src));
      var got := CopyWithoutRenewTree(src, dstDir);
      if got.Err? { return Err(got.error); }
      var (dstOld, dstNew, srcParentOld, srcParentTrees) := got.value;
      var i := FindEntry(srcParentTrees, order, srcParentOld.entries, Base(src));
      if i < 0 { return Err(ObjectNotFound); }
      var made := DetachTree(srcParentOld, srcParentTrees, Base(src));
      if made.Err? { return Err(made.error); }
      r := Ok((dstOld, dstNew, srcParentOld, made.value));
    }

    /** Renew the last common directory with both rewritten children. */
    method BindAcross(ancestor: string, sn: string, srcNext: Node, dn: string, dstNext: Node) returns (r: Result<Node>)
      requires Valid() && IsClean(ancestor)
      ensures r.Ok? ==>
                && IsDir(head, Components(ancestor))
                && var m := At(head, Components(ancestor));
                && sn in m && dn in m
                && r.value == Rehung(order, head, Components(ancestor),
                                     Tree(m[sn := Entry(m[sn].mode, srcNext)][dn := Entry(m[dn].mode, dstNext)]))
      ensures r.Refused() ==> !IsDir(head, Components(ancestor)) ||
                              sn !in At(head, Components(ancestor)) || dn !in At(head, Components(ancestor))
    {
      var top := GetTreeDirectly(ancestor);
      if top.Err? { return Err(top.error); }
      var (ancestorTrees, ancestorOld) := top.value;
      var iSrc := FindEntry(ancestorTrees, order, ancestorOld.entries, sn);
      var iDst := FindEntry(ancestorTrees, order, ancestorOld.entries, dn);
      if iSrc < 0 || iDst < 0 { return Err(ObjectNotFound); }
      r := EditToRoot(ancestor, ancestorOld, Edit(sn, ancestorTrees[iSrc].mode, Some(srcNext)),
                      Edit(dn, ancestorTrees[iDst].mode, Some(dstNext)));
    }
  }

  /** Of two names at the same place, neither starts with the other. */
  predicate Unlike(xs: seq<string>, ys: seq<string>) {
    forall i :: 0 <= i < |xs| && i < |ys| && (xs[i] <= ys[i] || ys[i] <= xs[i]) ==> xs[i] == ys[i]
  }

  lemma {:induction false} UnlikePrefix(xs: seq<string>, ys: seq<string>)
    requires AreNames(xs) && AreNames(ys) && Unlike(xs, ys) && Body(xs) <= Body(ys)
    ensures xs <= ys
  {
    if xs != [] {
      BodyTail(xs);
      if ys != [] {
        BodyTail(ys);
        var x, y, xt, yt := xs[0], ys[0], Body(xs[1..]), Body(ys[1..]);
        assert x + xt <= y + yt by { assert Body(xs)[1..] <= Body(ys)[1..]; }
        assert IsName(x) && IsName(y);
        FirstNames(x, xt, y, yt);
        assert Unlike(xs[1..], ys[1..]) by {
          assert forall i :: 0 <= i < |xs[1..]| && i < |ys[1..]| ==> xs[1..][i] == xs[i + 1] && ys[1..][i] == ys[i + 1];
        }
        assert xt <= yt by { assert (x + xt)[|x|..] == xt && (y + yt)[|x|..] == yt; }
        UnlikePrefix(xs[1..], ys[1..]);
        assert xs == [x] + xs[1..] && ys == [x] + ys[1..];
      }
    }
  }

  lemma FirstNames(x: string, xt: string, y: string, yt: string)
    requires x + xt <= y + yt && '/' !in x && '/' !in y
    requires (xt != "" ==> xt[0] == '/') && (yt != "" ==> yt[0] == '/')
    ensures x <= y || y <= x
  {
    if |x| <= |y| {
      assert (x + xt)[..|x|] == x && (y + yt)[..|x|] == y[..|x|];
    } else {
      assert (x + xt)[..|y|] == x[..|y|] && (y + yt)[..|y|] == y;
    }
  }

  lemma UnlikeRender(xs: seq<string>, ys: seq<string>)
    requires AreNames(xs) && AreNames(ys) && Unlike(xs, ys)
    ensures Render(xs) <= Render(ys) ==> xs <= ys
  {
    if xs != [] && Render(xs) <= Render(ys) {
      BodyTail(xs);
      assert IsName(xs[0]);
      if ys != [] { UnlikePrefix(xs, ys); }
    }
  }

  /** When no name is the beginning of another one at the same place, only a move into itself or in place is refused. */
  lemma UnlikePasses(xs: seq<string>, ys: seq<string>)
    requires AreNames(xs) && AreNames(ys) && xs != [] && Unlike(xs, ys)
    requires !(xs <= ys) && xs[..|xs| - 1] != ys
    ensures Passes(Render(xs), Render(ys))
  {
    var front := Front(xs);
    ComponentsRender(xs);
    ComponentsRender(ys);
    DirRender(xs);
    UnlikeRender(xs, ys);
    UnlikeRender(front, ys);
    UnlikeRender(ys, xs);
    UnlikeTrips(xs, ys);
    if ys <= xs { CommonAncestor.PrefixRender(ys, xs); }
    assert ys <= xs ==> ys <= front;
  }

  lemma UnlikeTrips(xs: seq<string>, ys: seq<string>)
    requires Unlike(xs, ys) && !(xs <= ys)
    ensures CommonAncestor.Trips(xs, ys) ==> ys <= xs
  {
    CommonPrefix(xs, ys);
  }

  /** A sibling whose name starts with the source's name is taken for a place inside the source. */
  lemma SiblingRefused()
    ensures var t := Tree(map["aa" := NewFile(""), "aab" := NewDir()]);
            && Named(t) && Applies(t, Command.Move(["aa"], ["aab"])) && !Passes("/aa", "/aab")
  {
    var m := map["aa" := NewFile(""), "aab" := NewDir()];
    assert m["aa"] == NewFile("") && m["aab"] == NewDir();
    assert ["aab"][1..] == [] && Front(["aa"]) == [];
    assert "aa" != "aab" by { assert |"aa"| != |"aab"|; }
    assert Resolves(Tree(m), ["aab"]) && Resolve(Tree(m), ["aab"]) == NewDir().node;
    assert IsSource(Tree(m), ["aa"]);
    assert "/aa" <= "/aab" by { assert "/aab" == "/aa" + "b"; }
  }

  /** A move in place is always refused, by an index out of range. */
  lemma InPlaceRefused(src: string, dst: string)
    requires IsClean(src) && IsClean(dst) && Components(src) != [] && Front(Components(src)) == Components(dst)
    ensures !Passes(src, dst) && Dir(src) == dst && NextPart(dst, dst) == None
  {
    DirRender(Components(src));
  }

  /** A source below a directory whose name starts the destination's name makes the walk panic. */
  lemma CrossingRefused(xs: seq<string>, ys: seq<string>)
    requires AreNames(xs) && AreNames(ys) && |xs| > 1 && ys != [] && xs[0] < ys[0]
    ensures CommonAncestor.Walk(Render(xs), Render(ys)) == CommonAncestor.Panic && !Passes(Render(xs), Render(ys))
  {
    ComponentsRender(xs);
    ComponentsRender(ys);
    assert CommonAncestor.Trips(xs, ys);
    CommonAncestor.WalkIsCommonAncestor(xs, ys);
    assert Front(xs)[0] != ys[0];
  }

  lemma CrossingPanics()
    ensures CommonAncestor.Walk("/a/x/f", "/ab") == CommonAncestor.Panic && !Passes("/a/x/f", "/ab")
  {
    ThreeParts();
    assert "ab" == "a" + "b";
    CrossingRefused(["a", "x", "f"], ["ab"]);
  }

  lemma ThreeParts()
    ensures Render(["a", "x", "f"]) == "/a/x/f" && Render(["a", "x"]) == "/a/x" && Render(["ab"]) == "/ab"
  {
    assert ["a", "x", "f"][1..] == ["x", "f"] && ["x", "f"][1..] == ["f"] && ["f"][1..] == [];
    assert ["a", "x"][1..] == ["x"] && ["x"][1..] == [] && ["ab"][1..] == [];
  }

  lemma DirWithin(src: string, dst: string)
    requires IsClean(dst) && dst <= src
    ensures LastIndexOf(src, '/') <= |dst| ==> Dir(src) <= dst
  {
    var i := LastIndexOf(src, '/');
    RootFirst(dst);
    if 0 < i <= |dst| {
      assert src[..i] == dst[..i];
    }
  }

  /**
   The second branch never reports a move in place: a source directly in the destination has the
   destination as its directory, so the first branch took it, and there the empty rest of the
   path is indexed.
   */
  lemma NeverInPlace(src: string, dst: string)
    requires IsClean(src) && IsClean(dst) && dst <= src && !(Dir(src) <= dst)
    ensures dst < src && HasMore(dst, src)
  {
    DirWithin(src, dst);
    var i, rest := LastIndexOf(src, '/'), src[|dst|..];
    assert rest[i - |dst|] == '/';
    assert rest[1..][i - |dst| - 1] == '/';
  }

  lemma RootFirst(p: string)
    requires IsClean(p)
    ensures p != "" && p[0] == '/'
  {
    var cs := Components(p);
    if cs != [] { CommonAncestor.RenderAt(cs, 0); }
  }

  lemma PrefixIfAll(a: seq<string>, b: seq<string>, k: nat)
    requires k <= |a| && k <= |b| && a[..k] == b[..k]
    ensures k == |b| ==> b <= a
    ensures a != [] && k >= |a| - 1 ==> Front(a) <= b
  {
    if a != [] && k >= |a| - 1 {
      assert a[..k][..|a| - 1] == Front(a) && b[..k][..|a| - 1] == b[..|a| - 1];
    }
  }

  lemma PartWithin(src: seq<string>, dst: seq<string>)
    requires src != [] && !(dst <= src) && !(Front(src) <= dst)
    ensures var k := Common(src, dst);
            k < |src| - 1 && k < |dst| && k == Common(Front(src), dst) && src[..k] == dst[..k]
  {
    var k := Common(src, dst);
    CommonPrefix(src, dst);
    PrefixIfAll(src, dst, k);
    assert Front(src)[..k] == src[..k];
    CommonIs(Front(src), dst, k);
  }

  /** The path of a directory's entry. */
  lemma EntryPath(t: Node, dir: seq<string>, name: string)
    requires Named(t) && AreNames(dir) && IsDir(t, dir) && name in At(t, dir)
    ensures IsClean(Join(Render(dir), name)) && Components(Join(Render(dir), name)) == dir + [name]
  {
    ShapedResolve(t, dir, false);
    JoinRender(dir, name);
    ComponentsRender(dir + [name]);
  }

  /** The three paths that the third branch works with. */
  ghost predicate Meets(src: seq<string>, dst: seq<string>, meet: CommonAncestor.Answer)
    requires src != [] && meet.Answer?
  {
    var k := Common(Front(src), dst);
    && k < |src| - 1 && k < |dst| && src[..k] == dst[..k]
    && meet.ancestor == Render(dst[..k]) && meet.aChild == src[k] && meet.bChild == dst[k]
  }

  lemma MeetingPaths(src: seq<string>, dst: seq<string>)
    requires AreNames(src) && AreNames(dst) && src != [] && !(dst <= src) && !(Front(src) <= dst)
    ensures var meet := CommonAncestor.Walk(Render(src), Render(dst)); meet.Answer? ==> Meets(src, dst, meet)
  {
    PartWithin(src, dst);
    CommonAncestor.WalkIsCommonAncestor(src, dst);
  }

  ghost predicate MeetsTrees(src: seq<string>, dst: seq<string>, meet: CommonAncestor.Answer)
    requires src != [] && meet.Answer?
  {
    var k := Common(Front(src), dst);
    && k < |src| - 1 && k < |dst|
    && meet.aChild == src[k] && meet.bChild == dst[k]
    && Components(meet.ancestor) == dst[..k]
    && Components(Join(meet.ancestor, meet.aChild)) == Front(src)[..k + 1]
    && Components(Join(meet.ancestor, meet.bChild)) == dst[..k + 1]
    && IsClean(Join(meet.ancestor, meet.aChild)) && IsClean(Join(meet.ancestor, meet.bChild))
  }

  /** The paths up to which the third branch renews. */
  lemma MeetingTrees(src: seq<string>, dst: seq<string>, meet: CommonAncestor.Answer)
    requires AreNames(src) && AreNames(dst) && src != [] && meet.Answer? && Meets(src, dst, meet)
    ensures IsClean(meet.ancestor) && MeetsTrees(src, dst, meet)
  {
    var k := Common(Front(src), dst);
    ComponentsRender(dst[..k]);
    ChildPath(src, k);
    ChildPath(dst, k);
    assert Front(src)[..k + 1] == src[..k + 1];
  }

  lemma ChildPath(cs: seq<string>, k: nat)
    requires AreNames(cs) && k < |cs|
    ensures IsClean(Join(Render(cs[..k]), cs[k])) && Components(Join(Render(cs[..k]), cs[k])) == cs[..k + 1]
  {
    JoinRender(cs[..k], cs[k]);
    assert cs[..k] + [cs[k]] == cs[..k + 1];
    ComponentsRender(cs[..k + 1]);
  }

  /** The destination before and after, and the source's directory before and after. */
  ghost predicate MoveReady(t: Node, ss: seq<string>, ds: seq<string>, v: (Node, Node, Node, Node)) {
    && IsSource(t, ss) && !EntryAt(t, ss).node.Submodule? && IsDir(t, ds)
    && v.0 == Resolve(t, ds)
    && v.1 == Tree(Attach(At(t, ds), Last(ss), EntryAt(t, ss)))
    && v.2 == Resolve(t, Front(ss))
    && v.3 == Tree(Detach(At(t, Front(ss)), Last(ss)))
  }

  /** What copyWithoutRenewTree returns: the destination before and after, and the source's directory. */
  ghost predicate CopyReady(order: Order, t: Node, ss: seq<string>, ds: seq<string>,
                            v: (Node, Node, Node, seq<TreeObj>)) {
    && IsSource(t, ss) && !EntryAt(t, ss).node.Submodule? && IsDir(t, ds)
    && v.0 == Resolve(t, ds)
    && v.1 == Tree(Attach(At(t, ds), Last(ss), EntryAt(t, ss)))
    && v.2 == Resolve(t, Front(ss))
    && IsListing(v.3, order, At(t, Front(ss)))
  }

  /** root is what Move's own steps make of t, for operands that Move accepts. */
  ghost predicate MovesTo(order: Order, t: Node, src: seq<string>, dst: seq<string>, root: Node)
    requires ValidOrder(order)
  {
    && Movable(t, src, dst) && !EntryAt(t, src).node.Submodule?
    && root == MoveCode(order, t, src, dst)
  }

  lemma DownIsMove(order: Order, t: Node, src: seq<string>, dst: seq<string>, nx: string, next: Node)
    requires ValidOrder(order) && IsSource(t, src) && IsDir(t, dst) && !(src <= dst)
    requires Front(src) + [nx] <= dst && nx in At(t, Front(src))
    requires Renewed(order, t, dst, |src|, Tree(Attach(At(t, dst), Last(src), EntryAt(t, src))), next)
    ensures Movable(t, src, dst)
    ensures var m := At(t, Front(src));
            MoveCode(order, t, src, dst) ==
            Rehung(order, t, Front(src), Tree((m - {Last(src)})[nx := Entry(m[nx].mode, next)]))
  {
    var k := |src| - 1;
    assert dst[..k] == Front(src) && dst[k] == nx && dst[..|src|] == Front(src) + [nx];
    CommonIs(Front(src), dst, k);
    BelowAncestor(t, src, dst, k);
    ResolveConcat(t, Front(src), [nx]);
    assert src[k..] == [Last(src)];
    assert dst[k..][0] == nx && dst[k..][1..] == dst[|src|..];
  }

  lemma UpIsMove(order: Order, t: Node, src: seq<string>, dst: seq<string>, nx: string, next: Node)
    requires ValidOrder(order) && IsSource(t, src) && IsDir(t, dst) && !(src <= dst)
    requires dst + [nx] <= Front(src) && nx in At(t, dst)
    requires Renewed(order, t, Front(src), |dst| + 1, Tree(Detach(At(t, Front(src)), Last(src))), next)
    ensures Movable(t, src, dst)
    ensures var m := At(t, dst);
            MoveCode(order, t, src, dst) ==
            Rehung(order, t, dst, Tree(m[nx := Entry(m[nx].mode, next)][Last(src) := EntryAt(t, src)]))
  {
    var k := |dst|;
    assert dst[..k] == dst && Front(src)[..k] == dst && Front(src)[k] == nx;
    assert Front(src)[..k + 1] == dst + [nx];
    CommonIs(Front(src), dst, k);
    BelowAncestor(t, src, dst, k);
    ResolveConcat(t, dst, [nx]);
    assert src[k..][0] == nx;
    assert Front(src[k..])[1..] == Front(src)[k + 1..];
    assert dst[k..] == [];
  }

  lemma DownReady(order: Order, t: Node, src: seq<string>, dst: seq<string>, dir: string, nx: string, next: Node)
    requires ValidOrder(order) && Named(t) && IsSource(t, src) && IsDir(t, dst) && !(src <= dst)
    requires IsClean(dir) && Components(dir) == Front(src) && nx in At(t, Front(src))
    requires var until := Join(dir, nx);
             && IsClean(until) && Components(until) <= dst
             && Renewed(order, t, dst, |Components(until)|, Tree(Attach(At(t, dst), Last(src), EntryAt(t, src))), next)
    ensures Movable(t, src, dst) && Front(src) < dst
    ensures var m := At(t, Front(src));
            MoveCode(order, t, src, dst) ==
            Rehung(order, t, Front(src), Tree((m - {Last(src)})[nx := Entry(m[nx].mode, next)]))
  {
    EntryPath(t, Front(src), nx);
    DownIsMove(order, t, src, dst, nx, next);
  }

  lemma UpReady(order: Order, t: Node, src: seq<string>, dstDir: string, nx: string, next: Node)
    requires ValidOrder(order) && Named(t) && IsClean(dstDir) && IsSource(t, src) && !(src <= Components(dstDir))
    requires IsDir(t, Components(dstDir)) && nx in At(t, Components(dstDir))
    requires var until := Join(dstDir, nx);
             && IsClean(until) && Components(until) <= Front(src)
             && Renewed(order, t, Front(src), |Components(until)|, Tree(Detach(At(t, Front(src)), Last(src))), next)
    ensures var ds := Components(dstDir);
            var m := At(t, ds);
            && Movable(t, src, ds) && ds <= Front(src)
            && MoveCode(order, t, src, ds) ==
               Rehung(order, t, ds, Tree(m[nx := Entry(m[nx].mode, next)][Last(src) := EntryAt(t, src)]))
  {
    EntryPath(t, Components(dstDir), nx);
    UpIsMove(order, t, src, Components(dstDir), nx, next);
  }

  lemma AcrossIsMove(order: Order, t: Node, src: seq<string>, dst: seq<string>, sNext: Node, dNext: Node)
    requires ValidOrder(order) && IsSource(t, src) && IsDir(t, dst) && !(src <= dst)
    requires var k := Common(Front(src), dst);
             && k < |src| - 1 && k < |dst|
             && Renewed(order, t, Front(src), k + 1, Tree(Detach(At(t, Front(src)), Last(src))), sNext)
             && Renewed(order, t, dst, k + 1, Tree(Attach(At(t, dst), Last(src), EntryAt(t, src))), dNext)
    ensures Movable(t, src, dst)
    ensures var k := Common(Front(src), dst);
            && IsDir(t, dst[..k])
            && var m := At(t, dst[..k]);
            && src[k] in m && dst[k] in m
            && MoveCode(order, t, src, dst) ==
               Rehung(order, t, dst[..k],
                      Tree(m[src[k] := Entry(m[src[k]].mode, sNext)][dst[k] := Entry(m[dst[k]].mode, dNext)]))
  {
    var k := Common(Front(src), dst);
    CommonPrefix(Front(src), dst);
    BelowAncestor(t, src, dst, k);
    assert Front(src)[..k] == dst[..k];
    AcrossBelow(order, t, src, dst, k);
    ChildOf(order, t, Front(src), k, Tree(Detach(At(t, Front(src)), Last(src))), sNext);
    ChildOf(order, t, dst, k, Tree(Attach(At(t, dst), Last(src), EntryAt(t, src))), dNext);
  }

  lemma AcrossBelow(order: Order, t: Node, src: seq<string>, dst: seq<string>, k: nat)
    requires ValidOrder(order) && Movable(t, src, dst) && k == Common(Front(src), dst) && k < |src| - 1 && k < |dst|
    ensures IsDir(t, dst[..k])
    ensures var m, ss, ds := At(t, dst[..k]), Front(src)[k + 1..], dst[k + 1..];
            && src[k] in m && dst[k] in m && Resolves(m[src[k]].node, ss) && Resolves(m[dst[k]].node, ds)
            && MoveCode(order, t, src, dst) ==
               Rehung(order, t, dst[..k], Tree(
                 m[src[k] := Below(order, m, src[k], ss, Tree(Detach(At(t, Front(src)), Last(src))))]
                  [dst[k] := Below(order, m, dst[k], ds, Tree(Attach(At(t, dst), Last(src), EntryAt(t, src))))]))
  {
    BelowAncestor(t, src, dst, k);
    BelowSlices(src, dst, k);
    var a, s, d := Resolve(t, dst[..k]), src[k..], dst[k..];
    var pNew, dNew := Tree(Detach(At(t, Front(src)), Last(src))), Tree(Attach(At(t, dst), Last(src), EntryAt(t, src)));
    AcrossStep(order, a, s, d, pNew, dNew);
  }

  lemma AcrossStep(order: Order, a: Node, s: seq<string>, d: seq<string>, pNew: Node, dNew: Node)
    requires ValidOrder(order) && Movable(a, s, d) && Common(Front(s), d) == 0 && |s| > 1 && d != []
    requires pNew == Tree(Detach(At(a, Front(s)), Last(s)))
    requires dNew == Tree(Attach(At(a, d), Last(s), EntryAt(a, s)))
    ensures MoveStepCode(order, a, s, d) ==
            a.entries[s[0] := Below(order, a.entries, s[0], Front(s)[1..], pNew)]
                     [d[0] := Below(order, a.entries, d[0], d[1..], dNew)]
  {
  }

  lemma BelowSlices(src: seq<string>, dst: seq<string>, k: nat)
    requires k < |src| - 1 && k < |dst|
    ensures src[k..][0] == src[k] && Last(src[k..]) == Last(src) && Front(src[k..])[1..] == Front(src)[k + 1..]
    ensures dst[k..][0] == dst[k] && dst[k..][1..] == dst[k + 1..]
  {
  }

  /** The re-hung object one level below the first k components, as an entry of that directory. */
  lemma ChildOf(order: Order, t: Node, cs: seq<string>, k: nat, new': Node, next: Node)
    requires ValidOrder(order) && k < |cs| && IsDir(t, cs[..k]) && Renewed(order, t, cs, k + 1, new', next)
    ensures cs[k] in At(t, cs[..k]) && Resolves(At(t, cs[..k])[cs[k]].node, cs[k + 1..])
    ensures Below(order, At(t, cs[..k]), cs[k], cs[k + 1..], new') == Entry(At(t, cs[..k])[cs[k]].mode, next)
  {
    assert cs[..k + 1] == cs[..k] + [cs[k]];
    ResolveConcat(t, cs[..k], [cs[k]]);
  }

  lemma OutcomeIsDir(order: Order, t: Node, cmd: Command)
    requires ValidOrder(order) && t.Tree? && Applies(t, cmd)
    ensures Outcome(order, t, cmd).Tree?
  {
  }

  /** What renewParentTrees holds after climbing to the first n components of cs. */
  ghost predicate Climbed(order: Order, t: Node, cs: seq<string>, n: nat, prev: Node, cur: Node, new': Node)
    requires ValidOrder(order) && n <= |cs|
  {
    && Resolves(t, cs[..n]) && prev == Resolve(t, cs[..n])
    && Renewed(order, t, cs, n, new', cur)
  }

  /** root is the object at the first n components of cs with the object at cs re-hung as new'. */
  ghost predicate Renewed(order: Order, t: Node, cs: seq<string>, n: nat, new': Node, root: Node)
    requires ValidOrder(order) && n <= |cs|
  {
    && Resolves(t, cs[..n]) && Resolves(Resolve(t, cs[..n]), cs[n..])
    && root == Rehung(order, Resolve(t, cs[..n]), cs[n..], new')
  }

  /** Climbing on from there to the root with part ends where a climb all the way ends. */
  ghost predicate Completes(order: Order, t: Node, path: seq<string>, until: seq<string>, new': Node, part: Node)
    requires ValidOrder(order) && until <= path && Resolves(t, path)
  {
    && Resolves(t, until)
    && Rehung(order, t, until, part) == Rehung(order, t, path, new')
  }

  lemma Arrived(order: Order, t: Node, cs: seq<string>, n: nat, prev: Node, cur: Node, new': Node)
    requires ValidOrder(order) && n <= |cs| && Resolves(t, cs) && Climbed(order, t, cs, n, prev, cur, new')
    ensures |cs[..n]| == n && Renewed(order, t, cs, |cs[..n]|, new', cur) && Completes(order, t, cs, cs[..n], new', cur)
  {
    assert cs == cs[..n] + cs[n..];
    RehungConcat(order, t, cs[..n], cs[n..], new');
  }

  /** The directory with the entry that is chosen for name re-pointed at cur. */
  ghost function Replaced(order: Order, m: Entries, name: string, cur: Node): Node
    requires ValidOrder(order) && name in m
  {
    var n := Chosen(order, m, name);
    Tree(m[n := m[n].(node := cur)])
  }

  lemma ClimbStep(order: Order, t: Node, cs: seq<string>, n: nat, cur: Node, new': Node)
    requires ValidOrder(order) && 0 < n <= |cs| && Resolves(t, cs[..n])
    requires Climbed(order, t, cs, n, Resolve(t, cs[..n]), cur, new')
    ensures IsDir(t, cs[..n - 1]) && cs[n - 1] in At(t, cs[..n - 1])
    ensures At(t, cs[..n - 1])[cs[n - 1]].node == Resolve(t, cs[..n])
    ensures Climbed(order, t, cs, n - 1, Resolve(t, cs[..n - 1]),
                    Replaced(order, At(t, cs[..n - 1]), cs[n - 1], cur), new')
  {
    var us, name := cs[..n - 1], cs[n - 1];
    assert cs[..n] == us + [name];
    ResolveConcat(t, us, [name]);
    assert cs[n - 1..][0] == name && cs[n - 1..][1..] == cs[n..];
  }

  /** A climb that has not arrived is still below. */
  lemma NotYet(p: string, until: string, cs: seq<string>, n: nat)
    requires IsClean(p) && IsClean(until) && p != until && n <= |cs| && Components(p) == cs[..n]
    requires Components(until) <= cs && n >= |Components(until)|
    ensures n > |Components(until)|
  {
    assert n == |Components(until)| ==> Components(p) == Components(until);
  }

  /** The root's own id is never among its entries, so a climb that misses until ends at the root. */
  lemma NoSelf(trees: seq<TreeObj>, order: Order, t: Node, i: nat)
    requires ValidOrder(order) && t.Tree? && IsListing(trees, order, t.entries) && i < |trees|
    ensures trees[i].id != t
  {
    Acyclic(t, [order(t.entries)[i]]);
  }

  /** path.Dir drops the last component of a clean path, and stays at the root. */
  lemma UpOne(p: string)
    requires IsClean(p)
    ensures IsClean(Dir(p))
    ensures Components(Dir(p)) == if Components(p) == [] then [] else Front(Components(p))
  {
    var cs := Components(p);
    if cs != [] {
      DirRender(cs);
      ComponentsRender(Front(cs));
    }
  }

  lemma ListingLength(trees: seq<TreeObj>, order: Order, m: Entries)
    requires ValidOrder(order) && IsListing(trees, order, m)
    ensures |trees| == |m|
  {
    assert Enumerates(order(m), m);
    CountNames(order(m), m.Keys);
  }

  lemma {:induction false} CountNames(names: seq<string>, keys: set<string>)
    requires forall n :: n in names <==> n in keys
    requires forall i, j :: 0 <= i < j < |names| ==> names[i] != names[j]
    ensures |names| == |keys|
  {
    if names != [] {
      assert names[0] in keys;
      forall n ensures n in names[1..] <==> n in keys - {names[0]} {
        if n in names && n != names[0] {
          var i :| 0 <= i < |names| && names[i] == n;
          assert names[1..][i - 1] == n;
        }
      }
      CountNames(names[1..], keys - {names[0]});
    } else {
      assert keys == {};
    }
  }

  /** The string test that guards Move and Copy also rules out component prefixes. */
  lemma NotBelow(src: string, dst: string)
    requires IsClean(src) && IsClean(dst) && !(src <= dst)
    ensures !(Components(src) <= Components(dst))
  {
    if Components(src) <= Components(dst) {
      CommonAncestor.PrefixRender(Components(src), Components(dst));
    }
  }
}
