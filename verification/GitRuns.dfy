/** The six writes as commands on the branch's root tree, and what holds over every run of them. */
module GitRuns {
  import opened Wrappers
  import opened Paths
  import opened GitTrees
  import opened GitMoves

  datatype Command =
    | MakeDir(dir: seq<string>, name: string)
    | Put(dir: seq<string>, name: string, content: string)
    | Copy(src: seq<string>, dst: seq<string>)
    | Move(src: seq<string>, dst: seq<string>)
    | Rename(src: seq<string>, newName: string)
    | Remove(src: seq<string>)

  function NewDir(): Entry { Entry("040000", Tree(map[KEEP := KeepEntry])) }

  function NewFile(content: string): Entry { Entry("100644", Blob(content)) }

  /** .gitkeep is hidden from listings, so it is never an operand; new names are ones git accepts. */
  predicate Operand(name: string) { IsName(name) && name != KEEP }

  predicate Operands(cmd: Command) {
    match cmd
    case MakeDir(_, name) => Operand(name)
    case Put(_, name, _) => Operand(name)
    case Copy(src, _) => src != [] && Operand(Last(src))
    case Move(src, _) => src != [] && Operand(Last(src))
    case Rename(src, name) => src != [] && Operand(Last(src)) && Operand(name)
    case Remove(src) => src != [] && Operand(Last(src))
  }

  predicate Applies(t: Node, cmd: Command) {
    match cmd
    case MakeDir(dir, _) => IsDir(t, dir)
    case Put(dir, _, _) => IsDir(t, dir)
    case Copy(src, dst) => IsSource(t, src) && !EntryAt(t, src).node.Submodule? && IsDir(t, dst) && !(src <= dst)
    case Move(src, dst) => Movable(t, src, dst) && !EntryAt(t, src).node.Submodule?
    case Rename(src, _) => IsSource(t, src) && !EntryAt(t, src).node.Submodule?
    case Remove(src) => IsSource(t, src) && !EntryAt(t, src).node.Submodule?
  }

  predicate FolderAt(t: Node, p: seq<string>) { LookIn(t, p).Some? && LookIn(t, p).value.Folder? }

  predicate MovableAt(t: Node, p: seq<string>) {
    p != [] && LookIn(t, p).Some? && !LookIn(t, p).value.Module?
  }

  /** When a command applies, in terms of what is to be seen at its paths. */
  lemma AppliesIff(t: Node, cmd: Command)
    ensures Applies(t, cmd) <==>
            match cmd
            case MakeDir(dir, _) => FolderAt(t, dir)
            case Put(dir, _, _) => FolderAt(t, dir)
            case Copy(src, dst) => MovableAt(t, src) && FolderAt(t, dst) && !(src <= dst)
            case Move(src, dst) => MovableAt(t, src) && FolderAt(t, dst) && !(src <= dst) && src[..|src| - 1] != dst
            case Rename(src, _) => MovableAt(t, src)
            case Remove(src) => MovableAt(t, src)
  {
    match cmd
    case MakeDir(dir, _) => LookIsResolve(Entry("040000", t), dir);
    case Put(dir, _, _) => LookIsResolve(Entry("040000", t), dir);
    case Copy(src, dst) =>
      LookIsResolve(Entry("040000", t), dst);
      SourceIsSeen(t, src);
    case Move(src, dst) =>
      LookIsResolve(Entry("040000", t), dst);
      SourceIsSeen(t, src);
    case Rename(src, _) => SourceIsSeen(t, src);
    case Remove(src) => SourceIsSeen(t, src);
  }

  lemma SourceIsSeen(t: Node, src: seq<string>)
    ensures IsSource(t, src) && !EntryAt(t, src).node.Submodule? <==> MovableAt(t, src)
  {
    if src != [] {
      assert src == Front(src) + [Last(src)];
      ResolveConcat(t, Front(src), [Last(src)]);
      LookIsResolve(Entry("040000", t), src);
      assert [Last(src)][1..] == [];
    }
  }

  /** The root that the driver's steps arrive at. */
  ghost function Outcome(order: Order, t: Node, cmd: Command): Node
    requires ValidOrder(order) && Applies(t, cmd)
  {
    match cmd
    case MakeDir(dir, name) => PutCode(order, t, dir, name, NewDir())
    case Put(dir, name, content) => PutCode(order, t, dir, name, NewFile(content))
    case Copy(src, dst) => PutCode(order, t, dst, Last(src), EntryAt(t, src))
    case Move(src, dst) => MoveCode(order, t, src, dst)
    case Rename(src, name) => RenameCode(order, t, src, name)
    case Remove(src) => RemoveCode(order, t, src)
  }

  /** The root that the command is meant to produce. */
  ghost function Intended(t: Node, cmd: Command): Node
    requires Applies(t, cmd)
  {
    match cmd
    case MakeDir(dir, name) => AttachAt(t, dir, name, NewDir())
    case Put(dir, name, content) => AttachAt(t, dir, name, NewFile(content))
    case Copy(src, dst) => AttachAt(t, dst, Last(src), EntryAt(t, src))
    case Move(src, dst) => Moved(t, src, dst)
    case Rename(src, name) => RenamedAt(t, src, name)
    case Remove(src) => DetachAt(t, src)
  }

  /** What a caller can check beforehand: no directory on the rewritten path has an equal earlier sibling. */
  ghost predicate Clear(order: Order, t: Node, cmd: Command)
    requires ValidOrder(order) && Applies(t, cmd)
  {
    match cmd
    case MakeDir(dir, name) => NoTwin(order, t, dir) || Attach(At(t, dir), name, NewDir()) == At(t, dir)
    case Put(dir, name, c) => NoTwin(order, t, dir) || Attach(At(t, dir), name, NewFile(c)) == At(t, dir)
    case Copy(src, dst) => NoTwin(order, t, dst) || Attach(At(t, dst), Last(src), EntryAt(t, src)) == At(t, dst)
    case Move(src, dst) => MoveClear(order, t, src, dst)
    case Rename(src, name) => NoTwin(order, t, Front(src)) || name == Last(src)
    case Remove(src) => NoTwin(order, t, Front(src))
  }

  /** Every write does exactly what it is for if and only if its path is clear of twins. */
  lemma OutcomeIff(order: Order, t: Node, cmd: Command)
    requires ValidOrder(order) && Applies(t, cmd) && Operands(cmd)
    ensures Outcome(order, t, cmd) == Intended(t, cmd) <==> Clear(order, t, cmd)
  {
    match cmd
    case MakeDir(dir, name) => RehungIff(order, t, dir, Tree(Attach(At(t, dir), name, NewDir())));
    case Put(dir, name, c) => RehungIff(order, t, dir, Tree(Attach(At(t, dir), name, NewFile(c))));
    case Copy(src, dst) => RehungIff(order, t, dst, Tree(Attach(At(t, dst), Last(src), EntryAt(t, src))));
    case Move(src, dst) => MoveIff(order, t, src, dst);
    case Rename(src, name) =>
      var m := At(t, Front(src));
      var m' := (m - {Last(src)})[name := m[Last(src)]];
      RehungIff(order, t, Front(src), Tree(m'));
      assert name != Last(src) ==> Last(src) !in m';
      assert name == Last(src) ==> m' == m;
    case Remove(src) =>
      DetachChanges(At(t, Front(src)), Last(src));
      RehungIff(order, t, Front(src), Tree(Detach(At(t, Front(src)), Last(src))));
  }

  // ---- What each write does at each single path ----

  /** Attaching at a clear path, as it is done. */
  lemma PutLooks(order: Order, t: Node, dir: seq<string>, name: string, e: Entry, p: seq<string>)
    requires ValidOrder(order) && IsDir(t, dir) && name != ".gitkeep"
    requires NoTwin(order, t, dir) || Attach(At(t, dir), name, e) == At(t, dir)
    ensures LookIn(PutCode(order, t, dir, name, e), p) ==
            if dir + [name] <= p then Look(e, p[|dir| + 1..])
            else if dir + [".gitkeep"] <= p && At(t, dir).Keys == {".gitkeep"} then None
            else LookIn(t, p)
  {
    RehungIff(order, t, dir, Tree(Attach(At(t, dir), name, e)));
    AttachLooks(Entry("040000", t), dir, name, e, p);
  }

  /** A file that is put is there with its content, and nothing is below it. */
  lemma FileIsPut(order: Order, t: Node, dir: seq<string>, name: string, content: string, p: seq<string>)
    requires ValidOrder(order) && IsDir(t, dir) && name != ".gitkeep"
    requires Clear(order, t, Put(dir, name, content))
    ensures LookIn(Outcome(order, t, Put(dir, name, content)), p) ==
            if p == dir + [name] then Some(File("100644", content))
            else if dir + [name] <= p then None
            else if dir + [".gitkeep"] <= p && At(t, dir).Keys == {".gitkeep"} then None
            else LookIn(t, p)
  {
    PutLooks(order, t, dir, name, NewFile(content), p);
    TailEmpty(dir, name, p);
  }

  /** A new directory holds an empty .gitkeep and nothing else. */
  lemma DirIsMade(order: Order, t: Node, dir: seq<string>, name: string, p: seq<string>)
    requires ValidOrder(order) && IsDir(t, dir) && name != ".gitkeep"
    requires Clear(order, t, MakeDir(dir, name))
    ensures LookIn(Outcome(order, t, MakeDir(dir, name)), p) ==
            if p == dir + [name] then Some(Folder("040000"))
            else if p == dir + [name, ".gitkeep"] then Some(File("100644", ""))
            else if dir + [name] <= p then None
            else if dir + [".gitkeep"] <= p && At(t, dir).Keys == {".gitkeep"} then None
            else LookIn(t, p)
  {
    PutLooks(order, t, dir, name, NewDir(), p);
    TailEmpty(dir, name, p);
    if dir + [name] <= p {
      var q := p[|dir| + 1..];
      assert p == dir + [name] + q;
      assert q == [".gitkeep"] <==> p == dir + [name, ".gitkeep"];
      assert q != [] && q[1..] == [] ==> q == [q[0]];
    }
  }

  lemma TailEmpty(dir: seq<string>, name: string, p: seq<string>)
    ensures dir + [name] <= p ==> (p == dir + [name] <==> p[|dir| + 1..] == [])
  {
  }

  /** A copy is below its new place what the source is. */
  lemma SourceIsCopied(order: Order, t: Node, src: seq<string>, dst: seq<string>, p: seq<string>)
    requires ValidOrder(order) && Applies(t, Copy(src, dst)) && Last(src) != ".gitkeep"
    requires Clear(order, t, Copy(src, dst))
    ensures LookIn(Outcome(order, t, Copy(src, dst)), p) ==
            if dst + [Last(src)] <= p then LookIn(t, src + p[|dst| + 1..])
            else if dst + [".gitkeep"] <= p && At(t, dst).Keys == {".gitkeep"} then None
            else LookIn(t, p)
  {
    PutLooks(order, t, dst, Last(src), EntryAt(t, src), p);
    if dst + [Last(src)] <= p { SourceLooks(t, src, p[|dst| + 1..]); }
  }

  /** What was below the source is below the destination. */
  lemma SourceIsMoved(order: Order, t: Node, src: seq<string>, dst: seq<string>, p: seq<string>)
    requires ValidOrder(order) && Applies(t, Move(src, dst)) && Last(src) != ".gitkeep"
    requires Clear(order, t, Move(src, dst))
    ensures LookIn(Outcome(order, t, Move(src, dst)), p) ==
            if dst + [Last(src)] <= p then LookIn(t, src + p[|dst| + 1..])
            else if dst + [".gitkeep"] <= p && At(t, dst).Keys == {".gitkeep"} then None
            else if src <= p then None
            else if Front(src) + [".gitkeep"] <= p && At(t, Front(src)).Keys == {Last(src)} then
              if p == Front(src) + [".gitkeep"] then Some(File("100644", "")) else None
            else LookIn(t, p)
  {
    MoveIff(order, t, src, dst);
    MovedLooks(t, src, dst, p);
  }

  /** What was below the old name is below the new one. */
  lemma SourceIsRenamed(order: Order, t: Node, src: seq<string>, name: string, p: seq<string>)
    requires ValidOrder(order) && Applies(t, Rename(src, name)) && Operands(Rename(src, name))
    requires Clear(order, t, Rename(src, name))
    ensures LookIn(Outcome(order, t, Rename(src, name)), p) ==
            if Front(src) + [name] <= p then LookIn(t, src + p[|src|..])
            else if src <= p then None
            else LookIn(t, p)
  {
    OutcomeIff(order, t, Rename(src, name));
    RenamedLooks(Entry("040000", t), src, name, p);
    if Front(src) + [name] <= p { SourceLooks(t, src, p[|src|..]); }
  }

  /** The source and all below it is gone, and its directory stays. */
  lemma SourceIsRemoved(order: Order, t: Node, src: seq<string>, p: seq<string>)
    requires ValidOrder(order) && Applies(t, Remove(src)) && Operands(Remove(src)) && Clear(order, t, Remove(src))
    ensures LookIn(Outcome(order, t, Remove(src)), p) ==
            if src <= p then None
            else if Front(src) + [".gitkeep"] <= p && At(t, Front(src)).Keys == {Last(src)} then
              if p == Front(src) + [".gitkeep"] then Some(File("100644", "")) else None
            else LookIn(t, p)
  {
    OutcomeIff(order, t, Remove(src));
    DetachLooks(Entry("040000", t), src, p);
  }

  /** A write changes the root if and only if it is meant to, even where it changes the wrong place. */
  lemma VoidIff(order: Order, t: Node, cmd: Command)
    requires ValidOrder(order) && Applies(t, cmd) && Operands(cmd)
    ensures Outcome(order, t, cmd) == t <==> Intended(t, cmd) == t
  {
    match cmd
    case MakeDir(dir, name) => RehungVoidIff(order, t, dir, Tree(Attach(At(t, dir), name, NewDir())));
    case Put(dir, name, c) => RehungVoidIff(order, t, dir, Tree(Attach(At(t, dir), name, NewFile(c))));
    case Copy(src, dst) => RehungVoidIff(order, t, dst, Tree(Attach(At(t, dst), Last(src), EntryAt(t, src))));
    case Move(src, dst) => MoveChanges(order, t, src, dst);
    case Rename(src, name) =>
      RehungVoidIff(order, t, Front(src), Tree((At(t, Front(src)) - {Last(src)})[name := EntryAt(t, src)]));
    case Remove(src) => RehungVoidIff(order, t, Front(src), Tree(Detach(At(t, Front(src)), Last(src))));
  }

  // ---- The snapshot invariant ----

  lemma AttachShaped(m: Entries, name: string, e: Entry, alive: bool)
    requires Shaped(Tree(m), alive) && Operand(name) && Shaped(e.node, alive)
    ensures Shaped(Tree(Attach(m, name, e)), alive)
  {
    assert name in Attach(m, name, e);
  }

  lemma DetachShaped(m: Entries, name: string, alive: bool)
    requires Shaped(Tree(m), alive) && Operand(name) && name in m
    ensures Shaped(Tree(Detach(m, name)), alive)
  {
    if |m| == 1 {
      assert |m.Keys - {name}| == 0;
      assert Detach(m, name).Keys == {KEEP};
    } else {
      assert |m.Keys - {name}| > 0;
      assert alive ==> KEEP !in m;
    }
  }

  lemma BelowShaped(order: Order, m: Entries, n: string, rest: seq<string>, new': Node, alive: bool)
    requires ValidOrder(order) && Shaped(Tree(m), alive) && n in m && IsDir(m[n].node, rest)
    requires new'.Tree? && Shaped(new', alive)
    ensures Below(order, m, n, rest, new').node.Tree? && Shaped(Below(order, m, n, rest, new').node, alive)
    ensures alive ==> n != KEEP
  {
    RehungShaped(order, m[n].node, rest, new', alive);
    assert m[n].node.Tree?;
  }

  /** The two directories that a move edits stay as they should be. */
  lemma EndsShaped(t: Node, src: seq<string>, dst: seq<string>, alive: bool)
    requires Movable(t, src, dst) && Shaped(t, alive) && Operand(Last(src))
    ensures Shaped(Tree(Attach(At(t, dst), Last(src), EntryAt(t, src))), alive)
    ensures Shaped(Tree(Detach(At(t, Front(src)), Last(src))), alive)
    ensures Shaped(EntryAt(t, src).node, alive)
  {
    ShapedResolve(t, Front(src), alive);
    ShapedResolve(t, dst, alive);
    AttachShaped(At(t, dst), Last(src), EntryAt(t, src), alive);
    DetachShaped(At(t, Front(src)), Last(src), alive);
  }

  lemma MoveStepShaped(order: Order, t: Node, src: seq<string>, dst: seq<string>, alive: bool)
    requires ValidOrder(order) && Movable(t, src, dst) && Common(Front(src), dst) == 0
    requires Shaped(t, alive) && Operand(Last(src))
    ensures Shaped(Tree(MoveStepCode(order, t, src, dst)), alive)
  {
    EndsShaped(t, src, dst, alive);
    var m, name, e := t.entries, Last(src), EntryAt(t, src);
    var dNew, pNew := Tree(Attach(At(t, dst), name, e)), Tree(Detach(At(t, Front(src)), name));
    if |src| == 1 {
      BelowShaped(order, m, dst[0], dst[1..], dNew, alive);
      Updated(m - {name}, dst[0], Below(order, m, dst[0], dst[1..], dNew), alive);
    } else {
      assert Front(src) == [src[0]] + Front(src)[1..];
      var s := Below(order, m, src[0], Front(src)[1..], pNew);
      BelowShaped(order, m, src[0], Front(src)[1..], pNew, alive);
      Updated(m, src[0], s, alive);
      if dst == [] {
        Updated(m[src[0] := s], name, e, alive);
      } else {
        BelowShaped(order, m, dst[0], dst[1..], dNew, alive);
        Updated(m[src[0] := s], dst[0], Below(order, m, dst[0], dst[1..], dNew), alive);
      }
    }
  }

  lemma Updated(m: Entries, n: string, e: Entry, alive: bool)
    requires forall k :: k in m ==> IsName(k) && Shaped(m[k].node, alive)
    requires IsName(n) && Shaped(e.node, alive) && (alive ==> KEEP !in m && n != KEEP)
    ensures alive ==> KEEP !in m[n := e]
    ensures Shaped(Tree(m[n := e]), alive)
  {
    assert n in m[n := e];
  }

  lemma PutShaped(order: Order, t: Node, dir: seq<string>, name: string, e: Entry, alive: bool)
    requires ValidOrder(order) && IsDir(t, dir) && Shaped(t, alive) && Operand(name) && Shaped(e.node, alive)
    ensures Shaped(PutCode(order, t, dir, name, e), alive)
  {
    ShapedResolve(t, dir, alive);
    AttachShaped(At(t, dir), name, e, alive);
    RehungShaped(order, t, dir, Tree(Attach(At(t, dir), name, e)), alive);
  }

  lemma MoveShaped(order: Order, t: Node, src: seq<string>, dst: seq<string>, alive: bool)
    requires ValidOrder(order) && Movable(t, src, dst) && Shaped(t, alive) && Operand(Last(src))
    ensures Shaped(MoveCode(order, t, src, dst), alive)
  {
    var k := Common(Front(src), dst);
    BelowAncestor(t, src, dst, k);
    var a := Resolve(t, dst[..k]);
    ShapedResolve(t, dst[..k], alive);
    MoveStepShaped(order, a, src[k..], dst[k..], alive);
    RehungShaped(order, t, dst[..k], Tree(MoveStepCode(order, a, src[k..], dst[k..])), alive);
  }

  lemma RenameShaped(order: Order, t: Node, src: seq<string>, name: string, alive: bool)
    requires ValidOrder(order) && IsSource(t, src) && Shaped(t, alive) && Operand(Last(src)) && Operand(name)
    ensures Shaped(RenameCode(order, t, src, name), alive)
  {
    ShapedResolve(t, Front(src), alive);
    var m := At(t, Front(src));
    Updated(m - {Last(src)}, name, m[Last(src)], alive);
    RehungShaped(order, t, Front(src), Tree((m - {Last(src)})[name := m[Last(src)]]), alive);
  }

  lemma OutcomeShaped(order: Order, t: Node, cmd: Command, alive: bool)
    requires ValidOrder(order) && Applies(t, cmd) && Shaped(t, alive) && Operands(cmd)
    ensures Shaped(Outcome(order, t, cmd), alive)
  {
    match cmd
    case MakeDir(dir, name) =>
      assert KEEP in NewDir().node.entries;
      PutShaped(order, t, dir, name, NewDir(), alive);
    case Put(dir, name, c) => PutShaped(order, t, dir, name, NewFile(c), alive);
    case Copy(src, dst) =>
      ShapedResolve(t, Front(src), alive);
      PutShaped(order, t, dst, Last(src), EntryAt(t, src), alive);
    case Move(src, dst) => MoveShaped(order, t, src, dst, alive);
    case Rename(src, name) => RenameShaped(order, t, src, name, alive);
    case Remove(src) =>
      ShapedResolve(t, Front(src), alive);
      DetachShaped(At(t, Front(src)), Last(src), alive);
      RehungShaped(order, t, Front(src), Tree(Detach(At(t, Front(src)), Last(src))), alive);
  }

  /** Each write keeps the names, and the rest of the shape where it was there before. */
  lemma OutcomeKept(order: Order, t: Node, cmd: Command)
    requires ValidOrder(order) && Applies(t, cmd) && Named(t) && Operands(cmd)
    ensures Named(Outcome(order, t, cmd))
    ensures Kept(t) ==> Kept(Outcome(order, t, cmd))
  {
    OutcomeShaped(order, t, cmd, false);
    if Kept(t) { OutcomeShaped(order, t, cmd, true); }
  }

  lemma {:induction false} KeptIsNamed(t: Node)
    requires Kept(t)
    ensures Named(t)
  {
    if t.Tree? {
      forall n | n in t.entries
        ensures IsName(n) && Named(t.entries[n].node)
      {
        KeptIsNamed(t.entries[n].node);
      }
    }
  }

  /** One call: it may leave the head alone (any failure) or move it to its outcome. */
  ghost predicate Step(order: Order, before: Node, cmd: Command, after: Node)
    requires ValidOrder(order)
  {
    after == before || (Applies(before, cmd) && after == Outcome(order, before, cmd))
  }

  /** Every snapshot of every run, failing calls included, keeps every directory alive. */
  lemma {:induction false} RunKept(order: Order, heads: seq<Node>, cmds: seq<Command>)
    requires ValidOrder(order) && |heads| == |cmds| + 1 && Kept(heads[0])
    requires forall i :: 0 <= i < |cmds| ==> Operands(cmds[i]) && Step(order, heads[i], cmds[i], heads[i + 1])
    ensures forall i :: 0 <= i < |heads| ==> Kept(heads[i])
  {
    if cmds != [] {
      var n := |cmds| - 1;
      RunKept(order, heads[..n + 1], cmds[..n]);
      assert heads[..n + 1][n] == heads[n];
      if heads[n + 1] != heads[n] {
        KeptIsNamed(heads[n]);
        OutcomeKept(order, heads[n], cmds[n]);
      }
      forall i | 0 <= i < |heads|
        ensures Kept(heads[i])
      {
        if i <= n { assert heads[i] == heads[..n + 1][i]; }
      }
    }
  }

  /** A file put into one directory arrives in the other. */
  ghost predicate Misplaced(order: Order, t: Node, dir: string, other: string, name: string, content: string)
    requires ValidOrder(order)
  {
    && dir != other && IsDir(t, [dir]) && IsDir(t, [other])
    && Outcome(order, t, Put([dir], name, content)) == AttachAt(t, [other], name, NewFile(content))
    && Outcome(order, t, Put([dir], name, content)) != Intended(t, Put([dir], name, content))
  }

  /**
   The condition is not idle: with two new directories /a and /b, whichever the server lists
   first receives a file that was put into the other.
   */
  lemma TwinsMixUp(order: Order, content: string)
    requires ValidOrder(order)
    ensures var t := Tree(map["a" := NewDir(), "b" := NewDir()]);
            Misplaced(order, t, "a", "b", "f", content) || Misplaced(order, t, "b", "a", "f", content)
  {
    var m := map["a" := NewDir(), "b" := NewDir()];
    var t := Tree(m);
    assert Enumerates(order(m), m);
    var other := Chosen(order, m, "a");
    var dir := if other == "a" then "b" else "a";
    assert Chosen(order, m, dir) == other;
    assert m["a"] == NewDir() && m["b"] == NewDir();
    forall n | n in m ensures Resolves(t, [n]) && Resolve(t, [n]) == NewDir().node {
      assert m[n] == NewDir();
      assert [n][1..] == [];
    }
    var full := Tree(Attach(NewDir().node.entries, "f", NewFile(content)));
    assert "f" in full.entries && "f" !in NewDir().node.entries;
    assert Rehung(order, t, [dir], full) == SetAt(t, [other], full);
    RehungIff(order, t, [dir], full);
  }

  /** The tree with two new directories has the shape that runs keep. */
  lemma TwinsKept()
    ensures Kept(Tree(map["a" := NewDir(), "b" := NewDir()]))
  {
    assert NewDir().node.entries.Keys == {KEEP};
    assert Kept(NewDir().node);
    var m := map["a" := NewDir(), "b" := NewDir()];
    assert "a" in m && KEEP !in m;
    assert forall n :: n in m ==> (n == "a" || n == "b") && m[n] == NewDir();
  }
}
