/** Filling in the sizes of folders, in place. */
module LinkSizes {
  import opened Wrappers
  import opened Texts
  import opened LinkTree
  import opened LinkLines
  import opened LinkNodes

  const WORD := 0x1_0000_0000_0000_0000

  /** An int64, which wraps around. */
  function Wrap(n: int): int {
    (n + WORD / 2) % WORD - WORD / 2
  }

  /** The sizes of all files in the tree together. */
  function Sum(t: Tree): int
    decreases t, 0
  {
    if IsFile(t.entry) then t.entry.size else SumTo(t.kids, |t.kids|)
  }

  function SumTo(f: seq<Tree>, n: nat): int
    requires n <= |f|
    decreases f, n
  {
    if n == 0 then 0 else SumTo(f, n - 1) + Sum(f[n - 1])
  }

  /** Every folder has the size of all files below it. */
  function Sized(t: Tree): Tree
    decreases t, 0
  {
    if IsFile(t.entry) then t else Tree(t.entry.(size := Wrap(Sum(t))), SizedTo(t.kids, |t.kids|))
  }

  function SizedTo(f: seq<Tree>, n: nat): (g: seq<Tree>)
    requires n <= |f|
    ensures |g| == n
    decreases f, n
  {
    if n == 0 then [] else SizedTo(f, n - 1) + [Sized(f[n - 1])]
  }

  ghost predicate FileSizesFit(t: Tree) {
    && (IsFile(t.entry) ==> Wrap(t.entry.size) == t.entry.size)
    && forall i :: 0 <= i < |t.kids| ==> FileSizesFit(t.kids[i])
  }

  // ---- What the sizes add up ----

  /** The sizes of the files in a list. */
  function Total(es: seq<Entry>): int {
    if es == [] then 0 else (if es[0].url != "" then es[0].size else 0) + Total(es[1..])
  }

  lemma {:induction false} TotalConcat(a: seq<Entry>, b: seq<Entry>)
    ensures Total(a + b) == Total(a) + Total(b)
  {
    if a == [] {
      assert a + b == b;
    } else {
      assert (a + b)[0] == a[0] && (a + b)[1..] == a[1..] + b;
      TotalConcat(a[1..], b);
    }
  }

  /** The sum over the tree is the sum over its flat list. */
  lemma {:induction false} SumIsTotal(t: Tree)
    requires FilesAreLeaves(t)
    ensures Sum(t) == Total(Preorder(t))
    decreases t, 0
  {
    assert Preorder(t) == [t.entry] + PreorderAll(t.kids);
    assert [t.entry][1..] == [];
    TotalConcat([t.entry], PreorderAll(t.kids));
    if !IsFile(t.entry) {
      SumToIsTotal(t.kids, |t.kids|);
      assert t.kids[..|t.kids|] == t.kids;
    }
  }

  lemma {:induction false} SumToIsTotal(f: seq<Tree>, n: nat)
    requires n <= |f| && forall i :: 0 <= i < |f| ==> FilesAreLeaves(f[i])
    ensures SumTo(f, n) == Total(PreorderAll(f[..n]))
    decreases f, n
  {
    if n == 0 {
      assert f[..0] == [];
    } else {
      var before, last := f[..n - 1], f[n - 1];
      SumToIsTotal(f, n - 1);
      SumIsTotal(last);
      PreorderConcat(before, [last]);
      assert f[..n] == before + [last];
      assert [last][1..] == [] && PreorderAll([]) == [];
      assert PreorderAll([last]) == Preorder(last);
      TotalConcat(PreorderAll(before), Preorder(last));
    }
  }

  /** A 64-bit number that is a sum up to a multiple of the word. */
  predicate IsWrapped(w: int, sum: int) {
    && -0x8000_0000_0000_0000 <= w <= 0x7fff_ffff_ffff_ffff
    && (w - sum) % 0x1_0000_0000_0000_0000 == 0
  }

  lemma WrapIs(n: int)
    ensures IsWrapped(Wrap(n), n)
  {
    var q := (n + WORD / 2) / WORD;
    assert Wrap(n) - n == -q * WORD;
  }

  /** u is t where every folder has, as a 64-bit number, the sizes of all files on the lines below it. */
  ghost predicate HasSizes(t: Tree, u: Tree)
    decreases t
  {
    && |u.kids| == |t.kids| && u.entry == t.entry.(size := u.entry.size)
    && (if t.entry.url != "" then u.entry.size == t.entry.size else IsWrapped(u.entry.size, Total(PreorderAll(t.kids))))
    && forall i :: 0 <= i < |t.kids| ==> HasSizes(t.kids[i], u.kids[i])
  }

  lemma {:induction false} SizedHasSizes(t: Tree)
    requires FilesAreLeaves(t)
    ensures HasSizes(t, Sized(t)) && (IsFile(t.entry) || IsWrapped(Wrap(Sum(t)), Total(PreorderAll(t.kids))))
    decreases t
  {
    if !IsFile(t.entry) {
      SumToIsTotal(t.kids, |t.kids|);
      assert t.kids[..|t.kids|] == t.kids;
      WrapIs(Sum(t));
      forall i | 0 <= i < |t.kids|
        ensures HasSizes(t.kids[i], Sized(t).kids[i])
      {
        SizedAt(t.kids, |t.kids|, i);
        SizedHasSizes(t.kids[i]);
      }
    }
  }

  lemma WrapShift(n: int, k: int)
    ensures Wrap(n - k * WORD) == Wrap(n)
  {
    var q := (n + WORD / 2) / WORD;
    assert n + WORD / 2 == q * WORD + (n + WORD / 2) % WORD;
    assert n - k * WORD + WORD / 2 == (q - k) * WORD + (n + WORD / 2) % WORD;
  }

  lemma WrapAdds(a: int, b: int)
    ensures Wrap(Wrap(a) + Wrap(b)) == Wrap(a + b)
  {
    var i, j := (a + WORD / 2) / WORD, (b + WORD / 2) / WORD;
    assert Wrap(a) == a - i * WORD && Wrap(b) == b - j * WORD;
    assert Wrap(a) + Wrap(b) == a + b - (i + j) * WORD;
    WrapShift(a + b, i + j);
  }

  // ---- The nodes of each child ----

  ghost function Parts(ns: seq<Node>, f: seq<Tree>): (parts: seq<seq<Node>>)
    requires ShowsAll(ns, f)
    reads ns
    ensures |parts| == |f|
  {
    if f == [] then []
    else
      var c := |Preorder(f[0])|;
      [ns[..c]] + Parts(ns[c..], f[1..])
  }

  ghost function Concat(parts: seq<seq<Node>>): seq<Node> {
    if parts == [] then [] else parts[0] + Concat(parts[1..])
  }

  lemma {:induction false} PartsShow(ns: seq<Node>, f: seq<Tree>)
    requires ShowsAll(ns, f)
    ensures var parts := Parts(ns, f);
            && Concat(parts) == ns && |Heads(ns, f)| == |f|
            && forall j :: 0 <= j < |f| ==> Shows(parts[j], f[j]) && parts[j][0] == Heads(ns, f)[j]
    decreases f
  {
    if f != [] {
      var c := |Preorder(f[0])|;
      PartsShow(ns[c..], f[1..]);
      var parts, heads := Parts(ns, f), Heads(ns, f);
      assert parts[1..] == Parts(ns[c..], f[1..]);
      assert ns[..c] + ns[c..] == ns;
      assert parts[0] == ns[..c] && Shows(parts[0], f[0]) && heads == [ns[0]] + Heads(ns[c..], f[1..]);
      forall j | 0 <= j < |f|
        ensures Shows(parts[j], f[j]) && parts[j][0] == heads[j]
      {
        if j > 0 { assert parts[j] == parts[1..][j - 1] && f[j] == f[1..][j - 1] && heads[j] == heads[1..][j - 1]; }
      }
    }
  }

  lemma {:induction false} ShowParts(parts: seq<seq<Node>>, f: seq<Tree>)
    requires |parts| == |f| && forall j :: 0 <= j < |f| ==> Shows(parts[j], f[j])
    ensures ShowsAll(Concat(parts), f) && |Heads(Concat(parts), f)| == |f|
    ensures forall j :: 0 <= j < |f| ==> Shows(parts[j], f[j]) && parts[j][0] == Heads(Concat(parts), f)[j]
    decreases f
  {
    if f != [] {
      assert forall j :: 0 <= j < |f[1..]| ==> f[1..][j] == f[j + 1] && parts[1..][j] == parts[j + 1];
      ShowParts(parts[1..], f[1..]);
      ShowsCount(parts[0], f[0]);
      var ns, c := Concat(parts), |Preorder(f[0])|;
      assert ns[..c] == parts[0] && ns[c..] == Concat(parts[1..]);
    }
  }

  ghost predicate Apart(parts: seq<seq<Node>>, i: nat, j: nat)
    requires i < |parts| && j < |parts|
  {
    forall a, b :: 0 <= a < |parts[i]| && 0 <= b < |parts[j]| ==> parts[i][a] != parts[j][b]
  }

  ghost predicate AllApart(parts: seq<seq<Node>>) {
    && (forall i :: 0 <= i < |parts| ==> Distinct(parts[i]))
    && (forall i, j :: 0 <= i < |parts| && 0 <= j < |parts| && i != j ==> Apart(parts, i, j))
  }

  lemma {:induction false} InConcat(parts: seq<seq<Node>>, i: nat, a: nat) returns (at: nat)
    requires i < |parts| && a < |parts[i]|
    ensures at < |Concat(parts)| && Concat(parts)[at] == parts[i][a]
    ensures i == 0 ==> at == a
    ensures i > 0 ==> at >= |parts[0]|
  {
    if i == 0 { at := a; } else {
      var rest := InConcat(parts[1..], i - 1, a);
      at := |parts[0]| + rest;
    }
  }

  lemma {:induction false} DistinctParts(parts: seq<seq<Node>>)
    requires Distinct(Concat(parts))
    ensures AllApart(parts)
  {
    if parts != [] {
      var first, rest, all := parts[0], parts[1..], Concat(parts);
      forall i, j | 0 <= i < j < |first|
        ensures Differ(first, i, j)
      {
        assert Differ(all, i, j);
      }
      forall i, j | 0 <= i < j < |Concat(rest)|
        ensures Differ(Concat(rest), i, j)
      {
        assert Differ(all, |first| + i, |first| + j);
      }
      DistinctParts(rest);
      forall i | 0 < i < |parts|
        ensures Distinct(parts[i]) && Apart(parts, 0, i) && Apart(parts, i, 0)
      {
        assert Distinct(rest[i - 1]);
        forall a, b | 0 <= a < |first| && 0 <= b < |parts[i]|
          ensures first[a] != parts[i][b]
        {
          var at := InConcat(parts, i, b);
          assert Differ(all, a, at);
        }
      }
      forall i, j | 0 < i < |parts| && 0 < j < |parts| && i != j
        ensures Apart(parts, i, j)
      {
        assert Apart(rest, i - 1, j - 1);
      }
    }
  }

  lemma Tail(ns: seq<Node>)
    requires Distinct(ns) && ns != []
    ensures Distinct(ns[1..]) && ns[0] !in ns[1..]
  {
    var tail := ns[1..];
    forall j | 0 <= j < |tail|
      ensures tail[j] != ns[0]
    {
      assert Differ(ns, 0, j + 1);
    }
    forall i, j | 0 <= i < j < |tail|
      ensures Differ(tail, i, j)
    {
      assert Differ(ns, i + 1, j + 1);
    }
  }

  lemma {:induction false} PartsInside(parts: seq<seq<Node>>)
    ensures forall j, a :: 0 <= j < |parts| && 0 <= a < |parts[j]| ==> parts[j][a] in Concat(parts)
  {
    forall j, a | 0 <= j < |parts| && 0 <= a < |parts[j]|
      ensures parts[j][a] in Concat(parts)
    {
      var at := InConcat(parts, j, a);
    }
  }

  lemma {:induction false} SizedAt(f: seq<Tree>, n: nat, j: nat)
    requires j < n <= |f|
    ensures SizedTo(f, n)[j] == Sized(f[j])
  {
    if j < n - 1 { SizedAt(f, n - 1, j); }
  }

  lemma SizedShow(parts: seq<seq<Node>>, f: seq<Tree>, heads: seq<Node>)
    requires |parts| == |f| == |heads|
    requires forall j :: 0 <= j < |f| ==> IsSized(parts, f, j) && heads[j] == parts[j][0]
    ensures ShowsAll(Concat(parts), SizedTo(f, |f|)) && Heads(Concat(parts), SizedTo(f, |f|)) == heads
  {
    var g := SizedTo(f, |f|);
    forall j | 0 <= j < |g|
      ensures Shows(parts[j], g[j]) && heads[j] == parts[j][0]
    {
      SizedAt(f, |f|, j);
      assert IsSized(parts, f, j);
    }
    ShowParts(parts, g);
    assert Heads(Concat(parts), g) == heads;
  }

  // ---- The recursion ----

  ghost predicate IsUnsized(parts: seq<seq<Node>>, f: seq<Tree>, j: nat)
    requires j < |parts| == |f|
    reads parts[j]
  {
    Shows(parts[j], f[j])
  }

  ghost predicate IsSized(parts: seq<seq<Node>>, f: seq<Tree>, j: nat)
    requires j < |parts| == |f|
    reads parts[j]
  {
    Shows(parts[j], Sized(f[j]))
  }

  /** One child. */
  method SizeKid(child: Node, ghost parts: seq<seq<Node>>, ghost f: seq<Tree>, ghost i: nat) returns (size: int)
    requires i < |parts| == |f| && AllApart(parts) && FileSizesFit(f[i])
    requires IsUnsized(parts, f, i) && child == parts[i][0]
    modifies parts[i]
    ensures size == Wrap(Sum(f[i])) && IsSized(parts, f, i)
    ensures forall j {:trigger Apart(parts, j, i)} :: 0 <= j < |f| && j != i ==> unchanged(parts[j])
    decreases f, 0
  {
    assert Distinct(parts[i]);
    size := CalSize(child, parts[i], f[i]);
    forall j | 0 <= j < |f| && j != i
      ensures unchanged(parts[j])
    {
      assert Apart(parts, j, i);
    }
  }

  /** The loop over the children of a folder. */
  method SizeKids(node: Node, ghost below: seq<Node>, ghost parts: seq<seq<Node>>, ghost f: seq<Tree>)
    returns (size: int)
    requires |node.children| == |parts| == |f| && AllApart(parts) && node !in below
    requires forall j :: 0 <= j < |f| ==> IsUnsized(parts, f, j) && FileSizesFit(f[j])
    requires forall j :: 0 <= j < |f| ==> parts[j] != [] && node.children[j] == parts[j][0]
    requires forall j, a :: 0 <= j < |parts| && 0 <= a < |parts[j]| ==> parts[j][a] in below
    modifies below
    ensures forall j :: 0 <= j < |f| ==> IsSized(parts, f, j)
    ensures size == Wrap(SumTo(f, |f|))
    decreases f, 1
  {
    size := 0;
    var i := 0;
    ghost var children := node.children;
    while i < |node.children|
      invariant 0 <= i <= |f| && node.children == children
      invariant forall j :: 0 <= j < i ==> IsSized(parts, f, j)
      invariant forall j :: i <= j < |f| ==> IsUnsized(parts, f, j)
      invariant size == Wrap(SumTo(f, i))
    {
      label before:
      var kidSize := SizeKid(node.children[i], parts, f, i);
      forall j | 0 <= j < |f| && j != i
        ensures old@before(IsSized(parts, f, j)) ==> IsSized(parts, f, j)
        ensures old@before(IsUnsized(parts, f, j)) ==> IsUnsized(parts, f, j)
      {
        assert unchanged@before(parts[j]) by { assert Apart(parts, j, i); }
      }
      WrapAdds(SumTo(f, i), Sum(f[i]));
      size := Wrap(size + kidSize);
      i := i + 1;
    }
  }

  /** calSize: every folder gets the size of all files below it, and nothing else changes. */
  method CalSize(node: Node, ghost ns: seq<Node>, ghost t: Tree) returns (r: int)
    requires Shows(ns, t) && Distinct(ns) && node == ns[0] && FileSizesFit(t)
    modifies ns
    ensures r == Wrap(Sum(t)) && Shows(ns, Sized(t))
    ensures FilesAreLeaves(t) ==> HasSizes(t, Sized(t)) && Stands(node, Sized(t), ns)
    ensures FilesAreLeaves(t) && t.entry.url == "" ==> IsWrapped(r, Total(PreorderAll(t.kids)))
    ensures t.entry.url != "" ==> r == t.entry.size
    decreases t, 1
  {
    if FilesAreLeaves(t) { SizedHasSizes(t); }
    if node.url != "" {
      ShowsStands(ns, t, ns);
      return node.size;
    }
    ghost var below := ns[1..];
    Tail(ns);
    r := SizeBelow(node, below, t.kids);
    SetSize(node, below, SizedTo(t.kids, |t.kids|), r);
    FolderShows(ns, t);
    ShowsStands(ns, Sized(t), ns);
  }

  /** The loop over a folder's children, for all that is below it. */
  method SizeBelow(node: Node, ghost below: seq<Node>, ghost kids: seq<Tree>) returns (r: int)
    requires ShowsAll(below, kids) && Distinct(below) && node !in below && node.children == Heads(below, kids)
    requires forall j :: 0 <= j < |kids| ==> FileSizesFit(kids[j])
    modifies below
    ensures r == Wrap(SumTo(kids, |kids|)) && ShowsAll(below, SizedTo(kids, |kids|))
    ensures node.children == Heads(below, SizedTo(kids, |kids|))
    decreases kids, 2
  {
    ghost var parts := Parts(below, kids);
    ReadyParts(below, kids);
    label before:
    r := SizeKids(node, below, parts, kids);
    assert unchanged@before(node);
    SizedShow(parts, kids, node.children);
  }

  method SetSize(node: Node, ghost below: seq<Node>, ghost kids: seq<Tree>, size: int)
    requires node !in below && ShowsAll(below, kids)
    modifies node`size
    ensures ShowsAll(below, kids) && node.size == size
  {
    label before:
    node.size := size;
    assert unchanged@before(below);
  }

  lemma FolderShows(ns: seq<Node>, t: Tree)
    requires ns != [] && !IsFile(t.entry) && ns[0].Value() == t.entry.(size := Wrap(Sum(t)))
    requires ns[0].children == Heads(ns[1..], SizedTo(t.kids, |t.kids|)) && ShowsAll(ns[1..], SizedTo(t.kids, |t.kids|))
    ensures Shows(ns, Sized(t))
  {
  }

  lemma ReadyParts(below: seq<Node>, f: seq<Tree>)
    requires ShowsAll(below, f)
    ensures var parts := Parts(below, f);
            && Concat(parts) == below && |Heads(below, f)| == |f| && (Distinct(below) ==> AllApart(parts))
            && (forall j :: 0 <= j < |f| ==> IsUnsized(parts, f, j))
            && (forall j :: 0 <= j < |f| ==> parts[j] != [] && parts[j][0] == Heads(below, f)[j])
            && (forall j, a :: 0 <= j < |parts| && 0 <= a < |parts[j]| ==> parts[j][a] in below)
  {
    var parts := Parts(below, f);
    PartsShow(below, f);
    PartsInside(parts);
    if Distinct(below) { DistinctParts(parts); }
  }

  lemma {:induction false} SizesFit(t: Tree)
    requires forall i :: 0 <= i < |Preorder(t)| ==> IsInt64(Preorder(t)[i].size)
    ensures FileSizesFit(t)
    decreases t
  {
    assert Preorder(t)[0] == t.entry;
    forall k | 0 <= k < |t.kids|
      ensures FileSizesFit(t.kids[k])
    {
      KidsSizes(t.kids, k);
      assert forall i :: 0 <= i < |PreorderAll(t.kids)| ==> PreorderAll(t.kids)[i] == Preorder(t)[i + 1];
      SizesFit(t.kids[k]);
    }
  }

  lemma {:induction false} KidsSizes(f: seq<Tree>, k: nat)
    requires k < |f|
    ensures forall i :: 0 <= i < |Preorder(f[k])| ==> Preorder(f[k])[i] in PreorderAll(f)
  {
    if k > 0 { KidsSizes(f[1..], k - 1); }
  }

  /** The driver's start: build the tree, then fill in the sizes of its folders. */
  method Init(text: string, env: Env) returns (root: Node?, ghost all: seq<Node>)
    requires IsInt64(env.now)
    ensures ParseText(text, env).None? <==> root == null
    ensures root != null ==>
              all != [] && all[0] == root && Distinct(all) && Shows(all, Sized(Build(ParseText(text, env).value)))
    ensures root != null ==>
              exists u :: HasSizes(Build(ParseText(text, env).value), u) && Stands(root, u, all)
  {
    root, all := BuildTree(text, env);
    if root != null {
      ghost var es := ParseText(text, env).value;
      ReadTreeIsNested(text, env);
      assert forall i :: 0 <= i < |[Root] + es| ==> IsInt64(([Root] + es)[i].size);
      SizesFit(Build(es));
      NestedLeaves(Build(es));
      var _ := CalSize(root, all, Build(es));
    }
  }
}
