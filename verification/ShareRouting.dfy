/** Finding the share that a query path belongs to, and the conflict check that makes it unambiguous. */
module ShareRouting {
  import opened Wrappers
  import opened Paths
  import opened VirtualPaths
  import opened ShareForest

  type Route = Option<(RootFile, string)>

  // ---- Conflicts ----

  /** No share lies below a share with another id. */
  ghost predicate NoConflict(configs: map<string, string>) {
    forall p, q :: p in configs && q in configs && Under(p, q) ==> configs[p] == configs[q]
  }

  method DetectPathConflicts(configs: map<string, string>) returns (ok: bool)
    ensures ok <==> NoConflict(configs)
  {
    var outer := configs.Keys;
    while outer != {}
      invariant outer <= configs.Keys
      invariant forall p, q :: p in configs.Keys - outer && q in configs && (Under(p, q) || Under(q, p)) ==>
                                 configs[p] == configs[q]
    {
      var path1 :| path1 in outer;
      var inner := configs.Keys;
      while inner != {}
        invariant inner <= configs.Keys
        invariant forall q :: q in configs.Keys - inner && (Under(path1, q) || Under(q, path1)) ==>
                                configs[path1] == configs[q]
      {
        var path2 :| path2 in inner;
        if path1 != path2 && configs[path1] != configs[path2] {
          UnderIsPrefix(path1, path2);
          UnderIsPrefix(path2, path1);
          if path1 + "/" <= path2 || path2 + "/" <= path1 { return false; }
        }
        inner := inner - {path2};
      }
      outer := outer - {path1};
    }
    return true;
  }

  // ---- The recursive search ----

  /** The second loop: a share of the root directory is addressed by its id. */
  function RootShare(items: seq<RootFile>, path: string, i: nat): Route
    requires i <= |items|
    decreases |items| - i
  {
    if i == |items| then None
    else
      var rf, n := items[i], IndexOf(path, '/');
      if rf.virtualPath == "" && rf.shareId != "" && path[..n] == rf.shareId then
        Some((rf, if n < |path| then path[n + 1..] else ""))
      else RootShare(items, path, i + 1)
  }

  /** What the search may be called on: nodes of the forest, no shorter than d, and empty root shares. */
  ghost predicate Searchable(r: RootMap, n: nat, d: nat, items: seq<RootFile>)
    reads r, r.Lists(), set f | f in items :: f.child
  {
    && r.Sound() && d <= n + 1
    && (forall k :: k in r.m ==> |k| <= n)
    && (forall f :: f in items ==>
          if f.virtualPath == "" then f.child.items == []
          else f.virtualPath in r.m && r.m[f.virtualPath] == f && |f.virtualPath| >= d)
  }

  lemma ChildrenSearchable(r: RootMap, n: nat, d: nat, items: seq<RootFile>, f: RootFile)
    requires Searchable(r, n, d, items) && f in items && f.child.items != []
    ensures f.virtualPath != "" && Searchable(r, n, |f.virtualPath| + 1, f.child.items)
  {
    forall g | g in f.child.items
      ensures |g.virtualPath| >= |f.virtualPath| + 1
    {
      ParentAbove(g.virtualPath);
    }
  }

  /** The first loop, from position i on. */
  function Scan(ghost r: RootMap, ghost n: nat, ghost d: nat, items: seq<RootFile>, path: string, i: nat): Route
    requires Searchable(r, n, d, items) && i <= |items|
    reads r, r.Lists(), set f | f in items :: f.child
    decreases n + 1 - d, |items| - i
  {
    if i == |items| then None
    else
      var rf := items[i];
      if rf.virtualPath == path then Some((rf, ""))
      else if rf.virtualPath != "" && rf.virtualPath + "/" <= path then
        var below := Below(r, n, d, items, path, i);
        if below.Some? then below else Some((rf, path[|rf.virtualPath| + 1..]))
      else
        var below := Below(r, n, d, items, path, i);
        if below.Some? then below else Scan(r, n, d, items, path, i + 1)
  }

  function Below(ghost r: RootMap, ghost n: nat, ghost d: nat, items: seq<RootFile>, path: string, i: nat): Route
    requires Searchable(r, n, d, items) && i < |items|
    reads r, r.Lists(), set f | f in items :: f.child
    decreases n + 1 - d, |items| - i, 0
  {
    if |items[i].child.items| > 0 then
      ChildrenSearchable(r, n, d, items, items[i]);
      FindShareByPath(r, n, |items[i].virtualPath| + 1, items[i].child.items, path)
    else None
  }

  function FindShareByPath(ghost r: RootMap, ghost n: nat, ghost d: nat, items: seq<RootFile>, path: string): Route
    requires Searchable(r, n, d, items)
    reads r, r.Lists(), set f | f in items :: f.child
    decreases n + 1 - d, |items| + 1
  {
    var found := Scan(r, n, d, items, path, 0);
    if found.Some? then found else RootShare(items, path, 0)
  }

  // ---- Where the search ends up ----

  /** The longest virtual path at or above the query. */
  ghost predicate Longest(r: RootMap, q: string, a: string)
    reads r
  {
    && a in r.m && AtOrUnder(a, q)
    && forall b {:trigger AtOrUnder(b, q)} :: b in r.m && AtOrUnder(b, q) ==> |b| <= |a|
  }

  /** The part of the query below a. */
  function Rest(a: string, q: string): string
    requires AtOrUnder(a, q)
  {
    if a == q then "" else q[|a| + 1..]
  }

  /** The route names the node with the longest path at or above the query, and the rest of the query. */
  ghost predicate Routed(r: RootMap, q: string, route: Route)
    reads r
  {
    && route.Some?
    && var a := route.value.0.virtualPath;
    && Longest(r, q, a) && route.value == (r.m[a], Rest(a, q))
  }

  ghost predicate HasItem(items: seq<RootFile>, i: nat, q: string) {
    exists f :: i <= f < |items| && items[f].virtualPath != "" && AtOrUnder(items[f].virtualPath, q)
  }

  ghost predicate HasStep(r: RootMap, k: string, q: string)
    reads r
  {
    exists c :: c in r.m && HasParent(c) && Parent(c) == k && AtOrUnder(c, q)
  }

  lemma {:induction false} ScanFinds(r: RootMap, n: nat, d: nat, items: seq<RootFile>, q: string, i: nat)
    requires Searchable(r, n, d, items) && r.UpLinked() && q != "" && i <= |items|
    ensures if HasItem(items, i, q) then Routed(r, q, Scan(r, n, d, items, q, i))
            else Scan(r, n, d, items, q, i) == None
    decreases n + 1 - d, |items| - i
  {
    if i < |items| {
      var k := items[i].virtualPath;
      UnderIsPrefix(k, q);
      if k == q {
        assert Longest(r, q, k);
        assert HasItem(items, i, q);
      } else if k != "" && Under(k, q) {
        assert HasItem(items, i, q);
        BelowFinds(r, n, d, items, q, i);
        if !HasStep(r, k, q) { NothingBelow(r, k, q); }
      } else {
        BelowFinds(r, n, d, items, q, i);
        if k != "" && HasStep(r, k, q) {
          var c :| c in r.m && HasParent(c) && Parent(c) == k && AtOrUnder(c, q);
          ParentAbove(c);
          UnderTransitive(k, c, q);
          assert false;
        }
        ScanFinds(r, n, d, items, q, i + 1);
        assert HasItem(items, i, q) <==> HasItem(items, i + 1, q);
      }
    }
  }

  lemma {:induction false} BelowFinds(r: RootMap, n: nat, d: nat, items: seq<RootFile>, q: string, i: nat)
    requires Searchable(r, n, d, items) && r.UpLinked() && q != "" && i < |items|
    ensures var k := items[i].virtualPath;
            if k != "" && HasStep(r, k, q) then Routed(r, q, Below(r, n, d, items, q, i))
            else Below(r, n, d, items, q, i) == None
    decreases n + 1 - d, |items| - i, 0
  {
    var k, below := items[i].virtualPath, items[i].child.items;
    if k != "" { StepIsItem(r, k, q); }
    if below != [] {
      ChildrenSearchable(r, n, d, items, items[i]);
      ScanFinds(r, n, |k| + 1, below, q, 0);
      NoRootShare(below, q, 0);
    }
  }

  /** A child of k on the way to q is in k's list. */
  lemma StepIsItem(r: RootMap, k: string, q: string)
    requires r.Sound() && r.UpLinked() && k in r.m
    ensures HasStep(r, k, q) <==> HasItem(r.m[k].child.items, 0, q)
  {
    if HasStep(r, k, q) {
      var c :| c in r.m && HasParent(c) && Parent(c) == k && AtOrUnder(c, q);
      assert r.Copies(c) >= 1;
      assert r.m[c] in r.m[k].child.items;
    }
    if HasItem(r.m[k].child.items, 0, q) {
      var j :| 0 <= j < |r.m[k].child.items| && AtOrUnder(r.m[k].child.items[j].virtualPath, q);
      assert r.m[k].child.items[j] in r.m[k].child.items;
    }
  }

  lemma {:induction false} NoRootShare(items: seq<RootFile>, q: string, i: nat)
    requires i <= |items| && forall f :: f in items ==> f.virtualPath != ""
    ensures RootShare(items, q, i) == None
    decreases |items| - i
  {
    if i < |items| { NoRootShare(items, q, i + 1); }
  }

  /** With no child of k on the way to q, nothing longer than k is. */
  lemma NothingBelow(r: RootMap, k: string, q: string)
    requires r.Sound() && r.UpLinked() && k in r.m && AtOrUnder(k, q) && !HasStep(r, k, q)
    ensures Longest(r, q, k)
  {
    forall b | b in r.m && AtOrUnder(b, q)
      ensures |b| <= |k|
    {
      if |b| > |k| {
        AboveSame(k, b, q);
        var c := StepToward(k, b);
        UnderTransitive(c, b, q);
        r.ReachesUp(c, b);
        assert false;
      }
    }
  }

  /** Above every node there is one in the extracted list. */
  lemma {:induction false} TopAbove(r: RootMap, b: string) returns (a: string)
    requires r.Sound() && r.UpLinked() && b in r.m
    ensures r.IsTop(a) && AtOrUnder(a, b)
    decreases |b|
  {
    if r.IsTop(b) {
      a := b;
    } else {
      ParentAbove(b);
      a := TopAbove(r, Parent(b));
      UnderTransitive(a, Parent(b), b);
    }
  }

  /**
   The search over the whole forest returns the node whose virtual path is the longest one at or
   above the query, and what is left of the query; only when there is none does it fall back to
   the shares of the root directory.
   */
  lemma SearchIsLongestMatch(r: RootMap, configs: map<string, string>, rootShares: seq<string>, top: seq<RootFile>,
                             n: nat, q: string)
    requires r.Built(configs) && r.Extracted(top, rootShares) && q != ""
    requires forall k :: k in r.m ==> |k| <= n
    ensures Searchable(r, n, 0, top)
    ensures if exists a :: a in r.m && AtOrUnder(a, q)
            then Routed(r, q, FindShareByPath(r, n, 0, top, q))
            else RootAnswer(top, q, 0, FindShareByPath(r, n, 0, top, q))
  {
    TopSearchable(r, rootShares, top, n);
    ScanFinds(r, n, 0, top, q, 0);
    RootShareAnswers(top, q, 0);
    if exists b :: b in r.m && AtOrUnder(b, q) {
      var b :| b in r.m && AtOrUnder(b, q);
      TopItem(r, rootShares, top, b, q);
    }
    if HasItem(top, 0, q) {
      var j :| 0 <= j < |top| && top[j].virtualPath != "" && AtOrUnder(top[j].virtualPath, q);
      r.TopIs(top, rootShares, top[j]);
    }
  }

  lemma TopSearchable(r: RootMap, rootShares: seq<string>, top: seq<RootFile>, n: nat)
    requires r.Sound() && r.Extracted(top, rootShares) && forall k :: k in r.m ==> |k| <= n
    ensures Searchable(r, n, 0, top)
  {
    forall f | f in top
      ensures if f.virtualPath == "" then f.child.items == []
              else f.virtualPath in r.m && r.m[f.virtualPath] == f
    {
      r.TopIs(top, rootShares, f);
    }
  }

  /** A share of the root directory is addressed by its id, alone or with more behind a slash. */
  predicate AddressedBy(rf: RootFile, q: string) {
    && rf.virtualPath == "" && rf.shareId != "" && '/' !in rf.shareId
    && (q == rf.shareId || rf.shareId + "/" <= q)
  }

  /** The first share of the root directory that is addressed, and what is behind its id. */
  ghost predicate RootAnswer(items: seq<RootFile>, q: string, i: nat, route: Route)
    requires i <= |items|
  {
    match route
    case None => forall j :: i <= j < |items| ==> !AddressedBy(items[j], q)
    case Some((rf, rest)) =>
      exists j :: i <= j < |items| && items[j] == rf && AddressedBy(rf, q)
                  && ((q == rf.shareId && rest == "") || q == rf.shareId + "/" + rest)
                  && forall k :: i <= k < j ==> !AddressedBy(items[k], q)
  }

  lemma {:induction false} RootShareAnswers(items: seq<RootFile>, q: string, i: nat)
    requires i <= |items|
    ensures RootAnswer(items, q, i, RootShare(items, q, i))
    decreases |items| - i
  {
    if i < |items| {
      RootShareAnswers(items, q, i + 1);
      AddressedFirst(items[i], q);
      if AddressedBy(items[i], q) {
        assert RootShare(items, q, i).value.0 == items[i];
      }
    }
  }

  lemma AddressedFirst(rf: RootFile, q: string)
    ensures var n := IndexOf(q, '/');
            && (AddressedBy(rf, q) <==> rf.virtualPath == "" && rf.shareId != "" && q[..n] == rf.shareId)
            && (AddressedBy(rf, q) ==>
                  if n < |q| then q == rf.shareId + "/" + q[n + 1..] else q == rf.shareId)
  {
    FirstPartIs(q, rf.shareId);
  }

  lemma FirstPartIs(q: string, id: string)
    ensures var n := IndexOf(q, '/');
            && q == (if n < |q| then q[..n] + "/" + q[n + 1..] else q[..n]) && '/' !in q[..n]
            && ('/' !in id && (q == id || id + "/" <= q) <==> q[..n] == id)
  {
    var n := IndexOf(q, '/');
    CutAt(q, n);
    if '/' !in id && (q == id || id + "/" <= q) { HeadOf(q, id); }
    if q[..n] == id && n < |q| { StartsSo(id, q[n + 1..], q); }
  }

  lemma CutAt(q: string, n: nat)
    requires n <= |q| && (n < |q| ==> q[n] == '/') && forall k :: 0 <= k < n ==> q[k] != '/'
    ensures q == (if n < |q| then q[..n] + "/" + q[n + 1..] else q[..n]) && '/' !in q[..n]
  {
  }

  lemma HeadOf(q: string, id: string)
    requires '/' !in id && (q == id || id + "/" <= q)
    ensures IndexOf(q, '/') == |id| && q[..|id|] == id
  {
    if q != id { assert q[|id|] == (id + "/")[|id|]; }
    assert forall k :: 0 <= k < |id| ==> q[k] == id[k];
    IndexOfIs(q, '/', |id|);
  }

  lemma StartsSo(id: string, rest: string, q: string)
    requires q == id + "/" + rest
    ensures id + "/" <= q
  {
  }

  /** With a node at or above the query, one of the extracted nodes is. */
  lemma TopItem(r: RootMap, rootShares: seq<string>, top: seq<RootFile>, b: string, q: string)
    requires r.Sound() && r.UpLinked() && r.Extracted(top, rootShares) && b in r.m && AtOrUnder(b, q)
    ensures HasItem(top, 0, q)
  {
    var a := TopAbove(r, b);
    UnderTransitive(a, b, q);
    r.TopHas(top, rootShares, a);
    var j :| 0 <= j < |top| && top[j] == r.m[a];
    assert top[j].virtualPath == a;
  }

  lemma RestIsRest(a: string, q: string)
    requires AtOrUnder(a, q)
    ensures q == if a == q then a else a + "/" + Rest(a, q)
  {
    if a != q { UnderIsPrefix(a, q); }
  }

  /** On the way from p to q, p apart, there is a node of the forest. */
  ghost predicate NodeBetween(configs: map<string, string>, p: string, q: string) {
    exists a :: InClosure(configs, a) && Under(p, a) && AtOrUnder(a, q)
  }

  /**
   A query at or below a configured share is routed to that share, with the rest of the query, if
   and only if no node of the forest is nearer to it. If the conflict check has passed, the id
   that it is routed to is the share's whenever the nearest node is a configured share.
   */
  lemma ShareGetsItsPaths(r: RootMap, configs: map<string, string>, rootShares: seq<string>, top: seq<RootFile>,
                          n: nat, p: string, q: string)
    requires r.Built(configs) && r.Extracted(top, rootShares)
    requires forall k :: k in r.m ==> |k| <= n
    requires p in configs && p != "" && AtOrUnder(p, q)
    ensures Searchable(r, n, 0, top) && p in r.m && q == if p == q then p else p + "/" + Rest(p, q)
    ensures var route := FindShareByPath(r, n, 0, top, q);
            && route.Some?
            && (route == Some((r.m[p], Rest(p, q))) <==> !NodeBetween(configs, p, q))
            && (NoConflict(configs) ==>
                  (route.value.0.shareId == configs[p] <==> route.value.0.virtualPath in configs || configs[p] == ""))
  {
    SearchIsLongestMatch(r, configs, rootShares, top, n, q);
    RestIsRest(p, q);
    var a := FindShareByPath(r, n, 0, top, q).value.0.virtualPath;
    assert InClosure(configs, p) && InClosure(configs, a);
    assert p in r.m && |p| <= |a|;
    if |a| > |p| {
      AboveSame(p, a, q);
      assert NodeBetween(configs, p, q);
    } else {
      SameLength(p, a, q);
    }
    if NodeBetween(configs, p, q) {
      var b :| InClosure(configs, b) && Under(p, b) && AtOrUnder(b, q);
      UnderIsPrefix(p, b);
      assert b in r.m && |b| <= |a|;
    }
  }

  /** After the conflict check, a share without one of the same id beneath it gets all its queries. */
  lemma AloneGetsItsPaths(r: RootMap, configs: map<string, string>, rootShares: seq<string>, top: seq<RootFile>,
                          n: nat, p: string, q: string)
    requires r.Built(configs) && r.Extracted(top, rootShares) && NoConflict(configs)
    requires forall k :: k in r.m ==> |k| <= n
    requires p in configs && p != "" && AtOrUnder(p, q)
    requires forall s :: s in configs && Under(p, s) ==> configs[s] != configs[p]
    ensures Searchable(r, n, 0, top) && p in r.m
    ensures FindShareByPath(r, n, 0, top, q) == Some((r.m[p], Rest(p, q)))
  {
    ShareGetsItsPaths(r, configs, rootShares, top, n, p, q);
    if NodeBetween(configs, p, q) {
      var a :| InClosure(configs, a) && Under(p, a) && AtOrUnder(a, q);
      var s :| s in configs && AtOrUnder(a, s);
      UnderTransitive(p, a, s);
      assert false;
    }
  }

  // ---- Finding a node by its exact path ----

  function FindNodeByPath(ghost r: RootMap, ghost n: nat, ghost d: nat, items: seq<RootFile>, path: string,
                          i: nat): Option<RootFile>
    requires Searchable(r, n, d, items) && i <= |items|
    reads r, r.Lists(), set f | f in items :: f.child
    decreases n + 1 - d, |items| - i
  {
    if i == |items| then None
    else if items[i].virtualPath == path then Some(items[i])
    else
      var below := NodeBelow(r, n, d, items, path, i);
      if below.Some? then below else FindNodeByPath(r, n, d, items, path, i + 1)
  }

  function NodeBelow(ghost r: RootMap, ghost n: nat, ghost d: nat, items: seq<RootFile>, path: string,
                     i: nat): Option<RootFile>
    requires Searchable(r, n, d, items) && i < |items|
    reads r, r.Lists(), set f | f in items :: f.child
    decreases n + 1 - d, |items| - i, 0
  {
    if |items[i].child.items| > 0 then
      ChildrenSearchable(r, n, d, items, items[i]);
      FindNodeByPath(r, n, |items[i].virtualPath| + 1, items[i].child.items, path, 0)
    else None
  }

  lemma {:induction false} NodeIsFound(r: RootMap, n: nat, d: nat, items: seq<RootFile>, q: string, i: nat)
    requires Searchable(r, n, d, items) && r.UpLinked() && q != "" && i <= |items|
    ensures FindNodeByPath(r, n, d, items, q, i) == if q in r.m && HasItem(items, i, q) then Some(r.m[q]) else None
    decreases n + 1 - d, |items| - i
  {
    if i < |items| {
      var k := items[i].virtualPath;
      if k == q {
        assert HasItem(items, i, q);
      } else {
        NodeIsBelow(r, n, d, items, q, i);
        NodeIsFound(r, n, d, items, q, i + 1);
        assert HasItem(items, i, q) <==> (k != "" && AtOrUnder(k, q)) || HasItem(items, i + 1, q);
      }
    }
  }

  lemma {:induction false} NodeIsBelow(r: RootMap, n: nat, d: nat, items: seq<RootFile>, q: string, i: nat)
    requires Searchable(r, n, d, items) && r.UpLinked() && q != "" && i < |items|
    ensures var k := items[i].virtualPath;
            NodeBelow(r, n, d, items, q, i) == if q in r.m && k != "" && Under(k, q) then Some(r.m[q]) else None
    decreases n + 1 - d, |items| - i, 0
  {
    var k, below := items[i].virtualPath, items[i].child.items;
    if k != "" {
      StepIsItem(r, k, q);
      StepIff(r, k, q);
    }
    if below != [] {
      ChildrenSearchable(r, n, d, items, items[i]);
      NodeIsFound(r, n, |k| + 1, below, q, 0);
    }
  }

  /** A node below k has a child of k on the way to it. */
  lemma StepIff(r: RootMap, k: string, q: string)
    requires r.Sound() && r.UpLinked() && k in r.m
    ensures HasStep(r, k, q) ==> Under(k, q)
    ensures q in r.m && Under(k, q) ==> HasStep(r, k, q)
  {
    if HasStep(r, k, q) {
      var c :| c in r.m && HasParent(c) && Parent(c) == k && AtOrUnder(c, q);
      ParentAbove(c);
      UnderTransitive(k, c, q);
    }
    if q in r.m && Under(k, q) {
      var c := StepToward(k, q);
      ParentAbove(c);
      r.ReachesUp(c, q);
    }
  }

  /** The search for a node finds every path of the forest, and no other. */
  lemma NodeByPathIff(r: RootMap, configs: map<string, string>, rootShares: seq<string>, top: seq<RootFile>,
                      n: nat, q: string)
    requires r.Built(configs) && r.Extracted(top, rootShares) && q != ""
    requires forall k :: k in r.m ==> |k| <= n
    ensures Searchable(r, n, 0, top)
    ensures InClosure(configs, q) ==> q in r.m && FindNodeByPath(r, n, 0, top, q, 0) == Some(r.m[q])
    ensures !InClosure(configs, q) ==> FindNodeByPath(r, n, 0, top, q, 0) == None
  {
    assert InClosure(configs, q) <==> q in r.m;
    NodeIsFound(r, n, 0, top, q, 0);
    if q in r.m {
      var a := TopAbove(r, q);
      assert r.m[a] in top;
      var j :| 0 <= j < |top| && top[j] == r.m[a];
      assert HasItem(top, 0, q);
    }
  }
}
