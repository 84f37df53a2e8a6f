/**
 Directories over a flat blob store: a directory is a common name prefix, with or without a
 marker blob. Moving one copies blob after blob and then deletes in batches; any remote call may
 fail.
 */
module BlobFolders {
  import opened Batching
  import opened PathJoin

  /** The folder flag stands for the metadata or content type that marks a directory. */
  datatype Blob = Blob(content: string, folder: bool)

  datatype Item = Item(name: string, blob: Blob)

  type Store = map<string, Blob>

  const MAX_BATCH_SIZE := 128

  const Marker := Blob("", true)

  predicate EndsWithSlash(s: string) { s != "" && s[|s| - 1] == '/' }

  function EnsureTrailingSlash(s: string): string { if EndsWithSlash(s) then s else s + "/" }

  /** strings.TrimSuffix(s, "/"). */
  function TrimSlash(s: string): string { if EndsWithSlash(s) then s[..|s| - 1] else s }

  predicate IsDirectory(name: string, b: Blob) { EndsWithSlash(name) || b.folder }

  /** The listing of a prefix: each blob under it once, in any order. */
  ghost predicate IsListing(items: seq<Item>, store: Store, prefix: string) {
    && (forall i :: 0 <= i < |items| ==>
          items[i].name in store && prefix <= items[i].name && store[items[i].name] == items[i].blob)
    && (forall k :: k in store && prefix <= k ==> Item(k, store[k]) in items)
    && (forall i, j :: 0 <= i < j < |items| ==> items[i].name != items[j].name)
  }

  // ---- Deleting in batches ----

  function Names(paths: seq<string>): set<string> { set p | p in paths }

  /** now is old without some of the names that may go, and nothing else has changed. */
  ghost predicate OnlyRemoved(old': Store, now: Store, may: set<string>) {
    && (forall k :: k in now ==> k in old' && now[k] == old'[k])
    && (forall k :: k in old' && k !in may ==> k in now)
  }

  /** The number of slashes in a name. */
  function Depth(s: string): nat {
    if s == "" then 0 else (if s[0] == '/' then 1 else 0) + Depth(s[1..])
  }

  function FilesOf(items: seq<Item>): seq<string> {
    if items == [] then []
    else (if IsDirectory(items[0].name, items[0].blob) then [] else [items[0].name]) + FilesOf(items[1..])
  }

  function DirsOf(items: seq<Item>): seq<string> {
    if items == [] then []
    else (if IsDirectory(items[0].name, items[0].blob) then [TrimSlash(items[0].name)] else []) + DirsOf(items[1..])
  }

  /** The directories of one depth, in listing order. */
  function AtDepth(dirs: seq<string>, d: nat): seq<string> {
    if dirs == [] then []
    else (if Depth(dirs[0]) == d then [dirs[0]] else []) + AtDepth(dirs[1..], d)
  }

  /** The delete requests for the directories no deeper than d, deepest first. */
  function DirBatches(dirs: seq<string>, d: int): seq<seq<string>>
    decreases d
  {
    if d < 0 then [] else Batches(AtDepth(dirs, d), MAX_BATCH_SIZE) + DirBatches(dirs, d - 1)
  }

  function MaxDepth(dirs: seq<string>): nat {
    if dirs == [] then 0
    else var m := MaxDepth(dirs[1..]); if Depth(dirs[0]) > m then Depth(dirs[0]) else m
  }

  lemma {:induction false} AtDepthNames(dirs: seq<string>, d: nat)
    ensures forall p :: p in AtDepth(dirs, d) <==> p in dirs && Depth(p) == d
  {
    if dirs != [] { AtDepthNames(dirs[1..], d); }
  }

  lemma {:induction false} MaxDepthBounds(dirs: seq<string>)
    ensures forall p :: p in dirs ==> Depth(p) <= MaxDepth(dirs)
  {
    if dirs != [] { MaxDepthBounds(dirs[1..]); }
  }

  lemma FilesAndDirs(items: seq<Item>)
    ensures forall p :: p in FilesOf(items) <==>
              exists i :: 0 <= i < |items| && !IsDirectory(items[i].name, items[i].blob) && p == items[i].name
    ensures forall p :: p in DirsOf(items) <==>
              exists i :: 0 <= i < |items| && IsDirectory(items[i].name, items[i].blob) && p == TrimSlash(items[i].name)
  {
    forall p
      ensures p in FilesOf(items) <==>
              exists i :: 0 <= i < |items| && !IsDirectory(items[i].name, items[i].blob) && p == items[i].name
      ensures p in DirsOf(items) <==>
              exists i :: 0 <= i < |items| && IsDirectory(items[i].name, items[i].blob) && p == TrimSlash(items[i].name)
    {
      FileListed(items, p);
      DirListed(items, p);
    }
  }

  lemma {:induction false} FileListed(items: seq<Item>, p: string)
    ensures p in FilesOf(items) <==>
            exists i :: 0 <= i < |items| && !IsDirectory(items[i].name, items[i].blob) && p == items[i].name
  {
    if items != [] {
      var rest := items[1..];
      FileListed(rest, p);
      if p in FilesOf(rest) {
        var i :| 0 <= i < |rest| && !IsDirectory(rest[i].name, rest[i].blob) && p == rest[i].name;
        assert items[i + 1] == rest[i];
      }
      assert forall i :: 1 <= i < |items| ==> items[i] == rest[i - 1];
    }
  }

  lemma {:induction false} DirListed(items: seq<Item>, p: string)
    ensures p in DirsOf(items) <==>
            exists i :: 0 <= i < |items| && IsDirectory(items[i].name, items[i].blob) && p == TrimSlash(items[i].name)
  {
    if items != [] {
      var rest := items[1..];
      DirListed(rest, p);
      if p in DirsOf(rest) {
        var i :| 0 <= i < |rest| && IsDirectory(rest[i].name, rest[i].blob) && p == TrimSlash(rest[i].name);
        assert items[i + 1] == rest[i];
      }
      assert forall i :: 1 <= i < |items| ==> items[i] == rest[i - 1];
    }
  }

  /** The blob that a delete of the folder removes for k. */
  function SweptName(store: Store, k: string): string
    requires k in store
  {
    if IsDirectory(k, store[k]) then TrimSlash(k) else k
  }

  /** Every name that deleting the folder removes. */
  function Swept(store: Store, prefix: string): set<string> {
    (set k | k in store && prefix <= k :: SweptName(store, k)) + {TrimSlash(prefix), prefix}
  }

  lemma SweptIs(items: seq<Item>, store: Store, prefix: string)
    requires IsListing(items, store, prefix)
    ensures Swept(store, prefix) == Names(FilesOf(items)) + Names(DirsOf(items)) + {TrimSlash(prefix), prefix}
  {
    forall k | k in store && prefix <= k
      ensures SweptName(store, k) in Names(FilesOf(items)) + Names(DirsOf(items))
    {
      SweptIsListed(items, store, prefix, k);
    }
    forall p | p in FilesOf(items) || p in DirsOf(items)
      ensures p in Swept(store, prefix)
    {
      FilesAndDirs(items);
      var i :| 0 <= i < |items| && p == SweptName(store, items[i].name);
    }
  }

  lemma SweptIsListed(items: seq<Item>, store: Store, prefix: string, k: string)
    requires IsListing(items, store, prefix) && k in store && prefix <= k
    ensures SweptName(store, k) in Names(FilesOf(items)) + Names(DirsOf(items))
  {
    FilesAndDirs(items);
    var i :| 0 <= i < |items| && items[i] == Item(k, store[k]);
  }

  /** The directories deeper than d. */
  function Deeper(dirs: seq<string>, d: int): set<string> { set p | p in dirs && Depth(p) > d }

  /** Where a name in one of the batches came from. */
  lemma DirBatchAt(dirs: seq<string>, d: nat, i: nat, p: string)
    requires i < |DirBatches(dirs, d)| && p in DirBatches(dirs, d)[i]
    ensures var n := |Batches(AtDepth(dirs, d), MAX_BATCH_SIZE)|;
            if i < n then p in dirs && Depth(p) == d
            else i - n < |DirBatches(dirs, d - 1)| && DirBatches(dirs, d)[i] == DirBatches(dirs, d - 1)[i - n]
  {
    var here := AtDepth(dirs, d);
    if i < |Batches(here, MAX_BATCH_SIZE)| {
      InFlatten(Batches(here, MAX_BATCH_SIZE), i, p);
      BatchesAreSmall(here, MAX_BATCH_SIZE);
      AtDepthNames(dirs, d);
    }
  }

  lemma {:induction false} DirBatchDepth(dirs: seq<string>, d: int, i: nat, p: string)
    requires i < |DirBatches(dirs, d)| && p in DirBatches(dirs, d)[i]
    ensures p in dirs && Depth(p) <= d
    decreases d
  {
    DirBatchAt(dirs, d, i, p);
    var n := |Batches(AtDepth(dirs, d), MAX_BATCH_SIZE)|;
    if i >= n { DirBatchDepth(dirs, d - 1, i - n, p); }
  }

  /** No directory is asked for before a deeper one. */
  lemma {:induction false} DeepestFirst(dirs: seq<string>, d: int, i: nat, j: nat, p: string, q: string)
    requires i < j < |DirBatches(dirs, d)| && p in DirBatches(dirs, d)[i] && q in DirBatches(dirs, d)[j]
    ensures Depth(p) >= Depth(q)
    decreases d
  {
    DirBatchAt(dirs, d, i, p);
    DirBatchAt(dirs, d, j, q);
    var n := |Batches(AtDepth(dirs, d), MAX_BATCH_SIZE)|;
    if i >= n { DeepestFirst(dirs, d - 1, i - n, j - n, p, q); }
    else if j >= n { DirBatchDepth(dirs, d - 1, j - n, q); }
  }

  lemma {:induction false} DepthConcat(a: string, b: string)
    ensures Depth(a + b) == Depth(a) + Depth(b)
  {
    if a == "" {
      assert a + b == b;
    } else {
      assert (a + b)[0] == a[0] && (a + b)[1..] == a[1..] + b;
      DepthConcat(a[1..], b);
    }
  }

  lemma DepthInside(q: string, p: string)
    requires q + "/" <= p
    ensures Depth(q) < Depth(p)
  {
    assert p == q + "/" + p[|q| + 1..];
    DepthConcat(q + "/", p[|q| + 1..]);
    DepthConcat(q, "/");
    assert "/"[1..] == "";
  }

  lemma {:induction false} OneDepth(dirs: seq<string>, d: int, i: nat, p: string, q: string)
    requires i < |DirBatches(dirs, d)| && p in DirBatches(dirs, d)[i] && q in DirBatches(dirs, d)[i]
    ensures Depth(p) == Depth(q)
    decreases d
  {
    DirBatchAt(dirs, d, i, p);
    DirBatchAt(dirs, d, i, q);
    var n := |Batches(AtDepth(dirs, d), MAX_BATCH_SIZE)|;
    if i >= n { OneDepth(dirs, d - 1, i - n, p, q); }
  }

  /** A directory inside another is asked for in an earlier request. */
  lemma InnerFirst(dirs: seq<string>, d: int, i: nat, j: nat, p: string, q: string)
    requires i < |DirBatches(dirs, d)| && p in DirBatches(dirs, d)[i]
    requires j < |DirBatches(dirs, d)| && q in DirBatches(dirs, d)[j]
    requires q + "/" <= p
    ensures i < j
  {
    DepthInside(q, p);
    if i == j { OneDepth(dirs, d, i, p, q); }
    if j < i { DeepestFirst(dirs, d, j, i, q, p); }
  }

  /** The requests hold at most 128 names each, and together exactly the directories up to that depth. */
  lemma {:induction false} DirBatchesComplete(dirs: seq<string>, d: int)
    ensures forall p :: p in Flatten(DirBatches(dirs, d)) <==> p in dirs && Depth(p) <= d
    ensures forall i :: 0 <= i < |DirBatches(dirs, d)| ==> 0 < |DirBatches(dirs, d)[i]| <= 128
    decreases d
  {
    if d >= 0 {
      AtDepthNames(dirs, d);
      BatchesAreSmall(AtDepth(dirs, d), MAX_BATCH_SIZE);
      FlattenConcat(Batches(AtDepth(dirs, d), MAX_BATCH_SIZE), DirBatches(dirs, d - 1));
      DirBatchesComplete(dirs, d - 1);
    }
  }

  /** Depths without directories need no requests. */
  lemma {:induction false} SkipDepths(dirs: seq<string>, hi: int, lo: int)
    requires -1 <= lo <= hi && forall p :: p in dirs ==> !(lo < Depth(p) <= hi)
    ensures DirBatches(dirs, hi) == DirBatches(dirs, lo) && Deeper(dirs, hi) == Deeper(dirs, lo)
    decreases hi
  {
    if lo < hi {
      NoneAtDepth(dirs, hi);
      SkipDepths(dirs, hi - 1, lo);
      assert DirBatches(dirs, hi) == [] + DirBatches(dirs, hi - 1);
    }
  }

  lemma {:induction false} NoneAtDepth(dirs: seq<string>, d: nat)
    requires forall p :: p in dirs ==> Depth(p) != d
    ensures AtDepth(dirs, d) == []
  {
    if dirs != [] {
      assert dirs[0] in dirs;
      assert forall p :: p in dirs[1..] ==> p in dirs;
      NoneAtDepth(dirs[1..], d);
    }
  }

  // ---- Copying ----

  /** strings.TrimPrefix. */
  function Relative(src: string, name: string): string { if src <= name then name[|src|..] else name }

  /** Where moving src to dst puts a blob. */
  function Target(src: string, dst: string, item: Item): string {
    var to := JoinTwo(dst, Relative(src, item.name));
    if IsDirectory(item.name, item.blob) then EnsureTrailingSlash(to) else to
  }

  /** A marker for a directory, a copy of the blob for a file. */
  function CopyOne(store: Store, src: string, dst: string, item: Item): Store {
    var to := Target(src, dst, item);
    if IsDirectory(item.name, item.blob) then store[to := Marker]
    else if item.name in store then store[to := store[item.name]]
    else store
  }

  function CopyAll(store: Store, src: string, dst: string, items: seq<Item>): Store {
    if items == [] then store
    else CopyOne(CopyAll(store, src, dst, items[..|items| - 1]), src, dst, items[|items| - 1])
  }

  /** Copying takes no name away. */
  lemma {:induction false} CopyAllKeepsNames(store: Store, src: string, dst: string, items: seq<Item>)
    ensures store.Keys <= CopyAll(store, src, dst, items).Keys
  {
    if items != [] { CopyAllKeepsNames(store, src, dst, items[..|items| - 1]); }
  }

  /** An empty directory is a marker at its new place. */
  function Copied(store: Store, src: string, dst: string, items: seq<Item>): Store {
    if items == [] then store[dst := Marker] else CopyAll(store, src, dst, items)
  }

  class Container {
    var store: Store
    var batches: seq<seq<string>>    // the delete batches submitted so far
    ghost var trouble: bool          // some remote call has failed

    method FlattenListBlobs(prefix: string) returns (ok: bool, items: seq<Item>)
      ensures ok ==> IsListing(items, store, prefix)
    {
      if * { return false, []; }
      items := [];
      var rest := store.Keys;
      while rest != {}
        invariant rest <= store.Keys
        invariant forall i :: 0 <= i < |items| ==>
                    && items[i].name in store && items[i].name !in rest && prefix <= items[i].name
                    && store[items[i].name] == items[i].blob
        invariant forall k :: k in store && k !in rest && prefix <= k ==> Item(k, store[k]) in items
        invariant forall i, j :: 0 <= i < j < |items| ==> items[i].name != items[j].name
      {
        var k :| k in rest;
        if prefix <= k { items := items + [Item(k, store[k])]; }
        rest := rest - {k};
      }
      ok := true;
    }

    /** One batch: on failure any part of it may have been carried out. A missing blob is no error. */
    method SubmitBatch(batch: seq<string>) returns (ok: bool)
      modifies this
      ensures batches == old(batches) + [batch]
      ensures ok ==> store == old(store) - Names(batch)
      ensures OnlyRemoved(old(store), store, Names(batch))
      ensures old(trouble) || !ok ==> trouble
    {
      batches := batches + [batch];
      ok := true;
      var i := 0;
      while i < |batch|
        invariant 0 <= i <= |batch|
        invariant batches == old(batches) + [batch]
        invariant ok ==> store == old(store) - Names(batch[..i])
        invariant OnlyRemoved(old(store), store, Names(batch))
        invariant old(trouble) || !ok ==> trouble
      {
        assert batch[..i + 1] == batch[..i] + [batch[i]];
        var done: bool := *;
        if !done { ok, trouble := false, true; }
        var gone: bool := *;
        if done || gone { store := store - {batch[i]}; }
        i := i + 1;
      }
      assert batch[..i] == batch;
      if * { ok, trouble := false, true; }
    }

    method BatchDeleteBlobs(paths: seq<string>) returns (ok: bool)
      modifies this
      ensures ok ==> store == old(store) - Names(paths) && batches == old(batches) + Batches(paths, 128)
      ensures OnlyRemoved(old(store), store, Names(paths))
      ensures old(trouble) || !ok ==> trouble
    {
      var i := 0;
      ghost var all := batches + Batches(paths, MAX_BATCH_SIZE);
      assert paths[0..] == paths;
      while i < |paths|
        invariant 0 <= i <= |paths|
        invariant store == old(store) - Names(paths[..i])
        invariant batches + Batches(paths[i..], MAX_BATCH_SIZE) == all
        invariant old(trouble) ==> trouble
      {
        var end := if i + MAX_BATCH_SIZE < |paths| then i + MAX_BATCH_SIZE else |paths|;
        var batch := paths[i..end];
        assert paths[..end] == paths[..i] + batch;
        FirstBatch(paths, MAX_BATCH_SIZE, i, end);
        AppendTwice(batches, [batch], Batches(paths[end..], MAX_BATCH_SIZE));
        var sentOk := SubmitBatch(batch);
        if !sentOk { return false; }
        i := end;
      }
      assert paths[..i] == paths && batches + [] == batches;
      ok := true;
    }

    /** Delete one blob: 0 done, 1 not found, 2 any other error, after which the blob may be gone. */
    method DeleteBlob(name: string) returns (code: nat)
      modifies this`store, this`trouble
      ensures code == 0 ==> name in old(store) && store == old(store) - {name}
      ensures code == 1 ==> name !in old(store) && store == old(store)
      ensures code > 1 ==> store == old(store) || store == old(store) - {name}
      ensures old(trouble) || code > 1 ==> trouble
    {
      var answered: bool := *;
      if answered && name !in store { return 1; }
      var gone: bool := *;
      if answered || gone { store := store - {name}; }
      code := if answered then 0 else 2;
      trouble := trouble || !answered;
    }

    method DeleteEmptyDirectory(dirPath: string) returns (ok: bool)
      modifies this`store, this`trouble
      ensures ok ==> store == if TrimSlash(dirPath) in old(store) then old(store) - {TrimSlash(dirPath)}
                              else old(store) - {dirPath}
      ensures OnlyRemoved(old(store), store, {TrimSlash(dirPath), dirPath})
      ensures old(trouble) || !ok ==> trouble
    {
      var code := DeleteBlob(TrimSlash(dirPath));
      if code == 1 { code := DeleteBlob(dirPath); }
      ok := code <= 1;
    }

    /** Delete the directories depth by depth, deepest first. */
    method DeleteDirs(dirs: seq<string>) returns (ok: bool)
      modifies this
      ensures ok ==> store == old(store) - Names(dirs) && batches == old(batches) + DirBatches(dirs, MaxDepth(dirs))
      ensures OnlyRemoved(old(store), store, Names(dirs))
      ensures old(trouble) || !ok ==> trouble
    {
      var depthMap := GroupByDepth(dirs);
      // the depths in descending order, one by one
      var depths := depthMap.Keys;
      ghost var hi: int := MaxDepth(dirs);
      ghost var todo := DirBatches(dirs, hi);
      ghost var all := batches + todo;
      GroupedHas(dirs, depthMap);
      while depths != {}
        invariant depths <= depthMap.Keys && DepthsLeft(dirs, depths, hi)
        invariant store == old(store) - Deeper(dirs, hi)
        invariant todo == DirBatches(dirs, hi) && batches + todo == all
        invariant old(trouble) ==> trouble
      {
        var depth := Largest(depths);
        NextDepth(dirs, depths, hi, depth);
        RemoveTwice(old(store), Deeper(dirs, hi), Names(depthMap[depth]));
        ghost var was := batches;
        var sentOk := BatchDeleteBlobs(depthMap[depth]);
        if !sentOk { return false; }
        hi := depth as int - 1;
        todo := DirBatches(dirs, hi);
        AppendTwice(was, Batches(depthMap[depth], MAX_BATCH_SIZE), todo);
        depths := depths - {depth};
      }
      LastDepth(dirs, hi);
      assert batches + [] == batches;
      ok := true;
    }

    method Separate(items: seq<Item>) returns (filePaths: seq<string>, dirPaths: seq<string>)
      ensures filePaths == FilesOf(items) && dirPaths == DirsOf(items)
    {
      filePaths, dirPaths := [], [];
      var i := 0;
      while i < |items|
        invariant 0 <= i <= |items|
        invariant filePaths + FilesOf(items[i..]) == FilesOf(items)
        invariant dirPaths + DirsOf(items[i..]) == DirsOf(items)
      {
        assert items[i..][1..] == items[i + 1..];
        if IsDirectory(items[i].name, items[i].blob) {
          dirPaths := dirPaths + [TrimSlash(items[i].name)];
        } else {
          filePaths := filePaths + [items[i].name];
        }
        i := i + 1;
      }
    }

    /** The files first, then the directories by depth, then the marker of the folder itself. */
    method DeleteFolder(path: string) returns (ok: bool, ghost items: seq<Item>)
      modifies this
      ensures var prefix := EnsureTrailingSlash(path);
              && (ok ==> IsListing(items, old(store), prefix))
              && (ok ==> store == old(store) - Swept(old(store), prefix))
              && (ok ==> batches == old(batches) + Batches(FilesOf(items), MAX_BATCH_SIZE)
                                    + DirBatches(DirsOf(items), MaxDepth(DirsOf(items))))
              && OnlyRemoved(old(store), store, Swept(old(store), prefix))
      ensures old(trouble) || !ok ==> trouble
    {
      var prefix := EnsureTrailingSlash(path);
      var listed, globs := FlattenListBlobs(prefix);
      items := globs;
      trouble := trouble || !listed;
      if !listed { return false, items; }
      var filePaths, dirPaths := Separate(globs);
      ghost var all := Swept(store, prefix);
      SweptIs(items, store, prefix);
      MarkerGone(items, store, prefix);
      ok := BatchDeleteBlobs(filePaths);
      RemovedMore(old(store), old(store), store, Names(filePaths), all);
      if !ok { return; }
      ghost var noFiles := store;
      ok := DeleteDirs(dirPaths);
      RemovedMore(old(store), noFiles, store, Names(dirPaths), all);
      if !ok { return; }
      ghost var noDirs := store;
      ok := DeleteEmptyDirectory(prefix);
      RemovedMore(old(store), noDirs, store, {TrimSlash(prefix), prefix}, all);
      if ok { RemovedAll(old(store), Names(filePaths), Names(dirPaths), prefix, store); }
    }

    /** On failure the marker may have been written. */
    method MkDir(fullDirName: string) returns (ok: bool)
      modifies this`store, this`trouble
      ensures var made := old(store)[EnsureTrailingSlash(fullDirName) := Marker];
              store == made || (!ok && store == old(store))
      ensures old(trouble) || !ok ==> trouble
    {
      var applied: bool := *;
      ok := *;
      trouble := trouble || !ok;
      if ok || applied { store := store[EnsureTrailingSlash(fullDirName) := Marker]; }
    }

    /** On failure the copy may have been made. */
    method CopyFile(srcPath: string, dstPath: string) returns (ok: bool)
      modifies this`store, this`trouble
      ensures ok ==> srcPath in old(store)
      ensures old(trouble) || (!ok && srcPath in old(store)) ==> trouble
      ensures || (srcPath in old(store) && store == old(store)[dstPath := old(store)[srcPath]])
              || (!ok && store == old(store))
    {
      if srcPath !in store { return false; }
      var applied: bool := *;
      ok := *;
      trouble := trouble || !ok;
      if ok || applied { store := store[dstPath := store[srcPath]]; }
    }

    /** Copies some of the items, in order; all of them if nothing fails. */
    method CopyItems(srcPath: string, dstPath: string, items: seq<Item>) returns (ok: bool, ghost done: nat)
      modifies this`store, this`trouble
      ensures done <= |items| && store == CopyAll(old(store), srcPath, dstPath, items[..done])
      ensures ok ==> done == |items|
      ensures old(trouble) ==> trouble
      ensures !ok && !trouble ==> done < |items| && items[done].name !in old(store)
    {
      ok, done := true, 0;
      var i := 0;
      while i < |items|
        invariant 0 <= i == done <= |items|
        invariant ok && store == CopyAll(old(store), srcPath, dstPath, items[..i])
        invariant old(trouble) ==> trouble
      {
        var itemDstPath := JoinTwo(dstPath, Relative(srcPath, items[i].name));
        ghost var was := store;
        if IsDirectory(items[i].name, items[i].blob) {
          ok := MkDir(itemDstPath);
        } else {
          ok := CopyFile(items[i].name, itemDstPath);
        }
        assert items[..i + 1][..i] == items[..i];
        done := if store == was && !ok then i else i + 1;
        if !ok {
          CopyAllKeepsNames(old(store), srcPath, dstPath, items[..i]);
          return;
        }
        i := i + 1;
      }
    }

    /**
     A failed deletion is tried once more and then given up without an error. between is the store
     before the last attempt, and deleted says whether that attempt went through.
     */
    method DeleteFolderOrGiveUp(src: string) returns (ghost between: Store, ghost deleted: bool)
      requires EndsWithSlash(src)
      modifies this
      ensures OnlyRemoved(old(store), between, Swept(old(store), src))
      ensures OnlyRemoved(old(store), store, Swept(old(store), src))
      ensures deleted ==> store == between - Swept(between, src)
      ensures old(trouble) || !deleted ==> trouble
    {
      between := store;
      var ok, _ := DeleteFolder(src);
      if !ok {
        between := store;
        SweptLess(between, old(store), src);
        var again, _ := DeleteFolder(src);
        ok := again;
        RemovedMore(old(store), between, store, Swept(between, src), Swept(old(store), src));
      }
      deleted := ok;
    }

    /** A move that succeeds may still leave any part of the source behind. */
    method MoveFolder(srcPath: string, dstPath: string)
      returns (ok: bool, ghost items: seq<Item>, ghost done: nat, ghost between: Store, ghost deleted: bool)
      modifies this
      ensures var src, dst := EnsureTrailingSlash(srcPath), EnsureTrailingSlash(dstPath);
              var all := Copied(old(store), src, dst, items);
              && (ok ==> OnlyRemoved(all, between, Swept(all, src)) && OnlyRemoved(all, store, Swept(all, src)))
              && (ok && deleted ==> store == between - Swept(between, src))
              && (ok || store != old(store) ==> IsListing(items, old(store), src))
              && (!ok ==> done <= |items| && (store == all || store == CopyAll(old(store), src, dst, items[..done])))
              && (!trouble ==> ok && deleted)
    {
      var src, dst := EnsureTrailingSlash(srcPath), EnsureTrailingSlash(dstPath);
      deleted, done, between := false, 0, store;
      var listed, blobs := FlattenListBlobs(src);
      items := blobs;
      trouble := trouble || !listed;
      if !listed { return false, items, done, between, deleted; }
      ok, done := CopyItems(src, dst, blobs);
      if !ok { return; }
      assert items[..|items|] == items;
      if |blobs| == 0 {
        ok := MkDir(dst);
        if !ok { return; }
      }
      between, deleted := DeleteFolderOrGiveUp(src);
    }

    /** Moving one file: a copy and then a deletion whose errors are only logged. */
    method MoveFile(srcPath: string, dstPath: string) returns (ok: bool)
      modifies this`store, this`trouble
      ensures ok ==> srcPath in old(store)
      ensures ok ==> var all := old(store)[dstPath := old(store)[srcPath]]; store == all || store == all - {srcPath}
      ensures !ok ==> || store == old(store)
                      || (srcPath in old(store) && store == old(store)[dstPath := old(store)[srcPath]])
      ensures !trouble && srcPath in old(store) ==>
                && ok && store == old(store)[dstPath := old(store)[srcPath]] - {srcPath}
                && (dstPath in store && store[dstPath] == old(store)[srcPath] <==> dstPath != srcPath)
      ensures srcPath in old(store) && dstPath != srcPath ==>
                || (srcPath in store && store[srcPath] == old(store)[srcPath])
                || (dstPath in store && store[dstPath] == old(store)[srcPath])
    {
      ok := CopyFile(srcPath, dstPath);
      if ok { var _ := DeleteBlob(srcPath); }
    }
  }

  lemma SweptLess(less: Store, more: Store, prefix: string)
    requires forall k :: k in less ==> k in more && less[k] == more[k]
    ensures Swept(less, prefix) <= Swept(more, prefix)
  {
    forall k | k in less && prefix <= k
      ensures SweptName(less, k) in Swept(more, prefix)
    {
      assert SweptName(less, k) == SweptName(more, k);
    }
  }

  lemma RemovedMore(old': Store, was: Store, now: Store, some: set<string>, all: set<string>)
    requires OnlyRemoved(old', was, all) && OnlyRemoved(was, now, some) && some <= all
    ensures OnlyRemoved(old', now, all)
  {
  }

  lemma RemovedAll(m: Store, files: set<string>, dirs: set<string>, prefix: string, now: Store)
    requires prefix in m ==> TrimSlash(prefix) in dirs
    requires var rest := m - files - dirs;
             now == if TrimSlash(prefix) in rest then rest - {TrimSlash(prefix)} else rest - {prefix}
    ensures now == m - (files + dirs + {TrimSlash(prefix), prefix})
  {
  }

  /** When the marker of a folder goes, it is under one of the two names the last step tries. */
  lemma MarkerGone(items: seq<Item>, store: Store, prefix: string)
    requires EndsWithSlash(prefix) && IsListing(items, store, prefix)
    ensures prefix in store ==> TrimSlash(prefix) in Names(DirsOf(items))
  {
    if prefix in store {
      FilesAndDirs(items);
      var i :| 0 <= i < |items| && items[i] == Item(prefix, store[prefix]);
    }
  }

  /** What is left to do: all directories up to depth hi have their depth among these. */
  ghost predicate DepthsLeft(dirs: seq<string>, depths: set<nat>, hi: int) {
    && -1 <= hi
    && (forall d :: d in depths ==> d <= hi)
    && (forall p :: p in dirs && Depth(p) <= hi ==> Depth(p) in depths)
  }

  lemma NextDepth(dirs: seq<string>, depths: set<nat>, hi: int, depth: int)
    requires DepthsLeft(dirs, depths, hi) && depth in depths && forall d :: d in depths ==> d <= depth
    ensures DepthsLeft(dirs, depths - {depth}, depth - 1)
    ensures DirBatches(dirs, hi) == Batches(AtDepth(dirs, depth), MAX_BATCH_SIZE) + DirBatches(dirs, depth - 1)
    ensures Deeper(dirs, depth - 1) == Deeper(dirs, hi) + Names(AtDepth(dirs, depth))
    ensures Names(AtDepth(dirs, depth)) <= Names(dirs)
  {
    SkipDepths(dirs, hi, depth);
    AtDepthNames(dirs, depth);
  }

  lemma LastDepth(dirs: seq<string>, hi: int)
    requires DepthsLeft(dirs, {}, hi)
    ensures Deeper(dirs, hi) == Names(dirs) && DirBatches(dirs, hi) == []
  {
    SkipDepths(dirs, hi, -1);
  }

  ghost predicate Grouped(dirs: seq<string>, depthMap: map<nat, seq<string>>) {
    && (forall d :: d in depthMap ==> depthMap[d] == AtDepth(dirs, d) != [])
    && (forall d: nat {:trigger AtDepth(dirs, d)} :: d !in depthMap ==> AtDepth(dirs, d) == [])
  }

  lemma GroupedHas(dirs: seq<string>, depthMap: map<nat, seq<string>>)
    requires Grouped(dirs, depthMap)
    ensures DepthsLeft(dirs, depthMap.Keys, MaxDepth(dirs))
    ensures Deeper(dirs, MaxDepth(dirs)) == {}
  {
    MaxDepthBounds(dirs);
    forall p | p in dirs
      ensures Depth(p) in depthMap
    {
      AtDepthNames(dirs, Depth(p));
    }
    forall d | d in depthMap
      ensures d <= MaxDepth(dirs)
    {
      AtDepthNames(dirs, d);
      assert depthMap[d][0] in AtDepth(dirs, d);
    }
  }

  lemma AppendTwice(a: seq<seq<string>>, b: seq<seq<string>>, c: seq<seq<string>>)
    ensures a + b + c == a + (b + c)
  {
  }

  lemma RemoveTwice(m: Store, a: set<string>, b: set<string>)
    ensures m - a - b == m - (a + b)
  {
  }

  /** Group the directories by their depth. */
  method GroupByDepth(dirs: seq<string>) returns (depthMap: map<nat, seq<string>>)
    ensures Grouped(dirs, depthMap)
  {
    depthMap := map[];
    var i := 0;
    while i < |dirs|
      invariant 0 <= i <= |dirs|
      invariant Grouped(dirs[..i], depthMap)
    {
      var d := Depth(dirs[i]);
      AtDepthSnoc(dirs, i);
      var at := if d in depthMap then depthMap[d] else [];
      assert at == AtDepth(dirs[..i], d);
      depthMap := depthMap[d := at + [dirs[i]]];
      i := i + 1;
    }
    assert dirs[..i] == dirs;
  }

  /** The head of the descending order of a set of depths. */
  method Largest(s: set<nat>) returns (m: nat)
    requires s != {}
    ensures m in s && forall d :: d in s ==> d <= m
  {
    m :| m in s;
    var rest := s - {m};
    while rest != {}
      invariant rest <= s && m in s
      invariant forall d :: d in s && d !in rest ==> d <= m
    {
      var d :| d in rest;
      if d > m { m := d; }
      rest := rest - {d};
    }
  }

  lemma {:induction false} AtDepthConcat(a: seq<string>, b: seq<string>, d: nat)
    ensures AtDepth(a + b, d) == AtDepth(a, d) + AtDepth(b, d)
  {
    if a == [] {
      assert a + b == b;
    } else {
      assert (a + b)[1..] == a[1..] + b;
      AtDepthConcat(a[1..], b, d);
    }
  }

  lemma AtDepthSnoc(dirs: seq<string>, i: nat)
    requires i < |dirs|
    ensures forall d {:trigger AtDepth(dirs[..i + 1], d)} ::
              AtDepth(dirs[..i + 1], d) == AtDepth(dirs[..i], d) + if Depth(dirs[i]) == d then [dirs[i]] else []
  {
    assert dirs[..i + 1] == dirs[..i] + [dirs[i]];
    forall d: nat
      ensures AtDepth(dirs[..i + 1], d) == AtDepth(dirs[..i], d) + if Depth(dirs[i]) == d then [dirs[i]] else []
    {
      AtDepthConcat(dirs[..i], [dirs[i]], d);
      assert [dirs[i]][1..] == [];
    }
  }
}
