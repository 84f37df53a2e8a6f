/** What moving a directory means for each blob. */
module BlobMoves {
  import opened BlobFolders
  import opened Paths
  import opened PathJoin

  /** A name under src that is clean, up to a slash at the end. */
  predicate TidyName(src: string, name: string) {
    src <= name && var rel := Relative(src, name); rel == "" || Plain(TrimSlash(rel))
  }

  ghost predicate Tidy(src: string, items: seq<Item>) {
    forall i :: 0 <= i < |items| ==> TidyName(src, items[i].name)
  }

  /** Two directories, neither of them inside the other, the destination with a clean name. */
  predicate Apart(src: string, dst: string) {
    EndsWithSlash(src) && EndsWithSlash(dst) && PlainDir(TrimSlash(dst)) && !(src <= dst) && !(dst <= src)
  }

  /** No slash at the end of its name, and no flag. */
  predicate IsFile(item: Item) {
    (item.name == "" || item.name[|item.name| - 1] != '/') && !item.blob.folder
  }

  lemma JoinedIs(d: string, rel: string)
    requires PlainDir(d) && (rel == "" || Plain(TrimSlash(rel)))
    ensures JoinTwo(d + "/", rel) == if rel == "" then d else d + "/" + TrimSlash(rel)
    ensures if rel == "" then !EndsWithSlash(d) else TrimSlash(rel) != "" && !EndsWithSlash(TrimSlash(rel))
  {
    if rel == "" {
      JoinNothing(d);
      DirHasNoSlash(d);
    } else {
      JoinPlain(d, TrimSlash(rel));
      PlainNotEmpty(TrimSlash(rel));
      assert rel == TrimSlash(rel) || rel == TrimSlash(rel) + "/";
    }
  }

  /** The name of a blob below its directory stays the same; a directory gets its slash. */
  lemma TargetIs(src: string, dst: string, item: Item)
    requires EndsWithSlash(src) && EndsWithSlash(dst) && PlainDir(TrimSlash(dst)) && TidyName(src, item.name)
    ensures var rel := Relative(src, item.name);
            Target(src, dst, item) == dst + if IsFile(item) || rel == "" then rel else EnsureTrailingSlash(rel)
  {
    var d, rel := TrimSlash(dst), Relative(src, item.name);
    SlashOff(dst);
    BelowIs(src, item.name);
    TargetBelow(src, dst, d, item, rel);
  }

  lemma SlashOff(dir: string)
    requires EndsWithSlash(dir)
    ensures dir == TrimSlash(dir) + "/"
  {
  }

  lemma BelowIs(src: string, name: string)
    requires src <= name
    ensures name == src + Relative(src, name)
  {
  }

  lemma TargetBelow(src: string, dst: string, d: string, item: Item, rel: string)
    requires EndsWithSlash(src) && item.name == src + rel
    requires dst == d + "/" && PlainDir(d) && (rel == "" || Plain(TrimSlash(rel)))
    ensures Target(src, dst, item) == dst + if IsFile(item) || rel == "" then rel else EnsureTrailingSlash(rel)
  {
    assert Target(src, dst, item) == dst + if IsFile(item) || rel == "" then rel else EnsureTrailingSlash(rel) by {
      TargetJoined(src, dst, d, item, rel);
      SlashedIs(src, d, rel, item) by {
        JoinedIs(d, rel);
      }
    }
  }

  lemma TargetJoined(src: string, dst: string, d: string, item: Item, rel: string)
    requires item.name == src + rel && dst == d + "/" && PlainDir(d) && (rel == "" || Plain(TrimSlash(rel)))
    ensures var to := if rel == "" then d else d + "/" + TrimSlash(rel);
            Target(src, dst, item) == if IsDirectory(item.name, item.blob) then EnsureTrailingSlash(to) else to
  {
    var to := JoinedTo(dst, d, rel);
    TargetJoin(src, dst, item, rel, to);
  }

  lemma JoinedTo(dst: string, d: string, rel: string) returns (to: string)
    requires dst == d + "/" && PlainDir(d) && (rel == "" || Plain(TrimSlash(rel)))
    ensures to == JoinTwo(dst, rel) && to == if rel == "" then d else d + "/" + TrimSlash(rel)
    ensures if rel == "" then !EndsWithSlash(d) else TrimSlash(rel) != "" && !EndsWithSlash(TrimSlash(rel))
  {
    JoinedIs(d, rel);
    to := if rel == "" then d else d + "/" + TrimSlash(rel);
  }

  /** A blob's target is its joined name, with a slash for a directory. */
  lemma TargetJoin(src: string, dst: string, item: Item, rel: string, to: string)
    requires item.name == src + rel && to == JoinTwo(dst, rel)
    ensures Target(src, dst, item) == if IsDirectory(item.name, item.blob) then EnsureTrailingSlash(to) else to
  {
    assert Relative(src, item.name) == rel;
  }

  lemma SlashedIs(src: string, d: string, rel: string, item: Item)
    requires EndsWithSlash(src) && item.name == src + rel
    requires if rel == "" then !EndsWithSlash(d) else TrimSlash(rel) != "" && !EndsWithSlash(TrimSlash(rel))
    ensures var to := if rel == "" then d else d + "/" + TrimSlash(rel);
            (if IsDirectory(item.name, item.blob) then EnsureTrailingSlash(to) else to) ==
            d + "/" + if IsFile(item) || rel == "" then rel else EnsureTrailingSlash(rel)
  {
    if rel != "" {
      SlashLast(d + "/", TrimSlash(rel));
      SlashLast(src, rel);
    }
  }

  lemma SlashLast(a: string, b: string)
    requires b != ""
    ensures EndsWithSlash(a + b) == EndsWithSlash(b)
    ensures EnsureTrailingSlash(a + b) == a + EnsureTrailingSlash(b)
  {
    assert a + b + "/" == a + (b + "/");
  }

  lemma DirHasNoSlash(d: string)
    requires PlainDir(d)
    ensures !EndsWithSlash(d)
  {
    if Plain(d) { PlainNotEmpty(d); } else { PlainNotEmpty(d[1..]); }
  }

  lemma FileIff(item: Item)
    ensures IsFile(item) <==> !IsDirectory(item.name, item.blob)
    ensures IsFile(item) <==> !EndsWithSlash(item.name) && !item.blob.folder
  {
  }

  /** Where each of the items goes, and what is written there. */
  function Targets(src: string, dst: string, items: seq<Item>): (ts: seq<string>)
    ensures |ts| == |items|
  {
    seq(|items|, i requires 0 <= i < |items| => Target(src, dst, items[i]))
  }

  function Blobs(items: seq<Item>): (bs: seq<Blob>)
    ensures |bs| == |items|
  {
    seq(|items|, i requires 0 <= i < |items| => if IsFile(items[i]) then items[i].blob else Marker)
  }

  /** What the last of the copies to k brings there. */
  function LastTo(ts: seq<string>, bs: seq<Blob>, k: string): Blob
    requires |ts| == |bs| && k in ts
  {
    var n := |ts| - 1;
    if ts[n] == k then bs[n] else LastTo(ts[..n], bs[..n], k)
  }

  // ---- What copying writes ----

  /** No copy lands on a file that is itself to be copied. */
  ghost predicate Intact(items: seq<Item>, ts: seq<string>) {
    forall i :: 0 <= i < |items| && IsFile(items[i]) ==> items[i].name !in ts
  }

  /** now is store with the blobs written at the targets, one after the other. */
  ghost predicate HasWrites(store: Store, ts: seq<string>, bs: seq<Blob>, now: Store)
    requires |ts| == |bs|
  {
    && (forall k :: k in now <==> k in store || k in ts)
    && (forall k :: k in now ==> now[k] == if k in ts then LastTo(ts, bs, k) else store[k])
  }

  lemma WriteOne(store: Store, ts: seq<string>, bs: seq<Blob>, n: nat, was: Store)
    requires n < |ts| == |bs| && HasWrites(store, ts[..n], bs[..n], was)
    ensures HasWrites(store, ts[..n + 1], bs[..n + 1], was[ts[n] := bs[n]])
  {
    var us, cs := ts[..n + 1], bs[..n + 1];
    assert us[..n] == ts[..n] && cs[..n] == bs[..n];
    assert us == ts[..n] + [ts[n]];
  }

  /** Copying writes exactly the targets, the last writer of each deciding, while no source is hit. */
  lemma {:induction false} CopyAllWrites(store: Store, src: string, dst: string, items: seq<Item>, n: nat)
    requires n <= |items| && IsListing(items, store, src) && Intact(items, Targets(src, dst, items))
    ensures HasWrites(store, Targets(src, dst, items)[..n], Blobs(items)[..n], CopyAll(store, src, dst, items[..n]))
  {
    if n > 0 {
      CopyAllWrites(store, src, dst, items, n - 1);
      var ts, bs := Targets(src, dst, items), Blobs(items);
      var was := CopyAll(store, src, dst, items[..n - 1]);
      assert items[..n][..n - 1] == items[..n - 1];
      CopyOneWrites(store, src, dst, items, n - 1, was);
      WriteOne(store, ts, bs, n - 1, was);
    }
  }

  lemma CopyOneWrites(store: Store, src: string, dst: string, items: seq<Item>, n: nat, was: Store)
    requires n < |items| && IsListing(items, store, src) && Intact(items, Targets(src, dst, items))
    requires HasWrites(store, Targets(src, dst, items)[..n], Blobs(items)[..n], was)
    ensures CopyOne(was, src, dst, items[n]) == was[Targets(src, dst, items)[n] := Blobs(items)[n]]
  {
    var ts, bs, item := Targets(src, dst, items), Blobs(items), items[n];
    FileIff(item);
    if IsFile(item) {
      assert item.name !in ts[..n];
      assert was[item.name] == item.blob;
    }
    CopyOneIs(was, src, dst, item, ts[n]);
  }

  lemma CopyOneIs(was: Store, src: string, dst: string, item: Item, to: string)
    requires to == Target(src, dst, item)
    ensures IsDirectory(item.name, item.blob) ==> CopyOne(was, src, dst, item) == was[to := Marker]
    ensures !IsDirectory(item.name, item.blob) && item.name in was ==>
              CopyOne(was, src, dst, item) == was[to := was[item.name]]
  {
  }

  lemma CopiedWrites(store: Store, src: string, dst: string, items: seq<Item>)
    requires IsListing(items, store, src) && Intact(items, Targets(src, dst, items)) && items != []
    ensures HasWrites(store, Targets(src, dst, items), Blobs(items), Copied(store, src, dst, items))
  {
    CopyAllWrites(store, src, dst, items, |items|);
    Whole(items);
    Whole(Targets(src, dst, items));
    Whole(Blobs(items));
  }

  lemma Whole<T>(s: seq<T>)
    ensures s[..|s|] == s
  {
  }

  /** Whatever its order and its hits, copying changes nothing but targets. */
  lemma {:induction false} OnlyTargetsChange(store: Store, src: string, dst: string, items: seq<Item>, n: nat,
                                             k: string)
    requires n <= |items| && k !in Targets(src, dst, items)
    ensures var now := CopyAll(store, src, dst, items[..n]);
            (k in now <==> k in store) && (k in store ==> now[k] == store[k])
  {
    if n > 0 {
      OnlyTargetsChange(store, src, dst, items, n - 1, k);
      assert items[..n][..n - 1] == items[..n - 1];
      assert Target(src, dst, items[n - 1]) == Targets(src, dst, items)[n - 1];
    }
  }

  // ---- What deleting takes ----

  /** The names a deletion of the folder asks for, where they exist. */
  predicate Asked(src: string, k: string) {
    (src <= k && (k == src || !EndsWithSlash(k))) || k == TrimSlash(src)
  }

  /** A name under the source without a slash at its end, or the source's own name with its slash or without. */
  lemma AskedIff(src: string, k: string)
    requires EndsWithSlash(src)
    ensures Asked(src, k) <==> (src <= k && k[|k| - 1] != '/') || k == src || k + "/" == src
    ensures k == TrimSlash(src) <==> k + "/" == src
  {
  }

  lemma AskedIsSwept(store: Store, src: string, k: string)
    requires k in store && Asked(src, k)
    ensures k in Swept(store, src)
  {
    assert src <= k && k != src && k != TrimSlash(src) ==> SweptName(store, k) == k;
  }

  /** A name without a slash at its end, or the root's, goes only if it is asked for. */
  lemma SweptIfAsked(store: Store, src: string, k: string)
    requires EndsWithSlash(src) && (EndsWithSlash(k) ==> k == "/") && k in Swept(store, src)
    ensures Asked(src, k)
  {
    if k != src && k != TrimSlash(src) {
      var from :| from in store && src <= from && k == SweptName(store, from);
      assert EndsWithSlash(from) ==> from == k + "/";
      assert |src| == |from| ==> src == from;
    }
  }

  // ---- Where the files are afterwards ----

  /** A file is copied to a name without a slash at its end, the root's name apart. */
  lemma FileTarget(src: string, dst: string, item: Item)
    ensures var to := Target(src, dst, item);
            if IsFile(item) then EndsWithSlash(to) ==> to == "/" else EndsWithSlash(to)
  {
    var rel := Relative(src, item.name);
    if dst == "" { CleanEnd(rel); } else if rel == "" { CleanEnd(dst); } else { CleanEnd(dst + "/" + rel); }
  }

  /** No file goes where the deletion strikes, and the last copy to its target brings its own content. */
  ghost predicate Safe(src: string, dst: string, items: seq<Item>) {
    var ts, bs := Targets(src, dst, items), Blobs(items);
    forall i :: 0 <= i < |items| && IsFile(items[i]) ==> !Asked(src, ts[i]) && LastTo(ts, bs, ts[i]) == items[i].blob
  }

  ghost predicate NoneAsked(src: string, dst: string, items: seq<Item>) {
    forall i :: 0 <= i < |items| && IsFile(items[i]) ==> !Asked(src, Targets(src, dst, items)[i])
  }

  /** Each file has its content at its target. */
  ghost predicate Arrived(src: string, dst: string, items: seq<Item>, now: Store) {
    forall i :: 0 <= i < |items| && IsFile(items[i]) ==>
      var to := Targets(src, dst, items)[i]; to in now && now[to] == items[i].blob
  }

  lemma NoneAskedIsIntact(store: Store, src: string, dst: string, items: seq<Item>)
    requires EndsWithSlash(src) && IsListing(items, store, src) && NoneAsked(src, dst, items)
    ensures Intact(items, Targets(src, dst, items))
  {
    var ts := Targets(src, dst, items);
    forall i, j | 0 <= i < |items| && IsFile(items[i]) && 0 <= j < |ts|
      ensures ts[j] != items[i].name
    {
      FileTarget(src, dst, items[j]);
      FileIff(items[i]);
      FileIff(items[j]);
      AskedIff(src, items[i].name);
    }
  }

  /** A file whose target is asked for cannot be there in the end. */
  lemma ArrivedNotAsked(src: string, dst: string, items: seq<Item>, between: Store)
    requires Arrived(src, dst, items, between - Swept(between, src))
    ensures NoneAsked(src, dst, items)
  {
    forall i | 0 <= i < |items| && IsFile(items[i])
      ensures !Asked(src, Targets(src, dst, items)[i])
    {
      var to := Targets(src, dst, items)[i];
      if Asked(src, to) { AskedIsSwept(between, src, to); }
    }
  }

  /** A target that is not asked for keeps through the deletion what the copying brought. */
  lemma TargetStays(store: Store, src: string, dst: string, items: seq<Item>, now: Store, i: nat)
    requires EndsWithSlash(src) && IsListing(items, store, src) && NoneAsked(src, dst, items)
    requires var all := Copied(store, src, dst, items); OnlyRemoved(all, now, Swept(all, src))
    requires i < |items| && IsFile(items[i])
    ensures var ts, bs := Targets(src, dst, items), Blobs(items); ts[i] in now && now[ts[i]] == LastTo(ts, bs, ts[i])
  {
    NoneAskedIsIntact(store, src, dst, items);
    CopiedWrites(store, src, dst, items);
    var all, to := Copied(store, src, dst, items), Targets(src, dst, items)[i];
    FileTarget(src, dst, items[i]);
    if to in Swept(all, src) { SweptIfAsked(all, src, to); }
  }

  lemma RemovedTwice(all: Store, between: Store, src: string)
    requires OnlyRemoved(all, between, Swept(all, src))
    ensures OnlyRemoved(all, between - Swept(between, src), Swept(all, src))
  {
    SweptLess(between, all, src);
  }

  /**
   After a deletion that went through, at the first or the second attempt, every file is at its
   target with its content if and only if the move was safe.
   */
  lemma ArrivedIff(store: Store, src: string, dst: string, items: seq<Item>, between: Store)
    requires EndsWithSlash(src) && IsListing(items, store, src)
    requires var all := Copied(store, src, dst, items); OnlyRemoved(all, between, Swept(all, src))
    ensures Arrived(src, dst, items, between - Swept(between, src)) <==> Safe(src, dst, items)
  {
    var all, now := Copied(store, src, dst, items), between - Swept(between, src);
    if Arrived(src, dst, items, now) { ArrivedNotAsked(src, dst, items, between); }
    if NoneAsked(src, dst, items) {
      RemovedTwice(all, between, src);
      forall i | 0 <= i < |items| && IsFile(items[i])
        ensures var ts, bs := Targets(src, dst, items), Blobs(items);
                ts[i] in now && now[ts[i]] == LastTo(ts, bs, ts[i])
      {
        TargetStays(store, src, dst, items, now, i);
      }
    }
  }

  /**
   In a safe move that goes through, each blob without a slash at the end of its name and
   without the flag comes with its content to its place below the destination.
   */
  lemma FileArrives(store: Store, src: string, dst: string, items: seq<Item>, between: Store, i: nat,
                    rel: string, to: string)
    requires EndsWithSlash(src) && IsListing(items, store, src) && Safe(src, dst, items)
    requires var all := Copied(store, src, dst, items); OnlyRemoved(all, between, Swept(all, src))
    requires i < |items| && items[i].name == src + rel && !items[i].blob.folder
    requires items[i].name[|items[i].name| - 1] != '/' && to == JoinTwo(dst, rel)
    ensures var now := between - Swept(between, src); to in now && now[to] == items[i].blob
  {
    assert IsFile(items[i]) && Target(src, dst, items[i]) == to by {
      PlainTarget(src, dst, items[i], rel, to);
    }
    ArrivesAt(store, src, dst, items, between, i, to);
  }

  lemma PlainTarget(src: string, dst: string, item: Item, rel: string, to: string)
    requires src != "" && item.name == src + rel && !item.blob.folder && item.name[|item.name| - 1] != '/'
    requires to == JoinTwo(dst, rel)
    ensures IsFile(item) && Target(src, dst, item) == to
  {
    FileIff(item);
    TargetJoin(src, dst, item, rel, to);
  }

  lemma ArrivesAt(store: Store, src: string, dst: string, items: seq<Item>, between: Store, i: nat, to: string)
    requires EndsWithSlash(src) && IsListing(items, store, src) && Safe(src, dst, items)
    requires var all := Copied(store, src, dst, items); OnlyRemoved(all, between, Swept(all, src))
    requires i < |items| && IsFile(items[i]) && Target(src, dst, items[i]) == to
    ensures var now := between - Swept(between, src); to in now && now[to] == items[i].blob
  {
    ArrivedIff(store, src, dst, items, between);
    assert Targets(src, dst, items)[i] == to;
  }

  /** Every other blob gives an empty marker with a slash at its end, which stays if it is outside the source. */
  lemma MarkerArrives(store: Store, src: string, dst: string, items: seq<Item>, between: Store, i: nat,
                      rel: string, joined: string, to: string)
    requires EndsWithSlash(src) && IsListing(items, store, src) && Safe(src, dst, items)
    requires var all := Copied(store, src, dst, items); OnlyRemoved(all, between, Swept(all, src))
    requires i < |items| && items[i].name == src + rel && joined == JoinTwo(dst, rel)
    requires items[i].blob.folder || items[i].name[|items[i].name| - 1] == '/'
    requires to == if joined != "" && joined[|joined| - 1] == '/' then joined else joined + "/"
    ensures var all := Copied(store, src, dst, items); to in all && (to != "/" ==> all[to] == Blob("", true))
    ensures to != "/" && !(src <= to) && to + "/" != src ==>
              to in between - Swept(between, src) && between[to] == Blob("", true)
  {
    MarkerTarget(src, dst, items[i], rel, joined, to);
    MarkerMoved(store, src, dst, items, between, i, to);
  }

  lemma MarkerMoved(store: Store, src: string, dst: string, items: seq<Item>, between: Store, i: nat, to: string)
    requires EndsWithSlash(src) && IsListing(items, store, src) && Safe(src, dst, items)
    requires var all := Copied(store, src, dst, items); OnlyRemoved(all, between, Swept(all, src))
    requires i < |items| && !IsFile(items[i]) && Target(src, dst, items[i]) == to
    ensures var all := Copied(store, src, dst, items); to in all && (to != "/" ==> all[to] == Blob("", true))
    ensures to != "/" && !(src <= to) && to + "/" != src ==>
              to in between - Swept(between, src) && between[to] == Blob("", true)
  {
    MarkerCopied(store, src, dst, items, i, to);
    MarkerSurvives(Copied(store, src, dst, items), src, to, between);
  }

  lemma MarkerSurvives(all: Store, src: string, to: string, between: Store)
    requires EndsWithSlash(src) && OnlyRemoved(all, between, Swept(all, src)) && to in all
    ensures !(src <= to) && to + "/" != src ==> to in between - Swept(between, src) && between[to] == all[to]
  {
    if !(src <= to) && to + "/" != src {
      AskedIff(src, to);
      OutsideStays(all, src, to);
      OutsideStays(between, src, to);
    }
  }

  lemma MarkerTarget(src: string, dst: string, item: Item, rel: string, joined: string, to: string)
    requires src != "" && item.name == src + rel && joined == JoinTwo(dst, rel)
    requires item.blob.folder || item.name[|item.name| - 1] == '/'
    requires to == if joined != "" && joined[|joined| - 1] == '/' then joined else joined + "/"
    ensures !IsFile(item) && Target(src, dst, item) == to
  {
    FileIff(item);
    TargetJoin(src, dst, item, rel, joined);
  }

  lemma MarkerCopied(store: Store, src: string, dst: string, items: seq<Item>, i: nat, to: string)
    requires EndsWithSlash(src) && IsListing(items, store, src) && Safe(src, dst, items)
    requires i < |items| && !IsFile(items[i]) && Target(src, dst, items[i]) == to
    ensures var all := Copied(store, src, dst, items); to in all && (to != "/" ==> all[to] == Blob("", true))
  {
    var ts, bs := Targets(src, dst, items), Blobs(items);
    assert ts[i] == to;
    NoneAskedIsIntact(store, src, dst, items);
    CopiedWrites(store, src, dst, items);
    FileTarget(src, dst, items[i]);
    if to != "/" {
      forall j | 0 <= j < |items| && ts[j] == to
        ensures bs[j] == Blob("", true)
      {
        FileTarget(src, dst, items[j]);
      }
      LastToAll(ts, bs, to, Blob("", true));
    }
  }

  lemma {:induction false} LastToAll(ts: seq<string>, bs: seq<Blob>, k: string, b: Blob)
    requires |ts| == |bs| && k in ts && forall j :: 0 <= j < |ts| && ts[j] == k ==> bs[j] == b
    ensures LastTo(ts, bs, k) == b
  {
    var n := |ts| - 1;
    if ts[n] != k { LastToAll(ts[..n], bs[..n], k, b); }
  }

  /** What a move can leave behind, whatever has failed: some of the copies made, or all of them and some names gone. */
  ghost predicate Left(store: Store, src: string, dst: string, items: seq<Item>, now: Store) {
    var all := Copied(store, src, dst, items);
    || (exists done :: 0 <= done <= |items| && now == CopyAll(store, src, dst, items[..done]))
    || OnlyRemoved(all, now, Swept(all, src))
  }

  /** These are the ways in which a move ends, by the contract of the move. */
  lemma MoveLeaves(store: Store, src: string, dst: string, items: seq<Item>, done: nat, now: Store)
    requires var all := Copied(store, src, dst, items);
             || now == all || OnlyRemoved(all, now, Swept(all, src))
             || (done <= |items| && now == CopyAll(store, src, dst, items[..done]))
    ensures Left(store, src, dst, items, now)
  {
  }

  /** Each file has its content at its old place or at its target. */
  ghost predicate NoneMissing(src: string, dst: string, items: seq<Item>, now: Store) {
    forall i :: 0 <= i < |items| && IsFile(items[i]) ==> Somewhere(items[i], Targets(src, dst, items)[i], now)
  }

  predicate Somewhere(item: Item, to: string, now: Store) {
    (item.name in now && now[item.name] == item.blob) || (to in now && now[to] == item.blob)
  }

  /** Nothing is lost, whatever fails, if and only if the move is safe. */
  lemma NothingLost(store: Store, src: string, dst: string, items: seq<Item>)
    requires EndsWithSlash(src) && IsListing(items, store, src)
    ensures (forall now :: Left(store, src, dst, items, now) ==> NoneMissing(src, dst, items, now)) <==>
            Safe(src, dst, items)
  {
    if Safe(src, dst, items) {
      forall now | Left(store, src, dst, items, now)
        ensures NoneMissing(src, dst, items, now)
      {
        SafeLosesNothing(store, src, dst, items, now);
      }
    }
    if forall now :: Left(store, src, dst, items, now) ==> NoneMissing(src, dst, items, now) {
      var all := Copied(store, src, dst, items);
      assert Left(store, src, dst, items, all - Swept(all, src));
      FullMoveIsSafe(store, src, dst, items);
    }
  }

  lemma FullMoveIsSafe(store: Store, src: string, dst: string, items: seq<Item>)
    requires EndsWithSlash(src) && IsListing(items, store, src)
    requires var all := Copied(store, src, dst, items); NoneMissing(src, dst, items, all - Swept(all, src))
    ensures Safe(src, dst, items)
  {
    var all := Copied(store, src, dst, items);
    FullMoveLosesNothing(src, dst, items, all);
    ArrivedIff(store, src, dst, items, all);
  }

  /** After a full sweep no old place is left to hold a file. */
  lemma FullMoveLosesNothing(src: string, dst: string, items: seq<Item>, all: Store)
    requires EndsWithSlash(src) && forall i :: 0 <= i < |items| ==> src <= items[i].name
    requires NoneMissing(src, dst, items, all - Swept(all, src))
    ensures Arrived(src, dst, items, all - Swept(all, src))
  {
    var now := all - Swept(all, src);
    forall i | 0 <= i < |items| && IsFile(items[i])
      ensures var to := Targets(src, dst, items)[i]; to in now && now[to] == items[i].blob
    {
      assert Somewhere(items[i], Targets(src, dst, items)[i], now);
      if items[i].name in all { AskedIsSwept(all, src, items[i].name); }
    }
  }

  lemma SafeLosesNothing(store: Store, src: string, dst: string, items: seq<Item>, now: Store)
    requires EndsWithSlash(src) && IsListing(items, store, src) && Safe(src, dst, items)
    requires Left(store, src, dst, items, now)
    ensures NoneMissing(src, dst, items, now)
  {
    NoneAskedIsIntact(store, src, dst, items);
    forall i | 0 <= i < |items| && IsFile(items[i])
      ensures Somewhere(items[i], Targets(src, dst, items)[i], now)
    {
      var all := Copied(store, src, dst, items);
      if OnlyRemoved(all, now, Swept(all, src)) {
        TargetStays(store, src, dst, items, now, i);
      } else {
        var done :| 0 <= done <= |items| && now == CopyAll(store, src, dst, items[..done]);
        OnlyTargetsChange(store, src, dst, items, done, items[i].name);
      }
    }
  }

  /**
   Everything else after a move whose deletion went through: no file is left under the source,
   nor the source's own name, with its slash or without; and outside the source nothing has
   changed but targets.
   */
  lemma FolderMoved(store: Store, src: string, dst: string, items: seq<Item>, between: Store, k: string)
    requires EndsWithSlash(src) && IsListing(items, store, src)
    requires var all := Copied(store, src, dst, items); OnlyRemoved(all, between, Swept(all, src))
    ensures var now := between - Swept(between, src);
            && (src <= k && k[|k| - 1] != '/' ==> k !in now)
            && (k == src || k + "/" == src ==> k !in now)
            && (!(src <= k) && k + "/" != src && k !in Targets(src, dst, items) && !(items == [] && k == dst) ==>
                  (k in now <==> k in store) && (k in store ==> now[k] == store[k]))
  {
    AskedIff(src, k);
    var all := Copied(store, src, dst, items);
    if Asked(src, k) && k in between { AskedIsSwept(between, src, k); }
    if !(src <= k) && k != TrimSlash(src) && k !in Targets(src, dst, items) && !(items == [] && k == dst) {
      OnlyTargetsChange(store, src, dst, items, |items|, k);
      Whole(items);
      OutsideStays(all, src, k);
      OutsideStays(between, src, k);
    }
  }

  lemma OutsideStays(store: Store, src: string, k: string)
    requires EndsWithSlash(src) && !(src <= k) && k != TrimSlash(src)
    ensures k !in Swept(store, src)
  {
    forall from | from in store && src <= from
      ensures SweptName(store, from) != k
    {
      assert |from| == |src| ==> from == src;
      assert |from| > |src| ==> src <= TrimSlash(from);
    }
  }

  // ---- A destination inside the source ----

  /** Then nothing is safe: every file of the source is gone, from its old place and from its target. */
  lemma AllLost(store: Store, src: string, dst: string, items: seq<Item>, between: Store)
    requires EndsWithSlash(src) && EndsWithSlash(dst) && PlainDir(TrimSlash(dst)) && src <= dst
    requires IsListing(items, store, src) && Tidy(src, items)
    requires var all := Copied(store, src, dst, items); OnlyRemoved(all, between, Swept(all, src))
    ensures var now := between - Swept(between, src);
            forall i :: 0 <= i < |items| && IsFile(items[i]) ==>
              items[i].name !in now && Targets(src, dst, items)[i] !in now
  {
    forall i | 0 <= i < |items| && IsFile(items[i])
      ensures Asked(src, items[i].name) && Asked(src, Targets(src, dst, items)[i])
    {
      FileInside(src, dst, items[i]);
    }
    forall i | 0 <= i < |items| && IsFile(items[i])
      ensures items[i].name !in between - Swept(between, src)
      ensures Targets(src, dst, items)[i] !in between - Swept(between, src)
    {
      FolderMoved(store, src, dst, items, between, items[i].name);
      FolderMoved(store, src, dst, items, between, Targets(src, dst, items)[i]);
    }
  }

  lemma FileInside(src: string, dst: string, item: Item)
    requires EndsWithSlash(src) && EndsWithSlash(dst) && PlainDir(TrimSlash(dst)) && src <= dst
    requires TidyName(src, item.name) && IsFile(item)
    ensures Asked(src, item.name) && Asked(src, Target(src, dst, item))
  {
    TargetIs(src, dst, item);
    var rel := Relative(src, item.name);
    assert item.name == src + rel && rel != "";
    SlashLast(src, rel);
    SlashLast(dst, rel);
    StartsWithin(src, dst, rel);
  }

  lemma StartsWithin(src: string, dst: string, rel: string)
    requires src <= dst
    ensures src <= dst + rel
  {
  }

  /**
   Renaming a listed directory is such a move: the listing gives the directory's path with its
   slash, and path.Dir of that is the directory itself.
   */
  lemma RenameGoesInside(d: string, newName: string)
    requires PlainDir(d) && IsName(newName)
    ensures var listed := d + "/";
            var dst := EnsureTrailingSlash(JoinTwo(DirOf(listed), newName));
            && EnsureTrailingSlash(listed) == listed && listed <= dst
            && EndsWithSlash(dst) && PlainDir(TrimSlash(dst))
  {
    DirOfListed(d);
    JoinName(d, newName);
    DirHasNoSlash(d + "/" + newName);
    assert d + "/" + newName + "/" == (d + "/") + (newName + "/");
  }

  // ---- A destination apart from the source ----

  /** The target of a file is not that of any other blob. */
  lemma OwnTarget(src: string, dst: string, a: Item, b: Item)
    requires EndsWithSlash(src) && EndsWithSlash(dst) && PlainDir(TrimSlash(dst))
    requires IsFile(a) && a.name != b.name && TidyName(src, a.name) && TidyName(src, b.name)
    ensures Target(src, dst, b) != Target(src, dst, a)
  {
    TargetIs(src, dst, a);
    TargetIs(src, dst, b);
    OwnName(src, dst, a, b);
  }

  lemma OwnName(src: string, dst: string, a: Item, b: Item)
    requires IsFile(a) && a.name != b.name && src <= a.name && src <= b.name
    ensures var relA, relB := Relative(src, a.name), Relative(src, b.name);
            dst + relA != dst + if IsFile(b) || relB == "" then relB else EnsureTrailingSlash(relB)
  {
    var relA, relB := Relative(src, a.name), Relative(src, b.name);
    assert a.name == src + relA && b.name == src + relB;
    assert relA != "" ==> EndsWithSlash(relA) == EndsWithSlash(a.name);
    SameTail(dst, relA, if IsFile(b) || relB == "" then relB else EnsureTrailingSlash(relB));
  }

  lemma SameTail(a: string, b: string, c: string)
    ensures a + b == a + c ==> b == c
  {
    assert (a + b)[|a|..] == b && (a + c)[|a|..] == c;
  }

  lemma {:induction false} LastToOwn(ts: seq<string>, bs: seq<Blob>, i: nat)
    requires i < |ts| == |bs| && forall j :: 0 <= j < |ts| && j != i ==> ts[j] != ts[i]
    ensures LastTo(ts, bs, ts[i]) == bs[i]
  {
    var n := |ts| - 1;
    if i < n {
      assert ts[..n][i] == ts[i] && bs[..n][i] == bs[i];
      LastToOwn(ts[..n], bs[..n], i);
    }
  }

  /** With clean names, a move is safe if and only if no file's new name is asked for. */
  lemma TidySafeIff(store: Store, src: string, dst: string, items: seq<Item>)
    requires EndsWithSlash(src) && EndsWithSlash(dst) && PlainDir(TrimSlash(dst))
    requires IsListing(items, store, src) && Tidy(src, items)
    ensures Safe(src, dst, items) <==>
            forall i :: 0 <= i < |items| && IsFile(items[i]) ==> !Asked(src, dst + Relative(src, items[i].name))
  {
    var ts, bs := Targets(src, dst, items), Blobs(items);
    forall i | 0 <= i < |items| && IsFile(items[i])
      ensures ts[i] == dst + Relative(src, items[i].name) && LastTo(ts, bs, ts[i]) == items[i].blob
    {
      TargetIs(src, dst, items[i]);
      forall j | 0 <= j < |items| && j != i
        ensures ts[j] != ts[i]
      {
        OwnTarget(src, dst, items[i], items[j]);
      }
      LastToOwn(ts, bs, i);
    }
  }

  lemma PrefixesApart(a: string, b: string, s: string)
    requires a <= s && b <= s
    ensures a <= b || b <= a
  {
    assert a == s[..|a|] && b == s[..|b|];
  }

  lemma AskedIsNotUnder(src: string, dst: string, k: string)
    requires Apart(src, dst) && Asked(src, k)
    ensures !(dst <= k)
  {
    if dst <= k {
      if src <= k { PrefixesApart(src, dst, k); }
    }
  }

  /** Apart from each other, every move is safe. */
  lemma ApartIsSafe(store: Store, src: string, dst: string, items: seq<Item>)
    requires Apart(src, dst) && IsListing(items, store, src) && Tidy(src, items)
    ensures Safe(src, dst, items)
  {
    TidySafeIff(store, src, dst, items);
    forall i | 0 <= i < |items|
      ensures !Asked(src, dst + Relative(src, items[i].name))
    {
      var to := dst + Relative(src, items[i].name);
      if Asked(src, to) { AskedIsNotUnder(src, dst, to); }
    }
  }

  /** Then nothing but markers of directories further down stays under the source, those that end in a slash. */
  lemma MarkersStay(store: Store, src: string, dst: string, items: seq<Item>, between: Store, k: string)
    requires Apart(src, dst) && IsListing(items, store, src) && Tidy(src, items) && src <= k
    requires var all := Copied(store, src, dst, items); OnlyRemoved(all, between, Swept(all, src))
    ensures k in between - Swept(between, src) <==> k in store && k != src && EndsWithSlash(k)
  {
    var all := Copied(store, src, dst, items);
    TargetsApart(src, dst, items, k);
    OnlyTargetsChange(store, src, dst, items, |items|, k);
    Whole(items);
    CopiedStaysTidy(store, src, dst, items);
    if k in between && Asked(src, k) { AskedIsSwept(between, src, k); }
    if k in all && !Asked(src, k) {
      if k in Swept(all, src) { TidySwept(all, src, k); }
      if k in Swept(between, src) { TidySwept(between, src, k); }
    }
  }

  lemma TargetsApart(src: string, dst: string, items: seq<Item>, k: string)
    requires Apart(src, dst) && Tidy(src, items) && src <= k
    ensures k !in Targets(src, dst, items) && k != dst
  {
    forall i | 0 <= i < |items|
      ensures dst <= Targets(src, dst, items)[i]
    {
      TargetIs(src, dst, items[i]);
    }
    if dst <= k { PrefixesApart(src, dst, k); }
  }

  ghost predicate TidyUnder(store: Store, src: string) {
    forall k :: k in store && src <= k ==> TidyName(src, k)
  }

  lemma CopiedStaysTidy(store: Store, src: string, dst: string, items: seq<Item>)
    requires Apart(src, dst) && IsListing(items, store, src) && Tidy(src, items)
    ensures TidyUnder(Copied(store, src, dst, items), src)
  {
    var all := Copied(store, src, dst, items);
    forall k | k in all && src <= k
      ensures TidyName(src, k)
    {
      TargetsApart(src, dst, items, k);
      OnlyTargetsChange(store, src, dst, items, |items|, k);
      Whole(items);
      var i :| 0 <= i < |items| && items[i] == Item(k, store[k]);
    }
  }

  /** With clean names, no marker stands under another one's name without its slash. */
  lemma TidySwept(store: Store, src: string, k: string)
    requires EndsWithSlash(src) && TidyUnder(store, src) && k in Swept(store, src)
    ensures Asked(src, k)
  {
    if k != src && k != TrimSlash(src) {
      var from :| from in store && src <= from && k == SweptName(store, from);
      OneSlash(src, from);
    }
  }

  lemma OneSlash(src: string, name: string)
    requires EndsWithSlash(src) && TidyName(src, name) && name != src
    ensures src <= TrimSlash(name) && !EndsWithSlash(TrimSlash(name))
  {
    var rel := Relative(src, name);
    assert name == src + rel;
    PlainNotEmpty(TrimSlash(rel));
    SlashLast(src, rel);
    assert TrimSlash(name) == src + TrimSlash(rel);
    SlashLast(src, TrimSlash(rel));
  }
}
