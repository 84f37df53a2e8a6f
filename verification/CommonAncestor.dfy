/** getPathCommonAncestor, which works on characters, against the components it is about. */
module CommonAncestor {
  import opened Paths
  import opened GitMoves

  /** A Go slice or index expression out of range panics. */
  datatype Answer = Panic | Answer(ancestor: string, aChild: string, bChild: string, aRest: string, bRest: string)

  /** The first index from i on where the two strings differ or one ends. */
  function Differ(a: string, b: string, i: nat): (n: nat)
    requires i <= |a| && i <= |b|
    ensures i <= n <= |a| && n <= |b| && forall k :: i <= k < n ==> a[k] == b[k]
    ensures n < |a| && n < |b| ==> a[n] != b[n]
    decreases |a| - i
  {
    if i < |a| && i < |b| && a[i] == b[i] then Differ(a, b, i + 1) else i
  }

  /** The first slash from i on, or the end. */
  function SlashFrom(s: string, i: nat): (n: nat)
    requires i <= |s|
    ensures i <= n <= |s| && (n < |s| ==> s[n] == '/') && forall k :: i <= k < n ==> s[k] != '/'
    decreases |s| - i
  {
    if i < |s| && s[i] != '/' then SlashFrom(s, i + 1) else i
  }

  /** The last slash at or before i, or 0. */
  function SlashBack(s: string, i: nat): (n: nat)
    requires i < |s|
    ensures n <= i && (n > 0 ==> s[n] == '/') && forall k :: n < k <= i ==> s[k] != '/'
  {
    if i > 0 && s[i] != '/' then SlashBack(s, i - 1) else i
  }

  lemma RenderAt(cs: seq<string>, k: nat)
    requires k < |cs|
    ensures Render(cs) == (Body(cs[..k]) + "/") + (cs[k] + Body(cs[k + 1..]))
    ensures Body(cs[k..]) == "/" + cs[k] + Body(cs[k + 1..])
  {
    assert cs == cs[..k] + cs[k..];
    BodyConcat(cs[..k], cs[k..]);
    assert cs[k..][0] == cs[k] && cs[k..][1..] == cs[k + 1..];
  }

  /** base is the slash before a component of p that ends at end. */
  predicate Spans(p: string, base: nat, end: nat) {
    && base < end <= |p| && p[base] == '/'
    && (forall k :: base < k < end ==> p[k] != '/')
    && (end == |p| || p[end] == '/')
  }

  /** pre is before a slash of p, x the component behind it, and rest all that is behind it. */
  predicate Located(p: string, pre: string, x: string, rest: string) {
    && Spans(p, |pre|, |pre| + 1 + |x|)
    && p[..|pre|] == pre && p[|pre| + 1..|pre| + 1 + |x|] == x && p[|pre| + 1..] == rest
  }

  lemma LocatedIn(pre: string, x: string, rest: string)
    requires x != "" && '/' !in x && (rest != "" ==> rest[0] == '/')
    ensures Located((pre + "/") + (x + rest), pre, x, x + rest)
  {
    var p, base := (pre + "/") + (x + rest), |pre|;
    assert p[base + 1..] == x + rest;
    assert forall j :: base < j < base + 1 + |x| ==> p[j] == x[j - base - 1];
    assert rest != "" ==> p[base + 1 + |x|] == rest[0];
  }

  lemma ComponentSpan(cs: seq<string>, k: nat)
    requires AreNames(cs) && k < |cs|
    ensures Located(Render(cs), Body(cs[..k]), cs[k], cs[k] + Body(cs[k + 1..]))
  {
    RenderAt(cs, k);
    assert IsName(cs[k]);
    LocatedIn(Body(cs[..k]), cs[k], Body(cs[k + 1..]));
  }

  /** A component prefix is a string prefix. */
  lemma PrefixRender(xs: seq<string>, ys: seq<string>)
    requires AreNames(xs) && AreNames(ys) && xs <= ys
    ensures Render(xs) <= Render(ys)
  {
    assert ys == xs + ys[|xs|..];
    BodyConcat(xs, ys[|xs|..]);
    if ys != [] { RenderAt(ys, 0); }
  }

  /** When the character walk goes wrong, in terms of components. */
  predicate Trips(xs: seq<string>, ys: seq<string>) {
    var k := Common(xs, ys);
    || k == |xs|
    || (k == |ys| && k > 0)
    || (k < |ys| && xs[k] <= ys[k])
  }

  /** The slices between the slash at j and the two component ends; crossing bounds panic. */
  function Cuts(a: string, b: string, j: int, aNext: int, bNext: int): Answer {
    if j < 0 || j + 1 > aNext || aNext > |a| || j + 1 > bNext || bNext > |b| then Panic
    else Answer(if j == 0 then "/" else a[..j], a[j + 1..aNext], b[j + 1..bNext], a[j + 1..], b[j + 1..])
  }

  /** The walk: forward to where the paths part, forward to both component ends, back to the slash. */
  function Walk(a: string, b: string): Answer
    requires a != "" && b != ""
  {
    var i := Differ(a, b, 1);
    if i == |a| then Panic
    else Cuts(a, b, SlashBack(a, i), SlashFrom(a, i), SlashFrom(b, i))
  }

  lemma WalkCuts(a: string, b: string, j: nat, aNext: nat, bNext: nat)
    requires a != "" && b != ""
    requires var i := Differ(a, b, 1);
             i < |a| && j == SlashBack(a, i) && aNext == SlashFrom(a, i) && bNext == SlashFrom(b, i)
    ensures Walk(a, b) == Cuts(a, b, j, aNext, bNext)
  {
  }

  method GetPathCommonAncestor(a: string, b: string) returns (r: Answer)
    requires a != "" && b != ""
    ensures r == Walk(a, b)
  {
    var idx := 1;
    while idx < |a| && idx < |b|
      invariant 1 <= idx <= |a| && idx <= |b|
      invariant Differ(a, b, 1) == Differ(a, b, idx)
    {
      if a[idx] != b[idx] { break; }
      idx := idx + 1;
    }
    var aNextIdx := idx;
    while aNextIdx < |a|
      invariant idx <= aNextIdx <= |a|
      invariant SlashFrom(a, idx) == SlashFrom(a, aNextIdx)
    {
      if a[aNextIdx] == '/' { break; }
      aNextIdx := aNextIdx + 1;
    }
    var bNextIdx := idx;
    while bNextIdx < |b|
      invariant idx <= bNextIdx <= |b|
      invariant SlashFrom(b, idx) == SlashFrom(b, bNextIdx)
    {
      if b[bNextIdx] == '/' { break; }
      bNextIdx := bNextIdx + 1;
    }
    if idx >= |a| { return Panic; }
    ghost var parting := idx;
    while idx > 0
      invariant 0 <= idx <= parting
      invariant SlashBack(a, parting) == SlashBack(a, idx)
    {
      if a[idx] == '/' { break; }
      idx := idx - 1;
    }
    WalkCuts(a, b, idx, aNextIdx, bNextIdx);
    r := Cuts(a, b, idx, aNextIdx, bNextIdx);
  }

  // ---- The walk against components ----

  /** The walk on two strings that agree up to a slash and then have different components. */
  lemma WalkApart(a: string, b: string, base: nat, aEnd: nat, bEnd: nat)
    requires Spans(a, base, aEnd) && base < bEnd <= |b| && a[base + 1..aEnd] != b[base + 1..bEnd]
    requires forall k :: 0 <= k <= base ==> a[k] == b[k]
    requires forall k :: base < k < bEnd ==> b[k] != '/'
    requires bEnd == |b| || b[bEnd] == '/'
    ensures Walk(a, b) == if a[base + 1..aEnd] <= b[base + 1..bEnd] then Panic else Cuts(a, b, base, aEnd, bEnd)
  {
    var x, y := a[base + 1..aEnd], b[base + 1..bEnd];
    var i := Differ(a, b, 1);
    assert i > base;
    assert forall k :: base < k < i ==> a[k] == b[k];
    assert SlashFrom(b, i) == bEnd;
    if i < |a| {
      assert SlashFrom(a, i) == aEnd;
      assert SlashBack(a, i) == if i == aEnd then i else base;
    }
    if i == aEnd {
      assert x == y[..|x|] by {
        forall k | 0 <= k < |x| ensures x[k] == y[k] { assert a[base + 1 + k] == b[base + 1 + k]; }
      }
    } else {
      assert x[i - base - 1] == a[i];
      assert i < bEnd ==> y[i - base - 1] == b[i];
    }
  }

  /** The first string is used up, or goes on with a slash, where they part. */
  lemma WalkTrips(a: string, b: string, i: nat)
    requires 0 < i <= |a| && i <= |b| && (i < |a| ==> i == |b| && a[i] == '/')
    requires forall k :: 0 <= k < i ==> a[k] == b[k]
    ensures Walk(a, b).Panic?
  {
    assert Differ(a, b, 1) == i;
  }

  /** What the walk is meant to return, given that the paths part in component k. */
  function Parted(xs: seq<string>, ys: seq<string>, k: nat): Answer
    requires k < |xs| && k <= |ys|
  {
    Answer(Render(xs[..k]), xs[k], if k < |ys| then ys[k] else "",
           xs[k] + Body(xs[k + 1..]), if k < |ys| then ys[k] + Body(ys[k + 1..]) else "")
  }

  lemma CutsAre(a: string, b: string, pre: string, x: string, y: string, xr: string, yr: string, aEnd: nat, bEnd: nat)
    requires Located(a, pre, x, xr) && Located(b, pre, y, yr) && aEnd == |pre| + 1 + |x| && bEnd == |pre| + 1 + |y|
    ensures Spans(a, |pre|, aEnd) && Spans(b, |pre|, bEnd)
    ensures a[|pre| + 1..aEnd] == x && b[|pre| + 1..bEnd] == y
    ensures Cuts(a, b, |pre|, aEnd, bEnd) == Answer(if |pre| == 0 then "/" else pre, x, y, xr, yr)
  {
  }

  lemma WalkStrings(a: string, b: string, pre: string, x: string, y: string, xr: string, yr: string)
    requires x != y && Located(a, pre, x, xr) && Located(b, pre, y, yr)
    ensures Walk(a, b) == if x <= y then Panic else Answer(if |pre| == 0 then "/" else pre, x, y, xr, yr)
  {
    var aEnd, bEnd := |pre| + 1 + |x|, |pre| + 1 + |y|;
    SamePrefix(a, b, pre, x, y, xr, yr);
    CutsAre(a, b, pre, x, y, xr, yr, aEnd, bEnd);
    WalkApart(a, b, |pre|, aEnd, bEnd);
  }

  lemma WalkParted(xs: seq<string>, ys: seq<string>, k: nat)
    requires AreNames(xs) && AreNames(ys) && k < |xs| && k < |ys| && xs[..k] == ys[..k] && xs[k] != ys[k]
    ensures Walk(Render(xs), Render(ys)) == if xs[k] <= ys[k] then Panic else Parted(xs, ys, k)
  {
    ComponentSpan(xs, k);
    ComponentSpan(ys, k);
    RenderBody(xs[..k]);
    WalkStrings(Render(xs), Render(ys), Body(xs[..k]), xs[k], ys[k],
                xs[k] + Body(xs[k + 1..]), ys[k] + Body(ys[k + 1..]));
  }

  lemma SamePrefix(a: string, b: string, pre: string, x: string, y: string, xr: string, yr: string)
    requires Located(a, pre, x, xr) && Located(b, pre, y, yr)
    ensures forall j :: 0 <= j <= |pre| ==> a[j] == b[j]
  {
    assert forall j :: 0 <= j < |pre| ==> a[j] == pre[j] by {
      assert forall j :: 0 <= j < |pre| ==> a[j] == a[..|pre|][j];
    }
    assert forall j :: 0 <= j < |pre| ==> b[j] == pre[j] by {
      assert forall j :: 0 <= j < |pre| ==> b[j] == b[..|pre|][j];
    }
  }

  lemma RenderBody(cs: seq<string>)
    ensures Render(cs) == if |Body(cs)| == 0 then "/" else Body(cs)
  {
  }

  lemma RootCuts(xs: seq<string>)
    requires AreNames(xs) && xs != []
    ensures Cuts(Render(xs), "/", 0, 1 + |xs[0]|, 1) == Parted(xs, [], 0)
    ensures Spans(Render(xs), 0, 1 + |xs[0]|) && Render(xs)[1..1 + |xs[0]|] == xs[0] != ""
  {
    ComponentSpan(xs, 0);
    assert xs[..0] == [] && Body([]) == "";
    assert IsName(xs[0]);
  }

  lemma WalkPartedAtRoot(xs: seq<string>)
    requires AreNames(xs) && xs != []
    ensures Walk(Render(xs), "/") == Parted(xs, [], 0)
  {
    RootCuts(xs);
    WalkApart(Render(xs), "/", 0, 1 + |xs[0]|, 1);
  }

  /**
   The walk panics exactly on the stated paths; otherwise it returns the last common directory
   and, on both sides, the next component and all that is below it.
   */
  lemma WalkIsCommonAncestor(xs: seq<string>, ys: seq<string>)
    requires AreNames(xs) && AreNames(ys)
    ensures Walk(Render(xs), Render(ys)) ==
            if Trips(xs, ys) then Panic else Parted(xs, ys, Common(xs, ys))
  {
    var k := Common(xs, ys);
    CommonPrefix(xs, ys);
    var a, b := Render(xs), Render(ys);
    if k == |xs| {
      assert ys[..k] == xs;
      PrefixRender(xs, ys);
      WalkTrips(a, b, |a|);
    } else if k == |ys| && k > 0 {
      assert xs[..k] == ys;
      PrefixRender(ys, xs);
      ComponentSpan(xs, k);
      WalkTrips(a, b, |b|);
    } else if k == |ys| {
      WalkPartedAtRoot(xs);
    } else {
      WalkParted(xs, ys, k);
    }
  }
}
