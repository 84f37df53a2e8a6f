/** Clean absolute paths, as strings and as lists of components. */
module Paths {

  /** A name that a git tree or a clean path can hold between two slashes. */
  predicate IsName(n: string) {
    n != "" && n != "." && n != ".." && '/' !in n
  }

  predicate AreNames(cs: seq<string>) {
    forall i :: 0 <= i < |cs| ==> IsName(cs[i])
  }

  function Body(cs: seq<string>): string {
    if cs == [] then "" else "/" + cs[0] + Body(cs[1..])
  }

  /** The clean absolute path with these components. */
  function Render(cs: seq<string>): string {
    if cs == [] then "/" else Body(cs)
  }

  /** strings.Index of a single byte; the length of the string when it is absent. */
  function IndexOf(s: string, c: char): (i: nat)
    ensures i <= |s| && forall k :: 0 <= k < i ==> s[k] != c
    ensures i < |s| ==> s[i] == c
  {
    if s == "" || s[0] == c then 0 else 1 + IndexOf(s[1..], c)
  }

  /** strings.LastIndex of a single byte; -1 when it is absent. */
  function LastIndexOf(s: string, c: char): (i: int)
    ensures -1 <= i < |s| && forall k :: i < k < |s| ==> s[k] != c
    ensures i >= 0 ==> s[i] == c
  {
    if s == "" then -1
    else if s[|s| - 1] == c then |s| - 1
    else LastIndexOf(s[..|s| - 1], c)
  }

  /** The components the server sees in a path. */
  function Components(p: string): seq<string> {
    if |p| <= 1 then [] else Split(p[1..])
  }

  /** strings.Split at every separator. */
  function Split(s: string, sep: char := '/'): (parts: seq<string>)
    ensures parts != []
  {
    if s == "" then [""]
    else
      var rest := Split(s[1..], sep);
      if s[0] == sep then [""] + rest else [[s[0]] + rest[0]] + rest[1..]
  }

  predicate IsClean(p: string) {
    AreNames(Components(p)) && p == Render(Components(p))
  }

  /** path.Dir on a clean absolute path. */
  function Dir(p: string): string {
    var i := LastIndexOf(p, '/');
    if i <= 0 then "/" else p[..i]
  }

  /** path.Base on a clean absolute path. */
  function Base(p: string): string {
    if p == "/" then "/" else p[LastIndexOf(p, '/') + 1..]
  }

  /** path.Join of a clean absolute path and a string without a slash. */
  function Join(dir: string, name: string): string {
    if name == "" || name == "." then dir
    else if name == ".." then Dir(dir)
    else if dir == "/" then "/" + name
    else dir + "/" + name
  }

  /** The part of s before the first separator, as strings.Cut returns it. */
  function Before(s: string, c: char): string {
    s[..IndexOf(s, c)]
  }

  function Front(cs: seq<string>): seq<string> requires cs != [] { cs[..|cs| - 1] }

  function Last(cs: seq<string>): string requires cs != [] { cs[|cs| - 1] }

  lemma {:induction false} BodyConcat(cs: seq<string>, ds: seq<string>)
    ensures Body(cs + ds) == Body(cs) + Body(ds)
  {
    if cs == [] {
      assert cs + ds == ds;
    } else {
      BodyConcat(cs[1..], ds);
      assert (cs + ds)[1..] == cs[1..] + ds;
    }
  }

  lemma {:induction false} IndexOfIs(s: string, c: char, i: nat)
    requires i <= |s| && forall k :: 0 <= k < i ==> s[k] != c
    requires i < |s| ==> s[i] == c
    ensures IndexOf(s, c) == i
  {
    if i > 0 {
      IndexOfIs(s[1..], c, i - 1);
    }
  }

  lemma {:induction false} LastIndexOfIs(s: string, c: char, i: nat)
    requires i < |s| && s[i] == c && forall k :: i < k < |s| ==> s[k] != c
    ensures LastIndexOf(s, c) == i
  {
    var n := |s| - 1;
    if i < n {
      LastIndexOfIs(s[..n], c, i);
    }
  }

  lemma {:induction false} SplitConcat(s: string, t: string, sep: char := '/')
    ensures Split(s + [sep] + t, sep) == Split(s, sep) + Split(t, sep)
  {
    var all := s + [sep] + t;
    if s == "" {
      assert all[1..] == t;
    } else {
      assert all[1..] == s[1..] + [sep] + t;
      SplitConcat(s[1..], t, sep);
    }
  }

  lemma {:induction false} SplitName(n: string, sep: char := '/')
    requires sep !in n
    ensures Split(n, sep) == [n]
  {
    if n != "" {
      SplitName(n[1..], sep);
      assert n == [n[0]] + n[1..];
    }
  }

  lemma BodyTail(cs: seq<string>)
    requires cs != []
    ensures Body(cs) != "" && Body(cs)[1..] == cs[0] + Body(cs[1..])
  {
    assert Body(cs) == "/" + (cs[0] + Body(cs[1..]));
  }

  lemma SplitAfterName(name: string, rest: string)
    requires '/' !in name
    ensures Split(name + (['/'] + rest)) == [name] + Split(rest)
  {
    SplitName(name);
    SplitConcat(name, rest);
    assert name + (['/'] + rest) == name + ['/'] + rest;
  }

  lemma {:induction false} SplitBody(cs: seq<string>)
    requires AreNames(cs) && cs != []
    ensures Body(cs) != "" && Split(Body(cs)[1..]) == cs
  {
    BodyTail(cs);
    assert IsName(cs[0]);
    var more := cs[1..];
    if more == [] {
      SplitName(cs[0]);
      assert cs[0] + Body(more) == cs[0];
    } else {
      SplitBody(more);
      BodyTail(more);
      assert Body(more) == ['/'] + Body(more)[1..];
      SplitAfterName(cs[0], Body(more)[1..]);
    }
  }

  /** Rendering and splitting are inverse, so a clean path has exactly one list of components. */
  lemma ComponentsRender(cs: seq<string>)
    requires AreNames(cs)
    ensures Components(Render(cs)) == cs && IsClean(Render(cs))
  {
    if cs != [] {
      SplitBody(cs);
      assert Body(cs) == "/" + cs[0] + Body(cs[1..]);
      assert |Body(cs)| > 1;
    }
  }

  lemma SplitLast(cs: seq<string>)
    requires cs != []
    ensures Body(cs) == Body(Front(cs)) + "/" + Last(cs)
  {
    assert cs == Front(cs) + [Last(cs)];
    BodyConcat(Front(cs), [Last(cs)]);
    assert Body([Last(cs)]) == "/" + Last(cs);
  }

  lemma DirRender(cs: seq<string>)
    requires AreNames(cs) && cs != []
    ensures Dir(Render(cs)) == Render(Front(cs)) && Base(Render(cs)) == Last(cs)
  {
    SplitLast(cs);
    var p := Body(cs);
    var i := |Body(Front(cs))|;
    assert p[i + 1..] == Last(cs);
    assert IsName(Last(cs));
    assert forall k :: i < k < |p| ==> p[k] == Last(cs)[k - i - 1];
    LastIndexOfIs(p, '/', i);
    assert p[..i] == Body(Front(cs));
    assert IsName(Last(cs));
    if Front(cs) != [] {
      assert i > 0;
    }
  }

  lemma JoinRender(cs: seq<string>, n: string)
    requires AreNames(cs) && IsName(n)
    ensures Join(Render(cs), n) == Render(cs + [n])
  {
    BodyConcat(cs, [n]);
    assert Body([n]) == "/" + n;
    if cs != [] {
      assert Render(cs)[..1] == "/";
      ComponentsRender(cs);
    }
  }
}
