/** Go's path.Clean and path.Join, and what they do to names that are already clean. */
module PathJoin {
  import opened Paths

  /** strings.Join with a slash. */
  function Unsplit(parts: seq<string>): string {
    if parts == [] then ""
    else if |parts| == 1 then parts[0]
    else parts[0] + "/" + Unsplit(parts[1..])
  }

  /** path.Clean on the parts of a path: empty parts and dots go, a double dot takes back a part. */
  function CleanParts(parts: seq<string>, rooted: bool, out: seq<string>): seq<string>
    decreases |parts|
  {
    if parts == [] then out
    else
      var p, rest := parts[0], parts[1..];
      if p == "" || p == "." then CleanParts(rest, rooted, out)
      else if p == ".." then
        if out != [] && Last(out) != ".." then CleanParts(rest, rooted, Front(out))
        else if rooted then CleanParts(rest, rooted, out)
        else CleanParts(rest, rooted, out + [p])
      else CleanParts(rest, rooted, out + [p])
  }

  function Clean(s: string): string {
    if s == "" then "."
    else
      var rooted := s[0] == '/';
      var body := Unsplit(CleanParts(Split(s), rooted, []));
      if rooted then "/" + body else if body == "" then "." else body
  }

  /** path.Join of two elements; empty elements are ignored. */
  function JoinTwo(a: string, b: string): string {
    if a == "" && b == "" then "" else if a == "" then Clean(b) else if b == "" then Clean(a) else Clean(a + "/" + b)
  }

  /** A relative name without empty, "." or ".." parts. */
  predicate Plain(s: string) {
    AreNames(Split(s))
  }

  lemma {:induction false} UnsplitSplit(s: string)
    ensures Unsplit(Split(s)) == s
  {
    if s != "" {
      UnsplitSplit(s[1..]);
      var rest := Split(s[1..]);
      if s[0] == '/' {
        assert ([""] + rest)[1..] == rest;
      } else {
        UnsplitPush(s[0], rest);
      }
    }
  }

  lemma UnsplitPush(c: char, parts: seq<string>)
    requires parts != []
    ensures Unsplit([[c] + parts[0]] + parts[1..]) == [c] + Unsplit(parts)
  {
    var pushed := [[c] + parts[0]] + parts[1..];
    assert pushed[1..] == parts[1..];
    if |parts| > 1 {
      assert [c] + parts[0] + "/" + Unsplit(parts[1..]) == [c] + (parts[0] + "/" + Unsplit(parts[1..]));
    }
  }

  /** Names and empty parts only. */
  predicate NamesOrEmpty(parts: seq<string>) {
    forall i :: 0 <= i < |parts| ==> parts[i] == "" || IsName(parts[i])
  }

  function NonEmpty(parts: seq<string>): seq<string> {
    if parts == [] then []
    else if parts[0] == "" then NonEmpty(parts[1..])
    else [parts[0]] + NonEmpty(parts[1..])
  }

  lemma {:induction false} NamesStay(parts: seq<string>, rooted: bool, out: seq<string>)
    requires NamesOrEmpty(parts)
    ensures CleanParts(parts, rooted, out) == out + NonEmpty(parts)
    decreases |parts|
  {
    if parts == [] {
      assert out + NonEmpty(parts) == out;
    } else if parts[0] == "" {
      NamesStay(parts[1..], rooted, out);
    } else {
      assert IsName(parts[0]);
      NamesStay(parts[1..], rooted, out + [parts[0]]);
      assert out + [parts[0]] + NonEmpty(parts[1..]) == out + NonEmpty(parts);
    }
  }

  lemma {:induction false} NonEmptyConcat(a: seq<string>, b: seq<string>)
    ensures NonEmpty(a + b) == NonEmpty(a) + NonEmpty(b)
  {
    if a == [] {
      assert a + b == b;
    } else {
      assert (a + b)[1..] == a[1..] + b;
      NonEmptyConcat(a[1..], b);
    }
  }

  lemma {:induction false} NonEmptyNames(parts: seq<string>)
    requires AreNames(parts)
    ensures NonEmpty(parts) == parts
  {
    if parts != [] {
      assert IsName(parts[0]);
      NonEmptyNames(parts[1..]);
    }
  }

  lemma {:induction false} UnsplitConcat(a: seq<string>, b: seq<string>)
    requires a != [] && b != []
    ensures Unsplit(a + b) == Unsplit(a) + "/" + Unsplit(b)
  {
    if |a| > 1 {
      assert (a + b)[1..] == a[1..] + b;
      UnsplitConcat(a[1..], b);
      assert Unsplit(a) == a[0] + "/" + Unsplit(a[1..]);
    } else {
      assert (a + b)[1..] == b;
    }
  }

  /** What path.Clean puts together again. */
  predicate Solid(parts: seq<string>) {
    forall i :: 0 <= i < |parts| ==> parts[i] != "" && '/' !in parts[i]
  }

  lemma {:induction false} SplitHasNoSlash(s: string)
    ensures forall i :: 0 <= i < |Split(s)| ==> '/' !in Split(s)[i]
  {
    if s != "" { SplitHasNoSlash(s[1..]); }
  }

  lemma {:induction false} CleanPartsSolid(parts: seq<string>, rooted: bool, out: seq<string>)
    requires Solid(out) && forall i :: 0 <= i < |parts| ==> '/' !in parts[i]
    ensures Solid(CleanParts(parts, rooted, out))
    decreases |parts|
  {
    if parts != [] {
      var p, rest := parts[0], parts[1..];
      if p == "" || p == "." || (p == ".." && rooted && out == []) {
        CleanPartsSolid(rest, rooted, out);
      } else if p == ".." && out != [] && Last(out) != ".." {
        CleanPartsSolid(rest, rooted, Front(out));
      } else if p == ".." && rooted {
        CleanPartsSolid(rest, rooted, out);
      } else {
        CleanPartsSolid(rest, rooted, out + [p]);
      }
    }
  }

  lemma {:induction false} UnsplitEnd(parts: seq<string>)
    requires Solid(parts) && parts != []
    ensures Unsplit(parts) != "" && Unsplit(parts)[|Unsplit(parts)| - 1] != '/'
  {
    if |parts| > 1 {
      UnsplitEnd(parts[1..]);
      assert Unsplit(parts) == parts[0] + "/" + Unsplit(parts[1..]);
    }
  }

  /** A cleaned path ends in a slash only if it is the root. */
  lemma CleanEnd(s: string)
    ensures var c := Clean(s); c != "" && (c[|c| - 1] == '/' ==> c == "/")
  {
    if s != "" {
      var parts := CleanParts(Split(s), s[0] == '/', []);
      SplitHasNoSlash(s);
      CleanPartsSolid(Split(s), s[0] == '/', []);
      if parts != [] { UnsplitEnd(parts); }
    }
  }

  /** A clean directory name, with or without a leading slash. */
  predicate PlainDir(s: string) {
    (s != "" && Plain(s)) || (s != "" && s[0] == '/' && Plain(s[1..]))
  }

  lemma {:induction false} EndsInSlash(s: string)
    requires s != "" && s[|s| - 1] == '/'
    ensures |Split(s)| > 1 && Last(Split(s)) == ""
  {
    if |s| > 1 {
      EndsInSlash(s[1..]);
    } else {
      assert s[1..] == "";
    }
  }

  lemma PlainNotEmpty(s: string)
    requires Plain(s)
    ensures s != "" && s[0] != '/' && s[|s| - 1] != '/'
  {
    assert IsName(Split(s)[0]) && IsName(Last(Split(s)));
    if s != "" && s[|s| - 1] == '/' {
      EndsInSlash(s);
    }
  }

  /** The parts of a clean directory name, without the empty one before a leading slash. */
  lemma DirParts(d: string)
    requires PlainDir(d)
    ensures d != "" && NamesOrEmpty(Split(d)) && NonEmpty(Split(d)) != []
    ensures d == (if d[0] == '/' then "/" else "") + Unsplit(NonEmpty(Split(d)))
  {
    if Plain(d) {
      PlainNotEmpty(d);
      NonEmptyNames(Split(d));
      UnsplitSplit(d);
    } else {
      NonEmptyNames(Split(d[1..]));
      assert Split(d)[1..] == Split(d[1..]);
      assert NonEmpty(Split(d)) == Split(d[1..]);
      UnsplitSplit(d[1..]);
      assert d == "/" + d[1..];
    }
  }

  /** The parts of s, up to empty ones, are those of a clean directory and then some names. */
  predicate Extends(s: string, d: string, names: seq<string>) {
    && s != "" && d != "" && s[0] == d[0]
    && NamesOrEmpty(Split(s)) && NonEmpty(Split(s)) == NonEmpty(Split(d)) + names
  }

  lemma CleanNames(s: string, ds: seq<string>, names: seq<string>)
    requires s != "" && NamesOrEmpty(Split(s)) && NonEmpty(Split(s)) == ds + names
    requires ds != [] && Unsplit(ds) != ""
    ensures Clean(s) == (if s[0] == '/' then "/" else "") +
                        (if names == [] then Unsplit(ds) else Unsplit(ds) + "/" + Unsplit(names))
  {
    NamesStay(Split(s), s[0] == '/', []);
    assert [] + NonEmpty(Split(s)) == ds + names;
    if names == [] {
      assert ds + names == ds;
    } else {
      UnsplitConcat(ds, names);
    }
  }

  lemma CleanIs(s: string, d: string, names: seq<string>)
    requires PlainDir(d) && Extends(s, d, names)
    ensures Clean(s) == if names == [] then d else d + "/" + Unsplit(names)
  {
    var ds := NonEmpty(Split(d));
    DirParts(d);
    RootedRest(d);
    CleanNames(s, ds, names);
    RootedTail(if d[0] == '/' then "/" else "", Unsplit(ds), Unsplit(names));
  }

  lemma RootedTail(root: string, dir: string, rest: string)
    ensures root + (dir + "/" + rest) == (root + dir) + "/" + rest
  {
  }

  lemma RootedRest(d: string)
    requires PlainDir(d)
    ensures Unsplit(NonEmpty(Split(d))) != ""
  {
    DirParts(d);
    if Plain(d) { PlainNotEmpty(d); } else { PlainNotEmpty(d[1..]); }
  }

  lemma ExtendSlash(s: string, d: string, names: seq<string>)
    requires Extends(s, d, names)
    ensures Extends(s + "/", d, names)
  {
    assert s + "/" + "" == s + "/";
    SplitConcat(s, "");
    NonEmptyConcat(Split(s), [""]);
    assert NonEmpty([""]) == [];
  }

  lemma ExtendName(s: string, d: string, rel: string)
    requires Extends(s, d, []) && Plain(rel)
    ensures Extends(s + "/" + rel, d, Split(rel))
  {
    SplitConcat(s, rel);
    NonEmptyNames(Split(rel));
    Appended(Split(s), Split(rel), NonEmpty(Split(d)));
  }

  lemma Appended(parts: seq<string>, names: seq<string>, ds: seq<string>)
    requires NamesOrEmpty(parts) && AreNames(names) && NonEmpty(parts) == ds + []
    ensures NamesOrEmpty(parts + names) && NonEmpty(parts + names) == ds + names
  {
    NonEmptyConcat(parts, names);
    NonEmptyNames(names);
    assert ds + [] == ds;
  }

  lemma ExtendNothing(d: string)
    requires PlainDir(d)
    ensures Extends(d, d, [])
  {
    DirParts(d);
  }

  // ---- The four rules of path.Clean ----

  lemma {:induction false} CleanPartsConcat(a: seq<string>, b: seq<string>, rooted: bool, out: seq<string>)
    ensures CleanParts(a + b, rooted, out) == CleanParts(b, rooted, CleanParts(a, rooted, out))
    decreases |a|
  {
    if a == [] {
      assert a + b == b;
    } else {
      var p := a[0];
      assert (a + b)[0] == p && (a + b)[1..] == a[1..] + b;
      CleanPartsConcat(a[1..], b, rooted, out);
      CleanPartsConcat(a[1..], b, rooted, out + [p]);
      if out != [] { CleanPartsConcat(a[1..], b, rooted, Front(out)); }
    }
  }

  /** Parts that path.Clean takes away. */
  ghost predicate Void(parts: seq<string>) {
    forall rooted, out :: CleanParts(parts, rooted, out) == out
  }

  lemma VoidParts(name: string)
    requires IsName(name)
    ensures Void([""]) && Void(["."]) && Void([name, ".."])
  {
    assert [""][1..] == [] && ["."][1..] == [] && [name, ".."][1..] == [".."] && [".."][1..] == [];
    forall rooted: bool, out: seq<string>
      ensures CleanParts([name, ".."], rooted, out) == out
    {
      assert Front(out + [name]) == out;
      assert CleanParts([name, ".."], rooted, out) == CleanParts([".."], rooted, out + [name]);
    }
  }

  lemma CleanVoid(s: string, mid: string, t: string)
    requires Void(Split(mid))
    ensures Clean(s + "/" + mid + "/" + t) == Clean(s + "/" + t)
  {
    var x, y := s + "/" + mid + "/" + t, s + "/" + t;
    ThreeParts(s, mid, t);
    SplitConcat(s, t);
    var rooted := x[0] == '/';
    assert rooted == (y[0] == '/');
    CleanPartsConcat(Split(s) + Split(mid), Split(t), rooted, []);
    CleanPartsConcat(Split(s), Split(mid), rooted, []);
    CleanPartsConcat(Split(s), Split(t), rooted, []);
  }

  /** Two slashes are one, a dot is nothing, and a name is taken back by the double dot behind it. */
  lemma CleanRules(s: string, t: string, name: string)
    requires IsName(name)
    ensures Clean(s + "//" + t) == Clean(s + "/" + t)
    ensures Clean(s + "/./" + t) == Clean(s + "/" + t)
    ensures Clean(s + "/" + name + "/../" + t) == Clean(s + "/" + t)
  {
    SplitVoid(name);
    CleanVoid(s, "", t);
    CleanVoid(s, ".", t);
    CleanVoid(s, name + "/..", t);
    assert s + "/" + "" + "/" + t == s + "//" + t;
    assert s + "/" + "." + "/" + t == s + "/./" + t;
    assert s + "/" + (name + "/..") + "/" + t == s + "/" + name + "/../" + t;
  }

  lemma SplitVoid(name: string)
    requires IsName(name)
    ensures Void(Split("")) && Void(Split(".")) && Void(Split(name + "/.."))
  {
    VoidParts(name);
    SplitName("");
    SplitName(".");
    SplitName(name);
    SplitName("..");
    SplitConcat(name, "..");
    assert name + "/.." == name + ['/'] + "..";
    assert [name] + [".."] == [name, ".."];
  }

  lemma ThreeParts(s: string, mid: string, t: string)
    ensures Split(s + "/" + mid + "/" + t) == Split(s) + Split(mid) + Split(t)
  {
    SplitConcat(s, mid);
    SplitConcat(s + "/" + mid, t);
  }

  /** At the root a double dot is nothing. */
  lemma CleanRoot(t: string)
    ensures Clean("/../" + t) == Clean("/" + t)
  {
    ThreeParts("", "..", t);
    SplitName("..");
    SplitName("");
    SplitConcat("", t);
    assert "/../" + t == "" + "/" + ".." + "/" + t && "/" + t == "" + "/" + t;
    CleanPartsConcat(["", ".."], Split(t), true, []);
    CleanPartsConcat([""], Split(t), true, []);
    assert ["", ".."][1..] == [".."] && [".."][1..] == [] && [""][1..] == [];
    assert [""] + [".."] + Split(t) == ["", ".."] + Split(t);
  }

  /** path.Dir. */
  function DirOf(s: string): string { Clean(s[..LastIndexOf(s, '/') + 1]) }

  /** path.Dir of a directory that is listed with its slash is the directory itself. */
  lemma DirOfListed(d: string)
    requires PlainDir(d)
    ensures DirOf(d + "/") == d
  {
    LastIndexOfIs(d + "/", '/', |d|);
    assert (d + "/")[..|d| + 1] == d + "/";
    ExtendNothing(d);
    ExtendSlash(d, d, []);
    CleanIs(d + "/", d, []);
  }

  /** A name below a clean directory. */
  lemma JoinName(d: string, name: string)
    requires PlainDir(d) && IsName(name)
    ensures JoinTwo(d, name) == d + "/" + name && PlainDir(d + "/" + name)
  {
    PlainName(name);
    ExtendNothing(d);
    ExtendName(d, d, name);
    CleanName(d, name);
    if Plain(d) { PlainBelow(d, name); } else { RootedBelow(d, name); }
  }

  lemma PlainName(name: string)
    requires IsName(name)
    ensures Split(name) == [name] && Plain(name)
  {
    SplitName(name);
  }

  lemma CleanName(d: string, name: string)
    requires PlainDir(d) && name != "" && Extends(d + "/" + name, d, [name])
    ensures JoinTwo(d, name) == d + "/" + name
  {
    CleanIs(d + "/" + name, d, [name]);
    assert Unsplit([name]) == name;
  }

  lemma RootedBelow(d: string, name: string)
    requires d != "" && d[0] == '/' && Plain(d[1..]) && IsName(name)
    ensures PlainDir(d + "/" + name)
  {
    PlainBelow(d[1..], name);
    assert (d + "/" + name)[1..] == d[1..] + "/" + name;
  }

  lemma PlainBelow(d: string, name: string)
    requires Plain(d) && IsName(name)
    ensures Plain(d + "/" + name)
  {
    SplitConcat(d, name);
    SplitName(name);
  }

  /** Joining a clean directory, ending in a slash, with nothing. */
  lemma JoinNothing(d: string)
    requires PlainDir(d)
    ensures JoinTwo(d + "/", "") == d
  {
    ExtendNothing(d);
    ExtendSlash(d, d, []);
    CleanIs(d + "/", d, []);
  }

  /** Joining it with a clean relative name, ending in a slash or not. */
  lemma JoinPlain(d: string, rel: string)
    requires PlainDir(d) && Plain(rel)
    ensures JoinTwo(d + "/", rel) == d + "/" + rel
    ensures JoinTwo(d + "/", rel + "/") == d + "/" + rel
  {
    PlainNotEmpty(rel);
    UnsplitSplit(rel);
    ExtendNothing(d);
    ExtendSlash(d, d, []);
    ExtendName(d + "/", d, rel);
    CleanIs(d + "/" + "/" + rel, d, Split(rel));
    ExtendSlash(d + "/" + "/" + rel, d, Split(rel));
    CleanIs(d + "/" + "/" + rel + "/", d, Split(rel));
    assert d + "/" + "/" + rel + "/" == d + "/" + "/" + (rel + "/");
  }
}
