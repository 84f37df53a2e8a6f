/**
 The lines of a link list: two spaces a level, a folder name with a colon, or
 [FileSize:][Modified:]Url. Reading undoes printing.
 */
module LinkLines {
  import opened Wrappers
  import opened Paths
  import opened Texts
  import opened LinkTree

  /** The clock, and net/url's PathUnescape. */
  datatype Env = Env(now: int, unescape: string -> Option<string>)

  datatype Line = Bad | Blank | Item(entry: Entry)

  predicate IsFolder(line: string) { HasSuffix(line, ':') }

  function NameOf(env: Env, url: string): string {
    match env.unescape(BaseName(url))
    case Some(name) => name
    case None => BaseName(url)
  }

  /** Where the url starts: at an http:// anywhere, and only without one at an https://. */
  function UrlIndex(line: string): int {
    if Contains(line, "http://") then Index(line, "http://") else Index(line, "https://")
  }

  /** The numbers in front of the url: its size, and then when it was modified; now if that is missing. */
  function ParseInfo(parts: seq<string>, url: string, level: int, env: Env): Option<Entry>
    requires parts != []
  {
    match ParseInt(parts[0])
    case None => None
    case Some(size) =>
      if |parts| == 1 then Some(Entry(url, NameOf(env, url), level, env.now, size))
      else
        match ParseInt(parts[1])
        case None => None
        case Some(modified) => Some(Entry(url, NameOf(env, url), level, modified, size))
  }

  function ParseFileLine(line: string, level: int, env: Env): Option<Entry> {
    var index := UrlIndex(line);
    if index < 0 then None
    else
      var url, info := line[index..], line[..index];
      if index == 0 then Some(Entry(url, NameOf(env, url), level, 0, 0))
      else if !HasSuffix(info, ':') || |info| == 1 then None
      else ParseInfo(Split(info[..|info| - 1], ':'), url, level, env)
  }

  function Indent(line: string): (n: nat)
    ensures n <= |line|
  {
    if line == "" || line[0] != ' ' then 0 else 1 + Indent(line[1..])
  }

  function ParseLine(line: string, env: Env): Line {
    var indent := Indent(line);
    if indent % 2 != 0 then Bad
    else ParseBody(TrimSpace(line[indent..]), indent / 2, env)
  }

  function ParseBody(body: string, level: int, env: Env): Line {
    if body == "" then Blank
    else if IsFolder(body) then Item(Entry("", body[..|body| - 1], level, 0, 0))
    else
      match ParseFileLine(body, level, env)
      case Some(entry) => Item(entry)
      case None => Bad
  }

  /** The entries of a list; one bad line spoils it. */
  function Collect(ls: seq<Line>): Option<seq<Entry>> {
    if ls == [] then Some([])
    else
      match Collect(ls[..|ls| - 1])
      case None => None
      case Some(es) =>
        match ls[|ls| - 1]
        case Bad => None
        case Blank => Some(es)
        case Item(entry) => Some(es + [entry])
  }

  function ParseLines(lines: seq<string>, env: Env): (ls: seq<Line>)
    ensures |ls| == |lines|
  {
    seq(|lines|, i requires 0 <= i < |lines| => ParseLine(lines[i], env))
  }

  function ParseText(text: string, env: Env): Option<seq<Entry>> {
    Collect(ParseLines(Split(text, '\n'), env))
  }

  lemma {:induction false} BadSpoils(ls: seq<Line>, n: nat)
    requires n <= |ls|
    ensures Collect(ls[..n]).None? ==> Collect(ls).None?
    decreases |ls|
  {
    if n < |ls| {
      assert ls[..|ls| - 1][..n] == ls[..n];
      BadSpoils(ls[..|ls| - 1], n);
    } else {
      assert ls[..n] == ls;
    }
  }

  // ---- Printing ----

  predicate AreSpaces(s: string) { forall i :: 0 <= i < |s| ==> s[i] == ' ' }

  function Spaces(n: nat): (s: string)
    ensures |s| == n && AreSpaces(s)
  {
    seq(n, _ => ' ')
  }

  function FileInfo(e: Entry): string { Decimal(e.size) + ":" + Decimal(e.modified) + ":" }

  function PrintBody(e: Entry): string { if IsFile(e) then FileInfo(e) + e.url else e.name + ":" }

  function PrintLine(e: Entry): string
    requires e.level >= 0
  {
    Spaces(2 * e.level) + PrintBody(e)
  }

  predicate StartsUrl(url: string) {
    "http://" <= url || ("https://" <= url && !Contains(url, "http://"))
  }

  /** What a line can hold: no newline, no space that would be trimmed, a file named after its url. */
  predicate Printable(e: Entry, env: Env) {
    && e.level >= 0
    && '\n' !in e.url
    && (if IsFile(e) then
          && StartsUrl(e.url) && !IsSpace(e.url[|e.url| - 1]) && !HasSuffix(e.url, ':')
          && e.name == NameOf(env, e.url) && IsInt64(e.size) && IsInt64(e.modified)
        else
          && '\n' !in e.name && (e.name != "" ==> !IsSpace(e.name[0]))
          && e.size == 0 && e.modified == 0)
  }

  lemma {:induction false} IndentSpaces(pad: string, body: string)
    requires AreSpaces(pad) && (body != "" ==> body[0] != ' ')
    ensures Indent(pad + body) == |pad|
  {
    if pad == "" {
      assert pad + body == body;
    } else {
      IndentSpaces(pad[1..], body);
      assert (pad + body)[1..] == pad[1..] + body;
    }
  }

  lemma UrlAfterInfo(info: string, url: string)
    requires 'h' !in info && StartsUrl(url)
    ensures var line := info + url; UrlIndex(line) == |info| && line[|info|..] == url && line[..|info|] == info
  {
    if "http://" <= url {
      IndexAfter(info, url, "http://");
    } else {
      NotContained(info, url, "http://");
      IndexAfter(info, url, "https://");
    }
  }

  lemma AfterInfo(parts: seq<string>, info: string, url: string, level: int, env: Env)
    requires StartsUrl(url) && 'h' !in info && |info| > 1 && HasSuffix(info, ':')
    requires parts != [] && Split(info[..|info| - 1], ':') == parts
    ensures ParseFileLine(info + url, level, env) == ParseInfo(parts, url, level, env)
  {
    UrlAfterInfo(info, url);
  }

  lemma UrlOnly(url: string, level: int, env: Env)
    requires StartsUrl(url)
    ensures ParseFileLine(url, level, env) == Some(Entry(url, NameOf(env, url), level, 0, 0))
  {
    UrlAfterInfo("", url);
    assert "" + url == url;
  }

  lemma SizeAndUrl(url: string, size: int, level: int, env: Env)
    requires StartsUrl(url) && IsInt64(size)
    ensures ParseFileLine(Decimal(size) + ":" + url, level, env) ==
            Some(Entry(url, NameOf(env, url), level, env.now, size))
  {
    var d := Decimal(size);
    DecimalChars(size);
    SplitName(d, ':');
    assert (d + ":")[..|d|] == d;
    AfterInfo([d], d + ":", url, level, env);
    ParseDecimal(size);
  }

  lemma FileInfoParts(e: Entry)
    ensures var info := FileInfo(e);
            && |info| > 1 && HasSuffix(info, ':') && 'h' !in info && '\n' !in info && !IsSpace(info[0])
            && Split(info[..|info| - 1], ':') == [Decimal(e.size), Decimal(e.modified)]
  {
    var a, b := Decimal(e.size), Decimal(e.modified);
    DecimalChars(e.size);
    DecimalChars(e.modified);
    var info := FileInfo(e);
    assert info[..|info| - 1] == a + [':'] + b;
    SplitName(a, ':');
    SplitName(b, ':');
    SplitConcat(a, b, ':');
  }

  lemma SizeModifiedAndUrl(e: Entry, env: Env)
    requires StartsUrl(e.url) && IsInt64(e.size) && IsInt64(e.modified)
    ensures ParseFileLine(FileInfo(e) + e.url, e.level, env) == Some(e.(name := NameOf(env, e.url)))
  {
    FileInfoParts(e);
    AfterInfo([Decimal(e.size), Decimal(e.modified)], FileInfo(e), e.url, e.level, env);
    ParseDecimal(e.size);
    ParseDecimal(e.modified);
  }

  /** The three documented forms of a file line. */
  lemma FileForms(url: string, size: int, modified: int, level: int, env: Env)
    requires StartsUrl(url) && IsInt64(size) && IsInt64(modified)
    ensures var name := NameOf(env, url);
            && ParseFileLine(url, level, env) == Some(Entry(url, name, level, 0, 0))
            && ParseFileLine(Decimal(size) + ":" + url, level, env) == Some(Entry(url, name, level, env.now, size))
            && ParseFileLine(Decimal(size) + ":" + Decimal(modified) + ":" + url, level, env)
               == Some(Entry(url, name, level, modified, size))
  {
    UrlOnly(url, level, env);
    SizeAndUrl(url, size, level, env);
    SizeModifiedAndUrl(Entry(url, NameOf(env, url), level, modified, size), env);
  }

  lemma BodyIsTrimmed(e: Entry, env: Env)
    requires Printable(e, env)
    ensures var body := PrintBody(e); IsTrimmed(body) && '\n' !in body && IsFolder(body) == !IsFile(e)
  {
    if IsFile(e) { FileInfoParts(e); }
  }

  lemma BodyBack(e: Entry, env: Env)
    requires Printable(e, env)
    ensures PrintBody(e) != "" && ParseBody(PrintBody(e), e.level, env) == Item(e)
  {
    BodyIsTrimmed(e, env);
    if IsFile(e) {
      SizeModifiedAndUrl(e, env);
    } else {
      assert PrintBody(e)[..|e.name|] == e.name;
    }
  }

  lemma TrimmedStays(body: string)
    requires IsTrimmed(body)
    ensures TrimSpace(body) == body
  {
  }

  lemma LineIsBody(line: string, level: nat, body: string, env: Env)
    requires Indent(line) == 2 * level && TrimSpace(line[2 * level..]) == body
    ensures ParseLine(line, env) == ParseBody(body, level, env)
  {
  }

  lemma ParseIndented(pad: string, level: nat, body: string, env: Env)
    requires AreSpaces(pad) && |pad| == 2 * level && IsTrimmed(body)
    ensures ParseLine(pad + body, env) == ParseBody(body, level, env)
  {
    IndentSpaces(pad, body);
    TrimmedStays(body);
    assert (pad + body)[|pad|..] == body;
    LineIsBody(pad + body, level, body, env);
  }

  lemma LineBack(e: Entry, env: Env)
    requires Printable(e, env)
    ensures ParseLine(PrintLine(e), env) == Item(e) && '\n' !in PrintLine(e)
  {
    BodyIsTrimmed(e, env);
    BodyBack(e, env);
    ParseIndented(Spaces(2 * e.level), e.level, PrintBody(e), env);
  }

  function PrintLines(es: seq<Entry>): (lines: seq<string>)
    requires forall i :: 0 <= i < |es| ==> es[i].level >= 0
    ensures |lines| == |es|
  {
    seq(|es|, i requires 0 <= i < |es| => PrintLine(es[i]))
  }

  function PrintText(es: seq<Entry>): string
    requires forall i :: 0 <= i < |es| ==> es[i].level >= 0
  {
    JoinAll(PrintLines(es), '\n')
  }

  ghost predicate AllPrintable(es: seq<Entry>, env: Env) {
    forall i :: 0 <= i < |es| ==> Printable(es[i], env)
  }

  function Items(es: seq<Entry>): seq<Line> { seq(|es|, i requires 0 <= i < |es| => Item(es[i])) }

  lemma {:induction false} CollectItems(es: seq<Entry>)
    ensures Collect(Items(es)) == Some(es)
    decreases |es|
  {
    if es != [] {
      var n := |es| - 1;
      CollectItems(es[..n]);
      assert Items(es)[..n] == Items(es[..n]);
      assert es == es[..n] + [es[n]];
    }
  }

  lemma TextBack(es: seq<Entry>, env: Env)
    requires AllPrintable(es, env)
    ensures ParseText(PrintText(es), env) == Some(es)
  {
    if es == [] {
      assert PrintLines(es) == [];
      EmptyText(env);
    } else {
      var lines := PrintLines(es);
      forall i | 0 <= i < |es|
        ensures '\n' !in lines[i] && ParseLine(lines[i], env) == Item(es[i])
      {
        LineBack(es[i], env);
      }
      SplitJoin(lines, '\n');
      assert ParseLines(lines, env) == Items(es);
      CollectItems(es);
    }
  }

  lemma EmptyText(env: Env)
    ensures ParseText("", env) == Some([])
  {
    assert ParseLine("", env) == Blank;
    var ls := ParseLines(Split("", '\n'), env);
    assert ls == [Blank];
    assert Collect([]) == Some([]) && [Blank][..0] == [];
    assert Collect([Blank]) == Some([]);
  }

  // ---- What each line means, form by form ----

  /** An odd number of spaces is bad; of an even number each two are a level. */
  lemma IndentForms(pad: string, body: string, env: Env)
    requires AreSpaces(pad) && (body != "" ==> body[0] != ' ')
    ensures ParseLine(pad + body, env) ==
            if |pad| % 2 != 0 then Bad else ParseBody(TrimSpace(body), |pad| / 2, env)
  {
    IndentSpaces(pad, body);
    assert (pad + body)[|pad|..] == body;
  }

  /** Nothing is a blank line, and a text with a colon at its end a folder of that name. */
  lemma FolderForms(name: string, level: int, env: Env)
    ensures ParseBody("", level, env) == Blank
    ensures ParseBody(name + ":", level, env) == Item(Entry("", name, level, 0, 0))
  {
    assert (name + ":")[..|name|] == name;
  }

  /** Everything else must be a file. */
  lemma OtherForms(body: string, level: int, env: Env)
    requires body != "" && body[|body| - 1] != ':'
    ensures var r := ParseFileLine(body, level, env);
            ParseBody(body, level, env) == if r.Some? then Item(r.value) else Bad
    ensures (forall j :: 0 <= j <= |body| ==> !("http://" <= body[j..]) && !("https://" <= body[j..])) ==>
              ParseBody(body, level, env) == Bad
  {
    IndexIsFirst(body, "http://");
    IndexIsFirst(body, "https://");
  }

  /**
   In front of a url there can be one number or more, each with a colon behind it; the first is
   the size and the second, if there is one, the time. Anything else is bad.
   */
  lemma InfoForms(info: string, url: string, level: int, env: Env)
    requires StartsUrl(url) && 'h' !in info && info != ""
    ensures info == ":" || info[|info| - 1] != ':' ==> ParseFileLine(info + url, level, env) == None
    ensures |info| > 1 && info[|info| - 1] == ':' ==>
              var parts := Split(info[..|info| - 1], ':');
              var size := ParseInt(parts[0]);
              var modified := if |parts| > 1 then ParseInt(parts[1]) else Some(env.now);
              ParseFileLine(info + url, level, env) ==
              if size.Some? && modified.Some? then Some(Entry(url, NameOf(env, url), level, modified.value, size.value))
              else None
  {
    UrlAfterInfo(info, url);
  }

  /** A file is named by what is behind the last slash of its url, unescaped if that works. */
  lemma NameForms(dir: string, name: string, tail: string, env: Env)
    requires name != "" && '/' !in name && (dir == "" || dir[|dir| - 1] == '/') && AllSlash(tail)
    ensures NameOf(env, dir + name + tail) ==
            if env.unescape(name).Some? then env.unescape(name).value else name
  {
    BaseNameIs(dir, name, tail);
  }

  /** The entries of the lines in order, without the blank ones, and nothing if a line is bad. */
  lemma {:induction false} CollectConcat(a: seq<Line>, b: seq<Line>)
    ensures Collect(a + b) ==
            if Collect(a).Some? && Collect(b).Some? then Some(Collect(a).value + Collect(b).value) else None
    decreases |b|
  {
    if b == [] {
      assert a + b == a;
      if Collect(a).Some? { assert Collect(a).value + [] == Collect(a).value; }
    } else {
      var n := |b| - 1;
      assert (a + b)[..|a + b| - 1] == a + b[..n] && (a + b)[|a + b| - 1] == b[n];
      CollectConcat(a, b[..n]);
      if Collect(a).Some? && Collect(b[..n]).Some? {
        var x, y := Collect(a).value, Collect(b[..n]).value;
        assert b[n].Item? ==> x + y + [b[n].entry] == x + (y + [b[n].entry]);
      }
    }
  }

  lemma CollectOne(l: Line)
    ensures Collect([]) == Some([])
    ensures Collect([l]) == match l case Bad => None case Blank => Some([]) case Item(e) => Some([e])
  {
    assert [l][..0] == [] && [l][0] == l;
    assert Collect([l][..0]) == Some([]);
    if l.Item? { assert [] + [l.entry] == [l.entry]; }
  }

  // ---- What is read can be printed ----

  lemma UrlStarts(line: string)
    ensures var i := UrlIndex(line); -1 <= i <= |line| && (i >= 0 ==> i < |line| && StartsUrl(line[i..]))
  {
    var i := UrlIndex(line);
    if i >= 0 && !Contains(line, "http://") { NotInTail(line, "http://", i); }
  }

  lemma InfoIsFit(parts: seq<string>, url: string, level: int, env: Env)
    requires parts != [] && IsInt64(env.now)
    ensures var r := ParseInfo(parts, url, level, env);
            r.Some? ==> r.value == Entry(url, NameOf(env, url), level, r.value.modified, r.value.size) &&
                        IsInt64(r.value.size) && IsInt64(r.value.modified)
  {
  }

  lemma FileLineIsFit(line: string, level: int, env: Env)
    requires IsInt64(env.now)
    ensures var r, i := ParseFileLine(line, level, env), UrlIndex(line);
            r.Some? ==>
              && 0 <= i <= |line|
              && r.value == Entry(line[i..], NameOf(env, line[i..]), level, r.value.modified, r.value.size)
              && IsInt64(r.value.size) && IsInt64(r.value.modified)
  {
    UrlStarts(line);
    var i := UrlIndex(line);
    if i > 0 && HasSuffix(line[..i], ':') && i > 1 {
      InfoIsFit(Split(line[..i - 1], ':'), line[i..], level, env);
      assert line[..i][..i - 1] == line[..i - 1];
    }
  }

  lemma TailOfBody(body: string, i: nat)
    requires i < |body| && IsTrimmed(body) && !IsFolder(body) && '\n' !in body
    ensures var url := body[i..]; url != "" && '\n' !in url && !IsSpace(url[|url| - 1]) && !HasSuffix(url, ':')
  {
    assert body[i..][|body| - i - 1] == body[|body| - 1];
  }

  lemma FileLineIsPrintable(body: string, level: nat, env: Env)
    requires IsTrimmed(body) && !IsFolder(body) && '\n' !in body && IsInt64(env.now)
    ensures var r := ParseFileLine(body, level, env); r.Some? ==> Printable(r.value, env)
  {
    UrlStarts(body);
    FileLineIsFit(body, level, env);
    if ParseFileLine(body, level, env).Some? { TailOfBody(body, UrlIndex(body)); }
  }

  lemma BodyIsPrintable(body: string, level: nat, env: Env)
    requires (body == "" || IsTrimmed(body)) && '\n' !in body && IsInt64(env.now)
    ensures var l := ParseBody(body, level, env); l.Item? ==> Printable(l.entry, env)
  {
    if body != "" && !IsFolder(body) { FileLineIsPrintable(body, level, env); }
  }

  lemma LineIsPrintable(line: string, env: Env)
    requires '\n' !in line && IsInt64(env.now)
    ensures var l := ParseLine(line, env); l.Item? ==> Printable(l.entry, env)
  {
    var indent := Indent(line);
    TrimSpaceIs(line[indent..]);
    BodyIsPrintable(TrimSpace(line[indent..]), indent / 2, env);
  }

  lemma {:induction false} CollectedPrintable(ls: seq<Line>, env: Env)
    requires forall i :: 0 <= i < |ls| && ls[i].Item? ==> Printable(ls[i].entry, env)
    ensures var r := Collect(ls); r.Some? ==> AllPrintable(r.value, env)
    decreases |ls|
  {
    if ls != [] { CollectedPrintable(ls[..|ls| - 1], env); }
  }

  /** Every entry that is read from a text can be printed. */
  lemma ReadIsPrintable(text: string, env: Env)
    requires IsInt64(env.now)
    ensures var r := ParseText(text, env); r.Some? ==> AllPrintable(r.value, env)
  {
    var lines := Split(text, '\n');
    SplitHasNone(text, '\n');
    var ls := ParseLines(lines, env);
    forall i | 0 <= i < |ls| && ls[i].Item?
      ensures Printable(ls[i].entry, env)
    {
      LineIsPrintable(lines[i], env);
    }
    CollectedPrintable(ls, env);
  }

  predicate Fits(e: Entry) { e.level >= 0 && IsInt64(e.size) && IsInt64(e.modified) }

  /** What is read fits a node's fields, and its tree is well nested. */
  lemma ReadTreeIsNested(text: string, env: Env)
    requires IsInt64(env.now) && ParseText(text, env).Some?
    ensures var es := ParseText(text, env).value;
            (forall i :: 0 <= i < |es| ==> Fits(es[i])) && WellNested(Build(es)) && Preorder(Build(es)) == [Root] + es
  {
    ReadIsPrintable(text, env);
    BuildIsNested(ParseText(text, env).value);
    BuildKeepsList(ParseText(text, env).value);
  }

  /** A printed line stays one line and reads back as its entry for exactly the entries that fit on a line. */
  lemma LineBackIff(e: Entry, env: Env)
    requires e.level >= 0 && IsInt64(env.now)
    ensures '\n' !in PrintLine(e) && ParseLine(PrintLine(e), env) == Item(e) <==> Printable(e, env)
  {
    if Printable(e, env) { LineBack(e, env); }
    if '\n' !in PrintLine(e) { LineIsPrintable(PrintLine(e), env); }
  }

  lemma ListIs(es: seq<Entry>)
    ensures PreorderAll(Build(es).kids) == es
  {
    BuildKeepsList(es);
    assert Preorder(Build(es))[1..] == PreorderAll(Build(es).kids);
    assert ([Root] + es)[1..] == es;
  }

  /** Printing a tree and reading it again gives the same tree for exactly the well-nested ones of printable entries. */
  lemma TreeRoundTripIff(t: Tree, env: Env)
    requires t.entry == Root && IsInt64(env.now)
    requires forall i :: 0 <= i < |PreorderAll(t.kids)| ==> PreorderAll(t.kids)[i].level >= 0
    ensures var r := ParseText(PrintText(PreorderAll(t.kids)), env);
            r.Some? && Build(r.value) == t <==> WellNested(t) && AllPrintable(PreorderAll(t.kids), env)
  {
    var es := PreorderAll(t.kids);
    var r := ParseText(PrintText(es), env);
    RebuildIff(t);
    if AllPrintable(es, env) { TextBack(es, env); }
    if r.Some? && Build(r.value) == t {
      ListIs(r.value);
      ReadIsPrintable(PrintText(es), env);
    }
  }

  /** In particular for a folder tree whose levels are the depths. */
  lemma TreeRoundTrip(t: Tree, env: Env)
    requires t.entry == Root && Leveled(t, -1) && FilesAreLeaves(t) && AllPrintable(PreorderAll(t.kids), env)
    ensures var r := ParseText(PrintText(PreorderAll(t.kids)), env); r.Some? && Build(r.value) == t
  {
    LeveledIsNested(t, -1);
    TextBack(PreorderAll(t.kids), env);
    RebuildIff(t);
  }

  /** Whatever was read, printed level by level, reads as the same tree. */
  lemma ReadTreeRoundTrip(text: string, env: Env)
    requires IsInt64(env.now) && ParseText(text, env).Some?
    ensures var t := Build(ParseText(text, env).value);
            && AllPrintable(PreorderAll(t.kids), env)
            && ParseText(PrintText(PreorderAll(t.kids)), env) == ParseText(text, env)
  {
    var es := ParseText(text, env).value;
    ReadIsPrintable(text, env);
    ListIs(es);
    TextBack(es, env);
  }

  // ---- Paths of nodes ----

  function SplitPath(path: string): seq<string> {
    if path == "/" then ["root"] else ["root"] + Split(path)[1..]
  }

  function GetNodeFromRootByPath(root: Tree, path: string): Found { GetByPath(root, SplitPath(path)) }

  /** On a clean path, a node is found exactly when its names lead down from the root. */
  lemma NodeByPathIff(root: Tree, names: seq<string>)
    requires root.entry == Root && AreNames(names)
    ensures var r := GetNodeFromRootByPath(root, Render(names));
            && (r.Found? ==> IsChain(root, r.chain) && NamesTo(root, r.chain) == ["root"] + names)
            && (r.NotFound? ==> forall chain :: IsChain(root, chain) ==> NamesTo(root, chain) != ["root"] + names)
  {
    if names != [] {
      SplitBody(names);
      var path := Render(names);
      assert path[0] == '/' && Split(path)[1..] == Split(path[1..]);
      ComponentsRender(names);
    }
    FoundIff(root, SplitPath(Render(names)));
  }
}
