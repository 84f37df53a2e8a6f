/** The passive ports of the FTP server: ranges of exposed ports, each with a range of listened ones. */
module PortMapper {
  import opened Wrappers
  import opened Paths
  import opened Texts

  datatype Group = Group(exposedStart: int, listenedStart: int, length: int)

  datatype Ports = Ports(start: int, length: int)

  /** strings.Cut: whether the separator occurs; the part before it is Before. */
  function After(s: string, c: char): string
    requires c in s
  {
    s[IndexOf(s, c) + 1..]
  }

  /** One port, or an inclusive range of unprivileged ones. */
  function ConvertToPorts(str: string): Option<Ports> {
    if '-' !in str then
      match ParseInt(str)
      case Some(port) => Some(Ports(port, 1))
      case None => None
    else
      match (ParseInt(Before(str, '-')), ParseInt(After(str, '-')))
      case (Some(si), Some(ei)) =>
        if ei < si || ei < 1024 || si < 1024 || ei > 65535 || si > 65535 then None else Some(Ports(si, ei - si + 1))
      case _ => None
  }

  function ParseGroup(mapper: string): Option<Group> {
    if ':' in mapper then
      match (ConvertToPorts(Before(mapper, ':')), ConvertToPorts(After(mapper, ':')))
      case (Some(e), Some(l)) => if e.length != l.length then None else Some(Group(e.start, l.start, e.length))
      case _ => None
    else
      match ConvertToPorts(mapper)
      case Some(p) => Some(Group(p.start, p.start, p.length))
      case None => None
  }

  lemma CutIs(s: string, t: string, c: char)
    requires c !in s
    ensures c in s + [c] + t && Before(s + [c] + t, c) == s && After(s + [c] + t, c) == t
  {
    var all := s + [c] + t;
    assert all[|s|] == c;
    IndexOfIs(all, c, |s|);
    assert all[..|s|] == s && all[|s| + 1..] == t;
  }

  /** One port stands for itself, and two with a dash between them for a range of unprivileged ports. */
  lemma PortForms(s: string, t: string)
    requires '-' !in s
    ensures ConvertToPorts(s) == if ParseInt(s).Some? then Some(Ports(ParseInt(s).value, 1)) else None
    ensures ConvertToPorts(s + "-" + t) ==
            if ParseInt(s).Some? && ParseInt(t).Some? && 1024 <= ParseInt(s).value <= ParseInt(t).value <= 65535
            then Some(Ports(ParseInt(s).value, ParseInt(t).value - ParseInt(s).value + 1))
            else None
  {
    CutIs(s, t, '-');
    PortRange(s + "-" + t, s, t);
  }

  lemma PortRange(str: string, s: string, t: string)
    requires '-' in str && Before(str, '-') == s && After(str, '-') == t
    ensures ConvertToPorts(str) ==
            if ParseInt(s).Some? && ParseInt(t).Some? && 1024 <= ParseInt(s).value <= ParseInt(t).value <= 65535
            then Some(Ports(ParseInt(s).value, ParseInt(t).value - ParseInt(s).value + 1))
            else None
  {
  }

  /** Exposed ports stand for themselves, or for as many listened ones behind a colon. */
  lemma GroupForms(s: string, t: string)
    requires ':' !in s
    ensures var e, l := ConvertToPorts(s), ConvertToPorts(t);
            && ParseGroup(s) == (if e.Some? then Some(Group(e.value.start, e.value.start, e.value.length)) else None)
            && ParseGroup(s + ":" + t) ==
               if e.Some? && l.Some? && e.value.length == l.value.length
               then Some(Group(e.value.start, l.value.start, e.value.length)) else None
  {
    CutIs(s, t, ':');
  }

  /** Entries are separated by commas and newlines. */
  lemma MapperForms(s: string, t: string)
    ensures Mappers(s + "," + t) == Mappers(s) + Mappers(t) && Mappers(s + "\n" + t) == Mappers(s) + Mappers(t)
    ensures ',' !in s && '\n' !in s ==> Mappers(s) == [s]
  {
    var a, b := Commas(s), Commas(t);
    assert Commas(s + "," + t) == a + [','] + b && Commas(s + "\n" + t) == a + [','] + b;
    SplitConcat(a, b, ',');
    if ',' !in s && '\n' !in s {
      assert a == s;
      SplitName(s, ',');
    }
  }

  lemma StartIs(groups: seq<Group>, g: nat)
    requires g < |groups|
    ensures Start(groups, 0) == 0 && Start(groups, g + 1) == Start(groups, g) + groups[g].length
  {
  }

  /** The ports of the groups before the g-th one. */
  function Start(groups: seq<Group>, g: nat): int
    requires g <= |groups|
  {
    if g == 0 then 0 else Start(groups, g - 1) + groups[g - 1].length
  }

  ghost predicate NoneEmpty(groups: seq<Group>) { forall g :: 0 <= g < |groups| ==> groups[g].length > 0 }

  lemma {:induction false} StartsGrow(groups: seq<Group>, g: nat, h: nat)
    requires NoneEmpty(groups) && g < h <= |groups|
    ensures Start(groups, g) + groups[g].length <= Start(groups, h)
    ensures 0 <= Start(groups, g)
    decreases h + g
  {
    if g > 0 { StartsGrow(groups, g - 1, g); }
    if g < h - 1 { StartsGrow(groups, g, h - 1); }
  }

  /** The position of a place in one group among all ports. */
  predicate IsPlace(groups: seq<Group>, idx: int, g: nat) {
    g < |groups| && Start(groups, g) <= idx < Start(groups, g) + groups[g].length
  }

  /** Every position has exactly one group, and every place in a group has its position. */
  lemma OnePlace(groups: seq<Group>, idx: int, g: nat, h: nat)
    requires NoneEmpty(groups) && IsPlace(groups, idx, g)
    ensures 0 <= idx < Start(groups, |groups|)
    ensures IsPlace(groups, idx, h) ==> g == h
  {
    StartsGrow(groups, g, |groups|);
    if h < |groups| {
      if g < h { StartsGrow(groups, g, h); }
      if h < g { StartsGrow(groups, h, g); }
    }
  }

  lemma GroupsHavePorts(mapper: string)
    ensures var g := ParseGroup(mapper); g.Some? ==> g.value.length > 0
  {
  }

  ghost function ParseAll(mappers: seq<string>): (parsed: seq<Option<Group>>)
    ensures |parsed| == |mappers|
  {
    seq(|mappers|, i requires 0 <= i < |mappers| => ParseGroup(mappers[i]))
  }

  ghost predicate Parsed(mappers: seq<string>, parsed: seq<Option<Group>>) {
    && |parsed| == |mappers|
    && forall k {:trigger ParseGroup(mappers[k])} :: 0 <= k < |mappers| ==> ParseGroup(mappers[k]) == parsed[k]
  }

  method ReadGroup(mappers: seq<string>, i: nat, ghost parsed: seq<Option<Group>>) returns (group: Option<Group>)
    requires i < |mappers| && Parsed(mappers, parsed)
    ensures group == parsed[i] && (group.Some? ==> group.value.length > 0)
  {
    group := ParseGroup(mappers[i]);
    GroupsHavePorts(mappers[i]);
  }

  /** All of the list or nothing; the number of ports is the sum over the groups and never 0. */
  method ReadGroups(mappers: seq<string>, ghost parsed: seq<Option<Group>>)
    returns (ok: bool, groups: seq<Group>, totalLength: int)
    requires mappers != [] && Parsed(mappers, parsed)
    ensures ok <==> None !in parsed
    ensures ok ==> |groups| == |parsed| && forall k :: 0 <= k < |groups| ==> parsed[k] == Some(groups[k])
    ensures ok ==> NoneEmpty(groups) && totalLength == Start(groups, |groups|) > 0
  {
    groups, totalLength := [], 0;
    var i := 0;
    while i < |mappers|
      invariant 0 <= i == |groups| <= |mappers| && NoneEmpty(groups) && totalLength == Start(groups, i)
      invariant forall k :: 0 <= k < i ==> parsed[k] == Some(groups[k])
    {
      var group := ReadGroup(mappers, i, parsed);
      if group.None? { return false, [], 0; }
      StartsSame(groups, group.value, i);
      groups := groups + [group.value];
      totalLength := totalLength + group.value.length;
      i := i + 1;
    }
    ok := true;
    StartsGrow(groups, 0, |groups|);
  }

  /** An empty text means no mapper; newlines separate entries like commas. */
  method NewPortMapper(str: string) returns (ok: bool, groups: seq<Group>, totalLength: int)
    ensures ok <==> str != "" && None !in ParseAll(Mappers(str))
    ensures ok ==> |groups| == |Mappers(str)|
    ensures ok ==> forall k :: 0 <= k < |groups| ==> ParseAll(Mappers(str))[k] == Some(groups[k])
    ensures ok ==> NoneEmpty(groups) && totalLength == Start(groups, |groups|) > 0
  {
    if str == "" { return false, [], 0; }
    ok, groups, totalLength := ReadGroups(Mappers(str), ParseAll(Mappers(str)));
  }

  function Mappers(str: string): (mappers: seq<string>)
    ensures mappers != []
  {
    Split(Commas(str), ',')
  }

  function Commas(str: string): (s: string)
    ensures |s| == |str|
  {
    seq(|str|, i requires 0 <= i < |str| => if str[i] == '\n' then ',' else str[i])
  }

  lemma {:induction false} StartsSame(groups: seq<Group>, group: Group, n: nat)
    requires n <= |groups|
    ensures Start(groups + [group], n) == Start(groups, n)
  {
    if n > 0 { StartsSame(groups, group, n - 1); }
  }

  /** The ports at a position: the same offset into the exposed and the listened range of its group. */
  method PickPorts(groups: seq<Group>, idx: int) returns (exposed: int, listened: int, ok: bool)
    requires NoneEmpty(groups) && 0 <= idx < Start(groups, |groups|)
    ensures ok
    ensures exists g: nat ::
              IsPlace(groups, idx, g) && exposed - groups[g].exposedStart == listened - groups[g].listenedStart
                                                   == idx - Start(groups, g)
  {
    var idxPort, g := idx, 0;
    while g < |groups|
      invariant 0 <= g <= |groups| && idxPort == idx - Start(groups, g) >= 0
    {
      if idxPort >= groups[g].length {
        idxPort := idxPort - groups[g].length;
      } else {
        assert IsPlace(groups, idx, g);
        return groups[g].exposedStart + idxPort, groups[g].listenedStart + idxPort, true;
      }
      g := g + 1;
    }
    assert false;
  }
}
