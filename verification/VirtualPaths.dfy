/** Slash-separated virtual paths, and what it is for one to lie at or below another. */
module VirtualPaths {
  /** The position after the last slash among the first n characters, or 0. */
  function Tail(s: string, n: nat): (t: nat)
    requires n <= |s|
    ensures t <= n && (t > 0 ==> s[t - 1] == '/') && forall k :: t <= k < n ==> s[k] != '/'
  {
    if n == 0 || s[n - 1] == '/' then n else Tail(s, n - 1)
  }

  /** Splitting at slashes gives more than one part. */
  predicate HasParent(s: string) {
    Tail(s, |s|) > 0
  }

  /** All parts but the last, joined again. */
  function Parent(s: string): string
    requires HasParent(s)
  {
    s[..Tail(s, |s|) - 1]
  }

  /** strings.HasPrefix(s, p + "/"). */
  predicate Under(p: string, s: string) {
    p <= s && |p| < |s| && s[|p|] == '/'
  }

  predicate AtOrUnder(p: string, s: string) {
    p == s || Under(p, s)
  }

  lemma UnderIsPrefix(p: string, s: string)
    ensures Under(p, s) <==> p + "/" <= s
    ensures Under(p, s) ==> s == p + "/" + s[|p| + 1..]
  {
  }

  lemma UnderTransitive(p: string, s: string, t: string)
    requires AtOrUnder(p, s) && AtOrUnder(s, t)
    ensures AtOrUnder(p, t) && (Under(p, s) || Under(s, t) ==> Under(p, t))
  {
    assert p <= s && s <= t;
  }

  /** Of two paths at or above the same path, the shorter is above the longer. */
  lemma AboveSame(p: string, r: string, q: string)
    requires AtOrUnder(p, q) && AtOrUnder(r, q) && |p| < |r|
    ensures Under(p, r)
  {
    assert p <= q && r <= q;
    assert forall k :: 0 <= k < |r| ==> r[k] == q[k];
  }

  lemma SameLength(p: string, r: string, q: string)
    requires AtOrUnder(p, q) && AtOrUnder(r, q) && |p| == |r|
    ensures p == r
  {
    assert p == q[..|p|] && r == q[..|r|];
  }

  /** A path with a slash has a parent: all before its last slash. */
  lemma ParentIs(s: string)
    ensures HasParent(s) <==> '/' in s
    ensures HasParent(s) ==> Parent(s) < s && s[|Parent(s)|] == '/' && '/' !in s[|Parent(s)| + 1..]
  {
    var t := Tail(s, |s|);
    assert forall k :: t <= k < |s| ==> s[k] != '/';
    if HasParent(s) { assert forall k :: 0 <= k < |s[t..]| ==> s[t..][k] == s[t + k]; }
  }

  lemma ParentAbove(s: string)
    requires HasParent(s)
    ensures Under(Parent(s), s)
  {
  }

  lemma AboveParent(p: string, s: string)
    requires Under(p, s)
    ensures HasParent(s) && AtOrUnder(p, Parent(s))
  {
    ParentAbove(s);
    if |p| < |Parent(s)| {
      AboveSame(p, Parent(s), s);
    } else {
      SameLength(p, Parent(s), s);
    }
  }

  /** The child of p that lies on the way to s. */
  lemma {:induction false} StepToward(p: string, s: string) returns (c: string)
    requires Under(p, s)
    ensures HasParent(c) && Parent(c) == p && AtOrUnder(c, s)
    decreases |s|
  {
    AboveParent(p, s);
    ParentAbove(s);
    if Parent(s) == p {
      c := s;
    } else {
      c := StepToward(p, Parent(s));
      UnderTransitive(c, Parent(s), s);
    }
  }
}
