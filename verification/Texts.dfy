/** String routines of Go that a line format is built on. */
module Texts {
  import opened Wrappers
  import opened Paths

  /** Lines joined with a separator. */
  function JoinAll(parts: seq<string>, sep: char): string {
    if parts == [] then ""
    else if |parts| == 1 then parts[0]
    else parts[0] + [sep] + JoinAll(parts[1..], sep)
  }

  lemma {:induction false} SplitJoin(parts: seq<string>, sep: char)
    requires parts != [] && forall i :: 0 <= i < |parts| ==> sep !in parts[i]
    ensures Split(JoinAll(parts, sep), sep) == parts
  {
    SplitName(parts[0], sep);
    if |parts| > 1 {
      SplitJoin(parts[1..], sep);
      SplitConcat(parts[0], JoinAll(parts[1..], sep), sep);
    }
  }

  /** strings.Index; -1 when it is absent. */
  function Index(s: string, sub: string): (i: int)
    ensures -1 <= i <= |s| && (i >= 0 ==> sub <= s[i..])
  {
    if sub <= s then 0
    else if s == "" then -1
    else
      var i := Index(s[1..], sub);
      if i < 0 then -1 else i + 1
  }

  /** It is the first place where the text goes on with sub, if there is one. */
  lemma {:induction false} IndexIsFirst(s: string, sub: string)
    ensures Index(s, sub) < 0 <==> forall j :: 0 <= j <= |s| ==> !(sub <= s[j..])
    ensures forall j :: 0 <= j < Index(s, sub) ==> !(sub <= s[j..])
  {
    if !(sub <= s) && s != "" {
      IndexIsFirst(s[1..], sub);
      assert forall j :: 1 <= j <= |s| ==> s[1..][j - 1..] == s[j..];
      assert forall j :: 1 <= j <= |s| && sub <= s[j..] ==> sub <= s[1..][j - 1..];
    }
    assert s[0..] == s;
    if s == "" && !(sub <= s) { assert s[|s|..] == ""; }
  }

  predicate Contains(s: string, sub: string) { Index(s, sub) >= 0 }

  /** What is absent from a text is absent from what follows any place in it. */
  lemma {:induction false} NotInTail(s: string, sub: string, i: nat)
    requires i <= |s| && !Contains(s, sub)
    ensures !Contains(s[i..], sub)
  {
    if i > 0 {
      NotInTail(s[1..], sub, i - 1);
      assert s[1..][i - 1..] == s[i..];
    }
  }

  /** A text that starts with sub, after characters that are not its first one. */
  lemma {:induction false} IndexAfter(a: string, b: string, sub: string)
    requires sub != "" && sub[0] !in a && sub <= b
    ensures Index(a + b, sub) == |a|
  {
    if a == "" {
      assert a + b == b;
    } else {
      assert (a + b)[1..] == a[1..] + b && (a + b)[0] == a[0];
      IndexAfter(a[1..], b, sub);
    }
  }

  lemma {:induction false} NotContained(a: string, b: string, sub: string)
    requires sub != "" && sub[0] !in a && !Contains(b, sub)
    ensures !Contains(a + b, sub)
  {
    if a == "" {
      assert a + b == b;
    } else {
      assert (a + b)[1..] == a[1..] + b && (a + b)[0] == a[0];
      NotContained(a[1..], b, sub);
    }
  }

  /** unicode.IsSpace. */
  predicate IsSpace(c: char) {
    || '\t' <= c <= '\r' || c == ' ' || c == 0x85 as char || c == 0xA0 as char || c == 0x1680 as char
    || 0x2000 as char <= c <= 0x200a as char || c == 0x2028 as char || c == 0x2029 as char
    || c == 0x202f as char || c == 0x205f as char || c == 0x3000 as char
  }

  function TrimLeft(s: string): string { if s != "" && IsSpace(s[0]) then TrimLeft(s[1..]) else s }

  function TrimRight(s: string): string {
    if s != "" && IsSpace(s[|s| - 1]) then TrimRight(s[..|s| - 1]) else s
  }

  function TrimSpace(s: string): string { TrimRight(TrimLeft(s)) }

  lemma {:induction false} TrimLeftIs(s: string)
    ensures var t := TrimLeft(s); (t != "" ==> !IsSpace(t[0])) && forall c :: c in t ==> c in s
  {
    if s != "" && IsSpace(s[0]) { TrimLeftIs(s[1..]); }
  }

  lemma {:induction false} TrimRightIs(s: string)
    ensures var t := TrimRight(s); t <= s && (t != "" ==> !IsSpace(t[|t| - 1]))
  {
    if s != "" && IsSpace(s[|s| - 1]) { TrimRightIs(s[..|s| - 1]); }
  }

  predicate IsTrimmed(s: string) { s != "" && !IsSpace(s[0]) && !IsSpace(s[|s| - 1]) }

  /** Trimming leaves nothing or a text that is trimmed, and adds no character. */
  lemma TrimSpaceIs(s: string)
    ensures var t := TrimSpace(s); (t == "" || IsTrimmed(t)) && forall c :: c in t ==> c in s
  {
    TrimLeftIs(s);
    TrimRightIs(TrimLeft(s));
  }

  lemma {:induction false} SplitHasNone(s: string, sep: char)
    ensures forall i :: 0 <= i < |Split(s, sep)| ==> sep !in Split(s, sep)[i]
  {
    if s != "" { SplitHasNone(s[1..], sep); }
  }

  predicate HasSuffix(s: string, c: char) { s != "" && s[|s| - 1] == c }

  lemma SpaceIs(c: char)
    ensures IsSpace(c) <==>
            || c as int in {9, 10, 11, 12, 13, 0x20, 0x85, 0xa0, 0x1680, 0x2028, 0x2029, 0x202f, 0x205f, 0x3000}
            || 0x2000 <= c as int <= 0x200a
  {
  }

  lemma {:induction false} LeftPart(s: string) returns (lead: string)
    ensures s == lead + TrimLeft(s) && forall c :: c in lead ==> IsSpace(c)
  {
    lead := "";
    if s != "" && IsSpace(s[0]) {
      lead := LeftPart(s[1..]);
      lead := [s[0]] + lead;
    }
  }

  lemma {:induction false} RightPart(s: string) returns (tail: string)
    ensures s == TrimRight(s) + tail && forall c :: c in tail ==> IsSpace(c)
  {
    tail := "";
    if s != "" && IsSpace(s[|s| - 1]) {
      tail := RightPart(s[..|s| - 1]);
      tail := tail + [s[|s| - 1]];
    }
  }

  /** Only spaces are trimmed, at both ends, and all of them. */
  lemma TrimParts(s: string) returns (lead: string, tail: string)
    ensures s == lead + TrimSpace(s) + tail && (forall c :: c in lead || c in tail ==> IsSpace(c))
    ensures TrimSpace(s) == "" || IsTrimmed(TrimSpace(s))
  {
    lead := LeftPart(s);
    tail := RightPart(TrimLeft(s));
    TrimSpaceIs(s);
    assert lead + (TrimSpace(s) + tail) == lead + TrimSpace(s) + tail;
  }

  /** path.Base. */
  function BaseName(s: string): string {
    if s == "" then "."
    else
      var end := Trimmed(s, |s|);
      var b := s[AfterSlash(s, end)..end];
      if b == "" then "/" else b
  }

  /** The end of s[..n] without the slashes at its end. */
  function Trimmed(s: string, n: nat): (end: nat)
    requires n <= |s|
    ensures end <= n
  {
    if n > 0 && s[n - 1] == '/' then Trimmed(s, n - 1) else n
  }

  /** The place behind the last slash of s[..n]. */
  function AfterSlash(s: string, n: nat): (i: nat)
    requires n <= |s|
    ensures i <= n
  {
    if n == 0 || s[n - 1] == '/' then n else AfterSlash(s, n - 1)
  }

  lemma {:induction false} TrimmedIs(s: string, n: nat, end: nat)
    requires end <= n <= |s| && (end > 0 ==> s[end - 1] != '/')
    requires forall i :: end <= i < n ==> s[i] == '/'
    ensures Trimmed(s, n) == end
  {
    if n > end { TrimmedIs(s, n - 1, end); }
  }

  lemma {:induction false} AfterSlashIs(s: string, n: nat, start: nat)
    requires start <= n <= |s| && (start > 0 ==> s[start - 1] == '/')
    requires forall i :: start <= i < n ==> s[i] != '/'
    ensures AfterSlash(s, n) == start
  {
    if n > start { AfterSlashIs(s, n - 1, start); }
  }

  predicate AllSlash(s: string) { forall i :: 0 <= i < |s| ==> s[i] == '/' }

  /** The last name of a path, whatever slashes follow it. */
  lemma BaseNameIs(dir: string, name: string, tail: string)
    requires name != "" && '/' !in name && (dir == "" || dir[|dir| - 1] == '/') && AllSlash(tail)
    ensures BaseName(dir + name + tail) == name
  {
    var s, start, end := dir + name + tail, |dir|, |dir| + |name|;
    assert forall i :: start <= i < end ==> s[i] == name[i - start];
    assert forall i :: end <= i < |s| ==> s[i] == tail[i - end];
    assert start > 0 ==> s[start - 1] == dir[start - 1];
    TrimmedIs(s, |s|, end);
    AfterSlashIs(s, end, start);
    assert s[start..end] == name;
  }

  /** Without a name, it is a dot or a slash. */
  lemma BaseNameless(s: string)
    requires AllSlash(s)
    ensures BaseName(s) == if s == "" then "." else "/"
  {
    TrimmedIs(s, |s|, 0);
    AfterSlashIs(s, 0, 0);
  }

  // ---- Decimal numbers ----

  const MIN_INT64 := -0x8000_0000_0000_0000
  const MAX_INT64 := 0x7fff_ffff_ffff_ffff

  predicate IsInt64(n: int) { MIN_INT64 <= n <= MAX_INT64 }

  predicate IsDigit(c: char) { '0' <= c <= '9' }

  predicate AreDigits(s: string) { forall i :: 0 <= i < |s| ==> IsDigit(s[i]) }

  function Digits(n: nat): (s: string)
    ensures s != "" && AreDigits(s)
  {
    if n < 10 then [(n as char) + '0'] else Digits(n / 10) + [((n % 10) as char) + '0']
  }

  function Decimal(n: int): string { if n < 0 then "-" + Digits(-n) else Digits(n) }

  function Value(s: string): nat
    requires AreDigits(s)
  {
    if s == "" then 0 else 10 * Value(s[..|s| - 1]) + (s[|s| - 1] - '0') as nat
  }

  /** strconv.ParseInt in base 10 with 64 bits. */
  function ParseInt(s: string): Option<int> {
    var signed := s != "" && (s[0] == '-' || s[0] == '+');
    var digits := if signed then s[1..] else s;
    if digits == "" || !AreDigits(digits) then None
    else
      var n: int := if signed && s[0] == '-' then -(Value(digits) as int) else Value(digits);
      if IsInt64(n) then Some(n) else None
  }

  lemma {:induction false} ValueDigits(n: nat)
    ensures Value(Digits(n)) == n
    decreases n
  {
    if n < 10 {
      var s := Digits(n);
      assert s[..|s| - 1] == "";
    } else {
      ValueDigits(n / 10);
      var s := Digits(n);
      assert s[..|s| - 1] == Digits(n / 10);
    }
  }

  lemma ParseDecimal(n: int)
    requires IsInt64(n)
    ensures ParseInt(Decimal(n)) == Some(n)
  {
    if n < 0 { ParseMinus(Digits(-n), -n); } else { ParsePlain(Digits(n), n); }
    ValueDigits(if n < 0 then -n else n);
  }

  lemma ParseMinus(digits: string, n: int)
    requires digits != "" && AreDigits(digits) && (Value(digits) == n ==> IsInt64(-n))
    ensures Value(digits) == n ==> ParseInt("-" + digits) == Some(-n)
  {
    assert ("-" + digits)[1..] == digits;
  }

  lemma ParsePlain(digits: string, n: int)
    requires digits != "" && AreDigits(digits) && (Value(digits) == n ==> IsInt64(n))
    ensures Value(digits) == n ==> ParseInt(digits) == Some(n)
  {
    assert IsDigit(digits[0]);
  }

  /** A decimal number is digits, with a minus sign in front of a negative one. */
  lemma DecimalChars(n: int)
    ensures Decimal(n) != "" && forall i :: 0 <= i < |Decimal(n)| ==> IsDigit(Decimal(n)[i]) || Decimal(n)[i] == '-'
  {
    assert AreDigits(Digits(if n < 0 then -n else n));
  }

  /** The value of a decimal number, digit by digit. */
  lemma ValueIs(s: string, c: char)
    requires AreDigits(s) && '0' <= c <= '9'
    ensures Value("") == 0 && AreDigits(s + [c]) && Value(s + [c]) == 10 * Value(s) + (c as int - '0' as int)
  {
    assert (s + [c])[..|s|] == s;
  }

  /** Digits and nothing else, within 64 bits. */
  lemma ParseUnsigned(s: string)
    requires s == "" || (s[0] != '+' && s[0] != '-')
    ensures ParseInt(s) ==
            if s != "" && AreDigits(s) && Value(s) <= 0x7fff_ffff_ffff_ffff then Some(Value(s)) else None
  {
  }

  /** The same behind a sign. */
  lemma ParseSigned(minus: bool, digits: string)
    ensures ParseInt((if minus then "-" else "+") + digits) ==
            if digits == "" || !AreDigits(digits) then None
            else if minus && Value(digits) <= 0x8000_0000_0000_0000 then Some(-(Value(digits) as int))
            else if !minus && Value(digits) <= 0x7fff_ffff_ffff_ffff then Some(Value(digits))
            else None
  {
    var s := (if minus then "-" else "+") + digits;
    assert s[1..] == digits && s[0] == if minus then '-' else '+';
  }
}
