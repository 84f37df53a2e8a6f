/** Percent encoding by whole-string replacements after Go's query escaping. */
module UriEncoding {
  type byte = bv8

  predicate IsAlnum(b: byte) { 0x30 <= b <= 0x39 || 0x41 <= b <= 0x5a || 0x61 <= b <= 0x7a }

  function HexDigit(n: byte): char {
    if n < 10 then (n as int + 48) as char else (n as int + 55) as char
  }

  function Percent(b: byte): string { ['%', HexDigit(b >> 4), HexDigit(b & 15)] }

  function Plain(b: byte): string { [b as int as char] }

  /** url.QueryEscape on one byte. */
  function EscapeByte(b: byte): string {
    if IsAlnum(b) || b == 0x2d || b == 0x5f || b == 0x2e || b == 0x7e then Plain(b)
    else if b == 0x20 then "+"
    else Percent(b)
  }

  function QueryEscape(s: seq<byte>): string {
    if s == [] then "" else EscapeByte(s[0]) + QueryEscape(s[1..])
  }

  /** strings.Replace of all occurrences, from left to right. */
  function ReplaceAll(s: string, old': string, new': string): string
    requires old' != ""
  {
    if s == "" then ""
    else if old' <= s then new' + ReplaceAll(s[|old'|..], old', new')
    else [s[0]] + ReplaceAll(s[1..], old', new')
  }

  function EncodeURIComponent(s: seq<byte>): string {
    var r0 := QueryEscape(s);
    var r1 := ReplaceAll(r0, "+", "%20");
    var r2 := ReplaceAll(r1, "%21", "!");
    var r3 := ReplaceAll(r2, "%27", "'");
    var r4 := ReplaceAll(r3, "%28", "(");
    var r5 := ReplaceAll(r4, "%29", ")");
    ReplaceAll(r5, "%2A", "*")
  }

  /** What ECMA-262 leaves as it is: letters, digits and - _ . ! ~ * ' ( ). */
  predicate Unescaped(b: byte) {
    IsAlnum(b) || b in {0x2d, 0x5f, 0x2e, 0x21, 0x7e, 0x2a, 0x27, 0x28, 0x29}
  }

  function EncodeByte(b: byte): string { if Unescaped(b) then Plain(b) else Percent(b) }

  function Encode(s: seq<byte>): string {
    if s == [] then "" else EncodeByte(s[0]) + Encode(s[1..])
  }

  // ---- Tokens ----

  predicate IsInner(c: char) { c != '%' && c != '+' }

  /** One escaped byte: a percent sign, or any plain character, followed by what no replacement starts with. */
  predicate IsToken(t: string) {
    || (|t| == 1 && t[0] != '%')
    || (|t| == 3 && t[0] == '%' && IsInner(t[1]) && IsInner(t[2]))
  }

  /** What the replacements look for. */
  predicate IsSought(t: string) { IsToken(t) && (t[0] == '+' || t[0] == '%') }

  function Join(ts: seq<string>): string { if ts == [] then "" else ts[0] + Join(ts[1..]) }

  function Swap(t: string, old': string, new': string): string { if t == old' then new' else t }

  function SwapAll(ts: seq<string>, old': string, new': string): (us: seq<string>)
    ensures |us| == |ts|
  {
    seq(|ts|, i requires 0 <= i < |ts| => Swap(ts[i], old', new'))
  }

  predicate AreTokens(ts: seq<string>) { forall i :: 0 <= i < |ts| ==> IsToken(ts[i]) }

  /** A sought token is found at the start exactly when it is the first token. */
  lemma FoundAtToken(t: string, rest: string, old': string)
    requires IsToken(t) && IsSought(old')
    ensures old' <= t + rest <==> t == old'
  {
    if old' <= t + rest { assert old' == (t + rest)[..|old'|]; }
  }

  lemma StepChar(c: char, rest: string, old': string, new': string)
    requires old' != "" && !(old' <= [c] + rest)
    ensures ReplaceAll([c] + rest, old', new') == [c] + ReplaceAll(rest, old', new')
  {
    assert ([c] + rest)[1..] == rest;
  }

  lemma StepOver(t: string, rest: string, old': string, new': string)
    requires IsToken(t) && IsSought(old') && t != old'
    ensures ReplaceAll(t + rest, old', new') == t + ReplaceAll(rest, old', new')
  {
    FoundAtToken(t, rest, old');
    if |t| == 1 {
      StepChar(t[0], rest, old', new');
      assert t == [t[0]];
    } else {
      var last := [t[2]] + rest;
      var mid := [t[1]] + last;
      assert t + rest == [t[0]] + mid;
      StepChar(t[0], mid, old', new');
      StepChar(t[1], last, old', new');
      StepChar(t[2], rest, old', new');
      assert t == [t[0]] + ([t[1]] + [t[2]]);
    }
  }

  /** A replacement works token by token, so it never matches across two of them. */
  lemma {:induction false} ReplaceTokens(ts: seq<string>, old': string, new': string)
    requires AreTokens(ts) && IsSought(old')
    ensures ReplaceAll(Join(ts), old', new') == Join(SwapAll(ts, old', new'))
  {
    if ts != [] {
      ReplaceTokens(ts[1..], old', new');
      var t, rest := ts[0], Join(ts[1..]);
      assert IsToken(t);
      assert SwapAll(ts, old', new')[1..] == SwapAll(ts[1..], old', new');
      if t == old' {
        assert (t + rest)[|t|..] == rest;
      } else {
        StepOver(t, rest, old', new');
      }
    }
  }

  lemma SwapAllTokens(ts: seq<string>, old': string, new': string)
    requires AreTokens(ts) && IsToken(new')
    ensures AreTokens(SwapAll(ts, old', new'))
  {
  }

  function Tokens(s: seq<byte>): (ts: seq<string>)
    ensures |ts| == |s|
  {
    seq(|s|, i requires 0 <= i < |s| => EscapeByte(s[i]))
  }

  lemma {:induction false} QueryEscapeJoins(s: seq<byte>)
    ensures QueryEscape(s) == Join(Tokens(s)) && AreTokens(Tokens(s))
  {
    if s != [] {
      QueryEscapeJoins(s[1..]);
      assert Tokens(s)[1..] == Tokens(s[1..]);
    }
    forall i | 0 <= i < |s|
      ensures IsToken(Tokens(s)[i])
    {
      ByteToken(s[i]);
    }
  }

  lemma ByteToken(b: byte)
    ensures IsToken(EscapeByte(b))
  {
  }

  function SwapSix(t: string): string {
    Swap(Swap(Swap(Swap(Swap(Swap(t, "+", "%20"), "%21", "!"), "%27", "'"), "%28", "("), "%29", ")"), "%2A", "*")
  }

  lemma PercentInjective(a: byte, b: byte)
    ensures Percent(a) == Percent(b) ==> a == b
  {
  }

  lemma SwapByte(b: byte)
    ensures SwapSix(EscapeByte(b)) == EncodeByte(b)
  {
    PercentInjective(b, 0x21);
    PercentInjective(b, 0x27);
    PercentInjective(b, 0x28);
    PercentInjective(b, 0x29);
    PercentInjective(b, 0x2a);
    assert Percent(0x21) == "%21" && Percent(0x27) == "%27" && Percent(0x28) == "%28";
    assert Percent(0x29) == "%29" && Percent(0x2a) == "%2A" && Percent(0x20) == "%20";
  }

  lemma {:induction false} EncodeJoins(s: seq<byte>, ts: seq<string>)
    requires |ts| == |s| && forall i :: 0 <= i < |s| ==> ts[i] == EncodeByte(s[i])
    ensures Join(ts) == Encode(s)
  {
    if s != [] {
      EncodeJoins(s[1..], ts[1..]);
    }
  }

  lemma Pass(ts: seq<string>, old': string, new': string)
    requires AreTokens(ts) && IsSought(old') && IsToken(new')
    ensures ReplaceAll(Join(ts), old', new') == Join(SwapAll(ts, old', new')) && AreTokens(SwapAll(ts, old', new'))
  {
    ReplaceTokens(ts, old', new');
    SwapAllTokens(ts, old', new');
  }

  /** The six passes together are one encoding of each byte, for every input. */
  lemma EncodesEachByte(s: seq<byte>)
    ensures EncodeURIComponent(s) == Encode(s)
  {
    QueryEscapeJoins(s);
    var t0 := Tokens(s);
    var t1 := SwapAll(t0, "+", "%20");
    var t2 := SwapAll(t1, "%21", "!");
    var t3 := SwapAll(t2, "%27", "'");
    var t4 := SwapAll(t3, "%28", "(");
    var t5 := SwapAll(t4, "%29", ")");
    var t6 := SwapAll(t5, "%2A", "*");
    Pass(t0, "+", "%20");
    Pass(t1, "%21", "!");
    Pass(t2, "%27", "'");
    Pass(t3, "%28", "(");
    Pass(t4, "%29", ")");
    Pass(t5, "%2A", "*");
    forall i | 0 <= i < |s|
      ensures t6[i] == EncodeByte(s[i])
    {
      SwapByte(s[i]);
      assert t6[i] == SwapSix(t0[i]);
    }
    EncodeJoins(s, t6);
  }

  // ---- The encoding, character by character ----

  lemma HexDigitIs(n: byte)
    requires n < 16
    ensures HexDigit(n) == "0123456789ABCDEF"[n as int]
  {
  }

  lemma HalvesAre(b: byte)
    ensures (b >> 4) as int == b as int / 16
    ensures (b & 15) as int == b as int % 16
  {
  }

  lemma PercentIs(b: byte)
    ensures Percent(b) == ['%', "0123456789ABCDEF"[b as int / 16], "0123456789ABCDEF"[b as int % 16]]
  {
    HalvesAre(b);
    HexDigitIs(b >> 4);
    HexDigitIs(b & 15);
  }

  /** Letters, digits and nine marks stay as they are; every other byte becomes a percent sign and two hex digits. */
  lemma EncodeByteIs(b: byte)
    ensures var c := b as int as char;
            EncodeByte(b) ==
            if || 'A' <= c <= 'Z' || 'a' <= c <= 'z' || '0' <= c <= '9'
               || c == '-' || c == '_' || c == '.' || c == '!' || c == '~'
               || c == '*' || c == '\'' || c == '(' || c == ')'
            then [c]
            else ['%', "0123456789ABCDEF"[b as int / 16], "0123456789ABCDEF"[b as int % 16]]
  {
    PercentIs(b);
    UnescapedIs(b);
  }

  lemma UnescapedIs(b: byte)
    ensures var c := b as int as char;
            Unescaped(b) <==>
            || 'A' <= c <= 'Z' || 'a' <= c <= 'z' || '0' <= c <= '9'
            || c == '-' || c == '_' || c == '.' || c == '!' || c == '~'
            || c == '*' || c == '\'' || c == '(' || c == ')'
  {
  }

  /** The bytes are encoded one after the other. */
  lemma {:induction false} EncodeConcat(a: seq<byte>, b: seq<byte>)
    ensures Encode(a + b) == Encode(a) + Encode(b)
    ensures Encode([]) == "" && forall x :: Encode([x]) == EncodeByte(x)
  {
    if a == [] {
      assert a + b == b;
    } else {
      assert (a + b)[0] == a[0] && (a + b)[1..] == a[1..] + b;
      EncodeConcat(a[1..], b);
      Regroup(EncodeByte(a[0]), Encode(a[1..]), Encode(b));
    }
    forall x: byte
      ensures Encode([x]) == EncodeByte(x)
    {
      assert [x][1..] == [];
      NothingMore(EncodeByte(x));
    }
  }

  lemma Regroup(s: string, t: string, u: string)
    ensures s + (t + u) == s + t + u
  {
  }

  lemma NothingMore(s: string)
    ensures s + "" == s
  {
  }
}
