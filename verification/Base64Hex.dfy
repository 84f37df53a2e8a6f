/** Turning base64 into hex, six bits at a time. */
module Base64Hex {
  type byte = bv8

  /** The digits 0 to 9 and then the letters from a on. */
  function Int2Char(a: byte): char
    requires a < 36
  {
    if a < 10 then (a as int + 48) as char else (a as int + 87) as char
  }

  /** The symbol with a value below 64 (section 4 of RFC 4648). */
  function Symbol(v: byte): char
    requires v < 64
  {
    if v < 26 then (v as int + 65) as char
    else if v < 52 then (v as int + 71) as char
    else if v < 62 then (v as int - 4) as char
    else if v == 62 then '+' else '/'
  }

  predicate IsSymbol(c: char) {
    'A' <= c <= 'Z' || 'a' <= c <= 'z' || '0' <= c <= '9' || c == '+' || c == '/'
  }

  /** The position of a symbol in the alphabet. */
  function ValueOf(c: char): (v: byte)
    requires IsSymbol(c)
    ensures v < 64
  {
    if 'A' <= c <= 'Z' then (c as int - 65) as byte
    else if 'a' <= c <= 'z' then (c as int - 71) as byte
    else if '0' <= c <= '9' then (c as int + 4) as byte
    else if c == '+' then 62 else 63
  }

  /** The two digits of a byte. */
  function Pair(b: byte): seq<byte> { [b >> 4, b & 15] }

  function Nibbles(b: seq<byte>): seq<byte> { if b == [] then [] else Pair(b[0]) + Nibbles(b[1..]) }

  predicate AreDigits(ds: seq<byte>) { forall i :: 0 <= i < |ds| ==> ds[i] < 36 }

  function Chars(ds: seq<byte>): string
    requires AreDigits(ds)
  {
    seq(|ds|, i requires 0 <= i < |ds| => Int2Char(ds[i]))
  }

  /** Lower-case hex of a byte string (section 8 of RFC 4648, in lower case). */
  function Hex(b: seq<byte>): string {
    NibblesAreDigits(b);
    Chars(Nibbles(b))
  }

  lemma {:induction false} NibblesAreDigits(b: seq<byte>)
    ensures AreDigits(Nibbles(b))
  {
    if b != [] { NibblesAreDigits(b[1..]); }
  }

  /** Where the conversion stands: the phase e, the bits c carried over, and the digits d. */
  datatype State = State(e: nat, c: byte, d: seq<byte>)

  predicate Fits(s: State) { s.e <= 3 && (s.c < if s.e == 2 then 16 else 4) && AreDigits(s.d) }

  function Step(s: State, v: byte): (r: State)
    requires Fits(s) && v < 64
    ensures Fits(r)
  {
    if s.e == 0 then State(1, 3 & v, s.d + [v >> 2])
    else if s.e == 1 then State(2, 15 & v, s.d + [(s.c << 2) | (v >> 4)])
    else if s.e == 2 then State(3, 3 & v, s.d + [s.c, v >> 2])
    else State(0, s.c, s.d + [(s.c << 2) | (v >> 4), 15 & v])
  }

  predicate Readable(a: string) { forall i :: 0 <= i < |a| ==> IsSymbol(a[i]) || a[i] == '=' }

  function StepChar(s: State, m: char): (r: State)
    requires Fits(s) && (IsSymbol(m) || m == '=')
    ensures Fits(r)
  {
    if m == '=' then s else Step(s, ValueOf(m))
  }

  function Run(s: State, a: string): (r: State)
    requires Fits(s) && Readable(a)
    ensures Fits(r)
    decreases |a|
  {
    if a == "" then s else Run(StepChar(s, a[0]), a[1..])
  }

  const Start := State(0, 0, [])

  /** The digits at the end; a lone symbol leaves two bits. */
  function Finish(s: State): (ds: seq<byte>)
    requires Fits(s)
    ensures AreDigits(ds)
  {
    s.d + if s.e == 1 then [s.c << 2] else []
  }

  lemma CharsSnoc(ds: seq<byte>, x: byte)
    requires AreDigits(ds) && x < 36
    ensures AreDigits(ds + [x]) && Chars(ds + [x]) == Chars(ds) + [Int2Char(x)]
  {
  }

  lemma CharsTwo(ds: seq<byte>, x: byte, y: byte)
    requires AreDigits(ds) && x < 36 && y < 36
    ensures AreDigits(ds + [x, y]) && Chars(ds + [x, y]) == Chars(ds) + [Int2Char(x)] + [Int2Char(y)]
  {
    CharsSnoc(ds, x);
    CharsSnoc(ds + [x], y);
    assert ds + [x, y] == ds + [x] + [y];
  }

  lemma Phase0(s: State, v: byte)
    requires Fits(s) && v < 64 && s.e == 0
    ensures v >> 2 < 36 && Chars(Step(s, v).d) == Chars(s.d) + [Int2Char(v >> 2)]
  {
    CharsSnoc(s.d, v >> 2);
  }

  lemma Phase1(s: State, v: byte)
    requires Fits(s) && v < 64 && s.e == 1
    ensures (s.c << 2) | (v >> 4) < 36
    ensures Chars(Step(s, v).d) == Chars(s.d) + [Int2Char((s.c << 2) | (v >> 4))]
  {
    CharsSnoc(s.d, (s.c << 2) | (v >> 4));
  }

  lemma Phase2(s: State, v: byte)
    requires Fits(s) && v < 64 && s.e == 2
    ensures v >> 2 < 36 && Chars(Step(s, v).d) == Chars(s.d) + [Int2Char(s.c)] + [Int2Char(v >> 2)]
  {
    CharsTwo(s.d, s.c, v >> 2);
  }

  lemma Phase3(s: State, v: byte)
    requires Fits(s) && v < 64 && s.e == 3
    ensures (s.c << 2) | (v >> 4) < 36 && 15 & v < 36
    ensures Chars(Step(s, v).d) == Chars(s.d) + [Int2Char((s.c << 2) | (v >> 4))] + [Int2Char(15 & v)]
  {
    CharsTwo(s.d, (s.c << 2) | (v >> 4), 15 & v);
  }

  /** One symbol, as the loop handles it. */
  method Convert(m: char, e: nat, c: byte, d: string, ghost s: State) returns (e': nat, c': byte, d': string)
    requires IsSymbol(m) && Fits(s) && s.e == e && s.c == c && Chars(s.d) == d
    ensures var r := Step(s, ValueOf(m)); r.e == e' && r.c == c' && Chars(r.d) == d'
  {
    var v := ValueOf(m);
    if e == 0 {
      e' := 1;
      Phase0(s, v);
      d' := d + [Int2Char(v >> 2)];
      c' := 3 & v;
    } else if e == 1 {
      e' := 2;
      Phase1(s, v);
      d' := d + [Int2Char((c << 2) | (v >> 4))];
      c' := 15 & v;
    } else if e == 2 {
      e' := 3;
      Phase2(s, v);
      d' := d + [Int2Char(c)];
      d' := d' + [Int2Char(v >> 2)];
      c' := 3 & v;
    } else {
      e', c' := 0, c;
      Phase3(s, v);
      d' := d + [Int2Char((c << 2) | (v >> 4))];
      d' := d' + [Int2Char(15 & v)];
    }
  }

  /** A character outside the alphabet would index the digits with -1, so the caller must not pass one. */
  method B64ToHex(a: string) returns (d: string)
    requires Readable(a)
    ensures d == Chars(Finish(Run(Start, a)))
    ensures forall b {:trigger Base64(b)} :: a == Base64(b) ==> d == Hex(b)
  {
    d := "";
    var e: nat := 0;
    var c: byte := 0;
    ghost var s := Start;
    var i := 0;
    while i < |a|
      invariant 0 <= i <= |a| && Fits(s) && s.e == e && s.c == c && Chars(s.d) == d
      invariant Run(s, a[i..]) == Run(Start, a)
    {
      assert a[i..][1..] == a[i + 1..];
      if a[i] != '=' { e, c, d := Convert(a[i], e, c, d, s); }
      s := StepChar(s, a[i]);
      i := i + 1;
    }
    if e == 1 { d := d + [Int2Char(c << 2)]; }
    forall b | a == Base64(b)
      ensures d == Hex(b)
    {
      Base64ToHexIsHex(b);
    }
  }

  // ---- The digits and the alphabet, character by character ----

  lemma DigitIs(n: byte)
    requires n < 16
    ensures Int2Char(n) == "0123456789abcdef"[n as int]
  {
  }

  lemma AnyDigitIs(n: byte)
    requires n < 36
    ensures Int2Char(n) == "0123456789abcdefghijklmnopqrstuvwxyz"[n as int]
  {
  }

  lemma Low2(b: byte)
    ensures (b & 3) as int == b as int % 4
  {
  }

  lemma Low4(b: byte)
    ensures (b & 15) as int == b as int % 16
  {
  }

  lemma Low6(b: byte)
    ensures (b & 63) as int == b as int % 64
  {
  }

  lemma High(b: byte)
    ensures (b >> 4) as int == b as int / 16 && (b >> 2) as int == b as int / 4 && (b >> 6) as int == b as int / 64
  {
  }

  lemma Join4(u: byte, w: byte)
    requires u < 4 && w < 16
    ensures ((u << 4) | w) as int == u as int * 16 + w as int
  {
  }

  lemma Join2(u: byte, w: byte)
    requires u < 16 && w < 4
    ensures ((u << 2) | w) as int == u as int * 4 + w as int
  {
  }

  /** Two digits for each byte, the higher one first. */
  lemma {:induction false} NibbleAt(b: seq<byte>, i: nat)
    requires i < |b|
    ensures |Nibbles(b)| == 2 * |b|
    ensures Nibbles(b)[2 * i] == b[i] >> 4 && Nibbles(b)[2 * i + 1] == b[i] & 15
  {
    NibblesLength(b);
    if i > 0 { NibbleAt(b[1..], i - 1); }
  }

  lemma {:induction false} NibblesLength(b: seq<byte>)
    ensures |Nibbles(b)| == 2 * |b|
  {
    if b != [] { NibblesLength(b[1..]); }
  }

  lemma PairIs(b: byte)
    ensures b >> 4 < 16 && Int2Char(b >> 4) == "0123456789abcdef"[b as int / 16]
    ensures b & 15 < 16 && Int2Char(b & 15) == "0123456789abcdef"[b as int % 16]
  {
    High(b);
    Low4(b);
    DigitIs(b >> 4);
    DigitIs(b & 15);
  }

  /** The hex of a byte string: two digits for each byte, the higher one first. */
  lemma HexIs(b: seq<byte>, i: nat)
    requires i < |b|
    ensures |Hex(b)| == 2 * |b|
    ensures Hex(b)[2 * i] == "0123456789abcdef"[b[i] as int / 16]
    ensures Hex(b)[2 * i + 1] == "0123456789abcdef"[b[i] as int % 16]
  {
    NibbleAt(b, i);
    NibblesAreDigits(b);
    PairIs(b[i]);
  }

  const UPPER := "ABCDEFGHIJKLMNOPQRSTUVWXYZ"
  const LOWER := "abcdefghijklmnopqrstuvwxyz"
  const ALPHABET := UPPER + LOWER + "0123456789" + "+/"

  lemma Upper(i: nat)
    requires i < 26
    ensures UPPER[i] as int == i + 65
  {
  }

  lemma Lower(i: nat)
    requires i < 26
    ensures LOWER[i] as int == i + 97
  {
  }

  lemma InFour(a: string, b: string, c: string, d: string, i: nat)
    requires i < |a| + |b| + |c| + |d|
    ensures (a + b + c + d)[i] ==
            if i < |a| then a[i]
            else if i < |a| + |b| then b[i - |a|]
            else if i < |a| + |b| + |c| then c[i - |a| - |b|]
            else d[i - |a| - |b| - |c|]
  {
  }

  lemma AlphabetIs(v: int)
    requires 0 <= v < 64
    ensures ALPHABET[v] as int ==
            if v < 26 then v + 65 else if v < 52 then v + 71 else if v < 62 then v - 4 else if v == 62 then 43 else 47
  {
    InFour(UPPER, LOWER, "0123456789", "+/", v);
    if v < 26 { Upper(v); } else if v < 52 { Lower(v - 26); }
  }

  lemma SymbolIs(v: byte)
    requires v < 64
    ensures Symbol(v) == ALPHABET[v as int]
  {
    AlphabetIs(v as int);
  }

  /** The four six-bit numbers of three bytes. */
  lemma GroupBits(x: byte, y: byte, z: byte)
    ensures Value0(x) as int == x as int / 4
    ensures Value1(x, y) as int == x as int % 4 * 16 + y as int / 16
    ensures Value2(y, z) as int == y as int % 16 * 4 + z as int / 64
    ensures Value3(z) as int == z as int % 64
  {
    High(x);
    High(y);
    High(z);
    Low2(x);
    Low4(y);
    Low6(z);
    Join4(x & 3, y >> 4);
    Join2(y & 15, z >> 6);
  }

  /** Base64 is made group by group, a missing byte counting as 0 and its symbols as padding. */
  lemma Base64Is(b: seq<byte>)
    ensures b == [] ==> Base64(b) == ""
    ensures |b| == 1 ==> Base64(b) == [Symbol(Value0(b[0])), Symbol(Value1(b[0], 0)), '=', '=']
    ensures |b| == 2 ==>
              Base64(b) == [Symbol(Value0(b[0])), Symbol(Value1(b[0], b[1])), Symbol(Value2(b[1], 0)), '=']
    ensures |b| >= 3 ==>
              Base64(b) == [Symbol(Value0(b[0])), Symbol(Value1(b[0], b[1])),
                            Symbol(Value2(b[1], b[2])), Symbol(Value3(b[2]))] + Base64(b[3..])
  {
  }

  // ---- The conversion of a valid base64 text ----

  lemma SymbolBack(v: byte)
    requires v < 64
    ensures IsSymbol(Symbol(v)) && ValueOf(Symbol(v)) == v
  {
  }

  lemma RunSymbol(s: State, v: byte, rest: string)
    requires Fits(s) && v < 64 && Readable(rest)
    ensures Readable([Symbol(v)] + rest) && Run(s, [Symbol(v)] + rest) == Run(Step(s, v), rest)
  {
    SymbolBack(v);
    assert ([Symbol(v)] + rest)[1..] == rest;
  }

  lemma RunPadding(s: State)
    requires Fits(s)
    ensures Run(s, "=") == s && Run(s, "==") == s
  {
    assert "=="[1..] == "=" && "="[1..] == "";
  }

  /** The values of the four symbols of three bytes. */
  function Value0(b0: byte): (v: byte) ensures v < 64 { b0 >> 2 }

  function Value1(b0: byte, b1: byte): (v: byte) ensures v < 64 { ((b0 & 3) << 4) | (b1 >> 4) }

  function Value2(b1: byte, b2: byte): (v: byte) ensures v < 64 { ((b1 & 15) << 2) | (b2 >> 6) }

  function Value3(b2: byte): (v: byte) ensures v < 64 { b2 & 63 }

  lemma Bits(b0: byte, b1: byte, b2: byte)
    ensures Value0(b0) >> 2 == b0 >> 4
    ensures ((3 & Value0(b0)) << 2) | (Value1(b0, b1) >> 4) == b0 & 15
    ensures 15 & Value1(b0, b1) == b1 >> 4
    ensures Value2(b1, b2) >> 2 == b1 & 15
    ensures ((3 & Value2(b1, b2)) << 2) | (Value3(b2) >> 4) == b2 >> 4
    ensures 15 & Value3(b2) == b2 & 15
  {
  }

  /** Base64 of a byte string (section 4 of RFC 4648), with padding. */
  function Base64(b: seq<byte>): string {
    if |b| == 0 then ""
    else if |b| == 1 then [Symbol(Value0(b[0])), Symbol(Value1(b[0], 0))] + "=="
    else if |b| == 2 then [Symbol(Value0(b[0])), Symbol(Value1(b[0], b[1])), Symbol(Value2(b[1], 0))] + "="
    else
      [Symbol(Value0(b[0])), Symbol(Value1(b[0], b[1])), Symbol(Value2(b[1], b[2])), Symbol(Value3(b[2]))]
      + Base64(b[3..])
  }

  /** The first symbol of a group gives a digit; the second completes the byte. */
  lemma OneByte(b0: byte, b1: byte, s: State)
    requires Fits(s) && s.e == 0
    ensures Step(Step(s, Value0(b0)), Value1(b0, b1)) == State(2, b1 >> 4, s.d + Pair(b0))
  {
    Bits(b0, b1, 0);
    assert s.d + [b0 >> 4] + [b0 & 15] == s.d + Pair(b0);
  }

  lemma TwoBytes(b0: byte, b1: byte, b2: byte, s: State)
    requires Fits(s) && s.e == 0
    ensures Step(Step(Step(s, Value0(b0)), Value1(b0, b1)), Value2(b1, b2))
            == State(3, 3 & Value2(b1, b2), s.d + Pair(b0) + Pair(b1))
  {
    OneByte(b0, b1, s);
    Bits(b0, b1, b2);
  }

  lemma ThreeBytes(b0: byte, b1: byte, b2: byte, s: State)
    requires Fits(s) && s.e == 0
    ensures Step(Step(Step(Step(s, Value0(b0)), Value1(b0, b1)), Value2(b1, b2)), Value3(b2))
            == State(0, 3 & Value2(b1, b2), s.d + Pair(b0) + Pair(b1) + Pair(b2))
  {
    TwoBytes(b0, b1, b2, s);
    Bits(b0, b1, b2);
    var d := s.d + Pair(b0) + Pair(b1);
    assert d + [b2 >> 4, b2 & 15] == d + Pair(b2);
  }

  lemma NibblesFrom(b: seq<byte>)
    requires b != []
    ensures Nibbles(b) == Pair(b[0]) + Nibbles(b[1..])
  {
  }

  lemma ThreeNibbles(d: seq<byte>, b: seq<byte>)
    requires |b| >= 3
    ensures d + Pair(b[0]) + Pair(b[1]) + Pair(b[2]) + Nibbles(b[3..]) == d + Nibbles(b)
  {
    FromThree(b, 0);
    FromThree(b, 1);
    FromThree(b, 2);
    Regroup(d, Pair(b[0]), Pair(b[1]), Pair(b[2]), Nibbles(b[3..]));
  }

  lemma FromThree(b: seq<byte>, i: nat)
    requires i < |b|
    ensures Nibbles(b[i..]) == Pair(b[i]) + Nibbles(b[i + 1..]) && (i == 0 ==> b[i..] == b)
  {
    assert b[i..][1..] == b[i + 1..];
    NibblesFrom(b[i..]);
  }

  lemma Regroup<T>(d: seq<T>, x: seq<T>, y: seq<T>, z: seq<T>, r: seq<T>)
    ensures d + x + y + z + r == d + (x + (y + (z + r)))
  {
  }

  lemma {:induction false} RunBase64(b: seq<byte>, s: State)
    requires Fits(s) && s.e == 0
    ensures Readable(Base64(b))
    ensures var r := Run(s, Base64(b)); r.d == s.d + Nibbles(b) && r.e == if |b| % 3 == 0 then 0 else |b| % 3 + 1
    decreases |b|
  {
    if |b| == 0 {
      assert s.d + Nibbles(b) == s.d;
    } else if |b| == 1 {
      RunOneByte(b, s);
    } else if |b| == 2 {
      RunTwoBytes(b, s);
    } else {
      var next := RunThreeBytes(b, s);
      var rest := b[3..];
      assert |rest| % 3 == |b| % 3;
      RunBase64(rest, next);
      ThreeNibbles(s.d, b);
    }
  }

  lemma RunOneByte(b: seq<byte>, s: State)
    requires Fits(s) && s.e == 0 && |b| == 1
    ensures Readable(Base64(b)) && var r := Run(s, Base64(b)); r.d == s.d + Nibbles(b) && r.e == 2
  {
    OneByte(b[0], 0, s);
    RunShort(s, Value0(b[0]), Value1(b[0], 0));
    NibblesFrom(b);
    assert Pair(b[0]) + [] == Pair(b[0]);
  }

  lemma RunTwoBytes(b: seq<byte>, s: State)
    requires Fits(s) && s.e == 0 && |b| == 2
    ensures Readable(Base64(b)) && var r := Run(s, Base64(b)); r.d == s.d + Nibbles(b) && r.e == 3
  {
    TwoBytes(b[0], b[1], 0, s);
    RunThree(s, Value0(b[0]), Value1(b[0], b[1]), Value2(b[1], 0));
    NibblesFrom(b);
    NibblesFrom(b[1..]);
    assert s.d + Pair(b[0]) + Pair(b[1]) == s.d + (Pair(b[0]) + (Pair(b[1]) + []));
  }

  lemma RunThreeBytes(b: seq<byte>, s: State) returns (next: State)
    requires Fits(s) && s.e == 0 && |b| >= 3
    ensures Fits(next) && next.e == 0 && next.d == s.d + Pair(b[0]) + Pair(b[1]) + Pair(b[2])
    ensures Readable(Base64(b[3..])) ==> Readable(Base64(b)) && Run(s, Base64(b)) == Run(next, Base64(b[3..]))
  {
    ThreeBytes(b[0], b[1], b[2], s);
    next := Step(Step(Step(Step(s, Value0(b[0])), Value1(b[0], b[1])), Value2(b[1], b[2])), Value3(b[2]));
    if Readable(Base64(b[3..])) {
      RunFour(s, Value0(b[0]), Value1(b[0], b[1]), Value2(b[1], b[2]), Value3(b[2]), Base64(b[3..]));
    }
  }

  lemma RunShort(s: State, v0: byte, v1: byte)
    requires Fits(s) && v0 < 64 && v1 < 64
    ensures var a := [Symbol(v0), Symbol(v1)] + "=="; Readable(a) && Run(s, a) == Step(Step(s, v0), v1)
  {
    RunPadding(Step(Step(s, v0), v1));
    RunSymbol(Step(s, v0), v1, "==");
    RunSymbol(s, v0, [Symbol(v1)] + "==");
    assert [Symbol(v0), Symbol(v1)] + "==" == [Symbol(v0)] + ([Symbol(v1)] + "==");
  }

  lemma RunThree(s: State, v0: byte, v1: byte, v2: byte)
    requires Fits(s) && v0 < 64 && v1 < 64 && v2 < 64
    ensures var a := [Symbol(v0), Symbol(v1), Symbol(v2)] + "=";
            Readable(a) && Run(s, a) == Step(Step(Step(s, v0), v1), v2)
  {
    var t := Step(Step(s, v0), v1);
    var r2 := [Symbol(v2)] + "=";
    var r1 := [Symbol(v1)] + r2;
    RunPadding(Step(t, v2));
    RunSymbol(t, v2, "=");
    RunSymbol(Step(s, v0), v1, r2);
    RunSymbol(s, v0, r1);
    assert [Symbol(v0), Symbol(v1), Symbol(v2)] + "=" == [Symbol(v0)] + r1;
  }

  lemma RunFour(s: State, v0: byte, v1: byte, v2: byte, v3: byte, rest: string)
    requires Fits(s) && v0 < 64 && v1 < 64 && v2 < 64 && v3 < 64 && Readable(rest)
    ensures var a := [Symbol(v0), Symbol(v1), Symbol(v2), Symbol(v3)] + rest;
            Readable(a) && Run(s, a) == Run(Step(Step(Step(Step(s, v0), v1), v2), v3), rest)
  {
    var t := Step(Step(s, v0), v1);
    var r3 := [Symbol(v3)] + rest;
    var r2 := [Symbol(v2)] + r3;
    var r1 := [Symbol(v1)] + r2;
    RunSymbol(Step(t, v2), v3, rest);
    RunSymbol(t, v2, r3);
    RunSymbol(Step(s, v0), v1, r2);
    RunSymbol(s, v0, r1);
    assert [Symbol(v0), Symbol(v1), Symbol(v2), Symbol(v3)] + rest == [Symbol(v0)] + r1;
  }

  /** For every byte string, the conversion of its base64 is its hex, and no lone symbol is ever left. */
  lemma Base64ToHexIsHex(b: seq<byte>)
    ensures Readable(Base64(b)) && Run(Start, Base64(b)).e != 1
    ensures Chars(Finish(Run(Start, Base64(b)))) == Hex(b)
  {
    RunBase64(b, Start);
    assert [] + Nibbles(b) == Nibbles(b);
  }

  /** calculateBase64Length, which an upload announces before it encodes. */
  function CalculateBase64Length(inputLength: nat): nat { 4 * ((inputLength + 2) / 3) }

  lemma {:induction false} Base64Length(b: seq<byte>)
    ensures |Base64(b)| == CalculateBase64Length(|b|) == 4 * ((|b| + 2) / 3)
    decreases |b|
  {
    if |b| >= 3 { Base64Length(b[3..]); }
  }
}
