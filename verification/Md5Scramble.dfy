/** The scrambled form of a file's MD5 and the way back. */
module Md5Scramble {
  type nibble = bv4

  predicate IsDecimal(c: char) { '0' <= c <= '9' }

  predicate IsHexDigit(c: char) { IsDecimal(c) || 'a' <= c <= 'f' || 'A' <= c <= 'F' }

  predicate AllHex(s: string) { forall i :: 0 <= i < |s| ==> IsHexDigit(s[i]) }

  /** hex.DecodeString succeeds. */
  predicate Decodes(s: string) { |s| % 2 == 0 && AllHex(s) }

  /** unicode.ToLower of a byte. */
  function ToLower(c: char): char {
    if 'A' <= c <= 'Z' || (0xC0 as char <= c <= 0xDE as char && c != 0xD7 as char) then (c as int + 32) as char else c
  }

  function Lower(s: string): (r: string)
    ensures |r| == |s|
  {
    seq(|s|, i requires 0 <= i < |s| => ToLower(s[i]))
  }

  /** strconv.ParseInt of one character in base 16; what it gives on an error is 0. */
  function Digit(c: char): nibble {
    if !IsHexDigit(c) then 0
    else (c as int - if IsDecimal(c) then 48 else if 'a' <= c <= 'f' then 87 else 55) as nibble
  }

  function Format(n: nibble): char {
    if n < 10 then (n as int + 48) as char else (n as int + 87) as char
  }

  function FormatNat(n: nat): (s: string)
    ensures s != ""
  {
    if n < 16 then [Format(n as nibble)] else FormatNat(n / 16) + [Format((n % 16) as nibble)]
  }

  /** strconv.FormatInt in base 16. */
  function FormatInt(n: int): (s: string)
    ensures s != ""
  {
    if n < 0 then "-" + FormatNat(-n) else FormatNat(n)
  }

  /** Exclusive or with a number below 16, on two's complement numbers. */
  function Xor(n: int, m: nibble): int { n - n % 16 + ((n % 16) as nibble ^ m) as int }

  /** The letters from g to v, which no hex number contains. */
  function Letter(n: nibble): char { (n as int + 103) as char }

  predicate IsLetter(c: char) { 'g' <= ToLower(c) <= 'v' }

  function Unletter(c: char): int { ToLower(c) as int - 103 }

  function Mask(i: nat): nibble { (i % 16) as nibble }

  /** The four quarters in the order second, first, fourth, third. */
  function Reorder(s: string): (r: string)
    requires |s| >= 32
    ensures |r| == 32
  {
    s[8..16] + s[..8] + s[24..32] + s[16..24]
  }

  /** An encrypted MD5: hex digits with a letter from g to v in the tenth place. */
  predicate IsEncrypted(y: string) {
    |y| == 32 && IsLetter(y[9]) && forall i :: 0 <= i < 32 && i != 9 ==> IsHexDigit(y[i])
  }

  function EncryptChar(c: char, i: nat): char {
    if i == 9 then Letter(Digit(c) ^ Mask(i)) else Format(Digit(c) ^ Mask(i))
  }

  /** One character decrypted; for a letter that no encryption gives this may be longer than one. */
  function DecryptChar(c: char, i: nat): (s: string)
    ensures s != ""
  {
    if i == 9 then FormatInt(Xor(Unletter(c), Mask(i))) else [Format(Digit(c) ^ Mask(i))]
  }

  function Encrypted(x: string): (y: string)
    requires |x| >= 32
    ensures |y| == 32
  {
    var r := Reorder(x);
    seq(32, i requires 0 <= i < 32 => EncryptChar(r[i], i))
  }

  function DecryptTo(y: string, n: nat): (s: string)
    requires n <= |y|
    ensures |s| >= n
  {
    if n == 0 then "" else DecryptTo(y, n - 1) + DecryptChar(y[n - 1], n - 1)
  }

  function Decrypted(y: string): (x: string)
    requires Decodes(y) || |y| >= 32
  {
    if Decodes(y) then y else Reorder(DecryptTo(y, |y|))
  }

  /** Fewer than 32 characters would be sliced out of range. */
  method EncryptMd5(originalMd5: string) returns (y: string)
    requires |originalMd5| >= 32
    ensures y == Encrypted(originalMd5)
  {
    var reversed := Reorder(originalMd5);
    y := "";
    var i := 0;
    while i < |reversed|
      invariant 0 <= i == |y| <= 32
      invariant forall k :: 0 <= k < i ==> y[k] == EncryptChar(reversed[k], k)
    {
      var n := Digit(reversed[i]);
      n := n ^ Mask(i);
      y := y + [if i == 9 then Letter(n) else Format(n)];
      i := i + 1;
    }
  }

  method DecryptMd5(encryptMd5: string) returns (x: string)
    requires Decodes(encryptMd5) || |encryptMd5| >= 32
    ensures x == Decrypted(encryptMd5)
  {
    if Decodes(encryptMd5) { return encryptMd5; }
    var out := "";
    var i := 0;
    while i < |encryptMd5|
      invariant 0 <= i <= |encryptMd5|
      invariant out == DecryptTo(encryptMd5, i)
    {
      var n := if i == 9 then Unletter(encryptMd5[i]) else Digit(encryptMd5[i]) as int;
      out := out + FormatInt(Xor(n, Mask(i)));
      XorDigit(Digit(encryptMd5[i]), Mask(i));
      i := i + 1;
    }
    x := Reorder(out);
  }

  lemma XorDigit(n: nibble, m: nibble)
    ensures FormatInt(Xor(n as int, m)) == [Format(n ^ m)]
  {
    XorSmall(n as int, m, n);
    FormatSmall(n ^ m);
  }

  lemma XorSmall(k: int, m: nibble, n: nibble)
    requires 0 <= k < 16 && k as nibble == n
    ensures Xor(k, m) == (n ^ m) as int
  {
    assert k % 16 == k;
  }

  lemma FormatSmall(n: nibble)
    ensures FormatInt(n as int) == [Format(n)]
  {
  }

  // ---- One character ----

  lemma DigitFormat(n: nibble)
    ensures IsHexDigit(Format(n)) && Digit(Format(n)) == n && ToLower(Format(n)) == Format(n)
  {
  }

  lemma LetterBack(n: nibble)
    ensures IsLetter(Letter(n)) && Unletter(Letter(n)) == n as int && !IsHexDigit(Letter(n))
  {
  }

  lemma FormatDigit(c: char)
    requires IsHexDigit(c)
    ensures Format(Digit(c)) == ToLower(c)
  {
  }

  lemma LetterUnletter(c: char) returns (n: nibble)
    requires IsLetter(c)
    ensures Unletter(c) == n as int && Letter(n) == ToLower(c) && !IsHexDigit(c)
  {
    n := Unletter(c) as nibble;
  }

  lemma MaskTwice(n: nibble, m: nibble)
    ensures n ^ m ^ m == n
  {
  }

  lemma CharBack(c: char, i: nat)
    requires IsHexDigit(c)
    ensures var e := EncryptChar(c, i);
            (if i == 9 then IsLetter(e) && !IsHexDigit(e) else IsHexDigit(e)) && DecryptChar(e, i) == [ToLower(c)]
  {
    var n := Digit(c) ^ Mask(i);
    DigitFormat(n);
    LetterBack(n);
    FormatDigit(c);
    MaskTwice(Digit(c), Mask(i));
    XorDigit(n, Mask(i));
  }

  lemma CharForth(c: char, i: nat)
    requires if i == 9 then IsLetter(c) else IsHexDigit(c)
    ensures var d := DecryptChar(c, i); |d| == 1 && IsHexDigit(d[0]) && EncryptChar(d[0], i) == ToLower(c)
  {
    if i == 9 {
      var n := LetterUnletter(c);
      XorDigit(n, Mask(i));
      DigitFormat(n ^ Mask(i));
      MaskTwice(n, Mask(i));
    } else {
      DigitFormat(Digit(c) ^ Mask(i));
      MaskTwice(Digit(c), Mask(i));
      FormatDigit(c);
    }
  }

  /** When every character gives one, the decryption can be read off place by place. */
  lemma {:induction false} DecryptEach(y: string, s: string, n: nat)
    requires n <= |y| == |s| && forall i :: 0 <= i < |y| ==> DecryptChar(y[i], i) == [s[i]]
    ensures DecryptTo(y, n) == s[..n]
  {
    if n > 0 {
      DecryptEach(y, s, n - 1);
      assert s[..n] == s[..n - 1] + [s[n - 1]];
    }
  }

  // ---- The whole number ----

  function From(i: nat): nat
    requires i < 32
  {
    if i < 8 || 16 <= i < 24 then i + 8 else i - 8
  }

  lemma ReorderAt(s: string, i: nat)
    requires |s| == 32 && i < 32
    ensures From(i) < 32 && Reorder(s)[i] == s[From(i)]
  {
    var a, b := s[8..16] + s[..8], s[24..32] + s[16..24];
    assert Reorder(s) == a + b;
    assert if i < 16 then Reorder(s)[i] == a[i] else Reorder(s)[i] == b[i - 16];
  }

  lemma ReorderTwice(s: string)
    requires |s| == 32
    ensures Reorder(Reorder(s)) == s
  {
    var r := Reorder(Reorder(s));
    forall i | 0 <= i < 32
      ensures r[i] == s[i]
    {
      ReorderAt(Reorder(s), i);
      ReorderAt(s, From(i));
    }
    assert r == s;
  }

  lemma ReorderHex(s: string)
    requires |s| == 32
    ensures AllHex(Reorder(s)) <==> AllHex(s)
  {
    ReorderTwice(s);
    if AllHex(s) { ReorderKeepsHex(s); }
    if AllHex(Reorder(s)) { ReorderKeepsHex(Reorder(s)); }
  }

  lemma ReorderKeepsHex(s: string)
    requires |s| == 32 && AllHex(s)
    ensures AllHex(Reorder(s))
  {
    forall i | 0 <= i < 32
      ensures IsHexDigit(Reorder(s)[i])
    {
      ReorderAt(s, i);
    }
  }

  lemma LowerReorder(s: string)
    requires |s| == 32
    ensures Lower(Reorder(s)) == Reorder(Lower(s))
  {
    var a, b := Lower(Reorder(s)), Reorder(Lower(s));
    forall i | 0 <= i < 32
      ensures a[i] == b[i]
    {
      ReorderAt(s, i);
      ReorderAt(Lower(s), i);
    }
    assert a == b;
  }

  /** Decrypting what was encrypted gives the number back, in lower case. */
  lemma DecryptEncrypt(x: string)
    requires |x| == 32 && AllHex(x)
    ensures IsEncrypted(Encrypted(x)) && !Decodes(Encrypted(x)) && Decrypted(Encrypted(x)) == Lower(x)
  {
    var r, y := Reorder(x), Encrypted(x);
    ReorderHex(x);
    forall i | 0 <= i < 32
      ensures if i == 9 then IsLetter(y[i]) && !IsHexDigit(y[i]) else IsHexDigit(y[i])
      ensures DecryptChar(y[i], i) == [Lower(r)[i]]
    {
      CharBack(r[i], i);
    }
    assert !IsHexDigit(y[9]);
    DecryptEach(y, Lower(r), 32);
    assert Lower(r)[..32] == Lower(r);
    LowerReorder(r);
    ReorderTwice(x);
  }

  /** Encrypting what was decrypted gives the encrypted form back, in lower case. */
  lemma EncryptDecrypt(y: string)
    requires IsEncrypted(y)
    ensures !Decodes(y) && |Decrypted(y)| == 32 && AllHex(Decrypted(y)) && Encrypted(Decrypted(y)) == Lower(y)
  {
    var letter := LetterUnletter(y[9]);
    assert !IsHexDigit(y[9]);
    var d := seq(32, i requires 0 <= i < 32 => DecryptChar(y[i], i)[0]);
    forall i | 0 <= i < 32
      ensures DecryptChar(y[i], i) == [d[i]] && IsHexDigit(d[i]) && EncryptChar(d[i], i) == ToLower(y[i])
    {
      CharForth(y[i], i);
    }
    DecryptEach(y, d, 32);
    assert d[..32] == d;
    ReorderHex(d);
    ReorderTwice(d);
    assert Encrypted(Decrypted(y)) == Lower(y);
  }

  /** Decrypting twice is decrypting once. */
  lemma DecryptTwice(y: string)
    requires Decodes(y) || IsEncrypted(y)
    ensures Decodes(Decrypted(y)) && Decrypted(Decrypted(y)) == Decrypted(y)
  {
    if IsEncrypted(y) { EncryptDecrypt(y); }
  }

  // ---- The scrambled form, character by character ----

  lemma FormatIs(n: nibble)
    ensures Format(n) == "0123456789abcdef"[n as int] && Letter(n) == "ghijklmnopqrstuv"[n as int]
  {
  }

  lemma DigitIs(c: char, n: nibble)
    requires c == "0123456789abcdef"[n as int] || c == "0123456789ABCDEF"[n as int]
    ensures IsHexDigit(c) && Digit(c) == n
  {
  }

  /**
   In the place i stands the digit of the place that the reordering takes there, exclusive or the
   last four bits of i, as a hex digit, and in the tenth place as a letter from g on.
   */
  lemma EncryptedAt(x: string, i: nat, n: nibble)
    requires |x| == 32 && i < 32
    requires var c := x[if i < 8 || 16 <= i < 24 then i + 8 else i - 8];
             c == "0123456789abcdef"[n as int] || c == "0123456789ABCDEF"[n as int]
    ensures Encrypted(x)[i] ==
            (if i == 9 then "ghijklmnopqrstuv" else "0123456789abcdef")[(n ^ (i % 16) as nibble) as int]
  {
    ReorderAt(x, i);
    DigitIs(x[From(i)], n);
    FormatIs(n ^ (i % 16) as nibble);
  }

  /** On lower-case hex, decrypting takes back exactly what encrypting did. */
  lemma LowerComesBack(x: string)
    requires |x| == 32 && forall i :: 0 <= i < 32 ==> '0' <= x[i] <= '9' || 'a' <= x[i] <= 'f'
    ensures Decrypted(Encrypted(x)) == x
  {
    DecryptEncrypt(x);
    assert Lower(x) == x;
  }
}
