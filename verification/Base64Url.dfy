/** Bitwise operators of C on unsigned values, for the masks and shifts of the codec. */
module Bits {
  function And(x: nat, y: nat): nat {
    if x == 0 || y == 0 then 0
    else (if x % 2 == 1 && y % 2 == 1 then 1 else 0) + 2 * And(x / 2, y / 2)
  }

  function Or(x: nat, y: nat): nat {
    if x == 0 then y
    else if y == 0 then x
    else (if x % 2 == 1 || y % 2 == 1 then 1 else 0) + 2 * Or(x / 2, y / 2)
  }

  lemma AndLowTwo(m: nat, x: nat)
    ensures And(4 * m + 3, x) == x % 4 + 4 * And(m, x / 4)
  {
    assert And(2 * (2 * m + 1) + 1, x) == x % 2 + 2 * And(2 * m + 1, x / 2);
    assert x / 2 / 2 == x / 4;
  }

  lemma OrEven(u: nat, y: nat)
    ensures Or(2 * u, y) == 2 * Or(u, y / 2) + y % 2
  {
  }

  /** Masking with low one-bits is a remainder. */
  lemma Masks(x: nat)
    ensures And(0x1, x) == x % 2 && And(0x3, x) == x % 4 && And(0x0f, x) == x % 16 && And(0x3f, x) == x % 64
  {
    Mask3(x); Mask15(x); Mask63(x);
  }

  lemma Mask3(x: nat)
    ensures And(0x3, x) == x % 4
  {
    AndLowTwo(0, x);
  }

  lemma Rem16(x: nat, q: nat, r: nat)
    requires x == 16 * q + r && r < 16
    ensures x % 16 == r
  {
  }

  lemma Rem64(x: nat, q: nat, r: nat)
    requires x == 64 * q + r && r < 64
    ensures x % 64 == r
  {
  }

  lemma LowDigits(x: nat)
    ensures x % 4 + 4 * (x / 4 % 4) == x % 16 && x % 4 + 4 * (x / 4 % 16) == x % 64
  {
    var (c, k) := (x % 4, x / 4);
    var (q, r) := (k / 4, k % 4);
    var (u, v) := (k / 16, k % 16);
    assert x == 4 * k + c && k == 4 * q + r && k == 16 * u + v;
    Rem16(x, q, 4 * r + c);
    Rem64(x, u, 4 * v + c);
  }

  lemma Mask15(x: nat)
    ensures And(0x0f, x) == x % 16
  {
    hide And;
    AndLowTwo(3, x);
    Mask3(x / 4);
    LowDigits(x);
  }

  lemma Mask63(x: nat)
    ensures And(0x3f, x) == x % 64
  {
    hide And;
    AndLowTwo(15, x);
    Mask15(x / 4);
    LowDigits(x);
  }

  /** Or of a value shifted left with a value below the shift is their sum. */
  lemma Joins(a: nat, y: nat)
    ensures y < 4 ==> Or(4 * a, y) == 4 * a + y
    ensures y < 16 ==> Or(16 * a, y) == 16 * a + y
    ensures y < 64 ==> Or(64 * a, y) == 64 * a + y
  {
    hide Or;
    var y1 := y / 2; var y2 := y1 / 2; var y3 := y2 / 2; var y4 := y3 / 2; var y5 := y4 / 2;
    OrZero(a);
    if y < 4 { OrEven(2 * a, y); OrEven(a, y1); }
    if y < 16 { OrEven(8 * a, y); OrEven(4 * a, y1); OrEven(2 * a, y2); OrEven(a, y3); }
    if y < 64 {
      OrEven(32 * a, y); OrEven(16 * a, y1); OrEven(8 * a, y2);
      OrEven(4 * a, y3); OrEven(2 * a, y4); OrEven(a, y5);
    }
  }

  lemma OrZero(a: nat)
    ensures Or(a, 0) == a
  {
  }
}

/**
 * The unpadded base64url codec. A char stands for one byte; byte strings have every char below 256.
 */
module Base64Url {
  import opened Bits

  ghost predicate IsBytes(s: string) {
    forall i :: 0 <= i < |s| ==> s[i] as int < 256
  }

  /** The encoding table, by its runs. */
  function B64(i: nat): (c: char)
    requires i < 64
  {
    if i < 26 then ('A' as int + i) as char
    else if i < 52 then ('a' as int + i - 26) as char
    else if i < 62 then ('0' as int + i - 52) as char
    else if i == 62 then '-'
    else '_'
  }

  /** The decoding table: zero outside the alphabet. */
  function Unb64(c: char): (i: nat)
    ensures i < 64
  {
    if 'A' <= c <= 'Z' then c as int - 'A' as int
    else if 'a' <= c <= 'z' then c as int - 'a' as int + 26
    else if '0' <= c <= '9' then c as int - '0' as int + 52
    else if c == '-' then 62
    else if c == '_' then 63
    else 0
  }

  predicate InAlphabet(c: char) {
    'A' <= c <= 'Z' || 'a' <= c <= 'z' || '0' <= c <= '9' || c == '-' || c == '_'
  }

  ghost predicate IsAlphabet(s: string) {
    forall i :: 0 <= i < |s| ==> InAlphabet(s[i])
  }

  /** The tables invert each other between the 64 digits and the alphabet. */
  lemma DigitOfChar(i: nat)
    requires i < 64
    ensures InAlphabet(B64(i)) && Unb64(B64(i)) == i
  {
  }

  lemma CharOfDigit(c: char)
    requires InAlphabet(c)
    ensures B64(Unb64(c)) == c
  {
  }

  /** The alphabet of RFC 4648, section 5: upper case, lower case, digits, minus and underscore. */
  const ALPHABET := "ABCDEFGHIJKLMNOPQRSTUVWXYZ" + "abcdefghijklmnopqrstuvwxyz" + "0123456789-_"

  /** Both tables are those of the alphabet in its order; what is not in it counts as zero. */
  lemma AlphabetInOrder(i: nat, c: char)
    ensures |ALPHABET| == 64 && (i < 64 ==> B64(i) == ALPHABET[i])
    ensures InAlphabet(c) <==> c in ALPHABET
    ensures InAlphabet(c) ==> ALPHABET[Unb64(c)] == c
    ensures !InAlphabet(c) ==> Unb64(c) == 0
  {
    hide B64;
    if i < 64 {
      NthLetter(i);
    }
    LetterCount();
    if InAlphabet(c) {
      CharOfDigit(c);
      NthLetter(Unb64(c));
    } else if c in ALPHABET {
      var k :| 0 <= k < 64 && ALPHABET[k] == c;
      NthLetter(k);
      DigitOfChar(k);
    }
  }

  lemma LetterCount()
    ensures |ALPHABET| == 64
  {
  }

  lemma NthLetter(i: nat)
    requires i < 64
    ensures |ALPHABET| == 64 && ALPHABET[i] == B64(i)
  {
    LetterCount();
    if i < 26 { UpperCase(i); } else if i < 52 { LowerCase(i - 26); } else { DigitsAndTwo(i - 52); }
  }

  lemma UpperCase(i: nat)
    requires i < 26
    ensures "ABCDEFGHIJKLMNOPQRSTUVWXYZ"[i] as int == 'A' as int + i
  {
  }

  lemma LowerCase(i: nat)
    requires i < 26
    ensures "abcdefghijklmnopqrstuvwxyz"[i] as int == 'a' as int + i
  {
  }

  lemma DigitsAndTwo(i: nat)
    requires i < 12
    ensures "0123456789-_"[i] == B64(52 + i)
  {
  }

  // Conversion to unsigned char.
  function Low8(x: nat): (c: char)
    ensures c as int < 256
  {
    (x % 256) as char
  }

  /** The four characters of three bytes. */
  function Quad(x: char, y: char, z: char): (q: string)
    requires x as int < 256 && y as int < 256 && z as int < 256
    ensures |q| == 4 && IsAlphabet(q)
  {
    hide B64, InAlphabet;
    var (b0, b1, b2) := (x as int, y as int, z as int);
    DigitOfChar(b0 / 4);
    DigitOfChar(b0 % 4 * 16 + b1 / 16);
    DigitOfChar(b1 % 16 * 4 + b2 / 64);
    DigitOfChar(b2 % 64);
    [B64(b0 / 4), B64(b0 % 4 * 16 + b1 / 16), B64(b1 % 16 * 4 + b2 / 64), B64(b2 % 64)]
  }

  /** The three bytes of four characters, of which those outside the alphabet count as zero. */
  function Triple(p: char, q: char, r: char, s: char): (d: string)
    ensures |d| == 3 && IsBytes(d)
  {
    hide Unb64, Low8;
    var (a, b, c, e) := (Unb64(p), Unb64(q), Unb64(r), Unb64(s));
    [Low8(4 * a + b / 16), Low8(16 * b + c / 4), Low8(64 * c + e)]
  }

  // Encoded length of n bytes, before the terminator.
  function EncodedLength(n: nat): nat {
    n / 3 * 4 + (if n % 3 == 0 then 0 else n % 3 + 1)
  }

  function Encode(d: string): (t: string)
    requires IsBytes(d)
    ensures |t| == EncodedLength(|d|)
    ensures IsAlphabet(t)
  {
    hide Quad, InAlphabet;
    if |d| == 0 then []
    else if |d| == 1 then Quad(d[0], '\0', '\0')[..2]
    else if |d| == 2 then Quad(d[0], d[1], '\0')[..3]
    else Quad(d[0], d[1], d[2]) + Encode(d[3..])
  }

  // Decoded length of n characters; a last group of one character contributes nothing.
  function DecodedLength(n: nat): nat {
    n / 4 * 3 + (if n % 4 < 2 then 0 else n % 4 - 1)
  }

  function Decode(t: string): (d: string)
    ensures |d| == DecodedLength(|t|)
    ensures IsBytes(d)
  {
    hide Triple;
    if |t| < 2 then []
    else if |t| == 2 then Triple(t[0], t[1], 'A', 'A')[..1]
    else if |t| == 3 then Triple(t[0], t[1], t[2], 'A')[..2]
    else Triple(t[0], t[1], t[2], t[3]) + Decode(t[4..])
  }

  // ---------------------------------------------------------------- one group

  lemma QuadDigits(x: char, y: char, z: char)
    requires x as int < 256 && y as int < 256 && z as int < 256
    ensures var (q, b0, b1, b2) := (Quad(x, y, z), x as int, y as int, z as int);
            && Unb64(q[0]) == b0 / 4 && Unb64(q[1]) == b0 % 4 * 16 + b1 / 16
            && Unb64(q[2]) == b1 % 16 * 4 + b2 / 64 && Unb64(q[3]) == b2 % 64
  {
    hide Unb64, B64;
    var (b0, b1, b2) := (x as int, y as int, z as int);
    DigitOfChar(b0 / 4);
    DigitOfChar(b0 % 4 * 16 + b1 / 16);
    DigitOfChar(b1 % 16 * 4 + b2 / 64);
    DigitOfChar(b2 % 64);
  }

  /** Three bytes cut into four sextets and joined again. */
  lemma CutJoin(b0: nat, b1: nat, b2: nat)
    requires b0 < 256 && b1 < 256 && b2 < 256
    ensures (4 * (b0 / 4) + (b0 % 4 * 16 + b1 / 16) / 16) % 256 == b0
    ensures (16 * (b0 % 4 * 16 + b1 / 16) + (b1 % 16 * 4 + b2 / 64) / 4) % 256 == b1
    ensures (64 * (b1 % 16 * 4 + b2 / 64) + b2 % 64) % 256 == b2
  {
    assert (b0 % 4 * 16 + b1 / 16) / 16 == b0 % 4;
    assert (b1 % 16 * 4 + b2 / 64) / 4 == b1 % 16;
    ModIs(16 * (b0 % 4 * 16 + b1 / 16) + b1 % 16, b0 % 4, b1);
    ModIs(64 * (b1 % 16 * 4 + b2 / 64) + b2 % 64, b1 % 16, b2);
  }

  lemma ModIs(x: nat, q: nat, r: nat)
    requires x == 256 * q + r && r < 256
    ensures x % 256 == r
  {
  }

  /** Four sextets joined into three bytes and cut again. */
  lemma JoinCut(a: nat, b: nat, c: nat, e: nat)
    requires a < 64 && b < 64 && c < 64 && e < 64
    ensures var (b0, b1, b2) := ((4 * a + b / 16) % 256, (16 * b + c / 4) % 256, (64 * c + e) % 256);
            b0 / 4 == a && b0 % 4 * 16 + b1 / 16 == b && b1 % 16 * 4 + b2 / 64 == c && b2 % 64 == e
  {
    ModIs(16 * b + c / 4, b / 16, 16 * (b % 16) + c / 4);
    ModIs(64 * c + e, c / 4, 64 * (c % 4) + e);
  }

  lemma TripleQuad(x: char, y: char, z: char)
    requires x as int < 256 && y as int < 256 && z as int < 256
    ensures var q := Quad(x, y, z); Triple(q[0], q[1], q[2], q[3]) == [x, y, z]
  {
    hide Unb64, Quad, Low8, Triple;
    var q := Quad(x, y, z);
    var (a, b, c, e) := (Unb64(q[0]), Unb64(q[1]), Unb64(q[2]), Unb64(q[3]));
    QuadDigits(x, y, z);
    CutJoin(x as int, y as int, z as int);
    TripleIs(q[0], q[1], q[2], q[3]);
    Low8Is(4 * a + b / 16, x);
    Low8Is(16 * b + c / 4, y);
    Low8Is(64 * c + e, z);
  }

  lemma TripleIs(p: char, q: char, r: char, s: char)
    ensures var (a, b, c, e) := (Unb64(p), Unb64(q), Unb64(r), Unb64(s));
            Triple(p, q, r, s) == [Low8(4 * a + b / 16), Low8(16 * b + c / 4), Low8(64 * c + e)]
  {
    hide Unb64, Low8;
  }

  lemma Low8Is(n: nat, c: char)
    requires n % 256 == c as int
    ensures Low8(n) == c
  {
  }

  lemma QuadTriple(p: char, q: char, r: char, s: char)
    requires InAlphabet(p) && InAlphabet(q) && InAlphabet(r) && InAlphabet(s)
    ensures var d := Triple(p, q, r, s); Quad(d[0], d[1], d[2]) == [p, q, r, s]
  {
    hide Unb64, B64, InAlphabet;
    CharOfDigit(p); CharOfDigit(q); CharOfDigit(r); CharOfDigit(s);
    JoinCut(Unb64(p), Unb64(q), Unb64(r), Unb64(s));
  }

  // ---------------------------------------------------------------- regrouping of the bit stream

  /** Value of a byte string read as big-endian digits in base 256, after a leading value acc. */
  ghost function ByteValue(acc: nat, d: string): nat
    decreases |d|
  {
    if d == [] then acc else ByteValue(acc * 256 + d[0] as int, d[1..])
  }

  /** Value of a string of alphabet characters read as big-endian digits in base 64. */
  ghost function SextetValue(acc: nat, t: string): nat
    decreases |t|
  {
    if t == [] then acc else SextetValue(acc * 64 + Unb64(t[0]), t[1..])
  }

  // Zero bits that fill the last sextet, as a factor.
  function FillFactor(n: nat): nat {
    if n % 3 == 0 then 1 else if n % 3 == 1 then 16 else 4
  }

  lemma {:induction false} EncodeRegroups(acc: nat, d: string)
    requires IsBytes(d)
    ensures SextetValue(acc, Encode(d)) == ByteValue(acc, d) * FillFactor(|d|)
    decreases |d|
  {
    hide Unb64, Quad, InAlphabet, EncodedLength;
    if |d| >= 3 {
      var (t, r) := (Encode(d), Encode(d[3..]));
      assert t == Quad(d[0], d[1], d[2]) + r;
      var acc' := ((acc * 256 + d[0] as int) * 256 + d[1] as int) * 256 + d[2] as int;
      QuadValue(acc, d[0], d[1], d[2], r);
      ByteSteps(acc, d);
      EncodeRegroups(acc', d[3..]);
      assert FillFactor(|d|) == FillFactor(|d[3..]|);
    } else {
      LastRegroups(acc, d);
    }
  }

  lemma QuadValue(acc: nat, x: char, y: char, z: char, r: string)
    requires x as int < 256 && y as int < 256 && z as int < 256
    ensures SextetValue(acc, Quad(x, y, z) + r) ==
            SextetValue(((acc * 256 + x as int) * 256 + y as int) * 256 + z as int, r)
  {
    hide Unb64, Quad, InAlphabet;
    QuadDigits(x, y, z);
    SextetSteps(acc, Quad(x, y, z) + r);
    assert (Quad(x, y, z) + r)[4..] == r;
  }

  lemma LastRegroups(acc: nat, d: string)
    requires IsBytes(d) && |d| < 3
    ensures SextetValue(acc, Encode(d)) == ByteValue(acc, d) * FillFactor(|d|)
  {
    hide Unb64, Quad, InAlphabet, EncodedLength;
    if |d| > 0 {
      SextetSteps(acc, Encode(d));
      ByteSteps(acc, d);
      QuadDigits(d[0], if |d| > 1 then d[1] else '\0', '\0');
    }
  }

  lemma SextetSteps(acc: nat, t: string)
    ensures |t| >= 2 ==> SextetValue(acc, t) == SextetValue((acc * 64 + Unb64(t[0])) * 64 + Unb64(t[1]), t[2..])
    ensures |t| >= 3 ==> SextetValue(acc, t) ==
                         SextetValue(((acc * 64 + Unb64(t[0])) * 64 + Unb64(t[1])) * 64 + Unb64(t[2]), t[3..])
    ensures |t| >= 4 ==> SextetValue(acc, t) ==
                         SextetValue((((acc * 64 + Unb64(t[0])) * 64 + Unb64(t[1])) * 64 + Unb64(t[2])) * 64 + Unb64(t[3]), t[4..])
  {
    hide Unb64;
    if |t| >= 2 { assert t[1..][1..] == t[2..]; }
    if |t| >= 3 { assert t[2..][1..] == t[3..]; }
    if |t| >= 4 { assert t[3..][1..] == t[4..]; }
  }

  lemma ByteSteps(acc: nat, d: string)
    ensures |d| >= 1 ==> ByteValue(acc, d) == ByteValue(acc * 256 + d[0] as int, d[1..])
    ensures |d| >= 2 ==> ByteValue(acc, d) == ByteValue((acc * 256 + d[0] as int) * 256 + d[1] as int, d[2..])
    ensures |d| >= 3 ==> ByteValue(acc, d) ==
                         ByteValue(((acc * 256 + d[0] as int) * 256 + d[1] as int) * 256 + d[2] as int, d[3..])
  {
    if |d| >= 2 { assert d[1..][1..] == d[2..]; }
    if |d| >= 3 { assert d[2..][1..] == d[3..]; }
  }

  /** Base-64 digits are determined by their number and their value. */
  lemma {:induction false} SextetsDetermined(acc: nat, s: string, acc': nat, t: string)
    requires |s| == |t| && IsAlphabet(s) && IsAlphabet(t)
    requires SextetValue(acc, s) == SextetValue(acc', t)
    ensures acc == acc' && s == t
    decreases |s|
  {
    hide Unb64, B64, InAlphabet;
    if s != [] {
      SextetsDetermined(acc * 64 + Unb64(s[0]), s[1..], acc' * 64 + Unb64(t[0]), t[1..]);
      CharOfDigit(s[0]);
      CharOfDigit(t[0]);
      assert s == [s[0]] + s[1..] && t == [t[0]] + t[1..];
    }
  }

  /**
   * Section 5 of RFC 4648: the encoding of d is the one alphabet string of the right length whose digits,
   * as a number, are d's bits followed by the zero bits that fill the last sextet.
   */
  lemma EncodeIsTheRegrouping(d: string, t: string)
    requires IsBytes(d) && IsAlphabet(t)
    ensures t == Encode(d) <==> |t| == EncodedLength(|d|) && SextetValue(0, t) == ByteValue(0, d) * FillFactor(|d|)
  {
    hide FillFactor, InAlphabet;
    EncodeRegroups(0, d);
    if |t| == EncodedLength(|d|) && SextetValue(0, t) == ByteValue(0, d) * FillFactor(|d|) {
      SextetsDetermined(0, t, 0, Encode(d));
    }
  }

  // ---------------------------------------------------------------- round trips

  lemma EncodeStep(d: string, i: nat)
    requires IsBytes(d) && i <= |d|
    ensures i + 3 <= |d| ==> Encode(d[i..]) == Quad(d[i], d[i + 1], d[i + 2]) + Encode(d[i + 3..])
    ensures i + 2 == |d| ==> Encode(d[i..]) == Quad(d[i], d[i + 1], '\0')[..3]
    ensures i + 1 == |d| ==> Encode(d[i..]) == Quad(d[i], '\0', '\0')[..2]
    ensures i == |d| ==> Encode(d[i..]) == []
  {
    hide Quad, InAlphabet;
    if i + 3 <= |d| { assert d[i..][3..] == d[i + 3..]; }
  }

  lemma DecodeStep(t: string, i: nat)
    requires i <= |t|
    ensures i + 4 <= |t| ==> Decode(t[i..]) == Triple(t[i], t[i + 1], t[i + 2], t[i + 3]) + Decode(t[i + 4..])
    ensures i + 3 == |t| ==> Decode(t[i..]) == Triple(t[i], t[i + 1], t[i + 2], 'A')[..2]
    ensures i + 2 == |t| ==> Decode(t[i..]) == Triple(t[i], t[i + 1], 'A', 'A')[..1]
    ensures i + 2 > |t| ==> Decode(t[i..]) == []
  {
    hide Triple;
    if i + 4 <= |t| { assert t[i..][4..] == t[i + 4..]; }
  }

  /** Decoding the encoding of any byte string gives it back. */
  lemma {:induction false} DecodeEncode(d: string)
    requires IsBytes(d)
    ensures Decode(Encode(d)) == d
  {
    hide Quad, Triple, InAlphabet, Unb64;
    if |d| > 0 {
      var (y, z) := (if |d| > 1 then d[1] else '\0', if |d| > 2 then d[2] else '\0');
      TripleQuad(d[0], y, z);
      if |d| < 3 {
        ZeroBytes(d[0], y);
      } else {
        assert Encode(d)[4..] == Encode(d[3..]);
        DecodeEncode(d[3..]);
      }
    }
  }

  lemma ZeroBytes(x: char, y: char)
    requires x as int < 256 && y as int < 256
    ensures Quad(x, y, '\0')[3] == 'A' && (y == '\0' ==> Quad(x, y, '\0')[2] == 'A')
  {
  }

  /** The bits of the last character that the decoder throws away are zero. */
  predicate FillIsZero(t: string) {
    (|t| % 4 == 2 ==> Unb64(t[|t| - 1]) % 16 == 0) && (|t| % 4 == 3 ==> Unb64(t[|t| - 1]) % 4 == 0)
  }

  /** Encoding undoes decoding exactly on strings with no lone last character and zero fill bits. */
  lemma {:induction false} EncodeDecode(t: string)
    requires IsAlphabet(t)
    ensures Encode(Decode(t)) == t <==> |t| % 4 != 1 && FillIsZero(t)
  {
    hide Quad, Triple, InAlphabet, Unb64, Encode, Decode, EncodedLength, DecodedLength, FillIsZero;
    if |t| >= 4 {
      EncodeDecode(t[4..]);
      FullGroup(t);
      RestOfGroups(t, Encode(Decode(t[4..])));
    } else {
      LastGroup(t);
    }
  }

  lemma RestOfGroups(t: string, u: string)
    requires |t| >= 4
    ensures t[..4] + u == t <==> u == t[4..]
    ensures |t[4..]| % 4 == |t| % 4 && (FillIsZero(t[4..]) <==> FillIsZero(t))
  {
    hide Unb64;
    assert (t[..4] + u)[4..] == u;
  }

  lemma LastGroup(t: string)
    requires IsAlphabet(t) && |t| < 4
    ensures Encode(Decode(t)) == t <==> |t| != 1 && FillIsZero(t)
  {
    hide Quad, Triple, InAlphabet, Unb64, EncodedLength, DecodedLength;
    Display(t);
    if |t| == 2 {
      ShortGroupOfTwo(t[0], t[1]);
    } else if |t| == 3 {
      ShortGroupOfThree(t[0], t[1], t[2]);
    }
  }

  lemma FullGroup(t: string)
    requires IsAlphabet(t) && |t| >= 4
    ensures Encode(Decode(t)) == t[..4] + Encode(Decode(t[4..]))
  {
    hide Quad, Triple, InAlphabet, Encode, Decode, DecodedLength, EncodedLength;
    QuadTriple(t[0], t[1], t[2], t[3]);
    DecodeStep(t, 0);
    assert t[0..] == t;
    PrependGroup(Triple(t[0], t[1], t[2], t[3]), Decode(t[4..]));
    Display(t);
  }

  lemma Display(t: string)
    ensures |t| == 2 ==> t == [t[0], t[1]]
    ensures |t| == 3 ==> t == [t[0], t[1], t[2]]
    ensures |t| >= 4 ==> t[..4] == [t[0], t[1], t[2], t[3]]
  {
  }

  lemma PrependGroup(d: string, r: string)
    requires IsBytes(d) && IsBytes(r) && |d| == 3
    ensures IsBytes(d + r) && Encode(d + r) == Quad(d[0], d[1], d[2]) + Encode(r)
  {
    hide Quad, InAlphabet;
    assert (d + r)[3..] == r;
  }

  lemma ShortCut(a: nat, b: nat, c: nat)
    requires a < 64 && b < 64 && c < 64
    ensures var (b0, b1) := ((4 * a + b / 16) % 256, (16 * b + c / 4) % 256);
            b0 / 4 == a && b0 % 4 * 16 == b / 16 * 16 && b0 % 4 * 16 + b1 / 16 == b && b1 % 16 * 4 == c / 4 * 4
  {
    ModIs(16 * b + c / 4, b / 16, 16 * (b % 16) + c / 4);
  }

  lemma ShortGroupOfTwo(p: char, q: char)
    requires InAlphabet(p) && InAlphabet(q)
    ensures Quad(Triple(p, q, 'A', 'A')[0], '\0', '\0')[..2] == [p, q] <==> Unb64(q) % 16 == 0
  {
    hide Quad, Unb64, B64, InAlphabet;
    ShortCut(Unb64(p), Unb64(q), 0);
    CharOfDigit(p); CharOfDigit(q);
    var d := Triple(p, q, 'A', 'A')[0];
    QuadDigits(d, '\0', '\0');
    var f := Quad(d, '\0', '\0');
    CharOfDigit(f[0]); CharOfDigit(f[1]);
    assert f[..2] == [f[0], f[1]];
  }

  lemma ShortGroupOfThree(p: char, q: char, r: char)
    requires InAlphabet(p) && InAlphabet(q) && InAlphabet(r)
    ensures Quad(Triple(p, q, r, 'A')[0], Triple(p, q, r, 'A')[1], '\0')[..3] == [p, q, r] <==> Unb64(r) % 4 == 0
  {
    hide Quad, Unb64, B64, InAlphabet;
    ShortCut(Unb64(p), Unb64(q), Unb64(r));
    CharOfDigit(p); CharOfDigit(q); CharOfDigit(r);
    var d := Triple(p, q, r, 'A');
    QuadDigits(d[0], d[1], '\0');
    var g := Quad(d[0], d[1], '\0');
    CharOfDigit(g[0]); CharOfDigit(g[1]); CharOfDigit(g[2]);
    assert g[..3] == [g[0], g[1], g[2]];
  }

  /** Decoding depends on the digits alone: a character outside the alphabet counts as "A". */
  lemma {:induction false} DecodeSeesDigits(t: string, u: string)
    requires |t| == |u| && forall i :: 0 <= i < |t| ==> Unb64(t[i]) == Unb64(u[i])
    ensures Decode(t) == Decode(u)
    decreases |t|
  {
    hide Unb64, Low8;
    if |t| >= 4 {
      assert forall i :: 0 <= i < |t[4..]| ==> t[4..][i] == t[i + 4] && u[4..][i] == u[i + 4];
      DecodeSeesDigits(t[4..], u[4..]);
    }
  }

  /** A last group of a single character is ignored. */
  lemma {:induction false} DecodeDropsLoneCharacter(t: string)
    requires |t| % 4 == 1
    ensures Decode(t) == Decode(t[..|t| - 1])
  {
    hide Triple;
    if |t| > 1 {
      assert t[..|t| - 1][4..] == t[4..][..|t| - 5];
      DecodeDropsLoneCharacter(t[4..]);
    }
  }

  /** The encodings are exactly the alphabet strings with no lone character and zero fill bits. */
  lemma EncodeImage(t: string)
    ensures (exists d :: IsBytes(d) && Encode(d) == t) <==> IsAlphabet(t) && |t| % 4 != 1 && FillIsZero(t)
  {
    hide FillIsZero, InAlphabet;
    if d :| IsBytes(d) && Encode(d) == t {
      DecodeEncode(d);
      EncodeDecode(t);
    }
    if IsAlphabet(t) && |t| % 4 != 1 && FillIsZero(t) {
      EncodeDecode(t);
    }
  }

  // ---------------------------------------------------------------- the C loops

  /** The characters of a group as the C expressions compute them, with masks. */
  lemma QuadByMasks(x: char, y: char, z: char)
    requires x as int < 256 && y as int < 256 && z as int < 256
    ensures var (b0, b1, b2) := (x as int, y as int, z as int);
            && And(0x3, b0) < 4 && And(0x0f, b1) < 16 && And(0x3f, b2) < 64
            && Quad(x, y, z) == [B64(b0 / 4), B64(And(0x3, b0) * 16 + b1 / 16), B64(And(0x0f, b1) * 4 + b2 / 64), B64(And(0x3f, b2))]
  {
    hide B64, And;
    Masks(x as int); Masks(y as int); Masks(z as int);
  }

  /** The bytes of a group as the C expressions compute them, with a bitwise or. */
  lemma TripleByOr(p: char, q: char, r: char, s: char)
    ensures var (a, b, c, e) := (Unb64(p), Unb64(q), Unb64(r), Unb64(s));
            Triple(p, q, r, s) == [Low8(Or(4 * a, b / 16)), Low8(Or(16 * b, c / 4)), Low8(Or(64 * c, e))]
  {
    hide Unb64, Or, Low8;
    Joins(Unb64(p), Unb64(q) / 16); Joins(Unb64(q), Unb64(r) / 4); Joins(Unb64(r), Unb64(s));
  }

  /** The loop body of base64url_encode. */
  method EncodeGroup(data: string, byteNo: nat, result: array<char>, rc: nat)
    requires IsBytes(data) && byteNo + 3 <= |data| && rc + 4 <= result.Length
    modifies result
    ensures result[..rc + 4] == old(result[..rc]) + Quad(data[byteNo], data[byteNo + 1], data[byteNo + 2])
    ensures forall j :: rc + 4 <= j < result.Length ==> result[j] == old(result[j])
  {
    hide Quad, B64, And;
    QuadByMasks(data[byteNo], data[byteNo + 1], data[byteNo + 2]);
    var b0, b1, b2 := data[byteNo] as int, data[byteNo + 1] as int, data[byteNo + 2] as int;
    result[rc] := B64(b0 / 4);
    result[rc + 1] := B64(And(0x3, b0) * 16 + b1 / 16);
    result[rc + 2] := B64(And(0x0f, b1) * 4 + b2 / 64);
    result[rc + 3] := B64(And(0x3f, b2));
  }

  /** The branches after the loop of base64url_encode: one or two bytes are left. */
  method EncodeRest(data: string, byteNo: nat, pad: nat, result: array<char>, rc: nat) returns (rc': nat)
    requires IsBytes(data) && byteNo <= |data| < byteNo + 3
    requires pad == if byteNo == |data| then 0 else byteNo + 3 - |data|
    requires pad < 3 && rc <= result.Length && (pad > 0 ==> rc + 4 - pad <= result.Length)
    modifies result
    ensures rc' == rc + |Encode(data[byteNo..])|
    ensures rc' <= result.Length && result[..rc'] == old(result[..rc]) + Encode(data[byteNo..])
    ensures forall j :: rc' <= j < result.Length ==> result[j] == old(result[j])
  {
    hide Encode, Quad, B64, InAlphabet, And, EncodedLength;
    EncodeStep(data, byteNo);
    rc' := rc;
    if pad == 2 {
      var b0 := data[byteNo] as int;
      QuadByMasks(data[byteNo], '\0', '\0');
      result[rc] := B64(b0 / 4);
      result[rc + 1] := B64(And(0x3, b0) * 16);
      rc' := rc + 2;
    } else if pad == 1 {
      var b0, b1 := data[byteNo] as int, data[byteNo + 1] as int;
      QuadByMasks(data[byteNo], data[byteNo + 1], '\0');
      result[rc] := B64(b0 / 4);
      result[rc + 1] := B64(And(0x3, b0) * 16 + b1 / 16);
      result[rc + 2] := B64(And(0x0f, b1) * 4);
      rc' := rc + 3;
    }
  }

  /** base64url_encode: writes the encoding and a NUL, returns the length before the NUL. */
  method EncodeInto(data: string, result: array<char>) returns (resultLen: nat)
    requires IsBytes(data)
    requires result.Length > EncodedLength(|data|)
    modifies result
    ensures resultLen == EncodedLength(|data|)
    ensures result[..resultLen] == Encode(data) && result[resultLen] == '\0'
    ensures forall j :: resultLen < j < result.Length ==> result[j] == old(result[j])
  {
    hide Encode, Quad, B64, InAlphabet, IsAlphabet, And, EncodedLength;
    var rc := 0;
    var modulusLen := |data| % 3;
    PadFormula(|data|);
    var pad := 2 * And(0x1, modulusLen) + And(0x2, modulusLen) / 2;
    resultLen := 4 * (|data| + pad) / 3;
    var byteNo := 0;
    ghost var k := 0;
    while byteNo + 3 <= |data|
      invariant byteNo <= |data| && byteNo == 3 * k && rc == 4 * k
      invariant result[..rc] + Encode(data[byteNo..]) == Encode(data)
      invariant forall j :: rc <= j < result.Length ==> result[j] == old(result[j])
    {
      EncodeStep(data, byteNo);
      EncodeGroup(data, byteNo, result, rc);
      rc, byteNo, k := rc + 4, byteNo + 3, k + 1;
    }
    rc := EncodeRest(data, byteNo, pad, result, rc);
    resultLen := resultLen - pad;
    result[rc] := '\0';
  }

  // The padding count, and the length computed from it.
  lemma PadFormula(n: nat)
    ensures var pad := 2 * And(0x1, n % 3) + And(0x2, n % 3) / 2;
            && pad == (if n % 3 == 0 then 0 else 3 - n % 3)
            && 4 * (n + pad) / 3 - pad == EncodedLength(n)
  {
    assert And(0x2, n % 3) == 2 * And(0x1, n % 3 / 2);
  }

  datatype Length = Set(n: nat) | Unset

  // The padding count, and the length computed from it.
  lemma UnpadFormula(n: nat)
    ensures var pad := if n % 4 == 2 then 2 else if n % 4 == 3 then 1 else 0;
            3 * (n + pad) / 4 - pad == DecodedLength(n)
  {
  }

  /** The loop body of base64url_decode. */
  method DecodeGroup(data: string, charNo: nat, result: array<char>, cb: nat)
    requires charNo + 4 <= |data| && cb + 3 <= result.Length
    modifies result
    ensures result[..cb + 3] ==
            old(result[..cb]) + Triple(data[charNo], data[charNo + 1], data[charNo + 2], data[charNo + 3])
    ensures forall j :: cb + 3 <= j < result.Length ==> result[j] == old(result[j])
  {
    hide Triple, Unb64, Low8, Or;
    TripleByOr(data[charNo], data[charNo + 1], data[charNo + 2], data[charNo + 3]);
    var a, b, c, d := Unb64(data[charNo]), Unb64(data[charNo + 1]), Unb64(data[charNo + 2]), Unb64(data[charNo + 3]);
    result[cb] := Low8(Or(4 * a, b / 16));
    result[cb + 1] := Low8(Or(16 * b, c / 4));
    result[cb + 2] := Low8(Or(64 * c, d));
  }

  /** The branches after the loop of base64url_decode: three or two characters are left. */
  method DecodeRest(data: string, charNo: nat, pad: nat, result: array<char>, cb: nat) returns (cb': nat)
    requires charNo <= |data| && pad < 3
    requires pad == 0 ==> |data| - charNo < 2
    requires pad > 0 ==> |data| - charNo == 4 - pad && cb + 3 - pad <= result.Length
    requires cb <= result.Length
    modifies result
    ensures cb' == cb + |Decode(data[charNo..])|
    ensures cb' <= result.Length && result[..cb'] == old(result[..cb]) + Decode(data[charNo..])
    ensures forall j :: cb' <= j < result.Length ==> result[j] == old(result[j])
  {
    hide Decode, Triple, Unb64, Low8, Or, DecodedLength;
    DecodeStep(data, charNo);
    cb' := cb;
    if pad == 1 {
      TripleByOr(data[charNo], data[charNo + 1], data[charNo + 2], 'A');
      var a, b, c := Unb64(data[charNo]), Unb64(data[charNo + 1]), Unb64(data[charNo + 2]);
      result[cb] := Low8(Or(4 * a, b / 16));
      result[cb + 1] := Low8(Or(16 * b, c / 4));
      cb' := cb + 2;
    } else if pad == 2 {
      TripleByOr(data[charNo], data[charNo + 1], 'A', 'A');
      var a, b := Unb64(data[charNo]), Unb64(data[charNo + 1]);
      result[cb] := Low8(Or(4 * a, b / 16));
      cb' := cb + 1;
    }
  }

  /** base64url_decode: a one-character input leaves the length output unset. */
  method DecodeInto(data: string, result: array<char>) returns (resultLen: Length)
    requires result.Length >= DecodedLength(|data|)
    modifies result
    ensures resultLen == if |data| == 1 then Unset else Set(DecodedLength(|data|))
    ensures result[..DecodedLength(|data|)] == Decode(data)
    ensures forall j :: DecodedLength(|data|) <= j < result.Length ==> result[j] == old(result[j])
  {
    hide Decode, Triple, Unb64, Low8, Or, DecodedLength, IsBytes;
    UnpadFormula(|data|);
    var pad, dataLen := 0, |data|;
    if dataLen == 1 {
      return Unset;
    } else if dataLen == 2 {
      pad, dataLen := 2, 4;
    } else if dataLen % 4 == 2 {
      pad, dataLen := 2, dataLen + 2;
    } else if dataLen % 4 == 3 {
      pad, dataLen := 1, dataLen + 1;
    }
    assert dataLen == |data| + pad;
    ghost var groups, last := |data| / 4, |data| % 4;
    assert |data| == 4 * groups + last && (if pad == 0 then last < 2 else last == 4 - pad);
    resultLen := Set(3 * dataLen / 4 - pad);
    var cb, charNo := 0, 0;
    ghost var k := 0;
    while charNo + 4 + pad <= dataLen
      invariant k <= groups && charNo == 4 * k && cb == 3 * k
      invariant result[..cb] + Decode(data[charNo..]) == Decode(data)
      invariant forall j :: cb <= j < result.Length ==> result[j] == old(result[j])
    {
      DecodeStep(data, charNo);
      DecodeGroup(data, charNo, result, cb);
      cb, charNo, k := cb + 3, charNo + 4, k + 1;
    }
    cb := DecodeRest(data, charNo, pad, result, cb);
  }
}
