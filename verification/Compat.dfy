/** The replacements for library string functions, on char arrays. */
module Compat {
  import opened CString

  function Min(a: nat, b: nat): nat { if a < b then a else b }

  // ---------------------------------------------------------------- trimming in place

  /** The buffer after rstrip on the C string at i. */
  function RStripped(s: string, i: nat): (r: string)
    requires i <= |s|
    ensures |r| == |s|
  {
    var c := CStr(s, i);
    var kept := |TrimRight(c)|;
    s[..i + kept] + Nuls(|c| - kept) + s[i + |c|..]
  }

  lemma RStrippedText(s: string, i: nat)
    requires i <= |s|
    ensures CStr(RStripped(s, i), i) == TrimRight(CStr(s, i))
  {
    var (c, r) := (CStr(s, i), RStripped(s, i));
    var t := TrimRight(c);
    assert r[i..i + |t|] == t;
    CStrIs(r, i, t);
  }

  lemma RStrippedAt(s: string, i: nat)
    requires i <= |s|
    ensures var (r, c) := (RStripped(s, i), CStr(s, i));
            && (forall j :: 0 <= j < |s| ==> r[j] == s[j] || r[j] == NUL)
            && (forall j :: 0 <= j < |s| && !(i <= j < i + |c|) ==> r[j] == s[j])
  {
    hide TrimRight;
  }

  /** Inside the C string: what is left once trimmed stays, and every blank behind it is NUL. */
  lemma RStrippedWithin(s: string, i: nat, j: nat)
    requires i <= |s| && i <= j < i + |CStr(s, i)|
    ensures RStripped(s, i)[j] == if j < i + |TrimRight(CStr(s, i))| then s[j] else NUL
  {
    hide TrimRight;
  }

  /** rstrip: trailing blanks of the C string at s become NUL. */
  method RStrip(a: array<char>, s: nat)
    requires s <= a.Length
    modifies a
    ensures a[..] == RStripped(old(a[..]), s)
  {
    hide RStripped;
    assert a[..a.Length] == a[..];
    RStripWithin(a, s, a.Length);
    assert a[..a.Length] == a[..];
  }

  /** rstrip in memory of which the first n chars are in use. */
  method RStripWithin(a: array<char>, s: nat, n: nat)
    requires s <= n <= a.Length
    modifies a
    ensures a[..n] == RStripped(old(a[..n]), s)
    ensures forall i :: n <= i < a.Length ==> a[i] == old(a[i])
  {
    hide RStripped, CStr, TrimRight, StrLen;
    ghost var before := a[..n];
    var len := StrLen(a[s..n]);
    assert before[s..] == a[s..n];
    var p := s + len;
    while p > s && IsSpace(a[p - 1])
      invariant s <= p <= s + len
      invariant forall i :: p <= i < s + len ==> a[i] == NUL && IsSpace(before[i])
      invariant forall i :: 0 <= i < n && !(p <= i < s + len) ==> a[i] == before[i]
      invariant forall i :: n <= i < a.Length ==> a[i] == old(a[i])
    {
      p := p - 1;
      a[p] := NUL;
    }
    StrippedIs(before, a[..n], s, len, p);
  }

  lemma StrippedIs(before: string, after: string, s: nat, len: nat, p: nat)
    requires s <= p <= s + len <= |before| == |after| && len == StrLen(before[s..])
    requires p == s || !IsSpace(before[p - 1])
    requires forall i :: p <= i < s + len ==> after[i] == NUL && IsSpace(before[i])
    requires forall i :: 0 <= i < |before| && !(p <= i < s + len) ==> after[i] == before[i]
    ensures after == RStripped(before, s)
  {
    hide TrimRight, StrLen;
    var c := CStr(before, s);
    assert c == before[s..s + len];
    TrimRightIs(c, before[s..p]);
    assert after[..p] == before[..p] && after[s + len..] == before[s + len..];
  }


  /** lskip: the index of the first char of the C string at s that is not blank. */
  method LSkip(a: array<char>, s: nat) returns (p: nat)
    requires s <= a.Length
    ensures p == s + |CStr(a[..], s)| - |TrimLeft(CStr(a[..], s))|
    ensures s <= p <= a.Length && CStr(a[..], p) == TrimLeft(CStr(a[..], s))
  {
    p := s;
    while p < a.Length && a[p] != NUL && IsSpace(a[p])
      invariant s <= p <= a.Length
      invariant forall i :: s <= i < p ==> IsSpace(a[i])
    {
      p := p + 1;
    }
    LeadingBlanks(a[..], s, p);
  }

  lemma LeadingBlanks(t: string, s: nat, p: nat)
    requires s <= p <= |t| && forall i :: s <= i < p ==> IsSpace(t[i])
    requires p == |t| || t[p] == NUL || !IsSpace(t[p])
    ensures CStr(t, p) == TrimLeft(CStr(t, s)) && p == s + |CStr(t, s)| - |TrimLeft(CStr(t, s))|
  {
    hide TrimLeft, StrLen;
    var c := CStr(t, p);
    CStrIs(t, s, t[s..p] + c);
    TrimLeftIs(t[s..p] + c, c);
  }

  // ---------------------------------------------------------------- bounded copies

  /** A string and its terminator at the start of a buffer that holds both. */
  method PutString(buf: array<char>, text: string)
    requires |text| < buf.Length && NulFree(text)
    modifies buf
    ensures CStr(buf[..], 0) == text
  {
    forall i | 0 <= i < |text| { buf[i] := text[i]; }
    buf[|text|] := NUL;
    CStrIs(buf[..], 0, text);
  }

  /** strncpy with a forced terminator: at most len - 1 chars, padded with NUL. */
  method StrNCpy0(dst: array<char>, src: string, len: nat)
    requires NulFree(src) && 0 < len <= dst.Length
    modifies dst
    ensures dst[..len] == src[..Min(|src|, len - 1)] + Nuls(len - Min(|src|, len - 1))
    ensures dst[len..] == old(dst[len..])
    ensures CStr(dst[..], 0) == src[..Min(|src|, len - 1)]
  {
    var i := 0;
    while i < len
      invariant i <= len
      invariant forall j :: 0 <= j < i ==> dst[j] == if j < |src| then src[j] else NUL
      invariant dst[len..] == old(dst[len..])
    {
      dst[i] := if i < |src| then src[i] else NUL;
      i := i + 1;
    }
    dst[len - 1] := NUL;
    CStrIs(dst[..], 0, src[..Min(|src|, len - 1)]);
  }

  /** strlcpy: copies at most len - 1 chars, always terminates, returns the source length. */
  method StrLCpy(dst: array<char>, src: string, len: nat) returns (n: nat)
    requires NulFree(src) && len <= dst.Length
    modifies dst
    ensures n == if len == 0 then 0 else |src|
    ensures len == 0 ==> dst[..] == old(dst[..])
    ensures len > 0 ==> CStr(dst[..], 0) == src[..Min(|src|, len - 1)]
    ensures len > 0 ==> dst[Min(|src|, len - 1) + 1..] == old(dst[Min(|src|, len - 1) + 1..])
  {
    if len == 0 {
      return 0;
    }
    var d := 0;
    while true
      invariant d <= Min(|src|, len - 1)
      invariant dst[..d] == src[..d]
      invariant forall i :: d <= i < dst.Length ==> dst[i] == old(dst[i])
      decreases len - d
    {
      dst[d] := if d < |src| then src[d] else NUL;
      if dst[d] == NUL {
        break;
      }
      if d == len - 1 {
        dst[d] := NUL;
        break;
      }
      d := d + 1;
    }
    CStrIs(dst[..], 0, src[..d]);
    assert forall i :: d < i < dst.Length ==> dst[i] == old(dst[i]);
    return |src|;
  }

  /** strlcat: appends as much as fits with a terminator; nothing when dst holds no terminator. */
  method StrLCat(dst: array<char>, src: string, len: nat) returns (n: nat)
    requires NulFree(src) && len <= dst.Length
    modifies dst
    ensures var dlen := Min(|CStr(old(dst[..]), 0)|, len);
            && n == (if len == 0 then 0 else dlen + |src|)
            && (dlen == len ==> dst[..] == old(dst[..]))
            && (dlen < len ==> CStr(dst[..], 0) == CStr(old(dst[..]), 0) + src[..Min(|src|, len - dlen - 1)])
  {
    if len == 0 {
      return 0;
    }
    ghost var before := dst[..];
    ghost var c := CStr(before, 0);
    var d := 0;
    while d < len && dst[d] != NUL
      invariant d <= len && d <= |c|
    {
      assert d < |c|;
      d := d + 1;
    }
    var dlen := d;
    if dlen == len {
      return dlen + |src|;
    }
    assert dlen == |c|;
    var room, s := len - dlen, 0;
    while s < |src|
      invariant s <= |src| && 1 <= room && d < dst.Length
      invariant d == dlen + Min(s, len - dlen - 1) && room == len - d
      invariant dst[..d] == c + src[..d - dlen]
      invariant forall j :: d <= j < dst.Length ==> dst[j] == before[j]
    {
      if room != 1 {
        dst[d] := src[s];
        d, room := d + 1, room - 1;
      }
      s := s + 1;
    }
    dst[d] := NUL;
    CStrIs(dst[..], 0, c + src[..d - dlen]);
    return dlen + |src|;
  }

  // ---------------------------------------------------------------- decimal text

  // C division and remainder: both truncate toward zero.
  function CDiv(a: int, b: int): int
    requires b > 0
  {
    if a >= 0 then a / b else -((-a) / b)
  }

  function CMod(a: int, b: int): int
    requires b > 0
  {
    a - b * CDiv(a, b)
  }

  function Digit(d: nat): (c: char)
    requires d < 10
    ensures '0' <= c <= '9'
  {
    '0' + d as char
  }

  function DecimalNat(n: nat): (s: string)
    ensures |s| > 0 && forall i :: 0 <= i < |s| ==> '0' <= s[i] <= '9'
  {
    if n < 10 then [Digit(n)] else DecimalNat(n / 10) + [Digit(n % 10)]
  }

  function Decimal(i: int): string {
    if i < 0 then "-" + DecimalNat(-i) else DecimalNat(i)
  }

  /** The number a digit string denotes. */
  function ReadNat(s: string): nat {
    if s == [] then 0
    else 10 * ReadNat(s[..|s| - 1]) + (if '0' <= s[|s| - 1] <= '9' then s[|s| - 1] as int - '0' as int else 0)
  }

  function Read(s: string): int {
    if s != [] && s[0] == '-' then 0 - ReadNat(s[1..]) else ReadNat(s)
  }

  ghost predicate Digits(s: string) {
    |s| > 0 && forall i :: 0 <= i < |s| ==> '0' <= s[i] <= '9'
  }

  /** Decimal text: an optional minus sign, digits, no leading zero, no negative zero. */
  ghost predicate Canonical(s: string) {
    if s != [] && s[0] == '-' then Digits(s[1..]) && s[1] != '0'
    else Digits(s) && (|s| > 1 ==> s[0] != '0')
  }

  lemma {:induction false} DecimalNatReads(n: nat)
    ensures ReadNat(DecimalNat(n)) == n
    ensures DecimalNat(n)[0] == '0' ==> n == 0
  {
    if n >= 10 {
      DecimalNatReads(n / 10);
      var s := DecimalNat(n);
      assert s[..|s| - 1] == DecimalNat(n / 10);
    }
  }

  lemma {:induction false} ReadNatDetermines(s: string)
    requires Digits(s) && (|s| > 1 ==> s[0] != '0')
    ensures DecimalNat(ReadNat(s)) == s
  {
    var (u, c) := (s[..|s| - 1], s[|s| - 1]);
    assert s == u + [c];
    assert Digit(c as int - '0' as int) == c;
    if u == [] {
      assert ReadNat(u) == 0;
    } else {
      ReadNatDetermines(u);
      ReadNatPositive(u);
      var k := ReadNat(u);
      assert ReadNat(s) / 10 == k && ReadNat(s) % 10 == c as int - '0' as int;
    }
  }

  lemma {:induction false} ReadNatPositive(s: string)
    requires Digits(s) && s[0] != '0'
    ensures ReadNat(s) > 0
  {
    if |s| > 1 {
      ReadNatPositive(s[..|s| - 1]);
    } else {
      assert s[..0] == [];
    }
  }

  /** The decimal text of i is the one canonical text that reads back as i. */
  lemma DecimalIsUnique(i: int, s: string)
    ensures s == Decimal(i) <==> Canonical(s) && Read(s) == i
  {
    hide DecimalNat, ReadNat;
    if i < 0 { DecimalNatReads(-i); } else { DecimalNatReads(i); }
    DecimalIsCanonical(i);
    if Canonical(s) {
      if s[0] == '-' {
        ReadNatDetermines(s[1..]);
        ReadNatPositive(s[1..]);
        assert s == "-" + s[1..];
      } else {
        ReadNatDetermines(s);
      }
    }
  }

  lemma DecimalIsCanonical(i: int)
    ensures Canonical(Decimal(i)) && Read(Decimal(i)) == i
  {
    hide ReadNat;
    var s := Decimal(i);
    if i < 0 {
      DecimalNatReads(-i);
      assert s[1..] == DecimalNat(-i);
    } else {
      DecimalNatReads(i);
      assert s[0] != '-';
      assert DecimalNat(0) == [Digit(0)];
    }
  }

  function Pow10(k: nat): nat {
    if k == 0 then 1 else 10 * Pow10(k - 1)
  }

  lemma TenDigits()
    ensures 0x8000_0000 < Pow10(10)
  {
    assert Pow10(5) == 100000;
    assert Pow10(10) == 10 * (10 * (10 * (10 * (10 * Pow10(5)))));
  }

  lemma DecimalNatStep(n: nat, t: string)
    ensures n >= 10 ==> DecimalNat(n) + t == DecimalNat(n / 10) + ([Digit(n % 10)] + t)
    ensures n < 10 ==> DecimalNat(n) + t == [Digit(n)] + t
  {
    if n >= 10 {
      assert DecimalNat(n / 10) + [Digit(n % 10)] + t == DecimalNat(n / 10) + ([Digit(n % 10)] + t);
    }
  }

  /** The digit loops of aya_itoa: the last digit first, from the end of the buffer. */
  method PutDigits(buf: array<char>, i: int) returns (p: nat)
    requires -0x8000_0000 <= i < 0x8000_0000
    requires buf.Length == 21 && buf[20] == NUL
    modifies buf
    ensures 10 <= p < 20 && buf[20] == NUL
    ensures buf[p..20] == DecimalNat(if i < 0 then -i else i)
  {
    hide DecimalNat, Pow10;
    var n := i;
    p := 20;
    TenDigits();
    ghost var size: nat := if i < 0 then -i else i;
    ghost var m: nat := size;
    ghost var k := 10;
    while true
      invariant p == k + 10 && 0 <= k && buf[20] == NUL
      invariant n == (if i < 0 then 0 - m else m) && (m == 0 ==> p == 20)
      invariant m < Pow10(k)
      invariant DecimalNat(size) == DecimalNat(m) + buf[p..20]
      decreases k
    {
      Pow10Step(k);
      DecimalNatStep(m, buf[p..20]);
      p, k := p - 1, k - 1;
      buf[p] := if i >= 0 then '0' + CMod(n, 10) as char else '0' + (-CMod(n, 10)) as char;
      assert buf[p..20] == [Digit(m % 10)] + buf[p + 1..20];
      n, m := CDiv(n, 10), m / 10;
      if n == 0 {
        break;
      }
    }
  }

  /** aya_itoa on its static buffer, whose last char is the terminator: every 32-bit int. */
  method Itoa(buf: array<char>, i: int) returns (p: nat)
    requires -0x8000_0000 <= i < 0x8000_0000
    requires buf.Length == 21 && buf[20] == NUL
    modifies buf
    ensures p < 20 && buf[20] == NUL
    ensures CStr(buf[..], p) == Decimal(i)
  {
    hide DecimalNat, CDiv, CMod;
    p := PutDigits(buf, i);
    if i < 0 {
      p := p - 1;
      buf[p] := '-';
    }
    assert buf[p..20] == Decimal(i);
    DecimalHasNoNul(i);
    CStrIs(buf[..], p, Decimal(i));
  }

  lemma Pow10Step(k: nat)
    ensures k > 0 ==> Pow10(k) == 10 * Pow10(k - 1)
    ensures Pow10(0) == 1
  {
  }

  lemma DecimalHasNoNul(i: int)
    ensures NulFree(Decimal(i))
  {
    hide DecimalNat;
  }
}
