/**
 * Byte strings as C code sees them: a NUL ends a string, searches return the first occurrence.
 * A char stands for one byte.
 */
module CString {
  datatype Option<+T> = None | Some(value: T)

  const NUL := '\0'

  // isspace in the C locale.
  predicate IsSpace(c: char) {
    c == ' ' || c == '\t' || c == '\n' || c == '\U{0B}' || c == '\U{0C}' || c == '\r'
  }

  /** The blank itself, and the five control chars from tab to carriage return. */
  lemma SpacesInOrder(c: char)
    ensures IsSpace(c) <==> c as int == 32 || 9 <= c as int <= 13
  {
  }

  function Nuls(n: nat): (s: string)
    ensures |s| == n && forall i :: 0 <= i < n ==> s[i] == NUL
  {
    seq(n, _ => NUL)
  }

  ghost predicate NulFree(s: string) {
    NUL !in s
  }

  /** strlen: the number of chars before the first NUL, or before the end of the buffer. */
  function StrLen(s: string): (n: nat)
    ensures n <= |s| && NUL !in s[..n] && (n < |s| ==> s[n] == NUL)
  {
    if s == [] || s[0] == NUL then 0 else 1 + StrLen(s[1..])
  }

  /** The C string that starts at index i of a buffer. */
  function CStr(s: string, i: nat): (r: string)
    requires i <= |s|
    ensures NulFree(r) && i + |r| <= |s| && s[i..i + |r|] == r && (i + |r| < |s| ==> s[i + |r|] == NUL)
  {
    s[i..][..StrLen(s[i..])]
  }

  lemma CStrIs(s: string, i: nat, r: string)
    requires i + |r| <= |s| && s[i..i + |r|] == r && NulFree(r)
    requires i + |r| == |s| || s[i + |r|] == NUL
    ensures CStr(s, i) == r
  {
  }

  // ---------------------------------------------------------------- searching

  predicate OccursAt(s: string, pat: string, i: nat) {
    i + |pat| <= |s| && s[i..i + |pat|] == pat
  }

  ghost predicate Free(s: string, pat: string) {
    forall i: nat :: !OccursAt(s, pat, i)
  }

  /** The first occurrence of pat in s, as kore_mem_find is assumed to return it. */
  function Find(s: string, pat: string): (r: Option<nat>)
    ensures r == None <==> Free(s, pat)
    ensures r.Some? ==> OccursAt(s, pat, r.value) && forall i: nat :: i < r.value ==> !OccursAt(s, pat, i)
  {
    FindFrom(s, pat, 0)
  }

  function FindFrom(s: string, pat: string, k: nat): (r: Option<nat>)
    requires k <= |s| + 1
    ensures r == None <==> forall i: nat :: k <= i ==> !OccursAt(s, pat, i)
    ensures r.Some? ==> k <= r.value && OccursAt(s, pat, r.value)
    ensures r.Some? ==> forall i: nat :: k <= i < r.value ==> !OccursAt(s, pat, i)
    decreases |s| + 1 - k
  {
    if k + |pat| > |s| then None
    else if OccursAt(s, pat, k) then Some(k)
    else FindFrom(s, pat, k + 1)
  }

  lemma FindIs(s: string, pat: string, p: nat)
    requires OccursAt(s, pat, p) && forall i: nat :: i < p ==> !OccursAt(s, pat, i)
    ensures Find(s, pat) == Some(p)
  {
  }

  /** A marker whose first char occurs nowhere else in it: no two occurrences can overlap. */
  ghost predicate IsMarker(pat: string) {
    |pat| > 0 && NulFree(pat) && forall i :: 0 < i < |pat| ==> pat[i] != pat[0]
  }

  /** A text free of a marker, then something that starts with the marker's first char. */
  lemma FindAtSeam(x: string, y: string, pat: string)
    requires IsMarker(pat) && Free(x, pat) && y != [] && y[0] == pat[0]
    ensures Find(x + y, pat) == match Find(y, pat) case None => None case Some(q) => Some(|x| + q)
  {
    var s := x + y;
    forall i: nat
      ensures i < |x| ==> !OccursAt(s, pat, i)
      ensures i >= |x| ==> (OccursAt(s, pat, i) <==> OccursAt(y, pat, i - |x|))
    {
      if i < |x| {
        SeamInside(x, y, pat, i);
      } else if i + |pat| <= |s| {
        assert s[i..i + |pat|] == y[i - |x|..i - |x| + |pat|];
      }
    }
    if Find(y, pat).Some? {
      FindIs(s, pat, |x| + Find(y, pat).value);
    }
  }

  lemma SeamInside(x: string, y: string, pat: string, i: nat)
    requires IsMarker(pat) && Free(x, pat) && y != [] && y[0] == pat[0] && i < |x|
    ensures !OccursAt(x + y, pat, i)
  {
    var s := x + y;
    if i + |pat| <= |x| {
      assert s[i..i + |pat|] == x[i..i + |pat|];
      assert !OccursAt(x, pat, i);
    } else if i + |pat| <= |s| {
      assert s[i..i + |pat|][|x| - i] == y[0];
    }
  }

  lemma FreePart(x: string, y: string, pat: string)
    requires Free(x + y, pat) && pat != []
    ensures Free(x, pat)
  {
    forall i: nat
      ensures !OccursAt(x, pat, i)
    {
      if i + |pat| <= |x| {
        assert (x + y)[i..i + |pat|] == x[i..i + |pat|];
        assert !OccursAt(x + y, pat, i);
      }
    }
  }

  /** strchr from index p: the first c before any NUL, if there is one inside the buffer. */
  function StrChr(s: string, p: nat, c: char): (r: Option<nat>)
    requires p <= |s|
    ensures r.Some? ==> p <= r.value < |s| && s[r.value] == c
    ensures r.Some? ==> forall i :: p <= i < r.value ==> s[i] != c && s[i] != NUL
    decreases |s| - p
  {
    if p == |s| then None
    else if s[p] == c then Some(p)
    else if s[p] == NUL then None
    else StrChr(s, p + 1, c)
  }

  lemma {:induction false} StrChrIs(s: string, p: nat, c: char, e: nat)
    requires p <= e < |s| && s[e] == c && forall i :: p <= i < e ==> s[i] != c && s[i] != NUL
    ensures StrChr(s, p, c) == Some(e)
    decreases e - p
  {
    if p < e {
      StrChrIs(s, p + 1, c, e);
    }
  }

  // ---------------------------------------------------------------- trimming

  function TrimLeft(s: string): (r: string)
    ensures |r| <= |s| && s[|s| - |r|..] == r
    ensures r == [] || !IsSpace(r[0])
    ensures forall i :: 0 <= i < |s| - |r| ==> IsSpace(s[i])
  {
    if s != [] && IsSpace(s[0]) then TrimLeft(s[1..]) else s
  }

  function TrimRight(s: string): (r: string)
    ensures |r| <= |s| && s[..|r|] == r
    ensures r == [] || !IsSpace(r[|r| - 1])
    ensures forall i :: |r| <= i < |s| ==> IsSpace(s[i])
  {
    if s != [] && IsSpace(s[|s| - 1]) then TrimRight(s[..|s| - 1]) else s
  }

  function Trim(s: string): string { TrimLeft(TrimRight(s)) }

  lemma TrimRightIs(s: string, r: string)
    requires |r| <= |s| && s[..|r|] == r && (r == [] || !IsSpace(r[|r| - 1]))
    requires forall i :: |r| <= i < |s| ==> IsSpace(s[i])
    ensures TrimRight(s) == r
  {
  }

  lemma TrimLeftIs(s: string, r: string)
    requires |r| <= |s| && s[|s| - |r|..] == r && (r == [] || !IsSpace(r[0]))
    requires forall i :: 0 <= i < |s| - |r| ==> IsSpace(s[i])
    ensures TrimLeft(s) == r
  {
  }
}
