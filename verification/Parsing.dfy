/** The parser shared by the passes, on the buffer. */
module Parsing {
  import opened CString
  import opened Compat
  import opened Buffers
  import opened Macro

  /** parser: the first token and its closing bracket. */
  method Parser(buffer: KoreBuf, token: string) returns (r: Option<(nat, nat)>)
    requires buffer.Valid()
    ensures r == Locate(token, buffer.Contents())
  {
    var s := buffer.data[..buffer.offset];
    match Find(s, token)
    case None => return None;
    case Some(p) =>
      match StrChr(s, p, ')')
      case None => return None;
      case Some(e) => return Some((p, e));
  }

  /** The closing bracket becomes NUL and the argument before it is trimmed in place. */
  method TakeArgument(buffer: KoreBuf, a: nat, e: nat) returns (name: string, start: nat)
    requires buffer.Valid() && a <= e < buffer.offset && NulFree(buffer.Contents()[a..e])
    modifies buffer.data
    ensures buffer.Contents() == CutArgument(old(buffer.Contents()), a, e)
    ensures var argument := old(buffer.Contents())[a..e];
            && name == Trim(argument) && start == a + |TrimRight(argument)| - |Trim(argument)|
            && a <= start <= e
  {
    hide TrimLeft, TrimRight, StrLen;
    ghost var s := buffer.Contents();
    buffer.data[e] := NUL;
    assert buffer.data[..][a..e] == s[a..e];
    CStrIs(buffer.data[..], a, s[a..e]);
    RStripKeeps(buffer.data[..], a, e, buffer.offset, s);
    RStrip(buffer.data, a);
    start := LSkip(buffer.data, a);
    name := CStr(buffer.data[..], start);
  }

  lemma RStripKeeps(t: string, a: nat, e: nat, n: nat, s: string)
    requires a <= e < n == |s| && n <= |t| && t[..n] == s[e := NUL] && CStr(t, a) == s[a..e]
    ensures RStripped(t, a)[..n] == CutArgument(s, a, e) && CStr(RStripped(t, a), a) == TrimRight(s[a..e])
  {
    hide TrimRight, StrLen;
    RStrippedText(t, a);
    var kept := |TrimRight(s[a..e])|;
    var (r, c) := (RStripped(t, a)[..n], CutArgument(s, a, e));
    assert forall i :: 0 <= i < n ==> t[i] == s[e := NUL][i] by { assert forall i :: 0 <= i < n ==> t[..n][i] == t[i]; }
    assert forall i :: 0 <= i < n ==> r[i] == if i < a + kept then s[i] else if i <= e then NUL else s[i];
    assert forall i :: 0 <= i < n ==> c[i] == if i < a + kept then s[i] else if i <= e then NUL else s[i];
  }

  // ---------------------------------------------------------------- the argument in the text

  /** Where the trimmed argument in [a, e) starts: at a itself when it is all blanks. */
  function ArgumentStart(s: string, a: nat, e: nat): (start: nat)
    requires a <= e <= |s|
    ensures a <= start <= e
  {
    a + |TrimRight(s[a..e])| - |Trim(s[a..e])|
  }

  /** The blanks an argument opens with. */
  function Lead(arg: string): nat {
    |TrimRight(arg)| - |Trim(arg)|
  }

  lemma SliceOfSlice(s: string, lo: nat, hi: nat, i: nat, j: nat)
    requires lo <= hi <= |s| && i <= j <= hi - lo
    ensures s[lo..hi][i..j] == s[lo + i..lo + j]
  {
    var (u, v) := (s[lo..hi], s[lo + i..lo + j]);
    assert |u[i..j]| == |v|;
    forall k | 0 <= k < j - i
      ensures u[i..j][k] == v[k]
    {
      assert u[i..j][k] == u[i + k] == s[lo + (i + k)];
      assert v[k] == s[(lo + i) + k];
    }
  }

  lemma CutParts(s: string, p: nat, a: nat, e: nat, start: nat)
    requires p <= a <= start <= e < |s|
    ensures var t := CutArgument(s, a, e);
            t[..p] == s[..p] && t[e..] == [NUL] + s[e + 1..] && t[start..] == t[start..e + 1] + s[e + 1..]
  {
    hide TrimRight;
    var t := CutArgument(s, a, e);
    assert t[e + 1..] == s[e + 1..];
    assert t[start..] == t[start..e + 1] + t[e + 1..];
  }

  lemma CutText(s: string, a: nat, e: nat, arg: string)
    requires a <= e < |s| && s[a..e] == arg
    ensures CutArgument(s, a, e)[a + Lead(arg)..e + 1] == Trim(arg) + Nuls(|arg| - |TrimRight(arg)|) + [NUL]
  {
    hide TrimLeft, TrimRight, CutArgument;
    var (t, w) := (CutArgument(s, a, e), TrimRight(arg));
    TrimTail(arg);
    CutHere(s, a, e);
    SliceOfSlice(t, a, e + 1, Lead(arg), e + 1 - a);
    DropHead(w, Nuls(|arg| - |w|), Lead(arg));
  }

  lemma CutHere(s: string, a: nat, e: nat)
    requires a <= e < |s|
    ensures var w := TrimRight(s[a..e]); CutArgument(s, a, e)[a..e + 1] == w + Nuls(e - a - |w|) + [NUL]
  {
    hide TrimRight;
    var (k, t) := (|TrimRight(s[a..e])|, CutArgument(s, a, e));
    assert s[a..e][..k] == TrimRight(s[a..e]);
    forall i | 0 <= i < e + 1 - a
      ensures t[a..e + 1][i] == if i < k then s[a..e][..k][i] else NUL
    {
      assert t[a..e + 1][i] == t[a + i];
    }
  }

  lemma DropHead(w: string, u: string, k: nat)
    requires k <= |w|
    ensures (w + u + [NUL])[k..|w| + |u| + 1] == w[k..] + u + [NUL]
  {
    assert (w + u + [NUL])[k..|w| + |u| + 1] == (w + u + [NUL])[k..];
  }

  lemma TrimTail(arg: string)
    ensures Trim(arg) == TrimRight(arg)[Lead(arg)..]
  {
  }

  // ---------------------------------------------------------------- a round up to the lookup

  lemma ArgumentIsPlain(token: string, s: string)
    requires Locate(token, s).Some?
    ensures var (p, e) := Locate(token, s).value; p + |token| <= e ==> NulFree(s[p + |token|..e])
  {
  }

  lemma TrimPlain(s: string)
    requires NulFree(s)
    ensures NulFree(Trim(s))
  {
  }

  /**
   * A round up to the lookup: the first token, its bracket and its trimmed argument. None when there
   * is no such token, no bracket or no argument.
   */
  method OpenMacro(buffer: KoreBuf, token: string) returns (r: Option<(nat, nat, string, nat)>)
    requires buffer.Valid()
    modifies buffer.data
    ensures buffer.Valid() && (r.Some? ==> NulFree(r.value.2))
    ensures Locate(token, old(buffer.Contents())).None? ==> r == None && buffer.Contents() == old(buffer.Contents())
    ensures Locate(token, old(buffer.Contents())).Some? ==>
              var s := old(buffer.Contents());
              var (p, e) := Locate(token, s).value;
              var a := p + |token|;
              if a >= e then r == None && buffer.Contents() == s
              else && r == Some((p, e, Trim(s[a..e]), a + |TrimRight(s[a..e])| - |Trim(s[a..e])|))
                   && buffer.Contents() == CutArgument(s, a, e) && a <= r.value.3 <= e
  {
    hide Locate, CutArgument, Trim, TrimRight;
    var found := Parser(buffer, token);
    match found
    case None => return None;
    case Some((p, e)) =>
      if p + |token| >= e {
        return None;
      }
      ArgumentIsPlain(token, buffer.Contents());
      TrimPlain(buffer.Contents()[p + |token|..e]);
      var name, start := TakeArgument(buffer, p + |token|, e);
      return Some((p, e, name, start));
  }
}
