/** The growable buffer and the splice routines. */
module Buffers {
  import opened CString

  /** memcpy of src to index at. */
  method MemCpy(dst: array<char>, at: nat, src: string)
    requires at + |src| <= dst.Length
    modifies dst
    ensures dst[..at + |src|] == old(dst[..at]) + src
  {
    forall i | 0 <= i < |src| {
      dst[at + i] := src[i];
    }
  }

  class KoreBuf {
    var data: array<char>   // its length is the capacity
    var offset: nat         // how much of it is used

    ghost predicate Valid()
      reads this
    {
      offset <= data.Length
    }

    /** The used part. */
    ghost function Contents(): string
      reads this, data
      ensures Valid() ==> Contents() == data[..offset]
    {
      if offset <= data.Length then data[..offset] else []
    }

    /** kore_buf_alloc and kore_buf_append: a buffer that holds s. */
    constructor (s: string)
      ensures Valid() && fresh(data) && Contents() == s
    {
      data := new char[|s|](i requires 0 <= i < |s| => s[i]);
      offset := |s|;
      new;
      assert data[..offset] == s;
    }

    /** aya_buf_replace_string: the span of posLength chars at posStart becomes dst. */
    method ReplaceString(posStart: nat, posLength: nat, dst: string)
      requires Valid() && posStart + posLength <= offset
      modifies this
      ensures Valid() && fresh(data)
      ensures Contents() == old(Contents())[..posStart] + dst + old(Contents())[posStart + posLength..]
      ensures data.Length == old(offset) + |dst| && offset == old(offset) - posLength + |dst|
    {
      var newLen := offset + |dst|;
      var posEnd := posStart + posLength;
      var postLen := offset - posEnd;
      ghost var s := Contents();
      assert data[..posStart] == s[..posStart];
      assert data[posEnd..posEnd + postLen] == s[posEnd..];
      var tmp := new char[newLen](_ => NUL);
      MemCpy(tmp, 0, data[..posStart]);
      MemCpy(tmp, posStart, dst);
      MemCpy(tmp, posStart + |dst|, data[posEnd..posEnd + postLen]);
      assert tmp[..posStart + |dst| + postLen] == s[..posStart] + dst + s[posEnd..];
      data, offset := tmp, posStart + |dst| + postLen;
    }

    /** aya_buf_replace_first_string: the first occurrence of src, if any, becomes dst. */
    method ReplaceFirstString(src: string, dst: string)
      requires Valid()
      modifies this
      ensures Valid() && (data == old(data) || fresh(data))
      ensures Contents() == ReplaceFirst(old(Contents()), src, dst)
      ensures Find(old(Contents()), src).None? ==> Contents() == old(Contents())
      ensures forall a, b :: old(Contents()) == a + src + b && Find(old(Contents()), src) == Some(|a|) ==>
                Contents() == a + dst + b
      ensures Find(old(Contents()), src).Some? ==> data.Length == old(offset) + |dst|
    {
      ghost var s := Contents();
      forall a, b | s == a + src + b && Find(s, src) == Some(|a|)
        ensures ReplaceFirst(s, src, dst) == a + dst + b
      {
        ReplaceFirstIs(a, src, b, dst);
      }
      match Find(data[..offset], src)
      case None =>
      case Some(p) => ReplaceString(p, |src|, dst);
    }

    /** kore_buf_replace_string, as it is assumed to work. */
    method ReplaceAllString(src: string, dst: string)
      requires Valid()
      modifies this
      ensures Valid() && fresh(data) && Contents() == ReplaceAll(old(Contents()), src, dst)
    {
      var t := ReplaceAll(data[..offset], src, dst);
      data := new char[|t|](i requires 0 <= i < |t| => t[i]);
      offset := |t|;
      assert data[..offset] == t;
    }
  }

  function ReplaceFirst(s: string, src: string, dst: string): string {
    match Find(s, src)
    case None => s
    case Some(p) => s[..p] + dst + s[p + |src|..]
  }

  /** What stands before and behind the first occurrence stays where it is. */
  lemma ReplaceFirstIs(a: string, src: string, b: string, dst: string)
    requires Find(a + src + b, src) == Some(|a|)
    ensures ReplaceFirst(a + src + b, src, dst) == a + dst + b
  {
    hide Find;
    assert (a + src + b)[..|a|] == a && (a + src + b)[|a| + |src|..] == b;
  }

  /** A marker behind text without it is that first occurrence, and text without one stays as it is. */
  lemma ReplaceMarker(a: string, src: string, b: string, dst: string)
    requires IsMarker(src) && Free(a, src)
    ensures ReplaceFirst(a + src + b, src, dst) == a + dst + b
    ensures ReplaceFirst(a, src, dst) == a
  {
    hide Find, Free, ReplaceFirst;
    assert (src + b)[0..|src|] == src;
    FindIs(src + b, src, 0);
    FindAtSeam(a, src + b, src);
    assert a + src + b == a + (src + b);
    ReplaceFirstIs(a, src, b, dst);
    ReplaceNone(a, src, dst);
  }

  lemma ReplaceNone(s: string, src: string, dst: string)
    requires Free(s, src)
    ensures ReplaceFirst(s, src, dst) == s
  {
    hide Free;
  }

  /** Every occurrence of src from left to right becomes dst, which is not searched again. */
  function ReplaceAll(s: string, src: string, dst: string): string
    decreases |s|
  {
    if s == [] || src == [] then s
    else if src <= s then dst + ReplaceAll(s[|src|..], src, dst)
    else [s[0]] + ReplaceAll(s[1..], src, dst)
  }
}
