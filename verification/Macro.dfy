/**
 * The macro passes of the template rewriter as rewriting of a string: one round finds the first
 * token, replaces the macro and leaves a NUL where its closing bracket stood. The passes rescan
 * from the start after every round.
 */
module Macro {
  import opened CString

  /** What one round of a pass does: stop with this text, or go round again with this one. */
  datatype Round = Halt(text: string) | Again(text: string)

  /** An opening token such as "@var(". */
  ghost predicate IsToken(token: string) {
    && |token| > 1 && IsMarker(token) && ')' !in token
    && token[|token| - 1] == '(' && '(' !in token[..|token| - 1]
  }

  /** What an argument, as written, stands for behind a token. */
  datatype TokenLookup = Macro(token: string, lookup: string -> Option<string>)

  /** Behind an opening token. */
  type Macro = m: TokenLookup | IsToken(m.token) ghost witness Macro("@(", _ => None)

  // ---------------------------------------------------------------- the tokens

  const TOK_INCLUDE := "@include("
  const TOK_FUNCTION := "@function("
  const TOK_USER_VAR := "@var("

  lemma IncludeIsToken()
    ensures IsToken(TOK_INCLUDE)
  {
  }

  lemma FunctionIsToken()
    ensures IsToken(TOK_FUNCTION)
  {
  }

  lemma UserVarIsToken()
    ensures IsToken(TOK_USER_VAR)
  {
  }

  // ---------------------------------------------------------------- one macro

  /** The text with its closing bracket at e and the blanks before it overwritten with NUL. */
  function CutArgument(s: string, a: nat, e: nat): (r: string)
    requires a <= e < |s|
    ensures |r| == |s|
  {
    var kept := |TrimRight(s[a..e])|;
    s[..a + kept] + Nuls(e - a - kept + 1) + s[e + 1..]
  }

  /** Where the first macro stands: its start and its closing bracket. */
  function Locate(token: string, s: string): (r: Option<(nat, nat)>)
    ensures r.Some? ==> r.value.0 <= r.value.1 < |s| && OccursAt(s, token, r.value.0)
  {
    match Find(s, token)
    case None => None
    case Some(p) =>
      match StrChr(s, p, ')')
      case None => None
      case Some(e) => Some((p, e))
  }

  lemma LocateSpan(m: Macro, s: string)
    requires Locate(m.token, s).Some?
    ensures var (p, e) := Locate(m.token, s).value; p + |m.token| <= e
  {
    hide Find, StrChr;
    var (p, e) := Locate(m.token, s).value;
    assert forall i :: p <= i < p + |m.token| ==> s[i] == m.token[i - p];
  }

  /** What parser() and the lookup make of the first macro of a text. */
  datatype First =
    | Missing                  // no token
    | Stuck(cut: string)       // no bracket, no argument, or an unknown one: what the pass leaves behind
    | Known(before: string, name: string, value: string, after: string)

  ghost function Parse(m: Macro, s: string): (f: First)
    ensures f.Missing? <==> Find(s, m.token).None?
    ensures f.Known? ==> |f.before| + |f.after| < |s| && m.lookup(f.name) == Some(f.value)
    ensures f.Known? ==> Find(s, m.token) == Some(|f.before|) && s[..|f.before|] == f.before
  {
    hide Find, StrChr, IsToken;
    if Find(s, m.token).None? then Missing
    else
      match Locate(m.token, s)
      case None => Stuck(s)
      case Some((p, e)) =>
        LocateSpan(m, s);
        var a := p + |m.token|;
        if a == e then Stuck(s)
        else
          var name := s[a..e];
          match m.lookup(name)
          case None => Stuck(CutArgument(s, a, e))
          case Some(v) => Known(s[..p], name, v, s[e + 1..])
  }

  /** One round: the body of the for (;;) loop. */
  ghost function MacroRound(m: Macro, s: string): Round
  {
    match Parse(m, s)
    case Missing => Halt(s)
    case Stuck(cut) => Halt(cut)
    case Known(before, _, v, after) => Again(before + v + [NUL] + after)
  }

  /** The first n rounds; a pass that has stopped stays stopped. */
  ghost function Run(m: Macro, s: string, n: nat): Round
    decreases n
  {
    hide MacroRound;
    if n == 0 then Again(s)
    else match MacroRound(m, s)
      case Halt(t) => Halt(t)
      case Again(t) => Run(m, t, n - 1)
  }

  /** The pass stops, leaving t. */
  ghost predicate Ends(m: Macro, s: string, t: string)
  {
    exists n: nat :: Run(m, s, n) == Halt(t)
  }

  lemma {:induction false} RunAppend(m: Macro, s: string, n: nat, k: nat)
    ensures Run(m, s, n).Again? ==> Run(m, s, n + k) == Run(m, Run(m, s, n).text, k)
    ensures Run(m, s, n).Halt? ==> Run(m, s, n + k) == Run(m, s, n)
    decreases n
  {
    hide MacroRound;
    if n > 0 && MacroRound(m, s).Again? {
      RunAppend(m, MacroRound(m, s).text, n - 1, k);
    }
  }

  /** A pass has at most one result. */
  lemma EndsOnce(m: Macro, s: string, t: string, t': string)
    requires Ends(m, s, t) && Ends(m, s, t')
    ensures t == t'
  {
    hide MacroRound;
    var n: nat :| Run(m, s, n) == Halt(t);
    var n': nat :| Run(m, s, n') == Halt(t');
    if n <= n' { RunAppend(m, s, n, n' - n); } else { RunAppend(m, s, n', n - n'); }
  }

  // ---------------------------------------------------------------- seams

  /** x does not end in a proper prefix of the token. */
  ghost predicate NoPartial(x: string, token: string) {
    forall k :: 0 < k < |token| && k <= |x| ==> x[|x| - k..] != token[..k]
  }

  /** No occurrence of the token can start in pre, whatever follows. */
  ghost predicate Sealed(pre: string, token: string) {
    Free(pre, token) && NoPartial(pre, token)
  }

  lemma OccursShift(pre: string, s: string, token: string, i: nat)
    ensures OccursAt(pre + s, token, |pre| + i) <==> OccursAt(s, token, i)
  {
    if i + |token| <= |s| {
      assert (pre + s)[|pre| + i..|pre| + i + |token|] == s[i..i + |token|];
    }
  }

  lemma NoneStartsInSealed(pre: string, s: string, token: string, i: nat)
    requires Sealed(pre, token) && i < |pre|
    ensures !OccursAt(pre + s, token, i)
  {
    var (t, k) := (pre + s, |pre| - i);
    if k >= |token| {
      assert t[i..i + |token|] == pre[i..i + |token|];
      assert !OccursAt(pre, token, i);
    } else if i + |token| <= |t| {
      assert t[i..i + |token|][..k] == pre[i..];
      assert pre[|pre| - k..] != token[..k];
    }
  }

  lemma FindAfterSealed(pre: string, s: string, token: string)
    requires Sealed(pre, token)
    ensures Find(pre + s, token) == match Find(s, token) case None => None case Some(p) => Some(|pre| + p)
  {
    hide OccursAt, Sealed;
    forall i: nat
      ensures i < |pre| ==> !OccursAt(pre + s, token, i)
      ensures i >= |pre| ==> (OccursAt(pre + s, token, i) <==> OccursAt(s, token, i - |pre|))
    {
      if i < |pre| { NoneStartsInSealed(pre, s, token, i); } else { OccursShift(pre, s, token, i - |pre|); }
    }
    if Find(s, token).Some? {
      FindIs(pre + s, token, |pre| + Find(s, token).value);
    }
  }

  /** strchr inside a piece s of t that ends t or is followed by NUL. */
  lemma {:induction false} StrChrInside(t: string, o: nat, s: string, p: nat, c: char)
    requires p <= |s| && o + |s| <= |t| && t[o..o + |s|] == s
    requires (o + |s| == |t| || t[o + |s|] == NUL) && c != NUL
    ensures StrChr(t, o + p, c) == match StrChr(s, p, c) case None => None case Some(e) => Some(o + e)
    decreases |s| - p
  {
    if p < |s| {
      assert t[o + p] == s[p];
      if s[p] != c && s[p] != NUL {
        StrChrInside(t, o, s, p + 1, c);
      }
    }
  }

  lemma FreeParts(pre: string, u: string, token: string)
    requires Sealed(pre, token) && Free(u, token)
    ensures Free(pre + u, token)
  {
    hide OccursAt;
    forall i: nat
      ensures !OccursAt(pre + u, token, i)
    {
      if i < |pre| { NoneStartsInSealed(pre, u, token, i); } else { OccursShift(pre, u, token, i - |pre|); }
    }
  }

  lemma FreePrefix(s: string, token: string, p: nat)
    requires p <= |s| && forall i: nat :: i < p ==> !OccursAt(s, token, i)
    requires |token| > 0
    ensures Free(s[..p], token)
  {
    forall i: nat
      ensures !OccursAt(s[..p], token, i)
    {
      if i + |token| <= p {
        assert s[..p][i..i + |token|] == s[i..i + |token|];
        assert !OccursAt(s, token, i);
      }
    }
  }

  /** A text free of the token that ends in NUL seals. */
  lemma SealedByNul(x: string, token: string)
    requires Free(x + [NUL], token) && NulFree(token)
    ensures Sealed(x + [NUL], token)
  {
    var pre := x + [NUL];
    forall k | 0 < k < |token| && k <= |pre|
      ensures pre[|pre| - k..] != token[..k]
    {
      assert pre[|pre| - k..][k - 1] == NUL;
    }
  }

  /** A piece s between what precedes and what follows it. */
  ghost function Within(pre: string, s: string, post: string): string { pre + s + post }

  /** The first macro of a piece is the first macro of the longer buffer around it. */
  lemma ParseInside(m: Macro, pre: string, s: string, post: string)
    requires Sealed(pre, m.token)
    requires post == [] || (post[0] == NUL && !Parse(m, s).Missing?)
    ensures Parse(m, Within(pre, s, post)) ==
            match Parse(m, s)
            case Missing => Missing
            case Stuck(cut) => Stuck(Within(pre, cut, post))
            case Known(before, name, v, after) => Known(pre + before, name, v, after + post)
  {
    hide Sealed, Locate, Find, OccursAt, Free, CutArgument, IsToken, Within;
    LocateInside(m.token, pre, s, post);
    if Locate(m.token, s).Some? {
      LocateSpan(m, s);
      var (p, e) := Locate(m.token, s).value;
      ArgumentInside(pre, s, post, p, p + |m.token|, e);
    }
  }

  lemma ArgumentInside(pre: string, s: string, post: string, p: nat, a: nat, e: nat)
    requires p <= a <= e < |s|
    ensures var t := Within(pre, s, post);
            && |t| == |pre| + |s| + |post|
            && t[|pre| + a..|pre| + e] == s[a..e]
            && t[..|pre| + p] == pre + s[..p] && t[|pre| + e + 1..] == s[e + 1..] + post
            && CutArgument(t, |pre| + a, |pre| + e) == Within(pre, CutArgument(s, a, e), post)
  {
    var t := Within(pre, s, post);
    assert t[|pre| + a..|pre| + e] == s[a..e];
    assert t[|pre| + e + 1..] == s[e + 1..] + post;
  }

  lemma LocateInside(token: string, pre: string, s: string, post: string)
    requires Sealed(pre, token)
    requires post == [] || (post[0] == NUL && Find(s, token).Some?)
    ensures Find(Within(pre, s, post), token).None? <==> Find(s, token).None?
    ensures Locate(token, Within(pre, s, post)) ==
            match Locate(token, s) case None => None case Some((p, e)) => Some((|pre| + p, |pre| + e))
  {
    hide Sealed, StrChr, Find, OccursAt, Free;
    var t := pre + s + post;
    assert Find(t, token) == match Find(s, token) case None => None case Some(p) => Some(|pre| + p) by {
      assert t == pre + (s + post);
      FindAfterSealed(pre, s + post, token);
      if post == [] {
        assert s + post == s;
      } else {
        FindInPrefix(s, post, token);
      }
    }
    match Find(s, token)
    case None =>
    case Some(p) =>
      FindBound(s, token);
      assert t[|pre|..|pre| + |s|] == s;
      assert post != [] ==> t[|pre| + |s|] == NUL;
      StrChrInside(t, |pre|, s, p, ')');
  }

  lemma FindBound(s: string, token: string)
    ensures Find(s, token).Some? ==> Find(s, token).value <= |s|
  {
  }

  lemma FindInPrefix(s: string, post: string, token: string)
    requires Find(s, token).Some?
    ensures Find(s + post, token) == Find(s, token)
  {
    var p := Find(s, token).value;
    forall i: nat | i <= p
      ensures OccursAt(s + post, token, i) <==> OccursAt(s, token, i)
    {
      assert (s + post)[i..i + |token|] == s[i..i + |token|];
    }
    FindIs(s + post, token, p);
  }

  // ---------------------------------------------------------------- values without an opening bracket

  /** No value can complete a token or bring one in. */
  ghost predicate BracketFree(m: Macro) {
    forall name: string :: m.lookup(name).Some? ==> '(' !in m.lookup(name).value
  }

  /**
   * One pass from left to right that never looks at replaced text again: each macro becomes its
   * value and a NUL; the first malformed or unknown macro ends the pass.
   */
  ghost function Scan(m: Macro, s: string): string
    decreases |s|
  {
    hide Parse;
    match Parse(m, s)
    case Missing => s
    case Stuck(cut) => cut
    case Known(before, _, v, after) => before + v + [NUL] + Scan(m, after)
  }

  lemma SealedBracketFree(m: Macro, pre: string, v: string)
    requires Free(pre, m.token) && '(' !in v
    ensures Sealed(pre + v + [NUL], m.token)
  {
    var t := pre + v + [NUL];
    var n := |m.token|;
    forall i: nat
      ensures !OccursAt(t, m.token, i)
    {
      if i + n <= |pre| {
        assert t[i..i + n] == pre[i..i + n];
        assert !OccursAt(pre, m.token, i);
      } else if i + n <= |t| {
        assert t[i..i + n][n - 1] == t[i + n - 1];
      }
    }
    SealedByNul(pre + v, m.token);
  }

  lemma {:induction false} FlatRun(m: Macro, pre: string, s: string) returns (n: nat)
    requires BracketFree(m) && Sealed(pre, m.token)
    ensures Run(m, pre + s, n) == Halt(pre + Scan(m, s))
    decreases |s|
  {
    hide Sealed, Parse, OccursAt, Free, IsToken, BracketFree, Within;
    ParseInside(m, pre, s, []);
    WithinNothing(pre, s);
    n := 1;
    match Parse(m, s)
    case Missing =>
    case Stuck(cut) => WithinNothing(pre, cut);
    case Known(before, name, v, after) =>
      SealedFlat(m, pre, s);
      var k := FlatRun(m, pre + before + v + [NUL], after);
      assert after + [] == after;
      assert pre + (before + v + [NUL] + Scan(m, after)) == pre + before + v + [NUL] + Scan(m, after);
      n := k + 1;
  }

  lemma WithinNothing(pre: string, s: string)
    ensures Within(pre, s, []) == pre + s
  {
  }

  lemma SealedFlat(m: Macro, pre: string, s: string)
    requires BracketFree(m) && Sealed(pre, m.token) && Parse(m, s).Known?
    ensures Sealed(pre + Parse(m, s).before + Parse(m, s).value + [NUL], m.token)
  {
    hide Sealed, Parse, OccursAt, Free, IsToken;
    var f := Parse(m, s);
    BeforeIsFree(m, s);
    FreeParts(pre, f.before, m.token);
    SealedBracketFree(m, pre + f.before, f.value);
  }

  lemma BeforeIsFree(m: Macro, s: string)
    requires Parse(m, s).Known?
    ensures Free(Parse(m, s).before, m.token)
  {
    hide Parse, OccursAt;
    FreePrefix(s, m.token, |Parse(m, s).before|);
  }

  /**
   * When no value contains an opening bracket, the rescanning pass stops on every buffer and does
   * exactly what one left-to-right pass does.
   */
  lemma FlatPass(m: Macro, s: string)
    requires BracketFree(m)
    ensures forall t :: Ends(m, s, t) <==> t == Scan(m, s)
  {
    hide MacroRound, Parse, Free, OccursAt, IsToken, BracketFree, Scan, Sealed;
    SealedEmpty(m);
    var n := FlatRun(m, [], s);
    assert [] + s == s && [] + Scan(m, s) == Scan(m, s);
    OnlyResult(m, s, Scan(m, s));
  }

  lemma OnlyResult(m: Macro, s: string, t: string)
    requires Ends(m, s, t)
    ensures forall u :: Ends(m, s, u) <==> u == t
  {
    hide Ends, IsToken;
    forall u | Ends(m, s, u)
      ensures u == t
    {
      EndsOnce(m, s, t, u);
    }
  }

  lemma SealedEmpty(m: Macro)
    ensures Sealed([], m.token)
  {
  }

  // ---------------------------------------------------------------- documents

  /** Text with macros, each with the text of its argument. */
  datatype Doc = Last(text: string) | Use(text: string, argument: string, rest: Doc)

  function Render(token: string, d: Doc): string {
    match d
    case Last(t) => t
    case Use(t, a, rest) => t + (token + a + [')'] + Render(token, rest))
  }

  /** Texts without the token, arguments that a bracket ends and that are known. */
  ghost predicate WellFormed(m: Macro, d: Doc)
    decreases d
  {
    match d
    case Last(t) => Free(t, m.token)
    case Use(t, a, rest) =>
      && Free(t, m.token) && a != [] && ')' !in a && NulFree(a) && m.lookup(a).Some?
      && WellFormed(m, rest)
  }

  /** Each macro is its value and a NUL; no other char changes. */
  function Substituted(m: Macro, d: Doc): string
    requires WellFormed(m, d)
    decreases d
  {
    match d
    case Last(t) => t
    case Use(t, a, rest) => t + m.lookup(a).value + [NUL] + Substituted(m, rest)
  }

  /** A token at the front, behind text without one. */
  lemma TokenFound(token: string, x: string, y: string)
    requires IsMarker(token) && Free(x, token)
    ensures Find(x + (token + y), token) == Some(|x|)
  {
    hide Free;
    assert (token + y)[0..|token|] == token;
    FindIs(token + y, token, 0);
    FindAtSeam(x, token + y, token);
  }

  lemma WrittenParts(token: string, x: string, a: string, y: string)
    ensures var s := x + (token + (a + [')'] + y));
            var (o, e) := (|x| + |token|, |x| + |token| + |a|);
            && e < |s| && s[..|x|] == x && s[|x|..o] == token && s[o..e] == a && s[e] == ')' && s[e + 1..] == y
  {
  }

  /** The argument cut: the bracket and the blanks before it are NUL, all else is as written. */
  lemma WrittenCut(token: string, x: string, a: string, y: string)
    ensures var (o, e) := (|x| + |token|, |x| + |token| + |a|);
            var s := x + (token + (a + [')'] + y));
            e < |s| && CutArgument(s, o, e) == x + token + TrimRight(a) + Nuls(|a| - |TrimRight(a)| + 1) + y
  {
    hide TrimRight;
    WrittenParts(token, x, a, y);
    var (o, e) := (|x| + |token|, |x| + |token| + |a|);
    var s := x + (token + (a + [')'] + y));
    assert s[..o + |TrimRight(a)|] == x + token + TrimRight(a) by {
      assert a[..|TrimRight(a)|] == TrimRight(a);
      FrontOf(s, |x|, o, e, |TrimRight(a)|);
    }
  }

  lemma FrontOf(s: string, p: nat, o: nat, e: nat, k: nat)
    requires p <= o <= e <= |s| && k <= e - o
    ensures s[..o + k] == s[..p] + s[p..o] + s[o..e][..k]
  {
  }

  lemma PlainLocated(token: string, x: string, a: string, y: string)
    requires IsMarker(token) && ')' !in token && Free(x, token) && ')' !in a && NulFree(a)
    ensures Locate(token, x + (token + (a + [')'] + y))) == Some((|x|, |x| + |token| + |a|))
  {
    hide Find, Free, StrChr;
    var s := x + (token + (a + [')'] + y));
    var (p, o, e) := (|x|, |x| + |token|, |x| + |token| + |a|);
    TokenFound(token, x, a + [')'] + y);
    WrittenParts(token, x, a, y);
    forall i | p <= i < e
      ensures s[i] != ')' && s[i] != NUL
    {
      if i < o { assert s[i] == s[p..o][i - p]; } else { assert s[i] == s[o..e][i - o]; }
    }
    StrChrIs(s, p, ')', e);
  }

  lemma ClosedAtOnce(token: string, x: string, y: string)
    requires IsMarker(token) && ')' !in token && Free(x, token)
    ensures Locate(token, x + (token + ([')'] + y))) == Some((|x|, |x| + |token|))
  {
    hide Free, Locate;
    PlainLocated(token, x, [], y);
    assert [] + [')'] + y == [')'] + y;
  }

  /** The parser takes a written macro apart. */
  lemma ParseWritten(m: Macro, x: string, a: string, y: string)
    requires Free(x, m.token) && a != [] && ')' !in a && NulFree(a) && m.lookup(a).Some?
    ensures Parse(m, x + (m.token + (a + [')'] + y))) == Known(x, a, m.lookup(a).value, y)
  {
    hide Locate, Find, Free, StrChr, IsToken, NulFree;
    TokenOf(m);
    TokenFound(m.token, x, a + [')'] + y);
    PlainLocated(m.token, x, a, y);
    WrittenParts(m.token, x, a, y);
  }

  lemma TokenOf(m: Macro)
    ensures IsMarker(m.token) && ')' !in m.token
  {
  }

  // ---------------------------------------------------------------- what stops a pass

  /** A token without bracket or without argument: the pass stops, and leaves the text as it is. */
  lemma StopsAsItIs(m: Macro, x: string, y: string)
    requires Free(x, m.token)
    ensures MacroRound(m, x + (m.token + ([')'] + y))) == Halt(x + (m.token + ([')'] + y)))
    ensures StrChr(x + (m.token + y), |x|, ')').None? ==> MacroRound(m, x + (m.token + y)) == Halt(x + (m.token + y))
  {
    hide Find, Free, StrChr, IsToken, CutArgument;
    TokenOf(m);
    TokenFound(m.token, x, y);
    TokenFound(m.token, x, [')'] + y);
    ClosedAtOnce(m.token, x, y);
  }

  /** An unknown argument: the pass stops, and leaves NUL in place of the bracket and the blanks before it. */
  lemma StopsUnknown(m: Macro, x: string, a: string, y: string)
    requires Free(x, m.token) && a != [] && ')' !in a && NulFree(a) && m.lookup(a).None?
    ensures MacroRound(m, x + (m.token + (a + [')'] + y))) ==
            Halt(x + m.token + TrimRight(a) + Nuls(|a| - |TrimRight(a)| + 1) + y)
  {
    hide Find, Free, StrChr, IsToken, CutArgument, Locate, TrimRight, NulFree;
    TokenOf(m);
    TokenFound(m.token, x, a + [')'] + y);
    PlainLocated(m.token, x, a, y);
    WrittenParts(m.token, x, a, y);
    WrittenCut(m.token, x, a, y);
  }

  /** The one pass over a document substitutes its macros, and nothing else. */
  lemma {:induction false} ScanSubstitutes(m: Macro, d: Doc)
    requires WellFormed(m, d)
    ensures Scan(m, Render(m.token, d)) == Substituted(m, d)
    decreases d
  {
    hide Parse, Free, IsToken, NulFree;
    match d
    case Last(t) =>
    case Use(t, a, rest) =>
      ParseWritten(m, t, a, Render(m.token, rest));
      Regroup(m.token, a, Render(m.token, rest));
      ScanSubstitutes(m, rest);
  }

  lemma Regroup(token: string, a: string, y: string)
    ensures token + a + [')'] + y == token + (a + [')'] + y)
  {
  }

  /** So on a document every macro becomes its value and a NUL, when no value has an opening bracket. */
  lemma FlatDocument(m: Macro, d: Doc)
    requires BracketFree(m) && WellFormed(m, d)
    ensures forall t :: Ends(m, Render(m.token, d), t) <==> t == Substituted(m, d)
  {
    hide Ends, BracketFree, WellFormed, IsToken, Scan, Substituted;
    FlatPass(m, Render(m.token, d));
    ScanSubstitutes(m, d);
  }

  // ---------------------------------------------------------------- documents that a macro stops

  /** The macros before the last text are known, whatever the last text is. */
  ghost predicate KnownUses(m: Macro, d: Doc)
    decreases d
  {
    match d
    case Last(_) => true
    case Use(t, a, rest) =>
      Free(t, m.token) && a != [] && ')' !in a && NulFree(a) && m.lookup(a).Some? && KnownUses(m, rest)
  }

  function SubstitutedUses(m: Macro, d: Doc): string
    requires KnownUses(m, d)
    decreases d
  {
    match d
    case Last(_) => []
    case Use(t, a, rest) => t + m.lookup(a).value + [NUL] + SubstitutedUses(m, rest)
  }

  function LastText(d: Doc): string {
    match d
    case Last(t) => t
    case Use(_, _, rest) => LastText(rest)
  }

  lemma {:induction false} ScanUpTo(m: Macro, d: Doc)
    requires KnownUses(m, d)
    ensures Scan(m, Render(m.token, d)) == SubstitutedUses(m, d) + Scan(m, LastText(d))
    decreases d
  {
    hide Parse, Free, IsToken, NulFree;
    match d
    case Last(t) => assert [] + Scan(m, t) == Scan(m, t);
    case Use(t, a, rest) =>
      ParseWritten(m, t, a, Render(m.token, rest));
      Regroup(m.token, a, Render(m.token, rest));
      ScanUpTo(m, rest);
      var (v, y) := (m.lookup(a).value, SubstitutedUses(m, rest));
      assert t + v + [NUL] + (y + Scan(m, LastText(rest))) == t + v + [NUL] + y + Scan(m, LastText(rest));
  }

  /**
   * When no value has an opening bracket: what stands before the macro that stops the pass is substituted,
   * and from there on the buffer is as that macro leaves it.
   */
  lemma FlatUpToStop(m: Macro, d: Doc, left: string)
    requires BracketFree(m) && KnownUses(m, d) && MacroRound(m, LastText(d)) == Halt(left)
    ensures forall t :: Ends(m, Render(m.token, d), t) <==> t == SubstitutedUses(m, d) + left
  {
    hide Ends, BracketFree, IsToken, KnownUses, SubstitutedUses, Parse;
    ScanUpTo(m, d);
    FlatPass(m, Render(m.token, d));
    assert Scan(m, LastText(d)) == left;
  }

  /** A text with one macro, when its value brings in no token. */
  lemma OneMacro(m: Macro, t: string, a: string, u: string)
    requires Free(t, m.token) && a != [] && ')' !in a && NulFree(a) && m.lookup(a).Some?
    requires Free(t + m.lookup(a).value + [NUL] + u, m.token)
    ensures forall x :: Ends(m, t + (m.token + (a + [')'] + u)), x) <==> x == t + m.lookup(a).value + [NUL] + u
  {
    hide Free, IsToken, NulFree, Parse, Ends;
    var (s, y) := (t + (m.token + (a + [')'] + u)), t + m.lookup(a).value + [NUL] + u);
    ParseWritten(m, t, a, u);
    NothingParsed(m, y);
    assert Run(m, s, 1) == Again(y) && Run(m, y, 1) == Halt(y);
    RunAppend(m, s, 1, 1);
    assert Ends(m, s, y) by { EndsIn(m, s, y, 2); }
    OnlyResult(m, s, y);
  }

  lemma EndsIn(m: Macro, s: string, t: string, n: nat)
    requires Run(m, s, n) == Halt(t)
    ensures Ends(m, s, t)
  {
  }

  lemma NothingParsed(m: Macro, s: string)
    requires Free(s, m.token)
    ensures Parse(m, s) == Missing
  {
    hide IsToken;
  }
}
