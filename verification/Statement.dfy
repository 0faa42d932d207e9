/** The conditional pass. */
module Statement {
  import opened CString
  import opened Buffers
  import opened Macro
  import opened Compat
  import opened Parsing

  const IF := "@if("
  const ELSE := "@else"
  const ENDIF := "@endif"

  /** A search in the window [lo, hi) of the buffer. */
  function FindIn(s: string, lo: nat, hi: nat, pat: string): (r: Option<nat>)
    requires lo <= hi <= |s|
    ensures r.Some? ==> lo <= r.value && r.value + |pat| <= hi
  {
    match Find(s[lo..hi], pat)
    case None => None
    case Some(q) => Some(lo + q)
  }

  datatype StatementRound = Stop(text: string) | Astray(text: string) | More(text: string)

  /** One round, for a variable lookup that answers below zero for unknown names. */
  function Round(vars: string -> int, s: string): (r: StatementRound)
    ensures r.More? ==> |r.text| < |s|
  {
    match Locate(IF, s)
    case None => Stop(s)
    case Some((p, e)) =>
      var a := p + |IF|;
      if a >= e then Stop(s)
      else Decide(vars(Trim(s[a..e])), CutArgument(s, a, e), p, e, ArgumentStart(s, a, e))
  }

  /**
   * The round once the argument, which starts at start, was cut and its variable looked up. The endif
   * is searched from the argument on in a window of the buffer's length less the head, the else in one
   * as long as the way from the head to the endif; both are cut off at the end of the buffer.
   */
  function Decide(res: int, t: string, p: nat, e: nat, start: nat): (r: StatementRound)
    requires p < start <= e < |t|
    ensures r.More? ==> |r.text| < |t|
  {
    match FindIn(t, start, Min(|t|, start + |t| - (e - p)), ENDIF)
    case None => Stop(t)
    case Some(end) =>
      var middle := FindIn(t, start, Min(|t|, start + end - p), ELSE);
      if res < 0 then Stop(t)
      else
        var cut := if res != 0 then e else if middle.Some? then middle.value else end;
        Close(t[..p] + t[cut..], middle.Some?)
  }

  /** What is left to do once the head is gone: drop the else part if one was seen, and the endif. */
  function Close(t: string, hasElse: bool): (r: StatementRound)
    ensures r.More? ==> |r.text| <= |t|
  {
    if !hasElse then More(ReplaceFirst(t, ENDIF, ""))
    else
      match Find(t, ELSE)
      case None => Stop(t)
      case Some(middle) =>
        match Find(t, ENDIF)
        case None => Stop(t)
        case Some(end) =>
          if end < middle then Astray(t)
          else More(ReplaceFirst(t[..middle] + t[end..], ENDIF, ""))
  }

  /** The whole loop: each round is strictly shorter, so it stops on every buffer. */
  function Pass(vars: string -> int, s: string): (r: StatementRound)
    ensures !r.More?
    decreases |s|
  {
    match Round(vars, s)
    case Stop(t) => Stop(t)
    case Astray(t) => Astray(t)
    case More(t) => Pass(vars, t)
  }

  // ---------------------------------------------------------------- documents

  /** Text with conditionals that are not nested. */
  datatype Doc =
    | Last(text: string)
    | Cond(text: string, arg: string, body: string, other: Option<string>, rest: Doc)

  function Tail(other: Option<string>): string {
    match other case None => ENDIF case Some(o) => ELSE + o + ENDIF
  }

  function Render(d: Doc): string {
    match d
    case Last(t) => t
    case Cond(t, arg, body, other, rest) => t + IF + arg + ")" + body + Tail(other) + Render(rest)
  }

  /** What a conditional leaves: a NUL and its body when it holds, else nothing. An else part is never kept. */
  function Kept(vars: string -> int, arg: string, body: string): string {
    if vars(Trim(arg)) != 0 then [NUL] + body else []
  }

  /** What the conditionals of a document leave, with the text before each of them. */
  function Resolved(vars: string -> int, d: Doc): string {
    match d
    case Last(_) => []
    case Cond(t, arg, body, _, rest) => t + Kept(vars, arg, body) + Resolved(vars, rest)
  }

  /** The text behind the last conditional. */
  function LastText(d: Doc): string {
    match d
    case Last(t) => t
    case Cond(_, _, _, _, rest) => LastText(rest)
  }

  ghost predicate FreeOfMarkers(s: string) {
    Free(s, IF) && Free(s, ELSE) && Free(s, ENDIF)
  }

  /** The endif of the first conditional lies in the searched window, before text still to come. */
  predicate InWindow(before: nat, arg: string, after: nat) {
    |arg| <= before + Lead(arg) + after
  }

  /** What the search for an else covers of the endif of a conditional without one, and of what follows it. */
  function Overrun(arg: string, rest: string): string {
    (ENDIF + rest)[..Min(|ENDIF + rest|, 4 + Lead(arg))]
  }

  /** No else of a later conditional is within reach of one that has none. */
  ghost predicate ElseApart(arg: string, other: Option<string>, rest: string) {
    other.None? ==> Free(Overrun(arg, rest), ELSE)
  }

  /** Something a bracket ends. */
  ghost predicate IsArgument(arg: string) {
    arg != [] && ')' !in arg && NulFree(arg)
  }

  /** A well-formed conditional with known variable. */
  ghost predicate GoodCond(vars: string -> int, arg: string, body: string, other: Option<string>) {
    && IsArgument(arg) && Free(arg, ELSE) && Free(arg, ENDIF) && vars(Trim(arg)) >= 0
    && FreeOfMarkers(body) && (other.Some? ==> FreeOfMarkers(other.value))
  }

  /** Every conditional is well-formed, in its window and apart from a later else when the pass gets to it. */
  ghost predicate Good(vars: string -> int, pre: string, d: Doc)
    decreases d
  {
    match d
    case Last(_) => true
    case Cond(t, arg, body, other, rest) =>
      && GoodCond(vars, arg, body, other)
      && InWindow(|pre + t|, arg, |Render(rest)|) && ElseApart(arg, other, Render(rest))
      && Good(vars, pre + t + Kept(vars, arg, body), rest)
  }

  // ---------------------------------------------------------------- searches in a rendered conditional

  lemma FindWindow(u: string, n: nat, pat: string)
    requires n <= |u| && pat != [] && Find(u, pat).Some?
    ensures Find(u[..n], pat) == if Find(u, pat).value + |pat| <= n then Find(u, pat) else None
  {
    var q := Find(u, pat).value;
    forall i: nat
      ensures OccursAt(u[..n], pat, i) <==> OccursAt(u, pat, i) && i + |pat| <= n
    {
      if i + |pat| <= n { assert u[..n][i..i + |pat|] == u[i..i + |pat|]; }
    }
    if q + |pat| <= n { FindIs(u[..n], pat, q); }
  }

  /** Nothing that lacks the marker's first char can begin an occurrence. */
  lemma FreeBehind(z: string, y: string, pat: string)
    requires pat != [] && pat[0] !in z && Free(y, pat)
    ensures Free(z + y, pat)
  {
    forall i: nat
      ensures !OccursAt(z + y, pat, i)
    {
      if i < |z| {
        assert i + |pat| <= |z + y| ==> (z + y)[i..i + |pat|][0] == z[i];
      } else if i + |pat| <= |z + y| {
        assert (z + y)[i..i + |pat|] == y[i - |z|..i - |z| + |pat|];
        assert !OccursAt(y, pat, i - |z|);
      }
    }
  }

  lemma FreeJoin(x: string, y: string, pat: string)
    requires IsMarker(pat) && Free(x, pat) && Free(y, pat) && y != [] && y[0] == pat[0]
    ensures Free(x + y, pat)
  {
    hide Free, OccursAt;
    FindAtSeam(x, y, pat);
  }

  lemma ElseIsNoEndif(o: string)
    requires Free(o, ENDIF)
    ensures Free(ELSE + o, ENDIF)
  {
    assert ELSE + o == "@" + ("else" + o);
    FreeBehind("else", o, ENDIF);
    forall i: nat
      ensures !OccursAt(ELSE + o, ENDIF, i)
    {
      if i == 0 {
        assert |ELSE + o| >= 6 ==> (ELSE + o)[0..6][2] == 'l';
      } else if i + 6 <= |ELSE + o| {
        assert (ELSE + o)[i..i + 6] == ("else" + o)[i - 1..i + 5];
        assert !OccursAt("else" + o, ENDIF, i - 1);
      }
    }
  }

  /** An else behind an endif starts no earlier than where the endif ends. */
  lemma ElseBehind(rest: string, n: nat)
    requires n <= |ENDIF + rest| && Find((ENDIF + rest)[..n], ELSE).Some?
    ensures Find((ENDIF + rest)[..n], ELSE).value >= 6
    ensures Find(ENDIF + rest, ELSE) == Find((ENDIF + rest)[..n], ELSE)
  {
    hide Find;
    var (y, v) := (ENDIF + rest, (ENDIF + rest)[..n]);
    var q := Find(v, ELSE).value;
    assert v[q..q + 5] == y[q..q + 5];
    assert y[q] == ELSE[0] && y[q + 2] == ELSE[2] by { assert y[q..q + 5][0] == y[q] && y[q..q + 5][2] == y[q + 2]; }
    assert forall i :: 0 <= i < 6 ==> y[i] == ENDIF[i];
    assert OccursAt(y, ELSE, q);
    FindWindow(y, n, ELSE);
  }

  /** What is searched of an argument: sealed off by the NUL behind it. */
  ghost predicate SealedArgument(z: string) {
    Sealed(z, ELSE) && Sealed(z, ENDIF)
  }

  lemma TrimmedSealed(arg: string, n: nat, pat: string)
    requires Free(arg, pat) && NulFree(pat) && pat != []
    ensures Sealed(Trim(arg) + Nuls(n) + [NUL], pat)
  {
    hide TrimLeft, TrimRight, OccursAt;
    assert Trim(arg) == TrimRight(arg)[Lead(arg)..] by { TrimTail(arg); }
    PartIsFree(arg, Lead(arg), |TrimRight(arg)|, n, pat);
    SealedByNul(Trim(arg) + Nuls(n), pat);
  }

  /** A part of a text free of a marker, with NULs behind it. */
  lemma PartIsFree(s: string, lo: nat, hi: nat, n: nat, pat: string)
    requires lo <= hi <= |s| && Free(s, pat) && NulFree(pat) && pat != []
    ensures Free(s[..hi][lo..] + Nuls(n) + [NUL], pat)
  {
    var (w, u) := (s[..hi][lo..], s[..hi][lo..] + Nuls(n) + [NUL]);
    assert w == s[lo..hi];
    forall i: nat
      ensures !OccursAt(u, pat, i)
    {
      if i + |pat| <= hi - lo {
        SliceOfSlice(s, lo, hi, i, i + |pat|);
        assert u[i..i + |pat|] == w[i..i + |pat|];
        assert !OccursAt(s, pat, lo + i);
      } else if i + |pat| <= |u| {
        assert u[i..i + |pat|][|pat| - 1] == NUL;
      }
    }
  }

  /** Up to its endif, a conditional's text behind the trimmed argument z. */
  function Inner(z: string, body: string, other: Option<string>): string {
    match other case None => z + body case Some(o) => z + body + (ELSE + o)
  }

  lemma InnerFree(z: string, body: string, other: Option<string>)
    requires SealedArgument(z) && FreeOfMarkers(body) && (other.Some? ==> FreeOfMarkers(other.value))
    ensures Free(z + body, ELSE) && Free(Inner(z, body, other), ENDIF)
  {
    hide OccursAt, Free, Sealed;
    FreeParts(z, body, ELSE);
    FreeParts(z, body, ENDIF);
    match other
    case None =>
    case Some(o) =>
      ElseIsNoEndif(o);
      FreeJoin(z + body, ELSE + o, ENDIF);
  }

  lemma FindFirst(w: string, pat: string, rest: string)
    requires IsMarker(pat) && Free(w, pat)
    ensures Find(w + (pat + rest), pat) == Some(|w|)
  {
    var y := pat + rest;
    assert y[0..|pat|] == pat;
    FindIs(y, pat, 0);
    FindAtSeam(w, y, pat);
  }

  /** Where the endif is found, in a window of n chars. */
  lemma FindEndif(z: string, body: string, other: Option<string>, rest: string, n: nat)
    requires SealedArgument(z) && FreeOfMarkers(body) && (other.Some? ==> FreeOfMarkers(other.value))
    requires n <= |z + body + Tail(other) + rest|
    ensures var (u, q) := (z + body + Tail(other) + rest, |Inner(z, body, other)|);
            Find(u[..n], ENDIF) == if q + 6 <= n then Some(q) else None
  {
    hide OccursAt, Free;
    var u := z + body + Tail(other) + rest;
    InnerFree(z, body, other);
    FindFirst(Inner(z, body, other), ENDIF, rest);
    assert u == Inner(z, body, other) + (ENDIF + rest);
    FindWindow(u, n, ENDIF);
  }

  /** Where the else is found: a conditional's own, or else one behind its endif if the window gets that far. */
  lemma FindElse(z: string, body: string, other: Option<string>, rest: string, n: nat)
    requires SealedArgument(z) && FreeOfMarkers(body) && (other.Some? ==> FreeOfMarkers(other.value))
    requires |Inner(z, body, other)| <= n <= |z + body + Tail(other) + rest|
    ensures Find((z + body + Tail(other) + rest)[..n], ELSE) ==
            if other.Some? then Some(|z + body|)
            else match Find((ENDIF + rest)[..n - |z + body|], ELSE) case None => None case Some(q) => Some(|z + body| + q)
  {
    hide OccursAt, Free, FreeOfMarkers, Find;
    InnerFree(z, body, other);
    match other
    case Some(o) => FindElseThere(z + body, o, rest, n);
    case None => FindElseBehind(z + body, rest, n);
  }

  lemma FindElseThere(w: string, o: string, rest: string, n: nat)
    requires Free(w, ELSE) && |w| + 5 <= n <= |w + (ELSE + o + ENDIF) + rest|
    ensures Find((w + (ELSE + o + ENDIF) + rest)[..n], ELSE) == Some(|w|)
  {
    hide OccursAt, Free, Find;
    var u := w + (ELSE + o + ENDIF) + rest;
    FindFirst(w, ELSE, o + ENDIF + rest);
    assert u == w + (ELSE + (o + ENDIF + rest));
    FindWindow(u, n, ELSE);
  }

  lemma FindElseBehind(w: string, rest: string, n: nat)
    requires Free(w, ELSE) && |w| <= n <= |w + ENDIF + rest|
    ensures Find((w + ENDIF + rest)[..n], ELSE) ==
            match Find((ENDIF + rest)[..n - |w|], ELSE) case None => None case Some(q) => Some(|w| + q)
  {
    hide OccursAt, Free, Find;
    var v := (ENDIF + rest)[..n - |w|];
    assert (w + ENDIF + rest)[..n] == w + v;
    if v == [] {
      assert w + v == w;
      NothingFound(w);
      NothingFound(v);
    } else {
      FindAtSeam(w, v, ELSE);
    }
  }

  lemma NothingFound(w: string)
    requires Free(w, ELSE) || w == []
    ensures Find(w, ELSE) == None
  {
  }

  /** Dropping the else part and the endif behind text free of both markers. */
  lemma CloseCond(k: string, other: Option<string>, rest: string)
    requires Free(k, ELSE) && Free(k, ENDIF) && (other.Some? ==> FreeOfMarkers(other.value))
    ensures Close(k + Tail(other) + rest, other.Some?) == More(k + rest)
  {
    hide OccursAt, Free, FreeOfMarkers, Find;
    match other
    case None => DropEndif(k, rest);
    case Some(o) => DropElse(k, o, rest);
  }

  lemma DropEndif(k: string, rest: string)
    requires Free(k, ENDIF)
    ensures ReplaceFirst(k + ENDIF + rest, ENDIF, "") == k + rest
  {
    hide OccursAt, Free, Find;
    FindFirst(k, ENDIF, rest);
    var t := k + ENDIF + rest;
    assert t == k + (ENDIF + rest);
    assert t[..|k|] + "" + t[|k| + 6..] == k + rest;
  }

  lemma DropElse(k: string, o: string, rest: string)
    requires Free(k, ELSE) && Free(k, ENDIF) && FreeOfMarkers(o)
    ensures Close(k + (ELSE + o + ENDIF) + rest, true) == More(k + rest)
  {
    hide OccursAt, Free, Find, ReplaceFirst;
    var t := k + (ELSE + o + ENDIF) + rest;
    FindFirst(k, ELSE, o + ENDIF + rest);
    assert t == k + (ELSE + (o + ENDIF + rest));
    assert Find(t, ENDIF) == Some(|k| + 5 + |o|) by {
      ElseIsNoEndif(o);
      FreeJoin(k, ELSE + o, ENDIF);
      FindFirst(k + (ELSE + o), ENDIF, rest);
      assert t == k + (ELSE + o) + (ENDIF + rest);
    }
    assert t[..|k|] + t[|k| + 5 + |o|..] == k + ENDIF + rest;
    DropEndif(k, rest);
  }

  /** With an else behind the endif and none before, a round that keeps the body goes astray. */
  lemma CloseAstray(k: string, rest: string)
    requires Free(k, ELSE) && Free(k, ENDIF) && Find(ENDIF + rest, ELSE).Some? && Find(ENDIF + rest, ELSE).value > 0
    ensures Close(k + ENDIF + rest, true) == Astray(k + ENDIF + rest)
  {
    hide OccursAt, Free, Find, ReplaceFirst;
    FindFirst(k, ENDIF, rest);
    FindAtSeam(k, ENDIF + rest, ELSE);
    assert k + ENDIF + rest == k + (ENDIF + rest);
  }

  lemma CloseShrinks(t: string)
    ensures Close(t, true).More? ==> |Close(t, true).text| < |t|
  {
    hide Find;
    if Close(t, true).More? {
      var (middle, end) := (Find(t, ELSE).value, Find(t, ENDIF).value);
      Spliced(t, middle, end);
    }
  }

  lemma Spliced(t: string, middle: nat, end: nat)
    requires middle <= end <= |t| && OccursAt(t, ENDIF, end)
    ensures Find(t[..middle] + t[end..], ENDIF).Some?
  {
    hide OccursAt;
    OccursShift(t[..end], t[end..], ENDIF, 0);
    assert t == t[..end] + t[end..];
    OccursShift(t[..middle], t[end..], ENDIF, 0);
    assert OccursAt(t[..middle] + t[end..], ENDIF, middle + 0);
  }

  // ---------------------------------------------------------------- one conditional

  function Head(x: string, arg: string): (h: string)
    ensures |h| == |x| + 5 + |arg|
  {
    x + IF + arg + ")"
  }

  lemma LocateIf(x: string, arg: string, rest: string)
    requires Free(x, IF) && ')' !in arg && NulFree(arg)
    ensures Locate(IF, Head(x, arg) + rest) == Some((|x|, |x| + 4 + |arg|))
  {
    hide OccursAt, Free;
    var s := Head(x, arg) + rest;
    FindFirst(x, IF, arg + ")" + rest);
    assert s == x + (IF + (arg + ")" + rest));
    var e := |x| + 4 + |arg|;
    forall i | |x| <= i < e
      ensures s[i] != ')' && s[i] != NUL
    {
      if i < |x| + 4 { assert s[i] == IF[i - |x|]; } else { assert s[i] == arg[i - |x| - 4]; }
    }
    StrChrIs(s, |x|, ')', e);
  }

  /** The head after the argument was cut: its parts, and no marker in what is searched of it. */
  lemma CutHead(x: string, arg: string, rest: string)
    requires arg != [] && NulFree(arg) && Free(arg, ELSE) && Free(arg, ENDIF)
    ensures var (s, a, e) := (Head(x, arg) + rest, |x| + 4, |x| + 4 + |arg|);
            var t := CutArgument(s, a, e);
            && s[a..e] == arg && ArgumentStart(s, a, e) == a + Lead(arg)
            && t[..|x|] == x && t[e..] == [NUL] + rest
            && SealedArgument(t[a + Lead(arg)..e + 1]) && t[a + Lead(arg)..] == t[a + Lead(arg)..e + 1] + rest
  {
    hide TrimLeft, TrimRight, Sealed, Free;
    var (s, a, e) := (Head(x, arg) + rest, |x| + 4, |x| + 4 + |arg|);
    assert s[a..e] == arg && s[..|x|] == x && s[e + 1..] == rest;
    var t := CutArgument(s, a, e);
    CutParts(s, |x|, a, e, a + Lead(arg));
    CutText(s, a, e, arg);
    TrimmedSealed(arg, |arg| - |TrimRight(arg)|, ELSE);
    TrimmedSealed(arg, |arg| - |TrimRight(arg)|, ENDIF);
  }

  /** What the two searches of a round find, behind an argument that starts lead chars after a. */
  lemma Searches(t: string, p: nat, lead: nat, e: nat, body: string, other: Option<string>, rest: string)
    requires p + 4 + lead <= e < |t| && t[e + 1..] == body + Tail(other) + rest && SealedArgument(t[p + 4 + lead..e + 1])
    requires FreeOfMarkers(body) && (other.Some? ==> FreeOfMarkers(other.value))
    ensures var (start, end) := (p + 4 + lead, |t| - 6 - |rest|);
            && start <= end && end == e + 1 + |body| + (if other.Some? then 5 + |other.value| else 0)
            && FindIn(t, start, Min(|t|, start + |t| - (e - p)), ENDIF) ==
               (if end + 6 <= start + |t| - (e - p) then Some(end) else None)
            && FindIn(t, start, Min(|t|, start + end - p), ELSE) ==
               (if other.Some? then Some(e + 1 + |body|)
                else match Find((ENDIF + rest)[..Min(|ENDIF + rest|, 4 + lead)], ELSE)
                  case None => None
                  case Some(q) => Some(end + q))
  {
    hide OccursAt, Free, FreeOfMarkers, Find, SealedArgument, FindIn, Inner, Tail;
    var start := p + 4 + lead;
    var z := t[start..e + 1];
    SplitTail(t, start, e + 1, body, Tail(other), rest);
    InnerLength(z, body, other, rest);
    SearchEndif(t, start, Min(|t|, start + |t| - (e - p)), z, body, other, rest);
    SearchElse(t, start, Min(|t|, start + (|t| - 6 - |rest|) - p), z, body, other, rest);
  }

  lemma InnerLength(z: string, body: string, other: Option<string>, rest: string)
    ensures |Inner(z, body, other)| == |z| + |body| + (if other.Some? then 5 + |other.value| else 0)
    ensures |z + body + Tail(other) + rest| == |Inner(z, body, other)| + 6 + |rest|
  {
  }

  lemma SearchEndif(t: string, start: nat, hi: nat, z: string, body: string, other: Option<string>, rest: string)
    requires SealedArgument(z) && FreeOfMarkers(body) && (other.Some? ==> FreeOfMarkers(other.value))
    requires start <= hi <= |t| && t[start..] == z + body + Tail(other) + rest
    ensures FindIn(t, start, hi, ENDIF) ==
            if |t| - |rest| <= hi then Some(|t| - 6 - |rest|) else None
  {
    hide OccursAt, Free, FreeOfMarkers, Find, SealedArgument, Tail, Inner;
    InnerLength(z, body, other, rest);
    Window(t, start, hi - start);
    FindEndif(z, body, other, rest, hi - start);
  }

  lemma SearchElse(t: string, start: nat, hi: nat, z: string, body: string, other: Option<string>, rest: string)
    requires SealedArgument(z) && FreeOfMarkers(body) && (other.Some? ==> FreeOfMarkers(other.value))
    requires start <= hi <= |t| && t[start..] == z + body + Tail(other) + rest && |t| - 6 - |rest| <= hi
    ensures FindIn(t, start, hi, ELSE) ==
            if other.Some? then Some(start + |z + body|)
            else match Find((ENDIF + rest)[..hi - (|t| - 6 - |rest|)], ELSE)
              case None => None
              case Some(q) => Some(|t| - 6 - |rest| + q)
  {
    hide OccursAt, Free, FreeOfMarkers, Find, SealedArgument, Tail, Inner;
    InnerLength(z, body, other, rest);
    Window(t, start, hi - start);
    FindElse(z, body, other, rest, hi - start);
  }

  lemma Window(t: string, lo: nat, n: nat)
    requires lo + n <= |t|
    ensures t[lo..lo + n] == t[lo..][..n]
  {
  }

  lemma SplitTail(t: string, lo: nat, mid: nat, body: string, tail: string, rest: string)
    requires lo <= mid <= |t| && t[mid..] == body + tail + rest
    ensures t[lo..] == t[lo..mid] + body + tail + rest
  {
    assert t[lo..] == t[lo..mid] + t[mid..];
  }

  /** What stands once the head is gone. */
  lemma KeptTail(t: string, p: nat, e: nat, body: string, tail: string, rest: string)
    requires p <= e < |t| && t[e..] == [NUL] + (body + tail + rest)
    ensures e + 1 + |body| <= |t|
    ensures t[..p] + t[e..] == t[..p] + ([NUL] + body) + tail + rest
    ensures t[..p] + t[e + 1 + |body|..] == t[..p] + [] + tail + rest
  {
    assert t[e + 1 + |body|..] == t[e..][1 + |body|..] == tail + rest;
  }

  /**
   * One conditional behind clean text: the round leaves what is kept of it, exactly when its endif is in
   * the window and no later else is taken for its own. Without the former the pass stops there with only
   * the bracket and blanks overwritten; without the latter a round that keeps the body goes astray.
   */
  lemma CondRound(vars: string -> int, x: string, arg: string, body: string, other: Option<string>, rest: string)
    requires GoodCond(vars, arg, body, other) && Free(x, IF)
    requires var k := x + Kept(vars, arg, body); Free(k, ELSE) && Free(k, ENDIF)
    ensures var s := Head(x, arg) + (body + Tail(other) + rest);
            var k := x + Kept(vars, arg, body);
            && (Round(vars, s) == More(k + rest) <==> InWindow(|x|, arg, |rest|) && ElseApart(arg, other, rest))
            && (!InWindow(|x|, arg, |rest|) ==> Round(vars, s) == Stop(CutArgument(s, |x| + 4, |x| + 4 + |arg|)))
            && (InWindow(|x|, arg, |rest|) && !ElseApart(arg, other, rest) && vars(Trim(arg)) != 0 ==>
                  Round(vars, s) == Astray(k + ENDIF + rest))
  {
    hide OccursAt, Free, CutArgument, TrimLeft, TrimRight, Trim, Close, ArgumentStart, Locate, NulFree, FindIn, Lead, Tail,
         FreeOfMarkers, Head, Inner, Find, IsMarker, SealedArgument, InWindow, ElseApart, Decide;
    var behind := body + Tail(other) + rest;
    var s := Head(x, arg) + behind;
    var (p, a, e) := (|x|, |x| + 4, |x| + 4 + |arg|);
    var t := CutArgument(s, a, e);
    LocateIf(x, arg, behind);
    CutHead(x, arg, behind);
    LeadBound(arg);
    DropFirst(t, e, NUL, behind);
    CondDecided(vars, x, arg, body, other, rest, t);
  }

  /** The round from the cut head on. */
  lemma CondDecided(vars: string -> int, x: string, arg: string, body: string, other: Option<string>, rest: string, t: string)
    requires GoodCond(vars, arg, body, other)
    requires var k := x + Kept(vars, arg, body); Free(k, ELSE) && Free(k, ENDIF)
    requires var (p, e) := (|x|, |x| + 4 + |arg|);
             && e < |t| && t[..p] == x && t[e..] == [NUL] + (body + Tail(other) + rest)
             && Lead(arg) <= |arg| && SealedArgument(t[p + 4 + Lead(arg)..e + 1])
    ensures var (p, e, k) := (|x|, |x| + 4 + |arg|, x + Kept(vars, arg, body));
            var r := Decide(vars(Trim(arg)), t, p, e, p + 4 + Lead(arg));
            && (r == More(k + rest) <==> InWindow(|x|, arg, |rest|) && ElseApart(arg, other, rest))
            && (!InWindow(|x|, arg, |rest|) ==> r == Stop(t))
            && (InWindow(|x|, arg, |rest|) && !ElseApart(arg, other, rest) && vars(Trim(arg)) != 0 ==>
                  r == Astray(k + ENDIF + rest))
  {
    hide OccursAt, Free, TrimLeft, TrimRight, Trim, Close, FindIn, Lead, Tail, FreeOfMarkers, Find, IsMarker, SealedArgument,
         ElseApart, IsArgument;
    var (p, e, k) := (|x|, |x| + 4 + |arg|, x + Kept(vars, arg, body));
    DropFirst(t, e, NUL, body + Tail(other) + rest);
    Searches(t, p, Lead(arg), e, body, other, rest);
    KeptTail(t, p, e, body, Tail(other), rest);
    ApartOrNot(arg, other, rest);
    if ElseApart(arg, other, rest) {
      CloseCond(k, other, rest);
    } else {
      TailOf(other);
      if vars(Trim(arg)) != 0 {
        LaterElseKept(k, arg, rest);
      } else {
        LaterElse(t, x, arg, body, rest, e);
      }
    }
  }

  lemma LaterElseKept(k: string, arg: string, rest: string)
    requires Free(k, ELSE) && Free(k, ENDIF) && Find(Overrun(arg, rest), ELSE).Some?
    ensures Close(k + ENDIF + rest, true) == Astray(k + ENDIF + rest)
  {
    hide Find, Free, Close, Lead;
    ElseBehind(rest, |Overrun(arg, rest)|);
    CloseAstray(k, rest);
  }

  lemma TailOf(other: Option<string>)
    requires other.None?
    ensures Tail(other) == ENDIF
  {
  }

  lemma ApartOrNot(arg: string, other: Option<string>, rest: string)
    ensures ElseApart(arg, other, rest) <==> other.Some? || Find(Overrun(arg, rest), ELSE).None?
  {
    hide Free, Lead;
  }

  /** A body is dropped up to the later else: less is left than without it. */
  lemma LaterElse(t: string, x: string, arg: string, body: string, rest: string, e: nat)
    requires e < |t| && |x| <= e && |t| - e == 1 + |body| + 6 + |rest| && Find(Overrun(arg, rest), ELSE).Some?
    ensures var cut := |t| - 6 - |rest| + Find(Overrun(arg, rest), ELSE).value;
            && cut <= |t| && forall r :: r == Close(t[..|x|] + t[cut..], true) ==> r.More? ==> |r.text| < |x| + |rest|
  {
    hide Find, Free, Close, Lead;
    ElseBehind(rest, |Overrun(arg, rest)|);
    var cut := |t| - 6 - |rest| + Find(Overrun(arg, rest), ELSE).value;
    CloseShrinks(t[..|x|] + t[cut..]);
  }

  lemma DropFirst(t: string, e: nat, c: char, rest: string)
    requires e <= |t| && t[e..] == [c] + rest
    ensures e < |t| && t[e + 1..] == rest
  {
    assert t[e + 1..] == t[e..][1..];
  }

  lemma LeadBound(arg: string)
    ensures Lead(arg) <= |arg|
  {
  }

  // ---------------------------------------------------------------- whole documents

  /** The pass works through the conditionals of a document, and goes on with the text behind them. */
  lemma {:induction false} DocPass(vars: string -> int, pre: string, d: Doc)
    requires FreeOfMarkers(pre + Resolved(vars, d)) && Good(vars, pre, d)
    ensures Pass(vars, pre + Render(d)) == Pass(vars, pre + Resolved(vars, d) + LastText(d))
    decreases d
  {
    hide OccursAt, Free, Round, GoodCond, InWindow, ElseApart, Kept, Tail, Head, FreeOfMarkers;
    match d
    case Last(t) => assert pre + [] + t == pre + t;
    case Cond(t, arg, body, other, rest) =>
      var (x, k) := (pre + t, pre + t + Kept(vars, arg, body));
      JoinRender(pre, t, arg, body, Tail(other), Render(rest));
      JoinResult(pre, t, Kept(vars, arg, body), Resolved(vars, rest));
      PrefixFree(k, Resolved(vars, rest));
      PrefixFree(x, Kept(vars, arg, body));
      NoMarker(x);
      NoMarker(k);
      CondRound(vars, x, arg, body, other, Render(rest));
      DocPass(vars, k, rest);
  }

  lemma NoMarker(s: string)
    requires FreeOfMarkers(s)
    ensures Free(s, IF) && Free(s, ELSE) && Free(s, ENDIF)
  {
  }

  lemma JoinRender(pre: string, t: string, arg: string, body: string, tail: string, rest: string)
    ensures pre + (t + IF + arg + ")" + body + tail + rest) == Head(pre + t, arg) + (body + tail + rest)
  {
  }

  lemma JoinResult(pre: string, t: string, kept: string, rest: string)
    ensures pre + (t + kept + rest) == pre + t + kept + rest
  {
  }

  lemma PrefixFree(x: string, y: string)
    requires FreeOfMarkers(x + y)
    ensures FreeOfMarkers(x)
  {
    FreePart(x, y, IF);
    FreePart(x, y, ELSE);
    FreePart(x, y, ENDIF);
  }

  lemma NoIf(vars: string -> int, s: string)
    requires Free(s, IF)
    ensures Round(vars, s) == Stop(s)
  {
  }

  /**
   * The pass over a document of good conditionals whose result holds no marker: the body of every
   * one that holds stays, behind one NUL; every other body and every else part goes.
   */
  lemma PassKeepsBodies(vars: string -> int, d: Doc)
    requires FreeOfMarkers(Resolved(vars, d)) && Free(Resolved(vars, d) + LastText(d), IF) && Good(vars, [], d)
    ensures Pass(vars, Render(d)) == Stop(Resolved(vars, d) + LastText(d))
  {
    hide Round, Good, Free;
    assert [] + Render(d) == Render(d) && [] + Resolved(vars, d) == Resolved(vars, d);
    DocPass(vars, [], d);
    NoIf(vars, Resolved(vars, d) + LastText(d));
  }

  // ---------------------------------------------------------------- conditionals that stop the pass

  /** A conditional as it is left when the pass stops there: its bracket and the blanks before it are NUL. */
  function LeftOpen(x: string, arg: string, behind: string): string {
    x + IF + TrimRight(arg) + Nuls(|arg| - |TrimRight(arg)| + 1) + behind
  }

  lemma OpenRound(vars: string -> int, x: string, arg: string, behind: string)
    requires Free(x, IF) && IsArgument(arg)
    ensures var s := x + (IF + (arg + [')'] + behind));
            var (a, e) := (|x| + 4, |x| + 4 + |arg|);
            && e < |s| && s[a..e] == arg && CutArgument(s, a, e) == LeftOpen(x, arg, behind)
            && Round(vars, s) == Decide(vars(Trim(arg)), LeftOpen(x, arg, behind), |x|, e, ArgumentStart(s, a, e))
  {
    hide Free, Trim, TrimRight, CutArgument, Locate, NulFree, Decide, ArgumentStart;
    IfIsMarker();
    PlainLocated(IF, x, arg, behind);
    WrittenParts(IF, x, arg, behind);
    WrittenCut(IF, x, arg, behind);
  }

  lemma IfIsMarker()
    ensures IsMarker(IF) && ')' !in IF && |IF| == 4
  {
  }

  /** An unknown condition: the pass stops there, with or without an endif, an else or anything else behind it. */
  lemma UnknownStops(vars: string -> int, x: string, arg: string, behind: string)
    requires Free(x, IF) && IsArgument(arg) && vars(Trim(arg)) < 0
    ensures Round(vars, x + (IF + (arg + [')'] + behind))) == Stop(LeftOpen(x, arg, behind))
  {
    hide Free, Trim, FindIn, IsArgument, LeftOpen, ArgumentStart, Round, CutArgument;
    OpenRound(vars, x, arg, behind);
  }

  /** No endif behind it, nor in its argument: the same. */
  lemma EndlessStops(vars: string -> int, x: string, arg: string, behind: string)
    requires Free(x, IF) && IsArgument(arg) && Free(LeftOpen(x, arg, behind), ENDIF)
    ensures Round(vars, x + (IF + (arg + [')'] + behind))) == Stop(LeftOpen(x, arg, behind))
  {
    hide Free, Trim, IsArgument, LeftOpen, ArgumentStart, Round, CutArgument, Find;
    OpenRound(vars, x, arg, behind);
    var t := LeftOpen(x, arg, behind);
    forall lo: nat, hi: nat | lo <= hi <= |t|
      ensures FindIn(t, lo, hi, ENDIF) == None
    {
      PartFree(t, lo, hi, ENDIF);
      NothingFoundOf(t[lo..hi], ENDIF);
    }
  }

  lemma PartFree(t: string, lo: nat, hi: nat, pat: string)
    requires lo <= hi <= |t| && Free(t, pat)
    ensures Free(t[lo..hi], pat)
  {
    forall i: nat
      ensures !OccursAt(t[lo..hi], pat, i)
    {
      if i + |pat| <= hi - lo {
        SliceOfSlice(t, lo, hi, i, i + |pat|);
        assert !OccursAt(t, pat, lo + i);
      }
    }
  }

  lemma NothingFoundOf(t: string, pat: string)
    requires Free(t, pat)
    ensures Find(t, pat) == None
  {
    hide Free;
  }

  /** No bracket or no argument: the pass stops, and leaves the text as it is. */
  lemma BareIfStops(vars: string -> int, x: string, y: string)
    requires Free(x, IF)
    ensures Round(vars, x + (IF + ([')'] + y))) == Stop(x + (IF + ([')'] + y)))
    ensures StrChr(x + (IF + y), |x|, ')').None? ==> Round(vars, x + (IF + y)) == Stop(x + (IF + y))
  {
    hide Find, Free, StrChr, CutArgument, Decide, Trim, ArgumentStart;
    IfIsMarker();
    TokenFound(IF, x, y);
    ClosedAtOnce(IF, x, y);
  }

  /**
   * A document up to an unknown condition: the conditionals before it are resolved, and from there on all
   * stays, only the bracket and the blanks before it overwritten.
   */
  lemma PassStopsAtUnknown(vars: string -> int, d: Doc, arg: string, behind: string, t: string)
    requires FreeOfMarkers(Resolved(vars, d)) && Free(Resolved(vars, d) + t, IF) && Good(vars, [], d)
    requires IsArgument(arg) && vars(Trim(arg)) < 0 && LastText(d) == t + (IF + (arg + [')'] + behind))
    ensures Pass(vars, Render(d)) == Stop(LeftOpen(Resolved(vars, d) + t, arg, behind))
  {
    hide Round, Good, Free, Trim, IsArgument, LeftOpen, Resolved, Render, LastText, FreeOfMarkers, Pass;
    var k := Resolved(vars, d);
    NothingBefore(Render(d), k);
    DocPass(vars, [], d);
    UnknownStops(vars, k + t, arg, behind);
    BehindText(k, t, IF + (arg + [')'] + behind));
    PassStops(vars, k + LastText(d));
  }

  lemma NothingBefore(x: string, y: string)
    ensures [] + x == x && [] + y == y
  {
  }

  lemma BehindText(k: string, t: string, y: string)
    ensures k + (t + y) == k + t + y
  {
  }

  lemma PassStops(vars: string -> int, s: string)
    ensures Round(vars, s).Stop? ==> Pass(vars, s) == Round(vars, s)
  {
    hide Round;
  }

  /**
   * A false conditional without an else of its own, when a later one is within reach: everything goes up to the
   * endif behind that else.
   */
  lemma LaterElseTaken(vars: string -> int, x: string, arg: string, body: string, r0: string, r1: string, r2: string)
    requires GoodCond(vars, arg, body, None) && vars(Trim(arg)) == 0
    requires Free(x, IF) && Free(x, ELSE) && Free(x, ENDIF) && Free(r0, ELSE) && Free(r1, ENDIF)
    requires var rest := r0 + (ELSE + (r1 + (ENDIF + r2)));
             InWindow(|x|, arg, |rest|) && |r0| + 11 <= 4 + Lead(arg)
    ensures var rest := r0 + (ELSE + (r1 + (ENDIF + r2)));
            Round(vars, Head(x, arg) + (body + ENDIF + rest)) == More(x + r2)
  {
    hide OccursAt, Free, CutArgument, TrimLeft, TrimRight, Trim, Close, ArgumentStart, Locate, NulFree, FindIn, Lead,
         FreeOfMarkers, Head, Find, IsMarker, SealedArgument, Decide;
    var rest := r0 + (ELSE + (r1 + (ENDIF + r2)));
    var behind := body + ENDIF + rest;
    var (s, e) := (Head(x, arg) + behind, |x| + 4 + |arg|);
    var t := CutArgument(s, |x| + 4, e);
    LocateIf(x, arg, behind);
    CutHead(x, arg, behind);
    LeadBound(arg);
    DropFirst(t, e, NUL, behind);
    ElseWithin(r0, r1 + (ENDIF + r2), 4 + Lead(arg));
    TakenFrom(t, x, arg, body, r0, r1, r2);
    CloseLater(x, r1, r2);
  }

  /** Where the else of a later conditional is found. */
  lemma ElseWithin(r0: string, r: string, n: nat)
    requires Free(r0, ELSE) && |r0| + 11 <= n
    ensures var u := ENDIF + (r0 + (ELSE + r)); Find(u[..Min(|u|, n)], ELSE) == Some(6 + |r0|)
  {
    hide Free, Find, OccursAt;
    var u := ENDIF + (r0 + (ELSE + r));
    EndifPassed(r0);
    FindFirst(ENDIF + r0, ELSE, r);
    assert u == ENDIF + r0 + (ELSE + r);
    FindWindow(u, Min(|u|, n), ELSE);
  }

  lemma EndifPassed(r0: string)
    requires Free(r0, ELSE)
    ensures Free(ENDIF + r0, ELSE)
  {
    var y := ENDIF + r0;
    assert "endif"[0] == 'e' && '@' !in "endif";
    FreeBehind("endif", r0, ELSE);
    assert y == "@" + ("endif" + r0);
    forall i: nat
      ensures !OccursAt(y, ELSE, i)
    {
      if i == 0 {
        assert |y| >= 5 ==> y[0..5][2] == 'n';
      } else if i + 5 <= |y| {
        assert y[i..i + 5] == ("endif" + r0)[i - 1..i + 4];
        assert !OccursAt("endif" + r0, ELSE, i - 1);
      }
    }
  }

  lemma TakenFrom(t: string, x: string, arg: string, body: string, r0: string, r1: string, r2: string)
    requires var (p, e) := (|x|, |x| + 4 + |arg|);
             && e < |t| && t[..p] == x && t[e..] == [NUL] + (body + ENDIF + (r0 + (ELSE + (r1 + (ENDIF + r2)))))
             && Lead(arg) <= |arg| && SealedArgument(t[p + 4 + Lead(arg)..e + 1])
    requires FreeOfMarkers(body) && InWindow(|x|, arg, |r0 + (ELSE + (r1 + (ENDIF + r2)))|)
    requires var u := ENDIF + (r0 + (ELSE + (r1 + (ENDIF + r2))));
             Find(u[..Min(|u|, 4 + Lead(arg))], ELSE) == Some(6 + |r0|)
    ensures Decide(0, t, |x|, |x| + 4 + |arg|, |x| + 4 + Lead(arg)) == Close(x + (ELSE + (r1 + (ENDIF + r2))), true)
  {
    hide OccursAt, Free, Trim, TrimRight, Close, FindIn, Lead, FreeOfMarkers, Find, SealedArgument;
    var (p, e) := (|x|, |x| + 4 + |arg|);
    var rest := r0 + (ELSE + (r1 + (ENDIF + r2)));
    DropFirst(t, e, NUL, body + ENDIF + rest);
    Searches(t, p, Lead(arg), e, body, None, rest);
    SuffixOf(t, e, body, r0, ELSE + (r1 + (ENDIF + r2)));
  }

  lemma SuffixOf(t: string, e: nat, body: string, r0: string, y: string)
    requires e < |t| && t[e..] == [NUL] + (body + ENDIF + (r0 + y))
    ensures var k := |t| - |y|; e <= k && t[k..] == y && k == |t| - 6 - |r0 + y| + (6 + |r0|)
  {
    assert t[|t| - |y|..] == t[e..][|t| - |y| - e..];
  }

  lemma CloseLater(x: string, r1: string, r2: string)
    requires Free(x, ELSE) && Free(x, ENDIF) && Free(r1, ENDIF)
    ensures Close(x + (ELSE + (r1 + (ENDIF + r2))), true) == More(x + r2)
  {
    hide OccursAt, Free, Find, ReplaceFirst;
    var t := x + (ELSE + (r1 + (ENDIF + r2)));
    FindFirst(x, ELSE, r1 + (ENDIF + r2));
    ElseIsNoEndif(r1);
    FreeJoin(x, ELSE + r1, ENDIF);
    FindFirst(x + (ELSE + r1), ENDIF, r2);
    assert t == x + (ELSE + r1) + (ENDIF + r2);
    assert t[..|x|] + t[|x| + 5 + |r1|..] == x + ENDIF + r2;
    DropEndif(x, r2);
  }

  /** Seven blanks before the name are enough for the else of another conditional to be taken. */
  lemma BlanksReachElse()
    ensures var (arg, rest) := ("       x", "@else");
            && GoodCond(_ => 1, arg, "b", None) && InWindow(0, arg, |rest|) && !ElseApart(arg, None, rest)
            && Round(_ => 1, Head([], arg) + ("b" + Tail(None) + rest)).Astray?
  {
    hide Trim, TrimRight, Lead, Overrun, Round, Free, Head, Tail, NulFree;
    var (arg, rest) := ("       x", "@else");
    PaddedName();
    ElseInReach();
    ShortTexts();
    CondRound(_ => 1, [], arg, "b", None, rest);
  }

  lemma PaddedName()
    ensures var arg := "       x"; Trim(arg) == "x" && Lead(arg) == 7 && ')' !in arg && NulFree(arg)
  {
    hide TrimRight, TrimLeft;
    var arg := "       x";
    TrimRightIs(arg, arg);
    TrimLeftIs(arg, "x");
  }

  lemma ElseInReach()
    ensures !Free(Overrun("       x", "@else"), ELSE)
  {
    hide Lead;
    PaddedName();
    var y := ENDIF + "@else";
    assert y[6..11] == ELSE && y[..11] == y;
    assert OccursAt(y, ELSE, 6);
  }

  lemma ShortTexts()
    ensures forall pat: string :: |pat| > 1 && pat[0] == '@' ==>
      Free([], pat) && Free("b", pat) && Free([] + ([NUL] + "b"), pat) && Free("       x", pat)
  {
    forall pat: string, s: string, i: nat | |pat| > 1 && pat[0] == '@' && '@' !in s
      ensures !OccursAt(s, pat, i)
    {
      assert i + |pat| <= |s| ==> s[i..i + |pat|][0] == s[i];
    }
  }

  // ---------------------------------------------------------------- the C loop

  /** The conditional whose head was parsed: one round from its trimmed argument on. */
  method CloseStatement(buffer: KoreBuf, middle: bool) returns (r: StatementRound)
    requires buffer.Valid()
    modifies buffer
    ensures buffer.Valid() && (buffer.data == old(buffer.data) || fresh(buffer.data))
    ensures r == Close(old(buffer.Contents()), middle) && r.text == buffer.Contents()
  {
    hide Find;
    if middle {
      var s := buffer.data[..buffer.offset];
      var other := Find(s, ELSE);
      if other.None? {
        return Stop(s);
      }
      var end := Find(s, ENDIF);
      if end.None? {
        return Stop(s);
      }
      if end.value < other.value {
        return Astray(s);
      }
      buffer.ReplaceString(other.value, end.value - other.value, []);
      assert buffer.Contents() == s[..other.value] + s[end.value..];
    }
    buffer.ReplaceFirstString(ENDIF, "");
    r := More(buffer.data[..buffer.offset]);
  }

  /** The loop body of process_statement behind the lookup. */
  method DecideStep(buffer: KoreBuf, res: int, p: nat, e: nat, start: nat) returns (r: StatementRound)
    requires buffer.Valid() && p < start <= e < buffer.offset
    modifies buffer
    ensures buffer.Valid() && (buffer.data == old(buffer.data) || fresh(buffer.data))
    ensures r == Decide(res, old(buffer.Contents()), p, e, start) && r.text == buffer.Contents()
  {
    hide Find, Close, FindIn;
    var t := buffer.data[..buffer.offset];
    var end := FindIn(t, start, Min(|t|, start + |t| - (e - p)), ENDIF);
    if end.None? {
      return Stop(t);
    }
    var middle := FindIn(t, start, Min(|t|, start + end.value - p), ELSE);
    if res < 0 {
      return Stop(t);
    }
    var replaceLen := end.value - p;
    if middle.None? {
      if res != 0 { replaceLen := e - p; }
    } else {
      if res != 0 { replaceLen := e - p; } else { replaceLen := middle.value - p; }
    }
    buffer.ReplaceString(p, replaceLen, []);
    assert buffer.Contents() == t[..p] + t[p + replaceLen..];
    r := CloseStatement(buffer, middle.Some?);
  }

  /** The loop body of process_statement. */
  method StatementStep(buffer: KoreBuf, vars: string -> int) returns (r: StatementRound)
    requires buffer.Valid()
    modifies buffer, buffer.data
    ensures buffer.Valid() && (buffer.data == old(buffer.data) || fresh(buffer.data))
    ensures r == Round(vars, old(buffer.Contents())) && r.text == buffer.Contents()
  {
    hide Find, Locate, CutArgument, Trim, TrimRight, Decide;
    var found := OpenMacro(buffer, IF);
    if found.None? {
      return Stop(buffer.data[..buffer.offset]);
    }
    var (p, e, argument, start) := found.value;
    r := DecideStep(buffer, vars(argument), p, e, start);
  }

  /** process_statement. */
  method ProcessStatement(buffer: KoreBuf, vars: string -> int) returns (r: StatementRound)
    requires buffer.Valid()
    modifies buffer, buffer.data
    ensures buffer.Valid() && (buffer.data == old(buffer.data) || fresh(buffer.data))
    ensures r == Pass(vars, old(buffer.Contents())) && r.text == buffer.Contents()
  {
    hide Round;
    while true
      invariant buffer.Valid() && (buffer.data == old(buffer.data) || fresh(buffer.data))
      invariant Pass(vars, old(buffer.Contents())) == Pass(vars, buffer.Contents())
      decreases buffer.offset
    {
      r := StatementStep(buffer, vars);
      if !r.More? {
        return;
      }
    }
  }
}
