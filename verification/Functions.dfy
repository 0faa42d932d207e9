/** The function pass: what the calls return in place of the macros, and a split that can look too far. */
module Functions {
  import opened CString
  import opened Compat
  import opened Buffers
  import opened Macro
  import opened Nested
  import opened Parsing
  import opened Arguments

  // ---------------------------------------------------------------- one round

  /** Nothing to do any more; argv overrun; or one macro replaced. */
  datatype CallRound = Done(text: string) | Overflow(text: string) | More(text: string)

  /**
   * One round of process_function, for a function that gives the text a view function returns for its
   * arguments, its own name the first of them.
   */
  function FunctionRound(call: seq<string> -> string, s: string): CallRound {
    match Locate(TOK_FUNCTION, s)
    case None => Done(s)
    case Some((p, e)) =>
      var a := p + |TOK_FUNCTION|;
      if a >= e then Done(s)
      else Called(call, CutArgument(s, a, e), p, e, ArgumentStart(s, a, e), e - a)
  }

  /** The round once the argument, which starts at start, was cut: it is split for the length it had before. */
  function Called(call: seq<string> -> string, t: string, p: nat, e: nat, start: nat, size: nat): CallRound
    requires p <= start <= e < |t|
  {
    match SplitMemory(t, start, Min(|t|, start + size))
    case Full(mem) => Overflow(mem)
    case Listed(mem, argv) => More(mem[..p] + call(argv) + mem[e..])
  }

  /** The first n rounds; a pass that has stopped stays stopped. */
  function FunctionRun(call: seq<string> -> string, s: string, n: nat): CallRound
    decreases n
  {
    if n == 0 then More(s)
    else match FunctionRound(call, s)
      case More(t) => FunctionRun(call, t, n - 1)
      case r => r
  }

  ghost predicate FunctionEnds(call: seq<string> -> string, s: string, r: CallRound) {
    !r.More? && exists n: nat :: FunctionRun(call, s, n) == r
  }

  lemma {:induction false} RunOn(call: seq<string> -> string, s: string, n: nat, k: nat)
    ensures FunctionRun(call, s, n + k) ==
            if FunctionRun(call, s, n).More? then FunctionRun(call, FunctionRun(call, s, n).text, k) else FunctionRun(call, s, n)
    decreases n
  {
    hide FunctionRound;
    if n > 0 && FunctionRound(call, s).More? {
      RunOn(call, FunctionRound(call, s).text, n - 1, k);
    }
  }

  /** What a run stops with is the only result. */
  lemma OnlyEnd(call: seq<string> -> string, s: string, n: nat)
    requires !FunctionRun(call, s, n).More?
    ensures forall r :: FunctionEnds(call, s, r) <==> r == FunctionRun(call, s, n)
  {
    hide FunctionRun;
    forall r | FunctionEnds(call, s, r)
      ensures r == FunctionRun(call, s, n)
    {
      var k: nat :| FunctionRun(call, s, k) == r;
      if n <= k { RunOn(call, s, n, k - n); } else { RunOn(call, s, k, n - k); }
    }
  }

  // ---------------------------------------------------------------- against the macro

  /** What a macro stands for when its argument is split by itself. */
  function CallLookup(call: seq<string> -> string): string -> Option<string> {
    argument =>
      if |ArgumentsOf(Trim(argument))| <= MAX_ARGS then Some(call(ArgumentsOf(Trim(argument)))) else None
  }

  function FunctionMacro(call: seq<string> -> string): Macro {
    hide IsToken;
    FunctionIsToken();
    Macro(TOK_FUNCTION, CallLookup(call))
  }

  lemma MemoryOf(s: string, a: nat, e: nat)
    requires a <= e < |s|
    ensures var (raw, t, start) := (s[a..e], CutArgument(s, a, e), ArgumentStart(s, a, e));
            && start == a + Lead(raw) && Lead(raw) + |Trim(raw)| == |TrimRight(raw)| <= |raw| && start <= |t|
            && t == Memory(t[..start], Trim(raw), |raw| - |TrimRight(raw)|, s[e + 1..])
  {
    hide TrimLeft, TrimRight, CutArgument;
    var (raw, t, start) := (s[a..e], CutArgument(s, a, e), ArgumentStart(s, a, e));
    CutText(s, a, e, raw);
    CutParts(s, a, a, e, start);
    TrimTail(raw);
    NulsEnd(t[..start], Trim(raw), |raw| - |TrimRight(raw)|, s[e + 1..]);
    assert t == t[..start] + t[start..];
  }

  lemma NulsEnd(q: string, x: string, k: nat, y: string)
    ensures q + (x + Nuls(k) + [NUL] + y) == Memory(q, x, k, y)
  {
    assert Nuls(k + 1) == Nuls(k) + [NUL];
  }

  /** The call of a macro whose split keeps to the argument. */
  lemma CalledAgrees(call: seq<string> -> string, s: string, p: nat, a: nat, e: nat)
    requires p <= a <= e < |s| && NulFree(Trim(s[a..e])) && |ArgumentsOf(Trim(s[a..e]))| <= MAX_ARGS
    requires KeepsTo(Trim(s[a..e]), Lead(s[a..e]), s[e + 1..])
    ensures Called(call, CutArgument(s, a, e), p, e, ArgumentStart(s, a, e), e - a) ==
            More(s[..p] + call(ArgumentsOf(Trim(s[a..e]))) + ([NUL] + s[e + 1..]))
  {
    hide Trim, TrimRight, CutArgument, SplitMemory, KeepsTo, ArgumentsOf, Memory, ArgumentStart, Lead, NulFree, SameFrom;
    var (raw, t, start) := (s[a..e], CutArgument(s, a, e), ArgumentStart(s, a, e));
    MemoryOf(s, a, e);
    SplitExactly(t[..start], Trim(raw), Lead(raw), |raw| - |TrimRight(raw)|, s[e + 1..]);
    SplitWritesNuls(t, start, Min(|t|, start + (e - a)));
    CutParts(s, p, a, e, start);
    SameEnds(SplitMemory(t, start, Min(|t|, start + (e - a))).mem, t, p, e);
  }

  /** A round whose split keeps to the argument is the round of the macro. */
  lemma RoundAgrees(call: seq<string> -> string, s: string)
    requires var f := Parse(FunctionMacro(call), s); f.Known? && KeepsTo(Trim(f.name), Lead(f.name), f.after)
    ensures var f := Parse(FunctionMacro(call), s);
            FunctionRound(call, s) == More(f.before + f.value + [NUL] + f.after)
  {
    hide Find, StrChr, Trim, TrimRight, CutArgument, KeepsTo, ArgumentsOf, ArgumentStart, Lead, IsToken, Called, NulFree,
         Locate;
    var f := Parse(FunctionMacro(call), s);
    LocateSpan(FunctionMacro(call), s);
    var (p, e) := Locate(TOK_FUNCTION, s).value;
    PlainArgument(s);
    CalledAgrees(call, s, p, p + |TOK_FUNCTION|, e);
    NulBetween(f.before, f.value, f.after);
  }

  lemma NulBetween(x: string, y: string, z: string)
    ensures x + y + [NUL] + z == x + y + ([NUL] + z)
  {
  }

  lemma PlainArgument(s: string)
    requires Locate(TOK_FUNCTION, s).Some?
    ensures var (p, e) := Locate(TOK_FUNCTION, s).value;
            p + |TOK_FUNCTION| <= e ==> NulFree(Trim(s[p + |TOK_FUNCTION|..e]))
  {
    hide Trim, Locate;
    var (p, e) := Locate(TOK_FUNCTION, s).value;
    ArgumentIsPlain(TOK_FUNCTION, s);
    if p + |TOK_FUNCTION| <= e {
      TrimPlain(s[p + |TOK_FUNCTION|..e]);
    }
  }

  lemma SameEnds(x: string, y: string, p: nat, e: nat)
    requires p <= e <= |x| == |y| && SameFrom(x, y, e) && forall j :: 0 <= j < p ==> x[j] == y[j]
    ensures x[..p] == y[..p] && x[e..] == y[e..]
  {
  }

  /** A text without a token, a bracket or an argument is left as it is. */
  lemma RoundStops(call: seq<string> -> string, s: string)
    requires var f := Parse(FunctionMacro(call), s); f.Missing? || f == Stuck(s)
    ensures FunctionRound(call, s) == Done(s)
  {
    hide Find, StrChr, Trim, TrimRight, SplitMemory, ArgumentsOf, Called, ArgumentStart, IsToken, CutArgument;
    if Locate(TOK_FUNCTION, s).Some? {
      LocateSpan(FunctionMacro(call), s);
      var (p, e) := Locate(TOK_FUNCTION, s).value;
      var a := p + |TOK_FUNCTION|;
      BracketCut(s, a, e);
    }
  }

  lemma BracketCut(s: string, a: nat, e: nat)
    requires a <= e < |s| && s[e] == ')'
    ensures CutArgument(s, a, e) != s
  {
    hide TrimRight;
    assert CutArgument(s, a, e)[e] == NUL;
  }

  // ---------------------------------------------------------------- a split that looks too far

  const TOO_FAR := "@function(  f,a),x"

  lemma WordAt(mem: string, i: nat, w: string)
    requires i + |w| < |mem| && mem[i..i + |w|] == w && mem[i + |w|] == NUL && NulFree(w)
    requires w != [] && !IsSpace(w[0]) && !IsSpace(w[|w| - 1])
    ensures Trim(CStr(mem, i)) == w && RStripped(mem, i) == mem
  {
    CStrIs(mem, i, w);
    TrimRightIs(w, w);
    TrimLeftIs(w, w);
  }

  lemma LastWord(mem: string, i: nat, w: string)
    requires i + |w| == |mem| && mem[i..] == w && NulFree(w)
    requires w != [] && !IsSpace(w[0]) && !IsSpace(w[|w| - 1])
    ensures Trim(CStr(mem, i)) == w && RStripped(mem, i) == mem
  {
    CStrIs(mem, i, w);
    TrimRightIs(w, w);
    TrimLeftIs(w, w);
  }

  /** Token and blanks, three words, and the chars between and behind them. */
  function Words(c: char, d: char): string {
    "@function(  f" + [c] + "a" + [NUL] + [d] + "x"
  }

  lemma WordsAt(c: char, d: char)
    ensures var w := Words(c, d);
            |w| == 18 && w[12] == 'f' && w[13] == c && w[14] == 'a' && w[15] == NUL && w[16] == d && w[17] == 'x'
    ensures Words(c, d)[13 := NUL] == Words(NUL, d) && Words(c, d)[16 := NUL] == Words(c, NUL)
  {
  }

  lemma ThreeWords()
    ensures SplitMemory(Words(',', ','), 12, 17) == Listed(Words(NUL, NUL), ["f", "a", "x"])
  {
    hide Words, RStripped, CStr, Trim, Walk, StrChr;
    WordsAt(',', ','); WordsAt(NUL, ','); WordsAt(NUL, NUL);
    var w := Words(',', ',');
    StrChrIs(w, 12, ',', 13);
    WalkStep(w, 17, [], 12, 12);
    WalkStep(w, 17, [], 12, 13);
    WordAt(Words(NUL, ','), 12, "f");
    var v := Words(NUL, ',');
    assert [] + ["f"] == ["f"] && ["f"] + ["a"] == ["f", "a"] && ["f", "a"] + ["x"] == ["f", "a", "x"];
    WalkStep(v, 17, ["f"], 14, 15);
    WalkStep(v, 17, ["f"], 14, 16);
    WordAt(Words(NUL, NUL), 14, "a");
    WalkEnds(Words(NUL, NUL), 17, ["f", "a"], 17, 18);
    LastWord(Words(NUL, NUL), 17, "x");
  }

  lemma TooFarText()
    ensures var s := TOO_FAR; |s| == 18 && s[0..10] == TOK_FUNCTION && s[10..15] == "  f,a" && s[15] == ')'
    ensures forall i :: 0 <= i < 15 ==> TOO_FAR[i] != ')' && TOO_FAR[i] != NUL
    ensures TOO_FAR[..15] + [NUL] + TOO_FAR[16..] == Words(',', ',')
  {
  }

  lemma PaddedList()
    ensures TrimRight("  f,a") == "  f,a" && Trim("  f,a") == "f,a" && Lead("  f,a") == 2
  {
    hide TrimRight, TrimLeft;
    TrimRightIs("  f,a", "  f,a");
    TrimLeftIs("  f,a", "f,a");
  }

  lemma TooFarCut()
    ensures Locate(TOK_FUNCTION, TOO_FAR) == Some((0, 15))
    ensures |TOO_FAR| == 18 && CutArgument(TOO_FAR, 10, 15) == Words(',', ',') && ArgumentStart(TOO_FAR, 10, 15) == 12
  {
    hide TrimRight, Trim, Find, StrChr, Words, Lead;
    TooFarText();
    PaddedList();
    FindIs(TOO_FAR, TOK_FUNCTION, 0);
    StrChrIs(TOO_FAR, 0, ')', 15);
    assert Nuls(1) == [NUL];
  }

  /**
   * Two blanks and a list, and a comma behind the bracket: it is taken for a separator, the text behind
   * it for an argument, and it is lost from the page.
   */
  lemma SplitTooFar(call: seq<string> -> string)
    ensures !KeepsTo("f,a", 2, ",x")
    ensures FunctionRound(call, TOO_FAR) == More(call(["f", "a", "x"]) + [NUL, NUL] + "x")
  {
    hide Locate, CutArgument, ArgumentStart, SplitMemory, Trim, Lead;
    TooFarCut();
    ThreeWords();
    var w := Words(NUL, NUL);
    assert w[15..] == [NUL, NUL] + "x" && w[..0] == [];
    assert w[..0] + call(["f", "a", "x"]) + w[15..] == call(["f", "a", "x"]) + [NUL, NUL] + "x";
    assert ",x"[..1][0] == ',';
  }

  // ---------------------------------------------------------------- the pass ends

  function Opens(s: string): nat {
    if s == [] then 0 else (if s[0] == '(' then 1 else 0) + Opens(s[1..])
  }

  lemma {:induction false} OpensJoin(x: string, y: string)
    ensures Opens(x + y) == Opens(x) + Opens(y)
  {
    if x == [] {
      assert x + y == y;
    } else {
      assert (x + y)[0] == x[0] && (x + y)[1..] == x[1..] + y;
      OpensJoin(x[1..], y);
    }
  }

  lemma {:induction false} NoneOpen(x: string)
    requires '(' !in x
    ensures Opens(x) == 0
  {
    if x != [] {
      NoneOpen(x[1..]);
    }
  }

  lemma {:induction false} OpensUnderNuls(x: string, y: string)
    requires OnlyNuls(x, y)
    ensures Opens(y) <= Opens(x)
  {
    if x != [] {
      assert forall j :: 0 <= j < |x[1..]| ==> y[1..][j] == y[j + 1] && x[1..][j] == x[j + 1];
      OpensUnderNuls(x[1..], y[1..]);
    }
  }

  /** No result holds an opening bracket. */
  ghost predicate PlainCalls(call: seq<string> -> string) {
    forall argv: seq<string> :: '(' !in call(argv)
  }

  lemma CutWritesNuls(s: string, a: nat, e: nat)
    requires a <= e < |s|
    ensures OnlyNuls(s, CutArgument(s, a, e)) && forall j :: 0 <= j < a ==> CutArgument(s, a, e)[j] == s[j]
  {
    hide TrimRight;
  }

  /** The bracket of the token goes with its macro. */
  lemma FewerOpen(mem: string, p: nat, e: nat, b: nat, v: string)
    requires p <= b < e <= |mem| && mem[b] == '(' && '(' !in v
    ensures Opens(mem[..p] + v + mem[e..]) < Opens(mem)
  {
    hide Opens;
    var (x, y, z) := (mem[..p], mem[p..e], mem[e..]);
    ThreeParts(mem, p, e);
    OpensJoin(x + y, z);
    OpensJoin(x, y);
    OpensJoin(x + v, z);
    OpensJoin(x, v);
    NoneOpen(v);
    SomeOpen(y, b - p);
  }

  lemma ThreeParts(mem: string, p: nat, e: nat)
    requires p <= e <= |mem|
    ensures mem == mem[..p] + mem[p..e] + mem[e..]
  {
  }

  lemma {:induction false} SomeOpen(y: string, k: nat)
    requires k < |y| && y[k] == '('
    ensures Opens(y) > 0
  {
    if k > 0 {
      SomeOpen(y[1..], k - 1);
    }
  }

  /** Each round leaves fewer opening brackets, whatever the split does behind its own. */
  lemma RoundCloses(call: seq<string> -> string, s: string)
    requires PlainCalls(call) && FunctionRound(call, s).More?
    ensures Opens(FunctionRound(call, s).text) < Opens(s)
  {
    hide Find, StrChr, Trim, TrimRight, CutArgument, SplitMemory, ArgumentStart, IsToken, Opens, OnlyNuls;
    var (p, e) := Locate(TOK_FUNCTION, s).value;
    var a := p + |TOK_FUNCTION|;
    var (t, start) := (CutArgument(s, a, e), ArgumentStart(s, a, e));
    var r := SplitMemory(t, start, Min(|t|, start + (e - a)));
    CutWritesNuls(s, a, e);
    SplitWritesNuls(t, start, Min(|t|, start + (e - a)));
    NulsAgain(s, t, r.mem);
    OpensUnderNuls(s, r.mem);
    TokenBracket(s, p);
    FewerOpen(r.mem, p, e, a - 1, call(r.argv));
  }

  lemma TokenBracket(s: string, p: nat)
    requires OccursAt(s, TOK_FUNCTION, p)
    ensures s[p + |TOK_FUNCTION| - 1] == '('
  {
    assert s[p..p + |TOK_FUNCTION|][|TOK_FUNCTION| - 1] == s[p + |TOK_FUNCTION| - 1];
  }

  /** When no result holds an opening bracket, the pass ends on every buffer. */
  lemma {:induction false} FunctionsEnd(call: seq<string> -> string, s: string) returns (n: nat)
    requires PlainCalls(call)
    ensures !FunctionRun(call, s, n).More?
    decreases Opens(s)
  {
    hide FunctionRound, PlainCalls, Opens;
    n := 1;
    if FunctionRound(call, s).More? {
      RoundCloses(call, s);
      var k := FunctionsEnd(call, FunctionRound(call, s).text);
      n := 1 + k;
    }
  }

  // ---------------------------------------------------------------- results without an opening bracket

  /** No split of the text looks too far, and none finds more than argv has room for. */
  ghost predicate Guarded(call: seq<string> -> string, s: string)
    decreases |s|
  {
    hide Parse, KeepsTo, Lead;
    match Parse(FunctionMacro(call), s)
    case Missing => true
    case Stuck(cut) => cut == s
    case Known(_, raw, _, after) => KeepsTo(Trim(raw), Lead(raw), after) && Guarded(call, after)
  }

  lemma {:induction false} FlatFunctionRun(call: seq<string> -> string, pre: string, s: string) returns (n: nat)
    requires PlainCalls(call) && Sealed(pre, TOK_FUNCTION) && Guarded(call, s)
    ensures FunctionRun(call, pre + s, n) == Done(pre + Scan(FunctionMacro(call), s))
    decreases |s|
  {
    hide Sealed, Parse, OccursAt, Free, IsToken, BracketFree, PlainCalls, Within, KeepsTo, Lead, Trim, FunctionRound,
         FunctionMacro;
    var m := FunctionMacro(call);
    MacroOfCalls(call);
    ParseInside(m, pre, s, []);
    WithinNothing(pre, s);
    n := 1;
    match Parse(m, s)
    case Missing => RoundStops(call, pre + s);
    case Stuck(cut) =>
      WithinNothing(pre, cut);
      RoundStops(call, pre + s);
    case Known(before, raw, v, after) =>
      assert after + [] == after;
      RoundAgrees(call, pre + s);
      SealedFlat(m, pre, s);
      var k := FlatFunctionRun(call, pre + before + v + [NUL], after);
      assert pre + (before + v + [NUL] + Scan(m, after)) == pre + before + v + [NUL] + Scan(m, after);
      n := k + 1;
  }

  lemma MacroOfCalls(call: seq<string> -> string)
    ensures FunctionMacro(call).token == TOK_FUNCTION && (PlainCalls(call) ==> BracketFree(FunctionMacro(call)))
  {
    hide Trim, ArgumentsOf;
    var m := FunctionMacro(call);
    forall name: string | PlainCalls(call) && m.lookup(name).Some?
      ensures '(' !in m.lookup(name).value
    {
      assert '(' !in call(ArgumentsOf(Trim(name)));
    }
  }

  /**
   * When no result holds an opening bracket and no split looks too far, the only result is that of one
   * pass from left to right.
   */
  lemma FunctionsFlat(call: seq<string> -> string, s: string)
    requires PlainCalls(call) && Guarded(call, s)
    ensures forall r :: FunctionEnds(call, s, r) <==> r == Done(Scan(FunctionMacro(call), s))
  {
    hide Sealed, PlainCalls, Guarded, FunctionRun, FunctionEnds, Scan, IsToken, FunctionMacro;
    var m := FunctionMacro(call);
    MacroOfCalls(call);
    SealedEmpty(m);
    var n := FlatFunctionRun(call, [], s);
    assert [] + s == s && [] + Scan(m, s) == Scan(m, s);
    OnlyEnd(call, s, n);
  }

  // ---------------------------------------------------------------- results with macros of their own

  /** An argument whose split cannot look too far, whatever stands behind it. */
  predicate Tight(raw: string) {
    ',' !in Trim(raw) || Lead(raw) < 2
  }

  function TightLookup(call: seq<string> -> string): string -> Option<string> {
    argument => if Tight(argument) then CallLookup(call)(argument) else None
  }

  /** The function macros with tight arguments. */
  function TightMacro(call: seq<string> -> string): Macro {
    hide IsToken;
    FunctionIsToken();
    Macro(TOK_FUNCTION, TightLookup(call))
  }

  lemma TightKeeps(raw: string, behind: string)
    requires Tight(raw)
    ensures KeepsTo(Trim(raw), Lead(raw), behind)
  {
    hide Trim, Lead;
  }

  lemma TightParse(call: seq<string> -> string, s: string)
    requires !Parse(TightMacro(call), s).Stuck?
    ensures Parse(FunctionMacro(call), s) == Parse(TightMacro(call), s)
    ensures Parse(TightMacro(call), s).Known? ==> Tight(Parse(TightMacro(call), s).name)
  {
    hide Find, StrChr, Trim, CutArgument, ArgumentsOf, Lead, IsToken, Tight;
    if Locate(TOK_FUNCTION, s).Some? {
      LocateSpan(TightMacro(call), s);
      var (p, e) := Locate(TOK_FUNCTION, s).value;
      assert TightMacro(call).lookup(s[p + |TOK_FUNCTION|..e]).Some? ==>
          FunctionMacro(call).lookup(s[p + |TOK_FUNCTION|..e]) == TightMacro(call).lookup(s[p + |TOK_FUNCTION|..e]);
    }
  }

  /** As long as the pass over tight macros goes on, so does the pass of the source. */
  lemma {:induction false} TightRun(call: seq<string> -> string, s: string, n: nat)
    requires Run(TightMacro(call), s, n).Again?
    ensures FunctionRun(call, s, n) == More(Run(TightMacro(call), s, n).text)
    decreases n
  {
    hide MacroRound, IsToken, FunctionRound, TightMacro;
    if n > 0 {
      TightRound(call, s);
      TightRun(call, MacroRound(TightMacro(call), s).text, n - 1);
    }
  }

  lemma TightRound(call: seq<string> -> string, s: string)
    requires MacroRound(TightMacro(call), s).Again?
    ensures FunctionRound(call, s) == More(MacroRound(TightMacro(call), s).text)
  {
    hide Parse, IsToken, KeepsTo, Lead, Trim, FunctionRound, FunctionMacro, TightMacro, Tight;
    TightParse(call, s);
    TightKeeps(Parse(TightMacro(call), s).name, Parse(TightMacro(call), s).after);
    RoundAgrees(call, s);
  }

  /** With clean seams and no macro that stops it, the pass leaves the recursive expansion, and no token. */
  lemma FunctionsExpand(call: seq<string> -> string, d: nat, s: string)
    requires ExpandsTightly(call, d, s)
    ensures var x := ExpandTo(TightMacro(call), d, s).value;
            (forall r :: FunctionEnds(call, s, r) <==> r == Done(x.text)) && Free(x.text, TOK_FUNCTION)
  {
    hide Run, IsToken, Clean, ExpandTo, Sealed, Free, FunctionRun, FunctionEnds, TightMacro, FunctionMacro, FunctionRound;
    var m := TightMacro(call);
    TokensOfCalls(call);
    SealedEmpty(m);
    var x := ExpandTo(m, d, s).value;
    var n := NestedRun(m, d, [], s, []);
    WithinNothing([], s);
    WithinNothing([], x.text);
    assert [] + s == s && [] + x.text == x.text;
    TightRun(call, s, n);
    NothingCalled(call, x.text);
    RunOn(call, s, n, 1);
    OnlyEnd(call, s, n + 1);
  }

  lemma TokensOfCalls(call: seq<string> -> string)
    ensures TightMacro(call).token == TOK_FUNCTION
  {
  }

  lemma NothingCalled(call: seq<string> -> string, s: string)
    requires Free(s, TOK_FUNCTION)
    ensures FunctionRun(call, s, 1) == Done(s)
  {
  }

  // ---------------------------------------------------------------- the C code

  /** The body of the loop of process_function. */
  method FunctionStep(buffer: KoreBuf, call: seq<string> -> string) returns (r: CallRound)
    requires buffer.Valid()
    modifies buffer, buffer.data
    ensures buffer.Valid() && (buffer.data == old(buffer.data) || fresh(buffer.data))
    ensures r == FunctionRound(call, old(buffer.Contents())) && buffer.Contents() == r.text
  {
    hide Locate, CutArgument, Trim, TrimRight, SplitMemory, Called, FunctionRound;
    ghost var s := buffer.Contents();
    RoundByCall(call, s);
    var macro := OpenMacro(buffer, TOK_FUNCTION);
    if macro.None? {
      return Done(buffer.data[..buffer.offset]);
    }
    var (p, e, _, start) := macro.value;
    r := CallMacro(buffer, call, p, e, start, e - (p + |TOK_FUNCTION|));
  }

  lemma RoundByCall(call: seq<string> -> string, s: string)
    ensures Locate(TOK_FUNCTION, s).None? ==> FunctionRound(call, s) == Done(s)
    ensures Locate(TOK_FUNCTION, s).Some? ==>
              var (p, e) := Locate(TOK_FUNCTION, s).value;
              var a := p + |TOK_FUNCTION|;
              if a >= e then FunctionRound(call, s) == Done(s)
              else FunctionRound(call, s) ==
                   Called(call, CutArgument(s, a, e), p, e, a + |TrimRight(s[a..e])| - |Trim(s[a..e])|, e - a)
  {
    hide Locate, CutArgument, Trim, TrimRight, Called;
  }

  /** The split and the call, once the argument is cut. */
  method CallMacro(buffer: KoreBuf, call: seq<string> -> string, p: nat, e: nat, start: nat, size: nat) returns (r: CallRound)
    requires buffer.Valid() && p <= start <= e < buffer.offset
    modifies buffer, buffer.data
    ensures buffer.Valid() && (buffer.data == old(buffer.data) || fresh(buffer.data))
    ensures r == Called(call, old(buffer.Contents()), p, e, start, size) && buffer.Contents() == r.text
  {
    hide SplitMemory;
    var n := buffer.offset;
    var argv, argc, full := SplitArguments(buffer.data, n, start, Min(n, start + size));
    if full {
      return Overflow(buffer.data[..n]);
    }
    buffer.ReplaceString(p, e - p, call(argv[..argc]));
    r := More(buffer.data[..buffer.offset]);
  }

  /** Clean seams, and no macro that stops the expansion. */
  ghost predicate ExpandsTightly(call: seq<string> -> string, depth: nat, s: string) {
    var m := TightMacro(call);
    Clean(m, s) && ExpandTo(m, depth, s).Some? && !ExpandTo(m, depth, s).value.stopped
  }

  /** What a caller can tell: the pass ends by its results, by its expansion, or in some other way. */
  ghost predicate CallsForeseen(call: seq<string> -> string, depth: nat, s: string) {
    || PlainCalls(call)
    || ExpandsTightly(call, depth, s)
    || (exists n: nat :: !FunctionRun(call, s, n).More?)
  }

  lemma ForeseenCalls(call: seq<string> -> string, depth: nat, s: string) returns (n: nat)
    requires CallsForeseen(call, depth, s)
    ensures !FunctionRun(call, s, n).More? && FunctionEnds(call, s, FunctionRun(call, s, n))
  {
    hide PlainCalls, ExpandsTightly, ExpandTo, IsToken, FunctionRun, TightMacro, Free;
    if PlainCalls(call) {
      n := FunctionsEnd(call, s);
    } else if ExpandsTightly(call, depth, s) {
      n := EndOfExpansion(call, depth, s);
    } else {
      n :| !FunctionRun(call, s, n).More?;
    }
  }

  lemma EndOfExpansion(call: seq<string> -> string, depth: nat, s: string) returns (n: nat)
    requires ExpandsTightly(call, depth, s)
    ensures !FunctionRun(call, s, n).More?
  {
    hide ExpandTo, IsToken, FunctionRun, TightMacro, Free, Clean;
    FunctionsExpand(call, depth, s);
    var r := Done(ExpandTo(TightMacro(call), depth, s).value.text);
    assert FunctionEnds(call, s, r);
    n :| FunctionRun(call, s, n) == r;
  }

  /** process_function; false when argv overruns, which is where the model stops. */
  method ProcessFunction(buffer: KoreBuf, call: seq<string> -> string, ghost depth: nat) returns (finished: bool)
    requires buffer.Valid() && CallsForeseen(call, depth, buffer.Contents())
    modifies buffer, buffer.data
    ensures buffer.Valid() && (buffer.data == old(buffer.data) || fresh(buffer.data))
    ensures FunctionEnds(call, old(buffer.Contents()), if finished then Done(buffer.Contents()) else Overflow(buffer.Contents()))
  {
    hide CallsForeseen, FunctionRound, FunctionEnds;
    ghost var n := ForeseenCalls(call, depth, buffer.Contents());
    ghost var r := FunctionRun(call, buffer.Contents(), n);
    while true
      invariant buffer.Valid() && (buffer.data == old(buffer.data) || fresh(buffer.data))
      invariant FunctionRun(call, buffer.Contents(), n) == r && !r.More?
      invariant FunctionEnds(call, old(buffer.Contents()), r)
      decreases n
    {
      var step := FunctionStep(buffer, call);
      match step {
        case Done(_) => return true;
        case Overflow(_) => return false;
        case More(_) => n := n - 1;
      }
    }
  }
}
