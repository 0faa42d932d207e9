/** The macro passes of the view on the buffer: includes and user variables. */
module View {
  import opened CString
  import opened Compat
  import opened Buffers
  import opened Macro
  import opened Parsing
  import opened Nested
  import opened References
  import opened NestedDocs
  import opened Trees
  import S = Slots


  /** include_asset: the symbol is cut to the 63 chars of its buffer. */
  function AssetSymbol(name: string): string {
    var symbol := "asset_" + name + "_html";
    symbol[..Min(|symbol|, 63)]
  }

  /** A name of up to 52 chars has its own symbol; of a longer one only the first 57 chars count. */
  lemma SymbolOfName(name: string)
    ensures |name| <= 52 ==> AssetSymbol(name) == "asset_" + name + "_html"
    ensures |name| >= 57 ==> AssetSymbol(name) == "asset_" + name[..57]
  {
    var symbol := "asset_" + name + "_html";
    if |name| >= 57 {
      assert symbol[..63] == "asset_" + name[..57];
    }
  }

  lemma NamesApart(name: string, other: string)
    requires |name| <= 52 && |other| <= 52
    ensures AssetSymbol(name) == AssetSymbol(other) <==> name == other
  {
    hide AssetSymbol;
    SymbolOfName(name);
    SymbolOfName(other);
    MiddlePart(name);
    MiddlePart(other);
  }

  lemma MiddlePart(name: string)
    ensures var symbol := "asset_" + name + "_html"; |symbol| == 11 + |name| && symbol[6..|symbol| - 5] == name
  {
  }

  function Asset(assets: map<string, string>, name: string): Option<string> {
    if AssetSymbol(name) in assets then Some(assets[AssetSymbol(name)]) else None
  }

  function Count(assets: map<string, string>): nat {
    |assets.Values|
  }

  function AssetLookup(assets: map<string, string>): string -> Option<string> {
    argument => Asset(assets, Trim(argument))
  }

  function IncludeMacro(assets: map<string, string>): Macro
  {
    hide IsToken;
    IncludeIsToken();
    Macro(TOK_INCLUDE, AssetLookup(assets))
  }

  /** The last string of the session under the name, or nothing. */
  function VariableLookup(session: S.Slots): string -> Option<string> {
    argument => Some(SessionValue(session, Trim(argument)))
  }

  function UserVarMacro(session: S.Slots): Macro
  {
    hide IsToken;
    UserVarIsToken();
    Macro(TOK_USER_VAR, VariableLookup(session))
  }

  lemma IncludeIs(assets: map<string, string>)
    ensures var m := IncludeMacro(assets);
            m.token == TOK_INCLUDE && forall argument :: m.lookup(argument) == Asset(assets, Trim(argument))
  {
    hide Trim, Asset, IsToken;
  }

  lemma UserVarIs(session: S.Slots)
    ensures var m := UserVarMacro(session);
            m.token == TOK_USER_VAR && forall argument :: m.lookup(argument) == Some(SessionValue(session, Trim(argument)))
  {
    hide Trim, SessionValue, IsToken;
  }

  function SessionValue(session: S.Slots, name: string): string {
    match S.Get(session, name, S.KString, None)
    case Some(VStr(t)) => t
    case _ => ""
  }

  /** A round of the loop in terms of what OpenMacro returns. */
  lemma RoundByParts(m: Macro, s: string)
    ensures Locate(m.token, s).None? ==> MacroRound(m, s) == Halt(s)
    ensures Locate(m.token, s).Some? ==>
              var (p, e) := Locate(m.token, s).value;
              var a := p + |m.token|;
              if a >= e then MacroRound(m, s) == Halt(s)
              else match m.lookup(s[a..e])
                case None => MacroRound(m, s) == Halt(CutArgument(s, a, e))
                case Some(v) => MacroRound(m, s) == Again(CutArgument(s, a, e)[..p] + v + CutArgument(s, a, e)[e..])
  {
    hide Find, StrChr, IsToken, CutArgument;
    if Locate(m.token, s).Some? {
      LocateSpan(m, s);
      var (p, e) := Locate(m.token, s).value;
      var a := p + |m.token|;
      if a < e && m.lookup(s[a..e]).Some? {
        CutEnds(s, p, a, e, m.lookup(s[a..e]).value);
      }
    }
  }

  lemma CutEnds(s: string, p: nat, a: nat, e: nat, v: string)
    requires p <= a <= e < |s|
    ensures CutArgument(s, a, e)[..p] + v + CutArgument(s, a, e)[e..] == s[..p] + v + [NUL] + s[e + 1..]
  {
    hide TrimRight;
    var c := CutArgument(s, a, e);
    assert c[..p] == s[..p];
    assert c[e..] == [NUL] + s[e + 1..];
  }

  /** A round of a loop that is known to end with t. */
  lemma Unfold(m: Macro, s: string, n: nat, t: string)
    requires Run(m, s, n) == Halt(t)
    ensures n > 0 && (Locate(m.token, s).None? ==> s == t)
    ensures Locate(m.token, s).Some? ==>
              var (p, e) := Locate(m.token, s).value;
              var a := p + |m.token|;
              if a >= e then s == t
              else
                var cut := CutArgument(s, a, e);
                match m.lookup(s[a..e])
                case None => cut == t
                case Some(v) => Run(m, cut[..p] + v + cut[e..], n - 1) == Halt(t)
  {
    hide MacroRound, Locate, CutArgument, IsToken;
    RoundByParts(m, s);
  }

  /**
   * What a caller can tell before a pass: it ends when no value holds an opening bracket; with clean
   * seams it ends if and only if the buffer expands within the given depth; otherwise its end has to be
   * known in some other way.
   */
  ghost predicate Foreseen(m: Macro, depth: nat, s: string)
  {
    if BracketFree(m) then true
    else if Clean(m, s) then ExpandTo(m, depth, s).Some?
    else exists t :: Ends(m, s, t)
  }

  lemma Foresee(m: Macro, depth: nat, s: string)
    requires Foreseen(m, depth, s)
    ensures exists t :: Ends(m, s, t)
  {
    hide IsToken, BracketFree, Scan, Clean, ExpandTo, Ends;
    if BracketFree(m) {
      FlatPass(m, s);
      assert Ends(m, s, Scan(m, s));
    } else if Clean(m, s) {
      NestedPass(m, depth, s);
      assert Ends(m, s, ExpandTo(m, depth, s).value.text);
    }
  }

  lemma ForeseenRun(m: Macro, depth: nat, s: string) returns (n: nat, t: string)
    requires Foreseen(m, depth, s)
    ensures Run(m, s, n) == Halt(t) && Ends(m, s, t)
  {
    hide IsToken, Run, Foreseen;
    Foresee(m, depth, s);
    t :| Ends(m, s, t);
    n :| Run(m, s, n) == Halt(t);
  }

  /** With the number of values for the depth nothing is lost: it is foreseen exactly when it ends. */
  lemma ForeseenExactly(m: Macro, values: set<string>, s: string)
    requires ValuesIn(m, values)
    ensures Foreseen(m, |values|, s) <==> exists t :: Ends(m, s, t)
  {
    hide IsToken, BracketFree, Scan, Clean, ExpandTo, Ends, ValuesIn;
    if BracketFree(m) {
      Foresee(m, 0, s);
    } else if Clean(m, s) {
      EndsWithinValues(m, values, s);
    }
  }

  /** The body of the loop of process_include, in a run that ends with t after n rounds at most. */
  method IncludeRound(buffer: KoreBuf, assets: map<string, string>, ghost n: nat, ghost t: string)
    returns (done: bool, ghost k: nat)
    requires buffer.Valid() && Run(IncludeMacro(assets), buffer.Contents(), n) == Halt(t)
    modifies buffer, buffer.data
    ensures buffer.Valid() && (buffer.data == old(buffer.data) || fresh(buffer.data))
    ensures done ==> buffer.Contents() == t
    ensures !done ==> k < n && Run(IncludeMacro(assets), buffer.Contents(), k) == Halt(t)
  {
    hide IsToken, Locate, CutArgument, Trim, TrimRight, Run, AssetSymbol, IncludeMacro;
    IncludeIs(assets);
    Unfold(IncludeMacro(assets), buffer.Contents(), n, t);
    var macro := OpenMacro(buffer, TOK_INCLUDE);
    if macro.None? {
      return true, 0;
    }
    var (start, end, name, _) := macro.value;
    if AssetSymbol(name) !in assets {
      return true, 0;
    }
    buffer.ReplaceString(start, end - start, assets[AssetSymbol(name)]);
    done, k := false, n - 1;
  }

  /** process_include. */
  method ProcessInclude(buffer: KoreBuf, assets: map<string, string>)
    requires buffer.Valid()
    requires Foreseen(IncludeMacro(assets), Count(assets), buffer.Contents())
    modifies buffer, buffer.data
    ensures buffer.Valid() && (buffer.data == old(buffer.data) || fresh(buffer.data))
    ensures Ends(IncludeMacro(assets), old(buffer.Contents()), buffer.Contents())
  {
    hide IsToken, Run, Foreseen, Ends, IncludeMacro;
    ghost var m := IncludeMacro(assets);
    ghost var n, t := ForeseenRun(m, Count(assets), buffer.Contents());
    while true
      invariant buffer.Valid() && (buffer.data == old(buffer.data) || fresh(buffer.data))
      invariant Run(m, buffer.Contents(), n) == Halt(t)
      decreases n
    {
      var done, k := IncludeRound(buffer, assets, n, t);
      if done {
        return;
      }
      n := k;
    }
  }

  method SessionString(session: Node, name: string) returns (value: string)
    requires session.Shows()
    ensures value == SessionValue(session.slots, name)
  {
    var found := session.GetStr(name, None);
    return match found case Some(v) => v case None => "";
  }

  /** The body of the loop of process_user_vars, in a run that ends with t after n rounds at most. */
  method UserVarRound(buffer: KoreBuf, session: Node, ghost n: nat, ghost t: string)
    returns (done: bool, ghost k: nat)
    requires buffer.Valid() && session.Shows() && Run(UserVarMacro(session.slots), buffer.Contents(), n) == Halt(t)
    modifies buffer, buffer.data
    ensures buffer.Valid() && (buffer.data == old(buffer.data) || fresh(buffer.data))
    ensures done ==> buffer.Contents() == t
    ensures !done ==> k < n && Run(UserVarMacro(old(session.slots)), buffer.Contents(), k) == Halt(t)
  {
    hide IsToken, Locate, CutArgument, Trim, TrimRight, Run, SessionValue, UserVarMacro;
    UserVarIs(session.slots);
    Unfold(UserVarMacro(session.slots), buffer.Contents(), n, t);
    var macro := OpenMacro(buffer, TOK_USER_VAR);
    if macro.None? {
      return true, 0;
    }
    var (start, end, name, _) := macro.value;
    var value := SessionString(session, name);
    buffer.ReplaceString(start, end - start, value);
    done, k := false, n - 1;
  }

  /** process_user_vars on the session tree. */
  method ProcessUserVars(buffer: KoreBuf, session: Node)
    requires buffer.Valid() && session.Shows()
    requires Foreseen(UserVarMacro(session.slots), |Strings(session.slots)|, buffer.Contents())
    modifies buffer, buffer.data
    ensures buffer.Valid() && (buffer.data == old(buffer.data) || fresh(buffer.data))
    ensures Ends(UserVarMacro(old(session.slots)), old(buffer.Contents()), buffer.Contents())
  {
    hide IsToken, Run, Foreseen, Ends, UserVarMacro;
    ghost var m := UserVarMacro(session.slots);
    ghost var n, t := ForeseenRun(m, |Strings(session.slots)|, buffer.Contents());
    while true
      invariant buffer.Valid() && (buffer.data == old(buffer.data) || fresh(buffer.data))
      invariant Run(m, buffer.Contents(), n) == Halt(t)
      invariant session.Shows() && session.slots == old(session.slots)
      decreases n
    {
      var done, k := UserVarRound(buffer, session, n, t);
      if done {
        return;
      }
      n := k;
    }
  }

  // ---------------------------------------------------------------- what the passes come to

  /** No string of the session holds an opening bracket. */
  ghost predicate PlainSession(session: S.Slots) {
    forall e :: e in session && e.Some? && e.value.value.VStr? ==> '(' !in e.value.value.s
  }

  lemma {:induction false} GetFrom(s: S.Slots, key: string, kind: S.Kind, found: Option<S.Value>)
    ensures S.Get(s, key, kind, found) == found
         || exists e :: e in s && e.Some? && S.Get(s, key, kind, found) == Some(e.value.value)
  {
    if s != [] {
      GetFrom(s[1..], key, kind, if S.Holds(s[0], key) && s[0].value.value.Kind() == kind then Some(s[0].value.value) else found);
      assert s[0] in s && forall e :: e in s[1..] ==> e in s;
    }
  }

  lemma PlainValue(session: S.Slots, name: string)
    requires PlainSession(session)
    ensures '(' !in SessionValue(session, name)
  {
    GetFrom(session, name, S.KString, None);
  }

  /** The last string under a name, or nothing. */
  function LastString(session: S.Slots, name: string): string {
    if session == [] then ""
    else
      var last := session[|session| - 1];
      if S.Holds(last, name) && last.value.value.VStr? then last.value.value.s
      else LastString(session[..|session| - 1], name)
  }

  /** When every entry under a name is a string, the last of them is the variable. */
  lemma {:induction false} UserVarIsLast(session: S.Slots, name: string)
    requires S.KeyOfKind(session, name, S.KString)
    ensures SessionValue(session, name) == LastString(session, name)
    decreases |session|
  {
    if session != [] {
      var (front, last) := (session[..|session| - 1], session[|session| - 1]);
      assert session == front + [last];
      S.GetAppend(front, [last], name, S.KString, None);
      assert S.KeyOfKind(front, name, S.KString);
      UserVarIsLast(front, name);
      LastRead(last, name, S.Get(front, name, S.KString, None));
    }
  }

  lemma LastRead(last: Option<S.Entry>, name: string, found: Option<S.Value>)
    requires S.Holds(last, name) ==> last.value.value.Kind() == S.KString
    ensures S.Get([last], name, S.KString, found) == if S.Holds(last, name) then Some(last.value.value) else found
  {
    assert [last][1..] == [];
  }

  /**
   * The user variables of a session without opening brackets: the pass ends on every buffer, and does
   * what one pass from left to right does.
   */
  lemma UserVarsFlat(session: S.Slots, s: string)
    requires PlainSession(session)
    ensures forall t :: Ends(UserVarMacro(session), s, t) <==> t == Scan(UserVarMacro(session), s)
  {
    hide IsToken, Scan, PlainSession, SessionValue, Ends, UserVarMacro, BracketFree;
    PlainVariables(session);
    FlatPass(UserVarMacro(session), s);
  }

  lemma PlainVariables(session: S.Slots)
    requires PlainSession(session)
    ensures BracketFree(UserVarMacro(session))
  {
    hide IsToken, PlainSession, SessionValue, UserVarMacro, Trim;
    UserVarIs(session);
    forall argument: string
      ensures '(' !in SessionValue(session, Trim(argument))
    {
      PlainValue(session, Trim(argument));
    }
  }

  /** The variables of a document filled in: each is its last string and a NUL. */
  function Filled(session: S.Slots, d: Doc): string {
    match d
    case Last(t) => t
    case Use(t, a, rest) => t + LastString(session, Trim(a)) + [NUL] + Filled(session, rest)
  }

  /** Text without the token, arguments a bracket ends, and names that have only strings. */
  ghost predicate StringNames(session: S.Slots, d: Doc) {
    match d
    case Last(t) => Free(t, TOK_USER_VAR)
    case Use(t, a, rest) =>
      && Free(t, TOK_USER_VAR) && a != [] && ')' !in a && NulFree(a) && S.KeyOfKind(session, Trim(a), S.KString)
      && StringNames(session, rest)
  }

  lemma {:induction false} FilledIsSubstituted(session: S.Slots, d: Doc)
    requires StringNames(session, d)
    ensures WellFormed(UserVarMacro(session), d) && Substituted(UserVarMacro(session), d) == Filled(session, d)
  {
    hide Free, NulFree, Trim, LastString, SessionValue, S.KeyOfKind, UserVarMacro, IsToken;
    UserVarIs(session);
    match d
    case Last(_) =>
    case Use(_, a, rest) =>
      UserVarIsLast(session, Trim(a));
      FilledIsSubstituted(session, rest);
  }

  /** A document with the variables of such a session: the only result has each of them filled in. */
  lemma UserVarsFilled(session: S.Slots, d: Doc)
    requires PlainSession(session) && StringNames(session, d)
    ensures forall t :: Ends(UserVarMacro(session), Render(TOK_USER_VAR, d), t) <==> t == Filled(session, d)
  {
    hide IsToken, Scan, PlainSession, Ends, Substituted, WellFormed, StringNames, Filled, Render, UserVarMacro;
    var m := UserVarMacro(session);
    UserVarIs(session);
    FilledIsSubstituted(session, d);
    UserVarsFlat(session, Render(TOK_USER_VAR, d));
    ScanSubstitutes(m, d);
  }

  /** What a variable can stand for. */
  ghost function Strings(session: S.Slots): set<string> {
    {""} + set e | e in session && e.Some? && e.value.value.VStr? :: e.value.value.s
  }

  lemma StringsAreValues(session: S.Slots)
    ensures ValuesIn(UserVarMacro(session), Strings(session))
  {
    hide Trim, SessionValue, Strings, IsToken, UserVarMacro;
    UserVarIs(session);
    forall name: string
      ensures SessionValue(session, name) in Strings(session)
    {
      StringOf(session, name);
    }
  }

  lemma StringOf(session: S.Slots, name: string)
    ensures SessionValue(session, name) in Strings(session)
  {
    GetFrom(session, name, S.KString, None);
  }

  /** So the end of process_user_vars is foreseen whenever it has one. */
  lemma UserVarsForeseen(session: S.Slots, s: string)
    ensures Foreseen(UserVarMacro(session), |Strings(session)|, s) <==> exists t :: Ends(UserVarMacro(session), s, t)
  {
    hide Foreseen, Ends, IsToken, UserVarMacro, ValuesIn;
    StringsAreValues(session);
    ForeseenExactly(UserVarMacro(session), Strings(session), s);
  }

  /** And that of process_include. */
  lemma IncludesForeseen(assets: map<string, string>, s: string)
    ensures Foreseen(IncludeMacro(assets), Count(assets), s) <==> exists t :: Ends(IncludeMacro(assets), s, t)
  {
    hide Foreseen, Ends, IsToken, IncludeMacro, ValuesIn;
    AssetsAreValues(assets);
    ForeseenExactly(IncludeMacro(assets), assets.Values, s);
  }

  lemma AssetsAreValues(assets: map<string, string>)
    ensures ValuesIn(IncludeMacro(assets), assets.Values)
  {
    hide AssetSymbol, Trim, IncludeMacro, IsToken;
    IncludeIs(assets);
  }

  /**
   * Includes with clean seams: the pass ends if and only if the buffer expands no deeper than there are
   * assets, and then leaves the expansion.
   */
  lemma IncludesEnd(assets: map<string, string>, s: string)
    requires Clean(IncludeMacro(assets), s)
    ensures (exists t :: Ends(IncludeMacro(assets), s, t)) <==> ExpandTo(IncludeMacro(assets), Count(assets), s).Some?
    ensures forall x, t :: ExpandTo(IncludeMacro(assets), Count(assets), s) == Some(x) ==>
              (Ends(IncludeMacro(assets), s, t) <==> t == x.text)
  {
    hide IsToken, Clean, ExpandTo, Ends, IncludeMacro, ValuesIn;
    AssetsAreValues(assets);
    EndsWithinValues(IncludeMacro(assets), assets.Values, s);
    if ExpandTo(IncludeMacro(assets), Count(assets), s).Some? {
      NestedPass(IncludeMacro(assets), Count(assets), s);
    }
  }

  /** Assets that include each other in a ring, of whatever length: a page that leads there is never done. */
  lemma IncludeCycleNeverEnds(assets: map<string, string>, cycle: set<string>, s: string)
    requires LeadsToRing(assets, cycle, s)
    ensures !exists t :: Ends(IncludeMacro(assets), s, t)
  {
    hide IsToken, Clean, Ends, IncludeMacro, Circles, AllUnstuck;
    CycleNeverEnds(IncludeMacro(assets), cycle, s);
  }

  lemma IncludeCycleNotForeseen(assets: map<string, string>, cycle: set<string>, s: string)
    requires LeadsToRing(assets, cycle, s)
    ensures !Foreseen(IncludeMacro(assets), Count(assets), s)
  {
    hide IsToken, Ends, IncludeMacro, Foreseen, LeadsToRing;
    IncludeCycleNeverEnds(assets, cycle, s);
    IncludesForeseen(assets, s);
  }

  ghost predicate LeadsToRing(assets: map<string, string>, cycle: set<string>, s: string) {
    hide IncludeMacro, IsToken;
    var m := IncludeMacro(assets);
    Clean(m, s) && AllUnstuck(m, s) && Circles(m, cycle, s)
  }

  /** The assets as documents. */
  function Rendered(docs: map<string, Doc>): map<string, string> {
    map symbol | symbol in docs :: Render(TOK_INCLUDE, docs[symbol])
  }

  function Named(docs: map<string, Doc>): string -> Doc {
    argument =>
      var symbol := AssetSymbol(Trim(argument));
      if symbol in docs then docs[symbol] else Last([])
  }

  /**
   * A page that is a document, as is everything it reaches, with includes that all resolve: the results
   * are the recursive substitutions of documents, and no include is left.
   */
  lemma IncludesSubstitute(docs: map<string, Doc>, page: Doc)
    requires CleanDocs(IncludeMacro(Rendered(docs)), Named(docs), page)
    ensures var (m, s) := (IncludeMacro(Rendered(docs)), Render(TOK_INCLUDE, page));
            && (forall t :: Ends(m, s, t) <==> Substitutes(Named(docs), page, t))
            && (forall t :: Ends(m, s, t) ==> Free(t, TOK_INCLUDE))
  {
    hide IsToken, CleanDocs, Ends, Substitutes, AssetSymbol, Free, Render, DocValues, Trim, IncludeMacro, Rendered, Named;
    IncludeIs(Rendered(docs));
    RenderedValues(docs);
    NestedDocument(IncludeMacro(Rendered(docs)), Named(docs), page);
  }

  lemma RenderedValues(docs: map<string, Doc>)
    ensures DocValues(IncludeMacro(Rendered(docs)), Named(docs))
  {
    hide Asset, Named, Rendered, Render, Trim, IncludeMacro, IsToken;
    IncludeIs(Rendered(docs));
    forall name: string | Asset(Rendered(docs), Trim(name)).Some?
      ensures Asset(Rendered(docs), Trim(name)).value == Render(TOK_INCLUDE, Named(docs)(name))
    {
      NamedAsset(docs, name);
    }
  }

  lemma NamedAsset(docs: map<string, Doc>, name: string)
    requires Asset(Rendered(docs), Trim(name)).Some?
    ensures Asset(Rendered(docs), Trim(name)).value == Render(TOK_INCLUDE, Named(docs)(name))
  {
    hide AssetSymbol, Render, Trim;
  }
}
