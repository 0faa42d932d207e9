/** Each kind of markup, as the author of a view writes it, and what it comes to on a page. */
module Pages {
  import opened CString
  import opened Compat
  import opened Buffers
  import opened Macro
  import opened Parsing
  import opened View
  import F = Functions
  import A = Arguments
  import C = Comment
  import I = Statement
  import T = Template
  import S = Slots

  /** A name without blanks around it. */
  ghost predicate IsName(name: string) {
    name != [] && Trim(name) == name && ')' !in name && ',' !in name && '@' !in name && NulFree(name)
  }

  /** The argument of a macro: a name, with blanks around it or without. */
  ghost predicate Names(argument: string, name: string) {
    argument != [] && ')' !in argument && NulFree(argument) && Trim(argument) == name
  }

  /** An include is its asset, found under a symbol made of the name, and a NUL. */
  lemma Include(assets: map<string, string>, t: string, argument: string, name: string, u: string)
    requires Names(argument, name) && |name| <= 52 && "asset_" + name + "_html" in assets
    requires Free(t, "@include(") && Free(t + assets["asset_" + name + "_html"] + [NUL] + u, "@include(")
    ensures forall x :: Ends(IncludeMacro(assets), t + ("@include(" + (argument + ")" + u)), x) <==>
                        x == t + assets["asset_" + name + "_html"] + [NUL] + u
  {
    hide Free, Trim, AssetSymbol, Ends, IncludeMacro, NulFree, IsToken;
    SymbolOfName(name);
    IncludeIs(assets);
    OneMacro(IncludeMacro(assets), t, argument, u);
  }

  /** A variable is its last string in the session, and a NUL. */
  lemma Variable(session: S.Slots, t: string, argument: string, name: string, u: string)
    requires Names(argument, name) && S.KeyOfKind(session, name, S.KString)
    requires Free(t, "@var(") && Free(t + LastString(session, name) + [NUL] + u, "@var(")
    ensures forall x :: Ends(UserVarMacro(session), t + ("@var(" + (argument + ")" + u)), x) <==>
                        x == t + LastString(session, name) + [NUL] + u
  {
    hide Free, Trim, Ends, UserVarMacro, NulFree, IsToken, LastString, SessionValue, S.KeyOfKind;
    UserVarIs(session);
    UserVarIsLast(session, name);
    OneMacro(UserVarMacro(session), t, argument, u);
  }

  /** A call without arguments is what the function returns for its own name, and a NUL. */
  lemma Call(call: seq<string> -> string, t: string, argument: string, name: string, u: string)
    requires Names(argument, name) && ',' !in name && NulFree(name)
    requires Free(t, "@function(") && Free(t + call([name]) + [NUL] + u, "@function(")
    ensures forall r :: F.FunctionEnds(call, t + ("@function(" + (argument + ")" + u)), r) <==>
                        r == F.Done(t + call([name]) + [NUL] + u)
  {
    hide Free, Trim, F.FunctionEnds, F.FunctionMacro, NulFree, IsToken, Parse, Lead, A.ArgumentsOf, F.FunctionRound, A.KeepsTo;
    var (s, y) := (t + ("@function(" + (argument + ")" + u)), t + call([name]) + [NUL] + u);
    CallIs(call, argument, name);
    ParseWritten(F.FunctionMacro(call), t, argument, u);
    KeepsToName(name, Lead(argument), u);
    F.RoundAgrees(call, s);
    F.NothingCalled(call, y);
    assert F.FunctionRun(call, s, 1) == F.More(y);
    F.RunOn(call, s, 1, 1);
    F.OnlyEnd(call, s, 2);
  }

  lemma CallIs(call: seq<string> -> string, argument: string, name: string)
    requires Names(argument, name) && ',' !in name && NulFree(name)
    ensures F.FunctionMacro(call).token == "@function(" && F.FunctionMacro(call).lookup(argument) == Some(call([name]))
  {
    hide Trim, NulFree;
    A.OneArgument(name);
  }

  lemma KeepsToName(name: string, lead: nat, behind: string)
    requires ',' !in name
    ensures A.KeepsTo(name, lead, behind)
  {
  }

  /** A comment leaves nothing. */
  lemma Commented(t: string, c: string, u: string)
    requires Free(t + u, "@/*") && Free(t, "@/*") && Free(t + "@/*" + c + "*/", "*/@")
    ensures C.CommentPass(t + "@/*" + c + "*/@" + u) == C.Finished(t + u)
  {
    hide Free, C.CommentRound;
    C.BlockRound(t, c, u);
    C.NothingOpen(t + u);
  }

  /** A condition that holds leaves a NUL and its body; one that does not leaves nothing; else parts always go. */
  lemma Conditional(vars: string -> int, t: string, name: string, body: string, other: string, u: string)
    requires IsName(name) && vars(name) >= 0 && I.FreeOfMarkers(body) && I.FreeOfMarkers(other)
    requires I.FreeOfMarkers(t) && Free(t + body + u, "@if(") && |name| <= |t| + |u|
    requires I.FreeOfMarkers(t + ([NUL] + body)) && Free(t + ([NUL] + body) + u, "@if(") && Free(t + u, "@if(")
    ensures var kept := if vars(name) != 0 then t + ([NUL] + body) + u else t + u;
            I.Pass(vars, t + "@if(" + name + ")" + body + "@else" + other + "@endif" + u) == I.Stop(kept)
  {
    hide Free, Trim, NulFree, I.FreeOfMarkers, I.Round, Lead, I.Resolved, I.LastText, I.Pass, I.Good, I.Render;
    var d := I.Cond(t, name, body, Some(other), I.Last(u));
    OneConditional(vars, t, name, body, Some(other), u);
    Rendered(t, name, body, other, u);
    I.PassKeepsBodies(vars, d);
  }

  lemma Rendered(t: string, name: string, body: string, other: string, u: string)
    ensures I.Render(I.Cond(t, name, body, Some(other), I.Last(u))) ==
            t + "@if(" + name + ")" + body + "@else" + other + "@endif" + u
  {
    assert t + "@if(" + name + ")" + body + ("@else" + other + "@endif") == t + "@if(" + name + ")" + body + "@else" + other + "@endif";
  }

  lemma RenderedShort(t: string, name: string, body: string, u: string)
    ensures I.Render(I.Cond(t, name, body, None, I.Last(u))) == t + "@if(" + name + ")" + body + "@endif" + u
  {
  }

  /** The same without an else part, when the name stands at its bracket and so no later else is within reach. */
  lemma ShortConditional(vars: string -> int, t: string, name: string, body: string, u: string)
    requires IsName(name) && vars(name) >= 0 && I.FreeOfMarkers(body)
    requires I.FreeOfMarkers(t) && |name| <= |t| + |u|
    requires I.FreeOfMarkers(t + ([NUL] + body)) && Free(t + ([NUL] + body) + u, "@if(") && Free(t + u, "@if(")
    ensures var kept := if vars(name) != 0 then t + ([NUL] + body) + u else t + u;
            I.Pass(vars, t + "@if(" + name + ")" + body + "@endif" + u) == I.Stop(kept)
  {
    hide Free, Trim, NulFree, I.FreeOfMarkers, I.Round, Lead, I.Resolved, I.LastText, I.Pass, I.Good, I.Render;
    var d := I.Cond(t, name, body, None, I.Last(u));
    OneConditional(vars, t, name, body, None, u);
    RenderedShort(t, name, body, u);
    I.PassKeepsBodies(vars, d);
  }

  lemma OneConditional(vars: string -> int, t: string, name: string, body: string, other: Option<string>, u: string)
    requires IsName(name) && vars(name) >= 0 && I.FreeOfMarkers(body) && (other.Some? ==> I.FreeOfMarkers(other.value))
    requires I.FreeOfMarkers(t) && |name| <= |t| + |u| && I.FreeOfMarkers(t + ([NUL] + body))
    ensures var d := I.Cond(t, name, body, other, I.Last(u));
            && I.Good(vars, [], d) && I.FreeOfMarkers(I.Resolved(vars, d)) && I.LastText(d) == u
            && I.Resolved(vars, d) == (if vars(name) != 0 then t + ([NUL] + body) else t)
  {
    hide Free, NulFree, I.FreeOfMarkers;
    var d := I.Cond(t, name, body, other, I.Last(u));
    NoBlanksBefore(name);
    NameIsFree(name);
    NearEndif(name, u);
    assert t + ([NUL] + body) + [] == t + ([NUL] + body) && t + [] + [] == t && [] + t == t;
  }

  lemma NoBlanksBefore(name: string)
    requires Trim(name) == name
    ensures TrimRight(name) == name && Lead(name) == 0
  {
    hide TrimLeft, TrimRight;
  }

  lemma NameIsFree(name: string)
    requires '@' !in name
    ensures Free(name, "@else") && Free(name, "@endif")
  {
    forall i: nat, pat: string | |pat| > 0 && pat[0] == '@'
      ensures !OccursAt(name, pat, i)
    {
      assert i + |pat| <= |name| ==> name[i..i + |pat|][0] == name[i];
    }
  }

  lemma NearEndif(name: string, u: string)
    requires Lead(name) == 0
    ensures Free(I.Overrun(name, u), "@else")
  {
    hide Lead;
    var v := I.Overrun(name, u);
    assert |v| == 4;
  }

  /** The block of a template stands where its layout yields. */
  lemma Layout(assets: map<string, string>, t: string, name: string, body: string, after: string, u: string, w: string)
    requires IsName(name) && |name| <= 52 && assets == assets["asset_" + name + "_html" := u + "@yield" + w]
    requires NulFree(body) && Free(u, "@yield") && Free(t, "@template(") && Free(t, "@endtemplate") && Free(body, "@endtemplate")
    ensures T.Templated(assets, t + ("@template(" + name + [')'] + body + ("@endtemplate" + after))) == u + body + w
  {
    hide Free, Trim, AssetSymbol, NulFree, T.Templated;
    SymbolOfName(name);
    assert [] + name + [] == name && body[0..] == body;
    T.TemplateRenders(assets, t, [], name, [], body, after, u, w);
  }
}
