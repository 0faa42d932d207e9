/** The template pass: the buffer is swapped for an asset that wraps its template block. */
module Template {
  import opened CString
  import opened Compat
  import opened Buffers
  import opened Macro
  import opened Parsing
  import opened View

  const TOK_TEMPLATE := "@template("
  const TOK_ENDTEMPLATE := "@endtemplate"
  const YIELD := "@yield"

  /** The block starts as many chars behind the name as the whole argument is long, plus one. */
  function Begin(s: string, a: nat, e: nat): (b: nat)
    requires a <= e < |s|
    ensures e < b <= |s|
  {
    Min(|s|, e + 1 + |TrimRight(s[a..e])| - |Trim(s[a..e])|)
  }

  /** What the pass leaves in the buffer. */
  function Templated(assets: map<string, string>, s: string): string {
    hide Find, StrChr, CutArgument, Trim, TrimRight;
    match Locate(TOK_TEMPLATE, s)
    case None => s
    case Some((p, e)) =>
      var a := p + |TOK_TEMPLATE|;
      if a >= e then s
      else
        var (symbol, cut) := (AssetSymbol(Trim(s[a..e])), CutArgument(s, a, e));
        if symbol !in assets then cut
        else
          match BlockText(cut, Begin(s, a, e))
          case None => cut
          case Some(body) => ReplaceFirst(assets[symbol], YIELD, body)
  }

  /** process_template. */
  method ProcessTemplate(buffer: KoreBuf, assets: map<string, string>) returns (result: KoreBuf)
    requires buffer.Valid()
    modifies buffer.data
    ensures result.Valid() && (result == buffer || fresh(result))
    ensures result.Contents() == Templated(assets, old(buffer.Contents()))
  {
    hide Locate, CutArgument, Trim, TrimRight, BlockText, ReplaceFirst, AssetSymbol;
    ghost var s := buffer.Contents();
    var macro := OpenMacro(buffer, TOK_TEMPLATE);
    if macro.None? {
      return buffer;
    }
    var (p, e, name, start) := macro.value;
    var symbol := AssetSymbol(name);
    if symbol !in assets {
      return buffer;
    }
    var begin := Min(buffer.offset, start + (e - (p + |TOK_TEMPLATE|)) + 1);
    var body := CutBlock(buffer, begin);
    if body.None? {
      return buffer;
    }
    result := new KoreBuf(assets[symbol]);
    result.ReplaceFirstString(YIELD, body.value);
  }

  /** The block from begin on, its end marker overwritten; None when there is no end marker. */
  method CutBlock(buffer: KoreBuf, begin: nat) returns (body: Option<string>)
    requires buffer.Valid() && begin <= buffer.offset
    modifies buffer.data
    ensures buffer.Valid() && body == BlockText(old(buffer.Contents()), begin)
    ensures body.None? ==> buffer.Contents() == old(buffer.Contents())
  {
    hide Find, CStr;
    var end := Find(buffer.data[..buffer.offset], TOK_ENDTEMPLATE);
    if end.None? {
      return None;
    }
    FindInText(buffer.Contents(), TOK_ENDTEMPLATE);
    ghost var s := buffer.Contents();
    buffer.data[end.value] := NUL;
    assert buffer.data[..buffer.offset] == s[end.value := NUL];
    return Some(CStr(buffer.data[..buffer.offset], begin));
  }

  lemma FindInText(s: string, pat: string)
    requires pat != [] && Find(s, pat).Some?
    ensures Find(s, pat).value < |s|
  {
  }

  function BlockText(s: string, begin: nat): Option<string>
    requires begin <= |s|
  {
    match Find(s, TOK_ENDTEMPLATE)
    case None => None
    case Some(q) => Some(CStr(s[q := NUL], begin))
  }

  // ---------------------------------------------------------------- a template block

  /** A buffer with one template block. */
  function Block(before: string, argument: string, body: string, after: string): string {
    before + (TOK_TEMPLATE + argument + [')'] + body + (TOK_ENDTEMPLATE + after))
  }

  ghost predicate Blanks(s: string) {
    forall c :: c in s ==> IsSpace(c)
  }

  lemma TrimBlanks(lead: string, name: string, trail: string)
    requires IsName(name) && Blanks(lead) && Blanks(trail)
    ensures TrimRight(lead + name + trail) == lead + name && Trim(lead + name + trail) == name
  {
    assert TrimRight(name) == name;
    TrimRightIs(lead + name + trail, lead + name);
    TrimLeftIs(lead + name, name);
  }

  lemma BlockParts(before: string, argument: string, body: string, after: string)
    ensures var s := Block(before, argument, body, after);
            var (p, a) := (|before|, |before| + |TOK_TEMPLATE|);
            var e := a + |argument|;
            && e < |s| && s[..p] == before && s[p..a] == TOK_TEMPLATE && s[a..e] == argument && s[e] == ')'
            && s[e + 1..] == body + (TOK_ENDTEMPLATE + after)
  {
  }

  lemma BlockLocated(before: string, argument: string, body: string, after: string)
    requires Free(before, TOK_TEMPLATE) && ')' !in argument && NulFree(argument)
    ensures Locate(TOK_TEMPLATE, Block(before, argument, body, after)) ==
            Some((|before|, |before| + |TOK_TEMPLATE| + |argument|))
  {
    hide Find, StrChr, Free, Block, OccursAt;
    var s := Block(before, argument, body, after);
    var (p, a) := (|before|, |before| + |TOK_TEMPLATE|);
    var e := a + |argument|;
    BlockParts(before, argument, body, after);
    TokenFirst(before, s);
    forall i | p <= i < e
      ensures s[i] != ')' && s[i] != NUL
    {
      if i < a { assert s[i] == s[p..a][i - p]; } else { assert s[i] == s[a..e][i - a]; }
    }
    StrChrIs(s, p, ')', e);
  }

  lemma TokenFirst(before: string, s: string)
    requires |before| + |TOK_TEMPLATE| <= |s| && s[..|before|] == before
    requires s[|before|..|before| + |TOK_TEMPLATE|] == TOK_TEMPLATE && Free(before, TOK_TEMPLATE)
    ensures Find(s, TOK_TEMPLATE) == Some(|before|)
  {
    hide Find, Free;
    var y := s[|before|..];
    assert y[..|TOK_TEMPLATE|] == TOK_TEMPLATE && s == before + y;
    assert y[0] == y[..|TOK_TEMPLATE|][0];
    FindIs(y, TOK_TEMPLATE, 0);
    FindAtSeam(before, y, TOK_TEMPLATE);
  }

  /** The text from a token to behind its argument once the argument is cut. */
  function Head(name: string, blanks: nat): string {
    TOK_TEMPLATE + name + Nuls(blanks + 1)
  }

  lemma BlockCut(before: string, argument: string, body: string, after: string)
    ensures var a := |before| + |TOK_TEMPLATE|;
            var (e, name) := (a + |argument|, TrimRight(argument));
            var s := Block(before, argument, body, after);
            && e < |s|
            && CutArgument(s, a, e) ==
               before + Head(name, |argument| - |name|) + body + (TOK_ENDTEMPLATE + after)
  {
    hide TrimRight, Block, Nuls;
    BlockParts(before, argument, body, after);
    var s := Block(before, argument, body, after);
    var (p, a) := (|before|, |before| + |TOK_TEMPLATE|);
    var k := |TrimRight(argument)|;
    Front(s, p, a, a + |argument|, k);
    Regroup(before, TOK_TEMPLATE, TrimRight(argument), Nuls(|argument| - k + 1), body, TOK_ENDTEMPLATE + after);
  }

  lemma Front(s: string, p: nat, a: nat, e: nat, k: nat)
    requires p <= a <= e <= |s| && k <= e - a
    ensures s[..a + k] == s[..p] + s[p..a] + s[a..e][..k]
  {
  }

  lemma Regroup(u: string, v: string, w: string, x: string, y: string, z: string)
    ensures u + v + w + x + (y + z) == u + (v + w + x) + y + z
  {
  }

  /** The first end marker is the one behind the block. */
  lemma EndMarker(before: string, head: string, body: string, after: string)
    requires Free(before, TOK_ENDTEMPLATE) && Free(body, TOK_ENDTEMPLATE)
    requires |head| > 1 && head[0] == '@' && head[1] != 'e' && '@' !in head[1..]
    ensures Find(before + head + body + (TOK_ENDTEMPLATE + after), TOK_ENDTEMPLATE) == Some(|before + head + body|)
  {
    hide OccursAt, Free, Find;
    var (m, rest) := (TOK_ENDTEMPLATE, TOK_ENDTEMPLATE + after);
    assert OccursAt(rest, m, 0) by { MarkerFirst(after); }
    FindIs(rest, m, 0);
    FindAtSeam(body, rest, m);
    HeadPassed(head, body + rest);
    FindAtSeam(before, head + (body + rest), m);
    assert before + head + body + rest == before + (head + (body + rest));
  }

  lemma MarkerFirst(after: string)
    ensures OccursAt(TOK_ENDTEMPLATE + after, TOK_ENDTEMPLATE, 0)
  {
  }

  lemma HeadPassed(head: string, y: string)
    requires |head| > 1 && head[0] == '@' && head[1] != 'e' && '@' !in head[1..] && Find(y, TOK_ENDTEMPLATE).Some?
    ensures Find(head + y, TOK_ENDTEMPLATE) == Some(|head| + Find(y, TOK_ENDTEMPLATE).value)
  {
    hide Find, OccursAt;
    var m := TOK_ENDTEMPLATE;
    forall i: nat
      ensures i < |head| ==> !OccursAt(head + y, m, i)
      ensures i >= |head| ==> (OccursAt(head + y, m, i) <==> OccursAt(y, m, i - |head|))
    {
      if i >= |head| { OccursShift(head, y, m, i - |head|); } else { NotInHead(head, y, i); }
    }
    FindIs(head + y, m, |head| + Find(y, m).value);
  }

  lemma NotInHead(head: string, y: string, i: nat)
    requires |head| > 1 && head[0] == '@' && head[1] != 'e' && '@' !in head[1..] && i < |head|
    ensures !OccursAt(head + y, TOK_ENDTEMPLATE, i)
  {
    var t := head + y;
    if i == 0 {
      assert t[1] == head[1];
    } else {
      assert t[i] == head[1..][i - 1];
    }
    Differs(t, i, TOK_ENDTEMPLATE);
  }

  lemma Differs(t: string, i: nat, m: string)
    requires |m| > 1 && i < |t| && (t[i] != m[0] || (i + 1 < |t| && t[i + 1] != m[1]))
    ensures !OccursAt(t, m, i)
  {
    assert i + |m| <= |t| ==> t[i..i + |m|][0] == t[i] && t[i..i + |m|][1] == t[i + 1];
  }

  /** The end marker once its first char is overwritten, and what follows it. */
  function Remains(after: string): string {
    [NUL] + ("endtemplate" + after)
  }

  /**
   * What is rendered of a block when k chars are skipped: the block from there on, and when it is shorter
   * than that a part of the overwritten marker and of what follows.
   */
  function BlockFrom(body: string, after: string, k: nat): string {
    if k <= |body| then body[k..] else CStr(Remains(after), Min(|Remains(after)|, k - |body|))
  }

  lemma TemplatedAs(assets: map<string, string>, s: string, p: nat, e: nat, body: string)
    requires Locate(TOK_TEMPLATE, s) == Some((p, e)) && p + |TOK_TEMPLATE| < e
    requires var a := p + |TOK_TEMPLATE|;
             AssetSymbol(Trim(s[a..e])) in assets && BlockText(CutArgument(s, a, e), Begin(s, a, e)) == Some(body)
    ensures Templated(assets, s) == ReplaceFirst(assets[AssetSymbol(Trim(s[p + |TOK_TEMPLATE|..e]))], YIELD, body)
  {
    hide Locate, Trim, TrimRight, CutArgument, AssetSymbol, ReplaceFirst, BlockText, Begin;
  }

  /** The asset with what the block comes to in the place of its first yield. */
  lemma TemplateReplaces(assets: map<string, string>, before: string, lead: string, name: string, trail: string,
                         body: string, after: string)
    requires IsName(name) && Blanks(lead) && Blanks(trail) && AssetSymbol(name) in assets
    requires NulFree(body)
    requires Free(before, TOK_TEMPLATE) && Free(before, TOK_ENDTEMPLATE) && Free(body, TOK_ENDTEMPLATE)
    ensures Templated(assets, Block(before, lead + name + trail, body, after)) ==
            ReplaceFirst(assets[AssetSymbol(name)], YIELD, BlockFrom(body, after, |lead|))
  {
    hide Find, Free, Trim, TrimRight, Locate, CutArgument, Block, AssetSymbol, ReplaceFirst, CStr, NulFree, Templated,
      BlockText, Head, Begin, IsName, Blanks;
    var argument := lead + name + trail;
    var s := Block(before, argument, body, after);
    var p := |before|;
    var e := p + |TOK_TEMPLATE| + |argument|;
    BlanksPlain(lead, name, trail);
    BlockLocated(before, argument, body, after);
    BlockParts(before, argument, body, after);
    TrimBlanks(lead, name, trail);
    BlockTextIs(before, lead, name, trail, body, after);
    TemplatedAs(assets, s, p, e, BlockFrom(body, after, |lead|));
  }

  /**
   * The text of the asset before and behind its first yield stays, and between them stands the block, less
   * one char for each blank that the argument opens with; text outside the block is dropped. An asset
   * without a yield is rendered as it is.
   */
  lemma TemplateRenders(assets: map<string, string>, before: string, lead: string, name: string, trail: string,
                        body: string, after: string, u: string, w: string)
    requires IsName(name) && Blanks(lead) && Blanks(trail) && AssetSymbol(name) in assets
    requires NulFree(body) && Free(u, YIELD)
    requires Free(before, TOK_TEMPLATE) && Free(before, TOK_ENDTEMPLATE) && Free(body, TOK_ENDTEMPLATE)
    ensures var page := Templated(assets, Block(before, lead + name + trail, body, after));
            && (assets[AssetSymbol(name)] == u + YIELD + w ==> page == u + BlockFrom(body, after, |lead|) + w)
            && (assets[AssetSymbol(name)] == u ==> page == u)
  {
    hide Free, Block, AssetSymbol, ReplaceFirst, NulFree, Templated, IsName, Blanks, BlockFrom;
    TemplateReplaces(assets, before, lead, name, trail, body, after);
    YieldIsMarker();
    ReplaceMarker(u, YIELD, w, BlockFrom(body, after, |lead|));
  }

  lemma YieldIsMarker()
    ensures IsMarker(YIELD)
  {
  }

  /** Something a template can be called. */
  ghost predicate IsName(name: string) {
    name != [] && Trim(name) == name && ')' !in name && '@' !in name && NulFree(name)
  }

  lemma BlanksPlain(lead: string, name: string, trail: string)
    requires IsName(name) && Blanks(lead) && Blanks(trail)
    ensures ')' !in lead + name + trail && '@' !in lead + name && NulFree(lead + name + trail)
    ensures |lead + name + trail| > 0
  {
    hide Trim;
  }

  lemma HeadShape(name: string, blanks: nat)
    requires '@' !in name
    ensures var head := Head(name, blanks); |head| > 1 && head[0] == '@' && head[1] != 'e' && '@' !in head[1..]
    ensures |Head(name, blanks)| == |TOK_TEMPLATE| + |name| + blanks + 1
  {
    var head := Head(name, blanks);
    assert head[1..] == TOK_TEMPLATE[1..] + name + Nuls(blanks + 1);
    assert '@' !in TOK_TEMPLATE[1..];
  }

  lemma BlockTextIs(before: string, lead: string, name: string, trail: string, body: string, after: string)
    requires IsName(name) && Blanks(lead) && Blanks(trail) && NulFree(body)
    requires Free(before, TOK_ENDTEMPLATE) && Free(body, TOK_ENDTEMPLATE)
    ensures var argument := lead + name + trail;
            var a := |before| + |TOK_TEMPLATE|;
            var s := Block(before, argument, body, after);
            var e := a + |argument|;
            && e < |s| && Begin(s, a, e) <= |s|
            && BlockText(CutArgument(s, a, e), Begin(s, a, e)) == Some(BlockFrom(body, after, |lead|))
  {
    hide Find, Free, Trim, TrimRight, CutArgument, Block, CStr, NulFree, Head, IsName, Blanks, BlockFrom;
    var argument := lead + name + trail;
    var head := Head(lead + name, |trail|);
    TrimBlanks(lead, name, trail);
    BlanksPlain(lead, name, trail);
    HeadShape(lead + name, |trail|);
    BlockParts(before, argument, body, after);
    BlockCut(before, argument, body, after);
    EndMarker(before, head, body, after);
    BodyBetween(before + head, body, after, |lead|);
  }

  lemma BodyBetween(front: string, body: string, after: string, k: nat)
    requires NulFree(body)
    ensures var t := (front + body + (TOK_ENDTEMPLATE + after))[|front + body| := NUL];
            CStr(t, Min(|t|, |front| + k)) == BlockFrom(body, after, k)
  {
    hide CStr, Remains;
    var (t, r) := ((front + body + (TOK_ENDTEMPLATE + after))[|front + body| := NUL], Remains(after));
    Marked(front, body, after);
    if k <= |body| {
      Associate(front, body, r);
      CStrBehind(front, body + r, k);
      EndOfBody(body, r, k);
    } else {
      CStrBehind(front + body, r, Min(|r|, k - |body|));
    }
  }

  lemma Associate(x: string, y: string, z: string)
    ensures x + y + z == x + (y + z) && |x + y + z| == |x| + |y| + |z|
  {
  }

  lemma Marked(front: string, body: string, after: string)
    ensures (front + body + (TOK_ENDTEMPLATE + after))[|front + body| := NUL] == front + body + Remains(after)
    ensures Remains(after) != [] && Remains(after)[0] == NUL
  {
    assert TOK_ENDTEMPLATE == ['@'] + "endtemplate";
    MarkFirst(front + body, '@', "endtemplate" + after);
    assert TOK_ENDTEMPLATE + after == ['@'] + ("endtemplate" + after);
  }

  lemma MarkFirst(x: string, c: char, y: string)
    ensures (x + ([c] + y))[|x| := NUL] == x + ([NUL] + y)
  {
  }

  lemma CStrBehind(x: string, y: string, k: nat)
    requires k <= |y|
    ensures CStr(x + y, |x| + k) == CStr(y, k)
  {
    assert (x + y)[|x| + k..] == y[k..];
  }

  lemma EndOfBody(body: string, r: string, k: nat)
    requires NulFree(body) && k <= |body| && r != [] && r[0] == NUL
    ensures CStr(body + r, k) == body[k..]
  {
    hide CStr;
    assert (body + r)[k..k + |body[k..]|] == body[k..];
    CStrIs(body + r, k, body[k..]);
  }

  /**
   * So the whole block is rendered if and only if the argument opens with no blank, or with so many that
   * the remains of the end marker happen to read like the block.
   */
  lemma WholeBlockRendered(assets: map<string, string>, before: string, lead: string, name: string, trail: string,
                           body: string, after: string, u: string, w: string)
    requires IsName(name) && Blanks(lead) && Blanks(trail) && AssetSymbol(name) in assets
    requires NulFree(body) && Free(u, YIELD) && assets[AssetSymbol(name)] == u + YIELD + w
    requires Free(before, TOK_TEMPLATE) && Free(before, TOK_ENDTEMPLATE) && Free(body, TOK_ENDTEMPLATE)
    ensures Templated(assets, Block(before, lead + name + trail, body, after)) == u + body + w
            <==> lead == [] || (|lead| > |body| && CStr(Remains(after), Min(|Remains(after)|, |lead| - |body|)) == body)
  {
    hide Templated, Block, AssetSymbol, IsName, Free, Blanks, NulFree, CStr, Remains;
    TemplateRenders(assets, before, lead, name, trail, body, after, u, w);
    Middle(u, BlockFrom(body, after, |lead|), w);
    Middle(u, body, w);
    assert lead == [] ==> body[|lead|..] == body;
  }

  lemma Middle(u: string, x: string, v: string)
    ensures |u + x + v| == |u| + |x| + |v| && (u + x + v)[|u|..|u + x + v| - |v|] == x
  {
  }

  /** More blanks than the block has chars: the rest of the end marker is rendered in its place. */
  lemma MarkerRendered()
    ensures BlockFrom("b", "", 3) == "ndtemplate"
  {
    assert Remains("")[2..] == "ndtemplate" && |Remains("")| == 12;
    CStrIs(Remains(""), 2, "ndtemplate");
  }

  // ---------------------------------------------------------------- buffers that are no template

  /** No token, no bracket or no argument: nothing changes. */
  lemma NoTemplate(assets: map<string, string>, s: string, x: string, y: string)
    requires Free(s, TOK_TEMPLATE) && Free(x, TOK_TEMPLATE)
    ensures Templated(assets, s) == s
    ensures Templated(assets, x + (TOK_TEMPLATE + ([')'] + y))) == x + (TOK_TEMPLATE + ([')'] + y))
    ensures StrChr(x + (TOK_TEMPLATE + y), |x|, ')').None? ==> Templated(assets, x + (TOK_TEMPLATE + y)) == x + (TOK_TEMPLATE + y)
  {
    hide Free, StrChr, Trim, TrimRight, CutArgument, AssetSymbol, ReplaceFirst, BlockText, Begin, Find;
    TemplateIsMarker();
    NotFound(s, TOK_TEMPLATE);
    TokenFound(TOK_TEMPLATE, x, [')'] + y);
    TokenFound(TOK_TEMPLATE, x, y);
    ClosedAtOnce(TOK_TEMPLATE, x, y);
  }

  lemma TemplateIsMarker()
    ensures IsMarker(TOK_TEMPLATE) && ')' !in TOK_TEMPLATE
  {
  }

  lemma NotFound(s: string, pat: string)
    requires Free(s, pat)
    ensures Find(s, pat) == None
  {
    hide Free;
  }

  /**
   * An unknown asset, or no end marker: the bracket and the blanks before it become NUL, and all else stays.
   */
  lemma TemplateUnknown(assets: map<string, string>, x: string, argument: string, y: string)
    requires Free(x, TOK_TEMPLATE) && argument != [] && ')' !in argument && NulFree(argument)
    ensures var cut := x + TOK_TEMPLATE + TrimRight(argument) + Nuls(|argument| - |TrimRight(argument)| + 1) + y;
            AssetSymbol(Trim(argument)) !in assets || Free(cut, TOK_ENDTEMPLATE) ==>
              Templated(assets, x + (TOK_TEMPLATE + (argument + [')'] + y))) == cut
  {
    hide Free, StrChr, Trim, TrimRight, CutArgument, AssetSymbol, ReplaceFirst, Begin, Find, NulFree, Locate;
    TemplateIsMarker();
    PlainLocated(TOK_TEMPLATE, x, argument, y);
    WrittenParts(TOK_TEMPLATE, x, argument, y);
    WrittenCut(TOK_TEMPLATE, x, argument, y);
    NotFoundIn(x + TOK_TEMPLATE + TrimRight(argument) + Nuls(|argument| - |TrimRight(argument)| + 1) + y);
  }

  lemma NotFoundIn(s: string)
    ensures Free(s, TOK_ENDTEMPLATE) ==> Find(s, TOK_ENDTEMPLATE) == None
  {
    hide Free;
  }
}
