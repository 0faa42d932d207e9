/** The comment pass: everything between an opener and a closer goes. */
module Comment {
  import opened CString
  import opened Buffers

  const OPEN := "@/*"
  const CLOSE := "*/@"

  datatype Round = Done | Reversed | Again(text: string)

  /**
   * One round. The first closer is assumed to come after the first opener; when it comes before,
   * the length of the span to cut is zero or wraps around, and the round goes astray.
   */
  function CommentRound(s: string): (r: Round)
    ensures r.Again? ==> |r.text| < |s|
  {
    match Find(s, OPEN)
    case None => Done
    case Some(b) =>
      match Find(s, CLOSE)
      case None => Done
      case Some(e) =>
        if e + |CLOSE| <= b then Reversed
        else Again(s[..b] + s[e + |CLOSE|..])
  }

  datatype Outcome = Finished(text: string) | Astray(text: string)

  /** The whole loop: each round is strictly shorter, so it stops on every buffer. */
  function CommentPass(s: string): (o: Outcome)
    ensures o.Finished? ==> Find(o.text, OPEN).None? || Find(o.text, CLOSE).None?
    ensures |o.text| <= |s|
    decreases |s|
  {
    match CommentRound(s)
    case Done => Finished(s)
    case Reversed => Astray(s)
    case Again(t) => CommentPass(t)
  }

  /** A document of text and comment blocks. */
  datatype Doc = Last(text: string) | Then(text: string, comment: string, rest: Doc)

  function Render(d: Doc): string {
    match d
    case Last(t) => t
    case Then(t, c, rest) => t + OPEN + c + CLOSE + Render(rest)
  }

  function Texts(d: Doc): string {
    match d
    case Last(t) => t
    case Then(t, _, rest) => t + Texts(rest)
  }

  /** No closer appears before a block's own: not in the text so far, not at its seam, not inside. */
  ghost predicate ClosersInPlace(pre: string, d: Doc)
    decreases d
  {
    match d
    case Last(_) => true
    case Then(t, c, rest) => Free(pre + t + OPEN + c + "*/", CLOSE) && ClosersInPlace(pre + t, rest)
  }

  /** The first opener and the first closer of a block behind clean text are its own. */
  lemma BlockRound(x: string, c: string, rest: string)
    requires Free(x, OPEN) && Free(x + OPEN + c + "*/", CLOSE)
    ensures CommentRound(x + OPEN + c + CLOSE + rest) == Again(x + rest)
  {
    hide Free, OccursAt, Find, CommentRound;
    BlockOpener(x, c, rest);
    FirstCloser(x + OPEN + c, rest);
    CutBlock(x, c, rest);
  }

  lemma BlockOpener(x: string, c: string, rest: string)
    requires Free(x, OPEN)
    ensures Find(x + OPEN + c + CLOSE + rest, OPEN) == Some(|x|)
  {
    hide Free, OccursAt, Find;
    OpenerFirst(c + CLOSE + rest);
    FindAtSeam(x, OPEN + (c + CLOSE + rest), OPEN);
    assert x + (OPEN + (c + CLOSE + rest)) == x + OPEN + c + CLOSE + rest;
  }

  lemma CutBlock(x: string, c: string, rest: string)
    requires var s := x + OPEN + c + CLOSE + rest; Find(s, OPEN) == Some(|x|) && Find(s, CLOSE) == Some(|x + OPEN + c|)
    ensures CommentRound(x + OPEN + c + CLOSE + rest) == Again(x + rest)
  {
    hide Find;
    var s := x + OPEN + c + CLOSE + rest;
    assert s[..|x|] == x && s[|x + OPEN + c| + |CLOSE|..] == rest;
  }

  lemma FirstCloser(z: string, rest: string)
    requires Free(z + "*/", CLOSE)
    ensures Find(z + CLOSE + rest, CLOSE) == Some(|z|)
  {
    var s := z + CLOSE + rest;
    forall i: nat | i < |z|
      ensures !OccursAt(s, CLOSE, i)
    {
      assert s[i..i + 3] == (z + "*/")[i..i + 3] || i + 3 > |z| + 2;
      assert !OccursAt(z + "*/", CLOSE, i);
    }
    assert s[|z|..|z| + 3] == CLOSE;
    FindIs(s, CLOSE, |z|);
  }

  /** No opener in the text so far; behind the last block there may be one, if no closer is left. */
  ghost predicate OpenersGone(pre: string, d: Doc)
    decreases d
  {
    match d
    case Last(t) => Free(pre + t, OPEN) || Free(pre + t, CLOSE)
    case Then(t, _, rest) => Free(pre + t, OPEN) && OpenersGone(pre + t, rest)
  }

  /** The pass on a document behind text already cleaned. */
  lemma {:induction false} DocPass(pre: string, d: Doc)
    requires OpenersGone(pre, d) && ClosersInPlace(pre, d)
    ensures CommentPass(pre + Render(d)) == Finished(pre + Texts(d))
    decreases d
  {
    hide OccursAt, CommentRound, Free;
    match d
    case Last(t) => NothingOpen(pre + t);
    case Then(t, c, rest) =>
      assert pre + Texts(d) == pre + t + Texts(rest);
      assert pre + Render(d) == pre + t + OPEN + c + CLOSE + Render(rest);
      BlockRound(pre + t, c, Render(rest));
      DocPass(pre + t, rest);
  }

  lemma NothingOpen(s: string)
    requires Free(s, OPEN) || Free(s, CLOSE)
    ensures CommentRound(s) == Done
  {
    hide Free;
  }

  /**
   * Stripping a document leaves exactly its texts, when they form no opener, but for one without a closer
   * behind the last block, and no closer stands before a block's own.
   */
  lemma StripsComments(d: Doc)
    requires OpenersGone([], d) && ClosersInPlace([], d)
    ensures CommentPass(Render(d)) == Finished(Texts(d))
  {
    assert [] + Texts(d) == Texts(d) && [] + Render(d) == Render(d);
    DocPass([], d);
  }

  /** An opener that shares the slash of the closer before it: just that char goes. */
  lemma SharedSlash(t: string, rest: string)
    requires Free(t + "*/", OPEN) && Free(t + "*/", CLOSE)
    ensures CommentRound(t + "*/@/*" + rest) == Again(t + "*/" + "/*" + rest)
  {
    hide Free, OccursAt, Find;
    var s := t + "*/@/*" + rest;
    OpenerFirst(rest);
    FindAtSeam(t + "*/", OPEN + rest, OPEN);
    assert t + "*/" + (OPEN + rest) == s;
    FirstCloser(t, "/*" + rest);
    assert t + CLOSE + ("/*" + rest) == s;
    assert s[..|t| + 2] == t + "*/" && s[|t| + 3..] == "/*" + rest;
    assert t + "*/" + ("/*" + rest) == t + "*/" + "/*" + rest;
  }

  /** A closer before the first opener: nothing at all is stripped. */
  lemma StrayCloser(t: string, u: string, rest: string)
    requires Free(t + CLOSE + u, OPEN)
    ensures CommentPass(t + CLOSE + u + (OPEN + rest)) == Astray(t + CLOSE + u + (OPEN + rest))
  {
    hide Free, OccursAt, Find, CommentRound;
    var (x, y) := (t + CLOSE + u, OPEN + rest);
    OpenerFirst(rest);
    FindAtSeam(x, y, OPEN);
    CloserAt(t, u + y);
    assert x + y == t + CLOSE + (u + y);
    RunsAstray(x + y, |t|, |x|);
  }

  lemma RunsAstray(s: string, e: nat, b: nat)
    requires Find(s, OPEN) == Some(b) && Find(s, CLOSE).Some? && Find(s, CLOSE).value <= e && e + 3 <= b
    ensures CommentPass(s) == Astray(s)
  {
    hide Free, OccursAt, Find;
  }

  lemma OpenerFirst(rest: string)
    ensures Find(OPEN + rest, OPEN) == Some(0)
  {
    assert (OPEN + rest)[0..3] == OPEN;
    FindIs(OPEN + rest, OPEN, 0);
  }

  lemma CloserAt(t: string, u: string)
    ensures Find(t + CLOSE + u, CLOSE).Some? && Find(t + CLOSE + u, CLOSE).value <= |t|
  {
    assert (t + CLOSE + u)[|t|..|t| + 3] == CLOSE;
    assert OccursAt(t + CLOSE + u, CLOSE, |t|);
  }

  /** A round takes out just the block behind clean text if and only if no closer stands before its own. */
  lemma BlockRoundExactly(x: string, c: string, rest: string)
    requires Free(x, OPEN)
    ensures CommentRound(x + OPEN + c + CLOSE + rest) == Again(x + rest) <==> Free(x + OPEN + c + "*/", CLOSE)
  {
    hide Free, OccursAt, CommentRound;
    var z := x + OPEN + c;
    if Free(z + "*/", CLOSE) {
      BlockRound(x, c, rest);
    } else {
      EarlyCloser(z, rest);
      BlockOpener(x, c, rest);
      CutsLess(z + CLOSE + rest, |x|);
    }
  }

  lemma EarlyCloser(z: string, rest: string)
    requires !Free(z + "*/", CLOSE)
    ensures Find(z + CLOSE + rest, CLOSE).Some? && Find(z + CLOSE + rest, CLOSE).value < |z|
  {
    var i: nat :| OccursAt(z + "*/", CLOSE, i);
    var s := z + CLOSE + rest;
    assert s[..|z| + 2] == z + "*/";
    assert s[i..i + 3] == s[..|z| + 2][i..i + 3];
    assert OccursAt(s, CLOSE, i);
  }

  lemma CutsLess(s: string, b: nat)
    requires Find(s, OPEN) == Some(b) && b <= |s| && Find(s, CLOSE).Some?
    ensures CommentRound(s).Again? ==> |CommentRound(s).text| == b + |s| - Find(s, CLOSE).value - 3
  {
    hide Find, Free;
  }

  /** process_comment; false when a round would go astray, which is where the model stops. */
  method ProcessComment(buffer: KoreBuf) returns (finished: bool)
    requires buffer.Valid()
    modifies buffer
    ensures buffer.Valid() && (buffer.data == old(buffer.data) || fresh(buffer.data))
    ensures CommentPass(old(buffer.Contents())) ==
            if finished then Finished(buffer.Contents()) else Astray(buffer.Contents())
  {
    hide Find, CommentPass;
    while true
      invariant buffer.Valid() && (buffer.data == old(buffer.data) || fresh(buffer.data))
      invariant CommentPass(old(buffer.Contents())) == CommentPass(buffer.Contents())
      decreases buffer.offset
    {
      ghost var s := buffer.Contents();
      PassStep(s);
      var begin := Find(buffer.data[..buffer.offset], OPEN);
      if begin.None? {
        return true;
      }
      var end := Find(buffer.data[..buffer.offset], CLOSE);
      if end.None? {
        return true;
      }
      if end.value + |CLOSE| <= begin.value {
        return false;
      }
      FindBounds(s);
      buffer.ReplaceString(begin.value, end.value - begin.value + |CLOSE|, []);
      assert s[..begin.value] + [] + s[end.value + |CLOSE|..] == s[..begin.value] + s[end.value + |CLOSE|..];
    }
  }

  lemma FindBounds(s: string)
    ensures Find(s, OPEN).Some? ==> Find(s, OPEN).value + |OPEN| <= |s|
    ensures Find(s, CLOSE).Some? ==> Find(s, CLOSE).value + |CLOSE| <= |s|
  {
  }

  lemma PassStep(s: string)
    ensures CommentPass(s) ==
            match CommentRound(s) case Done => Finished(s) case Reversed => Astray(s) case Again(t) => CommentPass(t)
  {
  }
}
