/**
 * Passes whose values bring in macros of their own: the rescanning loop against the recursive
 * expansion in which every value is expanded where it stands.
 */
module Nested {
  import opened CString
  import opened Macro

  /** The text before no macro ends in a proper prefix of the token. */
  ghost predicate CleanSeams(m: Macro, s: string)
    decreases |s|
  {
    hide Parse;
    match Parse(m, s)
    case Known(before, _, _, after) => NoPartial(before, m.token) && CleanSeams(m, after)
    case _ => true
  }

  // ---------------------------------------------------------------- what a text reaches

  /** The names of the macros of a text, up to the first one that would stop the pass. */
  ghost function Refs(m: Macro, s: string): set<string>
    decreases |s|
  {
    hide Parse;
    match Parse(m, s)
    case Known(_, name, _, after) => {name} + Refs(m, after)
    case _ => {}
  }

  lemma RefStep(m: Macro, s: string, r: string)
    requires r in Refs(m, s)
    ensures Parse(m, s).Known? && (r == Parse(m, s).name || r in Refs(m, Parse(m, s).after))
  {
    hide Parse, IsToken;
  }

  lemma RefsBehind(m: Macro, s: string)
    requires Parse(m, s).Known?
    ensures Parse(m, s).name in Refs(m, s) && Refs(m, Parse(m, s).after) <= Refs(m, s)
  {
    hide Parse, IsToken;
  }

  /** From the text s to the value v in k references. */
  ghost predicate Leads(m: Macro, s: string, v: string, k: nat)
    decreases k
  {
    if k == 0 then v == s
    else exists r :: r in Refs(m, s) && m.lookup(r).Some? && Leads(m, m.lookup(r).value, v, k - 1)
  }

  ghost predicate Reached(m: Macro, s: string, v: string)
  {
    exists k: nat :: Leads(m, s, v, k)
  }

  lemma ReachedItself(m: Macro, s: string)
    ensures Reached(m, s, s)
  {
    assert Leads(m, s, s, 0);
  }

  /** What a value reaches is reached by the texts that refer to it. */
  lemma ReachedThrough(m: Macro, s: string, r: string, v: string)
    requires r in Refs(m, s) && m.lookup(r).Some? && Reached(m, m.lookup(r).value, v)
    ensures Reached(m, s, v)
  {
    hide Refs, IsToken;
    var k: nat :| Leads(m, m.lookup(r).value, v, k);
    assert Leads(m, s, v, k + 1);
  }

  /** And what is reached in the end refers to what is reached. */
  lemma {:induction false} ReachedNext(m: Macro, s: string, v: string, k: nat, r: string)
    requires Leads(m, s, v, k) && r in Refs(m, v) && m.lookup(r).Some?
    ensures Leads(m, s, m.lookup(r).value, k + 1)
    decreases k
  {
    hide Refs, IsToken;
    if k == 0 {
      assert Leads(m, m.lookup(r).value, m.lookup(r).value, 0);
    } else {
      var q :| q in Refs(m, s) && m.lookup(q).Some? && Leads(m, m.lookup(q).value, v, k - 1);
      ReachedNext(m, m.lookup(q).value, v, k - 1, r);
    }
  }

  /** The text behind a macro reaches nothing but what the whole text does, itself aside. */
  lemma ReachedBehind(m: Macro, s: string, v: string)
    requires Parse(m, s).Known? && Reached(m, Parse(m, s).after, v)
    ensures v == Parse(m, s).after || Reached(m, s, v)
  {
    hide Refs, IsToken, Parse;
    RefsBehind(m, s);
    var after := Parse(m, s).after;
    var k: nat :| Leads(m, after, v, k);
    if k > 0 {
      var r :| r in Refs(m, after) && m.lookup(r).Some? && Leads(m, m.lookup(r).value, v, k - 1);
      assert Leads(m, s, v, k);
    }
  }

  /** The text and everything it reaches have clean seams. */
  ghost predicate Clean(m: Macro, s: string)
  {
    forall v :: Reached(m, s, v) ==> CleanSeams(m, v)
  }

  lemma CleanParts(m: Macro, s: string)
    requires Clean(m, s)
    ensures CleanSeams(m, s)
    ensures Parse(m, s).Known? ==> Clean(m, Parse(m, s).value) && Clean(m, Parse(m, s).after)
  {
    hide Refs, IsToken, Parse, Reached;
    ReachedItself(m, s);
    if Parse(m, s).Known? {
      var f := Parse(m, s);
      RefsBehind(m, s);
      forall v | Reached(m, f.value, v)
        ensures CleanSeams(m, v)
      {
        ReachedThrough(m, s, f.name, v);
      }
      forall v | Reached(m, f.after, v)
        ensures CleanSeams(m, v)
      {
        ReachedBehind(m, s, v);
      }
    }
  }

  // ---------------------------------------------------------------- recursive expansion

  datatype Expansion = Expansion(text: string, stopped: bool)

  /** A macro with its value expanded, and what follows it. */
  function Combine(before: string, inner: Option<Expansion>, after: string, rest: Option<Expansion>): Option<Expansion> {
    match inner
    case None => None
    case Some(x) =>
      if x.stopped then Some(Expansion(before + x.text + [NUL] + after, true))
      else match rest
        case None => None
        case Some(y) => Some(Expansion(before + x.text + [NUL] + y.text, y.stopped))
  }

  /**
   * Recursive expansion: each macro becomes its expanded value and a NUL. The first malformed or
   * unknown macro, at any depth, stops the pass and leaves what follows as it is. There is no
   * expansion when values nest deeper than d.
   */
  ghost function ExpandTo(m: Macro, d: nat, s: string): Option<Expansion>
    decreases d, |s|
  {
    hide Parse, IsToken, Combine;
    match Parse(m, s)
    case Missing => Some(Expansion(s, false))
    case Stuck(cut) => Some(Expansion(cut, true))
    case Known(before, _, v, after) =>
      if d == 0 then None else Combine(before, ExpandTo(m, d - 1, v), after, ExpandTo(m, d, after))
  }

  /** The expansions an expansion is made of. */
  lemma Inside(m: Macro, d: nat, s: string)
    requires Parse(m, s).Known? && ExpandTo(m, d, s).Some?
    ensures var f := Parse(m, s);
            && d > 0 && ExpandTo(m, d - 1, f.value).Some?
            && (!ExpandTo(m, d - 1, f.value).value.stopped ==> ExpandTo(m, d, f.after).Some?)
            && ExpandTo(m, d, s).value.stopped ==
               (ExpandTo(m, d - 1, f.value).value.stopped || ExpandTo(m, d, f.after).value.stopped)
            && ExpandTo(m, d, s) == Combine(f.before, ExpandTo(m, d - 1, f.value), f.after, ExpandTo(m, d, f.after))
  {
    hide Parse, IsToken, Combine;
    var Known(before, _, v, after) := Parse(m, s);
    Needed(before, ExpandTo(m, d - 1, v), after, ExpandTo(m, d, after));
  }

  lemma From(m: Macro, d: nat, s: string)
    requires Parse(m, s).Known? && d > 0
    ensures var f := Parse(m, s);
            ExpandTo(m, d, s) == Combine(f.before, ExpandTo(m, d - 1, f.value), f.after, ExpandTo(m, d, f.after))
  {
    hide Parse, IsToken, Combine;
  }

  lemma NoneInside(m: Macro, d: nat, s: string)
    requires !Parse(m, s).Known?
    ensures ExpandTo(m, d, s).Some? && forall e: nat :: ExpandTo(m, e, s) == ExpandTo(m, d, s)
    ensures ExpandTo(m, d, s).value.stopped == Parse(m, s).Stuck?
  {
    hide Parse, IsToken, Combine;
  }

  /** A deeper bound changes nothing once there is an expansion. */
  lemma {:induction false} Deeper(m: Macro, d: nat, e: nat, s: string)
    requires d <= e && ExpandTo(m, d, s).Some?
    ensures ExpandTo(m, e, s) == ExpandTo(m, d, s)
    decreases d, |s|
  {
    hide Parse, IsToken, Combine, ExpandTo;
    match Parse(m, s)
    case Known(before, _, v, after) =>
      Inside(m, d, s);
      From(m, e, s);
      Deeper(m, d - 1, e - 1, v);
      if ExpandTo(m, d, after).Some? {
        Deeper(m, d, e, after);
      } else {
        Unneeded(before, ExpandTo(m, d - 1, v), after, ExpandTo(m, d, after), ExpandTo(m, e, after));
      }
    case _ => NoneInside(m, d, s);
  }

  lemma Needed(before: string, x: Option<Expansion>, after: string, y: Option<Expansion>)
    requires Combine(before, x, after, y).Some?
    ensures x.Some? && (!x.value.stopped ==> y.Some?)
    ensures Combine(before, x, after, y).value.stopped == (x.value.stopped || y.value.stopped)
  {
  }

  lemma Unneeded(before: string, x: Option<Expansion>, after: string, y: Option<Expansion>, z: Option<Expansion>)
    requires x.Some? && x.value.stopped
    ensures Combine(before, x, after, y) == Combine(before, x, after, z)
  {
  }

  lemma NoPartialJoin(x: string, y: string, token: string)
    requires NoPartial(x, token) && NoPartial(y, token)
    ensures NoPartial(x + y, token)
  {
    var t := x + y;
    forall k | 0 < k < |token| && k <= |t|
      ensures t[|t| - k..] != token[..k]
    {
      if k <= |y| {
        assert t[|t| - k..] == y[|y| - k..];
      } else {
        var j := k - |y|;
        assert t[|t| - k..][..j] == x[|x| - j..];
        assert token[..k][..j] == token[..j];
      }
    }
  }

  lemma SealedPiece(m: Macro, pre: string, s: string)
    requires Sealed(pre, m.token) && CleanSeams(m, s) && Parse(m, s).Known?
    ensures Sealed(pre + Parse(m, s).before, m.token)
  {
    hide Parse, OccursAt, Free, IsToken, NoPartial;
    var before := Parse(m, s).before;
    BeforeIsFree(m, s);
    FreeParts(pre, before, m.token);
    NoPartialJoin(pre, before, m.token);
  }

  lemma SealedAfterNul(m: Macro, x: string)
    requires Free(x, m.token)
    ensures Sealed(x + [NUL], m.token)
  {
    forall i: nat
      ensures !OccursAt(x + [NUL], m.token, i)
    {
      if i + |m.token| <= |x| {
        assert (x + [NUL])[i..i + |m.token|] == x[i..i + |m.token|];
        assert !OccursAt(x, m.token, i);
      } else if i + |m.token| == |x| + 1 {
        assert (x + [NUL])[i..i + |m.token|][|m.token| - 1] == NUL;
      }
    }
    SealedByNul(x, m.token);
  }

  /** The state of the loop once the piece s is done. */
  ghost predicate WorkedOff(m: Macro, pre: string, s: string, post: string, n: nat, x: Expansion)
  {
    var t := Within(pre, x.text, post);
    Run(m, Within(pre, s, post), n) == (if x.stopped then Halt(t) else Again(t))
  }

  /** The loop works through a piece as the recursive expansion does, whatever stands around it. */
  lemma {:induction false} NestedRun(m: Macro, d: nat, pre: string, s: string, post: string) returns (n: nat)
    requires ExpandTo(m, d, s).Some? && Clean(m, s)
    requires Sealed(pre, m.token) && (post == [] || post[0] == NUL)
    ensures var x := ExpandTo(m, d, s).value;
            WorkedOff(m, pre, s, post, n, x) && (!x.stopped ==> Free(pre + x.text, m.token))
    decreases d, |s|
  {
    hide Sealed, Parse, OccursAt, Free, IsToken, Clean, Within, NoPartial;
    match Parse(m, s)
    case Missing =>
      n := 0;
      FreeParts(pre, s, m.token);
    case Stuck(cut) =>
      ParseInside(m, pre, s, post);
      n := 1;
      assert Run(m, Within(pre, s, post), 1) == MacroRound(m, Within(pre, s, post));
    case Known(before, name, v, after) =>
      n := NestedStep(m, d, pre, s, post);
  }

  lemma {:induction false} NestedStep(m: Macro, d: nat, pre: string, s: string, post: string) returns (n: nat)
    requires ExpandTo(m, d, s).Some? && Parse(m, s).Known? && Clean(m, s)
    requires Sealed(pre, m.token) && (post == [] || post[0] == NUL)
    ensures var x := ExpandTo(m, d, s).value;
            WorkedOff(m, pre, s, post, n, x) && (!x.stopped ==> Free(pre + x.text, m.token))
    decreases d, |s|, 0
  {
    hide Sealed, Parse, OccursAt, Free, IsToken, Clean, Within, NoPartial;
    var Known(before, name, v, after) := Parse(m, s);
    IntoValue(m, pre, s, post);
    var k := NestedRun(m, d - 1, pre + before, v, [NUL] + (after + post));
    var inner := ExpandTo(m, d - 1, v).value;
    RunAppend(m, Within(pre, s, post), 1, k);
    n := 1 + k;
    if inner.stopped {
      Leave(pre, before, inner.text, after, post);
    } else {
      SealedAfterNul(m, pre + before + inner.text);
      var j := NestedRun(m, d, pre + before + inner.text + [NUL], after, post);
      Resume(pre, before, inner.text, after, post, ExpandTo(m, d, after).value.text);
      RunAppend(m, Within(pre, s, post), n, j);
      n := n + j;
    }
  }

  /** The first round on a piece leads to the loop on the value it brings in. */
  lemma IntoValue(m: Macro, pre: string, s: string, post: string)
    requires Parse(m, s).Known? && Clean(m, s)
    requires Sealed(pre, m.token) && (post == [] || post[0] == NUL)
    ensures var f := Parse(m, s);
            && Sealed(pre + f.before, m.token) && Clean(m, f.value) && Clean(m, f.after)
            && Run(m, Within(pre, s, post), 1) == Again(Within(pre + f.before, f.value, [NUL] + (f.after + post)))
  {
    hide Sealed, Parse, OccursAt, Free, IsToken, Clean, Within, NoPartial;
    var Known(before, name, v, after) := Parse(m, s);
    CleanParts(m, s);
    ParseInside(m, pre, s, post);
    SealedPiece(m, pre, s);
    Enter(pre + before, v, after + post);
    RunOnce(m, Within(pre, s, post));
  }

  lemma RunOnce(m: Macro, s: string)
    ensures Run(m, s, 1) == MacroRound(m, s)
  {
    hide MacroRound;
  }

  /** Conversely, a loop that stops within n rounds has expanded the piece, no deeper than n. */
  lemma {:induction false} RunExpands(m: Macro, n: nat, pre: string, s: string, post: string)
    requires Run(m, Within(pre, s, post), n).Halt? && Clean(m, s)
    requires Sealed(pre, m.token) && (post == [] || post[0] == NUL)
    ensures ExpandTo(m, n, s).Some?
    decreases n
  {
    hide Sealed, Parse, OccursAt, Free, IsToken, Clean, CleanSeams, Within, NoPartial, MacroRound;
    if Parse(m, s).Known? {
      var Known(before, name, v, after) := Parse(m, s);
      var tail := [NUL] + (after + post);
      IntoValue(m, pre, s, post);
      RunAppend(m, Within(pre, s, post), 1, n - 1);
      RunExpands(m, n - 1, pre + before, v, tail);
      var inner := ExpandTo(m, n - 1, v).value;
      if !inner.stopped {
        var k := NestedRun(m, n - 1, pre + before, v, tail);
        Resume(pre, before, inner.text, after, post, []);
        var x := Within(pre + before, v, tail);
        if k >= n - 1 {
          RunAppend(m, x, n - 1, k - (n - 1));
          assert false;
        }
        RunAppend(m, x, k, n - 1 - k);
        SealedAfterNul(m, pre + before + inner.text);
        RunExpands(m, n - 1 - k, pre + before + inner.text + [NUL], after, post);
        Deeper(m, n - 1 - k, n, after);
      }
    }
  }

  lemma Enter(pre: string, v: string, rest: string)
    ensures pre + v + [NUL] + rest == Within(pre, v, [NUL] + rest)
  {
  }

  lemma Leave(pre: string, before: string, x: string, after: string, post: string)
    ensures Within(pre + before, x, [NUL] + (after + post)) == Within(pre, before + x + [NUL] + after, post)
  {
  }

  lemma Resume(pre: string, before: string, x: string, after: string, post: string, y: string)
    ensures Within(pre + before, x, [NUL] + (after + post)) == Within(pre + before + x + [NUL], after, post)
    ensures Within(pre + before + x + [NUL], y, post) == Within(pre, before + x + [NUL] + y, post)
    ensures pre + before + x + [NUL] + y == pre + (before + x + [NUL] + y)
  {
  }

  /**
   * With clean seams the rescanning pass leaves exactly the recursive expansion; unless a macro
   * stopped it, no token is left.
   */
  lemma NestedPass(m: Macro, d: nat, s: string)
    requires ExpandTo(m, d, s).Some? && Clean(m, s)
    ensures var x := ExpandTo(m, d, s).value;
            (forall t :: Ends(m, s, t) <==> t == x.text) && (!x.stopped ==> Free(x.text, m.token))
  {
    hide *;
    SealedEmpty(m);
    var x := ExpandTo(m, d, s).value;
    var n := NestedRun(m, d, [], s, []);
    EndsFrom(m, s, n, x);
    OnlyResult(m, s, x.text);
    assert [] + x.text == x.text;
  }

  /** The pass ends if and only if there is a recursive expansion at all. */
  lemma EndsIffExpands(m: Macro, s: string)
    requires Clean(m, s)
    ensures (exists t :: Ends(m, s, t)) <==> (exists d: nat :: ExpandTo(m, d, s).Some?)
  {
    hide Run, IsToken, Clean, CleanSeams, Sealed, ExpandTo, Ends;
    if t :| Ends(m, s, t) {
      var d := EndExpands(m, s, t);
    }
    if d: nat :| ExpandTo(m, d, s).Some? {
      NestedPass(m, d, s);
      assert Ends(m, s, ExpandTo(m, d, s).value.text);
    }
  }

  lemma EndExpands(m: Macro, s: string, t: string) returns (d: nat)
    requires Ends(m, s, t) && Clean(m, s)
    ensures ExpandTo(m, d, s).Some?
  {
    hide Run, IsToken, Clean, CleanSeams, Sealed, ExpandTo;
    var n: nat :| Run(m, s, n) == Halt(t);
    assert Within([], s, []) == s;
    SealedEmpty(m);
    RunExpands(m, n, [], s, []);
    d := n;
  }

  lemma EndsFrom(m: Macro, s: string, n: nat, x: Expansion)
    requires WorkedOff(m, [], s, [], n, x)
    requires !x.stopped ==> Free([] + x.text, m.token)
    ensures Ends(m, s, x.text)
  {
    hide IsToken, Free, MacroRound;
    assert [] + x.text == x.text;
    assert Within([], s, []) == s && Within([], x.text, []) == x.text;
    if !x.stopped {
      NothingToDo(m, x.text);
      RunAppend(m, s, n, 1);
    }
  }

  lemma NothingToDo(m: Macro, t: string)
    requires Free(t, m.token)
    ensures Run(m, t, 1) == Halt(t)
  {
    hide OccursAt, IsToken;
  }
}
