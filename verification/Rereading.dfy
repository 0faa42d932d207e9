/** When a value of a predefined variable is read again: exactly which ones are, and what that does. */
module Rereading {
  import opened CString
  import opened Buffers
  import opened Predef

  // ---------------------------------------------------------------- counting at signs

  function Ats(s: string): nat {
    if s == [] then 0 else (if s[0] == '@' then 1 else 0) + Ats(s[1..])
  }

  lemma {:induction false} AtsJoin(x: string, y: string)
    ensures Ats(x + y) == Ats(x) + Ats(y)
  {
    if x == [] {
      assert x + y == y;
    } else {
      assert (x + y)[0] == x[0] && (x + y)[1..] == x[1..] + y;
      AtsJoin(x[1..], y);
    }
  }

  lemma {:induction false} NoAts(x: string)
    requires '@' !in x
    ensures Ats(x) == 0
  {
    if x != [] {
      NoAts(x[1..]);
    }
  }

  /** A replacement by a value without at signs changes nothing, or leaves fewer of them: as soon as its key occurs. */
  lemma {:induction false} ReplaceAts(x: string, k: string, v: string)
    requires '@' !in v && k != [] && k[0] == '@'
    ensures ReplaceAll(x, k, v) == x || Ats(ReplaceAll(x, k, v)) < Ats(x)
    ensures (exists p: nat :: OccursAt(x, k, p)) ==> Ats(ReplaceAll(x, k, v)) < Ats(x)
    decreases |x|
  {
    if x == [] {
    } else if k <= x {
      var y := x[|k|..];
      assert x == k + y && k == [k[0]] + k[1..];
      ReplaceAts(y, k, v);
      AtsJoin(k, y);
      AtsJoin(v, ReplaceAll(y, k, v));
      NoAts(v);
    } else {
      ReplaceAts(x[1..], k, v);
      assert x == [x[0]] + x[1..];
      forall p: nat | OccursAt(x, k, p)
        ensures OccursAt(x[1..], k, p - 1)
      {
        OccursBehind(x, k, p);
      }
    }
  }

  lemma OccursBehind(x: string, k: string, p: nat)
    requires OccursAt(x, k, p) && !(k <= x)
    ensures p > 0 && OccursAt(x[1..], k, p - 1)
  {
    OccursInFront(x, k);
    assert x[1..][p - 1..p - 1 + |k|] == x[p..p + |k|];
  }

  lemma OccursInFront(x: string, k: string)
    ensures OccursAt(x, k, 0) <==> k <= x
  {
    assert |k| <= |x| ==> x[0..|k|] == x[..|k|];
  }

  /** Plain values and proper keys from lo up to hi. */
  ghost predicate PlainBetween(bs: seq<Binding>, lo: nat, hi: nat) {
    hi <= |bs| && forall l :: lo <= l < hi ==> '@' !in bs[l].1 && bs[l].0 != [] && bs[l].0[0] == '@'
  }

  lemma {:induction false} LaterAts(s: string, bs: seq<Binding>, lo: nat, hi: nat)
    requires lo <= hi && PlainBetween(bs, lo, hi)
    ensures var (x, y) := (Sequential(s, bs[..lo]), Sequential(s, bs[..hi])); y == x || Ats(y) < Ats(x)
    decreases hi
  {
    hide Sequential, ReplaceAll;
    if lo < hi {
      LaterAts(s, bs, lo, hi - 1);
      OneReplacement(s, bs, hi - 1);
      ReplaceAts(Sequential(s, bs[..hi - 1]), bs[hi - 1].0, bs[hi - 1].1);
    }
  }

  /** A later key that occurs is replaced, or was broken before: either way at signs are lost. */
  lemma LaterKeyOccurs(s: string, bs: seq<Binding>, lo: nat, j: nat, p: nat)
    requires lo <= j < |bs| && PlainBetween(bs, lo, |bs|) && OccursAt(Sequential(s, bs[..lo]), bs[j].0, p)
    ensures Ats(Sequential(s, bs)) < Ats(Sequential(s, bs[..lo]))
  {
    hide Sequential, ReplaceAll, OccursAt;
    LaterAts(s, bs, lo, j);
    OneReplacement(s, bs, j);
    ReplaceAts(Sequential(s, bs[..j]), bs[j].0, bs[j].1);
    LaterAts(s, bs, j + 1, |bs|);
    assert bs[..|bs|] == bs;
  }

  // ---------------------------------------------------------------- one value with at signs

  /** All values but one are free of at signs. */
  ghost predicate PlainBut(bs: seq<Binding>, i: nat) {
    forall l :: 0 <= l < |bs| && l != i ==> '@' !in bs[l].1
  }

  lemma OneAtNoStub(s: string, bs: seq<Binding>)
    requires s != [] && '@' !in s[1..]
    ensures NoStub(s, bs)
  {
    WholePiece(s);
    assert s[0..] == s;
    forall q | 0 < q < |s|
      ensures s[q] != '@'
    {
      assert s[q] == s[1..][q - 1];
    }
  }

  lemma {:induction false} WholePiece(s: string)
    requires s != [] && '@' !in s[1..]
    ensures Piece(s) == s
  {
    if |s| > 1 {
      assert s[1..][0] == s[1] && s[1..] == [s[1]] + s[1..][1..];
      WholePiece(s[1..]);
    }
  }

  /** The key of i, and behind it what completes the later key that starts in its value. */
  lemma Completion(v: string, k: string) returns (p: nat, w: string)
    requires k != [] && !PassedBy(v, k) && '@' !in k[1..]
    ensures '@' !in w && OccursAt(v + w, k, p) && '@' in v
  {
    p :| 0 <= p < |v| && v[p] == '@' && (k <= v[p..] || v[p..] <= k);
    if k <= v[p..] {
      w := [];
      assert (v + w)[p..p + |k|] == v[p..][..|k|];
    } else {
      w := k[|v| - p..];
      assert w == k[1..][|v| - p - 1..];
      assert k == v[p..] + w;
      assert (v + w)[p..p + |k|] == k;
    }
  }

  /** Before the binding of i nothing is replaced in its key and what follows. */
  lemma NoneBefore(bs: seq<Binding>, i: nat, w: string)
    requires GoodKeys(bs) && i < |bs| && PlainBut(bs, i) && '@' in bs[i].1
    ensures forall l :: 0 <= l < i ==> bs[l].0 != [] && bs[l].0[0] == '@' && !(bs[l].0 <= bs[i].0 + w)
  {
    forall l | 0 <= l < i
      ensures bs[l].0 != [] && bs[l].0[0] == '@' && !(bs[l].0 <= bs[i].0 + w)
    {
      assert bs[l] in bs && bs[i] in bs;
      if bs[l].0 <= bs[i].0 + w {
        StartOfFront(bs[l].0, bs[i].0, w);
      }
    }
  }

  lemma Passes(w: string, k: string, v: string)
    requires '@' !in w && k != [] && k[0] == '@'
    ensures ReplaceAll(w, k, v) == w
  {
    ReplacePasses(w, [], k, v);
    assert w + [] == w;
  }

  lemma SubstBoth(k: string, v: string, w: string, bs: seq<Binding>)
    requires GoodKeys(bs) && (k, v) in bs && '@' !in w
    ensures Subst(k + w, bs) == v + w
  {
    KeyShape(bs, (k, v));
    MatchIs(k + w, bs, (k, v));
    SubstPasses(w, [], bs);
    assert w + [] == w && (k + w)[|k|..] == w;
  }

  /** A value in which a later key can start: a text on which the replacements are no substitution. */
  lemma TouchedValue(bs: seq<Binding>, i: nat, j: nat) returns (s: string)
    requires GoodKeys(bs) && i < j < |bs| && PlainBut(bs, i) && !PassedBy(bs[i].1, bs[j].0)
    ensures NoStub(s, bs) && Sequential(s, bs) != Subst(s, bs)
  {
    hide Sequential, ReplaceAll, Subst, NoStub, PassedBy, OccursAt;
    var ((k, v), later) := (bs[i], bs[j].0);
    assert bs[i] in bs && bs[j] in bs;
    KeysBetween(bs, i + 1);
    KeyShape(bs, bs[i]);
    KeyShape(bs, bs[j]);
    var p, w := Completion(v, later);
    s := k + w;
    assert s[1..] == k[1..] + w;
    OneAtNoStub(s, bs);
    NoneBefore(bs, i, w);
    NoneYet(s, bs);
    LaterUntouched(s, bs, 0, i, s);
    OneReplacement(s, bs, i);
    KeyInFront(k, v, w);
    Passes(w, k, v);
    SubstBoth(k, v, w, bs);
    LaterKeyOccurs(s, bs, i + 1, j, p);
  }

  lemma KeysBetween(bs: seq<Binding>, lo: nat)
    requires GoodKeys(bs) && lo > 0 && PlainBut(bs, lo - 1)
    ensures PlainBetween(bs, lo, |bs|)
  {
    forall l | lo <= l < |bs|
      ensures bs[l].0 != [] && bs[l].0[0] == '@'
    {
      assert bs[l] in bs;
    }
  }

  /**
   * With at signs in one value only, the replacements are the simultaneous substitution on all texts without
   * cut keys, if and only if no later key can start in that value.
   */
  lemma HarmlessExactly(bs: seq<Binding>, i: nat)
    requires GoodKeys(bs) && i < |bs| && PlainBut(bs, i)
    ensures (forall s :: NoStub(s, bs) ==> Sequential(s, bs) == Subst(s, bs)) <==>
            (forall j :: i < j < |bs| ==> PassedBy(bs[i].1, bs[j].0))
  {
    hide Sequential, Subst, NoStub, PassedBy, GoodKeys;
    if j :| i < j < |bs| && !PassedBy(bs[i].1, bs[j].0) {
      var s := TouchedValue(bs, i, j);
    } else {
      OthersHarmless(bs, i);
      forall s | NoStub(s, bs)
        ensures Sequential(s, bs) == Subst(s, bs)
      {
        SequentialIsSimultaneous(s, bs);
      }
    }
  }

  lemma OthersHarmless(bs: seq<Binding>, i: nat)
    requires i < |bs| && PlainBut(bs, i) && forall j :: i < j < |bs| ==> PassedBy(bs[i].1, bs[j].0)
    ensures Harmless(bs)
  {
    forall l, j | 0 <= l < j < |bs|
      ensures PassedBy(bs[l].1, bs[j].0)
    {
    }
  }

  /** The name of the application, say: what it may hold when no other value has an at sign. */
  lemma NameExactly(v: Values)
    requires PlainBut(Bindings(v), 4)
    ensures (forall s :: NoStub(s, Bindings(v)) ==> Sequential(s, Bindings(v)) == Subst(s, Bindings(v))) <==>
            (forall j :: 4 < j < 15 ==> PassedBy(v.name, Bindings(v)[j].0))
  {
    hide Bindings, Sequential, Subst, NoStub, PassedBy, GoodKeys, PlainBut;
    FifteenKeysGood(v);
    NameAndUser(v);
    HarmlessExactly(Bindings(v), 4);
  }
}
