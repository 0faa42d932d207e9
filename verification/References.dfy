/**
 * How the values of a macro refer to each other: the depth at which every pass that ends has
 * expanded, passes without a cycle, and passes with one.
 */
module References {
  import opened CString
  import opened Macro
  import opened Nested

  ghost predicate ValuesIn(m: Macro, values: set<string>) {
    forall name: string :: m.lookup(name).Some? ==> m.lookup(name).value in values
  }

  /** The values that have an expansion within depth d. */
  ghost function Shallow(m: Macro, values: set<string>, d: nat): set<string>
  {
    set v | v in values && ExpandTo(m, d, v).Some?
  }

  lemma SameExpansion(m: Macro, d: nat, e: nat, s: string)
    requires ExpandTo(m, d, s).Some? && ExpandTo(m, e, s).Some?
    ensures ExpandTo(m, d, s) == ExpandTo(m, e, s)
  {
    if d <= e { Deeper(m, d, e, s); } else { Deeper(m, e, d, s); }
  }

  /** When all values that expand within d do so within e, a text goes one deeper either way. */
  lemma {:induction false} Lower(m: Macro, values: set<string>, d: nat, e: nat, s: string)
    requires ValuesIn(m, values) && ExpandTo(m, d + 1, s).Some?
    requires forall v :: v in Shallow(m, values, d) ==> ExpandTo(m, e, v).Some?
    ensures ExpandTo(m, e + 1, s).Some?
    decreases |s|
  {
    hide Parse, IsToken, ExpandTo, Combine;
    match Parse(m, s)
    case Known(before, name, v, after) =>
      Inside(m, d + 1, s);
      From(m, e + 1, s);
      assert v in Shallow(m, values, d);
      SameExpansion(m, d, e, v);
      if ExpandTo(m, d + 1, after).Some? {
        Lower(m, values, d, e, after);
      }
      Enough(before, ExpandTo(m, e, v), after, ExpandTo(m, e + 1, after));
    case _ => NoneInside(m, d, s);
  }

  lemma Enough(before: string, x: Option<Expansion>, after: string, y: Option<Expansion>)
    requires x.Some? && (!x.value.stopped ==> y.Some?)
    ensures Combine(before, x, after, y).Some?
  {
  }

  lemma ShallowGrows(m: Macro, values: set<string>, d: nat)
    ensures Shallow(m, values, d) <= Shallow(m, values, d + 1) <= values
  {
    hide ExpandTo;
    forall v | v in Shallow(m, values, d)
      ensures v in Shallow(m, values, d + 1)
    {
      Deeper(m, d, d + 1, v);
    }
  }

  lemma FewerThan(a: set<string>, b: set<string>)
    requires a <= b
    ensures |a| <= |b| && (|a| == |b| ==> a == b)
  {
    assert b == a + (b - a);
    assert |b| == |a| + |b - a|;
  }

  /** A text that expands at all does so within the number of values that expand one level less deep. */
  lemma {:induction false} CountedDepth(m: Macro, values: set<string>, d: nat, s: string)
    requires ValuesIn(m, values) && ExpandTo(m, d, s).Some?
    ensures ExpandTo(m, if d == 0 then 0 else |Shallow(m, values, d - 1)|, s).Some?
    decreases d
  {
    hide ExpandTo, Shallow, ValuesIn, IsToken;
    if d > 0 {
      var w := Shallow(m, values, d - 1);
      if w == {} {
        NoMacros(m, values, d, s);
      } else if d > 1 && Shallow(m, values, d - 2) == w {
        InShallow(m, values, d - 1);
        InShallow(m, values, d - 2);
        Lower(m, values, d - 1, d - 2, s);
        CountedDepth(m, values, d - 1, s);
      } else {
        if d > 1 {
          ShallowGrows(m, values, d - 2);
          FewerThan(Shallow(m, values, d - 2), w);
        }
        InShallow(m, values, d - 1);
        forall v | v in w
          ensures ExpandTo(m, |w| - 1, v).Some?
        {
          CountedDepth(m, values, d - 1, v);
          Deeper(m, if d == 1 then 0 else |Shallow(m, values, d - 2)|, |w| - 1, v);
        }
        Lower(m, values, d - 1, |w| - 1, s);
      }
    }
  }

  lemma InShallow(m: Macro, values: set<string>, d: nat)
    ensures forall v :: v in Shallow(m, values, d) <==> v in values && ExpandTo(m, d, v).Some?
  {
    hide ExpandTo;
  }

  lemma NoMacros(m: Macro, values: set<string>, d: nat, s: string)
    requires ValuesIn(m, values) && d > 0 && ExpandTo(m, d, s).Some? && Shallow(m, values, d - 1) == {}
    ensures ExpandTo(m, 0, s).Some?
  {
    hide Parse, IsToken, ExpandTo, Shallow;
    InShallow(m, values, d - 1);
    if Parse(m, s).Known? {
      Inside(m, d, s);
      assert false;
    }
    NoneInside(m, 0, s);
  }

  /** The number of values is depth enough: a pass ends if and only if it expands within that depth. */
  lemma EndsWithinValues(m: Macro, values: set<string>, s: string)
    requires ValuesIn(m, values) && Clean(m, s)
    ensures (exists t :: Ends(m, s, t)) <==> ExpandTo(m, |values|, s).Some?
  {
    hide Ends, ExpandTo, IsToken, Clean, ValuesIn, Shallow;
    EndsIffExpands(m, s);
    if d: nat :| ExpandTo(m, d, s).Some? {
      var k := if d == 0 then 0 else |Shallow(m, values, d - 1)|;
      CountedDepth(m, values, d, s);
      if d > 0 {
        ShallowGrows(m, values, d - 1);
        FewerThan(Shallow(m, values, d - 1), values);
      }
      Deeper(m, k, |values|, s);
    }
  }

  // ---------------------------------------------------------------- texts that stop no pass

  /** Every token of the text opens a well-formed and known macro. */
  ghost predicate Unstuck(m: Macro, s: string)
    decreases |s|
  {
    hide Parse, IsToken;
    match Parse(m, s)
    case Missing => true
    case Stuck(_) => false
    case Known(_, _, _, after) => Unstuck(m, after)
  }

  /** The text and everything it reaches. */
  ghost predicate AllUnstuck(m: Macro, s: string)
  {
    forall v :: Reached(m, s, v) ==> Unstuck(m, v)
  }

  lemma UnstuckParts(m: Macro, s: string)
    requires AllUnstuck(m, s)
    ensures Unstuck(m, s)
    ensures Parse(m, s).Known? ==> AllUnstuck(m, Parse(m, s).value) && AllUnstuck(m, Parse(m, s).after)
  {
    hide Refs, IsToken, Parse, Reached;
    ReachedItself(m, s);
    if Parse(m, s).Known? {
      var f := Parse(m, s);
      RefsBehind(m, s);
      forall v | Reached(m, f.value, v)
        ensures Unstuck(m, v)
      {
        ReachedThrough(m, s, f.name, v);
      }
      forall v | Reached(m, f.after, v)
        ensures Unstuck(m, v)
      {
        ReachedBehind(m, s, v);
      }
    }
  }

  /** What an unstuck text refers to is known, and unstuck as well. */
  lemma {:induction false} RefUnstuck(m: Macro, s: string, r: string)
    requires AllUnstuck(m, s) && r in Refs(m, s)
    ensures m.lookup(r).Some? && AllUnstuck(m, m.lookup(r).value)
    decreases |s|
  {
    hide Refs, IsToken, Parse, AllUnstuck;
    RefStep(m, s, r);
    UnstuckParts(m, s);
    if r != Parse(m, s).name {
      RefUnstuck(m, Parse(m, s).after, r);
    }
  }

  /** Then no macro stops the expansion. */
  lemma {:induction false} NeverStopped(m: Macro, d: nat, s: string)
    requires AllUnstuck(m, s) && ExpandTo(m, d, s).Some?
    ensures !ExpandTo(m, d, s).value.stopped
    decreases d, |s|
  {
    hide Parse, IsToken, AllUnstuck, ExpandTo;
    UnstuckParts(m, s);
    match Parse(m, s)
    case Known(_, _, v, after) =>
      Inside(m, d, s);
      NeverStopped(m, d - 1, v);
      NeverStopped(m, d, after);
    case _ => NoneInside(m, d, s);
  }

  // ---------------------------------------------------------------- the graph of references

  ghost predicate Below(m: Macro, rank: string -> nat, s: string, b: nat)
  {
    forall r :: r in Refs(m, s) ==> rank(r) < b
  }

  /** The values below b refer to nothing but values of lower rank. */
  ghost predicate Ranked(m: Macro, rank: string -> nat, b: nat)
  {
    forall name: string :: m.lookup(name).Some? && rank(name) < b ==> Below(m, rank, m.lookup(name).value, rank(name))
  }

  lemma BelowStep(m: Macro, rank: string -> nat, s: string, b: nat)
    requires Ranked(m, rank, b) && Below(m, rank, s, b) && Parse(m, s).Known?
    ensures var f := Parse(m, s);
            rank(f.name) < b && Below(m, rank, f.after, b) && Below(m, rank, f.value, rank(f.name))
            && Ranked(m, rank, rank(f.name))
  {
    hide Parse, IsToken;
    assert Parse(m, s).name in Refs(m, s);
  }

  /** A ranking of what a text refers to bounds its depth. */
  lemma {:induction false} RankedExpands(m: Macro, rank: string -> nat, b: nat, s: string)
    requires Ranked(m, rank, b) && Below(m, rank, s, b)
    ensures ExpandTo(m, b, s).Some?
    decreases b, |s|
  {
    hide Parse, IsToken, Ranked, Below;
    match Parse(m, s)
    case Known(_, name, v, after) =>
      BelowStep(m, rank, s, b);
      RankedExpands(m, rank, rank(name), v);
      Deeper(m, rank(name), b - 1, v);
      RankedExpands(m, rank, b, after);
    case _ =>
  }

  /** What an expanded text refers to has expanded one level less deep. */
  lemma {:induction false} RefsExpand(m: Macro, d: nat, s: string, r: string)
    requires AllUnstuck(m, s) && ExpandTo(m, d, s).Some? && r in Refs(m, s)
    ensures d > 0 && m.lookup(r).Some? && ExpandTo(m, d - 1, m.lookup(r).value).Some?
    decreases |s|
  {
    hide Parse, IsToken, AllUnstuck, ExpandTo, Refs;
    RefStep(m, s, r);
    var Known(_, name, v, after) := Parse(m, s);
    UnstuckParts(m, s);
    Inside(m, d, s);
    NeverStopped(m, d - 1, v);
    if r != name {
      RefsExpand(m, d, after, r);
    }
  }

  /** The least depth at which a text expands, if it does within d. */
  ghost function Height(m: Macro, d: nat, s: string): (h: nat)
    ensures h <= d && (ExpandTo(m, d, s).Some? ==> ExpandTo(m, h, s).Some?)
    ensures forall k: nat :: k < h ==> ExpandTo(m, k, s).None?
    decreases d
  {
    hide ExpandTo;
    if d > 0 && ExpandTo(m, d - 1, s).Some? then Height(m, d - 1, s)
    else
      NoneBelow(m, d, s);
      d
  }

  lemma NoneBelow(m: Macro, d: nat, s: string)
    requires (d > 0 ==> ExpandTo(m, d - 1, s).None?)
    ensures forall k: nat :: k < d ==> ExpandTo(m, k, s).None?
  {
    hide ExpandTo;
    forall k: nat | k < d
      ensures ExpandTo(m, k, s).None?
    {
      if ExpandTo(m, k, s).Some? {
        Deeper(m, k, d - 1, s);
      }
    }
  }

  /** The least depth of what a text reaches; d, which is no rank below d, for everything else. */
  ghost function DepthRank(m: Macro, d: nat, s: string): string -> nat
  {
    (name: string) =>
      if m.lookup(name).Some? && Reached(m, s, m.lookup(name).value) then Height(m, d, m.lookup(name).value)
      else d
  }

  /** What has a depth has a ranking. */
  lemma ExpansionRanks(m: Macro, d: nat, s: string)
    requires AllUnstuck(m, s) && ExpandTo(m, d, s).Some?
    ensures Ranked(m, DepthRank(m, d, s), d) && Below(m, DepthRank(m, d, s), s, d)
  {
    hide ExpandTo, Refs, IsToken, AllUnstuck, Unstuck, Leads;
    var rank := DepthRank(m, d, s);
    forall r | r in Refs(m, s)
      ensures rank(r) < d
    {
      assert Leads(m, s, s, 0) by { StartOfPath(m, s); }
      RankOfRef(m, d, s, s, 0, d, r);
    }
    forall name: string | m.lookup(name).Some? && rank(name) < d
      ensures Below(m, rank, m.lookup(name).value, rank(name))
    {
      var v := m.lookup(name).value;
      var k: nat :| Leads(m, s, v, k);
      HeightReached(m, d, v);
      forall r | r in Refs(m, v)
        ensures rank(r) < rank(name)
      {
        RankOfRef(m, d, s, v, k, rank(name), r);
      }
    }
  }

  lemma StartOfPath(m: Macro, s: string)
    ensures Leads(m, s, s, 0)
  {
  }

  lemma RankOfRef(m: Macro, d: nat, s: string, v: string, k: nat, h: nat, r: string)
    requires AllUnstuck(m, s) && Leads(m, s, v, k) && h <= d && ExpandTo(m, h, v).Some? && r in Refs(m, v)
    ensures DepthRank(m, d, s)(r) < h
  {
    hide ExpandTo, Refs, IsToken, AllUnstuck, Unstuck, Leads;
    UnstuckOnPath(m, s, v, k);
    RefsExpand(m, h, v, r);
    ReachedNext(m, s, v, k, r);
  }

  lemma {:induction false} UnstuckOnPath(m: Macro, s: string, v: string, k: nat)
    requires AllUnstuck(m, s) && Leads(m, s, v, k)
    ensures AllUnstuck(m, v)
    decreases k
  {
    hide Refs, IsToken, AllUnstuck;
    if k > 0 {
      var r :| r in Refs(m, s) && m.lookup(r).Some? && Leads(m, m.lookup(r).value, v, k - 1);
      RefUnstuck(m, s, r);
      UnstuckOnPath(m, m.lookup(r).value, v, k - 1);
    }
  }

  lemma HeightReached(m: Macro, d: nat, s: string)
    requires Height(m, d, s) < d
    ensures ExpandTo(m, Height(m, d, s), s).Some?
    decreases d
  {
    hide ExpandTo;
  }

  /** With all macros well-formed and known, the pass ends if and only if what the text reaches has no cycle. */
  lemma EndsIffAcyclic(m: Macro, s: string)
    requires Clean(m, s) && AllUnstuck(m, s)
    ensures (exists t :: Ends(m, s, t)) <==>
            (exists rank: string -> nat, b: nat :: Ranked(m, rank, b) && Below(m, rank, s, b))
  {
    hide Ends, ExpandTo, IsToken, Clean, AllUnstuck, Ranked, Below;
    EndsIffExpands(m, s);
    if d: nat :| ExpandTo(m, d, s).Some? {
      ExpansionRanks(m, d, s);
    }
    if rank: string -> nat, b: nat :| Ranked(m, rank, b) && Below(m, rank, s, b) {
      RankedExpands(m, rank, b, s);
    }
  }

  // ---------------------------------------------------------------- cycles

  /** The text refers to one of these values. */
  ghost predicate LeadsInto(m: Macro, cycle: set<string>, s: string)
  {
    exists r :: r in Refs(m, s) && m.lookup(r).Some? && m.lookup(r).value in cycle
  }

  /** It does, and so does each of them. */
  ghost predicate Circles(m: Macro, cycle: set<string>, s: string)
  {
    LeadsInto(m, cycle, s) && forall v :: v in cycle ==> LeadsInto(m, cycle, v)
  }

  lemma {:induction false} CycleHasNoDepth(m: Macro, cycle: set<string>, d: nat, s: string)
    requires AllUnstuck(m, s)
    requires Circles(m, cycle, s)
    ensures ExpandTo(m, d, s).None?
    decreases d
  {
    hide ExpandTo, IsToken, AllUnstuck, Refs;
    if ExpandTo(m, d, s).Some? {
      var r :| r in Refs(m, s) && m.lookup(r).Some? && m.lookup(r).value in cycle;
      RefsExpand(m, d, s, r);
      RefUnstuck(m, s, r);
      CycleHasNoDepth(m, cycle, d - 1, m.lookup(r).value);
    }
  }

  /** A text that leads into values which all lead back among themselves: the pass never ends. */
  lemma CycleNeverEnds(m: Macro, cycle: set<string>, s: string)
    requires Clean(m, s) && AllUnstuck(m, s)
    requires Circles(m, cycle, s)
    ensures !exists t :: Ends(m, s, t)
  {
    hide Ends, ExpandTo, IsToken, Clean, AllUnstuck, Circles;
    EndsIffExpands(m, s);
    forall d: nat
      ensures ExpandTo(m, d, s).None?
    {
      CycleHasNoDepth(m, cycle, d, s);
    }
  }

  // ---------------------------------------------------------------- a value that is its own macro

  function OwnMacro(m: Macro, name: string, k: nat): string {
    m.token + name + [')'] + Nuls(k)
  }

  lemma ParseOwnMacro(m: Macro, name: string, k: nat)
    requires name != [] && ')' !in name && NulFree(name)
    requires m.lookup(name) == Some(OwnMacro(m, name, 0))
    ensures Parse(m, OwnMacro(m, name, k)) == Known([], name, OwnMacro(m, name, 0), Nuls(k))
  {
    hide Parse, IsToken;
    var s := [] + (m.token + (name + [')'] + Nuls(k)));
    assert OwnMacro(m, name, k) == s;
    TokenOf(m);
    ParseWritten(m, [], name, Nuls(k));
  }

  lemma OneMoreNul(m: Macro, name: string, k: nat)
    requires name != [] && ')' !in name && NulFree(name)
    requires m.lookup(name) == Some(OwnMacro(m, name, 0))
    ensures MacroRound(m, OwnMacro(m, name, k)) == Again(OwnMacro(m, name, k + 1))
  {
    hide Parse, IsToken;
    ParseOwnMacro(m, name, k);
    assert [] + OwnMacro(m, name, 0) + [NUL] + Nuls(k) == OwnMacro(m, name, k + 1);
  }

  /** A value that is its own macro: the pass goes round for ever, with one more NUL each time. */
  lemma {:induction false} SelfReferenceRounds(m: Macro, name: string, k: nat, n: nat)
    requires name != [] && ')' !in name && NulFree(name)
    requires m.lookup(name) == Some(OwnMacro(m, name, 0))
    ensures Run(m, OwnMacro(m, name, k), n) == Again(OwnMacro(m, name, k + n))
    decreases n
  {
    hide MacroRound, IsToken, OwnMacro;
    if n > 0 {
      OneMoreNul(m, name, k);
      SelfReferenceRounds(m, name, k + 1, n - 1);
    }
  }

  lemma SelfReferenceNeverEnds(m: Macro, name: string)
    requires name != [] && ')' !in name && NulFree(name)
    requires m.lookup(name) == Some(OwnMacro(m, name, 0))
    ensures !exists t :: Ends(m, OwnMacro(m, name, 0), t)
  {
    hide Run, IsToken, OwnMacro;
    forall n: nat
      ensures Run(m, OwnMacro(m, name, 0), n).Again?
    {
      SelfReferenceRounds(m, name, 0, n);
    }
  }
}
