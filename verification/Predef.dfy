/** The predefined variables: fifteen replacements, one after the other. */
module Predef {
  import opened CString
  import opened Buffers

  type Binding = (string, string)

  // ---------------------------------------------------------------- the fifteen variables

  const AYA_VERSION := "0.6.4"

  datatype Values = Values(year: string, instance: string, date: string, name: string, user: string, uptime: string,
                           env: string, domain: string, method_: string, uri: string, query: string, host: string,
                           agent: string, remoteAddr: string)

  function Bindings(v: Values): (bs: seq<Binding>)
    ensures |bs| == 15
  {
    [("@year", v.year), ("@framework", AYA_VERSION), ("@instance", v.instance), ("@date", v.date), ("@name", v.name),
     ("@user", v.user), ("@uptime", v.uptime), ("@env", v.env), ("@domain", v.domain), ("@method", v.method_),
     ("@uri", v.uri), ("@query_string", v.query), ("@host", v.host), ("@agent", v.agent), ("@remote_addr", v.remoteAddr)]
  }

  /** One after the other, in the order of the list. */
  function Sequential(s: string, bs: seq<Binding>): string {
    if bs == [] then s
    else ReplaceAll(Sequential(s, bs[..|bs| - 1]), bs[|bs| - 1].0, bs[|bs| - 1].1)
  }

  // ---------------------------------------------------------------- simultaneous substitution

  /** The first binding whose key starts the text. */
  function Match(s: string, bs: seq<Binding>): (r: Option<Binding>)
    ensures r.Some? ==> r.value in bs && r.value.0 <= s
    ensures r.None? ==> forall b :: b in bs ==> !(b.0 <= s)
  {
    if bs == [] then None else if bs[0].0 <= s then Some(bs[0]) else Match(s, bs[1..])
  }

  /** All bindings at once, from left to right; values are not looked at again. */
  function Subst(s: string, bs: seq<Binding>): string
    decreases |s|
  {
    if s == [] then []
    else match Match(s, bs)
      case Some((k, v)) => if k == [] then [] else v + Subst(s[|k|..], bs)
      case None => [s[0]] + Subst(s[1..], bs)
  }

  /** Keys that open with an at sign, hold no other, and are no prefixes of each other. */
  ghost predicate GoodKeys(bs: seq<Binding>) {
    && (forall b :: b in bs ==> b.0 != [] && b.0[0] == '@' && '@' !in b.0[1..])
    && (forall b, c :: b in bs && c in bs && b.0 <= c.0 ==> b == c)
  }

  ghost predicate PlainValues(bs: seq<Binding>) {
    forall b :: b in bs ==> '@' !in b.1
  }

  /** At no at sign of the text does the key start, nor could it with more text behind. */
  ghost predicate PassedBy(x: string, k: string) {
    forall p :: 0 <= p < |x| && x[p] == '@' ==> !(k <= x[p..]) && !(x[p..] <= k)
  }

  /** No value is touched by a later replacement. */
  ghost predicate Harmless(bs: seq<Binding>) {
    forall i, j :: 0 <= i < j < |bs| ==> PassedBy(bs[i].1, bs[j].0)
  }

  lemma PlainIsHarmless(bs: seq<Binding>)
    requires PlainValues(bs)
    ensures Harmless(bs)
  {
    forall i, j | 0 <= i < j < |bs|
      ensures PassedBy(bs[i].1, bs[j].0)
    {
      assert bs[i] in bs;
    }
  }

  /** From the front, up to the next at sign behind the first char. */
  function Piece(s: string): (u: string)
    requires s != []
    ensures u != [] && u <= s && '@' !in u[1..] && (|u| < |s| ==> s[|u|] == '@')
  {
    if |s| == 1 || s[1] == '@' then [s[0]] else [s[0]] + Piece(s[1..])
  }

  /** Between two at signs there never stands just the beginning of a key. */
  ghost predicate NoStub(s: string, bs: seq<Binding>) {
    forall i, b :: 0 <= i < |s| && s[i] == '@' && b in bs && |Piece(s[i..])| < |s[i..]| && Piece(s[i..]) <= b.0 ==>
      Piece(s[i..]) == b.0
  }

  /** Every at sign starts a whole key. */
  ghost predicate WholeKeys(s: string, bs: seq<Binding>) {
    forall i :: 0 <= i < |s| && s[i] == '@' ==> Match(s[i..], bs).Some?
  }

  lemma WholeKeysNoStub(s: string, bs: seq<Binding>)
    requires GoodKeys(bs) && WholeKeys(s, bs)
    ensures NoStub(s, bs)
  {
    hide Piece;
    forall i, b | 0 <= i < |s| && s[i] == '@' && b in bs && |Piece(s[i..])| < |s[i..]| && Piece(s[i..]) <= b.0
      ensures Piece(s[i..]) == b.0
    {
      var (k, u) := (Match(s[i..], bs).value.0, Piece(s[i..]));
      KeyInPiece(s[i..], k, u);
    }
  }

  lemma KeyInPiece(s: string, k: string, u: string)
    requires k <= s && u <= s && u != [] && |u| < |s| && s[|u|] == '@' && k != [] && '@' !in k[1..]
    ensures k <= u
  {
    forall j | 0 < j < |k|
      ensures s[j] != '@'
    {
      assert k[1..][j - 1] == k[j];
    }
    assert s == u + s[|u|..];
    StartOfFront(k, u, s[|u|..]);
  }

  lemma MatchIs(s: string, bs: seq<Binding>, b: Binding)
    requires GoodKeys(bs) && b in bs && b.0 <= s
    ensures Match(s, bs) == Some(b)
  {
    var c := Match(s, bs).value;
    if |c.0| <= |b.0| { assert c.0 <= b.0; } else { assert b.0 <= c.0; }
  }

  lemma MatchExtend(s: string, bs: seq<Binding>, b: Binding)
    requires GoodKeys(bs + [b])
    ensures GoodKeys(bs)
    ensures Match(s, bs + [b]) == if Match(s, bs).Some? then Match(s, bs) else if b.0 <= s then Some(b) else None
  {
    assert b in bs + [b] && forall c :: c in bs ==> c in bs + [b];
    if Match(s, bs).Some? {
      MatchIs(s, bs + [b], Match(s, bs).value);
    } else if b.0 <= s {
      MatchIs(s, bs + [b], b);
    }
  }

  /** A replacement passes over text where its key cannot start. */
  lemma {:induction false} ReplacePasses(x: string, y: string, k: string, v: string)
    requires PassedBy(x, k) && k != [] && k[0] == '@'
    ensures ReplaceAll(x + y, k, v) == x + ReplaceAll(y, k, v)
  {
    hide PassedBy;
    if x == [] {
      assert x + y == y;
    } else {
      PassedFront(x, y, k);
      OtherFirst(x + y, k, v);
      assert (x + y)[0] == x[0] && (x + y)[1..] == x[1..] + y;
      ReplacePasses(x[1..], y, k, v);
      Regroup(x, ReplaceAll(y, k, v));
    }
  }

  lemma PassedFront(x: string, y: string, k: string)
    requires PassedBy(x, k) && x != [] && k != [] && k[0] == '@'
    ensures !(k <= x + y) && PassedBy(x[1..], k)
  {
    assert x[0..] == x;
    if x[0] == '@' { NotAcross(x, y, k); } else { FirstDiffers(x, y, k); }
    forall p | 0 <= p < |x[1..]| && x[1..][p] == '@'
      ensures !(k <= x[1..][p..]) && !(x[1..][p..] <= k)
    {
      assert x[1..][p..] == x[p + 1..] && x[p + 1] == '@';
    }
  }

  lemma NotAcross(x: string, y: string, k: string)
    requires !(k <= x) && !(x <= k)
    ensures !(k <= x + y)
  {
    if k <= x + y {
      StartOfFront(k, x, y);
    }
  }

  lemma FirstDiffers(x: string, y: string, k: string)
    requires x != [] && k != [] && x[0] != k[0]
    ensures !(k <= x + y)
  {
    assert (x + y)[0] == x[0];
  }

  lemma OtherFirst(s: string, k: string, v: string)
    requires s != [] && k != [] && !(k <= s)
    ensures ReplaceAll(s, k, v) == [s[0]] + ReplaceAll(s[1..], k, v)
  {
  }

  lemma {:induction false} SubstPasses(x: string, y: string, bs: seq<Binding>)
    requires '@' !in x && GoodKeys(bs)
    ensures Subst(x + y, bs) == x + Subst(y, bs)
  {
    if x == [] {
      assert x + y == y;
    } else {
      assert (x + y)[0] == x[0] && (x + y)[1..] == x[1..] + y;
      SubstPasses(x[1..], y, bs);
    }
  }

  lemma NoStubAfter(s: string, bs: seq<Binding>, n: nat)
    requires NoStub(s, bs) && n <= |s|
    ensures NoStub(s[n..], bs)
  {
    forall i, b | 0 <= i < |s[n..]| && s[n..][i] == '@' && b in bs
                  && |Piece(s[n..][i..])| < |s[n..][i..]| && Piece(s[n..][i..]) <= b.0
      ensures Piece(s[n..][i..]) == b.0
    {
      assert s[n..][i..] == s[n + i..];
    }
  }

  /** Up to the next at sign nothing changes while what follows a char is substituted. */
  lemma PieceStays(s: string, bs: seq<Binding>)
    requires GoodKeys(bs) && s != []
    ensures [s[0]] + Subst(s[1..], bs) == Piece(s) + Subst(s[|Piece(s)|..], bs)
  {
    hide GoodKeys, Subst, Piece;
    var u := Piece(s);
    Apart(s, u);
    SubstPasses(u[1..], s[|u|..], bs);
    Regroup(u, Subst(s[|u|..], bs));
  }

  lemma Apart(s: string, u: string)
    requires u != [] && u <= s
    ensures s[0] == u[0] && s[1..] == u[1..] + s[|u|..]
  {
  }

  lemma Regroup(u: string, w: string)
    requires u != []
    ensures [u[0]] + (u[1..] + w) == u + w
  {
  }

  lemma StartOfFront(k: string, u: string, w: string)
    requires k <= u + w
    ensures if |k| <= |u| then k <= u else u <= k
  {
    var n := if |k| <= |u| then |k| else |u|;
    assert (u + w)[..n] == u[..n] && k[..n] == (u + w)[..n];
  }

  /** What starts one of two texts with a common front, but not the other, goes beyond that front. */
  lemma SharedStart(k: string, u: string, rest: string, w: string)
    requires !(k <= u + rest) && k <= u + w
    ensures u <= k && |u| < |k|
  {
    StartOfFront(k, u, w);
    assert k <= u ==> k <= u + rest;
    assert |k| == |u| && u <= k ==> k == u;
  }

  /** A char at which no key starts still starts none once what follows it is substituted. */
  lemma NoNewKey(s: string, bs: seq<Binding>, b: Binding)
    requires GoodKeys(bs + [b]) && GoodKeys(bs) && NoStub(s, bs + [b]) && s != [] && !(b.0 <= s)
    ensures !(b.0 <= [s[0]] + Subst(s[1..], bs))
  {
    hide Subst, GoodKeys, Piece;
    assert b in bs + [b];
    KeyShape(bs + [b], b);
    var (u, w) := (Piece(s), Subst(s[|Piece(s)|..], bs));
    PieceStays(s, bs);
    assert s == u + s[|u|..];
    if b.0 <= u + w {
      SharedStart(b.0, u, s[|u|..], w);
      assert s[0] == '@' && s[0..] == s;
      if |u| == |s| {
        NothingLeft(s, bs, u, w);
      }
      assert false;
    }
  }

  lemma NothingLeft(s: string, bs: seq<Binding>, u: string, w: string)
    requires |u| == |s| && u <= s && w == Subst(s[|u|..], bs)
    ensures w == [] && u + w == u
  {
    assert s[|u|..] == [];
  }

  /** One more replacement at the end is one more binding in the substitution. */
  lemma {:induction false} OneMore(s: string, bs: seq<Binding>, b: Binding)
    requires GoodKeys(bs + [b]) && AllPassedBy(bs, b.0) && NoStub(s, bs + [b])
    ensures GoodKeys(bs) && ReplaceAll(Subst(s, bs), b.0, b.1) == Subst(s, bs + [b])
    decreases |s|
  {
    hide NoStub, Match, GoodKeys, AllPassedBy, PassedBy;
    MatchExtend(s, bs, b);
    KeyShape(bs + [b], b);
    if s != [] {
      match Match(s, bs)
      case Some((k, v)) =>
        KeyShape(bs, (k, v));
        ValuePassed(bs, (k, v), b.0);
        NoStubAfter(s, bs + [b], |k|);
        OneMore(s[|k|..], bs, b);
        ReplacePasses(v, Subst(s[|k|..], bs), b.0, b.1);
      case None =>
        if b.0 <= s {
          NoStubAfter(s, bs + [b], |b.0|);
          OneMore(s[|b.0|..], bs, b);
          KeyThrough(s, bs, b);
        } else {
          NoStubAfter(s, bs + [b], 1);
          OneMore(s[1..], bs, b);
          NoNewKey(s, bs, b);
          var t := [s[0]] + Subst(s[1..], bs);
          assert t[1..] == Subst(s[1..], bs);
        }
    }
  }

  lemma KeyShape(bs: seq<Binding>, b: Binding)
    requires GoodKeys(bs) && b in bs
    ensures b.0 != [] && b.0[0] == '@' && '@' !in b.0[1..]
  {
  }

  ghost predicate AllPassedBy(bs: seq<Binding>, k: string) {
    forall b :: b in bs ==> PassedBy(b.1, k)
  }

  lemma ValuePassed(bs: seq<Binding>, b: Binding, k: string)
    requires AllPassedBy(bs, k) && b in bs
    ensures PassedBy(b.1, k)
  {
  }

  /** A key not yet among the bindings goes through the substitution as it is, and is then replaced. */
  lemma KeyThrough(s: string, bs: seq<Binding>, b: Binding)
    requires GoodKeys(bs) && b.0 != [] && b.0[0] == '@' && '@' !in b.0[1..] && b.0 <= s && Match(s, bs).None?
    ensures ReplaceAll(Subst(s, bs), b.0, b.1) == b.1 + ReplaceAll(Subst(s[|b.0|..], bs), b.0, b.1)
  {
    hide GoodKeys, Subst, ReplaceAll;
    var (k, r) := (b.0, s[|b.0|..]);
    Apart(s, k);
    SubstPasses(k[1..], r, bs);
    NoneHere(s, bs);
    Regroup(k, Subst(r, bs));
    KeyInFront(k, b.1, Subst(r, bs));
  }

  lemma NoneHere(s: string, bs: seq<Binding>)
    requires s != [] && Match(s, bs).None?
    ensures Subst(s, bs) == [s[0]] + Subst(s[1..], bs)
  {
  }

  lemma KeyInFront(k: string, v: string, y: string)
    requires k != []
    ensures ReplaceAll(k + y, k, v) == v + ReplaceAll(y, k, v)
  {
    assert k <= k + y && (k + y)[|k|..] == y;
  }

  /**
   * The replacements one after the other are one simultaneous substitution, when no value is touched by a
   * later one and no at sign is followed by just the beginning of a key before the next one.
   */
  lemma {:induction false} SequentialIsSimultaneous(s: string, bs: seq<Binding>)
    requires GoodKeys(bs) && Harmless(bs) && NoStub(s, bs)
    ensures Sequential(s, bs) == Subst(s, bs)
    decreases |bs|
  {
    if bs == [] {
      SubstNothing(s);
    } else {
      var (front, b) := (bs[..|bs| - 1], bs[|bs| - 1]);
      assert bs == front + [b];
      Fewer(s, front, b);
      SequentialIsSimultaneous(s, front);
      OneMore(s, front, b);
    }
  }

  lemma Fewer(s: string, bs: seq<Binding>, b: Binding)
    requires GoodKeys(bs + [b]) && Harmless(bs + [b]) && NoStub(s, bs + [b])
    ensures GoodKeys(bs) && Harmless(bs) && AllPassedBy(bs, b.0) && NoStub(s, bs)
  {
    hide PassedBy;
    var all := bs + [b];
    assert forall c :: c in bs ==> c in all;
    forall i, j | 0 <= i < j < |bs|
      ensures PassedBy(bs[i].1, bs[j].0)
    {
      assert all[i] == bs[i] && all[j] == bs[j];
    }
    forall c | c in bs
      ensures PassedBy(c.1, b.0)
    {
      var i :| 0 <= i < |bs| && bs[i] == c;
      assert all[i] == c && all[|bs|] == b;
    }
  }

  lemma {:induction false} SubstNothing(s: string)
    ensures Subst(s, []) == s
  {
    if s != [] {
      SubstNothing(s[1..]);
    }
  }

  /** The order of the replacements does not matter. */
  lemma OrderIndependent(s: string, bs: seq<Binding>, cs: seq<Binding>)
    requires GoodKeys(bs) && Harmless(bs) && Harmless(cs) && NoStub(s, bs)
    requires forall b :: b in bs <==> b in cs
    ensures Sequential(s, bs) == Sequential(s, cs)
  {
    SequentialIsSimultaneous(s, bs);
    SequentialIsSimultaneous(s, cs);
    SameBindings(s, bs, cs);
  }

  lemma {:induction false} SameBindings(s: string, bs: seq<Binding>, cs: seq<Binding>)
    requires GoodKeys(bs) && GoodKeys(cs) && forall b :: b in bs <==> b in cs
    ensures Subst(s, bs) == Subst(s, cs)
    decreases |s|
  {
    hide GoodKeys;
    if s != [] {
      if Match(s, bs).Some? {
        var (k, v) := Match(s, bs).value;
        MatchIs(s, cs, (k, v));
        KeyShape(bs, (k, v));
        SameBindings(s[|k|..], bs, cs);
      } else {
        SameBindings(s[1..], bs, cs);
      }
    }
  }

  // ---------------------------------------------------------------- the fifteen keys

  /** The first two letters of a key tell which one it is. */
  function KeyNumber(k: string): int {
    if |k| < 3 then -1
    else match k[1]
      case 'y' => 0 case 'f' => 1 case 'i' => 2 case 'n' => 4 case 'e' => 7 case 'm' => 9
      case 'q' => 11 case 'h' => 12 case 'a' => 13 case 'r' => 14
      case 'd' => if k[2] == 'a' then 3 else 8
      case 'u' => if k[2] == 's' then 5 else if k[2] == 'p' then 6 else 10
      case _ => -1
  }

  lemma KeysNumbered(v: Values, i: nat)
    requires i < 15
    ensures var k := Bindings(v)[i].0; |k| >= 3 && KeyNumber(k) == i && k[0] == '@' && '@' !in k[1..]
  {
    hide KeyNumber, Bindings;
    if i < 5 { FirstKeys(v, i); } else if i < 10 { MiddleKeys(v, i); } else { LastKeys(v, i); }
  }

  lemma FirstKeys(v: Values, i: nat)
    requires 0 <= i < 5
    ensures var k := Bindings(v)[i].0; |k| >= 3 && KeyNumber(k) == i && k[0] == '@' && '@' !in k[1..]
  {
    hide Bindings;
    Listed(v);
  }

  lemma MiddleKeys(v: Values, i: nat)
    requires 5 <= i < 10
    ensures var k := Bindings(v)[i].0; |k| >= 3 && KeyNumber(k) == i && k[0] == '@' && '@' !in k[1..]
  {
    hide Bindings;
    Listed(v);
  }

  lemma LastKeys(v: Values, i: nat)
    requires 10 <= i < 15
    ensures var k := Bindings(v)[i].0; |k| >= 3 && KeyNumber(k) == i && k[0] == '@' && '@' !in k[1..]
  {
    hide Bindings;
    Listed(v);
  }

  lemma FifteenKeysGood(v: Values)
    ensures GoodKeys(Bindings(v))
  {
    hide KeyNumber, Bindings;
    var bs := Bindings(v);
    forall i | 0 <= i < 15
      ensures var k := bs[i].0; |k| >= 3 && KeyNumber(k) == i && k[0] == '@' && '@' !in k[1..]
    {
      KeysNumbered(v, i);
    }
    forall b, c | b in bs && c in bs && b.0 <= c.0
      ensures b == c
    {
      SameLetters(b.0, c.0);
    }
  }

  lemma SameLetters(k: string, l: string)
    requires |k| >= 3 && k <= l
    ensures KeyNumber(k) == KeyNumber(l)
  {
    assert k[1] == l[1] && k[2] == l[2];
  }

  // ---------------------------------------------------------------- the C code

  /** The next replacement of process_predef_vars. */
  method Next(buffer: KoreBuf, ghost s: string, ghost bs: seq<Binding>, ghost i: nat, key: string, value: string)
    requires buffer.Valid() && i < |bs| && bs[i] == (key, value) && buffer.Contents() == Sequential(s, bs[..i])
    modifies buffer
    ensures buffer.Valid() && fresh(buffer.data) && buffer.Contents() == Sequential(s, bs[..i + 1])
  {
    assert bs[..i + 1][..i] == bs[..i];
    buffer.ReplaceAllString(key, value);
  }

  /** process_predef_vars: all fifteen replacements, in the order of the source. */
  method ProcessPredefVars(buffer: KoreBuf, v: Values)
    requires buffer.Valid()
    modifies buffer
    ensures buffer.Valid() && buffer.Contents() == Sequential(old(buffer.Contents()), Bindings(v))
  {
    hide Sequential, Bindings;
    ghost var (s, bs) := (buffer.Contents(), Bindings(v));
    NoneYet(s, bs);
    FirstFive(buffer, s, v);
    MiddleFive(buffer, s, v);
    LastFive(buffer, s, v);
    assert bs[..15] == bs;
  }

  method FirstFive(buffer: KoreBuf, ghost s: string, v: Values)
    requires buffer.Valid() && buffer.Contents() == Sequential(s, Bindings(v)[..0])
    modifies buffer
    ensures buffer.Valid() && fresh(buffer.data) && buffer.Contents() == Sequential(s, Bindings(v)[..5])
  {
    hide Sequential, Bindings;
    ghost var bs := Bindings(v);
    Listed(v);
    Next(buffer, s, bs, 0, "@year", v.year);
    Next(buffer, s, bs, 1, "@framework", AYA_VERSION);
    Next(buffer, s, bs, 2, "@instance", v.instance);
    Next(buffer, s, bs, 3, "@date", v.date);
    Next(buffer, s, bs, 4, "@name", v.name);
  }

  method MiddleFive(buffer: KoreBuf, ghost s: string, v: Values)
    requires buffer.Valid() && buffer.Contents() == Sequential(s, Bindings(v)[..5])
    modifies buffer
    ensures buffer.Valid() && fresh(buffer.data) && buffer.Contents() == Sequential(s, Bindings(v)[..10])
  {
    hide Sequential, Bindings;
    ghost var bs := Bindings(v);
    Listed(v);
    Next(buffer, s, bs, 5, "@user", v.user);
    Next(buffer, s, bs, 6, "@uptime", v.uptime);
    Next(buffer, s, bs, 7, "@env", v.env);
    Next(buffer, s, bs, 8, "@domain", v.domain);
    Next(buffer, s, bs, 9, "@method", v.method_);
  }

  method LastFive(buffer: KoreBuf, ghost s: string, v: Values)
    requires buffer.Valid() && buffer.Contents() == Sequential(s, Bindings(v)[..10])
    modifies buffer
    ensures buffer.Valid() && fresh(buffer.data) && buffer.Contents() == Sequential(s, Bindings(v)[..15])
  {
    hide Sequential, Bindings;
    ghost var bs := Bindings(v);
    Listed(v);
    Next(buffer, s, bs, 10, "@uri", v.uri);
    Next(buffer, s, bs, 11, "@query_string", v.query);
    Next(buffer, s, bs, 12, "@host", v.host);
    Next(buffer, s, bs, 13, "@agent", v.agent);
    Next(buffer, s, bs, 14, "@remote_addr", v.remoteAddr);
  }

  lemma Listed(v: Values)
    ensures var bs := Bindings(v);
            && bs[0] == ("@year", v.year)
            && bs[1] == ("@framework", AYA_VERSION)
            && bs[2] == ("@instance", v.instance)
            && bs[3] == ("@date", v.date)
            && bs[4] == ("@name", v.name)
            && bs[5] == ("@user", v.user)
            && bs[6] == ("@uptime", v.uptime)
            && bs[7] == ("@env", v.env)
            && bs[8] == ("@domain", v.domain)
            && bs[9] == ("@method", v.method_)
            && bs[10] == ("@uri", v.uri)
            && bs[11] == ("@query_string", v.query)
            && bs[12] == ("@host", v.host)
            && bs[13] == ("@agent", v.agent)
            && bs[14] == ("@remote_addr", v.remoteAddr)
  {
  }

  lemma NoneYet(s: string, bs: seq<Binding>)
    ensures Sequential(s, bs[..0]) == s
  {
  }

  /** In particular when every at sign of the buffer starts a whole key. */
  lemma WholeKeysAtOnce(s: string, v: Values)
    requires Harmless(Bindings(v)) && WholeKeys(s, Bindings(v))
    ensures Sequential(s, Bindings(v)) == Subst(s, Bindings(v))
  {
    hide Bindings, Harmless, NoStub, GoodKeys, WholeKeys;
    FifteenKeysGood(v);
    WholeKeysNoStub(s, Bindings(v));
    SequentialIsSimultaneous(s, Bindings(v));
  }

  /** The fifteen replacements are one simultaneous substitution, in whatever order they are made. */
  lemma PredefinedAtOnce(s: string, v: Values, order: seq<Binding>)
    requires Harmless(Bindings(v)) && NoStub(s, Bindings(v))
    requires Harmless(order) && forall b :: b in Bindings(v) <==> b in order
    ensures Sequential(s, Bindings(v)) == Subst(s, Bindings(v)) == Sequential(s, order)
  {
    hide Bindings, Harmless, NoStub, GoodKeys;
    FifteenKeysGood(v);
    SequentialIsSimultaneous(s, Bindings(v));
    OrderIndependent(s, Bindings(v), order);
  }

  // ---------------------------------------------------------------- a value that is a key

  lemma KeyUntouched(s: string, k: string, v: string)
    requires s != [] && '@' !in s[1..] && k != [] && k[0] == '@' && !(k <= s)
    ensures ReplaceAll(s, k, v) == s
  {
    OtherFirst(s, k, v);
    ReplacePasses(s[1..], [], k, v);
    assert s[1..] + [] == s[1..] && [s[0]] + s[1..] == s;
  }

  /** The replacements from the one at lo on leave a text alone where none of their keys starts. */
  lemma {:induction false} LaterUntouched(s: string, bs: seq<Binding>, lo: nat, hi: nat, x: string)
    requires lo <= hi <= |bs| && Sequential(s, bs[..lo]) == x && (x != [] ==> '@' !in x[1..])
    requires forall i :: lo <= i < hi ==> bs[i].0 != [] && bs[i].0[0] == '@' && !(bs[i].0 <= x)
    ensures Sequential(s, bs[..hi]) == x
    decreases hi
  {
    hide Sequential, ReplaceAll;
    if lo < hi {
      LaterUntouched(s, bs, lo, hi - 1, x);
      OneReplacement(s, bs, hi - 1);
      if x != [] {
        KeyUntouched(x, bs[hi - 1].0, bs[hi - 1].1);
      } else {
        NothingReplaced(bs[hi - 1].0, bs[hi - 1].1);
      }
    }
  }

  lemma NothingReplaced(k: string, v: string)
    ensures ReplaceAll([], k, v) == []
  {
  }

  lemma OneReplacement(s: string, bs: seq<Binding>, i: nat)
    requires i < |bs|
    ensures Sequential(s, bs[..i + 1]) == ReplaceAll(Sequential(s, bs[..i]), bs[i].0, bs[i].1)
  {
    assert bs[..i + 1][..i] == bs[..i];
  }

  lemma WholeText(k: string, v: string)
    requires k != []
    ensures ReplaceAll(k, k, v) == v
  {
    KeyInFront(k, v, []);
    assert k + [] == k && v + [] == v;
  }

  /**
   * An application called "@user": the later replacement reads the value of the earlier one, and the
   * result is not the simultaneous substitution.
   */
  lemma AtSignInValue(v: Values)
    requires v.name == "@user" && '@' !in v.user
    ensures Sequential("@name", Bindings(v)) == v.user && Subst("@name", Bindings(v)) == "@user"
  {
    hide Bindings, ReplaceAll, Sequential, GoodKeys, Subst;
    var bs := Bindings(v);
    NameAndUser(v);
    FifteenKeysGood(v);
    OthersDoNotStart(v);
    AfterName(v);
    OneReplacement("@name", bs, 5);
    WholeText("@user", v.user);
    LaterUntouched("@name", bs, 6, 15, v.user);
    assert bs[..15] == bs;
    SubstKey("@name", "@user", bs);
  }

  lemma NameAndUser(v: Values)
    ensures var bs := Bindings(v); bs[4] == ("@name", v.name) && bs[5] == ("@user", v.user) && bs[4] in bs
  {
    hide Bindings;
    Listed(v);
  }

  lemma AfterName(v: Values)
    ensures Sequential("@name", Bindings(v)[..5]) == v.name
  {
    hide Bindings, ReplaceAll, Sequential;
    var bs := Bindings(v);
    NameAndUser(v);
    OthersDoNotStart(v);
    NoneYet("@name", bs);
    LaterUntouched("@name", bs, 0, 4, "@name");
    OneReplacement("@name", bs, 4);
    WholeText("@name", v.name);
  }

  lemma SubstKey(k: string, v: string, bs: seq<Binding>)
    requires GoodKeys(bs) && (k, v) in bs && k != []
    ensures Subst(k, bs) == v
  {
    MatchIs(k, bs, (k, v));
    assert k[|k|..] == [] && v + [] == v;
  }

  lemma OthersDoNotStart(v: Values)
    ensures var bs := Bindings(v);
            && (forall i :: 0 <= i < 15 ==> bs[i].0 != [] && bs[i].0[0] == '@')
            && (forall i :: 0 <= i < 15 && i != 4 ==> !(bs[i].0 <= "@name"))
            && (forall i :: 0 <= i < 15 && '@' !in v.user ==> !(bs[i].0 <= v.user))
            && '@' !in "@name"[1..]
  {
    hide Bindings, KeyNumber;
    var bs := Bindings(v);
    forall i | 0 <= i < 15
      ensures bs[i].0 != [] && bs[i].0[0] == '@' && (i != 4 ==> !(bs[i].0 <= "@name"))
      ensures '@' !in v.user ==> !(bs[i].0 <= v.user)
    {
      KeysNumbered(v, i);
      KeysNumbered(v, 4);
      Listed(v);
      if bs[i].0 <= "@name" {
        SameLetters(bs[i].0, "@name");
      }
    }
  }

  /** What each of the fifteen keys becomes. */
  lemma KeyBecomes(v: Values)
    ensures Subst("@year", Bindings(v)) == v.year && Subst("@framework", Bindings(v)) == "0.6.4"
    ensures Subst("@instance", Bindings(v)) == v.instance && Subst("@date", Bindings(v)) == v.date
    ensures Subst("@name", Bindings(v)) == v.name && Subst("@user", Bindings(v)) == v.user
    ensures Subst("@uptime", Bindings(v)) == v.uptime && Subst("@env", Bindings(v)) == v.env
    ensures Subst("@domain", Bindings(v)) == v.domain && Subst("@method", Bindings(v)) == v.method_
    ensures Subst("@uri", Bindings(v)) == v.uri && Subst("@query_string", Bindings(v)) == v.query
    ensures Subst("@host", Bindings(v)) == v.host && Subst("@agent", Bindings(v)) == v.agent
    ensures Subst("@remote_addr", Bindings(v)) == v.remoteAddr
  {
    hide Bindings, Subst, GoodKeys;
    Listed(v);
    FifteenKeysGood(v);
    forall i | 0 <= i < 15
      ensures Subst(Bindings(v)[i].0, Bindings(v)) == Bindings(v)[i].1
    {
      KeysNumbered(v, i);
      assert Bindings(v)[i] in Bindings(v);
      SubstKey(Bindings(v)[i].0, Bindings(v)[i].1, Bindings(v));
    }
  }
}
