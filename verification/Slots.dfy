/**
 * The slot array of a key/value tree as a value: occupied slots hold an entry, holes hold nothing.
 * The operations of the tree are functions on it; the properties of whole runs are proved here.
 */
module Slots {
  import opened CString

  datatype Kind = KNull | KInt | KFloat | KString | KPointer

  datatype Value = VNull | VInt(i: int) | VFloat(r: real) | VStr(s: string) | VPtr(p: object?) {
    function Kind(): Kind {
      match this
      case VNull => KNull case VInt(_) => KInt case VFloat(_) => KFloat case VStr(_) => KString case VPtr(_) => KPointer
    }
  }

  datatype Entry = Entry(key: string, value: Value)

  type Slots = seq<Option<Entry>>

  function Holes(n: nat): (s: Slots)
    ensures |s| == n && forall i :: 0 <= i < n ==> s[i] == None
  {
    seq(n, _ => None)
  }

  /** tree_new_root. */
  const NEW_ROOT: Slots := Holes(10)

  /** tree_get_new_index: the first hole, or the number of slots when there is none. */
  function FirstHole(s: Slots): (i: nat)
    ensures i <= |s| && (i < |s| ==> s[i] == None) && forall j :: 0 <= j < i ==> s[j].Some?
  {
    if s == [] || s[0] == None then 0 else 1 + FirstHole(s[1..])
  }

  /** A put: into the first hole, or into the first of ten new slots. */
  function Put(s: Slots, e: Entry): (t: Slots)
    ensures |t| == if FirstHole(s) < |s| then |s| else |s| + 10
  {
    var i := FirstHole(s);
    if i < |s| then s[i := Some(e)] else s + [Some(e)] + Holes(9)
  }

  predicate Holds(slot: Option<Entry>, key: string) {
    slot.Some? && slot.value.key == key
  }

  predicate Contains(s: Slots, key: string) {
    exists i :: 0 <= i < |s| && Holds(s[i], key)
  }

  /** tree_remove on a writable tree: every slot with the key becomes a hole. */
  function Remove(s: Slots, key: string): (t: Slots)
    ensures |t| == |s|
    ensures forall i :: 0 <= i < |s| ==> t[i] == if Holds(s[i], key) then None else s[i]
  {
    seq(|s|, i requires 0 <= i < |s| => if Holds(s[i], key) then None else s[i])
  }

  /**
   * The scan of the typed gets: found is what the output holds so far. It is overwritten by every
   * entry under the key, until one of another type ends the scan.
   */
  function Get(s: Slots, key: string, kind: Kind, found: Option<Value>): Option<Value> {
    if s == [] then found
    else if !Holds(s[0], key) then Get(s[1..], key, kind, found)
    else if s[0].value.value.Kind() != kind then found
    else Get(s[1..], key, kind, Some(s[0].value.value))
  }

  // ---------------------------------------------------------------- runs

  datatype Op = OpPut(e: Entry) | OpRemove(key: string)

  /** One operation; a read-only tree ignores removes and only removes. */
  function Exec(s: Slots, readonly: bool, op: Op): Slots {
    match op
    case OpPut(e) => Put(s, e)
    case OpRemove(key) => if readonly then s else Remove(s, key)
  }

  function ExecAll(s: Slots, readonly: bool, ops: seq<Op>): Slots
    decreases |ops|
  {
    if ops == [] then s else ExecAll(Exec(s, readonly, ops[0]), readonly, ops[1..])
  }

  // ---------------------------------------------------------------- capacity

  function Occupied(s: Slots): nat {
    if s == [] then 0 else (if s[0].Some? then 1 else 0) + Occupied(s[1..])
  }

  function Max(a: nat, b: nat): nat { if a < b then b else a }

  /** The largest number of occupied slots at any point of a run. */
  function Peak(s: Slots, readonly: bool, ops: seq<Op>): nat
    decreases |ops|
  {
    if ops == [] then Occupied(s) else Max(Occupied(s), Peak(Exec(s, readonly, ops[0]), readonly, ops[1..]))
  }

  /** The least multiple of ten that is at least ten and at least n. */
  function CapacityFor(n: nat): (c: nat)
    ensures c % 10 == 0 && c >= 10 && c >= n && (c > 10 ==> c - 10 < n)
  {
    if n <= 10 then 10 else (n + 9) / 10 * 10
  }

  lemma {:induction false} OccupiedSplit(s: Slots, i: nat)
    requires i < |s|
    ensures Occupied(s) == Occupied(s[..i]) + (if s[i].Some? then 1 else 0) + Occupied(s[i + 1..])
    ensures Occupied(s) <= |s|
    decreases i
  {
    OccupiedBound(s);
    if i > 0 {
      OccupiedSplit(s[1..], i - 1);
      assert s[..i][1..] == s[1..][..i - 1];
    } else {
      assert s[..0] == [];
    }
  }

  lemma {:induction false} OccupiedBound(s: Slots)
    ensures Occupied(s) <= |s|
    ensures Occupied(s) == |s| <==> FirstHole(s) == |s|
  {
    if s != [] {
      OccupiedBound(s[1..]);
    }
  }

  lemma {:induction false} OccupiedAppend(s: Slots, t: Slots)
    ensures Occupied(s + t) == Occupied(s) + Occupied(t)
  {
    if s == [] {
      assert s + t == t;
    } else {
      assert (s + t)[1..] == s[1..] + t;
      OccupiedAppend(s[1..], t);
    }
  }

  lemma {:induction false} OccupiedHoles(n: nat)
    ensures Occupied(Holes(n)) == 0
  {
    if n > 0 {
      assert Holes(n)[1..] == Holes(n - 1);
      OccupiedHoles(n - 1);
    }
  }

  lemma OccupiedPut(s: Slots, e: Entry)
    ensures Occupied(Put(s, e)) == Occupied(s) + 1
  {
    var (i, t) := (FirstHole(s), Put(s, e));
    if i < |s| {
      OccupiedSplit(s, i);
      OccupiedSplit(t, i);
      assert t[..i] == s[..i] && t[i + 1..] == s[i + 1..];
    } else {
      OccupiedAppend(s + [Some(e)], Holes(9));
      OccupiedAppend(s, [Some(e)]);
      OccupiedHoles(9);
    }
  }

  lemma {:induction false} OccupiedRemove(s: Slots, key: string)
    ensures Occupied(Remove(s, key)) <= Occupied(s)
  {
    if s != [] {
      assert Remove(s, key)[1..] == Remove(s[1..], key);
      OccupiedRemove(s[1..], key);
    }
  }

  /** Along any run from a state whose capacity fits its peak so far, it goes on fitting. */
  lemma {:induction false} CapacityFromState(s: Slots, readonly: bool, ops: seq<Op>, peak: nat)
    requires Occupied(s) <= peak && |s| == CapacityFor(peak)
    ensures |ExecAll(s, readonly, ops)| == CapacityFor(Max(peak, Peak(s, readonly, ops)))
    decreases |ops|
  {
    if ops != [] {
      var t := Exec(s, readonly, ops[0]);
      OccupiedBound(s);
      match ops[0] {
        case OpPut(e) => OccupiedPut(s, e);
        case OpRemove(key) => OccupiedRemove(s, key);
      }
      CapacityFromState(t, readonly, ops[1..], Max(peak, Occupied(t)));
      PeakAtLeast(t, readonly, ops[1..]);
    }
  }

  lemma PeakAtLeast(s: Slots, readonly: bool, ops: seq<Op>)
    ensures Peak(s, readonly, ops) >= Occupied(s)
  {
  }

  /**
   * Over every run of a new tree the capacity is exactly what its peak occupancy needs: holes are
   * reused, and ten slots are added only when none is free.
   */
  lemma CapacityIsLeast(readonly: bool, ops: seq<Op>)
    ensures |ExecAll(NEW_ROOT, readonly, ops)| == CapacityFor(Peak(NEW_ROOT, readonly, ops))
  {
    OccupiedHoles(10);
    CapacityFromState(NEW_ROOT, readonly, ops, 0);
  }

  // ---------------------------------------------------------------- read-only trees

  /** The entries put by a run, in order. */
  function Puts(ops: seq<Op>): seq<Entry> {
    if ops == [] then []
    else match ops[0]
      case OpPut(e) => [e] + Puts(ops[1..])
      case OpRemove(_) => Puts(ops[1..])
  }

  /** The occupied slots are a prefix that holds these entries in this order. */
  ghost predicate IsLog(s: Slots, es: seq<Entry>) {
    && |es| <= |s|
    && (forall i :: 0 <= i < |es| ==> s[i] == Some(es[i]))
    && (forall i :: |es| <= i < |s| ==> s[i] == None)
  }

  /** A read-only tree is an append-only log of its puts, across removes and expansions. */
  lemma {:induction false} ReadonlyIsLog(s: Slots, ops: seq<Op>, es: seq<Entry>)
    requires IsLog(s, es)
    ensures IsLog(ExecAll(s, true, ops), es + Puts(ops))
    decreases |ops|
  {
    if ops == [] {
      assert es + [] == es;
    } else {
      match ops[0]
      case OpPut(e) =>
        HoleAfterLog(s, es);
        ReadonlyIsLog(Put(s, e), ops[1..], es + [e]);
        assert es + ([e] + Puts(ops[1..])) == es + [e] + Puts(ops[1..]);
      case OpRemove(_) =>
        ReadonlyIsLog(s, ops[1..], es);
    }
  }

  lemma HoleAfterLog(s: Slots, es: seq<Entry>)
    requires IsLog(s, es)
    ensures FirstHole(s) == |es|
  {
    assert |es| < |s| ==> s[|es|] == None;
  }

  /** The last entry under the key. */
  function LastPut(es: seq<Entry>, key: string): Option<Value> {
    if es == [] then None
    else if es[|es| - 1].key == key then Some(es[|es| - 1].value)
    else LastPut(es[..|es| - 1], key)
  }

  ghost predicate AllOfKind(es: seq<Entry>, key: string, kind: Kind) {
    forall i :: 0 <= i < |es| && es[i].key == key ==> es[i].value.Kind() == kind
  }

  /** What a typed get reads off a log: the last entry before the first one of another type. */
  function ReadLog(es: seq<Entry>, key: string, kind: Kind, found: Option<Value>): Option<Value> {
    if es == [] then found
    else if es[0].key != key then ReadLog(es[1..], key, kind, found)
    else if es[0].value.Kind() != kind then found
    else ReadLog(es[1..], key, kind, Some(es[0].value))
  }

  lemma {:induction false} GetOnLog(s: Slots, es: seq<Entry>, key: string, kind: Kind, found: Option<Value>)
    requires IsLog(s, es)
    ensures Get(s, key, kind, found) == ReadLog(es, key, kind, found)
    decreases |s|
  {
    if es != [] {
      GetOnLog(s[1..], es[1..], key, kind, if es[0].key == key then Some(es[0].value) else found);
    } else if s != [] {
      assert !Holds(s[0], key);
      GetOnLog(s[1..], [], key, kind, found);
    }
  }

  lemma {:induction false} ReadLogIsLast(es: seq<Entry>, key: string, kind: Kind, found: Option<Value>)
    requires AllOfKind(es, key, kind)
    ensures ReadLog(es, key, kind, found) == match LastPut(es, key) case None => found case Some(v) => Some(v)
  {
    if es != [] {
      var (e, rest) := (es[0], es[1..]);
      ReadLogIsLast(rest, key, kind, if e.key == key then Some(e.value) else found);
      LastPutFront(e, rest, key);
      assert es == [e] + rest;
    }
  }

  lemma {:induction false} LastPutFront(e: Entry, es: seq<Entry>, key: string)
    ensures LastPut([e] + es, key) ==
            match LastPut(es, key)
            case Some(v) => Some(v)
            case None => if e.key == key then Some(e.value) else None
    decreases |es|
  {
    var all := [e] + es;
    if es == [] {
      assert all[..|all| - 1] == [];
    } else {
      assert all[..|all| - 1] == [e] + es[..|es| - 1];
      LastPutFront(e, es[..|es| - 1], key);
    }
  }

  /**
   * After any run of puts and removes on a read-only tree, a typed get of a key whose entries all
   * have that type returns the most recently put value.
   */
  lemma LaterPutWins(ops: seq<Op>, key: string, kind: Kind)
    requires AllOfKind(Puts(ops), key, kind)
    ensures Get(ExecAll(NEW_ROOT, true, ops), key, kind, None) == LastPut(Puts(ops), key)
  {
    ReadonlyIsLog(NEW_ROOT, ops, []);
    assert [] + Puts(ops) == Puts(ops);
    GetOnLog(ExecAll(NEW_ROOT, true, ops), Puts(ops), key, kind, None);
    ReadLogIsLast(Puts(ops), key, kind, None);
  }

  // ---------------------------------------------------------------- writable trees

  ghost predicate UniqueKeys(s: Slots) {
    forall i, j :: 0 <= i < j < |s| && s[i].Some? && s[j].Some? ==> s[i].value.key != s[j].value.key
  }

  /** The slots hold exactly the pairs of the map, each once. */
  ghost predicate Represents(s: Slots, m: map<string, Value>) {
    && UniqueKeys(s)
    && (forall i :: 0 <= i < |s| && s[i].Some? ==> s[i].value.key in m && m[s[i].value.key] == s[i].value.value)
    && (forall k :: k in m ==> Contains(s, k))
  }

  function ExecMap(m: map<string, Value>, op: Op): map<string, Value> {
    match op
    case OpPut(e) => m[e.key := e.value]
    case OpRemove(key) => m - {key}
  }

  function ExecMapAll(m: map<string, Value>, ops: seq<Op>): map<string, Value>
    decreases |ops|
  {
    if ops == [] then m else ExecMapAll(ExecMap(m, ops[0]), ops[1..])
  }

  /** Every put of the run is of a key absent at that point. */
  ghost predicate PutsAbsent(m: map<string, Value>, ops: seq<Op>)
    decreases |ops|
  {
    ops == [] || ((ops[0].OpPut? ==> ops[0].e.key !in m) && PutsAbsent(ExecMap(m, ops[0]), ops[1..]))
  }

  lemma PutRepresents(s: Slots, m: map<string, Value>, e: Entry)
    requires Represents(s, m) && e.key !in m
    ensures Represents(Put(s, e), m[e.key := e.value])
  {
    var (t, h) := (Put(s, e), FirstHole(s));
    assert t[h] == Some(e);
    assert forall i :: 0 <= i < |t| && i != h ==> t[i] == if i < |s| then s[i] else None;
    forall k | k in m[e.key := e.value]
      ensures Contains(t, k)
    {
      if k == e.key {
        assert Holds(t[h], k);
      } else {
        var i :| 0 <= i < |s| && Holds(s[i], k);
        assert Holds(t[i], k);
      }
    }
  }

  lemma RemoveRepresents(s: Slots, m: map<string, Value>, key: string)
    requires Represents(s, m)
    ensures Represents(Remove(s, key), m - {key})
  {
    forall k | k in m && k != key
      ensures Contains(Remove(s, key), k)
    {
      var i :| 0 <= i < |s| && Holds(s[i], k);
      assert Holds(Remove(s, key)[i], k);
    }
  }

  /** A writable tree refines a finite map over every run that puts only absent keys. */
  lemma {:induction false} WritableIsMap(s: Slots, m: map<string, Value>, ops: seq<Op>)
    requires Represents(s, m) && PutsAbsent(m, ops)
    ensures Represents(ExecAll(s, false, ops), ExecMapAll(m, ops))
    decreases |ops|
  {
    if ops != [] {
      match ops[0] {
        case OpPut(e) => PutRepresents(s, m, e);
        case OpRemove(key) => RemoveRepresents(s, m, key);
      }
      WritableIsMap(Exec(s, false, ops[0]), ExecMap(m, ops[0]), ops[1..]);
    }
  }

  /** Contains and the typed gets agree with the map, whatever slots were reused. */
  lemma ReadsAgree(s: Slots, m: map<string, Value>, key: string, kind: Kind)
    requires Represents(s, m)
    ensures Contains(s, key) <==> key in m
    ensures Get(s, key, kind, None) == if key in m && m[key].Kind() == kind then Some(m[key]) else None
  {
    if i :| 0 <= i < |s| && Holds(s[i], key) {
      GetUnique(s, i, key, kind, None);
    } else {
      GetAbsent(s, key, kind, None);
    }
  }

  lemma {:induction false} GetAbsent(s: Slots, key: string, kind: Kind, found: Option<Value>)
    requires !Contains(s, key)
    ensures Get(s, key, kind, found) == found
  {
    if s != [] {
      assert !Holds(s[0], key);
      forall i | 0 <= i < |s[1..]| ensures !Holds(s[1..][i], key) { assert !Holds(s[i + 1], key); }
      GetAbsent(s[1..], key, kind, found);
    }
  }

  lemma {:induction false} GetUnique(s: Slots, i: nat, key: string, kind: Kind, found: Option<Value>)
    requires UniqueKeys(s) && i < |s| && Holds(s[i], key)
    ensures Get(s, key, kind, found) == if s[i].value.value.Kind() == kind then Some(s[i].value.value) else found
    decreases |s|
  {
    forall j | 0 <= j < |s| && j != i ensures !Holds(s[j], key) {}
    if i == 0 {
      assert !Contains(s[1..], key) by {
        forall j | 0 <= j < |s[1..]| ensures !Holds(s[1..][j], key) { assert !Holds(s[j + 1], key); }
      }
      if s[0].value.value.Kind() == kind {
        GetAbsent(s[1..], key, kind, Some(s[0].value.value));
      }
    } else {
      GetUnique(s[1..], i - 1, key, kind, found);
    }
  }

  /** From a new tree: what any such run leaves is what the map says. */
  lemma WritableRun(ops: seq<Op>, key: string, kind: Kind)
    requires PutsAbsent(map[], ops)
    ensures var (s, m) := (ExecAll(NEW_ROOT, false, ops), ExecMapAll(map[], ops));
            && (Contains(s, key) <==> key in m)
            && Get(s, key, kind, None) == if key in m && m[key].Kind() == kind then Some(m[key]) else None
  {
    WritableIsMap(NEW_ROOT, map[], ops);
    ReadsAgree(ExecAll(NEW_ROOT, false, ops), ExecMapAll(map[], ops), key, kind);
  }

  // ---------------------------------------------------------------- duplicates and reused holes

  ghost predicate KeyOfKind(s: Slots, key: string, kind: Kind) {
    forall i :: 0 <= i < |s| && Holds(s[i], key) ==> s[i].value.value.Kind() == kind
  }

  lemma {:induction false} GetAppend(s: Slots, t: Slots, key: string, kind: Kind, found: Option<Value>)
    requires KeyOfKind(s, key, kind)
    ensures Get(s + t, key, kind, found) == Get(t, key, kind, Get(s, key, kind, found))
    decreases |s|
  {
    if s == [] {
      assert s + t == t;
    } else {
      assert (s + t)[1..] == s[1..] + t;
      GetAppend(s[1..], t, key, kind, if Holds(s[0], key) then Some(s[0].value.value) else found);
    }
  }

  lemma {:induction false} GetForgets(s: Slots, key: string, kind: Kind, found: Option<Value>, found': Option<Value>)
    requires KeyOfKind(s, key, kind) && Contains(s, key)
    ensures Get(s, key, kind, found) == Get(s, key, kind, found')
    decreases |s|
  {
    if !Holds(s[0], key) {
      var i :| 0 <= i < |s| && Holds(s[i], key);
      assert Holds(s[1..][i - 1], key);
      GetForgets(s[1..], key, kind, found, found');
    }
  }

  /**
   * A get after a put, with any duplicates and holes: it returns the value just put when every
   * older entry under the key stands before the first hole, and the old value otherwise.
   */
  lemma PutThenGet(s: Slots, e: Entry)
    requires KeyOfKind(s, e.key, e.value.Kind())
    ensures Get(Put(s, e), e.key, e.value.Kind(), None) ==
            if forall i :: 0 <= i < |s| && Holds(s[i], e.key) ==> i < FirstHole(s) then Some(e.value)
            else Get(s, e.key, e.value.Kind(), None)
  {
    hide Get, Contains, Put;
    var h := FirstHole(s);
    PutSplit(s, e);
    if h < |s| {
      var b := s[h + 1..];
      PutBetween(s[..h], e, b);
      if Contains(b, e.key) {
        ShadowedBehind(s, h, e.key, e.value.Kind(), e.value);
      } else {
        AllBefore(s, h, e.key);
      }
    } else {
      NoneInHoles(9, e.key);
      PutBetween(s[..h], e, Holes(9));
    }
  }

  lemma PutSplit(s: Slots, e: Entry)
    ensures var h := FirstHole(s);
            Put(s, e) == (s[..h] + [Some(e)]) + (if h < |s| then s[h + 1..] else Holes(9))
  {
    var h := FirstHole(s);
    if h < |s| { UpdateSplit(s, h, Some(e)); } else { UpdateEnd(s); }
  }

  lemma UpdateSplit<T>(s: seq<T>, h: nat, x: T)
    requires h < |s|
    ensures s[h := x] == (s[..h] + [x]) + s[h + 1..]
  {
  }

  lemma UpdateEnd<T>(s: seq<T>)
    ensures s[..|s|] == s
  {
  }

  lemma NoneInHoles(n: nat, key: string)
    ensures !Contains(Holes(n), key)
  {
  }

  lemma ShadowedBehind(s: Slots, h: nat, key: string, kind: Kind, v: Value)
    requires h < |s| && s[h] == None && KeyOfKind(s, key, kind) && Contains(s[h + 1..], key)
    ensures Get(s[h + 1..], key, kind, Some(v)) == Get(s, key, kind, None)
    ensures exists i :: 0 <= i < |s| && Holds(s[i], key) && i >= h
  {
    var (a, b) := (s[..h] + [None], s[h + 1..]);
    assert s == a + b;
    GetAppend(a, b, key, kind, None);
    GetForgets(b, key, kind, Some(v), Get(a, key, kind, None));
    var i :| 0 <= i < |b| && Holds(b[i], key);
    assert Holds(s[h + 1 + i], key);
  }

  lemma PutBetween(a: Slots, e: Entry, b: Slots)
    requires KeyOfKind(a, e.key, e.value.Kind())
    ensures Get((a + [Some(e)]) + b, e.key, e.value.Kind(), None) == Get(b, e.key, e.value.Kind(), Some(e.value))
    ensures !Contains(b, e.key) ==> Get((a + [Some(e)]) + b, e.key, e.value.Kind(), None) == Some(e.value)
  {
    var (key, kind) := (e.key, e.value.Kind());
    GetAppend(a, [Some(e)], key, kind, None);
    GetAppend(a + [Some(e)], b, key, kind, None);
    assert Get([Some(e)], key, kind, Get(a, key, kind, None)) == Some(e.value);
    if !Contains(b, key) {
      GetAbsent(b, key, kind, Some(e.value));
    }
  }

  lemma AllBefore(s: Slots, h: nat, key: string)
    requires h < |s| && s[h] == None && !Contains(s[h + 1..], key)
    ensures forall i :: 0 <= i < |s| && Holds(s[i], key) ==> i < h
  {
    forall i | h < i < |s|
      ensures !Holds(s[i], key)
    {
      assert s[h + 1..][i - h - 1] == s[i];
    }
  }

  /** Concretely: a put into a reused hole is shadowed by an older entry in a later slot. */
  lemma StaleRead()
    ensures var ops := [OpPut(Entry("a", VInt(0))), OpPut(Entry("k", VInt(1))), OpRemove("a"), OpPut(Entry("k", VInt(2)))];
            Get(ExecAll(NEW_ROOT, false, ops), "k", KInt, None) == Some(VInt(1))
  {
    var (a, k1, k2) := (Entry("a", VInt(0)), Entry("k", VInt(1)), Entry("k", VInt(2)));
    var s1 := [Some(a)] + Holes(9);
    var s2 := [Some(a), Some(k1)] + Holes(8);
    var s3 := [None, Some(k1)] + Holes(8);
    var s4 := [Some(k2), Some(k1)] + Holes(8);
    assert Put(NEW_ROOT, a) == s1;
    assert Put(s1, k1) == s2 by { assert FirstHole(s1) == 1; }
    assert Remove(s2, "a") == s3;
    assert Put(s3, k2) == s4;
    assert s4[1..][1..] == Holes(8);
    GetAbsent(Holes(8), "k", KInt, Some(VInt(1)));
    var ops := [OpPut(a), OpPut(k1), OpRemove("a"), OpPut(k2)];
    assert ops[1..] == [OpPut(k1), OpRemove("a"), OpPut(k2)];
    assert ops[1..][1..] == [OpRemove("a"), OpPut(k2)];
    assert ops[1..][1..][1..] == [OpPut(k2)];
    assert ExecAll(s4, false, []) == s4;
    assert ExecAll(s3, false, [OpPut(k2)]) == s4;
    assert ExecAll(s2, false, ops[1..][1..]) == s4;
    assert ExecAll(s1, false, ops[1..]) == s4;
  }

  // ---------------------------------------------------------------- types

  /** A value put under a fresh key comes back through the get of its own type, and through no other. */
  lemma EachTypeReadsBack(s: Slots, key: string, i: int, r: real, t: string, p: object?)
    requires !Contains(s, key)
    ensures Get(Put(s, Entry(key, VInt(i))), key, KInt, None) == Some(VInt(i))
    ensures Get(Put(s, Entry(key, VFloat(r))), key, KFloat, None) == Some(VFloat(r))
    ensures Get(Put(s, Entry(key, VStr(t))), key, KString, None) == Some(VStr(t))
    ensures Get(Put(s, Entry(key, VPtr(p))), key, KPointer, None) == Some(VPtr(p))
    ensures forall v: Value, kind :: v.Kind() != kind ==> Get(Put(s, Entry(key, v)), key, kind, None) == None
  {
    hide Get, Put, Contains;
    FreshPut(s, key, VInt(i)); FreshPut(s, key, VFloat(r)); FreshPut(s, key, VStr(t)); FreshPut(s, key, VPtr(p));
    forall v: Value, kind | v.Kind() != kind
      ensures Get(Put(s, Entry(key, v)), key, kind, None) == None
    {
      FreshPut(s, key, v);
    }
  }

  lemma FreshPut(s: Slots, key: string, v: Value)
    requires !Contains(s, key)
    ensures forall kind :: Get(Put(s, Entry(key, v)), key, kind, None) == if v.Kind() == kind then Some(v) else None
  {
    hide Get, Put, Contains;
    forall kind
      ensures Get(Put(s, Entry(key, v)), key, kind, None) == if v.Kind() == kind then Some(v) else None
    {
      var h := FirstHole(s);
      PutSplit(s, Entry(key, v));
      var b := if h < |s| then s[h + 1..] else Holes(9);
      NoneAround(s, h, key);
      GetInMiddle(s[..h], key, v, b, kind);
    }
  }

  lemma NoneAround(s: Slots, h: nat, key: string)
    requires !Contains(s, key) && h <= |s|
    ensures !Contains(s[..h], key) && (h < |s| ==> !Contains(s[h + 1..], key)) && !Contains(Holes(9), key)
  {
    NoneInHoles(9, key);
    forall i | 0 <= i < h
      ensures !Holds(s[..h][i], key)
    {
      assert s[..h][i] == s[i];
    }
    if h < |s| {
      var b := s[h + 1..];
      forall i | 0 <= i < |b|
        ensures !Holds(b[i], key)
      {
        assert b[i] == s[h + 1 + i];
      }
    }
  }

  lemma {:induction false} GetInMiddle(a: Slots, key: string, v: Value, b: Slots, kind: Kind)
    requires !Contains(a, key) && !Contains(b, key)
    ensures Get((a + [Some(Entry(key, v))]) + b, key, kind, None) == if v.Kind() == kind then Some(v) else None
    decreases |a|
  {
    var s := (a + [Some(Entry(key, v))]) + b;
    if a == [] {
      assert s[0] == Some(Entry(key, v)) && s[1..] == b;
      GetAbsent(b, key, kind, Some(v));
    } else {
      assert s[0] == a[0] && s[1..] == (a[1..] + [Some(Entry(key, v))]) + b;
      assert !Holds(a[0], key);
      forall i | 0 <= i < |a[1..]|
        ensures !Holds(a[1..][i], key)
      {
        assert a[1..][i] == a[i + 1];
      }
      GetInMiddle(a[1..], key, v, b, kind);
    }
  }

  /** An entry of another type ends a get: nothing behind it is seen. */
  lemma {:induction false} OtherTypeEndsGet(a: Slots, e: Entry, b: Slots, kind: Kind, found: Option<Value>)
    requires KeyOfKind(a, e.key, kind) && e.value.Kind() != kind
    ensures Get(a + ([Some(e)] + b), e.key, kind, found) == Get(a, e.key, kind, found)
    decreases |a|
  {
    var s := a + ([Some(e)] + b);
    if a == [] {
      assert s[0] == Some(e);
    } else {
      assert s[0] == a[0] && s[1..] == a[1..] + ([Some(e)] + b);
      assert Holds(a[0], e.key) ==> a[0].value.value.Kind() == kind;
      forall i | 0 <= i < |a[1..]| && Holds(a[1..][i], e.key)
        ensures a[1..][i].value.value.Kind() == kind
      {
        assert a[1..][i] == a[i + 1];
      }
      OtherTypeEndsGet(a[1..], e, b, kind, if Holds(a[0], e.key) then Some(a[0].value.value) else found);
    }
  }

  /** A removed key is gone with all its entries, and every other key reads as before. */
  lemma RemovedIsGone(s: Slots, key: string, other: string, kind: Kind, found: Option<Value>)
    requires other != key
    ensures !Contains(Remove(s, key), key)
    ensures Get(Remove(s, key), other, kind, found) == Get(s, other, kind, found)
  {
    hide Remove, Get;
    forall i | 0 <= i < |s|
      ensures !Holds(Remove(s, key)[i], key)
    {
    }
    OthersRead(s, Remove(s, key), key, other, kind, found);
  }

  lemma {:induction false} OthersRead(s: Slots, t: Slots, key: string, other: string, kind: Kind, found: Option<Value>)
    requires other != key && |s| == |t| && forall i :: 0 <= i < |s| ==> t[i] == if Holds(s[i], key) then None else s[i]
    ensures Get(t, other, kind, found) == Get(s, other, kind, found)
    decreases |s|
  {
    if s != [] && !(Holds(s[0], other) && s[0].value.value.Kind() != kind) {
      assert forall i :: 0 <= i < |s[1..]| ==> s[1..][i] == s[i + 1] && t[1..][i] == t[i + 1];
      OthersRead(s[1..], t[1..], key, other, kind, if Holds(s[0], other) then Some(s[0].value.value) else found);
    }
  }
}
