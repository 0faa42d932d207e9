/** The argument list of a function macro, split at its commas. */
module Arguments {
  import opened CString
  import opened Compat

  const MAX_ARGS := 16

  /**
   * The pieces between commas, where the first from chars are not looked at: behind a comma the
   * source goes on to the char after the next.
   */
  function Split(s: string, from: nat): (r: seq<string>)
    ensures |r| > 0
    decreases |s|
  {
    if from >= |s| then [Trim(s)]
    else match StrChr(s, from, ',')
      case None => [Trim(s)]
      case Some(c) => [Trim(s[..c])] + Split(s[c + 1..], 1)
  }

  function ArgumentsOf(s: string): (r: seq<string>)
    ensures |r| > 0
  {
    if StrChr(s, 0, ',').None? then [s] else Split(s, 0)
  }

  // ---------------------------------------------------------------- splitting in memory

  /** The memory and the arguments after the split; or just the memory, once argv has no room for the last one. */
  datatype Outcome = Listed(mem: string, argv: seq<string>) | Full(mem: string)

  /** The loop from i on, up to end, when the argument to come starts at next. */
  function Walk(mem: string, end: nat, argv: seq<string>, next: nat, i: nat): (r: Outcome)
    requires end <= |mem| && next <= i && next <= |mem|
    ensures |r.mem| == |mem|
    decreases end - i
  {
    if i < end && |argv| < MAX_ARGS then
      if mem[i] == ',' then
        var cut := mem[i := NUL];
        Walk(RStripped(cut, next), end, argv + [Trim(CStr(cut, next))], i + 1, i + 2)
      else Walk(mem, end, argv, next, i + 1)
    else if |argv| < MAX_ARGS then Listed(RStripped(mem, next), argv + [Trim(CStr(mem, next))])
    else Full(mem)
  }

  /** split_arguments on the C string at start, for a length that ends at end. */
  function SplitMemory(mem: string, start: nat, end: nat): (r: Outcome)
    requires start <= end <= |mem|
    ensures |r.mem| == |mem|
  {
    if StrChr(mem, start, ',').None? then Listed(mem, [CStr(mem, start)]) else Walk(mem, end, [], start, start)
  }

  /** split_arguments, in memory of which the first n chars are in use. */
  method SplitArguments(a: array<char>, n: nat, start: nat, end: nat)
    returns (argv: array<string>, argc: nat, full: bool)
    requires start <= end <= n <= a.Length
    modifies a
    ensures fresh(argv) && argc <= argv.Length
    ensures (if full then Full(a[..n]) else Listed(a[..n], argv[..argc])) == SplitMemory(old(a[..n]), start, end)
    ensures forall i :: n <= i < a.Length ==> a[i] == old(a[i])
  {
    hide Walk, SplitMemory, StrLen, StrChr, RStripped, Trim;
    argv := new string[MAX_ARGS](_ => "");
    argc, full := 0, false;
    SplitStarts(a[..n], start, end);
    if StrChr(a[..n], start, ',').None? {
      argc := Append(argv, 0, CStr(a[..n], start));
      return;
    }
    var i: nat, next: nat := start, start;
    while i < end && argc < MAX_ARGS
      invariant next <= i && next <= n && argc <= MAX_ARGS == argv.Length && fresh(argv)
      invariant forall j :: n <= j < a.Length ==> a[j] == old(a[j])
      invariant Walk(a[..n], end, argv[..argc], next, i) == SplitMemory(old(a[..n]), start, end)
      decreases end - i
    {
      WalkStep(a[..n], end, argv[..argc], next, i);
      if a[i] == ',' {
        ghost var mem := a[..n];
        a[i] := NUL;
        assert a[..n] == mem[i := NUL];
        argc := TakeOne(a, n, next, argv, argc);
        i := i + 1;
        next := i;
      }
      i := i + 1;
    }
    WalkEnds(a[..n], end, argv[..argc], next, i);
    if argc == MAX_ARGS {
      full := true;
    } else {
      argc := TakeOne(a, n, next, argv, argc);
    }
  }

  lemma SplitStarts(mem: string, start: nat, end: nat)
    requires start <= end <= |mem|
    ensures SplitMemory(mem, start, end) ==
            if StrChr(mem, start, ',').None? then Listed(mem, [CStr(mem, start)]) else Walk(mem, end, [], start, start)
  {
  }

  lemma WalkStep(mem: string, end: nat, argv: seq<string>, next: nat, i: nat)
    requires i < end <= |mem| && next <= i && |argv| < MAX_ARGS
    ensures var cut := mem[i := NUL];
            Walk(mem, end, argv, next, i) ==
            if mem[i] == ',' then Walk(RStripped(cut, next), end, argv + [Trim(CStr(cut, next))], i + 1, i + 2)
            else Walk(mem, end, argv, next, i + 1)
  {
    hide RStripped, CStr, Trim;
  }

  lemma WalkEnds(mem: string, end: nat, argv: seq<string>, next: nat, i: nat)
    requires end <= |mem| && next <= i && next <= |mem| && (i >= end || |argv| >= MAX_ARGS)
    ensures Walk(mem, end, argv, next, i) ==
            if |argv| < MAX_ARGS then Listed(RStripped(mem, next), argv + [Trim(CStr(mem, next))]) else Full(mem)
  {
    hide RStripped, CStr, Trim;
  }

  /** One argument is trimmed in place and appended. */
  method TakeOne(a: array<char>, n: nat, next: nat, argv: array<string>, argc: nat) returns (argc': nat)
    requires next <= n <= a.Length && argc < argv.Length
    modifies a, argv
    ensures a[..n] == RStripped(old(a[..n]), next)
    ensures argc' == argc + 1 && argv[..argc'] == old(argv[..argc]) + [Trim(CStr(old(a[..n]), next))]
    ensures forall i :: n <= i < a.Length ==> a[i] == old(a[i])
  {
    hide TrimLeft, TrimRight, StrLen, RStripped;
    RStrippedText(a[..n], next);
    RStripWithin(a, next, n);
    argc' := Append(argv, argc, TrimLeft(CStr(a[..n], next)));
  }

  /** One more argument behind the first argc. */
  method Append(argv: array<string>, argc: nat, argument: string) returns (argc': nat)
    requires argc < argv.Length
    modifies argv
    ensures argc' == argc + 1 && argv[..argc'] == old(argv[..argc]) + [argument]
  {
    argv[argc] := argument;
    argc' := argc + 1;
  }

  // ---------------------------------------------------------------- behind the bracket

  /** Nothing in the split writes anything but NUL, before the C string at start or anywhere else. */
  ghost predicate OnlyNuls(mem: string, mem': string) {
    |mem| == |mem'| && forall j :: 0 <= j < |mem| ==> mem'[j] == mem[j] || mem'[j] == NUL
  }

  lemma {:induction false} WalkWritesNuls(mem: string, end: nat, argv: seq<string>, next: nat, i: nat)
    requires end <= |mem| && next <= i && next <= |mem|
    ensures OnlyNuls(mem, Walk(mem, end, argv, next, i).mem)
    ensures forall j :: 0 <= j < next ==> Walk(mem, end, argv, next, i).mem[j] == mem[j]
    decreases end - i
  {
    hide RStripped, CStr, Trim, Walk;
    if i < end && |argv| < MAX_ARGS {
      WalkStep(mem, end, argv, next, i);
      if mem[i] == ',' {
        var cut := mem[i := NUL];
        RStrippedAt(cut, next);
        WalkWritesNuls(RStripped(cut, next), end, argv + [Trim(CStr(cut, next))], i + 1, i + 2);
        NulsAgain(mem, cut, RStripped(cut, next));
        NulsAgain(mem, RStripped(cut, next), Walk(mem, end, argv, next, i).mem);
      } else {
        WalkWritesNuls(mem, end, argv, next, i + 1);
      }
    } else {
      WalkEnds(mem, end, argv, next, i);
      RStrippedAt(mem, next);
    }
  }

  lemma NulsAgain(x: string, y: string, z: string)
    requires OnlyNuls(x, y) && OnlyNuls(y, z)
    ensures OnlyNuls(x, z)
  {
  }

  lemma SplitWritesNuls(mem: string, start: nat, end: nat)
    requires start <= end <= |mem|
    ensures OnlyNuls(mem, SplitMemory(mem, start, end).mem)
    ensures forall j :: 0 <= j < start ==> SplitMemory(mem, start, end).mem[j] == mem[j]
  {
    hide Walk, StrChr, CStr;
    WalkWritesNuls(mem, end, [], start, start);
  }

  /** No comma is left to be seen. */
  lemma {:induction false} WalkOn(mem: string, end: nat, argv: seq<string>, next: nat, i: nat)
    requires end <= |mem| && next <= i && next <= |mem| && |argv| < MAX_ARGS && forall j :: i <= j < end ==> mem[j] != ','
    ensures Walk(mem, end, argv, next, i) == Listed(RStripped(mem, next), argv + [Trim(CStr(mem, next))])
    decreases end - i
  {
    hide RStripped, CStr, Trim, Walk;
    if i < end {
      WalkStep(mem, end, argv, next, i);
      WalkOn(mem, end, argv, next, i + 1);
    } else {
      WalkEnds(mem, end, argv, next, i);
    }
  }

  /** The list never gets shorter. */
  lemma {:induction false} WalkLengthens(mem: string, end: nat, argv: seq<string>, next: nat, i: nat)
    requires end <= |mem| && next <= i && next <= |mem|
    ensures Walk(mem, end, argv, next, i).Listed? ==> |Walk(mem, end, argv, next, i).argv| > |argv|
    decreases end - i
  {
    hide RStripped, CStr, Trim, Walk;
    if i < end && |argv| < MAX_ARGS {
      WalkStep(mem, end, argv, next, i);
      if mem[i] == ',' {
        var cut := mem[i := NUL];
        WalkLengthens(RStripped(cut, next), end, argv + [Trim(CStr(cut, next))], i + 1, i + 2);
      } else {
        WalkLengthens(mem, end, argv, next, i + 1);
      }
    } else {
      WalkEnds(mem, end, argv, next, i);
    }
  }

  /** A comma still to be seen makes the list longer by more than the last argument. */
  lemma {:induction false} WalkFinds(mem: string, end: nat, argv: seq<string>, next: nat, i: nat, j: nat)
    requires end <= |mem| && next <= i && next <= |mem| && |argv| < MAX_ARGS && i <= j < end && mem[j] == ','
    ensures Walk(mem, end, argv, next, i).Listed? ==> |Walk(mem, end, argv, next, i).argv| > |argv| + 1
    decreases end - i
  {
    hide RStripped, CStr, Trim, Walk;
    WalkStep(mem, end, argv, next, i);
    if mem[i] == ',' {
      var cut := mem[i := NUL];
      WalkLengthens(RStripped(cut, next), end, argv + [Trim(CStr(cut, next))], i + 1, i + 2);
    } else {
      WalkFinds(mem, end, argv, next, i + 1, j);
    }
  }

  /** Memory with what is left of the argument, the NULs that end it, and the text behind the bracket. */
  function Memory(q: string, rest: string, nuls: nat, behind: string): string {
    q + rest + Nuls(nuls + 1) + behind
  }

  lemma MemoryParts(q: string, rest: string, nuls: nat, behind: string)
    requires NulFree(rest)
    ensures var mem := Memory(q, rest, nuls, behind);
            && |mem| == |q| + |rest| + nuls + 1 + |behind| && CStr(mem, |q|) == rest
            && (forall j :: 0 <= j < |rest| ==> mem[|q| + j] == rest[j])
            && (forall j :: |q| + |rest| <= j <= |q| + |rest| + nuls ==> mem[j] == NUL)
            && (forall j :: 0 <= j < |behind| ==> mem[|q| + |rest| + nuls + 1 + j] == behind[j])
  {
    hide CStr;
    var mem := Memory(q, rest, nuls, behind);
    assert mem[|q|..|q| + |rest|] == rest;
    CStrIs(mem, |q|, rest);
  }

  /** What one comma of the argument does to the memory. */
  lemma MemoryCut(q: string, rest: string, nuls: nat, behind: string, c: nat) returns (q': string)
    requires NulFree(rest) && c < |rest| && rest[c] == ','
    ensures var cut := Memory(q, rest, nuls, behind)[|q| + c := NUL];
            && |q| <= |cut| && CStr(cut, |q|) == rest[..c] && |q'| == |q| + c + 1
            && RStripped(cut, |q|) == Memory(q', rest[c + 1..], nuls, behind)
  {
    hide CStr, RStripped;
    var mem := Memory(q, rest, nuls, behind);
    var cut := mem[|q| + c := NUL];
    MemoryParts(q, rest, nuls, behind);
    assert cut[|q|..|q| + c] == rest[..c];
    CStrIs(cut, |q|, rest[..c]);
    RStrippedAt(cut, |q|);
    var r := RStripped(cut, |q|);
    q' := r[..|q| + c + 1];
    assert r[|q| + c + 1..] == mem[|q| + c + 1..];
    MemoryTail(q, rest, nuls, behind, c + 1);
    assert r == q' + r[|q| + c + 1..];
    Regroup(q', rest[c + 1..], Nuls(nuls + 1), behind);
  }

  lemma MemoryTail(q: string, rest: string, nuls: nat, behind: string, k: nat)
    requires k <= |rest|
    ensures Memory(q, rest, nuls, behind)[|q| + k..] == rest[k..] + Nuls(nuls + 1) + behind
  {
  }

  lemma Regroup(x: string, y: string, z: string, w: string)
    ensures x + (y + z + w) == x + y + z + w
  {
  }

  /** The walk over the argument itself takes apart what the text alone would be split into. */
  lemma {:induction false} WalkArgument(q: string, rest: string, nuls: nat, behind: string, end: nat, argv: seq<string>,
                                        from: nat) returns (q': string, rest': string, argv': seq<string>, from': nat)
    requires NulFree(rest) && |q| + |rest| <= end <= |q| + |rest| + nuls + 1 + |behind| && from <= |rest| + 1
    requires |argv| + |Split(rest, from)| <= MAX_ARGS
    ensures NulFree(rest') && |rest'| <= from' <= |rest'| + 1 && |q'| + |rest'| == |q| + |rest|
    ensures argv' + [Trim(rest')] == argv + Split(rest, from)
    ensures var (mem, mem') := (Memory(q, rest, nuls, behind), Memory(q', rest', nuls, behind));
            && |mem| == |mem'| && end <= |mem|
            && Walk(mem, end, argv, |q|, |q| + from) == Walk(mem', end, argv', |q'|, |q'| + from')
    decreases |rest|, |rest| + 1 - from
  {
    hide Trim, Walk, Memory, Split, CStr, RStripped, StrChr;
    MemoryParts(q, rest, nuls, behind);
    var mem := Memory(q, rest, nuls, behind);
    if from >= |rest| {
      SplitEnd(rest, from);
      q', rest', argv', from' := q, rest, argv, from;
    } else {
      WalkStep(mem, end, argv, |q|, |q| + from) by { SplitSome(rest, from); }
      if rest[from] == ',' {
        SplitComma(rest, from);
        var r := MemoryCut(q, rest, nuls, behind, from);
        var x := Trim(rest[..from]);
        q', rest', argv', from' := WalkArgument(r, rest[from + 1..], nuls, behind, end, argv + [x], 1);
        Shift(argv, x, Split(rest[from + 1..], 1));
      } else {
        SplitOther(rest, from);
        q', rest', argv', from' := WalkArgument(q, rest, nuls, behind, end, argv, from + 1);
      }
    }
  }

  lemma SplitSome(s: string, k: nat)
    ensures |Split(s, k)| > 0
  {
  }

  lemma SplitEnd(s: string, k: nat)
    requires k >= |s|
    ensures Split(s, k) == [Trim(s)]
  {
  }

  lemma SplitComma(s: string, k: nat)
    requires k < |s| && s[k] == ',' && NulFree(s)
    ensures Split(s, k) == [Trim(s[..k])] + Split(s[k + 1..], 1)
  {
    hide Trim;
  }

  lemma SplitOther(s: string, k: nat)
    requires k < |s| && s[k] != ',' && NulFree(s)
    ensures Split(s, k) == Split(s, k + 1)
  {
    hide Trim;
  }

  lemma Shift(a: seq<string>, x: string, b: seq<string>)
    ensures a + ([x] + b) == a + [x] + b
  {
  }

  /** How much of the text behind the bracket the loop looks at, after that many blanks before the argument. */
  function Reach(lead: nat, behind: string): nat {
    if lead < 2 then 0 else Min(|behind|, lead - 1)
  }

  /** The split keeps to the argument: it has no comma, or there is none within reach behind the bracket. */
  predicate KeepsTo(argument: string, lead: nat, behind: string) {
    ',' !in argument || ',' !in behind[..Reach(lead, behind)]
  }

  ghost predicate SameFrom(x: string, y: string, k: nat) {
    |x| == |y| && forall j :: k <= j < |x| ==> x[j] == y[j]
  }

  /**
   * The argument at front, with as many blanks cut off behind it as nuls says, is split for the length that
   * it had with its blanks: the list is that of the argument alone, and nothing from its bracket on changes,
   * if and only if the split keeps to the argument.
   */
  lemma SplitExactly(front: string, argument: string, lead: nat, nuls: nat, behind: string)
    requires NulFree(argument) && |ArgumentsOf(argument)| <= MAX_ARGS
    ensures var mem := Memory(front, argument, nuls, behind);
            var bracket := |front| + |argument| + nuls;
            var end := Min(|mem|, |front| + lead + |argument| + nuls);
            && |front| <= end && bracket < |mem|
            && (KeepsTo(argument, lead, behind) <==>
                  var r := SplitMemory(mem, |front|, end);
                  r.Listed? && r.argv == ArgumentsOf(argument) && SameFrom(r.mem, mem, bracket))
  {
    hide Trim, Walk, Memory, Split, CStr, RStripped, StrChr;
    MemoryParts(front, argument, nuls, behind);
    var mem := Memory(front, argument, nuls, behind);
    var end := Min(|mem|, |front| + lead + |argument| + nuls);
    CommaSeen(front, argument, nuls, behind);
    if ',' in argument {
      SplitInReach(front, argument, lead, nuls, behind, end);
    }
  }

  lemma CommaSeen(front: string, argument: string, nuls: nat, behind: string)
    requires NulFree(argument)
    ensures |front| <= |Memory(front, argument, nuls, behind)|
    ensures StrChr(Memory(front, argument, nuls, behind), |front|, ',').Some? <==> ',' in argument
    ensures StrChr(argument, 0, ',').Some? <==> ',' in argument
  {
    hide Memory, CStr;
    var mem := Memory(front, argument, nuls, behind);
    MemoryParts(front, argument, nuls, behind);
    if ',' in argument {
      var c := FirstComma(argument);
      StrChrIs(argument, 0, ',', c);
      StrChrIs(mem, |front|, ',', |front| + c);
    } else {
      forall j | |front| <= j < |front| + |argument|
        ensures mem[j] != ','
      {
        assert mem[|front| + (j - |front|)] == argument[j - |front|];
      }
      NotBeforeNul(mem, |front|, |front| + |argument|);
    }
  }

  lemma NotBeforeNul(mem: string, p: nat, e: nat)
    requires p <= e < |mem| && mem[e] == NUL && forall j :: p <= j < e ==> mem[j] != ','
    ensures StrChr(mem, p, ',') == None
  {
  }

  lemma FirstComma(s: string) returns (c: nat)
    requires ',' in s
    ensures c < |s| && s[c] == ',' && ',' !in s[..c]
  {
    c := 0;
    while s[c] != ','
      invariant c < |s| && ',' !in s[..c] && ',' in s[c..]
      decreases |s| - c
    {
      assert s[c..] == [s[c]] + s[c + 1..] && s[..c + 1] == s[..c] + [s[c]];
      c := c + 1;
    }
  }

  /** The same for an argument with a comma, whose list the walk makes. */
  lemma SplitInReach(front: string, argument: string, lead: nat, nuls: nat, behind: string, end: nat)
    requires NulFree(argument) && |Split(argument, 0)| <= MAX_ARGS
    requires end == Min(|Memory(front, argument, nuls, behind)|, |front| + lead + |argument| + nuls)
    ensures var mem := Memory(front, argument, nuls, behind);
            var bracket := |front| + |argument| + nuls;
            && |front| <= end <= |mem| && bracket < |mem|
            && ((',' !in behind[..Reach(lead, behind)]) <==>
                  var r := Walk(mem, end, [], |front|, |front|);
                  r.Listed? && r.argv == Split(argument, 0) && SameFrom(r.mem, mem, bracket))
  {
    hide Trim, Walk, Memory, Split, CStr, RStripped, StrChr;
    MemoryParts(front, argument, nuls, behind);
    var q, rest, argv, from := WalkArgument(front, argument, nuls, behind, end, [], 0);
    assert [] + Split(argument, 0) == Split(argument, 0);
    var (mem, mem') := (Memory(front, argument, nuls, behind), Memory(q, rest, nuls, behind));
    MemoryParts(q, rest, nuls, behind);
    var bracket := |front| + |argument| + nuls;
    if j :| 0 <= j < Reach(lead, behind) && behind[..Reach(lead, behind)][j] == ',' {
      assert mem'[bracket + 1 + j] == ',';
      WalkFinds(mem', end, argv, |q|, |q| + from, bracket + 1 + j);
    } else {
      forall j | |q| + from <= j < end
        ensures mem'[j] != ','
      {
        if j > bracket {
          assert mem'[bracket + 1 + (j - bracket - 1)] == behind[j - bracket - 1] == behind[..Reach(lead, behind)][j - bracket - 1];
        }
      }
      WalkOn(mem', end, argv, |q|, |q| + from);
      RStrippedAt(mem', |q|);
      SameBehind(q, rest, front, argument, nuls, behind);
    }
  }

  lemma SameBehind(q: string, rest: string, q': string, rest': string, nuls: nat, behind: string)
    requires |q| + |rest| == |q'| + |rest'|
    ensures SameFrom(Memory(q, rest, nuls, behind), Memory(q', rest', nuls, behind), |q| + |rest|)
  {
  }

  // ---------------------------------------------------------------- joining

  function Join(parts: seq<string>): string
    requires parts != []
  {
    if |parts| == 1 then parts[0] else parts[0] + [','] + Join(parts[1..])
  }

  function Trimmed(parts: seq<string>): seq<string> {
    seq(|parts|, i requires 0 <= i < |parts| => Trim(parts[i]))
  }

  ghost predicate CommaFree(parts: seq<string>) {
    forall p :: p in parts ==> ',' !in p && NulFree(p)
  }

  function Commas(s: string): nat {
    if s == [] then 0 else (if s[0] == ',' then 1 else 0) + Commas(s[1..])
  }

  lemma {:induction false} CommasSplit(s: string, k: nat)
    requires k <= |s|
    ensures Commas(s) == Commas(s[..k]) + Commas(s[k..])
  {
    if k == 0 {
      assert s[0..] == s;
    } else {
      assert s[..k][1..] == s[1..][..k - 1];
      CommasSplit(s[1..], k - 1);
    }
  }

  lemma {:induction false} CommasJoin(parts: seq<string>)
    requires parts != [] && CommaFree(parts)
    ensures Commas(Join(parts)) == |parts| - 1
  {
    var p := parts[0];
    NoCommas(p);
    if |parts| > 1 {
      var s := Join(parts);
      CommasSplit(s, |p|);
      assert s[..|p|] == p && s[|p|] == ',' && s[|p|..][1..] == Join(parts[1..]);
      CommasJoin(parts[1..]);
    }
  }

  lemma {:induction false} NoCommas(s: string)
    requires ',' !in s
    ensures Commas(s) == 0
  {
    if s != [] {
      NoCommas(s[1..]);
    }
  }

  /** No comma makes more than one split, and skipped ones make none. */
  lemma {:induction false} SplitBound(s: string, from: nat)
    requires from <= |s|
    ensures |Split(s, from)| <= 1 + Commas(s[from..])
    decreases |s|
  {
    hide Trim;
    if from < |s| && StrChr(s, from, ',').Some? {
      var c := StrChr(s, from, ',').value;
      var t := s[c + 1..];
      CommasSplit(s[from..], c - from);
      assert s[from..][c - from..] == s[c..] && s[c..][1..] == t;
      if t != [] {
        SplitBound(t, 1);
      }
    }
  }

  /** No part from the one at lo on is empty, but for the last. */
  ghost predicate Filled(parts: seq<string>, lo: nat) {
    forall i :: lo <= i < |parts| - 1 ==> parts[i] != []
  }

  lemma FilledTail(parts: seq<string>)
    requires |parts| > 1
    ensures Filled(parts, 1) <==> Filled(parts[1..], 0)
    ensures Filled(parts, 0) <==> parts[0] != [] && Filled(parts, 1)
  {
    forall i | 0 < i < |parts|
      ensures parts[i] == parts[1..][i - 1]
    {
    }
    if Filled(parts, 1) {
      forall i | 0 <= i < |parts[1..]| - 1
        ensures parts[1..][i] != []
      {
        assert parts[1..][i] == parts[i + 1];
      }
    }
  }

  lemma SameHead(x: string, a: seq<string>, b: seq<string>)
    ensures [x] + a == [x] + b <==> a == b
  {
    assert ([x] + a)[1..] == a && ([x] + b)[1..] == b;
  }

  /** The list behind the first comma comes apart as it was joined when only its last part is empty. */
  lemma {:induction false} RestComesApart(parts: seq<string>)
    requires parts != [] && CommaFree(parts)
    ensures Split(Join(parts), 1) == Trimmed(parts) <==> Filled(parts, 0)
    decreases |parts|
  {
    hide Trim, Filled;
    var (s, p) := (Join(parts), parts[0]);
    if |parts| == 1 {
      NoCommaFound(p, 1);
      assert Filled(parts, 0) by { LoneFilled(parts); }
    } else {
      FilledTail(parts);
      if p == [] {
        SkippedComma(parts);
      } else {
        FirstPart(parts, 1);
        RestComesApart(parts[1..]);
        SameHead(Trim(p), Split(Join(parts[1..]), 1), Trimmed(parts[1..]));
      }
    }
  }

  lemma LoneFilled(parts: seq<string>)
    requires |parts| == 1
    ensures Filled(parts, 0)
  {
  }

  lemma SkippedComma(parts: seq<string>)
    requires |parts| > 1 && CommaFree(parts) && parts[0] == []
    ensures |Split(Join(parts), 1)| < |parts|
  {
    hide Split;
    var s := Join(parts);
    assert s[0] == ',' && s[1..] == Join(parts[1..]);
    CommasJoin(parts[1..]);
    SplitBound(s, 1);
  }

  lemma NoCommaFound(s: string, from: nat)
    requires ',' !in s
    ensures Split(s, from) == [Trim(s)]
  {
    hide Trim;
  }

  lemma FirstPart(parts: seq<string>, from: nat)
    requires |parts| > 1 && CommaFree(parts) && from <= |parts[0]|
    ensures Split(Join(parts), from) == [Trim(parts[0])] + Split(Join(parts[1..]), 1)
    ensures StrChr(Join(parts), from, ',').Some?
    ensures Trimmed(parts) == [Trim(parts[0])] + Trimmed(parts[1..])
  {
    hide Trim, StrChr;
    var (s, p) := (Join(parts), parts[0]);
    assert p in parts;
    assert s[|p|] == ',' && s[..|p|] == p && s[|p| + 1..] == Join(parts[1..]);
    StrChrIs(s, from, ',', |p|);
  }

  /**
   * Splitting undoes joining, up to the blanks around each argument, exactly when no argument
   * between the first and the last is empty.
   */
  lemma SplitUndoesJoin(parts: seq<string>)
    requires |parts| > 1 && CommaFree(parts)
    ensures ArgumentsOf(Join(parts)) == Trimmed(parts) <==> Filled(parts, 1)
  {
    hide Trim, StrChr, Split, Join, Filled, Trimmed;
    FirstPart(parts, 0);
    RestComesApart(parts[1..]);
    FilledTail(parts);
    SameHead(Trim(parts[0]), Split(Join(parts[1..]), 1), Trimmed(parts[1..]));
  }

  /** A text without a comma is the only argument. */
  lemma OneArgument(s: string)
    requires ',' !in s && NulFree(s)
    ensures ArgumentsOf(s) == [s]
  {
    hide Trim, Split;
  }

  // ---------------------------------------------------------------- how many arguments fit

  /** More than sixteen are found: the walk ends with argv full. */
  lemma {:induction false} WalkOverflows(q: string, rest: string, nuls: nat, behind: string, end: nat, argv: seq<string>, from: nat)
    requires NulFree(rest) && |q| + |rest| <= end <= |q| + |rest| + nuls + 1 + |behind| && from <= |rest| + 1
    requires |argv| <= 16 < |argv| + |Split(rest, from)|
    ensures var mem := Memory(q, rest, nuls, behind); end <= |mem| && Walk(mem, end, argv, |q|, |q| + from).Full?
    decreases |rest|, |rest| + 1 - from
  {
    hide Trim, Walk, Memory, Split, CStr, RStripped, StrChr;
    MemoryParts(q, rest, nuls, behind);
    var mem := Memory(q, rest, nuls, behind);
    if |argv| == 16 {
      WalkEnds(mem, end, argv, |q|, |q| + from);
    } else {
      if from >= |rest| {
        SplitEnd(rest, from);
      } else {
        WalkStep(mem, end, argv, |q|, |q| + from);
        if rest[from] == ',' {
          SplitComma(rest, from);
          var r := MemoryCut(q, rest, nuls, behind, from);
          WalkOverflows(r, rest[from + 1..], nuls, behind, end, argv + [Trim(rest[..from])], 1);
        } else {
          SplitOther(rest, from);
          WalkOverflows(q, rest, nuls, behind, end, argv, from + 1);
        }
      }
    }
  }

  /** A split that keeps to its argument fails if and only if there are more than sixteen. */
  lemma SixteenFit(front: string, argument: string, lead: nat, nuls: nat, behind: string)
    requires NulFree(argument) && KeepsTo(argument, lead, behind)
    ensures var mem := Memory(front, argument, nuls, behind);
            var end := Min(|mem|, |front| + lead + |argument| + nuls);
            |front| <= end && (SplitMemory(mem, |front|, end).Listed? <==> |ArgumentsOf(argument)| <= 16)
  {
    hide Trim, Walk, Memory, Split, CStr, RStripped, StrChr;
    var mem := Memory(front, argument, nuls, behind);
    var end := Min(|mem|, |front| + lead + |argument| + nuls);
    MemoryParts(front, argument, nuls, behind);
    CommaSeen(front, argument, nuls, behind);
    if |ArgumentsOf(argument)| <= 16 {
      SplitExactly(front, argument, lead, nuls, behind);
    } else {
      WalkOverflows(front, argument, nuls, behind, end, [], 0);
    }
  }
}
