/** The INI parser: what each line means, what a stream of lines makes the handler see. */
module Ini {
  import opened CString
  import opened Compat

  const INI_MAX_LINE := 200
  const MAX_SECTION := 50
  const MAX_NAME := 50

  const BOM := ['\U{EF}', '\U{BB}', '\U{BF}']

  // ---------------------------------------------------------------- cutting a string

  /** A char of the set, or a semicolon after a blank, ends the scan. */
  predicate StopsAt(s: string, chars: string, i: nat)
    requires i < |s|
  {
    s[i] in chars || (i > 0 && IsSpace(s[i - 1]) && s[i] == ';')
  }

  /** find_chars_or_comment: the first index that ends the scan, or the length. */
  function Cut(s: string, chars: string): (r: nat)
    ensures r <= |s| && (r < |s| ==> StopsAt(s, chars, r)) && forall i :: 0 <= i < r ==> !StopsAt(s, chars, i)
  {
    CutFrom(s, chars, 0)
  }

  function CutFrom(s: string, chars: string, k: nat): (r: nat)
    requires k <= |s|
    ensures k <= r <= |s| && (r < |s| ==> StopsAt(s, chars, r)) && forall i :: k <= i < r ==> !StopsAt(s, chars, i)
    decreases |s| - k
  {
    if k == |s| || StopsAt(s, chars, k) then k else CutFrom(s, chars, k + 1)
  }

  lemma CutIs(s: string, chars: string, r: nat)
    requires r <= |s| && (r < |s| ==> StopsAt(s, chars, r)) && forall i :: 0 <= i < r ==> !StopsAt(s, chars, i)
    ensures Cut(s, chars) == r
  {
  }

  // ---------------------------------------------------------------- one line

  datatype Line =
    | Nothing                              // blank, or a comment line
    | Continuation(value: string)          // an indented line after a name
    | Header(section: string)
    | Pair(name: string, value: string)
    | Malformed                            // no closing bracket, or no delimiter

  predicate HasBom(line: string) { BOM <= line }

  /** The line without a byte order mark, which only the first line may have. */
  function Text(line: string, first: bool): string {
    if first && HasBom(line) then line[3..] else line
  }

  /** What a line means when prev is the name a continuation would belong to. */
  function Classify(line: string, first: bool, prev: string): Line {
    var body := TrimRight(Text(line, first));
    var s := TrimLeft(body);
    Sort(s, |s| < |body| || |Text(line, first)| < |line|, prev)
  }

  /** The branches of the loop body, on the trimmed line; indented when chars before it were skipped. */
  function Sort(s: string, indented: bool, prev: string): Line {
    if s == [] || s[0] == ';' || s[0] == '#' then Nothing
    else if prev != [] && indented then Continuation(s)
    else if s[0] == '[' then HeaderOf(s[1..])
    else PairOf(s)
  }

  function HeaderOf(s: string): Line {
    var end := Cut(s, "]");
    if end < |s| && s[end] == ']' then Header(s[..end]) else Malformed
  }

  function PairOf(s: string): Line {
    var end := Cut(s, "=:");
    if end < |s| && (s[end] == '=' || s[end] == ':') then
      var v := s[end + 1..];
      Pair(TrimRight(s[..end]), TrimRight(TrimLeft(v[..Cut(v, "")])))
    else Malformed
  }

  // ---------------------------------------------------------------- a stream of lines

  datatype Event = Event(section: string, name: string, value: string, lineno: nat)

  /** The section and the name in force before line k: a fold over the lines before it. */
  datatype Context = Context(section: string, prev: string)

  function Truncate(s: string, size: nat): (t: string)
    requires size > 0
    ensures t == s[..Min(|s|, size - 1)]
  {
    s[..Min(|s|, size - 1)]
  }

  function NextContext(c: Context, line: Line): Context {
    match line
    case Header(section) => Context(Truncate(section, MAX_SECTION), [])
    case Pair(name, _) => c.(prev := Truncate(name, MAX_NAME))
    case _ => c
  }

  function ContextAt(lines: seq<string>, k: nat): Context
    requires k <= |lines|
    decreases k, 0
  {
    if k == 0 then Context([], [])
    else NextContext(ContextAt(lines, k - 1), LineAt(lines, k - 1))
  }

  function LineAt(lines: seq<string>, k: nat): Line
    requires k < |lines|
    decreases k, 1
  {
    Classify(lines[k], k == 0, ContextAt(lines, k).prev)
  }

  /** The handler call a line makes, if any. */
  function EventsOf(c: Context, line: Line, lineno: nat): (es: seq<Event>)
    ensures |es| <= 1
  {
    match line
    case Continuation(v) => [Event(c.section, c.prev, v, lineno)]
    case Pair(name, v) => [Event(c.section, name, v, lineno)]
    case _ => []
  }

  /** The handler calls of the first k lines. */
  function EventsUpTo(lines: seq<string>, k: nat): seq<Event>
    requires k <= |lines|
  {
    if k == 0 then []
    else EventsUpTo(lines, k - 1) + EventsOf(ContextAt(lines, k - 1), LineAt(lines, k - 1), k)
  }

  /**
   * Line k is well-formed and its handler call, if it makes one, is accepted. The handler may
   * depend on all calls so far.
   */
  predicate Good(lines: seq<string>, accept: seq<Event> -> bool, k: nat)
    requires k < |lines|
  {
    match LineAt(lines, k)
    case Malformed => false
    case Continuation(_) => accept(EventsUpTo(lines, k + 1))
    case Pair(_, _) => accept(EventsUpTo(lines, k + 1))
    case _ => true
  }

  // ---------------------------------------------------------------- the lines of a file, printed

  /** The kinds of lines, each with the blanks and remarks that a writer may put into it. */
  datatype Item =
    | Section(indent: string, section: string, behind: string)
    | Setting(indent: string, name: string, before: string, delim: char, after: string, value: string, remark: string)
    | Further(indent: string, value: string)              // one more value under the name before
    | Remark(indent: string, mark: char, text: string)
    | Empty(blanks: string)
    | Junk(indent: string, text: string)                  // neither header nor setting

  function Print(item: Item): string {
    match item
    case Section(i, s, b) => i + "[" + s + "]" + b + "\n"
    case Setting(i, n, b, d, a, v, r) => i + n + b + [d] + a + v + r + "\n"
    case Further(i, v) => i + v + "\n"
    case Remark(i, m, t) => i + [m] + t + "\n"
    case Empty(b) => b + "\n"
    case Junk(i, t) => i + t + "\n"
  }

  /** The lines of a file, which may start with a byte order mark. */
  function PrintAll(bom: bool, items: seq<Item>): (lines: seq<string>)
    ensures |lines| == |items|
    ensures forall i :: 0 <= i < |items| ==>
              lines[i] == (if bom && i == 0 then ['\U{EF}', '\U{BB}', '\U{BF}'] else []) + Print(items[i])
  {
    seq(|items|, i requires 0 <= i < |items| =>
      (if bom && i == 0 then ['\U{EF}', '\U{BB}', '\U{BF}'] else []) + Print(items[i]))
  }

  ghost predicate Blanks(s: string) {
    forall c :: c in s ==> IsSpace(c)
  }

  /** No blank directly before a semicolon. */
  ghost predicate NoComment(s: string) {
    forall i :: 0 < i < |s| ==> !(IsSpace(s[i - 1]) && s[i] == ';')
  }

  ghost predicate Trimmed(s: string) {
    s == [] || (!IsSpace(s[0]) && !IsSpace(s[|s| - 1]))
  }

  /** Blanks and then a semicolon at n. */
  ghost predicate RemarkAt(r: string, n: nat) {
    0 < n < |r| && Blanks(r[..n]) && r[n] == ';'
  }

  /** What may follow a value: blanks, or blanks and a remark. */
  ghost predicate IsRemark(r: string) {
    Blanks(r) || exists n: nat :: RemarkAt(r, n)
  }

  /** A line that reads as what it is meant to be, when prev is the name a further value would belong to. */
  ghost predicate Printable(item: Item, prev: string) {
    match item
    case Section(i, s, _) => Blanks(i) && (prev == [] || i == []) && ']' !in s && NoComment(s)
    case Setting(i, n, b, d, a, v, r) =>
      && Blanks(i) && (prev == [] || i == []) && Blanks(b) && Blanks(a) && (d == '=' || d == ':') && IsRemark(r)
      && Trimmed(n) && NoComment(n) && '=' !in n && ':' !in n
      && (if n == [] then b == [] else n[0] != ';' && n[0] != '#' && n[0] != '[')
      && Trimmed(v) && NoComment(v) && (v != [] && v[0] == ';' ==> a == [])
    case Further(i, v) => Blanks(i) && i != [] && prev != [] && v != [] && Trimmed(v) && v[0] != ';' && v[0] != '#'
    case Remark(i, m, _) => Blanks(i) && (m == ';' || m == '#')
    case Empty(b) => Blanks(b)
    case Junk(i, t) =>
      && Blanks(i) && (prev == [] || i == []) && t != [] && Trimmed(t) && t[0] != ';' && t[0] != '#'
      && (if t[0] == '[' then ']' !in t else '=' !in t && ':' !in t)
  }

  /** The section in force before item k, cut to the size of its buffer. */
  function SectionAt(items: seq<Item>, k: nat): string
    requires k <= |items|
  {
    if k == 0 then []
    else match items[k - 1]
      case Section(_, s, _) => if |s| < 50 then s else s[..49]
      case _ => SectionAt(items, k - 1)
  }

  /** The name in force before item k, cut likewise: that of the last setting since the section began. */
  function NameAt(items: seq<Item>, k: nat): string
    requires k <= |items|
  {
    if k == 0 then []
    else match items[k - 1]
      case Section(_, _, _) => []
      case Setting(_, n, _, _, _, _, _) => if |n| < 50 then n else n[..49]
      case _ => NameAt(items, k - 1)
  }

  /** The settings and further values among the first k items, each with its section, name and line. */
  function Settings(items: seq<Item>, k: nat): seq<Event>
    requires k <= |items|
  {
    if k == 0 then []
    else match items[k - 1]
      case Setting(_, n, _, _, _, v, _) => Settings(items, k - 1) + [Event(SectionAt(items, k - 1), n, v, k)]
      case Further(_, v) => Settings(items, k - 1) + [Event(SectionAt(items, k - 1), NameAt(items, k - 1), v, k)]
      case _ => Settings(items, k - 1)
  }

  /** A file that reads as it is meant. */
  ghost predicate AllPrintable(bom: bool, items: seq<Item>) {
    && (forall k :: 0 <= k < |items| ==> Printable(items[k], NameAt(items, k)))
    && (!bom && items != [] ==> !HasBom(Print(items[0])))
  }

  // ---------------------------------------------------------------- one printed line

  /** What a line is meant to be. */
  function Meaning(item: Item): Line {
    match item
    case Section(_, s, _) => Header(s)
    case Setting(_, n, _, _, _, v, _) => Pair(n, v)
    case Further(_, v) => Continuation(v)
    case Remark(_, _, _) => Nothing
    case Empty(_) => Nothing
    case Junk(_, _) => Malformed
  }

  lemma TrimmedIs(s: string)
    requires Trimmed(s)
    ensures TrimRight(s) == s && TrimLeft(s) == s
  {
    TrimRightIs(s, s);
    TrimLeftIs(s, s);
  }

  lemma TrimBehind(x: string, c: string)
    requires Blanks(c) && Trimmed(x)
    ensures TrimRight(x + c) == x
  {
    TrimRightIs(x + c, x);
  }

  lemma TrimBefore(b: string, x: string)
    requires Blanks(b) && Trimmed(x)
    ensures TrimLeft(b + x) == x
  {
    TrimLeftIs(b + x, x);
  }

  lemma BlanksJoin(b: string, c: string)
    requires Blanks(b) && Blanks(c)
    ensures Blanks(b + c)
  {
  }

  /** Text between blanks, trimmed as values are. */
  lemma TrimBoth(b: string, x: string, c: string)
    requires Blanks(b) && Blanks(c) && Trimmed(x)
    ensures TrimRight(TrimLeft(b + x + c)) == x
  {
    hide TrimLeft, TrimRight, Blanks;
    if x == [] {
      BlanksJoin(b, c);
      TrimBefore(b + c, []);
      assert b + x + c == b + c + [];
      TrimmedIs([]);
    } else {
      FrontBlanks(b, x + c);
      assert b + x + c == b + (x + c);
      TrimBehind(x, c);
    }
  }

  lemma FrontBlanks(b: string, y: string)
    requires Blanks(b) && y != [] && !IsSpace(y[0])
    ensures TrimLeft(b + y) == y
  {
    TrimLeftIs(b + y, y);
  }

  /** Blanks, something that starts with no blank, and the end of the line: what is told apart is that, trimmed behind. */
  lemma CoreOfLine(line: string, first: bool, prev: string, indent: string, core: string)
    requires Blanks(indent) && core != [] && !IsSpace(core[0]) && Text(line, first) == indent + core + "\n"
    ensures Classify(line, first, prev) ==
            Sort(TrimRight(core), indent != [] || |Text(line, first)| < |line|, prev)
    ensures TrimRight(core) != [] && TrimRight(core)[0] == core[0]
  {
    hide TrimLeft, TrimRight, Sort, Text;
    var c := TrimRight(core);
    var (text, rest) := (indent + core + "\n", core[|c|..]);
    FirstStays(core);
    TrimRightIs(text, indent + c) by { EndOfCore(indent, core); }
    TrimLeftIs(indent + c, c);
  }

  lemma FirstStays(core: string)
    requires core != [] && !IsSpace(core[0])
    ensures TrimRight(core) != [] && TrimRight(core)[0] == core[0]
  {
    hide TrimRight;
    var c := TrimRight(core);
    assert c != [] ==> core[..|c|][0] == core[0];
  }

  lemma EndOfCore(indent: string, core: string)
    requires core != [] && !IsSpace(core[0])
    ensures var (c, text) := (TrimRight(core), indent + core + "\n");
            && |indent + c| <= |text| && text[..|indent + c|] == indent + c
            && c != [] && !IsSpace((indent + c)[|indent + c| - 1])
            && forall i :: |indent + c| <= i < |text| ==> IsSpace(text[i])
  {
    hide TrimRight;
    FirstStays(core);
    var (c, text) := (TrimRight(core), indent + core + "\n");
    assert core[..|c|] == c;
    forall i | |indent + c| <= i < |text|
      ensures IsSpace(text[i])
    {
      assert i < |indent + core| ==> text[i] == core[i - |indent|];
    }
  }

  /** The scan runs over a part without delimiter and remark, up to what ends it. */
  lemma CutBehind(s: string, rest: string, chars: string)
    requires NoComment(s) && (forall c :: c in chars ==> c !in s) && rest != []
    requires rest[0] in chars || (s != [] && IsSpace(s[|s| - 1]) && rest[0] == ';')
    ensures Cut(s + rest, chars) == |s|
  {
    hide Cut;
    var t := s + rest;
    forall i | 0 <= i < |s|
      ensures !StopsAt(t, chars, i)
    {
      assert t[i] == s[i] && (i > 0 ==> t[i - 1] == s[i - 1]);
    }
    CutIs(t, chars, |s|);
  }

  lemma CutNothing(s: string, chars: string)
    requires NoComment(s) && forall c :: c in chars ==> c !in s
    ensures Cut(s, chars) == |s|
  {
    CutIs(s, chars, |s|);
  }

  lemma NoCommentJoin(x: string, y: string)
    requires NoComment(x) && NoComment(y) && (x == [] || y == [] || !IsSpace(x[|x| - 1]) || y[0] != ';')
    ensures NoComment(x + y)
  {
    forall i | 0 < i < |x + y|
      ensures !(IsSpace((x + y)[i - 1]) && (x + y)[i] == ';')
    {
    }
  }

  lemma BlanksHaveNoComment(b: string)
    requires Blanks(b)
    ensures NoComment(b) && '=' !in b && ':' !in b && ';' !in b
  {
    assert forall i :: 0 <= i < |b| ==> b[i] in b;
  }

  /** What follows a value on its trimmed line: nothing, or blanks and a remark. */
  lemma PairOfParts(n: string, b: string, d: char, a: string, v: string, r: string)
    requires Trimmed(n) && NoComment(n) && '=' !in n && ':' !in n && Blanks(b) && (d == '=' || d == ':')
    requires Blanks(a) && Trimmed(v) && NoComment(v) && (v != [] && v[0] == ';' ==> a == [])
    requires r == [] || exists k: nat :: RemarkAt(r, k)
    ensures PairOf(n + b + [d] + a + v + r) == Pair(n, v)
  {
    hide Cut, TrimLeft, TrimRight, NoComment, Trimmed, Blanks, IsSpace, RemarkAt, PairOf;
    var w := a + v + r;
    NameCut(n, b, d, w);
    ValueCut(a, v, r);
    Grouped(n, b, d, a, v, r);
    PairAt(n + b + ([d] + w));
    DelimAt(n + b, d, w);
    TrimBehind(n, b);
  }

  lemma Grouped(n: string, b: string, d: char, a: string, v: string, r: string)
    ensures n + b + [d] + a + v + r == n + b + ([d] + (a + v + r))
  {
  }

  lemma DelimAt(x: string, d: char, w: string)
    ensures var t := x + ([d] + w); |x| < |t| && t[|x|] == d && t[..|x|] == x && t[|x| + 1..] == w
  {
  }

  lemma NameCut(n: string, b: string, d: char, w: string)
    requires Trimmed(n) && NoComment(n) && '=' !in n && ':' !in n && Blanks(b) && (d == '=' || d == ':')
    ensures Cut(n + b + ([d] + w), "=:") == |n + b|
  {
    hide Cut, NoComment;
    BlanksHaveNoComment(b);
    NoCommentJoin(n, b) by { assert b != [] ==> b[0] in b; }
    assert d in "=:" && forall c :: c in "=:" ==> c == '=' || c == ':';
    CutBehind(n + b, [d] + w, "=:");
  }

  /** The value ends where blanks and a remark begin, or at the end. */
  lemma ValueCut(a: string, v: string, r: string)
    requires Blanks(a) && Trimmed(v) && NoComment(v) && (v != [] && v[0] == ';' ==> a == [])
    requires r == [] || exists k: nat :: RemarkAt(r, k)
    ensures var w := a + v + r; TrimRight(TrimLeft(w[..Cut(w, "")])) == v
  {
    hide Cut, TrimLeft, TrimRight, NoComment;
    BlanksHaveNoComment(a);
    NoCommentJoin(a, v);
    var w := a + v + r;
    if r == [] {
      CutNothing(a + v, "");
      assert w == a + v && w[..|a + v|] == a + v;
      TrimBoth(a, v, []);
      assert a + v + [] == a + v;
    } else {
      var k: nat :| RemarkAt(r, k);
      var c := r[..k];
      BlanksHaveNoComment(c);
      NoCommentJoin(a + v, c) by { assert c[0] in c; }
      assert w == a + v + c + r[k..] && (a + v + c)[|a + v + c| - 1] == c[|c| - 1] && c[|c| - 1] in c;
      CutBehind(a + v + c, r[k..], "");
      assert w[..|a + v + c|] == a + v + c;
      TrimBoth(a, v, c);
    }
  }

  // ---------------------------------------------------------------- each kind

  /** Where the text of a printed line begins, with or without a mark. */
  ghost predicate IsLine(item: Item, line: string, first: bool) {
    Text(line, first) == Print(item)
  }

  lemma SectionLine(i: string, s: string, b: string, line: string, first: bool, prev: string)
    requires Printable(Section(i, s, b), prev) && IsLine(Section(i, s, b), line, first) && (first ==> prev == [])
    ensures Classify(line, first, prev) == Header(s)
  {
    hide Cut, TrimLeft, TrimRight, NoComment, Sort, Blanks, Classify;
    var core := "[" + s + "]" + b;
    assert i + core + "\n" == Print(Section(i, s, b));
    CoreOfLine(line, first, prev, i, core);
    HeaderCut(s, b);
    SortHeader(TrimRight(core), i != [] || |Text(line, first)| < |line|, prev);
  }

  lemma SortHeader(c: string, indented: bool, prev: string)
    requires c != [] && c[0] == '[' && (prev == [] || !indented)
    ensures Sort(c, indented, prev) == HeaderOf(c[1..])
  {
    hide HeaderOf, PairOf;
  }

  lemma HeaderCut(s: string, b: string)
    requires ']' !in s && NoComment(s)
    ensures var c := TrimRight("[" + s + "]" + b); c != [] && c[0] == '[' && HeaderOf(c[1..]) == Header(s)
  {
    hide Cut, TrimRight, NoComment;
    var core := "[" + s + "]" + b;
    var c := TrimRight(core);
    assert core[|s| + 1] == ']' && !IsSpace(']');
    assert |c| >= |s| + 2;
    var rest := c[|s| + 1..];
    assert core[..|c|] == c && c == core[..|s| + 1] + rest && core[..|s| + 1] == "[" + s && rest[0] == ']';
    assert c[1..] == s + rest;
    CutBehind(s, rest, "]");
    assert (s + rest)[..|s|] == s;
  }

  lemma SettingLine(item: Item, line: string, first: bool, prev: string)
    requires item.Setting? && Printable(item, prev) && IsLine(item, line, first) && (first ==> prev == [])
    ensures Classify(line, first, prev) == Pair(item.name, item.value)
  {
    hide Cut, TrimLeft, TrimRight, NoComment, Sort, Blanks, Classify, PairOf, Trimmed, IsRemark;
    var Setting(i, n, b, d, a, v, r) := item;
    var core := n + b + [d] + a + v + r;
    assert i + core + "\n" == Print(item);
    FirstOfSetting(n, b, d, a + v + r);
    assert core == n + b + [d] + (a + v + r);
    CoreOfLine(line, first, prev, i, core);
    SettingCore(n, b, d, a, v, r);
    SortPair(TrimRight(core), i != [] || |Text(line, first)| < |line|, prev);
  }

  lemma SortPair(c: string, indented: bool, prev: string)
    requires c != [] && c[0] != '[' && c[0] != ';' && c[0] != '#' && (prev == [] || !indented)
    ensures Sort(c, indented, prev) == PairOf(c)
  {
    hide HeaderOf, PairOf;
  }

  lemma FirstOfSetting(n: string, b: string, d: char, w: string)
    requires Trimmed(n) && (d == '=' || d == ':')
    requires if n == [] then b == [] else n[0] != ';' && n[0] != '#' && n[0] != '['
    ensures var core := n + b + [d] + w;
            core != [] && !IsSpace(core[0]) && core[0] != ';' && core[0] != '#' && core[0] != '['
  {
    if n == [] {
      assert n + b + [d] + w == [d] + w;
    }
  }

  /** The trimmed line keeps the parts that matter. */
  lemma SettingCore(n: string, b: string, d: char, a: string, v: string, r: string)
    requires Trimmed(n) && NoComment(n) && '=' !in n && ':' !in n && Blanks(b) && (d == '=' || d == ':') && IsRemark(r)
    requires Blanks(a) && Trimmed(v) && NoComment(v) && (v != [] && v[0] == ';' ==> a == [])
    ensures PairOf(TrimRight(n + b + [d] + a + v + r)) == Pair(n, v)
  {
    hide Cut, TrimLeft, TrimRight, NoComment, PairOf, Blanks, RemarkAt;
    if Blanks(r) {
      if v == [] { BareCore(n, b, d, a, r); } else { ValueCore(n, b, d, a, v, r); }
    } else {
      var k: nat :| RemarkAt(r, k);
      var r' := RemarkEnds(n + b + [d] + a + v, r, k);
      PairOfParts(n, b, d, a, v, r');
    }
  }

  lemma BareCore(n: string, b: string, d: char, a: string, r: string)
    requires Trimmed(n) && NoComment(n) && '=' !in n && ':' !in n && Blanks(b) && (d == '=' || d == ':')
    requires Blanks(a) && Blanks(r)
    ensures PairOf(TrimRight(n + b + [d] + a + [] + r)) == Pair(n, [])
  {
    hide Cut, TrimLeft, TrimRight, PairOf, Blanks, NoComment, Trimmed, RemarkAt;
    BlanksOfNone();
    BlanksJoin(a, r);
    BlanksEnd(n + b + [d], a + r);
    PairOfParts(n, b, d, [], [], []) by { EmptyValue(); }
    Bare(n + b + [d], a, r);
  }

  lemma Bare(x: string, a: string, r: string)
    ensures x + [] + [] + [] == x && x + a + [] + r == x + (a + r)
  {
  }

  lemma EmptyValue()
    ensures Trimmed([]) && NoComment([])
  {
  }

  lemma BlanksOfNone()
    ensures Blanks([])
  {
  }

  lemma ValueCore(n: string, b: string, d: char, a: string, v: string, r: string)
    requires Trimmed(n) && NoComment(n) && '=' !in n && ':' !in n && Blanks(b) && (d == '=' || d == ':')
    requires Blanks(a) && Trimmed(v) && NoComment(v) && (v != [] && v[0] == ';' ==> a == [])
    requires v != [] && Blanks(r)
    ensures PairOf(TrimRight(n + b + [d] + a + v + r)) == Pair(n, v)
  {
    hide Cut, TrimLeft, TrimRight, NoComment, PairOf, Blanks;
    BlanksEnd(n + b + [d] + a + v, r);
    PairOfParts(n, b, d, a, v, []);
    assert n + b + [d] + a + v + [] == n + b + [d] + a + v;
  }

  lemma BlanksEnd(x: string, c: string)
    requires x != [] && !IsSpace(x[|x| - 1]) && Blanks(c)
    ensures TrimRight(x + c) == x
  {
    TrimRightIs(x + c, x);
  }

  lemma RemarkEnds(x: string, r: string, k: nat) returns (r': string)
    requires RemarkAt(r, k)
    ensures TrimRight(x + r) == x + r' && RemarkAt(r', k)
  {
    hide TrimRight;
    r' := r[..k] + TrimRight(r[k..]);
    FirstStays(r[k..]);
    var t := TrimRight(r[k..]);
    assert r[k..][..|t|] == t;
    assert r == r[..k] + r[k..];
    forall i | |x + r'| <= i < |x + r|
      ensures IsSpace((x + r)[i])
    {
      assert (x + r)[i] == r[k..][i - |x| - k];
    }
    TrimRightIs(x + r, x + r');
    assert r'[..k] == r[..k];
  }

  lemma FurtherLine(i: string, v: string, line: string, first: bool, prev: string)
    requires Printable(Further(i, v), prev) && IsLine(Further(i, v), line, first)
    ensures Classify(line, first, prev) == Continuation(v)
  {
    hide TrimLeft, TrimRight, HeaderOf, PairOf, Classify, Text;
    CoreOfLine(line, first, prev, i, v);
    TrimmedIs(v);
  }

  lemma RemarkLine(i: string, m: char, t: string, line: string, first: bool, prev: string)
    requires Printable(Remark(i, m, t), prev) && IsLine(Remark(i, m, t), line, first)
    ensures Classify(line, first, prev) == Nothing
  {
    hide TrimLeft, TrimRight, HeaderOf, PairOf, Classify, Text;
    var core := [m] + t;
    assert i + core + "\n" == Print(Remark(i, m, t));
    CoreOfLine(line, first, prev, i, core);
  }

  lemma EmptyLine(b: string, line: string, first: bool, prev: string)
    requires Printable(Empty(b), prev) && IsLine(Empty(b), line, first)
    ensures Classify(line, first, prev) == Nothing
  {
    hide TrimLeft, TrimRight, HeaderOf, PairOf, Text;
    assert forall c :: c in b + "\n" ==> c in b || c == '\n';
    TrimRightIs(b + "\n", []);
    TrimLeftIs([], []);
  }

  lemma JunkLine(i: string, t: string, line: string, first: bool, prev: string)
    requires Printable(Junk(i, t), prev) && IsLine(Junk(i, t), line, first) && (first ==> prev == [])
    ensures Classify(line, first, prev) == Malformed
  {
    hide TrimLeft, TrimRight, Classify, Sort, HasBom;
    CoreOfLine(line, first, prev, i, t);
    TrimmedIs(t);
    var indented := i != [] || |Text(line, first)| < |line|;
    if t[0] == '[' {
      SortHeader(t, indented, prev);
      NoHeader(t[1..]);
    } else {
      SortPair(t, indented, prev);
      NoPair(t);
    }
  }

  lemma NoHeader(s: string)
    requires ']' !in s
    ensures HeaderOf(s) == Malformed
  {
    hide Cut;
  }

  lemma NoPair(s: string)
    requires '=' !in s && ':' !in s
    ensures PairOf(s) == Malformed
  {
    hide Cut;
  }

  lemma LineMeans(item: Item, line: string, first: bool, prev: string)
    requires Printable(item, prev) && IsLine(item, line, first) && (first ==> prev == [])
    ensures Classify(line, first, prev) == Meaning(item)
  {
    hide Classify, Printable, IsLine;
    match item
    case Section(i, s, b) => SectionLine(i, s, b, line, first, prev);
    case Setting(_, _, _, _, _, _, _) => SettingLine(item, line, first, prev);
    case Further(i, v) => FurtherLine(i, v, line, first, prev);
    case Remark(i, m, t) => RemarkLine(i, m, t, line, first, prev);
    case Empty(b) => EmptyLine(b, line, first, prev);
    case Junk(i, t) => JunkLine(i, t, line, first, prev);
  }

  // ---------------------------------------------------------------- parsing undoes printing

  lemma TextOfPrinted(bom: bool, items: seq<Item>, k: nat)
    requires k < |items| && AllPrintable(bom, items)
    ensures IsLine(items[k], PrintAll(bom, items)[k], k == 0)
  {
    hide Print;
    var t := Print(items[k]);
    assert HasBom(BOM + t) && (BOM + t)[3..] == t && [] + t == t;
  }

  lemma PrintedLine(bom: bool, items: seq<Item>, k: nat)
    requires k < |items| && AllPrintable(bom, items)
    requires ContextAt(PrintAll(bom, items), k).prev == NameAt(items, k)
    ensures LineAt(PrintAll(bom, items), k) == Meaning(items[k])
  {
    hide Classify, ContextAt, Printable, HasBom, PrintAll, IsLine, Meaning;
    TextOfPrinted(bom, items, k);
    LineMeans(items[k], PrintAll(bom, items)[k], k == 0, NameAt(items, k));
  }

  lemma Steps(lines: seq<string>, k: nat)
    requires k < |lines|
    ensures ContextAt(lines, k + 1) == NextContext(ContextAt(lines, k), LineAt(lines, k))
    ensures EventsUpTo(lines, k + 1) == EventsUpTo(lines, k) + EventsOf(ContextAt(lines, k), LineAt(lines, k), k + 1)
  {
    hide Classify;
  }

  lemma ShortOrCut(s: string)
    ensures Truncate(s, 50) == if |s| < 50 then s else s[..49]
  {
  }

  /** Section, name and calls after item k are those the parser has after its line. */
  lemma PrintedStep(bom: bool, items: seq<Item>, k: nat)
    requires k < |items| && AllPrintable(bom, items)
    requires ContextAt(PrintAll(bom, items), k) == Context(SectionAt(items, k), NameAt(items, k))
    requires EventsUpTo(PrintAll(bom, items), k) == Settings(items, k)
    ensures ContextAt(PrintAll(bom, items), k + 1) == Context(SectionAt(items, k + 1), NameAt(items, k + 1))
    ensures EventsUpTo(PrintAll(bom, items), k + 1) == Settings(items, k + 1)
  {
    hide AllPrintable, LineAt, PrintAll, ContextAt, EventsUpTo, Truncate;
    PrintedLine(bom, items, k);
    Steps(PrintAll(bom, items), k);
    match items[k]
    case Section(_, s, _) => ShortOrCut(s);
    case Setting(_, n, _, _, _, _, _) => ShortOrCut(n);
    case _ =>
  }

  lemma {:induction false} PrintedRun(bom: bool, items: seq<Item>, k: nat)
    requires k <= |items| && AllPrintable(bom, items)
    ensures ContextAt(PrintAll(bom, items), k) == Context(SectionAt(items, k), NameAt(items, k))
    ensures EventsUpTo(PrintAll(bom, items), k) == Settings(items, k)
  {
    hide AllPrintable, LineAt, PrintAll;
    if k > 0 {
      PrintedRun(bom, items, k - 1);
      PrintedStep(bom, items, k - 1);
    }
  }

  /** Item k is no junk, and its call, if it makes one, is accepted. */
  predicate Accepted(items: seq<Item>, accept: seq<Event> -> bool, k: nat)
    requires k < |items|
  {
    !items[k].Junk? && (items[k].Setting? || items[k].Further? ==> accept(Settings(items, k + 1)))
  }

  /**
   * Parsing undoes printing: what the handler sees are exactly the settings and further values, in order,
   * each under its section and name; remarks, empty lines and headers are always good, junk never is, and
   * all else whenever the handler accepts it.
   */
  lemma ParseUndoesPrint(bom: bool, items: seq<Item>, accept: seq<Event> -> bool)
    requires AllPrintable(bom, items)
    ensures var lines := PrintAll(bom, items);
            && EventsUpTo(lines, |lines|) == Settings(items, |items|)
            && forall k :: 0 <= k < |lines| ==> (Good(lines, accept, k) <==> Accepted(items, accept, k))
  {
    hide AllPrintable, LineAt, EventsUpTo, Settings, Good, Accepted, PrintAll;
    PrintedRun(bom, items, |items|);
    forall k | 0 <= k < |items|
      ensures Good(PrintAll(bom, items), accept, k) <==> Accepted(items, accept, k)
    {
      PrintedGood(bom, items, accept, k);
    }
  }

  lemma PrintedGood(bom: bool, items: seq<Item>, accept: seq<Event> -> bool, k: nat)
    requires AllPrintable(bom, items) && k < |items|
    ensures Good(PrintAll(bom, items), accept, k) <==> Accepted(items, accept, k)
  {
    hide AllPrintable, LineAt, EventsUpTo, Settings, PrintAll, ContextAt, SectionAt, NameAt;
    PrintedRun(bom, items, k);
    PrintedLine(bom, items, k);
    PrintedRun(bom, items, k + 1);
  }

  // ---------------------------------------------------------------- the C code

  /** The strings a line is cut into end where they say. */
  ghost predicate Plain(line: Line) {
    (line.Header? ==> NulFree(line.section)) && (line.Pair? ==> NulFree(line.name))
  }

  /** There is a NUL at or after i. */
  ghost predicate Terminated(s: string, i: nat) {
    i <= |s| && i + |CStr(s, i)| < |s|
  }

  /** find_chars_or_comment on the C string at s. */
  method FindCharsOrComment(a: array<char>, s: nat, chars: string) returns (e: nat)
    requires Terminated(a[..], s) && NulFree(chars)
    ensures e == s + Cut(CStr(a[..], s), chars) && e < a.Length
    ensures e < s + |CStr(a[..], s)| <==> a[e] != NUL
  {
    hide StrLen;
    ghost var c := CStr(a[..], s);
    var wasSpace := false;
    e := s;
    while a[e] != NUL && a[e] !in chars && !(wasSpace && a[e] == ';')
      invariant s <= e <= s + |c| < a.Length
      invariant wasSpace <==> e > s && IsSpace(c[e - s - 1])
      invariant forall i :: 0 <= i < e - s ==> !StopsAt(c, chars, i)
      decreases a.Length - e
    {
      assert e < s + |c| && a[e] == c[e - s];
      wasSpace := IsSpace(a[e]);
      e := e + 1;
    }
    assert e < s + |c| ==> a[e] == c[e - s];
    CutIs(c, chars, e - s);
  }

  lemma CutString(t: string, i: nat, e: nat)
    requires Terminated(t, i) && i <= e <= i + |CStr(t, i)|
    ensures CStr(t[e := NUL], i) == CStr(t, i)[..e - i]
    ensures e < i + |CStr(t, i)| ==> CStr(t[e := NUL], e + 1) == CStr(t, i)[e + 1 - i..]
    ensures Terminated(t[e := NUL], i) && (e < i + |CStr(t, i)| ==> Terminated(t[e := NUL], e + 1))
  {
    hide StrLen;
    var (c, u) := (CStr(t, i), t[e := NUL]);
    assert u[i..i + (e - i)] == c[..e - i];
    CStrIs(u, i, c[..e - i]);
    if e < i + |c| {
      assert u[e + 1..e + 1 + |c[e + 1 - i..]|] == c[e + 1 - i..];
      CStrIs(u, e + 1, c[e + 1 - i..]);
    }
  }

  /** Writing a terminator at e, inside the C string at i. */
  method CutAt(a: array<char>, ghost i: nat, e: nat)
    requires Terminated(a[..], i) && i <= e <= i + |CStr(a[..], i)|
    modifies a
    ensures var c := old(CStr(a[..], i));
            && CStr(a[..], i) == c[..e - i] && Terminated(a[..], i)
            && (e < i + |c| ==> CStr(a[..], e + 1) == c[e + 1 - i..] && Terminated(a[..], e + 1))
    ensures forall j :: 0 <= j < e ==> a[j] == old(a[j])
  {
    CutString(a[..], i, e);
    a[e] := NUL;
    assert a[..] == old(a[..])[e := NUL];
  }

  /** rstrip in terms of C strings; n is the end of the string. */
  method StripAt(a: array<char>, i: nat)
    requires Terminated(a[..], i)
    modifies a
    ensures CStr(a[..], i) == TrimRight(old(CStr(a[..], i))) && Terminated(a[..], i)
    ensures forall j :: 0 <= j < i || i + |old(CStr(a[..], i))| <= j < a.Length ==> a[j] == old(a[j])
  {
    RStrippedText(a[..], i);
    RStrip(a, i);
  }

  /** The branch for a line that opens with a bracket; start is behind it. */
  method ParseHeader(a: array<char>, start: nat) returns (r: Line)
    requires Terminated(a[..], start)
    modifies a
    ensures r == HeaderOf(CStr(old(a[..]), start))
    ensures Plain(r)
  {
    hide Cut, StrLen;
    var end := FindCharsOrComment(a, start, "]");
    if a[end] == ']' {
      CutAt(a, start, end);
      return Header(CStr(a[..], start));
    }
    return Malformed;
  }

  /** The value part of a setting: cut at a comment, then trimmed. */
  method ParseValue(a: array<char>, value: nat) returns (start: nat)
    requires Terminated(a[..], value)
    modifies a
    ensures var v := CStr(old(a[..]), value);
            start <= a.Length && CStr(a[..], start) == TrimRight(TrimLeft(v[..Cut(v, "")]))
    ensures forall j :: 0 <= j < value ==> a[j] == old(a[j])
  {
    hide Cut, StrLen, TrimLeft, TrimRight, RStripped;
    var end := FindCharsOrComment(a, value, "");
    ghost var v := CStr(a[..], value);
    if a[end] != NUL {
      CutAt(a, value, end);
    }
    assert CStr(a[..], value) == v[..Cut(v, "")];
    start := LSkip(a, value);
    StripAt(a, start);
  }

  /** The name part of a setting: cut at the delimiter, then trimmed. */
  method ParseName(a: array<char>, start: nat, end: nat)
    requires Terminated(a[..], start) && start <= end < start + |CStr(a[..], start)|
    modifies a
    ensures var c := old(CStr(a[..], start));
            && CStr(a[..], start) == TrimRight(c[..end - start]) && start + |CStr(a[..], start)| <= end
            && CStr(a[..], end + 1) == c[end + 1 - start..] && Terminated(a[..], end + 1)
  {
    hide Cut, StrLen, TrimRight, RStripped;
    CutAt(a, start, end);
    ghost var t := a[..];
    StripAt(a, start);
    SameTail(t, a[..], end + 1);
  }

  /** Both parts of a setting, once its delimiter is found at end. */
  method SplitPair(a: array<char>, start: nat, end: nat) returns (name: string, value: string)
    requires Terminated(a[..], start) && start <= end < start + |CStr(a[..], start)|
    modifies a
    ensures var c := CStr(old(a[..]), start);
            var v := c[end + 1 - start..];
            name == TrimRight(c[..end - start]) && value == TrimRight(TrimLeft(v[..Cut(v, "")])) && NulFree(name)
  {
    hide Cut, StrLen, TrimLeft, TrimRight, RStripped;
    ParseName(a, start, end);
    name := CStr(a[..], start);   // nothing before the value changes any more
    var at := ParseValue(a, end + 1);
    value := CStr(a[..], at);
  }

  /** The branch for a name and a value. */
  method ParsePair(a: array<char>, start: nat) returns (r: Line)
    requires Terminated(a[..], start)
    modifies a
    ensures r == PairOf(CStr(old(a[..]), start))
    ensures Plain(r)
  {
    hide Cut, StrLen, TrimLeft, TrimRight, PairOf, NulFree;
    var end := FindCharsOrComment(a, start, "=:") by { PlainDelimiters(); }
    EndChar(a[..], start, end);
    PairAt(CStr(a[..], start));
    if a[end] == '=' || a[end] == ':' {
      var name, value := SplitPair(a, start, end);
      return Pair(name, value);
    }
    return Malformed;
  }

  lemma PlainDelimiters()
    ensures NulFree("=:")
  {
  }

  lemma PairAt(s: string)
    ensures var end := Cut(s, "=:");
            if end < |s| && (s[end] == '=' || s[end] == ':') then
              var v := s[end + 1..];
              PairOf(s) == Pair(TrimRight(s[..end]), TrimRight(TrimLeft(v[..Cut(v, "")])))
            else PairOf(s) == Malformed
  {
    hide Cut, TrimRight, TrimLeft;
  }

  lemma EndChar(t: string, i: nat, e: nat)
    requires i <= e < |t| && e <= i + |CStr(t, i)|
    ensures t[e] == if e < i + |CStr(t, i)| then CStr(t, i)[e - i] else NUL
  {
  }

  lemma SameTail(t: string, u: string, i: nat)
    requires |t| == |u| && i <= |t| && forall j :: i <= j < |t| ==> t[j] == u[j]
    ensures CStr(u, i) == CStr(t, i)
  {
    assert t[i..] == u[i..];
  }

  /** The first line may start with a byte order mark, which is skipped. */
  method SkipBom(a: array<char>, first: bool) returns (start: nat)
    requires Terminated(a[..], 0) && a.Length >= 3
    ensures Terminated(a[..], start) && CStr(a[..], start) == Text(CStr(a[..], 0), first)
    ensures |CStr(a[..], 0)| == start + |CStr(a[..], start)|
  {
    BomInBuffer(a[..]);
    if first && a[0] == '\U{EF}' && a[1] == '\U{BB}' && a[2] == '\U{BF}' {
      SkipChars(a[..], 3);
      return 3;
    }
    return 0;
  }

  /** The line buffer: mark skipped, trimmed, then told apart as the loop body does. */
  method ParseLine(a: array<char>, first: bool, prev: string) returns (r: Line)
    requires Terminated(a[..], 0) && a.Length >= 3
    modifies a
    ensures r == Classify(CStr(old(a[..]), 0), first, prev)
    ensures Plain(r)
  {
    hide StrLen, TrimLeft, TrimRight, RStripped, Sort, Text;
    var start := SkipBom(a, first);
    StripAt(a, start);
    start := LSkip(a, start);
    r := SortLine(a, start, prev);
  }

  /** The chain of branches on the trimmed line at start. */
  method SortLine(a: array<char>, start: nat, prev: string) returns (r: Line)
    requires Terminated(a[..], start)
    modifies a
    ensures r == Sort(CStr(old(a[..]), start), start > 0, prev)
    ensures Plain(r)
  {
    hide StrLen, HeaderOf, PairOf;
    ghost var s := CStr(a[..], start);
    FirstChar(a[..], start);
    if a[start] == ';' || a[start] == '#' {
      return Nothing;
    } else if prev != [] && a[start] != NUL && start > 0 {
      return Continuation(CStr(a[..], start));
    } else if a[start] == '[' {
      r := ParseHeader(a, start + 1);
    } else if a[start] != NUL {
      r := ParsePair(a, start);
    } else {
      return Nothing;
    }
  }

  lemma FirstChar(t: string, i: nat)
    requires Terminated(t, i)
    ensures t[i] == (if CStr(t, i) == [] then NUL else CStr(t, i)[0])
    ensures t[i] != NUL ==> CStr(t, i + 1) == CStr(t, i)[1..] && Terminated(t, i + 1)
  {
    hide StrLen;
    var c := CStr(t, i);
    assert c != [] ==> t[i..i + |c|][0] == c[0];
    if c != [] {
      assert t[i + 1..i + 1 + |c[1..]|] == c[1..];
      CStrIs(t, i + 1, c[1..]);
    }
  }

  lemma BomInBuffer(t: string)
    requires Terminated(t, 0) && |t| >= 3
    ensures HasBom(CStr(t, 0)) <==> t[0] == BOM[0] && t[1] == BOM[1] && t[2] == BOM[2]
  {
    hide StrLen;
    var c := CStr(t, 0);
    assert |c| < 3 ==> t[|c|] == NUL;
    assert t[0..|c|] == c;
  }

  lemma SkipChars(t: string, n: nat)
    requires Terminated(t, 0) && n <= |CStr(t, 0)|
    ensures CStr(t, n) == CStr(t, 0)[n..] && Terminated(t, n)
  {
    hide StrLen;
    var c := CStr(t, 0);
    assert t[n..n + |c[n..]|] == c[n..];
    CStrIs(t, n, c[n..]);
  }

  /** What is known when the first k lines are behind: section, previous name and calls so far. */
  ghost predicate Behind(lines: seq<string>, k: nat, section: string, prevName: string, events: seq<Event>)
    requires k <= |lines|
  {
    ContextAt(lines, k) == Context(section, prevName) && events == EventsUpTo(lines, k)
  }

  lemma OneLine(lines: seq<string>, accept: seq<Event> -> bool, k: nat, c: Context, events: seq<Event>)
    requires k < |lines| && Behind(lines, k, c.section, c.prev, events)
    ensures var r := Classify(lines[k], k == 0, c.prev);
            var c' := NextContext(c, r);
            var events' := events + EventsOf(c, r, k + 1);
            && Behind(lines, k + 1, c'.section, c'.prev, events')
            && (Good(lines, accept, k) <==> r != Malformed && (r.Continuation? || r.Pair? ==> accept(events')))
  {
    hide Classify;
    assert LineAt(lines, k) == Classify(lines[k], k == 0, c.prev);
    assert EventsUpTo(lines, k + 1) == events + EventsOf(c, LineAt(lines, k), k + 1);
  }

  /** The loop body of ini_parse_stream: one line, its effect on the state, and the handler's answer. */
  method HandleLine(line: array<char>, section: array<char>, prevName: array<char>, lineno: nat,
                    ghost text: string, accept: seq<Event> -> bool, events: seq<Event>)
    returns (failed: bool, events': seq<Event>)
    requires line.Length == INI_MAX_LINE && section.Length == MAX_SECTION && prevName.Length == MAX_NAME
    requires line != section && line != prevName && section != prevName
    requires lineno > 0 && Terminated(line[..], 0) && CStr(line[..], 0) == text
    modifies line, section, prevName
    ensures var c := Context(old(CStr(section[..], 0)), old(CStr(prevName[..], 0)));
            var r := Classify(text, lineno == 1, c.prev);
            && NextContext(c, r) == Context(CStr(section[..], 0), CStr(prevName[..], 0))
            && events' == events + EventsOf(c, r, lineno)
            && (failed <==> r == Malformed || ((r.Continuation? || r.Pair?) && !accept(events')))
  {
    hide Classify, StrLen, NulFree;
    events', failed := events, false;
    var r := ParseLine(line, lineno == 1, CStr(prevName[..], 0));
    match r {
      case Nothing =>
      case Continuation(value) =>
        events' := events + [Event(CStr(section[..], 0), CStr(prevName[..], 0), value, lineno)];
        failed := !accept(events');
      case Header(s) =>
        StrNCpy0(section, s, MAX_SECTION);
        prevName[0] := NUL;
        EmptyString(prevName[..]);
      case Pair(name, value) =>
        StrNCpy0(prevName, name, MAX_NAME);
        events' := events + [Event(CStr(section[..], 0), name, value, lineno)];
        failed := !accept(events');
      case Malformed => failed := true;
    }
  }

  /** What the parser sees of the lines a reader hands out: each up to a NUL, if it holds one. */
  function Seen(lines: seq<string>): (seen: seq<string>)
    ensures |seen| == |lines| && forall k :: 0 <= k < |lines| ==> seen[k] == CStr(lines[k], 0)
  {
    seq(|lines|, k requires 0 <= k < |lines| => CStr(lines[k], 0))
  }

  lemma SeenAll(lines: seq<string>)
    requires forall k :: 0 <= k < |lines| ==> NulFree(lines[k])
    ensures Seen(lines) == lines
  {
    forall k | 0 <= k < |lines|
      ensures Seen(lines)[k] == lines[k]
    {
      CStrIs(lines[k], 0, lines[k]);
    }
  }

  /** A line put into the buffer is what is seen of it. */
  method ReadLine(line: array<char>, text: string)
    requires |text| < line.Length
    modifies line
    ensures Terminated(line[..], 0) && CStr(line[..], 0) == CStr(text, 0)
  {
    var r := CStr(text, 0);
    forall i | 0 <= i < |text| {
      line[i] := text[i];
    }
    line[|text|] := NUL;
    assert line[..][0..|r|] == text[0..|r|];
    CStrIs(line[..], 0, r);
  }

  /**
   * ini_parse_stream over the lines a reader hands out. The result is 0 exactly when every line is
   * good; otherwise it is the number of the first line that is not, and parsing stops there: the
   * handler has seen the calls of the lines up to that one.
   */
  method IniParseStream(lines: seq<string>, accept: seq<Event> -> bool) returns (error: nat, events: seq<Event>)
    requires forall k :: 0 <= k < |lines| ==> |lines[k]| < INI_MAX_LINE
    ensures error <= |lines|
    ensures error == 0 ==> forall k :: 0 <= k < |lines| ==> Good(Seen(lines), accept, k)
    ensures error > 0 ==> !Good(Seen(lines), accept, error - 1)
    ensures error > 0 ==> forall k :: 0 <= k < error - 1 ==> Good(Seen(lines), accept, k)
    ensures events == EventsUpTo(Seen(lines), if error == 0 then |lines| else error)
  {
    hide Classify, StrLen, NulFree, NextContext, EventsOf, Good, Terminated, CStr;
    ghost var seen := Seen(lines);
    var line := new char[INI_MAX_LINE](_ => NUL);
    var section := new char[MAX_SECTION](_ => NUL);
    var prevName := new char[MAX_NAME](_ => NUL);
    EmptyString(section[..]);
    EmptyString(prevName[..]);
    error, events := 0, [];
    var lineno := 0;
    while lineno < |lines|
      invariant lineno <= |lines| && error == 0
      invariant Behind(seen, lineno, CStr(section[..], 0), CStr(prevName[..], 0), events)
      invariant forall k :: 0 <= k < lineno ==> Good(seen, accept, k)
    {
      hide Behind;
      OneLine(seen, accept, lineno, Context(CStr(section[..], 0), CStr(prevName[..], 0)), events);
      ReadLine(line, lines[lineno]);
      lineno := lineno + 1;
      var failed;
      failed, events := HandleLine(line, section, prevName, lineno, seen[lineno - 1], accept, events);
      if failed {
        error := lineno;
        break;
      }
    }
  }

  /**
   * The parser on printed lines that fit its buffer: it returns 0 exactly when there is no junk and the handler
   * accepts every call, else the number of the first line for which this fails; the handler sees just the
   * settings and further values up to there.
   */
  method ParsePrinted(bom: bool, items: seq<Item>, accept: seq<Event> -> bool) returns (error: nat, events: seq<Event>)
    requires AllPrintable(bom, items)
    requires forall line :: line in PrintAll(bom, items) ==> |line| < 200 && NulFree(line)
    ensures error <= |items| && events == Settings(items, if error == 0 then |items| else error)
    ensures error == 0 <==> forall k :: 0 <= k < |items| ==> Accepted(items, accept, k)
    ensures error > 0 ==> !Accepted(items, accept, error - 1) && forall k :: 0 <= k < error - 1 ==> Accepted(items, accept, k)
  {
    hide AllPrintable, LineAt, EventsUpTo, Settings, Print, NulFree, Good, Accepted;
    var lines := PrintAll(bom, items);
    error, events := IniParseStream(lines, accept);
    SeenAll(lines);
    ParseUndoesPrint(bom, items, accept);
    PrintedRun(bom, items, if error == 0 then |items| else error);
  }

  lemma EmptyString(t: string)
    requires t != [] && t[0] == NUL
    ensures CStr(t, 0) == []
  {
    CStrIs(t, 0, []);
  }
}
