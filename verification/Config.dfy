/** The configuration handler as a function: what every accepted line does to the config tree. */
module Config {
  import opened CString
  import opened Slots
  import Ini

  datatype Call = Call(section: string, name: string, value: string)

  /** The config tree and the instance name. */
  datatype Settings = Settings(slots: Slots, instance: string)

  predicate IsDebugCall(c: Call) { c.name == "debug" }

  predicate IsSessionCall(c: Call) { !IsDebugCall(c) && c.section == "app" && c.name == "session" }

  predicate IsInstanceCall(c: Call) { !IsDebugCall(c) && !IsSessionCall(c) && c.name == "instance" }

  function DebugValue(c: Call): int {
    if c.value == "true" || c.value == "1" then 1 else 0
  }

  function KeyOf(c: Call): string {
    if c.section == "" then c.name else c.section + "." + c.name
  }

  /** The entry a call puts, if it puts one; strtonum stands for kore_strtonum with its bounds. */
  function EntryOf(strtonum: string -> int, c: Call): Option<Entry> {
    if IsDebugCall(c) then Some(Entry("debug", VInt(DebugValue(c))))
    else if IsSessionCall(c) then Some(Entry("app.session", VInt(strtonum(c.value))))
    else if IsInstanceCall(c) then None
    else Some(Entry(KeyOf(c), VStr(c.value)))
  }

  /** load_config_tree. */
  function Load(strtonum: string -> int, s: Settings, c: Call): Settings {
    match EntryOf(strtonum, c)
    case None => s.(instance := c.value)
    case Some(e) => s.(slots := Put(s.slots, e))
  }

  function LoadAll(strtonum: string -> int, s: Settings, cs: seq<Call>): Settings
    decreases |cs|
  {
    if cs == [] then s else LoadAll(strtonum, Load(strtonum, s, cs[0]), cs[1..])
  }

  /** The default validate_config adds. */
  function Validate(s: Settings): Settings {
    if Contains(s.slots, "debug") then s else s.(slots := Put(s.slots, Entry("debug", VInt(0))))
  }

  predicate Complete(s: Settings) {
    Contains(s.slots, "app.name") && Contains(s.slots, "app.env") && Contains(s.slots, "app.key")
  }

  /** Start-up: the file, then validation, then the environment. */
  function StartUp(strtonum: string -> int, instance: string, file: seq<Call>, env: seq<Call>): Settings {
    LoadAll(strtonum, Validate(LoadAll(strtonum, Settings(NEW_ROOT, instance), file)), env)
  }

  // ---------------------------------------------------------------- the log behind the tree

  function EntriesOf(strtonum: string -> int, cs: seq<Call>): seq<Entry> {
    if cs == [] then []
    else match EntryOf(strtonum, cs[0])
      case None => EntriesOf(strtonum, cs[1..])
      case Some(e) => [e] + EntriesOf(strtonum, cs[1..])
  }

  lemma {:induction false} EntriesAppend(strtonum: string -> int, a: seq<Call>, b: seq<Call>)
    ensures EntriesOf(strtonum, a + b) == EntriesOf(strtonum, a) + EntriesOf(strtonum, b)
  {
    hide EntryOf;
    if a == [] {
      assert a + b == b;
    } else {
      assert (a + b)[1..] == a[1..] + b;
      EntriesAppend(strtonum, a[1..], b);
    }
  }

  lemma LogPut(s: Slots, es: seq<Entry>, e: Entry)
    requires IsLog(s, es)
    ensures IsLog(Put(s, e), es + [e])
  {
    HoleAfterLog(s, es);
  }

  lemma {:induction false} LoadAllIsLog(strtonum: string -> int, s: Settings, cs: seq<Call>, es: seq<Entry>)
    requires IsLog(s.slots, es)
    ensures IsLog(LoadAll(strtonum, s, cs).slots, es + EntriesOf(strtonum, cs))
    decreases |cs|
  {
    hide EntryOf, IsLog, Put;
    if cs == [] {
      assert es + [] == es;
    } else {
      match EntryOf(strtonum, cs[0])
      case None => LoadAllIsLog(strtonum, Load(strtonum, s, cs[0]), cs[1..], es);
      case Some(e) =>
        LogPut(s.slots, es, e);
        LoadAllIsLog(strtonum, Load(strtonum, s, cs[0]), cs[1..], es + [e]);
        assert es + ([e] + EntriesOf(strtonum, cs[1..])) == es + [e] + EntriesOf(strtonum, cs[1..]);
    }
  }

  function DefaultDebug(es: seq<Entry>): seq<Entry> {
    if LastPut(es, "debug") == None then [Entry("debug", VInt(0))] else []
  }

  lemma {:induction false} ContainsOnLog(s: Slots, es: seq<Entry>, key: string)
    requires IsLog(s, es)
    ensures Contains(s, key) <==> LastPut(es, key) != None
    decreases |es|
  {
    if es == [] {
    } else {
      var n := |es| - 1;
      assert Holds(s[n], key) <==> es[n].key == key;
      ContainsOnLog(s[n := None], es[..n], key);
      forall i | 0 <= i < |s| && i != n
        ensures Holds(s[i], key) <==> Holds(s[n := None][i], key)
      {
      }
      if Contains(s[n := None], key) {
        var i :| 0 <= i < |s| && Holds(s[n := None][i], key);
        assert Holds(s[i], key);
      }
    }
  }

  /** The entries of a start-up: the file, the default if the file sets no debug, the environment. */
  function StartUpEntries(strtonum: string -> int, file: seq<Call>, env: seq<Call>): seq<Entry> {
    EntriesOf(strtonum, file) + DefaultDebug(EntriesOf(strtonum, file)) + EntriesOf(strtonum, env)
  }

  lemma StartUpIsLog(strtonum: string -> int, instance: string, file: seq<Call>, env: seq<Call>)
    ensures IsLog(StartUp(strtonum, instance, file, env).slots, StartUpEntries(strtonum, file, env))
  {
    hide IsLog, Contains, Put;
    var es := EntriesOf(strtonum, file);
    assert IsLog(NEW_ROOT, []) by { NewRootIsLog(); }
    LoadAllIsLog(strtonum, Settings(NEW_ROOT, instance), file, []);
    assert [] + es == es;
    var s := LoadAll(strtonum, Settings(NEW_ROOT, instance), file);
    ContainsOnLog(s.slots, es, "debug");
    LogPut(s.slots, es, Entry("debug", VInt(0)));
    assert es + [] == es;
    LoadAllIsLog(strtonum, Validate(s), env, es + DefaultDebug(es));
  }

  lemma NewRootIsLog()
    ensures IsLog(NEW_ROOT, [])
  {
  }

  // ---------------------------------------------------------------- debug

  function LastDebug(cs: seq<Call>): Option<int> {
    if cs == [] then None
    else if IsDebugCall(cs[|cs| - 1]) then Some(DebugValue(cs[|cs| - 1]))
    else LastDebug(cs[..|cs| - 1])
  }

  /** app_isdebug. */
  function IsDebug(s: Settings): int {
    match Get(s.slots, "debug", KInt, None)
    case Some(VInt(i)) => i
    case _ => 0
  }

  /** Only debug calls put an entry under "debug": every prefixed key holds a dot. */
  lemma DebugEntry(strtonum: string -> int, c: Call)
    ensures var e := EntryOf(strtonum, c);
            (e.Some? && e.value.key == "debug") <==> IsDebugCall(c)
  {
    if c.section != "" {
      assert KeyOf(c)[|c.section|] == '.';
      assert '.' !in "debug";
    }
  }

  lemma {:induction false} LastDebugEntry(strtonum: string -> int, cs: seq<Call>)
    ensures LastPut(EntriesOf(strtonum, cs), "debug") ==
            match LastDebug(cs) case None => None case Some(i) => Some(VInt(i))
    ensures AllOfKind(EntriesOf(strtonum, cs), "debug", KInt)
    decreases |cs|
  {
    if cs != [] {
      var (front, c) := (cs[..|cs| - 1], cs[|cs| - 1]);
      LastDebugEntry(strtonum, front);
      DebugEntry(strtonum, c);
      EntriesAppend(strtonum, front, [c]);
      assert cs == front + [c];
      LastOfOne(strtonum, front, c, "debug");
    }
  }

  lemma LastOfOne(strtonum: string -> int, front: seq<Call>, c: Call, key: string)
    ensures var es := EntriesOf(strtonum, front);
            EntriesOf(strtonum, front) + EntriesOf(strtonum, [c]) ==
            match EntryOf(strtonum, c) case None => es case Some(e) => es + [e]
    ensures var es := EntriesOf(strtonum, front);
            LastPut(es + EntriesOf(strtonum, [c]), key) ==
            match EntryOf(strtonum, c)
            case None => LastPut(es, key)
            case Some(e) => if e.key == key then Some(e.value) else LastPut(es, key)
  {
    hide EntryOf;
    var es := EntriesOf(strtonum, front);
    assert [c][1..] == [];
    match EntryOf(strtonum, c)
    case None => assert es + [] == es;
    case Some(e) =>
      assert EntriesOf(strtonum, [c]) == [e];
      assert (es + [e])[..|es|] == es;
  }

  lemma {:induction false} LastPutAppend(a: seq<Entry>, b: seq<Entry>, key: string)
    ensures LastPut(a + b, key) == if LastPut(b, key) == None then LastPut(a, key) else LastPut(b, key)
    decreases |b|
  {
    if b == [] {
      assert a + b == a;
    } else {
      var n := |b| - 1;
      assert (a + b)[..|a| + n] == a + b[..n];
      LastPutAppend(a, b[..n], key);
    }
  }

  lemma AllOfKindAppend(a: seq<Entry>, b: seq<Entry>, key: string, kind: Kind)
    requires AllOfKind(a, key, kind) && AllOfKind(b, key, kind)
    ensures AllOfKind(a + b, key, kind)
  {
  }

  /** What a typed get returns from a log whose entries under the key all have that type. */
  lemma GetIsLastPut(s: Slots, es: seq<Entry>, key: string, kind: Kind)
    requires IsLog(s, es) && AllOfKind(es, key, kind)
    ensures Get(s, key, kind, None) == LastPut(es, key)
  {
    GetOnLog(s, es, key, kind, None);
    ReadLogIsLast(es, key, kind, None);
  }

  /**
   * After start-up app_isdebug is the last debug setting of the file and then the environment, or 0
   * when there is none, whatever else was set.
   */
  lemma DebugIsLastSetting(strtonum: string -> int, instance: string, file: seq<Call>, env: seq<Call>)
    ensures IsDebug(StartUp(strtonum, instance, file, env)) ==
            match LastDebug(env)
            case Some(i) => i
            case None => match LastDebug(file) case Some(i) => i case None => 0
  {
    hide IsLog, AllOfKind, LastPut, EntriesOf, LastDebug, StartUp;
    var (f, e) := (EntriesOf(strtonum, file), EntriesOf(strtonum, env));
    var d := DefaultDebug(f);
    StartUpIsLog(strtonum, instance, file, env);
    LastDebugEntry(strtonum, file);
    LastDebugEntry(strtonum, env);
    DefaultIsInt(f);
    AllOfKindAppend(f, d, "debug", KInt);
    AllOfKindAppend(f + d, e, "debug", KInt);
    LastPutAppend(f, d, "debug");
    LastPutAppend(f + d, e, "debug");
    GetIsLastPut(StartUp(strtonum, instance, file, env).slots, f + d + e, "debug", KInt);
  }

  lemma DefaultIsInt(es: seq<Entry>)
    ensures AllOfKind(DefaultDebug(es), "debug", KInt)
    ensures LastPut(DefaultDebug(es), "debug") == if LastPut(es, "debug") == None then Some(VInt(0)) else None
  {
  }

  // ---------------------------------------------------------------- string settings

  /** None of the calls that the handler treats apart, and the key is this one. */
  predicate SetsString(c: Call, key: string) {
    !IsDebugCall(c) && !IsSessionCall(c) && !IsInstanceCall(c) && KeyOf(c) == key
  }

  /** The value of the last call that sets this key as a string. */
  function LastSetting(cs: seq<Call>, key: string): Option<string> {
    if cs == [] then None
    else
      var c := cs[|cs| - 1];
      if SetsString(c, key) then Some(c.value)
      else LastSetting(cs[..|cs| - 1], key)
  }

  lemma {:induction false} LastSettingEntry(strtonum: string -> int, cs: seq<Call>, key: string)
    requires key != "debug" && key != "app.session"
    ensures LastPut(EntriesOf(strtonum, cs), key) ==
            match LastSetting(cs, key) case None => None case Some(v) => Some(VStr(v))
    ensures AllOfKind(EntriesOf(strtonum, cs), key, KString)
    decreases |cs|
  {
    hide EntriesOf, LastPut, EntryOf, SetsString, AllOfKind;
    if cs != [] {
      var (front, c) := (cs[..|cs| - 1], cs[|cs| - 1]);
      LastSettingEntry(strtonum, front, key);
      EntriesAppend(strtonum, front, [c]);
      assert cs == front + [c];
      LastOfOne(strtonum, front, c, key);
      StringEntry(strtonum, c, key);
      OneOfKind(strtonum, c, key);
      AllOfKindAppend(EntriesOf(strtonum, front), EntriesOf(strtonum, [c]), key, KString);
    } else {
      NoEntries(strtonum, key);
    }
  }

  lemma OneOfKind(strtonum: string -> int, c: Call, key: string)
    requires key != "debug" && key != "app.session"
    ensures AllOfKind(EntriesOf(strtonum, [c]), key, KString)
  {
    hide EntryOf;
    StringEntry(strtonum, c, key);
    assert [c][1..] == [];
  }

  lemma NoEntries(strtonum: string -> int, key: string)
    ensures LastPut(EntriesOf(strtonum, []), key) == None && AllOfKind(EntriesOf(strtonum, []), key, KString)
  {
  }

  lemma StringEntry(strtonum: string -> int, c: Call, key: string)
    requires key != "debug" && key != "app.session"
    ensures var e := EntryOf(strtonum, c);
            if SetsString(c, key)
            then e == Some(Entry(key, VStr(c.value)))
            else e.Some? ==> e.value.key != key
  {
  }

  /**
   * A later source wins: after start-up, reading any string key gives the last value set for it,
   * the environment over the file, and a later line over an earlier one.
   */
  lemma LaterSourceWins(strtonum: string -> int, instance: string, file: seq<Call>, env: seq<Call>, key: string)
    requires key != "debug" && key != "app.session"
    ensures Get(StartUp(strtonum, instance, file, env).slots, key, KString, None) ==
            match LastSetting(file + env, key) case None => None case Some(v) => Some(VStr(v))
  {
    hide IsLog, AllOfKind, LastPut, EntriesOf, LastSetting, StartUp;
    var (f, e) := (EntriesOf(strtonum, file), EntriesOf(strtonum, env));
    var d := DefaultDebug(f);
    StartUpIsLog(strtonum, instance, file, env);
    EntriesAppend(strtonum, file, env);
    LastSettingEntry(strtonum, file, key);
    LastSettingEntry(strtonum, env, key);
    LastSettingEntry(strtonum, file + env, key);
    DefaultIsOther(f, key);
    AllOfKindAppend(f, d, key, KString);
    AllOfKindAppend(f + d, e, key, KString);
    LastPutAppend(f, d, key);
    LastPutAppend(f + d, e, key);
    LastPutAppend(f, e, key);
    GetIsLastPut(StartUp(strtonum, instance, file, env).slots, f + d + e, key, KString);
  }

  lemma DefaultIsOther(es: seq<Entry>, key: string)
    requires key != "debug"
    ensures AllOfKind(DefaultDebug(es), key, KString) && LastPut(DefaultDebug(es), key) == None
  {
  }

  // ---------------------------------------------------------------- the session lifetime

  /** A name that is the session key in full, outside the app section: it puts a string. */
  predicate IsBareSession(c: Call) {
    !IsDebugCall(c) && !IsSessionCall(c) && !IsInstanceCall(c) && KeyOf(c) == "app.session"
  }

  /** The last session setting before the first bare one. */
  function SessionSetting(strtonum: string -> int, cs: seq<Call>, found: Option<Value>): Option<Value> {
    if cs == [] || IsBareSession(cs[0]) then found
    else SessionSetting(strtonum, cs[1..], if IsSessionCall(cs[0]) then Some(VInt(strtonum(cs[0].value))) else found)
  }

  lemma {:induction false} SessionOnLog(strtonum: string -> int, cs: seq<Call>, found: Option<Value>)
    ensures ReadLog(EntriesOf(strtonum, cs), "app.session", KInt, found) == SessionSetting(strtonum, cs, found)
    decreases |cs|
  {
    if cs != [] {
      SessionOnLog(strtonum, cs[1..], if IsSessionCall(cs[0]) then Some(VInt(strtonum(cs[0].value))) else found);
      match EntryOf(strtonum, cs[0])
      case None =>
      case Some(e) => assert ([e] + EntriesOf(strtonum, cs[1..]))[1..] == EntriesOf(strtonum, cs[1..]);
    }
  }

  lemma {:induction false} ReadLogSkips(a: seq<Entry>, b: seq<Entry>, c: seq<Entry>, key: string, kind: Kind, found: Option<Value>)
    requires forall i :: 0 <= i < |b| ==> b[i].key != key
    ensures ReadLog(a + b + c, key, kind, found) == ReadLog(a + c, key, kind, found)
    decreases |a|, |b|
  {
    if a != [] {
      assert (a + b + c)[1..] == a[1..] + b + c;
      assert (a + c)[1..] == a[1..] + c;
      ReadLogSkips(a[1..], b, c, key, kind, if a[0].key == key then Some(a[0].value) else found);
    } else if b != [] {
      assert (a + b + c)[1..] == a + b[1..] + c;
      ReadLogSkips(a, b[1..], c, key, kind, found);
    } else {
      assert a + b + c == a + c;
    }
  }

  /**
   * The session lifetime is read as an integer from a key that a bare name can fill with a string:
   * after start-up it is the last session setting before the first bare one, file before environment.
   */
  lemma SessionIsExactly(strtonum: string -> int, instance: string, file: seq<Call>, env: seq<Call>)
    ensures Get(StartUp(strtonum, instance, file, env).slots, "app.session", KInt, None) ==
            SessionSetting(strtonum, file + env, None)
  {
    hide IsLog, EntriesOf, StartUp, SessionSetting;
    var (f, e) := (EntriesOf(strtonum, file), EntriesOf(strtonum, env));
    StartUpIsLog(strtonum, instance, file, env);
    GetOnLog(StartUp(strtonum, instance, file, env).slots, f + DefaultDebug(f) + e, "app.session", KInt, None);
    ReadLogSkips(f, DefaultDebug(f), e, "app.session", KInt, None);
    EntriesAppend(strtonum, file, env);
    SessionOnLog(strtonum, file + env, None);
  }

  // ---------------------------------------------------------------- from the file's text

  /** The calls of the parser's events; this handler accepts all that do not abort the process. */
  function CallsOf(es: seq<Ini.Event>): (cs: seq<Call>)
    ensures |cs| == |es|
  {
    seq(|es|, i requires 0 <= i < |es| => Call(es[i].section, es[i].name, es[i].value))
  }

  // ---------------------------------------------------------------- what a reader gets, call by call

  lemma {:induction false} LastDebugBehind(pre: seq<Call>, post: seq<Call>)
    requires forall c :: c in post ==> c.name != "debug"
    ensures LastDebug(pre + post) == LastDebug(pre)
    decreases |post|
  {
    if post == [] {
      assert pre + post == pre;
    } else {
      var n := |post| - 1;
      assert (pre + post)[..|pre + post| - 1] == pre + post[..n] && (pre + post)[|pre + post| - 1] == post[n];
      assert post[n] in post;
      LastDebugBehind(pre, post[..n]);
    }
  }

  lemma {:induction false} LastDebugAppend(a: seq<Call>, b: seq<Call>)
    ensures LastDebug(a + b) == if LastDebug(b).Some? then LastDebug(b) else LastDebug(a)
    decreases |b|
  {
    if b == [] {
      assert a + b == a;
    } else {
      assert (a + b)[..|a + b| - 1] == a + b[..|b| - 1];
      LastDebugAppend(a, b[..|b| - 1]);
    }
  }

  /** The last setting called debug decides, in whatever section: it is on for "true" and "1" only. */
  lemma DebugSettingRead(strtonum: string -> int, instance: string, file: seq<Call>, env: seq<Call>,
                         pre: seq<Call>, section: string, value: string, post: seq<Call>)
    requires file + env == pre + [Call(section, "debug", value)] + post && forall c :: c in post ==> c.name != "debug"
    ensures IsDebug(StartUp(strtonum, instance, file, env)) == if value == "true" || value == "1" then 1 else 0
  {
    hide StartUp, IsDebug;
    var c := Call(section, "debug", value);
    DebugIsLastSetting(strtonum, instance, file, env);
    LastDebugAppend(file, env);
    LastDebugBehind(pre + [c], post);
    assert (pre + [c])[..|pre|] == pre;
  }

  /** Without one, debug mode is off. */
  lemma NoDebugSetting(strtonum: string -> int, instance: string, file: seq<Call>, env: seq<Call>)
    requires forall c :: c in file + env ==> c.name != "debug"
    ensures IsDebug(StartUp(strtonum, instance, file, env)) == 0
  {
    hide StartUp, IsDebug;
    DebugIsLastSetting(strtonum, instance, file, env);
    LastDebugAppend(file, env);
    LastDebugBehind([], file + env);
    assert [] + (file + env) == file + env;
  }

  /** A call that puts no string under this key, whatever its section and name. */
  ghost predicate OtherThan(c: Call, key: string) {
    (if c.section == "" then c.name else c.section + "." + c.name) != key || c.name == "debug" || c.name == "instance"
  }

  lemma {:induction false} LastSettingBehind(pre: seq<Call>, post: seq<Call>, key: string)
    requires key != "debug" && key != "app.session" && forall c :: c in post ==> OtherThan(c, key)
    ensures LastSetting(pre + post, key) == LastSetting(pre, key)
    decreases |post|
  {
    if post == [] {
      assert pre + post == pre;
    } else {
      var n := |post| - 1;
      assert (pre + post)[..|pre + post| - 1] == pre + post[..n] && (pre + post)[|pre + post| - 1] == post[n];
      assert post[n] in post;
      LastSettingBehind(pre, post[..n], key);
    }
  }

  /**
   * A setting is read back under its section, a dot and its name, or under its bare name, when no later one has
   * that key: everything but debug, the instance name and the session time is kept as the text it is.
   */
  lemma StringSettingRead(strtonum: string -> int, instance: string, file: seq<Call>, env: seq<Call>,
                          pre: seq<Call>, section: string, name: string, value: string, post: seq<Call>)
    requires file + env == pre + [Call(section, name, value)] + post && name != "debug" && name != "instance"
    requires var key := if section == "" then name else section + "." + name;
             key != "app.session" && forall c :: c in post ==> OtherThan(c, key)
    ensures var key := if section == "" then name else section + "." + name;
            Get(StartUp(strtonum, instance, file, env).slots, key, KString, None) == Some(VStr(value))
  {
    hide StartUp, Get;
    var (key, c) := (if section == "" then name else section + "." + name, Call(section, name, value));
    NotDebugKey(section, name);
    LaterSourceWins(strtonum, instance, file, env, key);
    LastSettingBehind(pre + [c], post, key);
    assert (pre + [c])[..|pre|] == pre;
    assert section == "app" && name == "session" ==> section + "." + name == "app.session";
  }

  lemma NotDebugKey(section: string, name: string)
    requires section != "" || name != "debug"
    ensures (if section == "" then name else section + "." + name) != "debug"
  {
    if section != "" {
      assert (section + "." + name)[|section|] == '.' && '.' !in "debug";
    }
  }

  /** A key that was never set is not found. */
  lemma UnsetStringRead(strtonum: string -> int, instance: string, file: seq<Call>, env: seq<Call>, key: string)
    requires key != "debug" && key != "app.session" && forall c :: c in file + env ==> OtherThan(c, key)
    ensures Get(StartUp(strtonum, instance, file, env).slots, key, KString, None) == None
  {
    hide StartUp, Get;
    LaterSourceWins(strtonum, instance, file, env, key);
    LastSettingBehind([], file + env, key);
    assert [] + (file + env) == file + env;
  }

  lemma {:induction false} SessionBehind(strtonum: string -> int, pre: seq<Call>, post: seq<Call>, found: Option<Value>)
    requires forall c :: c in pre ==> !(c.section == "" && c.name == "app.session")
    ensures SessionSetting(strtonum, pre + post, found) ==
            SessionSetting(strtonum, post, SessionSetting(strtonum, pre, found))
    decreases |pre|
  {
    if pre == [] {
      assert pre + post == post;
    } else {
      assert (pre + post)[0] == pre[0] && (pre + post)[1..] == pre[1..] + post && pre[0] in pre;
      BareIsBare(pre[0]);
      SessionBehind(strtonum, pre[1..], post, if IsSessionCall(pre[0]) then Some(VInt(strtonum(pre[0].value))) else found);
    }
  }

  lemma BareIsBare(c: Call)
    ensures IsBareSession(c) <==> c.section == "" && c.name == "app.session"
  {
    if c.section != "" && c.section + "." + c.name == "app.session" {
      var t := c.section + "." + c.name;
      assert t[|c.section|] == '.';
      assert forall i :: 0 <= i < 11 && i != 3 ==> "app.session"[i] != '.';
      assert |c.section| == 3 && t[..3] == c.section && t[4..] == c.name;
      assert "app.session"[..3] == "app" && "app.session"[4..] == "session";
    }
    assert c.section == "" && c.name == "app.session" ==> c.name != "debug" && c.name != "instance";
  }

  lemma {:induction false} NoSessionBehind(strtonum: string -> int, post: seq<Call>, found: Option<Value>)
    requires forall c :: c in post ==> !(c.section == "app" && c.name == "session")
    ensures SessionSetting(strtonum, post, found) == found
    decreases |post|
  {
    if post != [] {
      assert post[0] in post;
      NoSessionBehind(strtonum, post[1..], found);
    }
  }

  /** The last session time in section app, as the number that its text reads as, unless a bare name came before it. */
  lemma SessionSettingRead(strtonum: string -> int, instance: string, file: seq<Call>, env: seq<Call>,
                           pre: seq<Call>, value: string, post: seq<Call>)
    requires file + env == pre + [Call("app", "session", value)] + post
    requires forall c :: c in pre ==> !(c.section == "" && c.name == "app.session")
    requires forall c :: c in post ==> !(c.section == "app" && c.name == "session")
    ensures Get(StartUp(strtonum, instance, file, env).slots, "app.session", KInt, None) == Some(VInt(strtonum(value)))
  {
    hide StartUp, Get, IsBareSession;
    var c := Call("app", "session", value);
    SessionIsExactly(strtonum, instance, file, env);
    assert pre + [c] + post == pre + ([c] + post);
    SessionBehind(strtonum, pre, [c] + post, None);
    BareIsBare(c);
    assert ([c] + post)[1..] == post;
    NoSessionBehind(strtonum, post, Some(VInt(strtonum(value))));
  }

  /** The instance name is that of the last call of this name, if there is one. */
  lemma {:induction false} InstanceLoaded(strtonum: string -> int, s: Settings, cs: seq<Call>, pre: seq<Call>, section: string,
                                          value: string, post: seq<Call>)
    requires cs == pre + [Call(section, "instance", value)] + post && forall c :: c in post ==> c.name != "instance"
    ensures LoadAll(strtonum, s, cs).instance == value
    decreases |pre|
  {
    if pre == [] {
      assert cs[0] == Call(section, "instance", value) && cs[1..] == post;
      InstanceStays(strtonum, Load(strtonum, s, cs[0]), post);
    } else {
      assert cs[0] == pre[0] && cs[1..] == pre[1..] + [Call(section, "instance", value)] + post;
      InstanceLoaded(strtonum, Load(strtonum, s, cs[0]), cs[1..], pre[1..], section, value, post);
    }
  }

  lemma {:induction false} InstanceStays(strtonum: string -> int, s: Settings, cs: seq<Call>)
    requires forall c :: c in cs ==> c.name != "instance"
    ensures LoadAll(strtonum, s, cs).instance == s.instance
    decreases |cs|
  {
    if cs != [] {
      assert cs[0] in cs;
      InstanceStays(strtonum, Load(strtonum, s, cs[0]), cs[1..]);
    }
  }

  ghost predicate Sets(cs: seq<Call>, key: string) {
    exists c :: c in cs && !OtherThan(c, key)
  }

  /** The required settings are there when the file has each, in section app or by its full name, and only then. */
  lemma CompleteExactly(strtonum: string -> int, instance: string, file: seq<Call>)
    ensures Complete(LoadAll(strtonum, Settings(NEW_ROOT, instance), file)) <==>
            Sets(file, "app.name") && Sets(file, "app.env") && Sets(file, "app.key")
  {
    hide EntryOf, OtherThan, EntriesOf, LoadAll, IsLog, Sets, Contains;
    ContainsExactly(strtonum, instance, file, "app.name");
    ContainsExactly(strtonum, instance, file, "app.env");
    ContainsExactly(strtonum, instance, file, "app.key");
  }

  lemma ContainsExactly(strtonum: string -> int, instance: string, file: seq<Call>, key: string)
    requires key != "debug" && key != "app.session"
    ensures Contains(LoadAll(strtonum, Settings(NEW_ROOT, instance), file).slots, key) <==> Sets(file, key)
  {
    hide EntryOf, OtherThan, EntriesOf, LoadAll, IsLog, Contains;
    NewRootIsLog();
    LoadAllIsLog(strtonum, Settings(NEW_ROOT, instance), file, []);
    assert [] + EntriesOf(strtonum, file) == EntriesOf(strtonum, file);
    ContainsOnLog(LoadAll(strtonum, Settings(NEW_ROOT, instance), file).slots, EntriesOf(strtonum, file), key);
    EntryPut(strtonum, file, key);
    LastPutSome(EntriesOf(strtonum, file), key);
  }

  lemma {:induction false} LastPutSome(es: seq<Entry>, key: string)
    ensures LastPut(es, key).Some? <==> exists i :: 0 <= i < |es| && es[i].key == key
    decreases |es|
  {
    if es != [] {
      var front := es[..|es| - 1];
      LastPutSome(front, key);
      assert forall i :: 0 <= i < |front| ==> front[i] == es[i];
    }
  }

  lemma {:induction false} EntryPut(strtonum: string -> int, cs: seq<Call>, key: string)
    requires key != "debug" && key != "app.session"
    ensures (exists i :: 0 <= i < |EntriesOf(strtonum, cs)| && EntriesOf(strtonum, cs)[i].key == key) <==>
            exists c :: c in cs && !OtherThan(c, key)
    decreases |cs|
  {
    hide EntryOf, OtherThan;
    if cs != [] {
      EntryPut(strtonum, cs[1..], key);
      EntryHas(strtonum, cs[0], key);
      var (all, rest) := (EntriesOf(strtonum, cs), EntriesOf(strtonum, cs[1..]));
      assert cs == [cs[0]] + cs[1..];
      match EntryOf(strtonum, cs[0])
      case None =>
      case Some(e) =>
        assert all[0] == e && all[1..] == rest;
        assert forall i :: 0 <= i < |rest| ==> rest[i] == all[i + 1];
    }
  }

  lemma EntryHas(strtonum: string -> int, c: Call, key: string)
    requires key != "debug" && key != "app.session"
    ensures (EntryOf(strtonum, c).Some? && EntryOf(strtonum, c).value.key == key) <==> !OtherThan(c, key)
  {
    assert c.section == "app" && c.name == "session" ==> c.section + "." + c.name == "app.session";
  }

  // ---------------------------------------------------------------- what is printed is read

  /** The value of the last of the first k items that sets this key as a string. */
  function PrintedValue(items: seq<Ini.Item>, k: nat, key: string): Option<string>
    requires k <= |items|
  {
    if k == 0 then None
    else match items[k - 1]
      case Setting(_, n, _, _, _, v, _) =>
        if SetsString(Call(Ini.SectionAt(items, k - 1), n, v), key) then Some(v) else PrintedValue(items, k - 1, key)
      case Further(_, v) =>
        if SetsString(Call(Ini.SectionAt(items, k - 1), Ini.NameAt(items, k - 1), v), key) then Some(v)
        else PrintedValue(items, k - 1, key)
      case _ => PrintedValue(items, k - 1, key)
  }

  lemma {:induction false} SettingsSet(items: seq<Ini.Item>, k: nat, key: string)
    requires k <= |items|
    ensures LastSetting(CallsOf(Ini.Settings(items, k)), key) == PrintedValue(items, k, key)
  {
    hide SetsString;
    if k > 0 {
      SettingsSet(items, k - 1, key);
      CallsStep(items, k);
    }
  }

  /** The calls of one more item. */
  lemma CallsStep(items: seq<Ini.Item>, k: nat)
    requires 0 < k <= |items|
    ensures var (before, section) := (CallsOf(Ini.Settings(items, k - 1)), Ini.SectionAt(items, k - 1));
            CallsOf(Ini.Settings(items, k)) ==
            match items[k - 1]
            case Setting(_, n, _, _, _, v, _) => before + [Call(section, n, v)]
            case Further(_, v) => before + [Call(section, Ini.NameAt(items, k - 1), v)]
            case _ => before
    ensures forall c :: var before := CallsOf(Ini.Settings(items, k - 1)); (before + [c])[..|before|] == before
  {
  }

  lemma {:induction false} LastSettingAppend(a: seq<Call>, b: seq<Call>, key: string)
    ensures LastSetting(a + b, key) == if LastSetting(b, key).Some? then LastSetting(b, key) else LastSetting(a, key)
    decreases |b|
  {
    hide SetsString;
    if b == [] {
      assert a + b == a;
    } else {
      assert (a + b)[..|a + b| - 1] == a + b[..|b| - 1];
      LastSettingAppend(a, b[..|b| - 1], key);
    }
  }

  /**
   * What is printed is what a reader of the configuration gets: for every printed file and every
   * environment, the last value of a string key, the environment over the file.
   */
  lemma PrintedSettingsReadBack(strtonum: string -> int, instance: string, bom: bool, items: seq<Ini.Item>, env: seq<Call>,
                                key: string)
    requires Ini.AllPrintable(bom, items) && key != "debug" && key != "app.session"
    ensures var lines := Ini.PrintAll(bom, items);
            var file := CallsOf(Ini.EventsUpTo(lines, |lines|));
            Get(StartUp(strtonum, instance, file, env).slots, key, KString, None) ==
            match LastSetting(env, key)
            case Some(v) => Some(VStr(v))
            case None => match PrintedValue(items, |items|, key) case Some(v) => Some(VStr(v)) case None => None
  {
    hide StartUp, Ini.AllPrintable, Ini.EventsUpTo, Get, LastSetting, PrintedValue, Ini.Settings;
    Ini.ParseUndoesPrint(bom, items, _ => true);
    var file := CallsOf(Ini.Settings(items, |items|));
    LaterSourceWins(strtonum, instance, file, env, key);
    LastSettingAppend(file, env, key);
    SettingsSet(items, |items|, key);
  }

  /** Whether the last of the first k items that sets debug turns it on. */
  function PrintedDebug(items: seq<Ini.Item>, k: nat): int
    requires k <= |items|
  {
    if k == 0 then 0
    else match items[k - 1]
      case Setting(_, n, _, _, _, v, _) =>
        if n == "debug" then (if v == "true" || v == "1" then 1 else 0) else PrintedDebug(items, k - 1)
      case Further(_, v) =>
        if Ini.NameAt(items, k - 1) == "debug" then (if v == "true" || v == "1" then 1 else 0)
        else PrintedDebug(items, k - 1)
      case _ => PrintedDebug(items, k - 1)
  }

  lemma {:induction false} PrintedDebugSet(items: seq<Ini.Item>, k: nat)
    requires k <= |items|
    ensures (match LastDebug(CallsOf(Ini.Settings(items, k))) case Some(i) => i case None => 0) == PrintedDebug(items, k)
  {
    hide CallsOf, Ini.Settings, Ini.SectionAt, Ini.NameAt, LastDebug;
    if k == 0 {
      NoneCalled(items);
    } else {
      PrintedDebugSet(items, k - 1);
      CallsStep(items, k);
      var (before, section) := (CallsOf(Ini.Settings(items, k - 1)), Ini.SectionAt(items, k - 1));
      match items[k - 1]
      case Setting(_, n, _, _, _, v, _) => OneDebug(before, Call(section, n, v));
      case Further(_, v) => OneDebug(before, Call(section, Ini.NameAt(items, k - 1), v));
      case _ =>
    }
  }

  lemma NoneCalled(items: seq<Ini.Item>)
    ensures LastDebug(CallsOf(Ini.Settings(items, 0))) == None
  {
  }

  lemma OneDebug(before: seq<Call>, c: Call)
    ensures LastDebug(before + [c]) ==
            if c.name == "debug" then Some(if c.value == "true" || c.value == "1" then 1 else 0) else LastDebug(before)
  {
    assert (before + [c])[..|before|] == before;
  }

  /** app_isdebug after start-up with a printed file and no debug setting in the environment. */
  lemma PrintedDebugReadBack(strtonum: string -> int, instance: string, bom: bool, items: seq<Ini.Item>, env: seq<Call>)
    requires Ini.AllPrintable(bom, items) && forall c :: c in env ==> c.name != "debug"
    ensures var lines := Ini.PrintAll(bom, items);
            var file := CallsOf(Ini.EventsUpTo(lines, |lines|));
            IsDebug(StartUp(strtonum, instance, file, env)) == PrintedDebug(items, |items|)
  {
    hide StartUp, Ini.AllPrintable, Ini.EventsUpTo, IsDebug, PrintedDebug, Ini.Settings;
    Ini.ParseUndoesPrint(bom, items, _ => true);
    var file := CallsOf(Ini.Settings(items, |items|));
    DebugIsLastSetting(strtonum, instance, file, env);
    LastDebugBehind([], env);
    assert [] + env == env;
    PrintedDebugSet(items, |items|);
  }
}
