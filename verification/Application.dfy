/** The application root: its config and cache trees, and the handler that fills the former. */
module Application {
  import opened CString
  import opened Compat
  import opened Trees
  import opened Ownership
  import opened Config
  import S = Slots

  class App {
    var root: Node
    var config: Node    // child 0 of the root
    var cache: Node     // child 1 of the root

    /** Everything the application owns. */
    ghost function Blocks(): set<object>
      reads this, root, config, cache
    {
      root.Own() + config.Repr + cache.Repr
    }

    ghost predicate Valid()
      reads this, root, config, config.Repr, cache, cache.Repr
    {
      && config.IsTree() && config.ptr != null && |config.child| > 0 && config.readonly
      && cache.IsTree() && cache.ptr != null && |cache.child| > 0 && !cache.readonly
      && root.child == [config, cache] + Nulls(8) && root.ptr != null
      && root.key == null && root.value.RStr? && root.value.str != null && root.DistinctBlocks()
      && root.Own() !! config.Repr && root.Own() !! cache.Repr && config.Repr !! cache.Repr
    }

    /** The config tree and the instance name as the handler's specification sees them. */
    ghost function State(): Settings
      reads this, root, config
      requires root.value.RStr? && root.value.str != null
    {
      Settings(config.slots, root.value.str.text)
    }

    /** application_create. */
    constructor (heap: Heap, instance: string)
      modifies heap
      ensures Valid() && heap !in Blocks() && fresh(Blocks())
      ensures heap.live == old(heap.live) + Blocks()
      ensures State() == Settings(S.NEW_ROOT, instance) && cache.slots == S.NEW_ROOT
    {
      hide Node.Valid, ShowsSlots;
      var r := NewRootNode(heap, instance);
      var c := NewTree(heap, true);
      var k := NewTree(heap, false);
      r.child := [c, k] + Nulls(8);
      root, config, cache := r, c, k;
    }

    /** config_put_int. */
    method PutConfigInt(heap: Heap, k: string, i: int)
      requires Valid() && heap !in Blocks() && Blocks() <= heap.live
      modifies heap, config
      ensures Valid() && root == old(root) && config == old(config) && cache == old(cache) && heap !in Blocks()
      ensures State() == old(State()).(slots := S.Put(old(config.slots), S.Entry(k, S.VInt(i))))
      ensures cache.slots == old(cache.slots)
      ensures heap.live == old(heap.live) - old(Blocks()) + Blocks()
    {
      hide Node.Valid, ShowsSlots, S.Put;
      TreeInRepr(config); TreeInRepr(cache);
      config.PutInt(heap, k, i);
    }

    /** config_put_str. */
    method PutConfigStr(heap: Heap, k: string, t: string)
      requires Valid() && heap !in Blocks() && Blocks() <= heap.live
      modifies heap, config
      ensures Valid() && root == old(root) && config == old(config) && cache == old(cache) && heap !in Blocks()
      ensures State() == old(State()).(slots := S.Put(old(config.slots), S.Entry(k, S.VStr(t))))
      ensures cache.slots == old(cache.slots)
      ensures heap.live == old(heap.live) - old(Blocks()) + Blocks()
    {
      hide Node.Valid, ShowsSlots, S.Put;
      TreeInRepr(config); TreeInRepr(cache);
      config.PutStr(heap, k, t);
    }

    /** The instance name is replaced by a copy of value. */
    method SetInstance(heap: Heap, value: string)
      requires Valid() && heap !in Blocks() && Blocks() <= heap.live
      modifies heap, root
      ensures Valid() && root == old(root) && config == old(config) && cache == old(cache) && heap !in Blocks()
      ensures State() == old(State()).(instance := value)
      ensures cache.slots == old(cache.slots)
      ensures heap.live == old(heap.live) - old(Blocks()) + Blocks()
    {
      hide Node.Valid, ShowsSlots;
      TreeInRepr(config); TreeInRepr(cache);
      Rename(root, heap, value);
    }

    /** load_config_tree; the only refusal is to abort the process on an empty app value. */
    method LoadConfigTree(heap: Heap, strtonum: string -> int, section: string, name: string, value: string)
      returns (aborted: bool)
      requires Valid() && heap !in Blocks() && Blocks() <= heap.live
      requires NulFree(section) && NulFree(name)
      modifies heap, root, config
      ensures Valid() && root == old(root) && config == old(config) && cache == old(cache) && heap !in Blocks()
      ensures aborted <==> section == "app" && value == ""
      ensures State() == if aborted then old(State()) else Load(strtonum, old(State()), Call(section, name, value))
      ensures cache.slots == old(cache.slots)
      ensures heap.live == old(heap.live) - old(Blocks()) + Blocks()
    {
      hide App.Valid, S.Put;
      if section == "app" && |value| == 0 {
        return true;
      }
      aborted := false;
      if name == "debug" {
        if value == "true" || value == "1" {
          PutConfigInt(heap, "debug", 1);
        } else {
          PutConfigInt(heap, "debug", 0);
        }
      } else if section == "app" && name == "session" {
        PutConfigInt(heap, "app.session", strtonum(value));
      } else if name == "instance" {
        SetInstance(heap, value);
      } else {
        var key := BuildKey(section, name);
        PutConfigStr(heap, key, value);
      }
    }

    /** validate_config: None of the three required keys may be missing; debug defaults to off. */
    method ValidateConfig(heap: Heap) returns (aborted: bool)
      requires Valid() && heap !in Blocks() && Blocks() <= heap.live
      modifies heap, config
      ensures Valid() && root == old(root) && config == old(config) && cache == old(cache) && heap !in Blocks()
      ensures var slots := old(config.slots);
              aborted <==> !S.Contains(slots, "app.name") || !S.Contains(slots, "app.env") || !S.Contains(slots, "app.key")
      ensures State() == if aborted then old(State()) else Validate(old(State()))
      ensures cache.slots == old(cache.slots)
      ensures heap.live == old(heap.live) - old(Blocks()) + Blocks()
    {
      hide S.Put, S.Contains;
      var hasName := config.Contains("app.name");
      var hasEnv := config.Contains("app.env");
      var hasKey := config.Contains("app.key");
      var hasDebug := config.Contains("debug");
      hide App.Valid;
      if !hasName || !hasEnv || !hasKey {
        return true;
      }
      aborted := false;
      if !hasDebug {
        PutConfigInt(heap, "debug", 0);
      }
    }

    /** app_isdebug. */
    method IsDebug() returns (debug: int)
      requires Valid()
      ensures debug == Config.IsDebug(State())
    {
      debug := config.GetInt("debug", 0);
    }

    /** app_name, app_environment, app_key and the other string settings. */
    method Setting(key: string) returns (value: Option<string>)
      requires Valid()
      ensures value == match S.Get(State().slots, key, S.KString, None) case Some(VStr(t)) => Some(t) case _ => None
    {
      value := config.GetStr(key, None);
    }

    /** app_session_lifetime. */
    method SessionLifetime() returns (seconds: int)
      requires Valid()
      ensures seconds == match S.Get(State().slots, "app.session", S.KInt, None) case Some(VInt(i)) => i case _ => 0
    {
      seconds := config.GetInt("app.session", 0);
    }

    /** The root's ghost record of what its two trees own by now. */
    ghost method Account()
      requires Valid()
      modifies root`kids, root`Repr
      ensures root == old(root) && root.Valid() && root.Repr == old(Blocks())
    {
      hide Node.Valid, ShowsSlots, Owned, Union;
      ghost var (a, b) := (config.Repr, cache.Repr);
      ghost var kids := [a, b] + Empties(8);
      TreeInRepr(config); TreeInRepr(cache);
      RootOwned(root.Own(), a, b);
      root.kids := kids;
      root.Repr := root.Own() + a + b;
      TwoChildren(root, config, cache, a, b);
    }

    /** application_release: every block of the application is freed, and nothing else. */
    method Release(heap: Heap)
      requires Valid() && heap !in Blocks() && Blocks() <= heap.live
      modifies heap, root, Blocks()
      ensures heap.live == old(heap.live) - old(Blocks())
    {
      hide Node.Valid, ShowsSlots;
      var app := root;
      assert app in Blocks();
      Account();
      TreeFree(app, heap);
      heap.Free(app);
    }
  }

  lemma TwoChildren(root: Node, config: Node, cache: Node, a: set<object>, b: set<object>)
    requires root.kids == [a, b] + Empties(8) && root.child == [config, cache] + Nulls(8)
    requires root.Repr == root.Own() + a + b && Owned(root.Own(), root.kids, root.Repr)
    requires root.ptr != null && root.DistinctBlocks()
    requires config.Valid() && config.Repr == a && cache.Valid() && cache.Repr == b
    requires root.Own() !! a && root.Own() !! b
    ensures root.Valid()
  {
    var (child, kids) := (root.child, root.kids);
    assert child[0] == config && child[1] == cache && kids[0] == a && kids[1] == b;
    forall i | 0 <= i < |kids|
      ensures kids[i] <= Union(kids)
    {
    }
    assert config in a && cache in b;
    assert forall c :: c in child && c != null ==> c == config || c == cache;
  }

  lemma RootOwned(own: set<object>, a: set<object>, b: set<object>)
    requires own !! a && own !! b && a !! b
    ensures Owned(own, [a, b] + Empties(8), own + a + b)
  {
    var kids := [a, b] + Empties(8);
    assert Union(kids) == a + b by {
      assert kids[0] == a && kids[1] == b;
    }
  }

  /** The key of a prefixed setting, built in a buffer of exactly its size; a bare name is its own key. */
  method BuildKey(section: string, name: string) returns (key: string)
    requires NulFree(section) && NulFree(name)
    ensures key == if section == "" then name else section + "." + name
  {
    if |section| == 0 {
      return name;
    }
    var keyLen := |section| + 1 + |name| + 1;
    var buf := new char[keyLen](_ => NUL);
    var n := StrLCpy(buf, section, keyLen);
    assert section[..|section|] == section;
    n := StrLCat(buf, ".", keyLen);
    assert "."[..1] == ".";
    n := StrLCat(buf, name, keyLen);
    assert name[..|name|] == name;
    key := CStr(buf[..], 0);
  }

  lemma TreeInRepr(t: Node)
    requires t.IsTree()
    ensures t in t.Repr && t.Own() <= t.Repr
  {
  }

  /** The name that the root holds is freed for a copy of value. */
  method Rename(r: Node, heap: Heap, value: string)
    requires r.value.RStr? && r.value.str != null && r.key == null && r.DistinctBlocks()
    requires r.Own() <= heap.live
    modifies heap, r`value
    ensures r.value.RStr? && r.value.str != null && fresh(r.value.str) && r.value.str.text == value
    ensures r.Own() == old(r.Own()) - {old(r.value.str)} + {r.value.str} && r.DistinctBlocks()
    ensures heap.live == old(heap.live) - {old(r.value.str)} + {r.value.str}
  {
    heap.Free(r.value.str);
    var name := new Block(value);
    heap.Alloc(name);
    r.value := RStr(name);
  }

  /** A node whose value is the instance name, with an empty slot array. */
  method NewRootNode(heap: Heap, instance: string) returns (r: Node)
    modifies heap
    ensures fresh(r) && fresh(r.Repr) && r.Own() == r.Repr && r.DistinctBlocks() && heap !in r.Repr
    ensures r.child == Nulls(10) && r.ptr != null && r.key == null
    ensures r.value.RStr? && r.value.str != null && r.value.str.text == instance
    ensures heap.live == old(heap.live) + r.Repr
  {
    hide Owned, Union, ValidChildren, ShowsSlots;
    var name := new Block(instance);
    heap.Alloc(name);
    r := new Node(RStr(name), false, null);
    heap.Alloc(r);
    r.NewRoot(heap);
  }

  /** An empty key/value tree. */
  method NewTree(heap: Heap, readonly: bool) returns (t: Node)
    modifies heap
    ensures fresh(t) && t.IsTree() && fresh(t.Repr) && heap !in t.Repr
    ensures t.slots == S.NEW_ROOT && |t.child| == 10 && t.ptr != null && t.readonly == readonly
    ensures heap.live == old(heap.live) + t.Repr
  {
    hide Node.Valid, ShowsSlots;
    t := new Node(RNull, readonly, null);
    heap.Alloc(t);
    t.NewRoot(heap);
  }
}
