/** Disjoint ownership of blocks, as sets. */
module Ownership {
  ghost function Union(kids: seq<set<object>>): set<object> {
    set i, o | 0 <= i < |kids| && o in kids[i] :: o
  }

  ghost function Empties(n: nat): (s: seq<set<object>>)
    ensures |s| == n && forall i :: 0 <= i < n ==> s[i] == {}
  {
    seq(n, _ => {})
  }

  /** repr consists of the blocks in own and of those of the kids, and no block has two owners. */
  ghost predicate Owned(own: set<object>, kids: seq<set<object>>, repr: set<object>) {
    && repr == own + Union(kids) && own !! Union(kids)
    && (forall i, j :: 0 <= i < j < |kids| ==> kids[i] !! kids[j])
  }

  lemma UnionNone(kids: seq<set<object>>)
    ensures Union(kids[..0]) == {}
  {
  }

  lemma UnionStep(kids: seq<set<object>>, i: nat)
    requires i < |kids| && forall i, j :: 0 <= i < j < |kids| ==> kids[i] !! kids[j]
    ensures Union(kids[..i + 1]) == Union(kids[..i]) + kids[i]
    ensures kids[i] <= Union(kids) && Union(kids[i + 1..]) <= Union(kids)
    ensures kids[i] !! Union(kids[..i]) && kids[i] !! Union(kids[i + 1..])
  {
    var (p, q) := (kids[..i + 1], kids[..i]);
    forall o: object | o in Union(q) + kids[i]
      ensures o in Union(p)
    {
      if o in kids[i] {
        assert o in p[i];
      } else {
        var j :| 0 <= j < |q| && o in q[j];
        assert o in p[j];
      }
    }
    forall o: object | o in Union(kids[i + 1..])
      ensures o in Union(kids) && o !in kids[i]
    {
      var j :| 0 <= j < |kids| - i - 1 && o in kids[i + 1..][j];
      assert o in kids[i + 1 + j];
    }
    forall o: object | o in Union(q)
      ensures o !in kids[i]
    {
      var j :| 0 <= j < |q| && o in q[j];
      assert o in kids[j];
    }
  }

  lemma Apart(own: set<object>, kids: seq<set<object>>, repr: set<object>)
    requires Owned(own, kids, repr)
    ensures own <= repr && Union(kids) == repr - own
    ensures forall i :: 0 <= i < |kids| ==> kids[i] <= repr && kids[i] !! own
  {
    forall i | 0 <= i < |kids|
      ensures kids[i] <= Union(kids)
    {
    }
  }

  /** Replacing the blocks of kid i by k, which no other owner has. */
  lemma Replace(own: set<object>, kids: seq<set<object>>, repr: set<object>, i: nat, k: set<object>)
    requires Owned(own, kids, repr) && i < |kids| && k !! (repr - kids[i])
    ensures Owned(own, kids[i := k], repr - kids[i] + k)
  {
    var kids' := kids[i := k];
    Apart(own, kids, repr);
    forall j | 0 <= j < |kids| && j != i
      ensures kids[j] !! kids[i] && kids[j] !! k
    {
    }
    assert Union(kids') == Union(kids) - kids[i] + k by {
      forall o: object | o in Union(kids) && o !in kids[i]
        ensures o in Union(kids')
      {
        var j :| 0 <= j < |kids| && o in kids[j];
        assert o in kids'[j];
      }
      assert kids'[i] == k;
    }
  }

  /** The node's own blocks change to own', which no kid has, and n childless slots are added. */
  lemma Reown(own: set<object>, own': set<object>, kids: seq<set<object>>, repr: set<object>, n: nat)
    requires Owned(own, kids, repr) && own' !! (repr - own)
    ensures Owned(own', kids + Empties(n), repr - own + own')
  {
    var kids' := kids + Empties(n);
    assert Union(kids') == Union(kids) by {
      forall o: object | o in Union(kids)
        ensures o in Union(kids')
      {
        var j :| 0 <= j < |kids| && o in kids[j];
        assert o in kids'[j];
      }
    }
  }
}

/** The key/value tree on the heap, with the blocks it owns. */
module Trees {
  import opened CString
  import opened Ownership
  import S = Slots

  const ENOROOT := -1
  const EISFULL := -2

  /** The allocator: a block is freed only while it is live, so never twice. */
  class Heap {
    ghost var live: set<object>

    constructor ()
      ensures live == {}
    {
      live := {};
    }

    method Alloc(o: object)
      modifies this
      ensures live == old(live) + {o}
    {
      live := live + {o};
    }

    method Free(o: object)
      requires o in live
      modifies this
      ensures live == old(live) - {o}
    {
      live := live - {o};
    }
  }

  /** A block that holds a duplicated string or an array of child pointers. */
  class Block {
    const text: string

    constructor (t: string)
      ensures text == t
    {
      text := t;
    }
  }

  /** The tagged union of a node. */
  datatype Raw = RNull | RInt(i: int) | RFloat(r: real) | RStr(str: Block?) | RPtr(p: object?) {
    function Value(): S.Value {
      match this
      case RNull => S.VNull
      case RInt(i) => S.VInt(i)
      case RFloat(r) => S.VFloat(r)
      case RStr(s) => if s == null then S.VNull else S.VStr(s.text)
      case RPtr(p) => S.VPtr(p)
    }
  }

  function Nulls(n: nat): (s: seq<Node?>)
    ensures |s| == n && forall i :: 0 <= i < n ==> s[i] == null
  {
    seq(n, _ => null)
  }

  class Node {
    var value: Raw
    var readonly: bool
    var key: Block?
    var ptr: Block?                     // the allocated array of child pointers
    var child: seq<Node?>               // what it holds; its length is alloc_cnt
    ghost var Repr: set<object>         // the blocks of the subtree, this node included
    ghost var kids: seq<set<object>>    // the blocks of each child's subtree
    ghost var slots: S.Slots            // what the slot array of a key/value tree shows

    /** The blocks of the node itself. */
    ghost function Own(): set<object>
      reads this
    {
      {this as object}
      + (if key == null then {} else {key as object})
      + (if value.RStr? && value.str != null then {value.str as object} else {})
      + (if ptr == null then {} else {ptr as object})
    }

    ghost predicate DistinctBlocks()
      reads this
    {
      && (value.RStr? && value.str != null ==> value.str != key && value.str != ptr)
      && (key != null ==> key != ptr)
    }

    /** Ownership: Repr is exactly the node's own blocks and those of its children, each owned once. */
    ghost predicate Valid()
      reads this, Repr
      decreases Repr, 0
      ensures Valid() ==> this in Repr
    {
      && this in Repr
      && DistinctBlocks()
      && |kids| == |child| && (ptr == null ==> child == [])
      && (forall c :: c in child && c != null ==> c in Repr && c !in Own())
      && Owned(Own(), kids, Repr)
      && ValidChildren(child, kids)
    }

    /** A key/value tree: every child has a key, and slots says what the children hold. */
    ghost predicate Shows()
      reads this, child
    {
      ShowsSlots(child, slots)
    }

    ghost predicate IsTree()
      reads this, Repr
    {
      Valid() && Shows()
    }

    lemma Blocks()
      requires Valid()
      ensures Own() <= Repr && forall c :: c in child && c != null ==> c in Repr && c !in Own()
    {
    }

    lemma SlotCount()
      requires Shows()
      ensures |slots| == |child|
    {
    }

    /** A fresh node without a subtree. */
    constructor (value: Raw, readonly: bool, key: Block?)
      requires value.RStr? && value.str != null ==> value.str != key
      ensures Valid() && Repr == Own() && child == [] && ptr == null
      ensures this.value == value && this.readonly == readonly && this.key == key
    {
      this.value, this.readonly, this.key, this.ptr, this.child := value, readonly, key, null, [];
      slots, kids := [], [];
      new;
      Repr := Own();
    }

    /** tree_new_root: an array of ten empty slots. */
    method NewRoot(heap: Heap)
      requires Valid() && ptr == null && heap !in Repr && Repr <= heap.live
      modifies this, heap
      ensures IsTree() && slots == S.NEW_ROOT && ptr != null && child == Nulls(10)
      ensures Repr == old(Repr) + {ptr as object} && Own() == old(Own()) + {ptr as object}
      ensures unchanged(`value) && unchanged(`readonly) && unchanged(`key)
      ensures fresh(Repr - old(Repr)) && Repr >= old(Repr) && heap.live == old(heap.live) + Repr
    {
      hide Node.Valid, ShowsSlots;
      FirstArray(heap);
      AddSlots();
    }

    /** The allocation of the child array. */
    method FirstArray(heap: Heap)
      requires Valid() && ptr == null && heap !in Repr && Repr <= heap.live
      modifies this, heap
      ensures IsTree() && child == [] && slots == [] && ptr != null && fresh(ptr)
      ensures Repr == old(Repr) + {ptr as object} && Own() == old(Own()) + {ptr as object}
      ensures unchanged(`value) && unchanged(`readonly) && unchanged(`key)
      ensures heap.live == old(heap.live) + {ptr as object}
    {
      hide Owned, Union, ValidChildren, ShowsSlots;
      ghost var own := Own();
      Apart(own, kids, Repr);
      ptr := new Block("");
      heap.Alloc(ptr);
      ghost var own' := Own();
      assert own' == own + {ptr as object};
      Reown(own, own', kids, Repr, 0);
      assert kids + Empties(0) == kids && Repr - own + own' == Repr + {ptr as object};
      NoSlots();
      slots := [];
      Repr := Repr + {ptr as object};
      assert Owned(Own(), kids, Repr) && ValidChildren(child, kids);
    }

    /** Ten more empty slots in the child array. */
    method AddSlots()
      requires IsTree() && ptr != null
      modifies this
      ensures IsTree() && ptr == old(ptr) && Own() == old(Own()) && Repr == old(Repr)
      ensures slots == old(slots) + S.Holes(10) && child == old(child) + Nulls(10)
      ensures value == old(value) && readonly == old(readonly) && key == old(key)
    {
      hide Owned, Union, ValidChildren, ShowsSlots;
      AddEmpty(child, kids, slots, 10);
      ghost var own := Own();
      Apart(own, kids, Repr);
      Reown(own, own, kids, Repr, 10);
      assert Repr - own + own == Repr;
      child, slots, kids := child + Nulls(10), slots + S.Holes(10), kids + Empties(10);
      assert Owned(Own(), kids, Repr) && ValidChildren(child, kids);
    }

    /** tree_get_new_index. */
    method GetNewIndex() returns (idx: int)
      requires Shows()
      ensures |slots| == 0 ==> idx == ENOROOT
      ensures |slots| > 0 ==> idx == if S.FirstHole(slots) < |slots| then S.FirstHole(slots) else EISFULL
      ensures idx >= 0 ==> idx < |child| && child[idx] == null
    {
      if |child| == 0 {
        return ENOROOT;
      }
      var i := 0;
      while i < |child|
        invariant i <= |child| && forall j :: 0 <= j < i ==> slots[j].Some?
      {
        assert ShowsSlot(child[i], slots[i]);
        if child[i] == null {
          return i;
        }
        i := i + 1;
      }
      return EISFULL;
    }

    /** realloc of the child array: it moves to a new block. */
    method MoveArray(heap: Heap)
      requires IsTree() && ptr != null && heap !in Repr && ptr in heap.live
      modifies this, heap
      ensures IsTree() && ptr != null && fresh(ptr)
      ensures slots == old(slots) && child == old(child) && kids == old(kids)
      ensures value == old(value) && readonly == old(readonly) && key == old(key)
      ensures Repr == old(Repr) - {old(ptr) as object} + {ptr as object}
      ensures heap.live == old(heap.live) - {old(ptr) as object} + {ptr as object}
    {
      hide Owned, Union, ValidChildren, ShowsSlots;
      ghost var own := Own();
      Apart(own, kids, Repr);
      var moved := new Block("");
      heap.Free(ptr);
      heap.Alloc(moved);
      ptr := moved;
      ghost var own' := Own();
      assert own' == own - {old(ptr) as object} + {moved as object};
      Reown(own, own', kids, Repr, 0);
      assert kids + Empties(0) == kids;
      Repr := Repr - own + own';
      assert Owned(Own(), kids, Repr) && ValidChildren(child, kids);
      assert forall c :: c in child && c != null ==> c in Repr && c !in Own();
    }

    /** tree_expand: ten more slots. */
    method Expand(heap: Heap) returns (startIdx: nat)
      requires IsTree() && ptr != null && heap !in Repr && ptr in heap.live
      modifies this, heap
      ensures IsTree() && ptr != null && fresh(ptr)
      ensures slots == old(slots) + S.Holes(10) && child == old(child) + Nulls(10) && startIdx == |old(slots)|
      ensures value == old(value) && readonly == old(readonly) && key == old(key)
      ensures Repr == old(Repr) - {old(ptr) as object} + {ptr as object}
      ensures heap.live == old(heap.live) - {old(ptr) as object} + {ptr as object}
    {
      hide Node.Valid, ShowsSlots;
      startIdx := |child|;
      assert |slots| == |child| by { SlotCount(); }
      MoveArray(heap);
      AddSlots();
    }

    // ------------------------------------------------------------ puts

    /** The new item goes into an empty slot. */
    method Place(idx: nat, item: Node)
      requires IsTree() && idx < |child| && child[idx] == null
      requires item.Valid() && item.Repr !! Repr && item.key != null
      modifies this
      ensures IsTree() && ptr == old(ptr) && child == old(child)[idx := item]
      ensures value == old(value) && readonly == old(readonly) && key == old(key)
      ensures slots == old(slots)[idx := Some(S.Entry(item.key.text, item.value.Value()))]
      ensures Repr == old(Repr) + item.Repr
    {
      hide Owned, Union, ValidChildren, ShowsSlots;
      SlotCount();
      ghost var slot := Some(S.Entry(item.key.text, item.value.Value()));
      Apart(Own(), kids, Repr);
      EmptySlot(child, kids, idx);
      Replace(Own(), kids, Repr, idx, item.Repr);
      AdoptChild(child, kids, idx, item);
      ShowsWith(child, slots, idx, item, slot);
      assert Repr - {} + item.Repr == Repr + item.Repr;
      Apart(Own(), kids[idx := item.Repr], Repr + item.Repr);
      child, kids, slots := child[idx := item], kids[idx := item.Repr], slots[idx := slot];
      Repr := Repr + item.Repr;
    }

    /** tree_new_item up to the choice of the slot. */
    method NewIndex(heap: Heap) returns (idx: nat)
      requires IsTree() && ptr != null && |child| > 0 && heap !in Repr && ptr in heap.live
      modifies this, heap
      ensures IsTree() && ptr != null && heap !in Repr
      ensures value == old(value) && readonly == old(readonly) && key == old(key)
      ensures idx < |child| && child[idx] == null && (ptr == old(ptr) || fresh(ptr))
      ensures forall e: S.Entry :: slots[idx := Some(e)] == S.Put(old(slots), e)
      ensures Repr == old(Repr) - {old(ptr) as object} + {ptr as object}
      ensures heap.live == old(heap.live) - {old(ptr) as object} + {ptr as object}
    {
      hide Node.Valid, ShowsSlots;
      SlotCount();
      Blocks();
      assert Repr == Repr - {ptr as object} + {ptr as object};
      var i := GetNewIndex();
      if i == EISFULL {
        i := Expand(heap);
      }
      idx := i;
    }

    /** tree_new_item and the assignments that follow it: a child with this key and value. */
    method PutItem(heap: Heap, k: string, v: Raw)
      requires IsTree() && ptr != null && |child| > 0
      requires heap !in Repr && Repr <= heap.live
      requires v.RStr? ==> v.str != null && v.str !in Repr && v.str in heap.live
      modifies this, heap
      ensures IsTree() && ptr != null && |child| > 0 && heap !in Repr
      ensures value == old(value) && readonly == old(readonly) && key == old(key)
      ensures slots == S.Put(old(slots), S.Entry(k, v.Value()))
      ensures heap.live == old(heap.live) - old(Repr) + Repr
      ensures forall o :: o in Repr && o !in old(Repr) ==> fresh(o) || (v.RStr? && o == v.str)
      ensures v.RStr? ==> v.str in Repr
    {
      hide Node.Valid, ShowsSlots, S.Put;
      Blocks();
      var idx := NewIndex(heap);
      var item := NewItem(heap, k, v);
      Place(idx, item);
    }

    method PutInt(heap: Heap, k: string, i: int)
      requires IsTree() && ptr != null && |child| > 0 && heap !in Repr && Repr <= heap.live
      modifies this, heap
      ensures IsTree() && ptr != null && |child| > 0 && heap !in Repr && fresh(Repr - old(Repr))
      ensures value == old(value) && readonly == old(readonly) && key == old(key)
      ensures slots == S.Put(old(slots), S.Entry(k, S.VInt(i))) && heap.live == old(heap.live) - old(Repr) + Repr
    {
      hide IsTree;
      PutItem(heap, k, RInt(i));
    }

    method PutFloat(heap: Heap, k: string, r: real)
      requires IsTree() && ptr != null && |child| > 0 && heap !in Repr && Repr <= heap.live
      modifies this, heap
      ensures IsTree() && ptr != null && |child| > 0 && heap !in Repr && fresh(Repr - old(Repr))
      ensures value == old(value) && readonly == old(readonly) && key == old(key)
      ensures slots == S.Put(old(slots), S.Entry(k, S.VFloat(r))) && heap.live == old(heap.live) - old(Repr) + Repr
    {
      hide IsTree;
      PutItem(heap, k, RFloat(r));
    }

    /** The tree keeps its own copy of the string. */
    method PutStr(heap: Heap, k: string, t: string)
      requires IsTree() && ptr != null && |child| > 0 && heap !in Repr && Repr <= heap.live
      modifies this, heap
      ensures IsTree() && ptr != null && |child| > 0 && heap !in Repr && fresh(Repr - old(Repr))
      ensures value == old(value) && readonly == old(readonly) && key == old(key)
      ensures slots == S.Put(old(slots), S.Entry(k, S.VStr(t))) && heap.live == old(heap.live) - old(Repr) + Repr
    {
      hide IsTree;
      var copy := new Block(t);
      heap.Alloc(copy);
      PutItem(heap, k, RStr(copy));
    }

    /** The tree keeps the pointer and does not own what it points to. */
    method PutPtr(heap: Heap, k: string, p: object?)
      requires IsTree() && ptr != null && |child| > 0 && heap !in Repr && Repr <= heap.live
      modifies this, heap
      ensures IsTree() && ptr != null && |child| > 0 && heap !in Repr && fresh(Repr - old(Repr))
      ensures value == old(value) && readonly == old(readonly) && key == old(key)
      ensures slots == S.Put(old(slots), S.Entry(k, S.VPtr(p))) && heap.live == old(heap.live) - old(Repr) + Repr
    {
      hide IsTree;
      PutItem(heap, k, RPtr(p));
    }

    // ------------------------------------------------------------ reads

    /** tree_contains. */
    method Contains(k: string) returns (found: bool)
      requires Shows()
      ensures found <==> S.Contains(slots, k)
    {
      var i := 0;
      while i < |child|
        invariant i <= |child| && forall j :: 0 <= j < i ==> !S.Holds(slots[j], k)
      {
        assert ShowsSlot(child[i], slots[i]);
        if child[i] != null && child[i].key.text == k {
          assert S.Holds(slots[i], k);
          return true;
        }
        i := i + 1;
      }
      return false;
    }

    /** The scan shared by the typed gets: found is the output of the caller. */
    method Get(k: string, kind: S.Kind) returns (found: Option<S.Value>)
      requires Shows()
      ensures found == S.Get(slots, k, kind, None)
    {
      found := None;
      var i := 0;
      assert slots[0..] == slots;
      while i < |child|
        invariant i <= |child| && S.Get(slots[i..], k, kind, found) == S.Get(slots, k, kind, None)
      {
        assert ShowsSlot(child[i], slots[i]);
        assert slots[i..][1..] == slots[i + 1..];
        if child[i] != null && child[i].key.text == k {
          if child[i].value.Value().Kind() != kind {
            return;
          }
          found := Some(child[i].value.Value());
        }
        i := i + 1;
      }
    }

    method GetInt(k: string, old_: int) returns (v: int)
      requires Shows()
      ensures v == match S.Get(slots, k, S.KInt, None) case Some(VInt(i)) => i case _ => old_
    {
      var r := Get(k, S.KInt);
      v := match r case Some(VInt(i)) => i case _ => old_;
    }

    method GetFloat(k: string, old_: real) returns (v: real)
      requires Shows()
      ensures v == match S.Get(slots, k, S.KFloat, None) case Some(VFloat(r)) => r case _ => old_
    {
      var r := Get(k, S.KFloat);
      v := match r case Some(VFloat(f)) => f case _ => old_;
    }

    method GetStr(k: string, old_: Option<string>) returns (v: Option<string>)
      requires Shows()
      ensures v == match S.Get(slots, k, S.KString, None) case Some(VStr(t)) => Some(t) case _ => old_
    {
      var r := Get(k, S.KString);
      v := match r case Some(VStr(t)) => Some(t) case _ => old_;
    }

    method GetPtr(k: string, old_: object?) returns (v: object?)
      requires Shows()
      ensures v == match S.Get(slots, k, S.KPointer, None) case Some(VPtr(p)) => p case _ => old_
    {
      var r := Get(k, S.KPointer);
      v := match r case Some(VPtr(p)) => p case _ => old_;
    }

    // ------------------------------------------------------------ removes

    /** The body of the loop of tree_remove: child i is freed with its subtree, and its slot emptied. */
    method Evict(i: nat, heap: Heap)
      requires IsTree() && i < |child| && child[i] != null && heap !in Repr && Repr <= heap.live
      modifies this, heap, kids[i]
      ensures IsTree() && ptr == old(ptr) && child == old(child)[i := null] && kids == old(kids)[i := {}]
      ensures value == old(value) && readonly == old(readonly) && key == old(key)
      ensures slots == old(slots)[i := None] && Repr == old(Repr) - old(kids[i])
      ensures heap.live == old(heap.live) - old(kids[i])
    {
      hide Owned, Union, ValidChildren;
      SlotCount();
      ghost var (k, rest, kids', slots') := (kids[i], child[i := null], kids[i := {}], slots[i := None]);
      ghost var own := Own();
      OtherChildren(own, child, kids, slots, Repr, i, rest, kids');
      label before:
      TreeFree(child[i], heap);
      heap.Free(child[i]);
      forall j | 0 <= j < |rest|
        ensures ShowsSlot(rest[j], slots'[j])
      {
        assert old@before(ShowsSlot(rest[j], slots'[j]));
        assert rest[j] in rest;
      }
      child, kids, slots, Repr := child[i := null], kids', slots', Repr - k;
      assert Own() == own && ValidChildren(child, kids) && ShowsSlots(child, slots);
    }

    /** The loop of tree_remove at child i, which goes when the key is its own. */
    method Visit(i: nat, heap: Heap, k: string)
      requires IsTree() && i < |child| == |slots| == |kids| && heap !in Repr && Repr <= heap.live
      modifies this, heap, Repr
      ensures IsTree() && ptr == old(ptr)
      ensures value == old(value) && readonly == old(readonly) && key == old(key)
      ensures var gone := S.Holds(old(slots)[i], k);
              && child == (if gone then old(child)[i := null] else old(child))
              && kids == (if gone then old(kids)[i := {}] else old(kids))
              && slots == (if gone then old(slots)[i := None] else old(slots))
              && Repr == old(Repr) - (if gone then old(kids)[i] else {})
              && Repr <= old(Repr) && heap.live == old(heap.live) - old(Repr) + Repr
    {
      hide Owned, Union, ValidChildren, Node.Valid;
      assert ShowsSlot(child[i], slots[i]);
      if child[i] != null && child[i].key.text == k {
        KidBlocks(i);
        Evict(i, heap);
      }
    }

    /**
     * tree_remove: a read-only tree ignores it; otherwise every child with the key goes, with just the
     * blocks of its subtree, and every other child stays where it is.
     */
    method Remove(heap: Heap, k: string)
      requires IsTree() && heap !in Repr && Repr <= heap.live
      modifies this, heap, Repr
      ensures IsTree() && ptr == old(ptr) && |child| == |old(child)| == |old(slots)| == |old(kids)|
      ensures forall i :: 0 <= i < |child| ==>
                child[i] == if !readonly && S.Holds(old(slots)[i], k) then null else old(child)[i]
      ensures Repr == old(Repr) - (if readonly then {} else Under(old(slots), old(kids), k, |child|))
      ensures value == old(value) && readonly == old(readonly) && key == old(key)
      ensures slots == if readonly then old(slots) else S.Remove(old(slots), k)
      ensures Repr <= old(Repr) && heap.live == old(heap.live) - old(Repr) + Repr
    {
      hide Owned, Union, ValidChildren, Node.Valid, ShowsSlots;
      SlotCount();
      KidCount();
      if readonly {
        return;
      }
      var i := 0;
      while i < |child|
        invariant i <= |child| == |old(child)| == |slots| == |old(slots)|
        invariant IsTree() && ptr == old(ptr) && Repr <= old(Repr) && heap !in Repr && Repr <= heap.live
        invariant value == old(value) && !readonly && key == old(key) && |kids| == |old(kids)| == |child|
        invariant forall j :: 0 <= j < i ==> child[j] == if S.Holds(old(slots)[j], k) then null else old(child)[j]
        invariant forall j :: i <= j < |child| ==> child[j] == old(child)[j] && kids[j] == old(kids)[j]
        invariant Repr == old(Repr) - Under(old(slots), old(kids), k, i)
        invariant forall j :: 0 <= j < i ==> slots[j] == S.Remove(old(slots), k)[j]
        invariant forall j :: i <= j < |slots| ==> slots[j] == old(slots)[j]
        invariant heap.live == old(heap.live) - old(Repr) + Repr
      {
        Visit(i, heap, k);
        i := i + 1;
      }
    }

    lemma KidCount()
      requires Valid()
      ensures |kids| == |child|
    {
    }

    lemma KidBlocks(i: nat)
      requires Valid() && i < |child|
      ensures |kids| == |child| && kids[i] <= Repr
    {
      Apart(Own(), kids, Repr);
    }
  }

  /** The allocations of tree_new_item: a node with a copy of its key. */
  method NewItem(heap: Heap, k: string, v: Raw) returns (item: Node)
    requires v.RStr? ==> v.str != null
    modifies heap
    ensures item.Valid() && fresh(item) && item.key != null && fresh(item.key) && item.key.text == k && item.value == v
    ensures item.Repr == {item as object, item.key as object} + (if v.RStr? then {v.str as object} else {})
    ensures heap.live == old(heap.live) + {item as object, item.key as object}
  {
    hide Node.Valid;
    var copy := new Block(k);
    heap.Alloc(copy);
    item := new Node(v, false, copy);
    heap.Alloc(item);
  }

  /** The blocks of the children under a key, among the first n. */
  ghost function Under(slots: S.Slots, kids: seq<set<object>>, k: string, n: nat): set<object>
    requires n <= |slots| == |kids|
  {
    if n == 0 then {}
    else Under(slots, kids, k, n - 1) + (if S.Holds(slots[n - 1], k) then kids[n - 1] else {})
  }

  // ---------------------------------------------------------------- release

  /** The node's key and string value; a pointer is only forgotten. */
  method FreeOwn(node: Node, heap: Heap)
    requires node.DistinctBlocks() && node.Own() <= heap.live
    modifies heap, node
    ensures heap.live == old(heap.live) - (old(node.Own()) - {node} - (if node.ptr == null then {} else {node.ptr as object}))
    ensures node.ptr == old(node.ptr) && node.child == old(node.child)
  {
    if node.key != null {
      heap.Free(node.key);
      node.key := null;
    }
    match node.value
    case RStr(str) =>
      if str != null {
        heap.Free(str);
      }
      node.value := RStr(null);
    case RPtr(_) => node.value := RPtr(null);
    case _ =>
  }

  /** The traversal: every child subtree and every child node, each once. */
  method FreeChildren(node: Node, heap: Heap, ghost kids: seq<set<object>>)
    requires |node.child| == |kids| && ValidChildren(node.child, kids)
    requires forall i, j :: 0 <= i < j < |kids| ==> kids[i] !! kids[j]
    requires node !in Union(kids) && heap !in Union(kids) && Union(kids) <= heap.live
    modifies heap, node`child, Union(kids)
    ensures heap.live == old(heap.live) - Union(kids)
    decreases Union(kids), 2
  {
    hide Union;
    ghost var child := node.child;
    var i := 0;
    assert kids[0..] == kids && child[0..] == child;
    UnionNone(kids);
    while i < |node.child|
      invariant i <= |child| == |node.child|
      invariant node.child[i..] == child[i..]
      invariant ValidChildren(child[i..], kids[i..])
      invariant heap.live == old(heap.live) - Union(kids[..i])
    {
      UnionStep(kids, i);
      NextChild(child, kids, i);
      assert node.child[i] == child[i];
      if node.child[i] != null {
        TreeFree(node.child[i], heap);
        heap.Free(node.child[i]);
        node.child := node.child[i := null];
      }
      i := i + 1;
    }
    assert kids[..i] == kids;
  }

  /**
   * tree_free: releases every block of the subtree except the node itself, which the caller frees.
   * Blocks outside, and what pointers point to, stay live.
   */
  method TreeFree(node: Node?, heap: Heap)
    requires node != null ==> node.Valid() && heap !in node.Repr && node.Repr <= heap.live
    modifies heap, if node == null then {} else node.Repr
    ensures heap.live == old(heap.live) - (if node == null then {} else old(node.Repr) - {node})
    decreases if node == null then {} else node.Repr, 1
  {
    if node == null {
      return;
    }
    hide Union, ValidChildren;
    ghost var (own, kids, repr) := (node.Own(), node.kids, node.Repr);
    Apart(own, kids, repr);
    FreeOwn(node, heap);
    if node.ptr == null {
      return;
    }
    FreeChildren(node, heap, kids);
    heap.Free(node.ptr);
    node.ptr := null;
  }

  ghost predicate ValidChildren(child: seq<Node?>, kids: seq<set<object>>)
    requires |child| == |kids|
    reads Union(kids)
    decreases Union(kids), 1
  {
    forall i :: 0 <= i < |child| ==>
      if child[i] == null then kids[i] == {}
      else child[i] in kids[i] && kids[i] <= Union(kids) && child[i].Repr == kids[i] && child[i].Valid()
  }

  /** The children other than i, without i's blocks. */
  lemma OtherChildren(own: set<object>, child: seq<Node?>, kids: seq<set<object>>, slots: S.Slots, repr: set<object>,
                      i: nat, rest: seq<Node?>, kids': seq<set<object>>)
    requires |child| == |kids| && i < |child| && rest == child[i := null] && kids' == kids[i := {}]
    requires Owned(own, kids, repr) && ValidChildren(child, kids) && |slots| == |child| && ShowsSlots(child, slots)
    ensures child[i] != null ==> child[i] in kids[i] && child[i].Repr == kids[i] && child[i].Valid()
    ensures own <= repr && kids[i] <= repr && kids[i] !! own
    ensures Owned(own, kids', repr - kids[i]) && ValidChildren(rest, kids') && ShowsSlots(rest, slots[i := None])
    ensures Union(kids') == repr - kids[i] - own
    ensures forall c :: c in rest && c != null ==> c in repr - kids[i] - own
  {
    hide Node.Valid, Owned, Union, ShowsSlots, ValidChildren;
    ShowsWithout(child, slots, i);
    Replace(own, kids, repr, i, {});
    assert repr - kids[i] + {} == repr - kids[i];
    Apart(own, kids, repr);
    Apart(own, kids', repr - kids[i]);
    ValidWithout(child, kids, i);
    InTheirKids(rest, kids');
  }

  lemma ValidWithout(child: seq<Node?>, kids: seq<set<object>>, i: nat)
    requires |child| == |kids| && i < |child| && ValidChildren(child, kids)
    ensures child[i] != null ==> child[i] in kids[i] && child[i].Repr == kids[i] && child[i].Valid()
    ensures ValidChildren(child[i := null], kids[i := {}])
  {
    hide Node.Valid;
    var kids' := kids[i := {}];
    forall j | 0 <= j < |child|
      ensures kids'[j] <= Union(kids')
    {
    }
  }

  lemma InTheirKids(child: seq<Node?>, kids: seq<set<object>>)
    requires |child| == |kids| && ValidChildren(child, kids)
    ensures forall c :: c in child && c != null ==> c in Union(kids)
  {
    hide Node.Valid;
  }

  lemma ShowsWithout(child: seq<Node?>, slots: S.Slots, i: nat)
    requires i < |child| && ShowsSlots(child, slots)
    ensures |slots| == |child| && ShowsSlots(child[i := null], slots[i := None])
  {
  }

  lemma NextChild(child: seq<Node?>, kids: seq<set<object>>, i: nat)
    requires i < |child| == |kids| && ValidChildren(child[i..], kids[i..])
    ensures ValidChildren(child[i + 1..], kids[i + 1..])
    ensures child[i] == null ==> kids[i] == {}
    ensures child[i] != null ==> child[i] in kids[i] && child[i].Repr == kids[i] && child[i].Valid()
  {
    hide Node.Valid, ValidChildren;
    assert child[i..][1..] == child[i + 1..] && kids[i..][1..] == kids[i + 1..];
    ValidTail(child[i..], kids[i..]);
  }

  lemma ValidTail(child: seq<Node?>, kids: seq<set<object>>)
    requires |child| == |kids| > 0 && ValidChildren(child, kids)
    ensures ValidChildren(child[1..], kids[1..])
    ensures child[0] == null ==> kids[0] == {}
    ensures child[0] != null ==> child[0] in kids[0] && child[0].Repr == kids[0] && child[0].Valid()
  {
    hide Node.Valid;
    var k := kids[1..];
    forall j | 0 <= j < |k|
      ensures k[j] <= Union(k)
    {
    }
  }

  lemma NoSlots()
    ensures ShowsSlots([], [])
  {
  }

  lemma EmptySlot(child: seq<Node?>, kids: seq<set<object>>, i: nat)
    requires |child| == |kids| && ValidChildren(child, kids) && i < |child| && child[i] == null
    ensures kids[i] == {}
  {
  }

  lemma AdoptChild(child: seq<Node?>, kids: seq<set<object>>, i: nat, item: Node)
    requires |child| == |kids| && ValidChildren(child, kids) && i < |child| && child[i] == null
    requires item.Valid()
    ensures ValidChildren(child[i := item], kids[i := item.Repr])
  {
    var kids' := kids[i := item.Repr];
    forall j | 0 <= j < |child|
      ensures kids'[j] <= Union(kids')
    {
    }
  }

  lemma ShowsWith(child: seq<Node?>, slots: S.Slots, i: nat, item: Node, slot: Option<S.Entry>)
    requires i < |child| && ShowsSlots(child, slots) && ShowsSlot(item, slot)
    ensures ShowsSlots(child[i := item], slots[i := slot])
  {
  }

  lemma AddEmpty(child: seq<Node?>, kids: seq<set<object>>, slots: S.Slots, n: nat)
    requires |child| == |kids| && ValidChildren(child, kids)
    ensures ValidChildren(child + Nulls(n), kids + Empties(n))
    ensures ShowsSlots(child, slots) ==> ShowsSlots(child + Nulls(n), slots + S.Holes(n))
  {
    var kids' := kids + Empties(n);
    forall i | 0 <= i < |child|
      ensures kids[i] <= Union(kids')
    {
      assert kids'[i] == kids[i];
    }
  }

  ghost predicate ShowsSlots(child: seq<Node?>, slots: S.Slots)
    reads child
  {
    |slots| == |child| && forall i :: 0 <= i < |child| ==> ShowsSlot(child[i], slots[i])
  }

  ghost predicate ShowsSlot(c: Node?, slot: Option<S.Entry>)
    reads c
  {
    if c == null then slot == None
    else c.key != null && slot == Some(S.Entry(c.key.text, c.value.Value()))
  }
}
