/** The growable pair of parallel arrays behind the keyspace. Keys are pointers; comparing two of
    them reads both nodes, so every search takes the allocated nodes along. */
module SimpleMap {
  import opened Base
  import opened Memory

  datatype Slot = Slot(key: Ptr, value: Ptr)

  const FIND_KEY_ERROR: int := -1
  const KEY_ARR_ERROR: int := -2
  const KEY_NOT_FOUND: int := -3

  datatype SetRtn = ERROR_SET | SUCCESS_SET | SUCCESS_UPGRADE

  datatype RemoveRtn = REMOVE_ERROR | REMOVE_SUCCESS | REMOVE_KEY_NOT_FOUND

  class KeyWrapper {
    var key: Ptr
    constructor (key: Ptr) ensures this.key == key { this.key := key; }
  }

  class ValueWrapper {
    var value: Ptr
    constructor (value: Ptr) ensures this.value == value { this.value := value; }
  }

  type Nodes = map<Ptr, KeyNode>

  /** `compare`: same size and same bytes. */
  method Compare(nodes: Nodes, a: Ptr, b: Ptr) returns (same: bool)
    requires a in nodes && b in nodes
    ensures same <==> nodes[a].content == nodes[b].content
  {
    var x, y := nodes[a].content, nodes[b].content;
    if |x| != |y| { return false; }
    var i := 0;
    while i < |x|
      invariant 0 <= i <= |x| == |y| && x[..i] == y[..i]
    {
      if x[i] != y[i] { return false; }
      i := i + 1;
    }
    assert x[..i] == x && y[..i] == y;
    return true;
  }

  /** Every key in the map is allocated. */
  predicate KeysAllocated(slots: seq<Slot>, nodes: Nodes) {
    forall i :: 0 <= i < |slots| ==> slots[i].key in nodes
  }

  /** The first slot whose key has this content. */
  function Find(slots: seq<Slot>, nodes: Nodes, content: Bytes): (i: int)
    requires KeysAllocated(slots, nodes)
    ensures i == KEY_NOT_FOUND || 0 <= i < |slots|
    ensures i >= 0 ==> nodes[slots[i].key].content == content
    ensures forall j :: 0 <= j < (if i < 0 then |slots| else i) ==> nodes[slots[j].key].content != content
  {
    if slots == [] then KEY_NOT_FOUND else
      var front := slots[..|slots| - 1];
      var i := Find(front, nodes, content);
      if i >= 0 then i
      else if nodes[slots[|slots| - 1].key].content == content then |slots| - 1 else KEY_NOT_FOUND
  }

  function Without(slots: seq<Slot>, i: nat): seq<Slot>
    requires i < |slots|
  {
    slots[..i] + slots[i + 1..]
  }

  // ---- growth, over runs --------------------------------------------------------------------

  /** A call of `set` or `remove_key`, with the nodes allocated at the time. */
  datatype MapCall = SetCall(nodes: Nodes, key: Ptr, value: Ptr) | RemoveCall(nodes: Nodes, key: Ptr)

  /** The pairs, the capacity of each array, and how many slots doubling has copied per array. */
  datatype MapState = MapState(slots: seq<Slot>, capacity: nat, copied: nat)

  predicate Callable(s: MapState, c: MapCall) { c.key in c.nodes && KeysAllocated(s.slots, c.nodes) }

  /** Where the call's key is. */
  function Found(s: MapState, c: MapCall): int
    requires Callable(s, c)
  {
    Find(s.slots, c.nodes, c.nodes[c.key].content)
  }

  /** `__set`: both arrays double exactly when they are full. */
  function Appended(s: MapState, p: Slot): MapState {
    if |s.slots| == s.capacity then MapState(s.slots + [p], 2 * s.capacity, s.copied + s.capacity)
    else s.(slots := s.slots + [p])
  }

  function AfterCall(s: MapState, c: MapCall): MapState
    requires Callable(s, c)
  {
    var pos := Found(s, c);
    match c
    case SetCall(_, key, value) =>
      if pos < 0 then Appended(s, Slot(key, value)) else s.(slots := s.slots[pos := Slot(key, value)])
    case RemoveCall(_, _) => if pos < 0 then s else s.(slots := Without(s.slots, pos))
  }

  /** The state after a run from `create_simple_map`; `None` when some call's keys are not allocated. */
  function AfterRun(run: seq<MapCall>): Option<MapState> {
    if run == [] then Some(MapState([], 1, 0)) else
      var n := |run| - 1;
      match AfterRun(run[..n])
      case None => None
      case Some(s) => if Callable(s, run[n]) then Some(AfterCall(s, run[n])) else None
  }

  /** The largest number of pairs the map held at any time of the run. */
  function PeakSize(run: seq<MapCall>): nat
    requires AfterRun(run).Some?
  {
    var size := |AfterRun(run).value.slots|;
    if run == [] then size else
      var before := PeakSize(run[..|run| - 1]);
      if size > before then size else before
  }

  /** The calls of the run that put in a new key. */
  function Inserts(run: seq<MapCall>): nat
    requires AfterRun(run).Some?
  {
    if run == [] then 0 else
      var n := |run| - 1;
      var s := AfterRun(run[..n]).value;
      Inserts(run[..n]) + if run[n].SetCall? && Found(s, run[n]) < 0 then 1 else 0
  }

  predicate PowerOfTwo(n: nat) { n == 1 || (n > 0 && n % 2 == 0 && PowerOfTwo(n / 2)) }

  lemma DoublePower(n: nat)
    requires PowerOfTwo(n)
    ensures PowerOfTwo(2 * n)
  {
    assert (2 * n) % 2 == 0 && (2 * n) / 2 == n;
  }

  /** Over any run from `create_simple_map` the capacity is a power of two, and once it has grown at
      most twice the peak size less one; doubling copied one slot less than the capacity per array,
      which is fewer than two for each insert. */
  lemma {:induction false} GrowthBound(run: seq<MapCall>)
    requires AfterRun(run).Some?
    ensures var s := AfterRun(run).value;
      && PowerOfTwo(s.capacity) && |s.slots| <= s.capacity
      && (s.capacity == 1 || s.capacity <= 2 * (PeakSize(run) - 1))
      && s.copied == s.capacity - 1
      && |s.slots| <= PeakSize(run) <= Inserts(run)
      && (Inserts(run) > 0 ==> s.copied < 2 * Inserts(run))
  {
    if run != [] {
      var n := |run| - 1;
      GrowthBound(run[..n]);
      DoublePower(AfterRun(run[..n]).value.capacity);
    }
  }

  /** `realloc` to a larger array: the same elements in front. */
  method Realloc<T>(a: array<T>, n: nat, filler: T) returns (b: array<T>)
    requires a.Length <= n
    ensures fresh(b) && b.Length == n && forall i :: 0 <= i < a.Length ==> b[i] == a[i]
  {
    b := new T[n](_ => filler);
    forall i | 0 <= i < a.Length { b[i] := a[i]; }
  }

  class SimpleMap {
    var keys: array<KeyWrapper?>
    var values: array<ValueWrapper?>
    var capacity: nat
    var top: int
    ghost var slots: seq<Slot>
    ghost var copied: nat    // slots copied by doubling, per array
    ghost var Repr: set<object>

    ghost function State(): MapState
      reads this
    {
      MapState(slots, capacity, copied)
    }

    /** Slots 0 to `top` hold distinct wrappers with the pairs of `slots`. */
    ghost predicate Valid()
      reads this, Repr
    {
      && this in Repr && keys in Repr && values in Repr
      && keys.Length == values.Length == capacity && |slots| == top + 1 <= capacity && capacity > 0
      && (forall i :: 0 <= i < |slots| ==>
            keys[i] != null && keys[i] in Repr && keys[i].key == slots[i].key)
      && (forall i :: 0 <= i < |slots| ==>
            values[i] != null && values[i] in Repr && values[i].value == slots[i].value)
      && (forall i, j :: 0 <= i < j < |slots| ==> keys[i] != keys[j] && values[i] != values[j])
    }

    /** `create_simple_map`. */
    constructor ()
      ensures Valid() && fresh(Repr) && State() == MapState([], 1, 0)
    {
      keys := new KeyWrapper?[1](_ => null);
      values := new ValueWrapper?[1](_ => null);
      capacity, top := 1, -1;
      slots, copied := [], 0;
      new;
      Repr := {this, keys, values};
    }

    /** `__find`. */
    method FindSlot(nodes: Nodes, key: Ptr) returns (pos: int)
      requires Valid() && key in nodes && KeysAllocated(slots, nodes)
      ensures pos == Find(slots, nodes, nodes[key].content)
    {
      var i := 0;
      while i <= top
        invariant 0 <= i <= |slots|
        invariant forall j :: 0 <= j < i ==> nodes[slots[j].key].content != nodes[key].content
      {
        if keys[i] == null { return KEY_ARR_ERROR; }
        var same := Compare(nodes, keys[i].key, key);
        if same { return i; }
        i := i + 1;
      }
      return KEY_NOT_FOUND;
    }

    /** `__double_arrays`: both arrays are reallocated at twice the capacity. */
    method DoubleArrays()
      requires Valid() && |slots| == capacity
      modifies this`keys, this`values, this`capacity, this`copied, this`Repr
      ensures Valid() && fresh(Repr - old(Repr)) && fresh(keys) && fresh(values)
      ensures capacity == 2 * old(capacity) && copied == old(copied) + old(capacity)
      ensures old(Repr) <= Repr && keys !in old(Repr) && values !in old(Repr)
    {
      var n := 2 * capacity;
      var ks := Realloc(keys, n, null);
      var vs := Realloc(values, n, null);
      copied := copied + capacity;
      keys, values, capacity := ks, vs, n;
      Repr := Repr + {ks, vs};
    }

    /** Room for one more slot. */
    method EnsureRoom()
      requires Valid()
      modifies this`keys, this`values, this`capacity, this`copied, this`Repr
      ensures Valid() && fresh(Repr - old(Repr)) && |slots| < capacity && old(Repr) <= Repr
      ensures fresh(keys) || keys == old(keys)
      ensures fresh(values) || values == old(values)
      ensures if |slots| == old(capacity)
              then capacity == 2 * old(capacity) && copied == old(copied) + old(capacity)
              else capacity == old(capacity) && copied == old(copied)
    {
      if top + 1 == capacity {
        DoubleArrays();
      }
    }

    /** Puts a pair of fresh wrappers in the slot behind the last one. */
    method Place(k: KeyWrapper, v: ValueWrapper)
      requires Valid() && |slots| < capacity && k !in Repr && v !in Repr
      modifies this`top, this`slots, this`Repr, keys, values
      ensures Valid() && Repr == old(Repr) + {k, v} && slots == old(slots) + [Slot(k.key, v.value)]
    {
      top := top + 1;
      keys[top] := k;
      values[top] := v;
      slots := slots + [Slot(k.key, v.value)];
      Repr := Repr + {k, v};
    }

    /** `__set`: a new pair goes into fresh wrappers behind the last slot. */
    method Append(key: Ptr, value: Ptr)
      requires Valid()
      modifies Repr
      ensures Valid() && fresh(Repr - old(Repr))
      ensures State() == Appended(old(State()), Slot(key, value))
    {
      var k := new KeyWrapper(key);
      var v := new ValueWrapper(value);
      EnsureRoom();
      Place(k, v);
    }

    /** `__upgrade`: the wrappers at `pos` take the new pair and the old pair is handed back. */
    method Upgrade(pos: int, key: Ptr, value: Ptr) returns (oldKey: Ptr, oldValue: Ptr)
      requires Valid() && 0 <= pos < |slots|
      modifies Repr
      ensures Valid() && Repr == old(Repr)
      ensures State() == old(State()).(slots := old(slots)[pos := Slot(key, value)])
      ensures Slot(oldKey, oldValue) == old(slots)[pos]
    {
      oldKey, oldValue := keys[pos].key, values[pos].value;
      values[pos].value := value;
      keys[pos].key := key;
      slots := slots[pos := Slot(key, value)];
    }

    /** `set`: replaces the pair with an equal key, or appends. `key'` and `value'` are the pair
        left in the caller's `KeyValuePair`. */
    method Set(nodes: Nodes, key: Ptr, value: Ptr) returns (rtn: SetRtn, key': Ptr, value': Ptr)
      requires Valid() && key in nodes && KeysAllocated(slots, nodes)
      modifies Repr
      ensures Valid() && fresh(Repr - old(Repr))
      ensures var pos := old(Find(slots, nodes, nodes[key].content));
        if pos < 0 then
          rtn == SUCCESS_SET && slots == old(slots) + [Slot(key, value)] && key' == key && value' == value
        else
          rtn == SUCCESS_UPGRADE && slots == old(slots)[pos := Slot(key, value)]
          && Slot(key', value') == old(slots)[pos]
      ensures State() == old(AfterCall(State(), SetCall(nodes, key, value)))
    {
      var pos := FindSlot(nodes, key);
      key', value' := key, value;
      if pos == FIND_KEY_ERROR || pos == KEY_ARR_ERROR { return ERROR_SET, key, value; }
      if pos == KEY_NOT_FOUND {
        Append(key, value);
        rtn := SUCCESS_SET;
      } else {
        key', value' := Upgrade(pos, key, value);
        rtn := SUCCESS_UPGRADE;
      }
    }

    /** `get`: a copy of the pair with an equal key. */
    method Get(nodes: Nodes, key: Ptr) returns (kvp: Option<Slot>)
      requires Valid() && key in nodes && KeysAllocated(slots, nodes)
      ensures var pos := Find(slots, nodes, nodes[key].content);
        kvp == if pos < 0 then None else Some(slots[pos])
    {
      var pos := FindSlot(nodes, key);
      if pos < 0 { return None; }
      return Some(Slot(keys[pos].key, values[pos].value));
    }

    /** `remove_key`: the slots behind the removed one move up, in order. */
    method RemoveKey(nodes: Nodes, key: Ptr) returns (rtn: RemoveRtn, removed: Option<Slot>)
      requires Valid() && key in nodes && KeysAllocated(slots, nodes)
      modifies Repr
      ensures Valid() && Repr == old(Repr) && State() == old(AfterCall(State(), RemoveCall(nodes, key)))
      ensures var pos := old(Find(slots, nodes, nodes[key].content));
        if pos < 0 then rtn == REMOVE_KEY_NOT_FOUND && slots == old(slots) && removed == None
        else
          rtn == REMOVE_SUCCESS && removed == Some(old(slots)[pos])
          && slots == old(slots)[..pos] + old(slots)[pos + 1..]
    {
      var i := 0;
      while i <= top
        invariant 0 <= i <= |slots| && Valid() && State() == old(State()) && Repr == old(Repr)
        invariant forall j :: 0 <= j < i ==> nodes[slots[j].key].content != nodes[key].content
      {
        if keys[i] == null { return REMOVE_ERROR, None; }
        var rmvKey := keys[i].key;
        var same := Compare(nodes, key, rmvKey);
        if same {
          removed := Some(Slot(rmvKey, values[i].value));
          ShiftDown(i);
          return REMOVE_SUCCESS, removed;
        }
        i := i + 1;
      }
      return REMOVE_KEY_NOT_FOUND, None;
    }

    /** The inner loop of `remove_key`: everything behind `pos` moves up by one. */
    method CloseGap(pos: nat)
      requires pos <= top < keys.Length == values.Length
      modifies keys, values
      ensures forall j :: 0 <= j < top ==> keys[j] == old(keys[..])[if j < pos then j else j + 1]
      ensures forall j :: 0 <= j < top ==> values[j] == old(values[..])[if j < pos then j else j + 1]
    {
      var i := pos;
      ghost var ks, vs := keys[..], values[..];
      while i < top
        invariant pos <= i <= top
        invariant forall j :: 0 <= j < i ==> keys[j] == ks[if j < pos then j else j + 1]
        invariant forall j :: 0 <= j < i ==> values[j] == vs[if j < pos then j else j + 1]
        invariant forall j :: i <= j < keys.Length ==> keys[j] == ks[j] && values[j] == vs[j]
      {
        keys[i] := keys[i + 1];
        values[i] := values[i + 1];
        i := i + 1;
      }
      keys[i] := null;
      values[i] := null;
    }

    method ShiftDown(pos: nat)
      requires Valid() && pos < |slots|
      modifies this`top, this`slots, keys, values
      ensures Valid() && slots == old(slots)[..pos] + old(slots)[pos + 1..]
    {
      ghost var ks, vs, was := keys[..], values[..], slots;
      CloseGap(pos);
      top := top - 1;
      slots := Without(slots, pos);
      forall j | 0 <= j < |slots|
        ensures var l := if j < pos then j else j + 1;
          keys[j] == ks[l] && values[j] == vs[l] && slots[j] == was[l]
      {
      }
    }
  }

  method Perform(sm: SimpleMap, c: MapCall)
    requires sm.Valid() && Callable(sm.State(), c)
    modifies sm.Repr
    ensures sm.Valid() && fresh(sm.Repr - old(sm.Repr))
    ensures sm.State() == AfterCall(old(sm.State()), c)
  {
    match c {
      case SetCall(nodes, key, value) => var _, _, _ := sm.Set(nodes, key, value);
      case RemoveCall(nodes, key) => var _, _ := sm.RemoveKey(nodes, key);
    }
  }

  /** Runs the calls on a new map: the arrays go through the states of `AfterRun`. */
  method Replay(run: seq<MapCall>) returns (sm: SimpleMap)
    requires AfterRun(run).Some?
    ensures sm.Valid() && fresh(sm) && fresh(sm.Repr) && sm.State() == AfterRun(run).value
  {
    sm := new SimpleMap();
    var i := 0;
    RunStarts(run, |run|);
    while i < |run|
      invariant 0 <= i <= |run| && sm.Valid() && fresh(sm) && fresh(sm.Repr)
      invariant AfterRun(run[..i]) == Some(sm.State())
    {
      RunStarts(run, i + 1);
      assert run[..i + 1][..i] == run[..i] && run[..i + 1][i] == run[i];
      Perform(sm, run[i]);
      i := i + 1;
    }
    assert run[..i] == run;
  }

  /** A run that goes through goes through up to any call. */
  lemma {:induction false} RunStarts(run: seq<MapCall>, i: nat)
    requires AfterRun(run).Some? && i <= |run|
    ensures AfterRun(run[..i]).Some?
  {
    if i == |run| {
      assert run[..i] == run;
    } else {
      var front := run[..|run| - 1];
      RunStarts(front, i);
      assert front[..i] == run[..i];
    }
  }

  /** `SimpleMapWrapper`: a cursor over a map that does not change meanwhile. */
  class MapIterator {
    const sm: SimpleMap
    var index: nat

    constructor (sm: SimpleMap)
      ensures this.sm == sm && index == 0
    {
      this.sm, index := sm, 0;
    }

    /** `next`: the pairs in slot order, then NULL for ever. */
    method Next() returns (kvp: Option<Slot>)
      requires sm.Valid() && this !in sm.Repr
      modifies this
      ensures kvp == if old(index) < |sm.slots| then Some(sm.slots[old(index)]) else None
      ensures index == if kvp == None then old(index) else old(index) + 1
    {
      if sm.top < 0 { return None; }
      var curr := index;
      if curr > sm.top { return None; }
      index := index + 1;
      return Some(Slot(sm.keys[curr].key, sm.values[curr].value));
    }
  }
}
