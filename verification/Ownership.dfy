/** The keyspace as slots over memory: the map it denotes, and who owns which node. */
module Ownership {
  import opened Base
  import opened Memory
  import opened SimpleMap
  import opened Keyspace

  type Values = map<Ptr, Bytes>

  predicate Allocated(slots: seq<Slot>, keys: Nodes, vals: Values) {
    KeysAllocated(slots, keys) && forall i :: 0 <= i < |slots| ==> slots[i].value in vals
  }

  function EntryAt(s: Slot, keys: Nodes, vals: Values): Entry
    requires s.key in keys && s.value in vals
  {
    Entry(vals[s.value], keys[s.key].inputTime, keys[s.key].ex, keys[s.key].px)
  }

  /** The finite map the slots denote. */
  function Entries(slots: seq<Slot>, keys: Nodes, vals: Values): Space
    requires Allocated(slots, keys, vals)
  {
    if slots == [] then map[] else
      var n := |slots| - 1;
      Entries(slots[..n], keys, vals)[keys[slots[n].key].content := EntryAt(slots[n], keys, vals)]
  }

  predicate DistinctKeys(slots: seq<Slot>, keys: Nodes)
    requires KeysAllocated(slots, keys)
  {
    forall i, j :: 0 <= i < j < |slots| ==> keys[slots[i].key].content != keys[slots[j].key].content
  }

  function KeySeq(slots: seq<Slot>): (r: seq<Ptr>)
    ensures |r| == |slots|
  {
    seq(|slots|, i requires 0 <= i < |slots| => slots[i].key)
  }

  function ValueSeq(slots: seq<Slot>): (r: seq<Ptr>)
    ensures |r| == |slots|
  {
    seq(|slots|, i requires 0 <= i < |slots| => slots[i].value)
  }

  function KeyPtrs(slots: seq<Slot>): set<Ptr> { Elems(KeySeq(slots)) }

  function ValuePtrs(slots: seq<Slot>): set<Ptr> { Elems(ValueSeq(slots)) }

  predicate DistinctPtrs(slots: seq<Slot>) { Distinct(KeySeq(slots)) && Distinct(ValueSeq(slots)) }

  /** No two slots share a node, and the allocated nodes are those of the slots and, apart from
      them, the held ones. */
  predicate Accounted(slots: seq<Slot>, keys: set<Ptr>, vals: set<Ptr>, heldKeys: set<Ptr>, heldValues: set<Ptr>) {
    && DistinctPtrs(slots)
    && keys == KeyPtrs(slots) + heldKeys && KeyPtrs(slots) !! heldKeys
    && vals == ValuePtrs(slots) + heldValues && ValuePtrs(slots) !! heldValues
  }

  /** Every allocated node is reachable from exactly one slot or is one of the nodes `heldKeys`
      and `heldValues`; every reachable node is allocated; no two slots hold equal keys. */
  predicate Owned(slots: seq<Slot>, keys: Nodes, vals: Values, heldKeys: set<Ptr>, heldValues: set<Ptr>) {
    && Allocated(slots, keys, vals) && DistinctKeys(slots, keys)
    && Accounted(slots, keys.Keys, vals.Keys, heldKeys, heldValues)
  }

  // ---- the map ---------------------------------------------------------------------------------

  /** The map has exactly the keys a search finds, with the data of the slot found. */
  lemma {:induction false} EntriesAreFound(slots: seq<Slot>, keys: Nodes, vals: Values, content: Bytes)
    requires Allocated(slots, keys, vals) && DistinctKeys(slots, keys)
    ensures var i := Find(slots, keys, content);
      && (content in Entries(slots, keys, vals) <==> i >= 0)
      && (i >= 0 ==> Entries(slots, keys, vals)[content] == EntryAt(slots[i], keys, vals))
  {
    if slots != [] {
      var n := |slots| - 1;
      EntriesAreFound(slots[..n], keys, vals, content);
      var i := Find(slots[..n], keys, content);
      assert i >= 0 ==> slots[..n][i] == slots[i];
    }
  }

  lemma SameEntries(a: seq<Slot>, keys: Nodes, vals: Values, m: Space)
    requires Allocated(a, keys, vals) && DistinctKeys(a, keys)
    requires forall c :: c in m <==> Find(a, keys, c) >= 0
    requires forall c :: c in m ==> m[c] == EntryAt(a[Find(a, keys, c)], keys, vals)
    ensures Entries(a, keys, vals) == m
  {
    forall c ensures (c in Entries(a, keys, vals) <==> c in m)
      && (c in m ==> Entries(a, keys, vals)[c] == m[c])
    {
      EntriesAreFound(a, keys, vals, c);
    }
  }

  lemma FoundAt(slots: seq<Slot>, keys: Nodes, content: Bytes, i: nat)
    requires KeysAllocated(slots, keys) && DistinctKeys(slots, keys)
    requires i < |slots| && keys[slots[i].key].content == content
    ensures Find(slots, keys, content) == i
  {
  }

  /** Appending a pair with a new key. */
  lemma EntriesAppend(slots: seq<Slot>, keys: Nodes, vals: Values, s: Slot)
    requires Allocated(slots, keys, vals) && s.key in keys && s.value in vals
    requires DistinctKeys(slots, keys) && Find(slots, keys, keys[s.key].content) < 0
    ensures Allocated(slots + [s], keys, vals) && DistinctKeys(slots + [s], keys)
    ensures Entries(slots + [s], keys, vals)
      == Entries(slots, keys, vals)[keys[s.key].content := EntryAt(s, keys, vals)]
  {
    assert forall i :: 0 <= i < |slots| ==> (slots + [s])[i] == slots[i];
    assert (slots + [s])[..|slots|] == slots;
  }

  /** Replacing the pair of an equal key. */
  lemma EntriesReplace(slots: seq<Slot>, keys: Nodes, vals: Values, i: nat, s: Slot)
    requires Allocated(slots, keys, vals) && DistinctKeys(slots, keys) && i < |slots|
    requires s.key in keys && s.value in vals && keys[s.key].content == keys[slots[i].key].content
    ensures Allocated(slots[i := s], keys, vals) && DistinctKeys(slots[i := s], keys)
    ensures Entries(slots[i := s], keys, vals)
      == Entries(slots, keys, vals)[keys[s.key].content := EntryAt(s, keys, vals)]
  {
    var t, k := slots[i := s], keys[s.key].content;
    var m := Entries(slots, keys, vals)[k := EntryAt(s, keys, vals)];
    forall c
      ensures (c in m <==> Find(t, keys, c) >= 0) && (c in m ==> m[c] == EntryAt(t[Find(t, keys, c)], keys, vals))
    {
      EntriesAreFound(slots, keys, vals, c);
      var j := Find(slots, keys, c);
      if j >= 0 { FoundAt(t, keys, c, j); }
      if c == k { FoundAt(t, keys, c, i); FoundAt(slots, keys, c, i); }
      var l := Find(t, keys, c);
      if l >= 0 { FoundAt(slots, keys, c, l); }
    }
    SameEntries(t, keys, vals, m);
  }

  /** Removing a slot. */
  lemma EntriesRemove(slots: seq<Slot>, keys: Nodes, vals: Values, i: nat)
    requires Allocated(slots, keys, vals) && DistinctKeys(slots, keys) && i < |slots|
    ensures var t := Without(slots, i);
      && Allocated(t, keys, vals) && DistinctKeys(t, keys)
      && Entries(t, keys, vals) == Entries(slots, keys, vals) - {keys[slots[i].key].content}
  {
    var t, k := Without(slots, i), keys[slots[i].key].content;
    assert forall j :: 0 <= j < |t| ==> t[j] == slots[if j < i then j else j + 1];
    var m := Entries(slots, keys, vals) - {k};
    forall c
      ensures (c in m <==> Find(t, keys, c) >= 0) && (c in m ==> m[c] == EntryAt(t[Find(t, keys, c)], keys, vals))
    {
      EntriesAreFound(slots, keys, vals, c);
      var j := Find(slots, keys, c);
      if c == k { FoundAt(slots, keys, c, i); }
      if j >= 0 && j != i {
        var l := if j < i then j else j - 1;
        assert t[l] == slots[j];
        FoundAt(t, keys, c, l);
      }
      var l := Find(t, keys, c);
      if l >= 0 { FoundAt(slots, keys, c, if l < i then l else l + 1); }
    }
    SameEntries(t, keys, vals, m);
  }

  /** Changes of memory elsewhere do not show. */
  lemma {:induction false} EntriesFrame(slots: seq<Slot>, keys: Nodes, vals: Values, keys': Nodes, vals': Values)
    requires Allocated(slots, keys, vals) && Allocated(slots, keys', vals')
    requires forall i :: 0 <= i < |slots| ==> keys[slots[i].key] == keys'[slots[i].key]
    requires forall i :: 0 <= i < |slots| ==> vals[slots[i].value] == vals'[slots[i].value]
    ensures Entries(slots, keys, vals) == Entries(slots, keys', vals')
    ensures DistinctKeys(slots, keys) == DistinctKeys(slots, keys')
    ensures forall c :: Find(slots, keys, c) == Find(slots, keys', c)
  {
    if slots != [] {
      var n := |slots| - 1;
      EntriesFrame(slots[..n], keys, vals, keys', vals');
    }
    forall c ensures Find(slots, keys, c) == Find(slots, keys', c) { FindFrame(slots, keys, keys', c); }
  }

  lemma {:induction false} FindFrame(slots: seq<Slot>, keys: Nodes, keys': Nodes, c: Bytes)
    requires KeysAllocated(slots, keys) && KeysAllocated(slots, keys')
    requires forall i :: 0 <= i < |slots| ==> keys[slots[i].key] == keys'[slots[i].key]
    ensures Find(slots, keys, c) == Find(slots, keys', c)
  {
    if slots != [] { FindFrame(slots[..|slots| - 1], keys, keys', c); }
  }

  // ---- ownership -----------------------------------------------------------------------------

  lemma ElemsAppend(s: seq<Ptr>, p: Ptr)
    ensures Elems(s + [p]) == Elems(s) + {p}
    ensures Distinct(s) && p !in s ==> Distinct(s + [p])
  {
  }

  lemma ElemsUpdate(s: seq<Ptr>, i: nat, p: Ptr)
    requires i < |s| && Distinct(s)
    ensures Elems(s[i := p]) == Elems(s) - {s[i]} + {p}
    ensures p !in s ==> Distinct(s[i := p])
  {
    var t := s[i := p];
    assert t[i] == p;
    forall x | x in Elems(s) - {s[i]} ensures x in Elems(t) {
      var j :| 0 <= j < |s| && s[j] == x;
      assert t[j] == x;
    }
    forall x | x in Elems(t) - {p} ensures x in Elems(s) - {s[i]} {
      var j :| 0 <= j < |t| && t[j] == x;
      assert s[j] == x;
    }
  }

  lemma ElemsRemove(s: seq<Ptr>, i: nat)
    requires i < |s| && Distinct(s)
    ensures Elems(s[..i] + s[i + 1..]) == Elems(s) - {s[i]} && Distinct(s[..i] + s[i + 1..])
  {
    var t := s[..i] + s[i + 1..];
    assert s == s[..i] + [s[i]] + s[i + 1..];
    forall j | 0 <= j < |t| ensures t[j] == s[if j < i then j else j + 1] { }
    forall x | x in Elems(t) ensures x in Elems(s) - {s[i]} {
      var j :| 0 <= j < |t| && t[j] == x;
      assert s[if j < i then j else j + 1] == x;
    }
  }

  lemma SeqsAppend(slots: seq<Slot>, s: Slot)
    ensures KeySeq(slots + [s]) == KeySeq(slots) + [s.key] && ValueSeq(slots + [s]) == ValueSeq(slots) + [s.value]
  {
  }

  lemma SeqsReplace(slots: seq<Slot>, i: nat, s: Slot)
    requires i < |slots|
    ensures KeySeq(slots[i := s]) == KeySeq(slots)[i := s.key]
    ensures ValueSeq(slots[i := s]) == ValueSeq(slots)[i := s.value]
  {
  }

  lemma SeqsRemove(slots: seq<Slot>, i: nat)
    requires i < |slots|
    ensures KeySeq(Without(slots, i)) == KeySeq(slots)[..i] + KeySeq(slots)[i + 1..]
    ensures ValueSeq(Without(slots, i)) == ValueSeq(slots)[..i] + ValueSeq(slots)[i + 1..]
  {
  }

  lemma PtrsIn(slots: seq<Slot>)
    ensures forall i :: 0 <= i < |slots| ==> slots[i].key in KeyPtrs(slots) && slots[i].value in ValuePtrs(slots)
  {
    forall i | 0 <= i < |slots| ensures slots[i].key in KeyPtrs(slots) && slots[i].value in ValuePtrs(slots) {
      assert KeySeq(slots)[i] == slots[i].key && ValueSeq(slots)[i] == slots[i].value;
    }
  }

  /** A held pair with a new key moves into the map. */
  lemma OwnAppend(slots: seq<Slot>, keys: set<Ptr>, vals: set<Ptr>, hk: set<Ptr>, hv: set<Ptr>, s: Slot)
    requires Accounted(slots, keys, vals, hk, hv) && s.key in hk && s.value in hv
    ensures Accounted(slots + [s], keys, vals, hk - {s.key}, hv - {s.value})
  {
    SeqsAppend(slots, s);
    assert s.key !in KeyPtrs(slots) && s.value !in ValuePtrs(slots);
    ElemsAppend(KeySeq(slots), s.key);
    ElemsAppend(ValueSeq(slots), s.value);
  }

  /** A held pair takes the place of the pair at `i`, which is held from then on. */
  lemma OwnReplace(slots: seq<Slot>, keys: set<Ptr>, vals: set<Ptr>, hk: set<Ptr>, hv: set<Ptr>, i: nat, s: Slot)
    requires Accounted(slots, keys, vals, hk, hv) && i < |slots| && s.key in hk && s.value in hv
    ensures Accounted(slots[i := s], keys, vals, hk - {s.key} + {slots[i].key}, hv - {s.value} + {slots[i].value})
  {
    SeqsReplace(slots, i, s);
    PtrsIn(slots);
    assert s.key !in KeyPtrs(slots) && s.value !in ValuePtrs(slots);
    ElemsUpdate(KeySeq(slots), i, s.key);
    ElemsUpdate(ValueSeq(slots), i, s.value);
  }

  /** The pair at `i` leaves the map and is held from then on. */
  lemma OwnRemove(slots: seq<Slot>, keys: set<Ptr>, vals: set<Ptr>, hk: set<Ptr>, hv: set<Ptr>, i: nat)
    requires Accounted(slots, keys, vals, hk, hv) && i < |slots|
    ensures Accounted(Without(slots, i), keys, vals, hk + {slots[i].key}, hv + {slots[i].value})
  {
    SeqsRemove(slots, i);
    PtrsIn(slots);
    ElemsRemove(KeySeq(slots), i);
    ElemsRemove(ValueSeq(slots), i);
  }

  /** Allocating, freeing or changing held nodes leaves the map as it is. */
  lemma OwnMemory(slots: seq<Slot>, keys: Nodes, vals: Values, hk: set<Ptr>, hv: set<Ptr>,
                  keys': Nodes, vals': Values, hk': set<Ptr>, hv': set<Ptr>)
    requires Owned(slots, keys, vals, hk, hv)
    requires keys'.Keys == KeyPtrs(slots) + hk' && KeyPtrs(slots) !! hk'
    requires vals'.Keys == ValuePtrs(slots) + hv' && ValuePtrs(slots) !! hv'
    requires forall p :: p in KeyPtrs(slots) ==> keys'[p] == keys[p]
    requires forall p :: p in ValuePtrs(slots) ==> vals'[p] == vals[p]
    ensures Owned(slots, keys', vals', hk', hv')
    ensures Entries(slots, keys', vals') == Entries(slots, keys, vals)
    ensures forall c :: Find(slots, keys', c) == Find(slots, keys, c)
  {
    PtrsIn(slots);
    EntriesFrame(slots, keys, vals, keys', vals');
  }
}
