/** `setup`: the empty keyspace and the configuration with its two pairs. */
module Setup {
  import opened Base
  import opened Memory
  import opened SimpleMap
  import opened Ownership
  import opened Commands
  import opened ConfigGet
  import Connection

  /** The slots hold the first of the pairs, in order. */
  ghost predicate Holding(sm: SimpleMap, keys: Nodes, vals: Values, pairs: seq<Pair>)
    reads sm, sm.Repr
  {
    && sm.Valid() && Allocated(sm.slots, keys, vals) && |sm.slots| <= |pairs|
    && forall i :: 0 <= i < |sm.slots| ==>
         keys[sm.slots[i].key].content == pairs[i].key && vals[sm.slots[i].value] == pairs[i].value
  }

  lemma HoldsPairs(sm: SimpleMap, keys: Nodes, vals: Values, pairs: seq<Pair>)
    requires Holding(sm, keys, vals, pairs) && |sm.slots| == |pairs|
    ensures PairsOf(sm.slots, keys, vals) == pairs
  {
  }

  /** One round of the loop: a pair whose key is not in the map yet. A value of no bytes has no node,
      and `set` refuses it. */
  method StorePair(sm: SimpleMap, mem: Memory, pair: Pair, now: int, ghost pairs: seq<Pair>) returns (ok: bool)
    requires mem.Valid() && mem !in sm.Repr && Holding(sm, mem.keys, mem.values, pairs)
    requires |sm.slots| < |pairs| && pair == pairs[|sm.slots|] && pair.key != []
    requires forall i :: 0 <= i < |sm.slots| ==> pairs[i].key != pair.key
    modifies mem, sm.Repr
    ensures mem.Valid() && mem !in sm.Repr && fresh(sm.Repr - old(sm.Repr))
    ensures ok <==> pair.value != []
    ensures ok ==> Holding(sm, mem.keys, mem.values, pairs) && |sm.slots| == old(|sm.slots|) + 1
  {
    ghost var was := sm.slots;
    var key := mem.CreateKeyNode(pair.key, now);
    var value := mem.CreateValueNode(pair.value);
    if value == None { return false; }
    assert sm.slots == was && Find(was, mem.keys, pair.key) < 0;
    var rtn, _, _ := sm.Set(mem.keys, key.value, value.value);
    ok := rtn == SUCCESS_SET;
  }

  /** `dir` and `dbfilename`. */
  const DIR: Bytes := [100, 105, 114]
  const DBFILENAME: Bytes := [100, 98, 102, 105, 108, 101, 110, 97, 109, 101]

  lemma NamesDiffer()
    ensures DIR != DBFILENAME
  {
    assert |DIR| != |DBFILENAME|;
  }

  /** The configuration that CONFIG GET reads: the two values of the command line under their names;
      without a value the program exits. */
  method SetUpConfig(dir: Bytes, file: Bytes, now: int) returns (c: Option<Connection.Config>)
    requires NulFree(dir) && NulFree(file)
    ensures c.Some? <==> dir != [] && file != []
    ensures c.Some? ==> fresh(c.value.sm.Repr)
    ensures c.Some? ==> Connection.Configured(c.value,
      [Pair([100, 105, 114], dir), Pair([100, 98, 102, 105, 108, 101, 110, 97, 109, 101], file)])
  {
    NamesDiffer();
    var sm := new SimpleMap();
    var mem := new Memory();
    var pairs := [Pair(DIR, dir), Pair(DBFILENAME, file)];
    var i := 0;
    while i < 2
      invariant 0 <= i <= 2 && i == |sm.slots| && mem.Valid() && mem !in sm.Repr && fresh(sm.Repr) && fresh(mem)
      invariant Holding(sm, mem.keys, mem.values, pairs)
      invariant (i > 0 ==> dir != []) && (i > 1 ==> file != [])
    {
      var ok := StorePair(sm, mem, pairs[i], now, pairs);
      if !ok { return None; }
      i := i + 1;
    }
    HoldsPairs(sm, mem.keys, mem.values, pairs);
    c := Some(Connection.Config(sm, mem.keys, mem.values));
  }

  /** Both maps, apart from each other. */
  method SetUp(dir: Bytes, file: Bytes, now: int) returns (store: Store, c: Option<Connection.Config>)
    requires NulFree(dir) && NulFree(file)
    ensures store.Valid() && store.Space() == map[] && store.leaked == [] && (c.Some? <==> dir != [] && file != [])
    ensures c.Some? ==> Connection.Configured(c.value,
      [Pair([100, 105, 114], dir), Pair([100, 98, 102, 105, 108, 101, 110, 97, 109, 101], file)])
    ensures c.Some? ==> c.value.sm.Repr !! store.sm.Repr && {store, store.mem} !! c.value.sm.Repr
  {
    store := new Store();
    c := SetUpConfig(dir, file, now);
  }
}
