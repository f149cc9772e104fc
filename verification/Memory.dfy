/** The key and value nodes of the keyspace as explicit memory: a pointer is a number, reading
    through it needs the node to be allocated, and freeing takes it away for good. */
module Memory {
  import opened Base

  type Ptr = nat

  /** `input_time` is the nanosecond count of the monotone clock. */
  datatype KeyNode = KeyNode(content: Bytes, inputTime: int, ex: nat, px: nat)

  class Memory {
    var keys: map<Ptr, KeyNode>
    var values: map<Ptr, Bytes>
    var next: Ptr

    /** No pointer is handed out twice. */
    ghost predicate Valid() reads this {
      (forall p :: p in keys ==> p < next) && (forall p :: p in values ==> p < next)
    }

    constructor ()
      ensures Valid() && keys == map[] && values == map[]
    {
      keys, values, next := map[], map[], 0;
    }

    /** `create_key_node`: NULL for an empty key. */
    method CreateKeyNode(content: Bytes, now: int) returns (p: Option<Ptr>)
      requires Valid()
      modifies this
      ensures Valid() && values == old(values)
      ensures content == [] ==> p == None && keys == old(keys) && next == old(next)
      ensures content != [] ==>
        p == Some(old(next)) && next == old(next) + 1
        && keys == old(keys)[old(next) := KeyNode(content, now, 0, 0)]
    {
      if |content| < 1 { return None; }
      p := Some(next);
      keys, next := keys[next := KeyNode(content, now, 0, 0)], next + 1;
    }

    /** `create_value_node_string`: NULL for an empty value. */
    method CreateValueNode(content: Bytes) returns (p: Option<Ptr>)
      requires Valid()
      modifies this
      ensures Valid() && keys == old(keys)
      ensures content == [] ==> p == None && values == old(values) && next == old(next)
      ensures content != [] ==>
        p == Some(old(next)) && next == old(next) + 1 && values == old(values)[old(next) := content]
    {
      if |content| < 1 { return None; }
      p := Some(next);
      values, next := values[next := content], next + 1;
    }

    /** `clean_up_kv`. A pointer can be freed only while its node is allocated. */
    method CleanUpKv(key: Ptr, value: Option<Ptr>)
      requires Valid() && key in keys && (value.Some? ==> value.value in values)
      modifies this
      ensures Valid() && next == old(next)
      ensures keys == old(keys) - {key}
      ensures values == if value == None then old(values) else old(values) - {value.value}
    {
      keys := keys - {key};
      if value.Some? { values := values - {value.value}; }
    }

    method SetTtl(key: Ptr, ex: nat, px: nat)
      requires Valid() && key in keys
      modifies this
      ensures Valid() && next == old(next) && values == old(values)
      ensures keys == old(keys)[key := old(keys)[key].(ex := ex, px := px)]
    {
      keys := keys[key := keys[key].(ex := ex, px := px)];
    }
  }
}
