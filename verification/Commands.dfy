/** The executors of GET and SET over the keyspace's arrays and memory: each computes what the
    map specification says, reads nodes only while they are allocated, and frees each node it
    replaces exactly once. */
module Commands {
  import opened Base
  import opened Resp
  import opened Lexer
  import opened SetParser
  import opened Keyspace
  import opened Memory
  import opened SimpleMap
  import opened Ownership

  /** `memcpy` behind what the buffer already holds; the new position. */
  method MemCpy(buf: array<byte>, pos: nat, s: Bytes, ghost done: Bytes) returns (pos': nat)
    requires pos + |s| <= buf.Length && buf[..pos] == done
    modifies buf
    ensures pos' == pos + |s| && buf[..pos'] == done + s
  {
    forall i | 0 <= i < |s| { buf[pos + i] := s[i]; }
    pos' := pos + |s|;
    assert buf[..pos] == done by {
      forall i | 0 <= i < pos ensures buf[i] == done[i] { assert old(buf[..pos])[i] == old(buf[i]); }
    }
    assert buf[pos..pos'] == s;
    assert buf[..pos'] == buf[..pos] + buf[pos..pos'];
  }

  /** `key_or_value_node_to_string`: the bulk string of `content` and a NUL, in a buffer of exactly
      that size, which is also returned. */
  method NodeToString(content: Bytes) returns (text: array<byte>, size: nat)
    ensures fresh(text) && text[..] == Encode(Bulk(content)) + [0] && size == |Encode(Bulk(content))| + 1
  {
    var digits := Dec(|content|);
    size := 1 + |digits| + 2 + |content| + 3;
    text := new byte[size](_ => 0);
    assert text[..0] == [];
    var pos := MemCpy(text, 0, [DOLLAR], []);
    pos := MemCpy(text, pos, digits, [DOLLAR]);
    pos := MemCpy(text, pos, CRLF, [DOLLAR] + digits);
    pos := MemCpy(text, pos, content, [DOLLAR] + digits + CRLF);
    pos := MemCpy(text, pos, CRLF, [DOLLAR] + digits + CRLF + content);
    text[pos] := 0;
    assert text[..] == text[..pos] + [0];
  }

  /** The node's text as a reply, without the NUL. */
  method NodeReply(content: Bytes) returns (reply: Reply)
    ensures reply == BulkReply(content)
  {
    var text, size := NodeToString(content);
    reply := Reply(text[..size - 1]);
  }

  class Store {
    const sm: SimpleMap
    const mem: Memory
    ghost var leaked: seq<Slot>   // node pairs of commands without an executor

    /** Everything allocated is in the map, held by the running command, or leaked. */
    ghost predicate Inv(hk: set<Ptr>, hv: set<Ptr>)
      reads sm, sm.Repr, mem
    {
      && sm.Valid() && mem.Valid() && mem !in sm.Repr
      && Owned(sm.slots, mem.keys, mem.values, hk, hv)
    }

    ghost predicate Valid()
      reads this, sm, sm.Repr, mem
    {
      this !in sm.Repr && DistinctPtrs(leaked) && Inv(KeyPtrs(leaked), ValuePtrs(leaked))
    }

    /** The map the server stores. */
    ghost function Space(): Space
      reads sm, mem
      requires Allocated(sm.slots, mem.keys, mem.values)
    {
      Entries(sm.slots, mem.keys, mem.values)
    }

    constructor ()
      ensures Valid() && fresh(sm) && fresh(sm.Repr) && fresh(mem)
      ensures Space() == map[] && leaked == []
    {
      sm := new SimpleMap();
      mem := new Memory();
      leaked := [];
    }

    // ---- steps the executors share -------------------------------------------------------------

    /** The node of a new key, held by the command. */
    method HoldKey(content: Bytes, now: int, ghost hk: set<Ptr>, ghost hv: set<Ptr>) returns (key: Option<Ptr>)
      requires Inv(hk, hv)
      modifies mem
      ensures mem.values == old(mem.values) && (key == None <==> content == [])
      ensures key == None ==> Inv(hk, hv) && mem.keys == old(mem.keys)
      ensures key.Some? ==>
        && key.value !in hk && Inv(hk + {key.value}, hv)
        && mem.keys == old(mem.keys)[key.value := KeyNode(content, now, 0, 0)]
      ensures Space() == old(Space())
    {
      ghost var keys := mem.keys;
      PtrsIn(sm.slots);
      key := mem.CreateKeyNode(content, now);
      if key.Some? {
        assert key.value !in keys;
        OwnMemory(sm.slots, keys, mem.values, hk, hv, mem.keys, mem.values, hk + {key.value}, hv);
      }
    }

    method HoldValue(content: Bytes, ghost hk: set<Ptr>, ghost hv: set<Ptr>) returns (value: Option<Ptr>)
      requires Inv(hk, hv)
      modifies mem
      ensures mem.keys == old(mem.keys) && (value == None <==> content == [])
      ensures value == None ==> Inv(hk, hv) && mem.values == old(mem.values)
      ensures value.Some? ==>
        && value.value !in hv && Inv(hk, hv + {value.value})
        && mem.values == old(mem.values)[value.value := content]
      ensures Space() == old(Space())
    {
      ghost var vals := mem.values;
      value := mem.CreateValueNode(content);
      if value.Some? {
        assert value.value !in vals;
        OwnMemory(sm.slots, mem.keys, vals, hk, hv, mem.keys, mem.values, hk, hv + {value.value});
      }
    }

    /** `clean_up_kv` on held nodes. */
    method Release(key: Ptr, value: Option<Ptr>, ghost hk: set<Ptr>, ghost hv: set<Ptr>)
      requires Inv(hk, hv) && key in hk && (value.Some? ==> value.value in hv)
      modifies mem
      ensures Inv(hk - {key}, if value == None then hv else hv - {value.value})
      ensures Space() == old(Space())
      ensures mem.keys == old(mem.keys) - {key}
    {
      ghost var keys, vals := mem.keys, mem.values;
      mem.CleanUpKv(key, value);
      ghost var hv' := if value == None then hv else hv - {value.value};
      assert mem.keys.Keys == KeyPtrs(sm.slots) + (hk - {key});
      assert mem.values.Keys == ValuePtrs(sm.slots) + hv';
      OwnMemory(sm.slots, keys, vals, hk, hv, mem.keys, mem.values, hk - {key}, hv');
    }

    /** The entry a held pair stands for. */
    ghost function Held(key: Ptr, value: Ptr): Entry
      reads mem
      requires key in mem.keys && value in mem.values
    {
      EntryAt(Slot(key, value), mem.keys, mem.values)
    }

    /** `set` on the keyspace: the held pair goes into the map; an old pair comes out and is held
        instead, with its nodes still allocated. */
    method Put(key: Ptr, value: Ptr, ghost hk: set<Ptr>, ghost hv: set<Ptr>)
      returns (rtn: SetRtn, key': Ptr, value': Ptr)
      requires Inv(hk, hv) && key in hk && value in hv
      modifies sm.Repr
      ensures mem.keys == old(mem.keys) && mem.values == old(mem.values) && fresh(sm.Repr - old(sm.Repr))
      ensures var m, c := old(Space()), old(mem.keys[key].content);
        && rtn == (if c in m then SUCCESS_UPGRADE else SUCCESS_SET)
        && (c !in m ==> Inv(hk - {key}, hv - {value}))
        && (c in m ==>
              && key' !in hk && value' !in hv
              && Inv(hk - {key} + {key'}, hv - {value} + {value'})
              && mem.values[value'] == m[c].value)
      ensures Space() == old(Space())[old(mem.keys[key].content) := old(Held(key, value))]
    {
      ghost var was, keys, vals, s := sm.slots, mem.keys, mem.values, Slot(key, value);
      ghost var c := keys[key].content;
      ghost var pos := Find(was, keys, c);
      EntriesAreFound(was, keys, vals, c);
      PtrsIn(was);
      if pos < 0 {
        EntriesAppend(was, keys, vals, s);
        OwnAppend(was, keys.Keys, vals.Keys, hk, hv, s);
      } else {
        EntriesReplace(was, keys, vals, pos, s);
        OwnReplace(was, keys.Keys, vals.Keys, hk, hv, pos, s);
      }
      rtn, key', value' := sm.Set(mem.keys, key, value);
    }

    /** `clean_up_kv` on the pair that `set` handed back for the pair it stored. */
    method ReleaseOld(ghost key: Ptr, ghost value: Ptr, key': Ptr, value': Ptr, ghost hk: set<Ptr>, ghost hv: set<Ptr>)
      requires key' !in hk && value' !in hv && Inv(hk - {key} + {key'}, hv - {value} + {value'})
      modifies mem
      ensures Inv(hk - {key}, hv - {value}) && Space() == old(Space())
    {
      Release(key', Some(value'), hk - {key} + {key'}, hv - {value} + {value'});
      assert hk - {key} + {key'} - {key'} == hk - {key};
      assert hv - {value} + {value'} - {value'} == hv - {value};
    }

    /** `get` on the keyspace: the pair of the entry with the held key's content. */
    method Seek(key: Ptr, ghost hk: set<Ptr>, ghost hv: set<Ptr>) returns (found: Option<Slot>)
      requires Inv(hk, hv) && key in hk
      ensures found.Some? <==> mem.keys[key].content in Space()
      ensures found.Some? ==>
        && found.value.key in mem.keys && found.value.value in mem.values
        && EntryAt(found.value, mem.keys, mem.values) == Space()[mem.keys[key].content]
        && Find(sm.slots, mem.keys, mem.keys[key].content) >= 0
    {
      EntriesAreFound(sm.slots, mem.keys, mem.values, mem.keys[key].content);
      found := sm.Get(mem.keys, key);
    }

    // ---- SET -------------------------------------------------------------------------------------

    /** `execute_set_basic`: writes, and frees the pair it replaced. */
    method ExecuteSetBasic(key: Ptr, value: Ptr, ghost hk: set<Ptr>, ghost hv: set<Ptr>) returns (reply: Reply)
      requires Inv(hk, hv) && key in hk && value in hv
      modifies mem, sm.Repr
      ensures Inv(hk - {key}, hv - {value}) && fresh(sm.Repr - old(sm.Repr))
      ensures reply == Reply(OK)
      ensures Space() == old(Space())[old(mem.keys[key].content) := old(Held(key, value))]
    {
      var rtn, key', value' := Put(key, value, hk, hv);
      if rtn == SUCCESS_UPGRADE {
        ReleaseOld(key, value, key', value', hk, hv);
      }
      reply := Reply(OK);
    }

    /** `execute_set_get`: replies with the old value, read before its node is freed. */
    method ExecuteSetGet(key: Ptr, value: Ptr, ghost hk: set<Ptr>, ghost hv: set<Ptr>) returns (reply: Reply)
      requires Inv(hk, hv) && key in hk && value in hv
      modifies mem, sm.Repr
      ensures Inv(hk - {key}, hv - {value}) && fresh(sm.Repr - old(sm.Repr))
      ensures var m, c := old(Space()), old(mem.keys[key].content);
        reply == if c in m then Reply(Encode(Bulk(m[c].value))) else Reply(NIL)
      ensures Space() == old(Space())[old(mem.keys[key].content) := old(Held(key, value))]
    {
      var rtn, key', value' := Put(key, value, hk, hv);
      if rtn == SUCCESS_SET { return Reply(NIL); }
      reply := NodeReply(mem.values[value']);
      ReleaseOld(key, value, key', value', hk, hv);
    }

    /** The NX branch: a new key is stored, and the pair for an existing one is freed. */
    method WriteNx(present: bool, key: Ptr, value: Ptr, ghost hk: set<Ptr>, ghost hv: set<Ptr>) returns (reply: Reply)
      requires Inv(hk, hv) && key in hk && value in hv
      requires present <==> mem.keys[key].content in Space()
      modifies mem, sm.Repr
      ensures Inv(hk - {key}, hv - {value}) && fresh(sm.Repr - old(sm.Repr))
      ensures reply == if present then Reply(NIL) else Reply(OK)
      ensures Space() ==
        if present then old(Space()) else old(Space())[old(mem.keys[key].content) := old(Held(key, value))]
    {
      if present {
        Release(key, Some(value), hk, hv);
        return Reply(NIL);
      }
      var rtn, _, _ := Put(key, value, hk, hv);
      reply := Reply(if rtn == SUCCESS_SET then OK else NIL);
    }

    /** The XX branch: an existing key is replaced and its old pair freed; otherwise the new is. */
    method WriteXx(present: bool, key: Ptr, value: Ptr, ghost hk: set<Ptr>, ghost hv: set<Ptr>) returns (reply: Reply)
      requires Inv(hk, hv) && key in hk && value in hv
      requires present <==> mem.keys[key].content in Space()
      modifies mem, sm.Repr
      ensures Inv(hk - {key}, hv - {value}) && fresh(sm.Repr - old(sm.Repr))
      ensures reply == if present then Reply(OK) else Reply(NIL)
      ensures Space() ==
        if present then old(Space())[old(mem.keys[key].content) := old(Held(key, value))] else old(Space())
    {
      if !present {
        Release(key, Some(value), hk, hv);
        return Reply(NIL);
      }
      var rtn, key', value' := Put(key, value, hk, hv);
      reply := Reply(if rtn == SUCCESS_UPGRADE then OK else NIL);
      if rtn == SUCCESS_UPGRADE { ReleaseOld(key, value, key', value', hk, hv); }
    }

    /** `execute_set_nx_xx`: writes when the option allows it, and frees the new pair otherwise. */
    method ExecuteSetNxXx(key: Ptr, value: Ptr, option: Bytes, ghost hk: set<Ptr>, ghost hv: set<Ptr>)
      returns (reply: Reply)
      requires Inv(hk, hv) && key in hk && value in hv
      modifies mem, sm.Repr
      ensures Inv(hk - {key}, hv - {value}) && fresh(sm.Repr - old(sm.Repr))
      ensures var o, m, c := CStr(option), old(Space()), old(mem.keys[key].content);
        if o != [78, 88] && o != [88, 88] then reply == NoReply && Space() == m
        else if (o == [78, 88]) == (c !in m) then reply == Reply(OK) && Space() == m[c := old(Held(key, value))]
        else reply == Reply(NIL) && Space() == m
    {
      var o := CStr(option);
      if o != NX_TEXT && o != XX_TEXT {
        Release(key, Some(value), hk, hv);
        return NoReply;
      }
      var found := Seek(key, hk, hv);
      if o == NX_TEXT {
        reply := WriteNx(found.Some?, key, value, hk, hv);
      } else {
        reply := WriteXx(found.Some?, key, value, hk, hv);
      }
    }

    /** `execute_set_nxxx_get`: the old value is encoded before anything can free it. */
    method ExecuteSetNxxxGet(key: Ptr, value: Ptr, option: Bytes, ghost hk: set<Ptr>, ghost hv: set<Ptr>)
      returns (reply: Reply)
      requires Inv(hk, hv) && key in hk && value in hv && IsCond(GetOptionType(option))
      modifies mem, sm.Repr
      ensures Inv(hk - {key}, hv - {value}) && fresh(sm.Repr - old(sm.Repr))
      ensures var o, m, c := GetOptionType(option), old(Space()), old(mem.keys[key].content);
        && (reply == if c in m then Reply(Encode(Bulk(m[c].value))) else Reply(NIL))
        && Space() == if (o == NX) == (c !in m) then m[c := old(Held(key, value))] else m
    {
      var found := Seek(key, hk, hv);
      if found.Some? {
        reply := NodeReply(mem.values[found.value.value]);
      } else {
        reply := Reply(NIL);
      }
      var rtn := ExecuteSetNxXx(key, value, option, hk, hv);
      if rtn == NoReply { return NoReply; }
    }

    /** Sets one TTL field of a held key. */
    method SetHeldTtl(key: Ptr, value: Ptr, option: Bytes, ttl: nat, ghost hk: set<Ptr>, ghost hv: set<Ptr>)
      requires Inv(hk, hv) && key in hk && value in hv && IsTtl(GetOptionType(option))
      modifies mem
      ensures Inv(hk, hv) && Space() == old(Space())
      ensures mem.keys[key].content == old(mem.keys[key].content)
      ensures var o, e := GetOptionType(option), old(Held(key, value));
        Held(key, value) == if o == EX || o == EXAT then e.(ex := ttl) else e.(px := ttl)
    {
      ghost var keys := mem.keys;
      PtrsIn(sm.slots);
      var ex, px := mem.keys[key].ex, mem.keys[key].px;
      match GetOptionType(option) {
        case EX => ex := ttl;
        case EXAT => ex := ttl;
        case PX => px := ttl;
        case PXAT => px := ttl;
      }
      mem.SetTtl(key, ex, px);
      assert mem.keys.Keys == keys.Keys;
      OwnMemory(sm.slots, keys, mem.values, hk, hv, mem.keys, mem.values, hk, hv);
    }

    /** `execute_set_ex_px_exat_pxat`: EXAT and PXAT are relative TTLs too. */
    method ExecuteSetTtl(key: Ptr, value: Ptr, option: Bytes, time: Bytes, ghost hk: set<Ptr>, ghost hv: set<Ptr>)
      returns (reply: Reply)
      requires Inv(hk, hv) && key in hk && value in hv
      requires IsTtl(GetOptionType(option)) && AllDigits(time)
      modifies mem, sm.Repr
      ensures Inv(hk - {key}, hv - {value}) && fresh(sm.Repr - old(sm.Repr))
      ensures reply == Reply(OK)
      ensures var o, t := GetOptionType(option), DecVal(time) % TWO32;
        var e := old(Held(key, value));
        Space() == old(Space())[old(mem.keys[key].content) :=
          if o == EX || o == EXAT then e.(ex := t) else e.(px := t)]
    {
      var ttl := StringToUint(time);
      SetHeldTtl(key, value, option, ttl, hk, hv);
      reply := ExecuteSetBasic(key, value, hk, hv);
    }

    /** The executor for the parser's state, on the held pair and the texts in slots 3, 1 and 0.
        A state without an executor leaks the pair and changes nothing. */
    method Dispatch(state: bv8, cond: Bytes, unit: Bytes, time: Bytes, ghost c: SetCommand, ghost now: int,
                    key: Ptr, value: Ptr, ghost hk: set<Ptr>, ghost hv: set<Ptr>)
      returns (reply: Reply, ghost leaked: bool)
      requires state == StateOf(c) && Stated(c, cond, unit, time) && c.key != [] && c.value != []
      requires Inv(hk, hv) && key in hk && value in hv
      requires mem.keys[key] == KeyNode(c.key, now, 0, 0) && mem.values[value] == c.value
      modifies mem, sm.Repr
      ensures fresh(sm.Repr - old(sm.Repr)) && leaked == !Supported(c)
      ensures if leaked then Inv(hk, hv) else Inv(hk - {key}, hv - {value})
      ensures (reply, Space()) == SetSpec(old(Space()), c, now)
    {
      leaked := false;
      StateBits(c);
      SpecByShape(Space(), c, now);
      assert Held(key, value) == Entry(c.value, now, 0, 0);
      if state == 0x70 {
        reply := ExecuteSetBasic(key, value, hk, hv);
      } else if state == 0x74 {
        reply := ExecuteSetGet(key, value, hk, hv);
      } else if state == 0x78 {
        reply := ExecuteSetNxXx(key, value, cond, hk, hv);
      } else if state == 0x7C {
        reply := ExecuteSetNxxxGet(key, value, cond, hk, hv);
      } else if state == 0x73 {
        reply := ExecuteSetTtl(key, value, unit, time, hk, hv);
      } else {
        reply, leaked := NoReply, true;
      }
    }

    /** The key and value nodes of `execute_set_cmd`; for an empty key or value there are none,
        and a key node already built is freed. */
    method HoldPair(key: Bytes, value: Bytes, now: int, ghost lk: set<Ptr>, ghost lv: set<Ptr>)
      returns (pair: Option<Slot>)
      requires Inv(lk, lv)
      modifies mem
      ensures pair == None <==> key == [] || value == []
      ensures pair == None ==> Inv(lk, lv)
      ensures pair.Some? ==>
        && pair.value.key !in lk && pair.value.value !in lv
        && Inv(lk + {pair.value.key}, lv + {pair.value.value})
        && mem.keys[pair.value.key] == KeyNode(key, now, 0, 0) && mem.values[pair.value.value] == value
      ensures Space() == old(Space())
    {
      var kp := HoldKey(key, now, lk, lv);
      if kp == None { return None; }
      var vp := HoldValue(value, lk + {kp.value}, lv);
      if vp == None {
        Release(kp.value, None, lk + {kp.value}, lv);
        assert lk + {kp.value} - {kp.value} == lk;
        return None;
      }
      pair := Some(Slot(kp.value, vp.value));
    }

    /** `execute_set_cmd`: builds the nodes, then dispatches on the state. */
    method ExecuteSetCmd(p: ParsedSet, ghost c: SetCommand, now: int, ghost lk: set<Ptr>, ghost lv: set<Ptr>)
      returns (reply: Reply, ghost leak: Option<Slot>)
      requires Inv(lk, lv) && ParsedAs(p, c)
      modifies mem, sm.Repr
      ensures leak.Some? <==> Leaks(Set(c))
      ensures leak.Some? ==> leak.value.key !in lk && leak.value.value !in lv
      ensures if leak == None then Inv(lk, lv) else Inv(lk + {leak.value.key}, lv + {leak.value.value})
      ensures fresh(sm.Repr - old(sm.Repr))
      ensures (reply, Space()) == SetSpec(old(Space()), c, now)
    {
      leak := None;
      var pair := HoldPair(p.key, p.value, now, lk, lv);
      if pair == None { return NoReply, None; }
      ghost var hk, hv := lk + {pair.value.key}, lv + {pair.value.value};
      assert hk - {pair.value.key} == lk && hv - {pair.value.value} == lv;
      ghost var leaks;
      reply, leaks := Dispatch(p.state, p.cond, p.unit, p.time, c, now, pair.value.key, pair.value.value, hk, hv);
      if leaks { leak := pair; }
    }

    /** `handle_set_cmd`: parse, then execute. */
    method ParseAndExecute(args: seq<Tree>, now: int, ghost lk: set<Ptr>, ghost lv: set<Ptr>)
      returns (reply: Reply, ghost leak: Option<Slot>)
      requires Inv(lk, lv)
      modifies mem, sm.Repr
      ensures leak.Some? <==> Leaks(SetMeaning(args))
      ensures leak.Some? ==> leak.value.key !in lk && leak.value.value !in lv
      ensures if leak == None then Inv(lk, lv) else Inv(lk + {leak.value.key}, lv + {leak.value.value})
      ensures fresh(sm.Repr - old(sm.Repr))
      ensures (reply, Space()) == SetOutcome(old(Space()), SetMeaning(args), now)
    {
      var valid, parsed := ParseSet(args);
      if !valid { return NoReply, None; }
      reply, leak := ExecuteSetCmd(parsed, SetMeaning(args).c, now, lk, lv);
    }

    /** The same, with what it leaked put on record. */
    method HandleSetCmd(args: seq<Tree>, now: int) returns (reply: Reply)
      requires Valid()
      modifies this, mem, sm.Repr
      ensures Valid() && fresh(sm.Repr - old(sm.Repr))
      ensures (reply, Space()) == SetOutcome(old(Space()), SetMeaning(args), now)
      ensures old(leaked) <= leaked && |leaked| == |old(leaked)| + LeakOf(SetMeaning(args))
    {
      ghost var leak;
      reply, leak := ParseAndExecute(args, now, KeyPtrs(leaked), ValuePtrs(leaked));
      if leak.Some? {
        LeakedPtrs(leaked, leak.value);
        leaked := leaked + [leak.value];
      }
    }

    // ---- GET -------------------------------------------------------------------------------------

    /** The part of `handle_get_cmd` for a dead entry: both nodes of the pair go, and the
        temporary key with them. */
    method Expire(key: Ptr, ghost pos: nat, ghost hk: set<Ptr>, ghost hv: set<Ptr>)
      requires Inv(hk, hv) && key in hk && pos == Find(sm.slots, mem.keys, mem.keys[key].content)
      modifies mem, sm.Repr
      ensures Inv(hk - {key}, hv) && fresh(sm.Repr - old(sm.Repr))
      ensures Space() == old(Space()) - {old(mem.keys[key].content)}
    {
      ghost var was, keys, vals := sm.slots, mem.keys, mem.values;
      EntriesRemove(was, keys, vals, pos);
      OwnRemove(was, keys.Keys, vals.Keys, hk, hv, pos);
      PtrsIn(was);
      var rtn, removed := sm.RemoveKey(mem.keys, key);
      if rtn == REMOVE_SUCCESS {
        ghost var k, v := was[pos].key, was[pos].value;
        Release(key, None, hk + {k}, hv + {v});
        Release(removed.value.key, Some(removed.value.value), hk + {k} - {key}, hv + {v});
        assert hk + {k} - {key} - {k} == hk - {key} && hv + {v} - {v} == hv;
      }
    }

    /** The search of `handle_get_cmd`, with the temporary key in hand: the value found, or nothing
        when there is none or it was dead and has been removed. Frees the temporary key. */
    method LookUp(f: Floats, key: Ptr, ghost content: Bytes, now: int, ghost hk: set<Ptr>, ghost hv: set<Ptr>)
      returns (found: Option<Bytes>)
      requires Inv(hk, hv) && key in hk && mem.keys[key] == KeyNode(content, now, 0, 0)
      modifies mem, sm.Repr
      ensures Inv(hk - {key}, hv) && fresh(sm.Repr - old(sm.Repr))
      ensures var m := old(Space());
        if content !in m then found == None && Space() == m
        else if Dead(f, now, m[content]) then found == None && Space() == m - {content}
        else found == Some(m[content].value) && Space() == m
    {
      var kvp := Seek(key, hk, hv);
      if kvp == None {
        Release(key, None, hk, hv);
        return None;
      }
      var newKey, prevKey := mem.keys[key], mem.keys[kvp.value.key];
      if Expired(f, newKey.inputTime, prevKey.inputTime, prevKey.ex, prevKey.px) {
        Expire(key, Find(sm.slots, mem.keys, content), hk, hv);
        return None;
      }
      found := Some(mem.values[kvp.value.value]);
      Release(key, None, hk, hv);
    }

    /** `handle_get_cmd` on a bulk string. */
    method GetByKey(f: Floats, content: Bytes, now: int, ghost lk: set<Ptr>, ghost lv: set<Ptr>) returns (reply: Reply)
      requires Inv(lk, lv)
      modifies mem, sm.Repr
      ensures Inv(lk, lv) && fresh(sm.Repr - old(sm.Repr))
      ensures (reply, Space()) == GetSpec(f, old(Space()), content, now)
    {
      var key := HoldKey(content, now, lk, lv);
      if key == None { return NoReply; }
      assert lk + {key.value} - {key.value} == lk;
      var found := LookUp(f, key.value, content, now, lk + {key.value}, lv);
      if found == None { return Reply(NIL); }
      reply := NodeReply(found.value);
    }

    /** `handle_get_cmd`: exactly one bulk string is a valid argument list. */
    method HandleGetCmd(f: Floats, args: seq<Tree>, now: int) returns (reply: Reply)
      requires Valid()
      modifies mem, sm.Repr
      ensures Valid() && fresh(sm.Repr - old(sm.Repr))
      ensures (reply, Space()) == GetOutcome(f, old(Space()), GetMeaning(args), now)
    {
      if |args| != 1 || !args[0].Bulk? { return NoReply; }
      reply := GetByKey(f, args[0].data, now, KeyPtrs(leaked), ValuePtrs(leaked));
    }

    // ---- whole runs ------------------------------------------------------------------------------

    /** One command. */
    method Handle(f: Floats, request: Request) returns (reply: Reply)
      requires Valid()
      modifies this, mem, sm.Repr
      ensures Valid() && fresh(sm.Repr - old(sm.Repr))
      ensures (reply, Space()) == Step(f, old(Space()), MeaningOf(request).cmd, request.now)
      ensures old(leaked) <= leaked && |leaked| == |old(leaked)| + LeakOf(MeaningOf(request).cmd)
    {
      match request {
        case GetRequest(args, now) => reply := HandleGetCmd(f, args, now);
        case SetRequest(args, now) => reply := HandleSetCmd(args, now);
      }
    }

    /** One command of a run: what it sends and leaves extends the run so far. */
    method ServeNext(f: Floats, request: Request, ghost m: Space, ghost run: seq<Timed>, ghost before: seq<Bytes>)
      returns (sent: Bytes)
      requires Valid() && Ran(f, m, run, before, Space())
      modifies this, mem, sm.Repr
      ensures Valid() && fresh(sm.Repr - old(sm.Repr))
      ensures Ran(f, m, run + [MeaningOf(request)], before + [sent], Space())
      ensures old(leaked) <= leaked && |leaked| == |old(leaked)| + LeakOf(MeaningOf(request).cmd)
    {
      RanAppend(f, m, run, MeaningOf(request), before, Space());
      var reply := Handle(f, request);
      sent := Sent(reply);
    }

    /** Serves one command after another. What is sent are the replies of the lazily expiring map
        over the whole run, and the nodes leaked on the way are one pair for each command without
        an executor; all other key and value nodes are in the map. */
    method Serve(f: Floats, requests: seq<Request>) returns (sent: seq<Bytes>)
      requires Valid()
      modifies this, mem, sm.Repr
      ensures Valid() && fresh(sm.Repr - old(sm.Repr))
      ensures sent == SentAll(LazyRun(f, old(Space()), RunOf(requests)))
      ensures Space() == LazyState(f, old(Space()), RunOf(requests))
      ensures old(leaked) <= leaked && |leaked| == |old(leaked)| + LeakCount(RunOf(requests))
    {
      sent := [];
      var i := 0;
      ghost var m, run := Space(), [];
      while i < |requests|
        invariant 0 <= i <= |requests| && run == RunOf(requests[..i])
        invariant Valid() && fresh(sm.Repr - old(sm.Repr)) && Ran(f, m, run, sent, Space())
        invariant old(leaked) <= leaked && |leaked| == |old(leaked)| + LeakCount(run)
      {
        RunOfAppend(requests, i);
        LeakCountAppend(run, MeaningOf(requests[i]));
        var text := ServeNext(f, requests[i], m, run, sent);
        sent := sent + [text];
        run := run + [MeaningOf(requests[i])];
        i := i + 1;
      }
      assert requests[..i] == requests;
    }
  }

  /** From map `m` the run sends `sent` and leaves `after`. */
  predicate Ran(f: Floats, m: Space, run: seq<Timed>, sent: seq<Bytes>, after: Space) {
    sent == SentAll(LazyRun(f, m, run)) && after == LazyState(f, m, run)
  }

  lemma RanAppend(f: Floats, m: Space, run: seq<Timed>, t: Timed, sent: seq<Bytes>, after: Space)
    requires Ran(f, m, run, sent, after)
    ensures var (reply, after') := Step(f, after, t.cmd, t.now);
      Ran(f, m, run + [t], sent + [Sent(reply)], after')
  {
    SentAppend(f, m, run, t);
    assert (run + [t])[..|run|] == run;
  }

  /** A pair with no executor stays allocated, outside the map. */
  ghost predicate Leaks(cmd: Command) {
    cmd.Set? && cmd.c.key != [] && cmd.c.value != [] && !Supported(cmd.c)
  }

  ghost function LeakOf(cmd: Command): nat { if Leaks(cmd) then 1 else 0 }

  ghost function LeakCount(run: seq<Timed>): nat {
    if run == [] then 0 else LeakCount(run[..|run| - 1]) + LeakOf(run[|run| - 1].cmd)
  }

  lemma LeakedPtrs(leaked: seq<Slot>, s: Slot)
    ensures KeyPtrs(leaked + [s]) == KeyPtrs(leaked) + {s.key}
    ensures ValuePtrs(leaked + [s]) == ValuePtrs(leaked) + {s.value}
    ensures DistinctPtrs(leaked) && s.key !in KeyPtrs(leaked) && s.value !in ValuePtrs(leaked) ==>
      DistinctPtrs(leaked + [s])
  {
    SeqsAppend(leaked, s);
    ElemsAppend(KeySeq(leaked), s.key);
    ElemsAppend(ValueSeq(leaked), s.value);
  }

  function GetOutcome(f: Floats, m: Space, cmd: Command, now: int): (Reply, Space) {
    match cmd case Get(k) => GetSpec(f, m, k, now) case _ => (NoReply, m)
  }

  function SetOutcome(m: Space, cmd: Command, now: int): (Reply, Space) {
    match cmd case Set(c) => SetSpec(m, c, now) case _ => (NoReply, m)
  }

  // ---- meanings ------------------------------------------------------------------------------------

  /** A parsed message, by command name, and the clock reading when it is executed. */
  datatype Request = GetRequest(args: seq<Tree>, now: int) | SetRequest(args: seq<Tree>, now: int)

  function GetMeaning(args: seq<Tree>): Command {
    if |args| == 1 && args[0].Bulk? then Get(args[0].data) else Invalid
  }

  ghost function SetMeaning(args: seq<Tree>): (cmd: Command)
    ensures cmd.Set? <==> exists c :: Spells(args, c)
    ensures cmd.Set? ==> Spells(args, cmd.c)
    ensures !cmd.Get?
  {
    if exists c :: Spells(args, c) then var c :| Spells(args, c); Set(c) else Invalid
  }

  ghost function MeaningOf(r: Request): Timed {
    match r
    case GetRequest(args, now) => Timed(GetMeaning(args), now)
    case SetRequest(args, now) => Timed(SetMeaning(args), now)
  }

  ghost function RunOf(requests: seq<Request>): seq<Timed> {
    seq(|requests|, i requires 0 <= i < |requests| => MeaningOf(requests[i]))
  }

  lemma RunOfAppend(requests: seq<Request>, i: nat)
    requires i < |requests|
    ensures RunOf(requests[..i + 1]) == RunOf(requests[..i]) + [MeaningOf(requests[i])]
  {
  }

  lemma LeakCountAppend(run: seq<Timed>, t: Timed)
    ensures LeakCount(run + [t]) == LeakCount(run) + LeakOf(t.cmd)
  {
    assert (run + [t])[..|run|] == run;
  }

  /** The bulk string in a slot of the parsed command. */
  function Slotted(args: seq<Tree>, slot: Option<nat>): Bytes {
    if slot.Some? && slot.value < |args| && args[slot.value].Bulk? then args[slot.value].data else []
  }

  lemma SlotTexts(args: seq<Tree>, c: SetCommand)
    requires Spells(args, c)
    ensures var s := SlotsOf(c);
      && Slotted(args, s[5]) == c.key && Slotted(args, s[4]) == c.value
      && Stated(c, Slotted(args, s[3]), Slotted(args, s[1]), Slotted(args, s[0]))
  {
  }

  /** The parser's result: the state and the texts in the slots. */
  datatype ParsedSet = ParsedSet(state: bv8, key: Bytes, value: Bytes, cond: Bytes, unit: Bytes, time: Bytes)

  predicate ParsedAs(p: ParsedSet, c: SetCommand) {
    p.state == StateOf(c) && p.key == c.key && p.value == c.value && Stated(c, p.cond, p.unit, p.time)
  }

  /** Runs the parser and reads the slots it filled. */
  method ParseSet(args: seq<Tree>) returns (valid: bool, parsed: ParsedSet)
    ensures valid <==> SetMeaning(args).Set?
    ensures valid ==> ParsedAs(parsed, SetMeaning(args).c)
  {
    var p := new Parser(args);
    valid := p.ValidateSetCmd();
    parsed := ParsedSet(p.state, [], [], [], [], []);
    if valid {
      SlotTexts(args, SetMeaning(args).c);
      parsed := ParsedSet(p.state, Slotted(args, p.slots[5]), Slotted(args, p.slots[4]), Slotted(args, p.slots[3]),
                          Slotted(args, p.slots[1]), Slotted(args, p.slots[0]));
    }
  }

  /** The option texts filed for command `c`. */
  predicate Stated(c: SetCommand, cond: Bytes, unit: Bytes, time: Bytes) {
    && (c.cond.Some? ==> GetOptionType(cond) == c.cond.value && IsCond(c.cond.value))
    && (c.ttl.Some? ==>
          GetOptionType(unit) == c.ttl.value.unit && IsTtl(c.ttl.value.unit)
          && time == c.ttl.value.digits && AllDigits(time))
  }

  lemma StateBits(c: SetCommand)
    ensures StateOf(c) == 0x70 <==> c.cond == None && !c.get && c.ttl == None
    ensures StateOf(c) == 0x74 <==> c.cond == None && c.get && c.ttl == None
    ensures StateOf(c) == 0x78 <==> c.cond.Some? && !c.get && c.ttl == None
    ensures StateOf(c) == 0x7C <==> c.cond.Some? && c.get && c.ttl == None
    ensures StateOf(c) == 0x73 <==> c.cond == None && !c.get && c.ttl.Some?
  {
  }

  /** The specification, shape by shape. */
  lemma SpecByShape(m: Space, c: SetCommand, now: int)
    requires c.key != [] && c.value != []
    ensures var e, s := Entry(c.value, now, 0, 0), SetSpec(m, c, now);
      var had := if c.key in m then Reply(Encode(Bulk(m[c.key].value))) else Reply(NIL);
      && (!Supported(c) ==> s == (NoReply, m))
      && (c.ttl == None && c.cond == None ==>
            s == (if c.get then had else Reply(OK), m[c.key := e]))
      && (c.ttl == None && c.cond.Some? ==>
            var ok := (c.cond.value == NX) == (c.key !in m);
            s == (if c.get then had else Reply(if ok then OK else NIL), if ok then m[c.key := e] else m))
      && (Supported(c) && c.ttl.Some? && AllDigits(c.ttl.value.digits) ==>
            var o, t := c.ttl.value.unit, DecVal(c.ttl.value.digits) % TWO32;
            s == (Reply(OK), m[c.key := if o == EX || o == EXAT then e.(ex := t) else e.(px := t)]))
  {
  }
}
