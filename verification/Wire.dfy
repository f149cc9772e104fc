/** Reading one's writes over the wire: the keyspace, what the connection is sent, and the RESP
    reader together. */
module Wire {
  import opened Base
  import opened Resp
  import opened RespRoundTrip
  import opened SetParser
  import opened Keyspace

  /** A text without NUL in front stays in front. */
  lemma {:induction false} CStrBehind(h: Bytes, w: Bytes)
    requires NulFree(h)
    ensures CStr(h + w) == h + CStr(w)
  {
    if h == [] {
      assert h + w == w;
    } else {
      assert (h + w)[1..] == h[1..] + w;
      CStrBehind(h[1..], w);
    }
  }

  lemma {:induction false} CStrCut(v: Bytes, w: Bytes)
    requires !NulFree(v)
    ensures CStr(v + w) == CStr(v) && |CStr(v)| < |v|
  {
    if v[0] != 0 {
      assert (v + w)[1..] == v[1..] + w;
      CStrCut(v[1..], w);
    }
  }

  function BulkHead(n: nat): (h: Bytes)
    ensures NulFree(h)
  {
    [DOLLAR] + Dec(n) + CRLF
  }

  lemma HeadThenData(v: Bytes)
    ensures Encode(Bulk(v)) == BulkHead(|v|) + (v + CRLF)
  {
  }

  /** The header of a bulk string is sent whole, its data up to the first NUL. */
  lemma SentBulk(v: Bytes)
    ensures Sent(BulkReply(v)) == BulkHead(|v|) + CStr(v + CRLF) + [0]
  {
    HeadThenData(v);
    CStrBehind(BulkHead(|v|), v + CRLF);
  }

  lemma HeadRead(n: nat, r: Bytes)
    requires n <= PROTO_MAX_BULK_SIZE
    ensures var s := BulkHead(n) + r;
      s[0] == DOLLAR && ReadNode(s) == ReadBulk(s[1..]) && ReadSize(s[1..]) == Got(n, r)
  {
    var s := BulkHead(n) + r;
    assert s[1..] == Dec(n) + CRLF + r;
    DecFits(n);
    SizeReadBack(Dec(n), n, r);
  }

  /** A header with less behind it than it announces. */
  lemma CutShort(n: nat, data: Bytes, rest: Bytes)
    requires |data| < n <= PROTO_MAX_BULK_SIZE
    ensures var r := ReadNode(BulkHead(n) + (data + [0] + rest));
      r.Got? ==> |r.rest| < |[0] + rest|
  {
    HeadRead(n, data + [0] + rest);
  }

  lemma Regrouped(a: Bytes, b: Bytes, c: Bytes, d: Bytes)
    ensures a + b + c + d == a + (b + c + d)
  {
  }

  /** With the data cut, what is read for it cannot leave what was sent behind it. */
  lemma CutIsLost(v: Bytes, rest: Bytes)
    requires |v| <= PROTO_MAX_BULK_SIZE && !NulFree(v)
    ensures ReadNode(Sent(BulkReply(v)) + rest) != Got(Bulk(v), [0] + rest)
  {
    SentBulk(v);
    CStrCut(v, CRLF);
    CutShort(|v|, CStr(v), rest);
    Regrouped(BulkHead(|v|), CStr(v), [0], rest);
  }

  /** A value is read back from what is sent for it exactly when it has no NUL byte. */
  lemma {:induction false} ValueReadBack(v: Bytes, rest: Bytes)
    requires |v| <= PROTO_MAX_BULK_SIZE
    ensures ReadNode(Sent(BulkReply(v)) + rest) == Got(Bulk(v), [0] + rest) <==> NulFree(v)
  {
    if NulFree(v) {
      SentBulk(v);
      var w := Encode(Bulk(v));
      assert CStr(v + CRLF) == v + CRLF;
      assert Sent(BulkReply(v)) == w + [0];
      assert Sent(BulkReply(v)) + rest == w + ([0] + rest);
      RoundTrip(Bulk(v), [0] + rest);
    } else {
      CutIsLost(v, rest);
    }
  }

  lemma TooShort(n: nat, r: Bytes)
    requires n <= PROTO_MAX_BULK_SIZE && |r| < n + 2
    ensures ReadNode(BulkHead(n) + r) == Fail
  {
    HeadRead(n, r);
  }

  /** A value that starts with a NUL: its header is sent and then nothing, which is no message. */
  lemma {:induction false} NulValueLost(v: Bytes)
    requires 0 < |v| <= PROTO_MAX_BULK_SIZE && v[0] == 0
    ensures Sent(BulkReply(v)) == [DOLLAR] + Dec(|v|) + CRLF + [0]
    ensures ReadNode(Sent(BulkReply(v))) == Fail
  {
    SentBulk(v);
    CStrCut(v, CRLF);
    assert CStr(v) == [];
    assert Sent(BulkReply(v)) == BulkHead(|v|) + [0];
    TooShort(|v|, [0]);
  }

  lemma NilReadBack(rest: Bytes)
    ensures Sent(Reply(NIL)) == NIL + [0]
    ensures ReadSize((NIL + [0])[1..] + rest) == Got(-1, [0] + rest)
  {
    var head, tail := [MINUS, 49, CR, LF], [0] + rest;
    var s := (NIL + [0])[1..] + rest;
    assert NIL[1..] == head && (NIL + [0])[1..] == head + [0];
    assert s == head + tail;
    assert s[..4] == head && s[4..] == tail && !IsDigit(s[0]);
  }

  /** What a client reads after its write: until the TTL of that write is over, what it is sent for
      a GET is read as the value written, a NUL behind it, exactly when the value has no NUL itself;
      after that it starts with the nil header. */
  lemma {:induction false} ReadYourWrites(f: Floats, m: Space, c: SetCommand, now: int, run: seq<Timed>, later: int,
                                          rest: Bytes)
    requires Rounding(f) && Stores(c) && Allowed(m, c) && Leaves(run, c.key, later)
    requires |c.value| <= PROTO_MAX_BULK_SIZE
    ensures var sent := Sent(GetSpec(f, LazyState(f, SetSpec(m, c, now).1, run), c.key, later).0);
      if PastTtl(f, c, now, later) then sent[0] == DOLLAR && ReadSize(sent[1..] + rest) == Got(-1, [0] + rest)
      else ReadNode(sent + rest) == Got(Bulk(c.value), [0] + rest) <==> NulFree(c.value)
  {
    LastWriteDecides(f, m, c, now, run, later);
    if PastTtl(f, c, now, later) {
      NilReadBack(rest);
    } else {
      ValueReadBack(c.value, rest);
    }
  }
}
