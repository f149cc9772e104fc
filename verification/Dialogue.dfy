/** A connection as bytes in and replies out, for any way to read messages and to answer them. */
module Dialogue {
  import opened Base
  import opened Resp
  import opened Leftovers
  import opened Keyspace

  /** How a connection is served: the reading of a message behind its `*`, the array records its
      reading leaves when it fails, and for message number `k` on a keyspace the bytes sent, the
      keyspace left and the node pairs that stay allocated. */
  datatype Handlers = Handlers(read: Bytes -> Outcome<Tree>, begun: Bytes -> nat,
                               answer: (Space, Tree, nat) -> Bytes, after: (Space, Tree, nat) -> Space,
                               pairs: Tree -> nat)

  /** What is read is read from the front. */
  ghost predicate Consumes(p: Handlers) { forall s :: p.read(s).Got? ==> |p.read(s).rest| <= |s| }

  type Protocol = p: Handlers | Consumes(p)
    ghost witness Handlers(_ => Fail, _ => 0, (_, _, _) => [], (m, _, _) => m, _ => 0)

  /** Why a connection ends: the client closed it, a message was malformed, or it has a nil or
      empty part that this model has no nodes for. */
  datatype End = Closed | Malformed | Unmodelled

  /** What was sent, the keyspace left, the array records and the node pairs that stay allocated. */
  datatype Talk = Talk(sent: seq<Bytes>, space: Space, records: nat, pairs: nat, end: End)

  /** One talk before another. */
  function Then(a: Talk, b: Talk): Talk {
    Talk(a.sent + b.sent, b.space, a.records + b.records, a.pairs + b.pairs, b.end)
  }

  /** The part of message `k`. */
  function One(p: Protocol, m: Space, t: Tree, k: nat): Talk {
    Talk([p.answer(m, t, k)], p.after(m, t, k), Arrays(t), p.pairs(t), Closed)
  }

  /** The connection's loop on the bytes `s`, from message number `k` on: bytes other than `*` are
      skipped between messages. */
  function Conversation(p: Protocol, m: Space, s: Bytes, k: nat): Talk
    decreases |s|
  {
    if s == [] then Silence(m)
    else if s[0] != ASTERISK then Conversation(p, m, s[1..], k)
    else
      match p.read(s[1..])
      case Got(t, rest) =>
        assert p.read(s[1..]).Got?;
        Then(One(p, m, t, k), Conversation(p, p.after(m, t, k), rest, k + 1))
      case Fail => Talk([PARSE_ERROR + [0]], m, p.begun(s[1..]), 0, Malformed)
      case Outside => Talk([], m, 0, 0, Unmodelled)
  }

  /** Nothing said yet. */
  function Silence(m: Space): Talk { Talk([], m, 0, 0, Closed) }

  /** The loop, one turn at a time: a byte that is skipped, a message that is answered, or the last
      words. */
  lemma Turn(p: Protocol, m: Space, s: Bytes, k: nat)
    ensures s != [] && s[0] != ASTERISK ==>
      Conversation(p, m, s, k) == Then(Silence(m), Conversation(p, m, s[1..], k))
    ensures s != [] && s[0] == ASTERISK ==>
      match p.read(s[1..])
      case Got(t, rest) =>
        Conversation(p, m, s, k) == Then(One(p, m, t, k), Conversation(p, p.after(m, t, k), rest, k + 1))
      case Fail => Conversation(p, m, s, k) == Talk([PARSE_ERROR + [0]], m, p.begun(s[1..]), 0, Malformed)
      case Outside => Conversation(p, m, s, k) == Talk([], m, 0, 0, Unmodelled)
  {
  }

  // ---- messages one after another ----------------------------------------------------------------

  /** The keyspace the messages leave. */
  function AfterAll(p: Protocol, m: Space, ts: seq<Tree>, k: nat): Space {
    if ts == [] then m else
      var n := |ts| - 1;
      p.after(AfterAll(p, m, ts[..n], k), ts[n], k + n)
  }

  /** Each message is answered in the keyspace that those before it leave. */
  function Replies(p: Protocol, m: Space, ts: seq<Tree>, k: nat): seq<Bytes> {
    if ts == [] then [] else
      var n := |ts| - 1;
      Replies(p, m, ts[..n], k) + [p.answer(AfterAll(p, m, ts[..n], k), ts[n], k + n)]
  }

  function PairsIn(p: Protocol, ts: seq<Tree>): nat {
    if ts == [] then 0 else PairsIn(p, ts[..|ts| - 1]) + p.pairs(ts[|ts| - 1])
  }

  /** The part of the messages `ts`. */
  function All(p: Protocol, m: Space, ts: seq<Tree>, k: nat): Talk {
    Talk(Replies(p, m, ts, k), AfterAll(p, m, ts, k), ArraysIn(ts), PairsIn(p, ts), Closed)
  }

  /** A message as it stands in the stream: bytes to skip, and the array behind its `*`. */
  datatype Message = Message(junk: Bytes, body: Bytes, t: Tree)

  predicate NoAsterisk(s: Bytes) { ASTERISK !in s }

  /** The text is read as the tree, whatever stands behind it. */
  ghost predicate Readable(p: Protocol, w: Message) {
    NoAsterisk(w.junk) && forall tail: Bytes :: p.read(w.body + tail) == Got(w.t, tail)
  }

  ghost predicate AllReadable(p: Protocol, ms: seq<Message>) { forall i :: 0 <= i < |ms| ==> Readable(p, ms[i]) }

  /** The stream of one message, and of several. */
  function Framed(w: Message): Bytes { w.junk + [ASTERISK] + w.body }

  function Stream(ms: seq<Message>): Bytes {
    if ms == [] then [] else Stream(ms[..|ms| - 1]) + Framed(ms[|ms| - 1])
  }

  function TreesIn(ms: seq<Message>): seq<Tree> { seq(|ms|, i requires 0 <= i < |ms| => ms[i].t) }

  /** From the stream `s` come the messages `ts`, and then whatever comes from `tail`. */
  predicate Gives(p: Protocol, m: Space, s: Bytes, ts: seq<Tree>, tail: Bytes, k: nat) {
    Conversation(p, m, s, k) == Then(All(p, m, ts, k), Conversation(p, AfterAll(p, m, ts, k), tail, k + |ts|))
  }

  lemma {:induction false} JunkSkipped(p: Protocol, m: Space, junk: Bytes, s: Bytes, k: nat)
    requires NoAsterisk(junk)
    ensures Conversation(p, m, junk + s, k) == Conversation(p, m, s, k)
  {
    if junk == [] {
      assert junk + s == s;
    } else {
      assert (junk + s)[1..] == junk[1..] + s && junk[0] in junk;
      JunkSkipped(p, m, junk[1..], s, k);
    }
  }

  lemma Behind(w: Message, tail: Bytes)
    ensures var s := [ASTERISK] + (w.body + tail);
      Framed(w) + tail == w.junk + s && s[0] == ASTERISK && s[1..] == w.body + tail
  {
    Assoc(w.junk, [ASTERISK], w.body);
    Assoc(w.junk, [ASTERISK] + w.body, tail);
    Assoc([ASTERISK], w.body, tail);
  }

  lemma Assoc(a: Bytes, b: Bytes, c: Bytes)
    ensures a + b + c == a + (b + c)
  {
  }

  lemma OneMessage(p: Protocol, m: Space, w: Message, tail: Bytes, k: nat)
    requires Readable(p, w)
    ensures Conversation(p, m, Framed(w) + tail, k)
      == Then(One(p, m, w.t, k), Conversation(p, p.after(m, w.t, k), tail, k + 1))
  {
    Behind(w, tail);
    JunkSkipped(p, m, w.junk, [ASTERISK] + (w.body + tail), k);
  }

  /** A connection with one message. */
  lemma LoneMessage(p: Protocol, m: Space, w: Message, k: nat)
    requires Readable(p, w)
    ensures Conversation(p, m, Framed(w), k)
      == Talk([p.answer(m, w.t, k)], p.after(m, w.t, k), Arrays(w.t), p.pairs(w.t), Closed)
  {
    OneMessage(p, m, w, [], k);
    assert Framed(w) + [] == Framed(w);
  }

  lemma ThenThen(a: Talk, b: Talk, c: Talk)
    ensures Then(Then(a, b), c) == Then(a, Then(b, c))
  {
  }

  lemma FrontAndLast(us: seq<Tree>)
    requires us != []
    ensures ArraysIn(us) == ArraysIn(us[..|us| - 1]) + Arrays(us[|us| - 1])
  {
    assert us == us[..|us| - 1] + [us[|us| - 1]];
    ArraysAppend(us[..|us| - 1], us[|us| - 1]);
  }

  lemma AllMore(p: Protocol, m: Space, us: seq<Tree>, k: nat)
    requires us != []
    ensures var n := |us| - 1;
      All(p, m, us, k) == Then(All(p, m, us[..n], k), One(p, AfterAll(p, m, us[..n], k), us[n], k + n))
  {
    FrontAndLast(us);
  }

  lemma GivesMore(p: Protocol, m: Space, s: Bytes, ts: seq<Tree>, w: Message, tail: Bytes, k: nat)
    requires Readable(p, w) && Gives(p, m, s, ts, Framed(w) + tail, k)
    ensures Gives(p, m, s, ts + [w.t], tail, k)
  {
    var m', n, us := AfterAll(p, m, ts, k), k + |ts|, ts + [w.t];
    assert us[..|ts|] == ts;
    OneMessage(p, m', w, tail, n);
    AllMore(p, m, us, k);
    ThenThen(All(p, m, ts, k), One(p, m', w.t, n), Conversation(p, p.after(m', w.t, n), tail, n + 1));
  }

  lemma GivesNothing(p: Protocol, m: Space, s: Bytes, k: nat)
    ensures Gives(p, m, s, [], s, k)
  {
  }

  /** Messages are answered one by one, whatever stands between them, each in the keyspace that
      those before it leave; the rest of the stream goes on from the keyspace of all of them. */
  lemma {:induction false} Answered(p: Protocol, m: Space, ms: seq<Message>, tail: Bytes, k: nat)
    requires AllReadable(p, ms)
    ensures Gives(p, m, Stream(ms) + tail, TreesIn(ms), tail, k)
    decreases |ms|
  {
    if ms == [] {
      assert Stream(ms) + tail == tail;
      GivesNothing(p, m, tail, k);
    } else {
      var n := |ms| - 1;
      Answered(p, m, ms[..n], Framed(ms[n]) + tail, k);
      assert Stream(ms) + tail == Stream(ms[..n]) + (Framed(ms[n]) + tail);
      GivesMore(p, m, Stream(ms) + tail, TreesIn(ms[..n]), ms[n], tail, k);
      assert TreesIn(ms) == TreesIn(ms[..n]) + [ms[n].t];
    }
  }

  // ---- every stream ------------------------------------------------------------------------------

  /** The stream from its first `*` on. */
  function FromAsterisk(s: Bytes): (r: Bytes)
    ensures |r| <= |s| && (r != [] ==> r[0] == ASTERISK)
  {
    if s == [] || s[0] == ASTERISK then s else FromAsterisk(s[1..])
  }

  lemma {:induction false} Junk(s: Bytes) returns (junk: Bytes)
    ensures s == junk + FromAsterisk(s) && NoAsterisk(junk)
  {
    if s == [] || s[0] == ASTERISK {
      junk := [];
    } else {
      var more := Junk(s[1..]);
      junk := [s[0]] + more;
      assert s == [s[0]] + s[1..];
    }
  }

  /** No message can be read from here on. */
  predicate Final(p: Protocol, tail: Bytes) {
    FromAsterisk(tail) == [] || !p.read(FromAsterisk(tail)[1..]).Got?
  }

  /** How a connection ends. */
  function EndOf(p: Protocol, tail: Bytes): End {
    var r := FromAsterisk(tail);
    if r == [] then Closed else if p.read(r[1..]) == Fail then Malformed else Unmodelled
  }

  /** What a final tail is answered with, and the records it leaves. */
  function LastWords(p: Protocol, tail: Bytes): seq<Bytes> {
    if EndOf(p, tail) == Malformed then [PARSE_ERROR + [0]] else []
  }

  function LastRecords(p: Protocol, tail: Bytes): nat {
    if EndOf(p, tail) == Malformed then p.begun(FromAsterisk(tail)[1..]) else 0
  }

  lemma Ended(p: Protocol, m: Space, tail: Bytes, k: nat)
    requires Final(p, tail)
    ensures Conversation(p, m, tail, k) == Talk(LastWords(p, tail), m, LastRecords(p, tail), 0, EndOf(p, tail))
  {
    var junk := Junk(tail);
    JunkSkipped(p, m, junk, FromAsterisk(tail), k);
  }

  /** Message `i` is answered in the keyspace that the messages before it leave. */
  lemma {:induction false} ReplyAt(p: Protocol, m: Space, ts: seq<Tree>, k: nat, i: nat)
    requires i < |ts|
    ensures |Replies(p, m, ts, k)| == |ts|
    ensures Replies(p, m, ts, k)[i] == p.answer(AfterAll(p, m, ts[..i], k), ts[i], k + i)
    decreases |ts|
  {
    var n := |ts| - 1;
    if n > 0 { ReplyAt(p, m, ts[..n], k, if i < n then i else 0); }
    if i < n { assert ts[..n][..i] == ts[..i]; }
  }

  /** The same for what is sent for a stream that starts with messages. */
  lemma {:induction false} SentAt(p: Protocol, m: Space, ms: seq<Message>, tail: Bytes, i: nat)
    requires AllReadable(p, ms) && i < |ms|
    ensures var sent := Conversation(p, m, Stream(ms) + tail, 0).sent;
      i < |sent| && sent[i] == p.answer(AfterAll(p, m, TreesIn(ms)[..i], 0), ms[i].t, i)
  {
    Answered(p, m, ms, tail, 0);
    ReplyAt(p, m, TreesIn(ms), 0, i);
  }

  /** What message `a` brings about and no later message undoes holds afterwards. */
  lemma {:induction false} Kept(p: Protocol, m: Space, ts: seq<Tree>, k: nat, a: nat, h: Space -> bool)
    requires a < |ts| && h(p.after(AfterAll(p, m, ts[..a], k), ts[a], k + a))
    requires forall i, n :: a < i < |ts| && h(n) ==> h(p.after(n, ts[i], k + i))
    ensures h(AfterAll(p, m, ts, k))
    decreases |ts|
  {
    var n := |ts| - 1;
    if a < n {
      assert ts[..n][..a] == ts[..a];
      Kept(p, m, ts[..n], k, a, h);
    }
  }

  /** The same from the first message on. */
  lemma KeptFromStart(p: Protocol, m: Space, ts: seq<Tree>, a: nat, h: Space -> bool)
    requires a < |ts| && h(p.after(AfterAll(p, m, ts[..a], 0), ts[a], a))
    requires forall i, n :: a < i < |ts| && h(n) ==> h(p.after(n, ts[i], i))
    ensures h(AfterAll(p, m, ts, 0))
  {
    forall i, n | a < i < |ts| && h(n) ensures h(p.after(n, ts[i], 0 + i)) { assert h(p.after(n, ts[i], i)); }
    Kept(p, m, ts, 0, a, h);
  }

  /** What can be read can be read whatever follows. */
  ghost predicate ReadsByItself(p: Protocol) {
    forall s {:trigger p.read(s)} :: p.read(s).Got? ==>
      exists body: Bytes :: s == body + p.read(s).rest && Readable(p, Message([], body, p.read(s).value))
  }

  lemma {:induction false} StreamCons(w: Message, ms: seq<Message>)
    ensures Stream([w] + ms) == Framed(w) + Stream(ms)
  {
    var us := [w] + ms;
    var front, last := us[..|ms|], us[|ms|];
    assert Stream(us) == Stream(front) + Framed(last);
    if ms == [] {
      assert front == [] && last == w;
    } else {
      var n := |ms| - 1;
      assert front == [w] + ms[..n] && last == ms[n];
      StreamCons(w, ms[..n]);
      Assoc(Framed(w), Stream(ms[..n]), Framed(ms[n]));
    }
  }

  /** The first message of a stream that has one. */
  lemma FirstMessage(p: Protocol, s: Bytes) returns (w: Message, rest: Bytes)
    requires ReadsByItself(p) && !Final(p, s)
    ensures Readable(p, w) && s == Framed(w) + rest && |rest| < |s|
  {
    var r := FromAsterisk(s);
    var junk := Junk(s);
    var o := p.read(r[1..]);
    var body: Bytes :| r[1..] == body + o.rest && Readable(p, Message([], body, o.value));
    w, rest := Message(junk, body, o.value), o.rest;
    assert r == [ASTERISK] + r[1..];
    Behind(w, rest);
  }

  /** Every stream is a list of messages and a final tail. */
  lemma {:induction false} Split(p: Protocol, s: Bytes) returns (ms: seq<Message>, tail: Bytes)
    requires ReadsByItself(p)
    ensures s == Stream(ms) + tail && AllReadable(p, ms) && Final(p, tail)
    decreases |s|
  {
    if Final(p, s) {
      ms, tail := [], s;
    } else {
      var w, rest := FirstMessage(p, s);
      var later;
      later, tail := Split(p, rest);
      ms := [w] + later;
      StreamCons(w, later);
      Assoc(Framed(w), Stream(later), tail);
    }
  }

  /** What a connection is sent for any bytes at all: the stream is split into messages, whose
      replies follow each other in the keyspaces they leave, and a tail without a message, answered
      by the error text if it is malformed. */
  lemma {:induction false} WholeStream(p: Protocol, m: Space, s: Bytes, k: nat) returns (ms: seq<Message>, tail: Bytes)
    requires ReadsByItself(p)
    ensures s == Stream(ms) + tail && AllReadable(p, ms) && Final(p, tail)
    ensures var ts := TreesIn(ms);
      Conversation(p, m, s, k)
      == Talk(Replies(p, m, ts, k) + LastWords(p, tail), AfterAll(p, m, ts, k),
              ArraysIn(ts) + LastRecords(p, tail), PairsIn(p, ts), EndOf(p, tail))
  {
    ms, tail := Split(p, s);
    Answered(p, m, ms, tail, k);
    var ts := TreesIn(ms);
    Ended(p, AfterAll(p, m, ts, k), tail, k + |ts|);
  }
}
