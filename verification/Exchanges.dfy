/** What a connection is sent for each command, as bytes: message `b` of a stream is answered as its
    literal words promise, in the keyspace that the messages before it leave. */
module Exchanges {
  import opened Base
  import opened Resp
  import opened SetParser
  import opened Keyspace
  import opened Commands
  import opened ConfigGet
  import opened Outcomes
  import opened Dialogue
  import opened Requests
  import Echo
  import Wire

  /** The keyspace when message `b` is executed. */
  ghost function SpaceAt(e: Settings, m: Space, ms: seq<Message>, b: nat): Space
    requires b <= |ms|
  {
    AfterAll(Redis(e), m, TreesIn(ms)[..b], 0)
  }

  /** What is sent for message `b`. */
  ghost function SentFor(e: Settings, m: Space, ms: seq<Message>, tail: Bytes, b: nat): Option<Bytes> {
    var sent := Conversation(Redis(e), m, Stream(ms) + tail, 0).sent;
    if b < |sent| then Some(sent[b]) else None
  }

  lemma SentIsAnswer(e: Settings, m: Space, ms: seq<Message>, tail: Bytes, b: nat)
    requires AllReadable(Redis(e), ms) && b < |ms|
    ensures SentFor(e, m, ms, tail, b) == Some(Answer(e, SpaceAt(e, m, ms, b), ms[b].t, b))
  {
    SentAt(Redis(e), m, ms, tail, b);
  }

  /** A command line that stands in one array. */
  lemma LineFound(line: seq<Tree>)
    requires line != [] && line[0].Bulk?
    ensures Line([Arr(line)], 0) == Some(line)
  {
    assert Line([Arr(line)], 0) == Line(line, 1);
  }

  // ---- ECHO ------------------------------------------------------------------------------------

  lemma EchoAnswer(e: Settings, m: Space, args: seq<Tree>, k: nat)
    ensures Answer(e, m, Arr([Bulk([69, 67, 72, 79])] + args), k) == Sent(EchoReply(e.absent, args))
  {
    var line := [Bulk([69, 67, 72, 79])] + args;
    LineFound(line);
    CommandNames([69, 67, 72, 79]);
    assert line[1..] == args;
  }

  lemma {:induction false} EncodingNulFree(ts: seq<Tree>)
    requires Echo.AllPrintable(ts)
    ensures NulFree(EncodeAll(ts))
  {
    if ts != [] {
      EncodingNulFree(ts[1..]);
      assert Echo.Printable(ts[0]);
      match ts[0] { case Arr(kids) => EncodingNulFree(kids); case Bulk(_) => }
    }
  }

  /** `ECHO` with printable arguments: they come back as they were sent, a NUL behind them, when they
      are faithful, and with a text like `(null)` for a missing tail only then. */
  lemma {:induction false} EchoSent(e: Settings, m: Space, ms: seq<Message>, tail: Bytes, b: nat, args: seq<Tree>)
    requires AllReadable(Redis(e), ms) && b < |ms|
    requires args != [] && Echo.AllPrintable(args) && ms[b].t == Arr([Bulk([69, 67, 72, 79])] + args)
    ensures Echo.Faithful(args, false) ==> SentFor(e, m, ms, tail, b) == Some(EncodeAll(args) + [0])
    ensures Echo.Recognisable(e.absent) && SentFor(e, m, ms, tail, b) == Some(EncodeAll(args) + [0]) ==>
      Echo.Faithful(args, false)
  {
    SentIsAnswer(e, m, ms, tail, b);
    EchoAnswer(e, SpaceAt(e, m, ms, b), args, b);
    EchoText(e.absent, args);
  }

  /** `ECHO` without arguments is sent the error text. */
  lemma {:induction false} EchoRefused(e: Settings, m: Space, ms: seq<Message>, tail: Bytes, b: nat)
    requires AllReadable(Redis(e), ms) && b < |ms| && ms[b].t == Arr([Bulk([69, 67, 72, 79])])
    ensures SentFor(e, m, ms, tail, b) == Some(Sent(NoReply))
  {
    SentIsAnswer(e, m, ms, tail, b);
    assert [Bulk([69, 67, 72, 79])] + [] == [Bulk([69, 67, 72, 79])];
    EchoAnswer(e, SpaceAt(e, m, ms, b), [], b);
  }

  lemma EchoText(absent: Bytes, args: seq<Tree>)
    requires args != [] && Echo.AllPrintable(args)
    ensures Echo.Faithful(args, false) ==> Sent(EchoReply(absent, args)) == EncodeAll(args) + [0]
    ensures Echo.Recognisable(absent) && Sent(EchoReply(absent, args)) == EncodeAll(args) + [0] ==>
      Echo.Faithful(args, false)
  {
    EncodingNulFree(args);
    Echo.FaithfulText(args, absent);
    if !Echo.Faithful(args, false) && Echo.Recognisable(absent) {
      Echo.UnfaithfulText(args, absent);
      CutStarts(Echo.Output(args, 0, absent).value, EncodeAll(args));
    }
  }

  lemma CutStarts(text: Bytes, enc: Bytes)
    requires !StartsWith(text, enc)
    ensures CStr(text) + [0] != enc + [0]
  {
    var a, b := CStr(text) + [0], enc + [0];
    assert a[..|a| - 1] == CStr(text) && b[..|b| - 1] == enc;
  }

  // ---- SET and GET -------------------------------------------------------------------------------

  /** SET in a stream does what it does on its arguments. */
  lemma {:induction false} SetSent(e: Settings, m: Space, ms: seq<Message>, tail: Bytes, b: nat, args: seq<Tree>)
    requires AllReadable(Redis(e), ms) && b < |ms| && ms[b].t == Arr([Bulk([83, 69, 84])] + args)
    ensures var (reply, after) := SetStep(e.f, SpaceAt(e, m, ms, b), args, e.clock(b));
      SentFor(e, m, ms, tail, b) == Some(Sent(reply)) && SpaceAt(e, m, ms, b + 1) == after
  {
    SentIsAnswer(e, m, ms, tail, b);
    NextSpace(e, m, ms, b);
    var line := [Bulk([83, 69, 84])] + args;
    LineFound(line);
    CommandNames([83, 69, 84]);
    assert line[1..] == args;
  }

  lemma NextSpace(e: Settings, m: Space, ms: seq<Message>, b: nat)
    requires b < |ms|
    ensures SpaceAt(e, m, ms, b + 1) == After(e, SpaceAt(e, m, ms, b), ms[b].t, b)
  {
    var ts := TreesIn(ms);
    assert ts[..b + 1][..b] == ts[..b] && ts[..b + 1][b] == ms[b].t;
  }

  /** GET in a stream does what it does on its key. */
  lemma {:induction false} GetSent(e: Settings, m: Space, ms: seq<Message>, tail: Bytes, b: nat, key: Bytes)
    requires AllReadable(Redis(e), ms) && b < |ms| && ms[b].t == Arr([Bulk([71, 69, 84]), Bulk(key)])
    ensures var (reply, after) := GetStep(e.f, SpaceAt(e, m, ms, b), key, e.clock(b));
      SentFor(e, m, ms, tail, b) == Some(Sent(reply)) && SpaceAt(e, m, ms, b + 1) == after
  {
    SentIsAnswer(e, m, ms, tail, b);
    NextSpace(e, m, ms, b);
    GetKeyed(key);
  }

  // ---- SET with GET --------------------------------------------------------------------------------

  /** The three ways to ask for the old value. */
  predicate AsksOld(options: seq<Tree>) {
    || options == [Bulk([71, 69, 84])]
    || options == [Bulk([78, 88]), Bulk([71, 69, 84])]
    || options == [Bulk([88, 88]), Bulk([71, 69, 84])]
  }

  lemma OldReply(f: Floats, m: Space, key: Bytes, newer: Bytes, options: seq<Tree>, now: int)
    requires AsksOld(options) && key != [] && newer != []
    ensures SetStep(f, m, [Bulk(key), Bulk(newer)] + options, now).0 == Had(m, key)
  {
    var args := [Bulk(key), Bulk(newer)] + options;
    if options == [Bulk([71, 69, 84])] {
      assert args == [Bulk(key), Bulk(newer), Bulk([71, 69, 84])];
      SetGet(f, m, key, newer, now);
    } else if options == [Bulk([78, 88]), Bulk([71, 69, 84])] {
      assert args == [Bulk(key), Bulk(newer), Bulk([78, 88]), Bulk([71, 69, 84])];
      SetNxGet(f, m, key, newer, now);
    } else {
      assert args == [Bulk(key), Bulk(newer), Bulk([88, 88]), Bulk([71, 69, 84])];
      SetXxGet(f, m, key, newer, now);
    }
  }

  lemma Uncut(s: Bytes, head: Bytes, v: Bytes, body: Bytes)
    requires body == v + [13, 10] && s == head + body + [0]
    ensures s == head + v + [13, 10, 0]
  {
    assert |s| == |head| + |v| + 3;
    assert forall i :: 0 <= i < |head| ==> s[i] == head[i];
    assert forall i :: 0 <= i < |body| ==> s[|head| + i] == body[i];
  }

  lemma HeadBytes(n: nat)
    ensures Wire.BulkHead(n) == [36] + Dec(n) + [13, 10]
  {
  }

  lemma HeadAndBody(s: Bytes, value: Bytes, head: Bytes)
    requires NulFree(value) && head == [36] + Dec(|value|) + [13, 10] && s == head + CStr(value + CRLF) + [0]
    ensures s == head + value + [13, 10, 0]
  {
    NulFreeParts(value, CRLF);
    Uncut(s, head, value, CStr(value + CRLF));
  }

  lemma BulkSent(value: Bytes)
    requires NulFree(value)
    ensures Sent(BulkReply(value)) == [36] + Dec(|value|) + [13, 10] + value + [13, 10, 0]
  {
    var head := [36] + Dec(|value|) + [13, 10];
    HeadBytes(|value|);
    Wire.SentBulk(value);
    HeadAndBody(Sent(BulkReply(value)), value, head);
  }

  lemma NulFreeParts(a: Bytes, b: Bytes)
    requires NulFree(a) && NulFree(b)
    ensures NulFree(a + b) && CStr(a + b) == a + b
  {
  }

  lemma NilSent()
    ensures Sent(Nil()) == [36, 45, 49, 13, 10, 0]
  {
    assert NulFree([36, 45, 49, 13, 10]);
  }

  /** The value that message `a` writes is what message `b` is sent when it writes the key again and
      asks for the old value. */
  lemma {:induction false} OldIsSent(e: Settings, m: Space, ms: seq<Message>, tail: Bytes, a: nat, b: nat, key: Bytes,
                                     value: Bytes, newer: Bytes, options: seq<Tree>)
    requires AllReadable(Redis(e), ms) && a < b < |ms| && key != [] && value != [] && newer != []
    requires ms[a].t == Arr([Bulk([83, 69, 84]), Bulk(key), Bulk(value)])
    requires AsksOld(options) && ms[b].t == Arr([Bulk([83, 69, 84])] + ([Bulk(key), Bulk(newer)] + options))
    requires NulFree(value) && forall i :: a < i < b ==> Spares(ms[i].t, key)
    ensures SentFor(e, m, ms, tail, b) == Some([36] + Dec(|value|) + [13, 10] + value + [13, 10, 0])
  {
    SetSent(e, m, ms, tail, b, [Bulk(key), Bulk(newer)] + options);
    EntryKept(e, m, TreesIn(ms)[..b], 0, a, key, value);
    OldReply(e.f, SpaceAt(e, m, ms, b), key, newer, options, e.clock(b));
    BulkSent(value);
  }

  lemma {:induction false} KeyAbsent(e: Settings, m: Space, ts: seq<Tree>, k: nat, key: Bytes)
    requires key !in m && forall i :: 0 <= i < |ts| ==> Spares(ts[i], key)
    ensures key !in AfterAll(Redis(e), m, ts, k)
    decreases |ts|
  {
    SpaceOfRun(e, m, ts, k);
    StaysAbsent(e.f, m, Commanded(e, ts, k), key);
  }

  /** On a key that no message has written it is sent nil. */
  lemma {:induction false} NoOldIsSent(e: Settings, m: Space, ms: seq<Message>, tail: Bytes, b: nat, key: Bytes,
                                       newer: Bytes, options: seq<Tree>)
    requires AllReadable(Redis(e), ms) && b < |ms| && key != [] && newer != [] && key !in m
    requires AsksOld(options) && ms[b].t == Arr([Bulk([83, 69, 84])] + ([Bulk(key), Bulk(newer)] + options))
    requires forall i :: 0 <= i < b ==> Spares(ms[i].t, key)
    ensures SentFor(e, m, ms, tail, b) == Some([36, 45, 49, 13, 10, 0])
  {
    SetSent(e, m, ms, tail, b, [Bulk(key), Bulk(newer)] + options);
    KeyAbsent(e, m, TreesIn(ms)[..b], 0, key);
    OldReply(e.f, SpaceAt(e, m, ms, b), key, newer, options, e.clock(b));
    NilSent();
  }

  // ---- a TTL over a connection -----------------------------------------------------------------------

  /** The entry is there as it was written, or is dead by the time `until`. */
  predicate ThereOrDead(f: Floats, m: Space, key: Bytes, entry: Entry, until: int) {
    if key in m then m[key] == entry else Dead(f, until, entry)
  }

  lemma StillThereOrDead(f: Floats, m: Space, cmd: Command, now: int, key: Bytes, entry: Entry, until: int)
    requires Rounding(f) && now <= until && ThereOrDead(f, m, key, entry, until) && !(cmd.Set? && cmd.c.key == key)
    ensures ThereOrDead(f, Step(f, m, cmd, now).1, key, entry, until)
  {
    if Dead(f, now, entry) { DeadForGood(f, now, until, entry); }
  }

  lemma WrittenAfter(e: Settings, m: Space, t: Tree, k: nat, c: SetCommand, until: int)
    requires KeyedBy(t) == Set(c) && Stores(c) && c.cond == None
    ensures ThereOrDead(e.f, After(e, m, t, k), c.key, Written(c, e.clock(k)), until)
  {
  }

  lemma StillAfter(e: Settings, m: Space, t: Tree, k: nat, key: Bytes, entry: Entry, until: int)
    requires Rounding(e.f) && e.clock(k) <= until && ThereOrDead(e.f, m, key, entry, until) && Spares(t, key)
    ensures ThereOrDead(e.f, After(e, m, t, k), key, entry, until)
  {
    StillThereOrDead(e.f, m, KeyedBy(t), e.clock(k), key, entry, until);
  }

  lemma KeptFollowing(p: Protocol, e: Settings, m: Space, ts: seq<Tree>, a: nat, h: Space -> bool)
    requires Follows(p, e) && a < |ts| && h(After(e, AfterAll(p, m, ts[..a], 0), ts[a], a))
    requires forall i, n :: a < i < |ts| && h(n) ==> h(After(e, n, ts[i], i))
    ensures h(AfterAll(p, m, ts, 0))
  {
    forall i, n | a < i < |ts| && h(n) ensures h(p.after(n, ts[i], i)) {
      assert p.after(n, ts[i], i) == After(e, n, ts[i], i);
    }
    KeptFromStart(p, m, ts, a, h);
  }

  /** What message `a` brings about and the later ones leave, for the keyspace of this server. */
  lemma KeptHere(e: Settings, m: Space, ts: seq<Tree>, a: nat, h: Space -> bool)
    requires a < |ts| && h(After(e, AfterAll(Redis(e), m, ts[..a], 0), ts[a], a))
    requires forall i, n :: a < i < |ts| && h(n) ==> h(After(e, n, ts[i], i))
    ensures h(AfterAll(Redis(e), m, ts, 0))
  {
    RedisFollows(e);
    KeptFollowing(Redis(e), e, m, ts, a, h);
  }

  lemma EntryUntil(e: Settings, m: Space, ts: seq<Tree>, a: nat, c: SetCommand, until: int)
    requires Rounding(e.f) && a < |ts| && KeyedBy(ts[a]) == Set(c) && Stores(c) && c.cond == None
    requires forall i :: a < i < |ts| ==> Spares(ts[i], c.key) && e.clock(i) <= until
    ensures ThereOrDead(e.f, AfterAll(Redis(e), m, ts, 0), c.key, Written(c, e.clock(a)), until)
  {
    var key, entry := c.key, Written(c, e.clock(a));
    WrittenAfter(e, AfterAll(Redis(e), m, ts[..a], 0), ts[a], a, c, until);
    forall i, n | a < i < |ts| && ThereOrDead(e.f, n, key, entry, until)
      ensures ThereOrDead(e.f, After(e, n, ts[i], i), key, entry, until)
    {
      StillAfter(e, n, ts[i], i, key, entry, until);
    }
    KeptHere(e, m, ts, a, n => ThereOrDead(e.f, n, key, entry, until));
  }

  lemma GetThereOrDead(f: Floats, m: Space, c: SetCommand, time: int, later: int)
    requires c.key != [] && ThereOrDead(f, m, c.key, Written(c, time), later)
    ensures GetStep(f, m, c.key, later).0 == if PastTtl(f, c, time, later) then Nil() else BulkReply(c.value)
  {
    PastIsDead(f, c, time, later);
  }

  /** Message `a` is a SET without NX and XX, message `b` a GET of its key, and no message between
      them writes the key: the GET is sent the value until the TTL is over, and nil from then on. */
  lemma {:induction false} LastWriteIsSent(e: Settings, m: Space, ms: seq<Message>, tail: Bytes, a: nat, b: nat,
                                           c: SetCommand)
    requires AllReadable(Redis(e), ms) && Rounding(e.f) && a < b < |ms|
    requires KeyedBy(ms[a].t) == Set(c) && Stores(c) && c.cond == None
    requires ms[b].t == Arr([Bulk([71, 69, 84]), Bulk(c.key)])
    requires forall i :: a < i < b ==> Spares(ms[i].t, c.key) && e.clock(i) <= e.clock(b)
    ensures SentFor(e, m, ms, tail, b)
      == Some(Sent(if PastTtl(e.f, c, e.clock(a), e.clock(b)) then Nil() else BulkReply(c.value)))
  {
    EntryUntil(e, m, TreesIn(ms)[..b], a, c, e.clock(b));
    GetSent(e, m, ms, tail, b, c.key);
    GetThereOrDead(e.f, SpaceAt(e, m, ms, b), c, e.clock(a), e.clock(b));
  }

  lemma TtlKeyed(key: Bytes, value: Bytes, word: Bytes, digits: Bytes)
    requires (Seconds(word) || Milliseconds(word)) && digits != [] && AllDigits(digits)
    ensures KeyedBy(Arr([Bulk([83, 69, 84]), Bulk(key), Bulk(value), Bulk(word), Bulk(digits)]))
      == Set(SetCommand(key, value, None, false, Some(Ttl(GetOptionType(word), digits))))
  {
    var line := [Bulk([83, 69, 84]), Bulk(key), Bulk(value), Bulk(word), Bulk(digits)];
    LineFound(line);
    CommandNames([83, 69, 84]);
    assert line[1..] == [Bulk(key), Bulk(value), Bulk(word), Bulk(digits)];
    TtlMeans(key, value, word, digits);
  }

  lemma PastExactly(f: Floats, c: SetCommand, word: Bytes, n: nat, now: int, later: int)
    requires Exact(f) && (Seconds(word) || Milliseconds(word)) && c.ttl.Some? && c.ttl.value.unit == GetOptionType(word)
    requires AllDigits(c.ttl.value.digits) && 0 < n == DecVal(c.ttl.value.digits) % 4_294_967_296
    ensures PastTtl(f, c, now, later) <==> later - now > n * (if Seconds(word) then 1_000_000_000 else 1_000_000)
  {
    WordUnits(word);
    ExactTimes(f, now, later, n);
  }

  lemma ExactRounds(f: Floats)
    requires Exact(f)
    ensures Rounding(f)
  {
  }

  /** In bytes and nanoseconds: `SET key value EX n`, and PX, EXAT and PXAT likewise, and later
      `GET key`. */
  lemma {:induction false} TtlIsSent(e: Settings, m: Space, ms: seq<Message>, tail: Bytes, a: nat, b: nat, key: Bytes,
                                     value: Bytes, word: Bytes, digits: Bytes, n: nat)
    requires AllReadable(Redis(e), ms) && Exact(e.f) && a < b < |ms| && key != [] && value != [] && NulFree(value)
    requires Seconds(word) || Milliseconds(word)
    requires digits != [] && AllDigits(digits) && 0 < n == DecVal(digits) % 4_294_967_296
    requires ms[a].t == Arr([Bulk([83, 69, 84]), Bulk(key), Bulk(value), Bulk(word), Bulk(digits)])
    requires ms[b].t == Arr([Bulk([71, 69, 84]), Bulk(key)])
    requires forall i :: a < i < b ==> Spares(ms[i].t, key) && e.clock(i) <= e.clock(b)
    ensures SentFor(e, m, ms, tail, b) == Some(
      if e.clock(b) - e.clock(a) > n * (if Seconds(word) then 1_000_000_000 else 1_000_000) then [36, 45, 49, 13, 10, 0]
      else [36] + Dec(|value|) + [13, 10] + value + [13, 10, 0])
  {
    var c := SetCommand(key, value, None, false, Some(Ttl(GetOptionType(word), digits)));
    TtlKeyed(key, value, word, digits);
    ExactRounds(e.f);
    LastWriteIsSent(e, m, ms, tail, a, b, c);
    PastExactly(e.f, c, word, n, e.clock(a), e.clock(b));
    BulkSent(value);
    NilSent();
  }

  // ---- CONFIG GET ------------------------------------------------------------------------------------

  lemma {:induction false} ScanOne(glob: Matcher, p: Bytes, pairs: seq<Pair>, j: nat)
    requires forall i :: 0 <= i < |pairs| ==> (glob(p, pairs[i].key) <==> i == j)
    ensures Scan(glob, p, pairs, []) == if j < |pairs| then [pairs[j]] else []
    decreases |pairs|
  {
    if pairs != [] { ScanOne(glob, p, pairs[..|pairs| - 1], j); }
  }

  lemma ConfigAnswer(e: Settings, m: Space, args: seq<Tree>, k: nat)
    ensures Answer(e, m, Arr([Bulk([67, 79, 78, 70, 73, 71])] + args), k) == Sent(ConfigReply(e, args))
  {
    var line := [Bulk([67, 79, 78, 70, 73, 71])] + args;
    LineFound(line);
    CommandNames([67, 79, 78, 70, 73, 71]);
    assert line[1..] == args;
  }

  lemma ScanPattern(glob: Matcher, patterns: seq<Tree>, pairs: seq<Pair>, pattern: Bytes, j: nat)
    requires patterns == [Bulk(pattern)]
    requires forall i :: 0 <= i < |pairs| ==> (glob(CStr(pattern), pairs[i].key) <==> i == j)
    ensures ScanAll(glob, patterns, pairs) == if j < |pairs| then [pairs[j]] else []
  {
    assert patterns[..0] == [];
    ScanOne(glob, CStr(pattern), pairs, j);
  }

  lemma GetNamed()
    ensures Named(GET_NAME, [71, 69, 84])
  {
  }

  lemma ConfigFinds(e: Settings, args: seq<Tree>, pattern: Bytes, j: nat)
    requires e.config != [] && args == [Bulk([71, 69, 84]), Bulk(pattern)]
    requires forall i :: 0 <= i < |e.config| ==> (e.glob(CStr(pattern), e.config[i].key) <==> i == j)
    ensures ConfigReply(e, args) == ConfReply(if j < |e.config| then [e.config[j]] else [], false)
  {
    assert args[1..] == [Bulk(pattern)];
    GetNamed();
    ScanPattern(e.glob, args[1..], e.config, pattern, j);
  }

  lemma PairText(p: Pair, kids: seq<Tree>)
    requires PairNulFree(p) && kids == [Bulk(p.key), Bulk(p.value)]
    ensures NulFree(Encode(Arr(kids)))
  {
    EncodedNulFree(p.key);
    EncodedNulFree(p.value);
    assert kids[1..] == [Bulk(p.value)] && kids[1..][1..] == [];
    assert EncodeAll(kids[1..]) == Encode(kids[1]) + [];
    NulFreeParts(Encode(kids[0]), EncodeAll(kids[1..]));
    NulFreeParts([ASTERISK] + Dec(2) + CRLF, EncodeAll(kids));
  }

  lemma PairSent(p: Pair, kids: seq<Tree>)
    requires PairNulFree(p) && kids == [Bulk(p.key), Bulk(p.value)]
    ensures Sent(ConfReply([p], false)) == Encode(Arr(kids)) + [0]
  {
    var l := [p];
    assert l[..0] == [];
    ReplyIsArray(l);
    assert Items(l) == kids;
    PairText(p, kids);
  }

  lemma NothingSent()
    ensures Sent(ConfReply([], false)) == [42, 48, 13, 10, 0]
  {
    assert NulFree([42, 48, 13, 10]);
  }

  /** `CONFIG GET` with a pattern that matches one configured key is sent that key and its value; with
      a pattern that matches none, the empty array. */
  lemma {:induction false} ConfigSent(e: Settings, m: Space, ms: seq<Message>, tail: Bytes, b: nat, pattern: Bytes,
                                      j: nat)
    requires AllReadable(Redis(e), ms) && b < |ms| && e.config != []
    requires ms[b].t == Arr([Bulk([67, 79, 78, 70, 73, 71])] + [Bulk([71, 69, 84]), Bulk(pattern)])
    requires forall i :: 0 <= i < |e.config| ==> (e.glob(CStr(pattern), e.config[i].key) <==> i == j)
    requires forall i :: 0 <= i < |e.config| ==> NulFree(e.config[i].key) && NulFree(e.config[i].value)
    ensures j < |e.config| ==>
      SentFor(e, m, ms, tail, b) == Some(Encode(Arr([Bulk(e.config[j].key), Bulk(e.config[j].value)])) + [0])
    ensures j >= |e.config| ==> SentFor(e, m, ms, tail, b) == Some([42, 48, 13, 10, 0])
  {
    var args := [Bulk([71, 69, 84]), Bulk(pattern)];
    SentIsAnswer(e, m, ms, tail, b);
    ConfigAnswer(e, SpaceAt(e, m, ms, b), args, b);
    ConfigFinds(e, args, pattern, j);
    if j < |e.config| {
      PairSent(e.config[j], [Bulk(e.config[j].key), Bulk(e.config[j].value)]);
    } else {
      NothingSent();
    }
  }

  /** The same for a configuration as `setup` makes it, byte for byte: `CONFIG GET dir`. */
  lemma {:induction false} ConfigDirSent(e: Settings, m: Space, ms: seq<Message>, tail: Bytes, b: nat, dir: Bytes,
                                         file: Bytes)
    requires AllReadable(Redis(e), ms) && b < |ms| && NulFree(dir) && NulFree(file)
    requires ms[b].t == Arr([Bulk([67, 79, 78, 70, 73, 71])] + [Bulk([71, 69, 84]), Bulk([100, 105, 114])])
    requires e.config == [Pair([100, 105, 114], dir), Pair([100, 98, 102, 105, 108, 101, 110, 97, 109, 101], file)]
    requires e.glob([100, 105, 114], [100, 105, 114])
    requires !e.glob([100, 105, 114], [100, 98, 102, 105, 108, 101, 110, 97, 109, 101])
    ensures SentFor(e, m, ms, tail, b) == Some(Encode(Arr([Bulk([100, 105, 114]), Bulk(dir)])) + [0])
  {
    ConfigSent(e, m, ms, tail, b, [100, 105, 114], 0);
  }

  /** Several patterns: the pairs of `ScanAll` as one array of keys and values, if and only if the
      count has at most seven digits. */
  lemma {:induction false} ConfigListSent(e: Settings, m: Space, ms: seq<Message>, tail: Bytes, b: nat,
                                          patterns: seq<Tree>)
    requires AllReadable(Redis(e), ms) && b < |ms| && e.config != [] && patterns != []
    requires ms[b].t == Arr([Bulk([67, 79, 78, 70, 73, 71])] + ([Bulk([71, 69, 84])] + patterns))
    requires forall i :: 0 <= i < |e.config| ==> NulFree(e.config[i].key) && NulFree(e.config[i].value)
    ensures var l := ScanAll(e.glob, patterns, e.config);
      if l == [] then SentFor(e, m, ms, tail, b) == Some([42, 48, 13, 10, 0])
      else SentFor(e, m, ms, tail, b) == Some(Encode(Arr(Items(l))) + [0]) <==> 2 * |l| < 10_000_000
  {
    var args := [Bulk([71, 69, 84])] + patterns;
    var l := ScanAll(e.glob, patterns, e.config);
    SentIsAnswer(e, m, ms, tail, b);
    ConfigAnswer(e, SpaceAt(e, m, ms, b), args, b);
    GetNamed();
    assert args[1..] == patterns;
    ListedNulFree(e.glob, patterns, e.config);
    if l == [] { NothingSent(); } else { ListSent(l); }
  }

  lemma {:induction false} ItemsNulFree(l: seq<Pair>)
    requires forall i :: 0 <= i < |l| ==> PairNulFree(l[i])
    ensures NulFree(ItemsText(l))
    decreases |l|
  {
    if l != [] {
      var p := l[|l| - 1];
      ItemsNulFree(l[..|l| - 1]);
      EncodedNulFree(p.key);
      EncodedNulFree(p.value);
    }
  }

  lemma TextSent(text: Bytes)
    requires NulFree(text)
    ensures Sent(Reply(text)) == text + [0]
  {
  }

  lemma ListNulFree(l: seq<Pair>)
    requires l != [] && forall i :: 0 <= i < |l| ==> PairNulFree(l[i])
    ensures NulFree(ConfReply(l, false).text)
  {
    ItemsNulFree(l);
    NulFreeParts([ASTERISK] + CountText(2 * |l|) + CRLF, ItemsText(l));
  }

  lemma ListSent(l: seq<Pair>)
    requires l != [] && forall i :: 0 <= i < |l| ==> PairNulFree(l[i])
    ensures Sent(ConfReply(l, false)) == Encode(Arr(Items(l))) + [0] <==> 2 * |l| < 10_000_000
  {
    ListNulFree(l);
    TextSent(ConfReply(l, false).text);
    ReplyIsArray(l);
    SameText(ConfReply(l, false).text, Encode(Arr(Items(l))));
  }

  lemma ListedNulFree(glob: Matcher, patterns: seq<Tree>, pairs: seq<Pair>)
    requires forall i :: 0 <= i < |pairs| ==> PairNulFree(pairs[i])
    ensures var l := ScanAll(glob, patterns, pairs);
      forall i :: 0 <= i < |l| ==> PairNulFree(l[i])
  {
    ListedExactly(glob, patterns, pairs);
  }

  lemma SameText(a: Bytes, b: Bytes)
    ensures a + [0] == b + [0] <==> a == b
  {
    assert (a + [0])[..|a|] == a && (b + [0])[..|b|] == b;
  }

  // ---- what is refused ---------------------------------------------------------------------------------

  /** `An error occured while parsing the command.` and a NUL. */
  lemma {:induction false} ErrorSent()
    ensures Sent(NoReply) == [
      65, 110, 32, 101, 114, 114, 111, 114, 32, 111, 99, 99, 117, 114, 101, 100, 32, 119, 104, 105, 108, 101, 32, 112,
      97, 114, 115, 105, 110, 103, 32, 116, 104, 101, 32, 99, 111, 109, 109, 97, 110, 100, 46, 0]
    ensures Sent(Ok()) == [43, 79, 75, 13, 10, 0]
  {
    assert NulFree([43, 79, 75, 13, 10]);
  }

  /** A GET without exactly one bulk string behind it is sent that text and changes nothing. */
  lemma {:induction false} GetRefused(e: Settings, m: Space, ms: seq<Message>, tail: Bytes, b: nat, args: seq<Tree>)
    requires AllReadable(Redis(e), ms) && b < |ms| && ms[b].t == Arr([Bulk([71, 69, 84])] + args)
    requires |args| != 1 || args[0].Arr?
    ensures SentFor(e, m, ms, tail, b) == Some(Sent(NoReply)) && SpaceAt(e, m, ms, b + 1) == SpaceAt(e, m, ms, b)
  {
    SentIsAnswer(e, m, ms, tail, b);
    NextSpace(e, m, ms, b);
    var line := [Bulk([71, 69, 84])] + args;
    LineFound(line);
    CommandNames([71, 69, 84]);
    assert line[1..] == args;
  }

  /** So is a SET whose arguments are none of the accepted forms, or are five or more. */
  lemma {:induction false} SetRefused(e: Settings, m: Space, ms: seq<Message>, tail: Bytes, b: nat, args: seq<Tree>)
    requires AllReadable(Redis(e), ms) && b < |ms| && ms[b].t == Arr([Bulk([83, 69, 84])] + args)
    requires !SetForm(args) || |args| >= 5
    ensures SentFor(e, m, ms, tail, b) == Some(Sent(NoReply)) && SpaceAt(e, m, ms, b + 1) == SpaceAt(e, m, ms, b)
  {
    SetSent(e, m, ms, tail, b, args);
    SetForms(args);
    if |args| >= 5 { FiveArguments(e.f, SpaceAt(e, m, ms, b), args, e.clock(b)); }
  }

  /** And so is a CONFIG that is not GET with at least one pattern. */
  lemma {:induction false} ConfigRefused(e: Settings, m: Space, ms: seq<Message>, tail: Bytes, b: nat, args: seq<Tree>)
    requires AllReadable(Redis(e), ms) && b < |ms| && ms[b].t == Arr([Bulk([67, 79, 78, 70, 73, 71])] + args)
    requires |args| < 2 || args[0].Arr? || !InEitherCase(CStr(args[0].data), [71, 69, 84], [103, 101, 116])
    ensures SentFor(e, m, ms, tail, b) == Some(Sent(NoReply))
  {
    SentIsAnswer(e, m, ms, tail, b);
    ConfigAnswer(e, SpaceAt(e, m, ms, b), args, b);
    if |args| >= 1 && args[0].Bulk? { NamedInEitherCase(GET_NAME, [103, 101, 116], args[0].data); }
  }
}
