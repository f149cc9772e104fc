/** Which command a message names, what is replied to it, and the connection of this server. */
module Requests {
  import opened Base
  import opened Resp
  import opened RespRoundTrip
  import opened Leftovers
  import opened SetParser
  import opened Keyspace
  import opened Commands
  import opened ConfigGet
  import opened Dialogue
  import Echo

  // ---- which command a message names ----------------------------------------------------------

  datatype RedisCommand = EchoCmd | SetCmd | GetCmd | ConfigCmd | NullCmd

  const ECHO_NAME: Bytes := [69, 67, 72, 79]
  const SET_NAME: Bytes := [83, 69, 84]
  const GET_NAME: Bytes := [71, 69, 84]
  const CONFIG_NAME: Bytes := [67, 79, 78, 70, 73, 71]

  function Lower(b: byte): byte { if 65 <= b <= 90 then b + 32 else b }

  /** The glob match of a name without glob characters: equality up to letter case. */
  predicate Named(name: Bytes, text: Bytes) {
    var t := CStr(text);
    |t| == |name| && forall i :: 0 <= i < |t| ==> Lower(t[i]) == Lower(name[i])
  }

  function CommandOf(text: Bytes): RedisCommand {
    if Named(ECHO_NAME, text) then EchoCmd
    else if Named(SET_NAME, text) then SetCmd
    else if Named(GET_NAME, text) then GetCmd
    else if Named(CONFIG_NAME, text) then ConfigCmd
    else NullCmd
  }

  /** Each byte is the one of either spelling. */
  predicate InEitherCase(text: Bytes, upper: Bytes, lower: Bytes)
    requires |upper| == |lower|
  {
    |text| == |upper| && forall i :: 0 <= i < |text| ==> text[i] == upper[i] || text[i] == lower[i]
  }

  lemma NamedInEitherCase(name: Bytes, lower: Bytes, text: Bytes)
    requires |name| == |lower| && forall i :: 0 <= i < |name| ==> 65 <= name[i] <= 90 && lower[i] == name[i] + 32
    ensures Named(name, text) <==> InEitherCase(CStr(text), name, lower)
  {
    var t := CStr(text);
    forall i | 0 <= i < |t| && |t| == |name|
      ensures Lower(t[i]) == Lower(name[i]) <==> t[i] == name[i] || t[i] == lower[i]
    {
    }
  }

  /** The four names, each in any mixture of capitals and small letters, up to a NUL. */
  lemma {:induction false} CommandNames(text: Bytes)
    ensures CommandOf(text) == EchoCmd <==> InEitherCase(CStr(text), [69, 67, 72, 79], [101, 99, 104, 111])
    ensures CommandOf(text) == SetCmd <==> InEitherCase(CStr(text), [83, 69, 84], [115, 101, 116])
    ensures CommandOf(text) == GetCmd <==> InEitherCase(CStr(text), [71, 69, 84], [103, 101, 116])
    ensures CommandOf(text) == ConfigCmd
      <==> InEitherCase(CStr(text), [67, 79, 78, 70, 73, 71], [99, 111, 110, 102, 105, 103])
  {
    NamedInEitherCase(ECHO_NAME, [101, 99, 104, 111], text);
    NamedInEitherCase(SET_NAME, [115, 101, 116], text);
    NamedInEitherCase(GET_NAME, [103, 101, 116], text);
    NamedInEitherCase(CONFIG_NAME, [99, 111, 110, 102, 105, 103], text);
  }

  /** The list whose first element names the command, reached from first element to first element.
      The arrays entered on the way are counted in one byte, and the count must be 1. */
  function Line(ts: seq<Tree>, entered: nat): (line: Option<seq<Tree>>)
    ensures line.Some? ==> line.value != [] && line.value[0].Bulk?
  {
    if ts == [] then None else
      match ts[0]
      case Bulk(_) => if entered % 256 == 1 then Some(ts) else None
      case Arr(kids) => Line(kids, entered + 1)
  }

  function Nested(depth: nat, t: Tree): Tree { if depth == 0 then t else Arr([Nested(depth - 1, t)]) }

  lemma {:induction false} NestedLine(depth: nat, kids: seq<Tree>, entered: nat)
    requires kids != [] && kids[0].Bulk?
    ensures Line([Nested(depth, Arr(kids))], entered) == if (entered + depth + 1) % 256 == 1 then Some(kids) else None
    decreases depth
  {
    if depth > 0 { NestedLine(depth - 1, kids, entered + 1); }
  }

  /** A command wrapped in further arrays is executed exactly when their number is a multiple of
      256. */
  lemma {:induction false} WrappedCommand(depth: nat, kids: seq<Tree>)
    requires kids != [] && kids[0].Bulk?
    ensures Line([Nested(depth, Arr(kids))], 0) == Some(kids) <==> depth % 256 == 0
  {
    NestedLine(depth, kids, 0);
  }

  // ---- the reply to one message ------------------------------------------------------------------

  /** What the connection's code takes from outside: float arithmetic, the clock reading of each
      message, the text for a NULL string, the glob match and the configuration. */
  datatype Settings = Settings(f: Floats, clock: nat -> int, absent: Bytes, glob: Matcher, config: seq<Pair>)

  function EchoReply(absent: Bytes, args: seq<Tree>): Reply {
    match Echo.Output(args, 0, absent) case None => NoReply case Some(text) => Reply(text)
  }

  /** CONFIG with its one supported subcommand. */
  function ConfigReply(e: Settings, args: seq<Tree>): Reply {
    if args == [] || !args[0].Bulk? || !Named(GET_NAME, args[0].data) then NoReply
    else ConfReply(ScanAll(e.glob, args[1..], e.config), args[1..] == [] || e.config == [])
  }

  /** What a command line asks of the keyspace; `Invalid` leaves it alone. */
  ghost function Keyed(line: seq<Tree>): Command
    requires line != [] && line[0].Bulk?
  {
    match CommandOf(line[0].data)
    case SetCmd => SetMeaning(line[1..])
    case GetCmd => GetMeaning(line[1..])
    case _ => Invalid
  }

  ghost function LineReply(e: Settings, m: Space, line: seq<Tree>, now: int): Reply
    requires line != [] && line[0].Bulk?
  {
    match CommandOf(line[0].data)
    case EchoCmd => EchoReply(e.absent, line[1..])
    case ConfigCmd => ConfigReply(e, line[1..])
    case _ => Step(e.f, m, Keyed(line), now).0
  }

  ghost function KeyedBy(t: Tree): Command {
    match Line([t], 0) case None => Invalid case Some(line) => Keyed(line)
  }

  ghost function ReplyTo(e: Settings, m: Space, t: Tree, now: int): Reply {
    match Line([t], 0) case None => NoReply case Some(line) => LineReply(e, m, line, now)
  }

  // ---- the connection ------------------------------------------------------------------------------

  ghost function Answer(e: Settings, m: Space, t: Tree, k: nat): Bytes { Sent(ReplyTo(e, m, t, e.clock(k))) }

  ghost function After(e: Settings, m: Space, t: Tree, k: nat): Space { Step(e.f, m, KeyedBy(t), e.clock(k)).1 }

  ghost function Serving(e: Settings): (p: Handlers)
    ensures Consumes(p)
  {
    var p := Handlers(ReadArray, BegunArray, (m, t, k) => Answer(e, m, t, k), (m, t, k) => After(e, m, t, k),
                      t => LeakOf(KeyedBy(t)));
    assert forall s :: p.read(s) == ReadArray(s);
    p
  }

  /** This server's way to serve a connection. */
  ghost function Redis(e: Settings): Protocol { Serving(e) }

  /** The same said of any protocol, function by function. */
  ghost predicate Follows(q: Protocol, e: Settings) {
    && (forall s :: q.read(s) == ReadArray(s)) && (forall s :: q.begun(s) == BegunArray(s))
    && (forall m, t, k :: q.answer(m, t, k) == Answer(e, m, t, k))
    && (forall m, t, k :: q.after(m, t, k) == After(e, m, t, k)) && (forall t :: q.pairs(t) == LeakOf(KeyedBy(t)))
  }

  lemma RedisFollows(e: Settings)
    ensures Follows(Redis(e), e)
  {
  }

  /** Every array text, headers padded or wrapped as they may be, is a message. */
  lemma SyntaxReadable(e: Settings, x: Syntax)
    requires x.SArr? && Accepted(x)
    ensures Readable(Redis(e), Message([], Body(x), TreeOf(x)))
  {
    forall tail ensures ReadArray(Body(x) + tail) == Got(TreeOf(x), tail) { ReadBack(x, tail); }
  }

  /** What the lexer reads is read whatever follows it. */
  lemma {:induction false} LexerReadsByItself(e: Settings)
    ensures ReadsByItself(Redis(e))
  {
    var p := Redis(e);
    forall s | p.read(s).Got?
      ensures exists body: Bytes :: s == body + p.read(s).rest && Readable(p, Message([], body, p.read(s).value))
    {
      var x := ArrayRead(s);
      SyntaxReadable(e, x);
    }
  }

  // ---- the keyspace of a connection ------------------------------------------------------------------

  /** The commands of the messages, timed by their numbers. */
  ghost function Commanded(e: Settings, ts: seq<Tree>, k: nat): seq<Timed> {
    seq(|ts|, i requires 0 <= i < |ts| => Timed(KeyedBy(ts[i]), e.clock(k + i)))
  }

  lemma CommandedFront(e: Settings, ts: seq<Tree>, k: nat)
    requires ts != []
    ensures var n := |ts| - 1;
      && Commanded(e, ts, k)[..n] == Commanded(e, ts[..n], k)
      && Commanded(e, ts, k)[n] == Timed(KeyedBy(ts[n]), e.clock(k + n))
  {
  }

  /** The keyspace after a connection is that of the timed commands its messages name, and each
      command without an executor leaves one pair of nodes behind. */
  lemma {:induction false} SpaceOfRun(e: Settings, m: Space, ts: seq<Tree>, k: nat)
    ensures AfterAll(Redis(e), m, ts, k) == LazyState(e.f, m, Commanded(e, ts, k))
    ensures PairsIn(Redis(e), ts) == LeakCount(Commanded(e, ts, k))
    decreases |ts|
  {
    if ts != [] {
      CommandedFront(e, ts, k);
      SpaceOfRun(e, m, ts[..|ts| - 1], k);
    }
  }

  /** The message asks the keyspace, or names no command. */
  ghost predicate AsksKeyspace(t: Tree) {
    match Line([t], 0)
    case None => true
    case Some(line) => CommandOf(line[0].data) != EchoCmd && CommandOf(line[0].data) != ConfigCmd
  }

  lemma KeyspaceAnswer(e: Settings, m: Space, t: Tree, k: nat)
    requires AsksKeyspace(t)
    ensures Answer(e, m, t, k) == Sent(Step(e.f, m, KeyedBy(t), e.clock(k)).0)
  {
  }

  /** What is sent for a run with its last command. */
  lemma SentMore(e: Settings, m: Space, ts: seq<Tree>, k: nat)
    requires ts != []
    ensures var n := |ts| - 1;
      var run, front := Commanded(e, ts, k), Commanded(e, ts[..n], k);
      SentAll(LazyRun(e.f, m, run)) == SentAll(LazyRun(e.f, m, front))
        + [Sent(Step(e.f, LazyState(e.f, m, front), KeyedBy(ts[n]), e.clock(k + n)).0)]
  {
    var run, n := Commanded(e, ts, k), |ts| - 1;
    CommandedFront(e, ts, k);
    assert run == run[..n] + [run[n]];
    SentAppend(e.f, m, run[..n], run[n]);
  }

  /** The replies to such messages are those of the lazily expiring map over the whole run. */
  lemma {:induction false} RepliesOfRun(e: Settings, m: Space, ts: seq<Tree>, k: nat)
    requires forall i :: 0 <= i < |ts| ==> AsksKeyspace(ts[i])
    ensures Replies(Redis(e), m, ts, k) == SentAll(LazyRun(e.f, m, Commanded(e, ts, k)))
    decreases |ts|
  {
    if ts != [] {
      var n := |ts| - 1;
      RepliesOfRun(e, m, ts[..n], k);
      SpaceOfRun(e, m, ts[..n], k);
      SentMore(e, m, ts, k);
      KeyspaceAnswer(e, AfterAll(Redis(e), m, ts[..n], k), ts[n], k + n);
    }
  }

  // ---- a write and a read, as bytes --------------------------------------------------------------------

  /** `SET key value` and `GET key`. */
  function SetMessage(key: Bytes, value: Bytes): Tree { Arr([Bulk([83, 69, 84]), Bulk(key), Bulk(value)]) }

  function GetMessage(key: Bytes): Tree { Arr([Bulk([71, 69, 84]), Bulk(key)]) }

  lemma SetNamed()
    ensures CommandOf([83, 69, 84]) == SetCmd && CommandOf([71, 69, 84]) == GetCmd
  {
    CommandNames([83, 69, 84]);
    CommandNames([71, 69, 84]);
  }

  lemma SetKeyed(key: Bytes, value: Bytes)
    ensures KeyedBy(SetMessage(key, value)) == Set(SetCommand(key, value, None, false, None))
    ensures AsksKeyspace(SetMessage(key, value))
  {
    SetNamed();
    var line := [Bulk([83, 69, 84]), Bulk(key), Bulk(value)];
    var args, c := [Bulk(key), Bulk(value)], SetCommand(key, value, None, false, None);
    assert line[1..] == args;
    assert Spells(args, c);
    SpellsOnce(args, c, SetMeaning(args).c);
    assert Line([Arr(line)], 0) == Line(line, 1) == Some(line);
  }

  lemma GetKeyed(key: Bytes)
    ensures KeyedBy(GetMessage(key)) == Get(key) && AsksKeyspace(GetMessage(key))
  {
    SetNamed();
    var line := [Bulk([71, 69, 84]), Bulk(key)];
    assert line[1..] == [Bulk(key)];
    assert Line([Arr(line)], 0) == Line(line, 1) == Some(line);
  }

  /** The message does not write the key. */
  ghost predicate Spares(t: Tree, key: Bytes) { !(KeyedBy(t).Set? && KeyedBy(t).c.key == key) }

  /** The key holds a value without a TTL. */
  predicate Holds(m: Space, key: Bytes, value: Bytes, time: int) { key in m && m[key] == Entry(value, time, 0, 0) }

  lemma HeldAfterSet(e: Settings, m: Space, key: Bytes, value: Bytes, k: nat)
    requires key != [] && value != []
    ensures Holds(After(e, m, SetMessage(key, value), k), key, value, e.clock(k))
  {
    SetKeyed(key, value);
  }

  lemma HeldAfterOthers(e: Settings, m: Space, t: Tree, k: nat, key: Bytes, value: Bytes, time: int)
    requires Holds(m, key, value, time) && Spares(t, key)
    ensures Holds(After(e, m, t, k), key, value, time)
  {
  }

  /** A value written without a TTL stays until its key is written again. */
  lemma {:induction false} EntryKept(e: Settings, m: Space, ts: seq<Tree>, k: nat, a: nat, key: Bytes, value: Bytes)
    requires a < |ts| && ts[a] == SetMessage(key, value) && key != [] && value != []
    requires forall i :: a < i < |ts| ==> Spares(ts[i], key)
    ensures Holds(AfterAll(Redis(e), m, ts, k), key, value, e.clock(k + a))
  {
    var p, time := Redis(e), e.clock(k + a);
    var h := n => Holds(n, key, value, time);
    HeldAfterSet(e, AfterAll(p, m, ts[..a], k), key, value, k + a);
    forall i, n | a < i < |ts| && h(n) ensures h(p.after(n, ts[i], k + i)) {
      HeldAfterOthers(e, n, ts[i], k + i, key, value, time);
    }
    Kept(p, m, ts, k, a, h);
  }

  lemma HeldIsRead(e: Settings, m: Space, key: Bytes, value: Bytes, time: int, k: nat)
    requires Holds(m, key, value, time) && key != []
    ensures Answer(e, m, GetMessage(key), k) == Sent(BulkReply(value))
  {
    GetKeyed(key);
    KeyspaceAnswer(e, m, GetMessage(key), k);
  }

  /** Over the bytes of a connection: the value that message `a` writes is what message `b` is sent
      for reading it, whatever the messages between them are that do not write the key. */
  lemma {:induction false} WrittenIsRead(e: Settings, m: Space, ms: seq<Message>, tail: Bytes, a: nat, b: nat,
                                         key: Bytes, value: Bytes)
    requires AllReadable(Redis(e), ms) && a < b < |ms| && key != [] && value != []
    requires ms[a].t == SetMessage(key, value) && ms[b].t == GetMessage(key)
    requires forall i :: a < i < b ==> Spares(ms[i].t, key)
    ensures var sent := Conversation(Redis(e), m, Stream(ms) + tail, 0).sent;
      b < |sent| && sent[b] == Sent(BulkReply(value))
  {
    var p, ts := Redis(e), TreesIn(ms);
    SentAt(p, m, ms, tail, b);
    EntryKept(e, m, ts[..b], 0, a, key, value);
    HeldIsRead(e, AfterAll(p, m, ts[..b], 0), key, value, e.clock(a), b);
  }

  // ---- two documented messages ---------------------------------------------------------------------

  lemma EncodingReadable(e: Settings, t: Tree)
    requires InDomain(t) && t.Arr?
    ensures Readable(Redis(e), Message([], Encode(t)[1..], t)) && Framed(Message([], Encode(t)[1..], t)) == Encode(t)
  {
    forall tail ensures ReadArray(Encode(t)[1..] + tail) == Got(t, tail) { RoundTrip(t, tail); }
  }

  /** A message that names no command is answered by the error text and changes nothing. */
  lemma UnknownCommand(e: Settings, m: Space, line: seq<Tree>, k: nat)
    requires line != [] && line[0].Bulk? && CommandOf(line[0].data) == NullCmd
    ensures var t := Arr(line);
      Answer(e, m, t, k) == PARSE_ERROR + [0] && After(e, m, t, k) == m && LeakOf(KeyedBy(t)) == 0
  {
    assert Line([Arr(line)], 0) == Line(line, 1) == Some(line);
  }

  /** A connection with nothing but such a message. */
  lemma UnknownAlone(e: Settings, m: Space, line: seq<Tree>)
    requires line != [] && line[0].Bulk? && CommandOf(line[0].data) == NullCmd && InDomain(Arr(line))
    ensures Conversation(Redis(e), m, Encode(Arr(line)), 0)
      == Talk([PARSE_ERROR + [0]], m, Arrays(Arr(line)), 0, Closed)
  {
    var t := Arr(line);
    EncodingReadable(e, t);
    LoneMessage(Redis(e), m, Message([], Encode(t)[1..], t), 0);
    UnknownCommand(e, m, line, 0);
  }

  /** `PING` */
  const PING_NAME: Bytes := [80, 73, 78, 71]

  lemma PingNamesNothing()
    ensures CommandOf(PING_NAME) == NullCmd
  {
    assert Lower(PING_NAME[0]) != Lower(ECHO_NAME[0]);
  }

  /** `*1\r\n$4\r\nPING\r\n` */
  lemma PingText(line: seq<Tree>)
    requires line == [Bulk(PING_NAME)]
    ensures Encode(Arr(line)) == [42, 49, 13, 10, 36, 52, 13, 10] + PING_NAME + [13, 10]
    ensures InDomain(Arr(line)) && Arrays(Arr(line)) == 1
  {
    assert line[1..] == [];
    assert Dec(1) == [49] && Dec(4) == [52];
    assert Encode(line[0]) == [36, 52, 13, 10] + PING_NAME + [13, 10];
    assert EncodeAll(line) == Encode(line[0]) + [];
    assert ArraysIn(line) == 0;
  }

  /** PING is read and answered by the error text. */
  lemma {:induction false} PingUnanswered(e: Settings, m: Space)
    ensures var s := [42, 49, 13, 10, 36, 52, 13, 10] + PING_NAME + [13, 10];
      Conversation(Redis(e), m, s, 0) == Talk([PARSE_ERROR + [0]], m, 1, 0, Closed)
  {
    var line := [Bulk(PING_NAME)];
    PingNamesNothing();
    PingText(line);
    UnknownAlone(e, m, line);
  }

  /** `anotherkey`, and the text `will expire in a minute`, which has 23 bytes. */
  const DOCUMENTED_KEY: Bytes := [97, 110, 111, 116, 104, 101, 114, 107, 101, 121]
  const DOCUMENTED_TEXT: Bytes := [
    119, 105, 108, 108, 32, 101, 120, 112, 105, 114, 101, 32, 105, 110, 32, 97, 32, 109,
    105, 110, 117, 116, 101]

  lemma AnnouncedShort(data: Bytes, n: nat, rest: Bytes)
    requires |data| == n + 1 && n <= PROTO_MAX_BULK_SIZE && data[n] != CR
    ensures ReadNode([DOLLAR] + (Dec(n) + CRLF + (data + rest))) == Fail
  {
    DecFits(n);
    SizeReadBack(Dec(n), n, data + rest);
    assert |data + rest| >= n + 2 ==> (data + rest)[n..n + 2][0] == data[n];
    assert ([DOLLAR] + (Dec(n) + CRLF + (data + rest)))[1..] == Dec(n) + CRLF + (data + rest);
  }

  lemma FailsBehind(t: Tree, s: Bytes, n: nat)
    requires n > 0 && InDomain(t) && ReadElems(s, n - 1) == Fail
    ensures ReadElems(Encode(t) + s, n) == Fail
  {
    RoundTrip(t, s);
  }

  lemma HeaderBefore(n: nat, s: Bytes)
    requires 0 < n < TWO31 && ReadElems(s, n) == Fail
    ensures ReadArray(Dec(n) + CRLF + s) == Fail
  {
    DecFits(n);
    SizeReadBack(Dec(n), n, s);
  }

  /** An array whose third element fails. */
  lemma ThirdFails(a: Tree, b: Tree, s: Bytes)
    requires InDomain(a) && InDomain(b) && ReadNode(s) == Fail
    ensures ReadArray(Dec(5) + CRLF + (Encode(a) + (Encode(b) + s))) == Fail
  {
    assert ReadElems(s, 3) == Fail;
    FailsBehind(b, s, 4);
    FailsBehind(a, Encode(b) + s, 5);
    HeaderBefore(5, Encode(a) + (Encode(b) + s));
  }

  /** The documented SET with a TTL announces 22 bytes for its 23-byte value: whatever follows the
      value, it is no message. */
  lemma {:induction false} DocumentedSetFails(rest: Bytes)
    ensures var value := [DOLLAR] + (Dec(22) + CRLF + (DOCUMENTED_TEXT + rest));
      ReadArray(Dec(5) + CRLF + (Encode(Bulk([83, 69, 84])) + (Encode(Bulk(DOCUMENTED_KEY)) + value))) == Fail
  {
    AnnouncedShort(DOCUMENTED_TEXT, 22, rest);
    ThirdFails(Bulk([83, 69, 84]), Bulk(DOCUMENTED_KEY), [DOLLAR] + (Dec(22) + CRLF + (DOCUMENTED_TEXT + rest)));
  }
}
