/** `app_code` and `parse_command`: the loop that serves one connection, from the bytes received to
    the bytes sent, with the nodes of every message built, walked and released. */
module Connection {
  import opened Base
  import opened Resp
  import opened Leftovers
  import opened Lexer
  import opened Nodes
  import opened ArrayLexer
  import opened Keyspace
  import opened Commands
  import opened ConfigGet
  import opened Dialogue
  import opened Requests
  import Echo
  import Maps = SimpleMap
  import Owners = Ownership

  // ---- reading the nodes of a message ----------------------------------------------------------

  /** The list of siblings from `el` on, as the handlers are given it. */
  method ReadList(el: Node, ghost xs: seq<Shape>, ghost ts: seq<Tree>, ghost parent: Node?, ghost nodes: set<Node>)
    returns (list: seq<Tree>)
    requires xs != [] && el == xs[0].n && Row(xs, parent, nodes) && DenotesAll(xs, ts)
    ensures list == ts
    decreases xs, 1
  {
    list := [];
    var current: Node? := el;
    while current != null
      invariant |list| <= |xs| && current == RootOf(xs, |list|) && list == ts[..|list|]
      decreases |xs| - |list|
    {
      ghost var i := |list|;
      CellOfRow(xs, parent, nodes, i);
      var t := ReadNodes(current, xs[i], ts[i], Objs(xs[i]));
      list := list + [t];
      current := current.next;
    }
  }

  /** One node with what is inside it. */
  method ReadNodes(n: Node, ghost x: Shape, ghost t: Tree, ghost nodes: set<Node>) returns (tree: Tree)
    requires n == x.n && Cell(x, nodes) && Denotes(x, t)
    ensures tree == t
    decreases x, 0
  {
    match n.kind {
      case BULK_STR =>
        tree := Bulk(n.bytes);
      case ARRAY =>
        RowOfCell(x, nodes);
        var kids := ReadList(n.content, x.kids, t.kids, x.n, nodes - {x.n});
        tree := Arr(kids);
    }
  }

  /** A list of siblings on the way to the command name, with the arrays entered so far. */
  datatype Place = Place(xs: seq<Shape>, ts: seq<Tree>, parent: Node?, nodes: set<Node>, entered: nat)

  ghost predicate At(el: Node, w: Place)
    reads w.nodes
  {
    match w
    case Place(xs, ts, parent, nodes, _) => xs != [] && el == xs[0].n && Row(xs, parent, nodes) && DenotesAll(xs, ts)
  }

  lemma OneMoreByte(n: nat)
    ensures (n + 1) % 256 == (n % 256 + 1) % 256
  {
  }

  /** Into the first element, which is an array. */
  lemma Inward(el: Node, w: Place) returns (w': Place)
    requires At(el, w) && el.kind == ARRAY
    ensures el.content != null && At(el.content, w') && w.xs[0].Branch? && w'.xs == w.xs[0].kids
    ensures w'.entered % 256 == (w.entered % 256 + 1) % 256 && Line(w'.ts, w'.entered) == Line(w.ts, w.entered)
  {
    var x, t := w.xs[0], w.ts[0];
    assert Denotes(x, t);
    CellOfRow(w.xs, w.parent, w.nodes, 0);
    RowOfCell(x, Objs(x));
    OneMoreByte(w.entered);
    w' := Place(x.kids, t.kids, x.n, Objs(x) - {x.n}, w.entered + 1);
  }

  /** At a bulk string the count decides. */
  lemma AtName(el: Node, w: Place)
    requires At(el, w) && el.kind != ARRAY
    ensures Line(w.ts, w.entered) == if w.entered % 256 == 1 then Some(w.ts) else None
  {
    assert Denotes(w.xs[0], w.ts[0]);
  }

  lemma AtRoot(root: Node, p: Piece)
    requires p.x.n == root && Standing(p)
    ensures At(root, Place([p.x], [p.t], null, p.nodes, 0))
  {
    StandingRow(p);
  }

  /** The way of `parse_command` to the command name: into the first element as long as it is an
      array, with the arrays counted in a byte. */
  method FindLine(root: Node, ghost p: Piece) returns (line: Option<seq<Tree>>)
    requires p.x.n == root && Standing(p)
    ensures line == Line([p.t], 0)
  {
    var gnode: Node, firstArray := root, 0;
    ghost var w := Place([p.x], [p.t], null, p.nodes, 0);
    AtRoot(root, p);
    while gnode.kind == ARRAY
      invariant At(gnode, w)
      invariant firstArray == w.entered % 256 && Line([p.t], 0) == Line(w.ts, w.entered)
      decreases w.xs
    {
      w := Inward(gnode, w);
      gnode := gnode.content;
      firstArray := (firstArray + 1) % 256;
    }
    AtName(gnode, w);
    if firstArray != 1 { return None; }
    var list := ReadList(gnode, w.xs, w.ts, w.parent, w.nodes);
    line := Some(list);
  }

  // ---- the command tables ------------------------------------------------------------------------

  datatype CommandEntry = CommandEntry(name: Option<Bytes>, cmd: RedisCommand)

  const COMMAND_TABLE: seq<CommandEntry> := [
    CommandEntry(Some(ECHO_NAME), EchoCmd), CommandEntry(Some(SET_NAME), SetCmd),
    CommandEntry(Some(GET_NAME), GetCmd), CommandEntry(Some(CONFIG_NAME), ConfigCmd), CommandEntry(None, NullCmd)]

  /** `find_redis_cmd`: the loop looks at the first entry twice. */
  method FindRedisCmd(text: Bytes) returns (cmd: RedisCommand)
    ensures cmd == CommandOf(text)
  {
    var i := 0;
    var item := COMMAND_TABLE[i];
    while item.name.Some?
      invariant 0 <= i <= |COMMAND_TABLE| && item == COMMAND_TABLE[if i == 0 then 0 else i - 1]
      invariant forall j :: 0 <= j < i - 1 ==> !Named(COMMAND_TABLE[j].name.value, text)
      decreases |COMMAND_TABLE| - i
    {
      if Named(item.name.value, text) { return item.cmd; }
      item := COMMAND_TABLE[i];
      i := i + 1;
    }
    assert i - 1 == 4;
    assert !Named(COMMAND_TABLE[0].name.value, text) && !Named(COMMAND_TABLE[1].name.value, text);
    assert !Named(COMMAND_TABLE[2].name.value, text) && !Named(COMMAND_TABLE[3].name.value, text);
    cmd := NullCmd;
  }

  datatype ConfOption = ConfOption(name: Option<Bytes>, get: bool)

  const CONFIG_OPTIONS: seq<ConfOption> := [
    ConfOption(Some(GET_NAME), true), ConfOption(Some(SET_NAME), false), ConfOption(None, false)]

  /** The configuration map and the nodes its pointers name. */
  datatype Config = Config(sm: Maps.SimpleMap, keys: Maps.Nodes, vals: Owners.Values)

  /** It holds these pairs, none with a NUL in it. */
  ghost predicate Configured(c: Config, pairs: seq<Pair>)
    reads c.sm, c.sm.Repr
  {
    && c.sm.Valid() && Owners.Allocated(c.sm.slots, c.keys, c.vals)
    && pairs == PairsOf(c.sm.slots, c.keys, c.vals) && forall p :: p in pairs ==> PairNulFree(p)
  }

  /** `handle_conf_cmd`: only GET has a handler. */
  method HandleConfCmd(e: Settings, c: Config, args: seq<Tree>) returns (reply: Reply)
    requires Configured(c, e.config)
    ensures reply == ConfigReply(e, args)
  {
    if args == [] || !args[0].Bulk? { return NoReply; }
    var i := 0;
    var item := CONFIG_OPTIONS[i];
    while item.name.Some?
      invariant 0 <= i <= |CONFIG_OPTIONS| && item == CONFIG_OPTIONS[if i == 0 then 0 else i - 1]
      invariant i > 1 ==> !Named(GET_NAME, args[0].data)
      decreases |CONFIG_OPTIONS| - i
    {
      if Named(item.name.value, args[0].data) {
        if !item.get {
          assert i > 1;
          return NoReply;
        }
        reply := HandleConfGet(e.glob, args[1..], c.sm, c.keys, c.vals);
        return;
      }
      item := CONFIG_OPTIONS[i];
      i := i + 1;
    }
    assert i > 1;
    reply := NoReply;
  }

  // ---- one message ---------------------------------------------------------------------------------

  /** What serving a connection works on. */
  datatype Session = Session(fd: ByteStream, h: NodeHeap, store: Store, c: Config)

  /** All parts are in order and out of each other's way. */
  ghost predicate Ready(e: Settings, s: Session)
    reads s.fd, s.store, s.store.sm, s.store.sm.Repr, s.store.mem, s.c.sm, s.c.sm.Repr
  {
    match s
    case Session(fd, h, store, c) =>
      && fd.Valid() && store.Valid() && Configured(c, e.config)
      && {fd, h} !! store.sm.Repr && c.sm.Repr !! store.sm.Repr && {fd, h, store, store.mem} !! c.sm.Repr
  }

  lemma OutcomesAreSteps(f: Floats, m: Space, args: seq<Tree>, now: int)
    ensures SetOutcome(m, SetMeaning(args), now) == Step(f, m, SetMeaning(args), now)
    ensures GetOutcome(f, m, GetMeaning(args), now) == Step(f, m, GetMeaning(args), now)
    ensures !Leaks(GetMeaning(args))
  {
  }

  /** SET or GET on its arguments. */
  method ExecuteKeyed(f: Floats, store: Store, write: bool, args: seq<Tree>, now: int) returns (reply: Reply)
    requires store.Valid()
    modifies store, store.mem, store.sm.Repr
    ensures store.Valid() && fresh(store.sm.Repr - old(store.sm.Repr))
    ensures var cmd := if write then SetMeaning(args) else GetMeaning(args);
      && (reply, store.Space()) == Step(f, old(store.Space()), cmd, now)
      && old(store.leaked) <= store.leaked && |store.leaked| == |old(store.leaked)| + LeakOf(cmd)
  {
    OutcomesAreSteps(f, store.Space(), args, now);
    if write {
      reply := store.HandleSetCmd(args, now);
    } else {
      reply := store.HandleGetCmd(f, args, now);
    }
  }

  /** A command that leaves the keyspace alone, or none. */
  method ExecuteOther(e: Settings, c: Config, cmd: RedisCommand, args: seq<Tree>) returns (reply: Reply)
    requires Configured(c, e.config) && cmd != SetCmd && cmd != GetCmd
    ensures reply == match cmd
      case EchoCmd => EchoReply(e.absent, args)
      case ConfigCmd => ConfigReply(e, args)
      case _ => NoReply
  {
    if cmd == EchoCmd {
      var text, _ := Echo.HandleEchoCmd(args, e.absent);
      reply := if text == None then NoReply else Reply(text.value);
    } else if cmd == ConfigCmd {
      reply := HandleConfCmd(e, c, args);
    } else {
      reply := NoReply;
    }
  }

  lemma LineByCommand(e: Settings, m: Space, line: seq<Tree>, now: int)
    requires line != [] && line[0].Bulk?
    ensures match CommandOf(line[0].data)
      case SetCmd =>
        Keyed(line) == SetMeaning(line[1..]) && LineReply(e, m, line, now) == Step(e.f, m, Keyed(line), now).0
      case GetCmd =>
        Keyed(line) == GetMeaning(line[1..]) && LineReply(e, m, line, now) == Step(e.f, m, Keyed(line), now).0
      case EchoCmd => Keyed(line) == Invalid && LineReply(e, m, line, now) == EchoReply(e.absent, line[1..])
      case ConfigCmd => Keyed(line) == Invalid && LineReply(e, m, line, now) == ConfigReply(e, line[1..])
      case NullCmd => Keyed(line) == Invalid && LineReply(e, m, line, now) == NoReply
  {
  }

  /** `parse_command` once the name is found. */
  method Execute(e: Settings, c: Config, store: Store, line: seq<Tree>, now: int) returns (reply: Reply)
    requires line != [] && line[0].Bulk? && store.Valid() && Configured(c, e.config)
    modifies store, store.mem, store.sm.Repr
    ensures store.Valid() && fresh(store.sm.Repr - old(store.sm.Repr))
    ensures reply == LineReply(e, old(store.Space()), line, now)
    ensures store.Space() == Step(e.f, old(store.Space()), Keyed(line), now).1
    ensures old(store.leaked) <= store.leaked && |store.leaked| == |old(store.leaked)| + LeakOf(Keyed(line))
  {
    LineByCommand(e, store.Space(), line, now);
    var cmd := FindRedisCmd(line[0].data);
    if cmd == SetCmd || cmd == GetCmd {
      reply := ExecuteKeyed(e.f, store, cmd == SetCmd, line[1..], now);
    } else {
      reply := ExecuteOther(e, c, cmd, line[1..]);
    }
  }

  /** `parse_command` on the nodes of a message. */
  method ParseCommand(e: Settings, c: Config, store: Store, root: Node, ghost p: Piece, now: int) returns (reply: Reply)
    requires p.x.n == root && Standing(p) && store.Valid() && Configured(c, e.config)
    modifies store, store.mem, store.sm.Repr
    ensures store.Valid() && forall o :: o in store.sm.Repr && o !in old(store.sm.Repr) ==> fresh(o)
    ensures reply == ReplyTo(e, old(store.Space()), p.t, now)
    ensures store.Space() == Step(e.f, old(store.Space()), KeyedBy(p.t), now).1
    ensures old(store.leaked) <= store.leaked && |store.leaked| == |old(store.leaked)| + LeakOf(KeyedBy(p.t))
  {
    var line := FindLine(root, p);
    if line == None { return NoReply; }
    reply := Execute(e, c, store, line.value, now);
  }

  /** The store before a message: its keyspace and the pairs leaked so far. */
  datatype Stored = Stored(space: Space, leaked: seq<Maps.Slot>)

  ghost function Snapshot(store: Store): Stored
    reads store, store.sm, store.sm.Repr, store.mem
    requires store.Valid()
  {
    Stored(store.Space(), store.leaked)
  }

  /** What message `k` makes of the store. */
  predicate Served(q: Protocol, before: Stored, after: Stored, t: Tree, k: nat, sent: Bytes) {
    && sent == q.answer(before.space, t, k) && after.space == q.after(before.space, t, k)
    && before.leaked <= after.leaked && |after.leaked| == |before.leaked| + q.pairs(t)
  }

  /** A message stands in the heap, which held `before` without it. */
  ghost predicate Lexed(s: Session, root: Node, p: Piece, before: Blocks)
    reads s.h, s.store.sm, p.nodes
  {
    match before
    case Blocks(_, _) =>
      && p.x.n == root && Standing(p) && p.nodes !! s.store.sm.Repr
      && s.h.State() == before.With(p.nodes) && before.Lacks(p.nodes)
  }

  /** A message is lexed beside the store and the configuration, which it leaves alone. */
  method LexMessage(e: Settings, s: Session)
    returns (status: Status, root: Node?, ghost p: Option<Piece>, ghost lost: set<Node>)
    requires Ready(e, s)
    modifies s.fd, s.h
    ensures Ready(e, s) && s.fd.pos >= old(s.fd.pos) && Snapshot(s.store) == old(Snapshot(s.store))
    ensures s.store.sm.Repr == old(s.store.sm.Repr)
    ensures var o := ReadArray(old(s.fd.Remaining()));
      && status == StatusOf(o) && (status == Parsed <==> root != null) && (status == Parsed <==> p.Some?)
      && (status == Parsed ==> s.fd.Remaining() == o.rest && p.value.t == o.value)
    ensures status == Parsed ==> Lexed(s, root, p.value, old(s.h.State()))
    ensures status == Failed ==>
      && s.h.State() == Blocks(old(s.h.live), old(s.h.records) + lost)
      && Lost(lost, BegunArray(old(s.fd.Remaining()))) && lost !! old(s.h.records)
  {
    ghost var o := ReadArray(s.fd.Remaining());
    ghost var kids, nodes;
    status, root, kids, nodes, lost := LexArray(s.fd, s.h);
    p := if root == null then None else Some(Piece(ShapeOf(root, kids), o.value, nodes));
  }

  /** The command of message `k`: executed and answered, its nodes left alone. */
  method AnswerCommand(e: Settings, s: Session, root: Node, k: nat, ghost p: Piece, ghost before: Blocks,
                       ghost q: Protocol)
    returns (sent: Bytes)
    requires Ready(e, s) && Lexed(s, root, p, before) && Follows(q, e)
    modifies s.store, s.store.mem, s.store.sm.Repr
    ensures forall o :: o in s.store.sm.Repr && o !in old(s.store.sm.Repr) ==> fresh(o)
    ensures Ready(e, s) && Lexed(s, root, p, before)
    ensures Served(q, old(Snapshot(s.store)), Snapshot(s.store), p.t, k, sent)
  {
    var reply := ParseCommand(e, s.c, s.store, root, p, e.clock(k));
    sent := Sent(reply);
  }

  /** The nodes of an answered message are deleted. */
  method DeleteAnswered(e: Settings, s: Session, root: Node, ghost p: Piece, ghost before: Blocks)
    returns (ghost lost: set<Node>)
    requires Ready(e, s) && Lexed(s, root, p, before)
    modifies s.h
    ensures Ready(e, s) && Snapshot(s.store) == old(Snapshot(s.store))
    ensures s.h.State() == Blocks(before.live, before.records + lost) && lost <= p.nodes && Lost(lost, Arrays(p.t))
  {
    lost := DeleteMessage(s.h, root, p, before);
  }

  /** Message `k`, just lexed: executed, answered, and its nodes deleted. */
  method AnswerLexed(e: Settings, s: Session, root: Node, k: nat, ghost p: Piece, ghost before: Blocks,
                     ghost q: Protocol)
    returns (sent: Bytes, ghost lost: set<Node>)
    requires Ready(e, s) && Lexed(s, root, p, before) && Follows(q, e)
    modifies s.h, s.store, s.store.mem, s.store.sm.Repr
    ensures forall o :: o in s.store.sm.Repr && o !in old(s.store.sm.Repr) ==> fresh(o)
    ensures Ready(e, s) && Served(q, old(Snapshot(s.store)), Snapshot(s.store), p.t, k, sent) && unchanged(s.fd)
    ensures s.h.State() == Blocks(before.live, before.records + lost) && lost <= p.nodes && Lost(lost, Arrays(p.t))
  {
    sent := AnswerCommand(e, s, root, k, p, before, q);
    lost := DeleteAnswered(e, s, root, p, before);
  }

  /** One message behind its `*`: on failure the error text goes out instead of a reply. */
  method AnswerMessage(e: Settings, s: Session, k: nat, ghost q: Protocol)
    returns (status: Status, sent: Bytes, ghost lost: set<Node>)
    requires Ready(e, s) && Follows(q, e)
    modifies s.fd, s.h, s.store, s.store.mem, s.store.sm.Repr
    ensures Ready(e, s) && s.fd.pos >= old(s.fd.pos)
    ensures forall o :: o in s.store.sm.Repr && o !in old(s.store.sm.Repr) ==> fresh(o)
    ensures var o := q.read(old(s.fd.Remaining()));
      && status == StatusOf(o)
      && (status == Parsed ==>
            && s.fd.Remaining() == o.rest && Lost(lost, Arrays(o.value))
            && Served(q, old(Snapshot(s.store)), Snapshot(s.store), o.value, k, sent))
    ensures status != Parsed ==> Snapshot(s.store) == old(Snapshot(s.store))
    ensures status == Failed ==> sent == PARSE_ERROR + [0] && Lost(lost, q.begun(old(s.fd.Remaining())))
    ensures status != Beyond ==>
      s.h.State() == Blocks(old(s.h.live), old(s.h.records) + lost) && lost !! old(s.h.records)
  {
    ghost var before := s.h.State();
    var root;
    ghost var p;
    sent := PARSE_ERROR + [0];
    status, root, p, lost := LexMessage(e, s);
    if root != null {
      sent, lost := AnswerLexed(e, s, root, k, p.value, before, q);
    }
  }

  // ---- the loop --------------------------------------------------------------------------------------

  /** What the store and the heap have become after the part `t` of a talk, with `lost` as the array
      records left. */
  predicate Told(t: Talk, before: Stored, after: Stored, h: Blocks, h': Blocks, lost: set<Node>) {
    && after.space == t.space && before.leaked <= after.leaked && |after.leaked| == |before.leaked| + t.pairs
    && (t.end != Unmodelled ==> h' == Blocks(h.live, h.records + lost) && lost !! h.records && Lost(lost, t.records))
  }

  /** One turn: a byte is received, and the message behind it if it is a `*`. */
  method ServeTurn(e: Settings, s: Session, k: nat, ghost q: Protocol)
    returns (going: bool, k': nat, sent: seq<Bytes>, end: End, ghost part: Talk, ghost lost: set<Node>)
    requires Ready(e, s) && Follows(q, e)
    modifies s.fd, s.h, s.store, s.store.mem, s.store.sm.Repr
    ensures Ready(e, s) && s.fd.pos >= old(s.fd.pos) && (going ==> s.fd.pos > old(s.fd.pos))
    ensures forall o :: o in s.store.sm.Repr && o !in old(s.store.sm.Repr) ==> fresh(o)
    ensures Told(part, old(Snapshot(s.store)), Snapshot(s.store), old(s.h.State()), s.h.State(), lost)
    ensures part.sent == sent && part.end == end && (going ==> end == Closed)
    ensures Conversation(q, old(Snapshot(s.store)).space, old(s.fd.Remaining()), k) ==
      if going then Then(part, Conversation(q, Snapshot(s.store).space, s.fd.Remaining(), k')) else part
  {
    ghost var m, bytes := s.store.Space(), s.fd.Remaining();
    Turn(q, m, bytes, k);
    k', sent, lost, part := k, [], {}, Silence(m);
    var buff := s.fd.Recv(1);
    if |buff| < 1 { return false, k, [], Closed, part, lost; }
    assert bytes[1..] == s.fd.Remaining() && bytes[0] == buff[0];
    if buff[0] != ASTERISK { return true, k, [], Closed, part, lost; }
    var status, text;
    status, text, lost := AnswerMessage(e, s, k, q);
    match status {
      case Parsed =>
        going, k', sent, end, part := true, k + 1, [text], Closed, One(q, m, q.read(bytes[1..]).value, k);
      case Failed =>
        going, sent, end, part := false, [text], End.Malformed, Talk([text], m, q.begun(bytes[1..]), 0, End.Malformed);
      case Beyond =>
        going, end, part := false, Unmodelled, Talk([], m, 0, 0, Unmodelled);
    }
  }

  lemma ToldMore(a: Talk, b: Talk, s0: Stored, s1: Stored, s2: Stored, h0: Blocks, h1: Blocks, h2: Blocks,
                 lost: set<Node>, more: set<Node>)
    requires Told(a, s0, s1, h0, h1, lost) && Told(b, s1, s2, h1, h2, more) && a.end != Unmodelled
    ensures Told(Then(a, b), s0, s2, h0, h2, lost + more)
  {
    if b.end != Unmodelled {
      CountUnion(lost, more);
      assert h0.records + lost + more == h0.records + (lost + more);
    }
  }

  lemma ToldNothing(s: Stored, h: Blocks)
    ensures Told(Silence(s.space), s, s, h, h, {})
  {
    assert h.records + {} == h.records;
  }

  /** The part `part` is what the talk `rest` starts with, and `rest'` what it goes on with. */
  lemma TalkMore(whole: Talk, soFar: Talk, rest: Talk, part: Talk, rest': Talk, going: bool)
    requires whole == Then(soFar, rest) && rest == if going then Then(part, rest') else part
    ensures whole == if going then Then(Then(soFar, part), rest') else Then(soFar, part)
  {
    ThenThen(soFar, part, rest');
  }

  /** Turns until the connection ends. */
  method ServeAll(e: Settings, s: Session, ghost q: Protocol)
    returns (sent: seq<Bytes>, end: End, ghost lost: set<Node>)
    requires Ready(e, s) && Follows(q, e)
    modifies s.fd, s.h, s.store, s.store.mem, s.store.sm.Repr
    ensures Ready(e, s)
    ensures var talk := Conversation(q, old(Snapshot(s.store)).space, old(s.fd.Remaining()), 0);
      && sent == talk.sent && end == talk.end
      && Told(talk, old(Snapshot(s.store)), Snapshot(s.store), old(s.h.State()), s.h.State(), lost)
  {
    ghost var stored, h := Snapshot(s.store), s.h.State();
    ghost var whole := Conversation(q, stored.space, s.fd.Remaining(), 0);
    ghost var soFar := Silence(stored.space);
    sent, end, lost := [], Closed, {};
    var going, k := true, 0;
    ToldNothing(stored, h);
    while going
      invariant Ready(e, s) && forall o :: o in s.store.sm.Repr && o !in old(s.store.sm.Repr) ==> fresh(o)
      invariant soFar.sent == sent && soFar.end == end && (going ==> end == Closed)
      invariant Told(soFar, stored, Snapshot(s.store), h, s.h.State(), lost)
      invariant whole ==
        if going then Then(soFar, Conversation(q, Snapshot(s.store).space, s.fd.Remaining(), k)) else soFar
      decreases going, |s.fd.data| - s.fd.pos
    {
      ghost var stored', h' := Snapshot(s.store), s.h.State();
      ghost var rest := Conversation(q, stored'.space, s.fd.Remaining(), k);
      var text;
      ghost var part, more;
      going, k, text, end, part, more := ServeTurn(e, s, k, q);
      ToldMore(soFar, part, stored, stored', Snapshot(s.store), h, h', s.h.State(), lost, more);
      TalkMore(whole, soFar, rest, part, Conversation(q, Snapshot(s.store).space, s.fd.Remaining(), k), going);
      sent, lost, soFar := sent + text, lost + more, Then(soFar, part);
    }
  }

  /** `app_code`: over every byte stream, what is sent, how the connection ends, the keyspace left,
      the pairs leaked and the array records left allocated are those of the specified
      conversation. */
  method AppCode(e: Settings, s: Session) returns (sent: seq<Bytes>, end: End, ghost lost: set<Node>)
    requires Ready(e, s)
    modifies s.fd, s.h, s.store, s.store.mem, s.store.sm.Repr
    ensures Ready(e, s)
    ensures var talk := Conversation(Redis(e), old(s.store.Space()), old(s.fd.Remaining()), 0);
      && sent == talk.sent && end == talk.end
      && Told(talk, old(Snapshot(s.store)), Snapshot(s.store), old(s.h.State()), s.h.State(), lost)
  {
    RedisFollows(e);
    sent, end, lost := ServeAll(e, s, Redis(e));
  }
}
