/** What GET and SET mean on a finite map, with lazy expiry, and when lazy expiry cannot be told
    from eager expiry. */
module Keyspace {
  import opened Base
  import opened Resp
  import opened SetParser

  /** A stored value with the time it was written and its TTL; 0 is no TTL. */
  datatype Entry = Entry(value: Bytes, time: int, ex: nat, px: nat)

  type Space = map<Bytes, Entry>

  datatype Reply = NoReply | Reply(text: Bytes)

  /** `An error occured while parsing the command.` */
  const PARSE_ERROR: Bytes := [
    65, 110, 32, 101, 114, 114, 111, 114, 32, 111, 99, 99, 117, 114, 101, 100, 32, 119, 104, 105, 108, 101, 32,
    112, 97, 114, 115, 105, 110, 103, 32, 116, 104, 101, 32, 99, 111, 109, 109, 97, 110, 100, 46]

  /** What the connection is sent for a reply: `strlen + 1` bytes of its buffer, that is everything
      before the first NUL and a NUL, or the error message when there is no buffer. */
  function Sent(r: Reply): Bytes {
    match r case NoReply => PARSE_ERROR + [0] case Reply(text) => CStr(text) + [0]
  }

  function SentAll(rs: seq<Reply>): seq<Bytes> {
    if rs == [] then [] else SentAll(rs[..|rs| - 1]) + [Sent(rs[|rs| - 1])]
  }

  datatype Command = Get(key: Bytes) | Set(c: SetCommand) | Invalid

  // ---- expiry ------------------------------------------------------------------------------

  /** The float arithmetic of `has_key_expired`: `sec` turns a clock reading into `float`
      seconds, `fl` rounds the result of an operation or an integer to `float`. */
  datatype Floats = Floats(sec: int -> real, fl: real -> real)

  /** Any monotone rounding that keeps zero. */
  ghost predicate Rounding(f: Floats) {
    && (forall a: int, b: int :: a <= b ==> f.sec(a) <= f.sec(b))
    && (forall x: real, y: real :: x <= y ==> f.fl(x) <= f.fl(y))
    && f.fl(0.0) == 0.0
  }

  /** `has_key_expired`. */
  function Expired(f: Floats, now: int, time: int, ex: nat, px: nat): bool {
    if ex == 0 && px == 0 then false
    else
      var delta := f.fl(f.sec(now) - f.sec(time));
      if ex != 0 then delta > f.fl(ex as real) else f.fl(delta * 1000.0) > f.fl(px as real)
  }

  function Dead(f: Floats, now: int, e: Entry): bool { Expired(f, now, e.time, e.ex, e.px) }

  /** Dead entries stay dead. */
  lemma DeadForGood(f: Floats, now: int, later: int, e: Entry)
    requires Rounding(f) && now <= later && Dead(f, now, e)
    ensures Dead(f, later, e)
  {
    var a, b := f.sec(now) - f.sec(e.time), f.sec(later) - f.sec(e.time);
    assert f.sec(now) <= f.sec(later);
    assert f.fl(a) <= f.fl(b);
    assert f.fl(f.fl(a) * 1000.0) <= f.fl(f.fl(b) * 1000.0);
  }

  /** An entry is alive when it is written. */
  lemma BornAlive(f: Floats, now: int, e: Entry)
    requires Rounding(f) && e.time == now
    ensures !Dead(f, now, e)
  {
    assert f.fl(0.0) <= f.fl(e.ex as real) && f.fl(0.0) <= f.fl(e.px as real);
    assert f.sec(now) - f.sec(now) == 0.0;
  }

  // ---- which TTLs are honoured -----------------------------------------------------------------

  ghost predicate ClockPasses(f: Floats, x: real) { exists t: int :: f.sec(t) > x }

  ghost predicate RoundsAbove(f: Floats, x: real) { exists y: real :: f.fl(y) > x }

  /** The clock and the rounding leave no bound that a difference of times cannot exceed. */
  ghost predicate Unbounded(f: Floats) { forall x: real :: ClockPasses(f, x) && RoundsAbove(f, x) }

  /** Some later difference of clock readings rounds above `x`. */
  lemma LateEnough(f: Floats, start: int, x: real) returns (t: int)
    requires Rounding(f) && Unbounded(f)
    ensures t >= start && f.fl(f.sec(t) - f.sec(start)) > x
  {
    assert RoundsAbove(f, x);
    var y: real :| f.fl(y) > x;
    var far := if y > 0.0 then y else 0.0;
    assert ClockPasses(f, f.sec(start) + far);
    t :| f.sec(t) > f.sec(start) + far;
    assert f.fl(y) <= f.fl(f.sec(t) - f.sec(start));
    assert t < start ==> f.sec(t) <= f.sec(start);
  }

  /** A time at which an entry with a TTL is dead. */
  lemma DiesAt(f: Floats, e: Entry) returns (t: int)
    requires Rounding(f) && Unbounded(f) && (e.ex != 0 || e.px != 0)
    ensures t >= e.time && Dead(f, t, e)
  {
    if e.ex != 0 {
      t := LateEnough(f, e.time, f.fl(e.ex as real));
    } else {
      assert RoundsAbove(f, f.fl(e.px as real));
      var y: real :| f.fl(y) > f.fl(e.px as real);
      t := LateEnough(f, e.time, y / 1000.0);
      var delta := f.fl(f.sec(t) - f.sec(e.time));
      assert delta * 1000.0 >= y;
      assert f.fl(delta * 1000.0) >= f.fl(y);
    }
  }

  ghost predicate CanDie(f: Floats, e: Entry) { exists t: int :: t >= e.time && Dead(f, t, e) }

  lemma DiesIffTtl(f: Floats, e: Entry)
    requires Rounding(f) && Unbounded(f)
    ensures CanDie(f, e) <==> e.ex != 0 || e.px != 0
  {
    if e.ex != 0 || e.px != 0 { var t := DiesAt(f, e); }
  }

  // ---- the commands --------------------------------------------------------------------------

  function BulkReply(v: Bytes): Reply { Reply(Encode(Bulk(v))) }

  function GetSpec(f: Floats, m: Space, key: Bytes, now: int): (Reply, Space) {
    if key == [] then (NoReply, m)
    else if key !in m then (Reply(NIL), m)
    else if Dead(f, now, m[key]) then (Reply(NIL), m - {key})
    else (BulkReply(m[key].value), m)
  }

  /** The three combinations of a TTL with another option have no executor. */
  predicate Supported(c: SetCommand) { c.ttl == None || (c.cond == None && !c.get) }

  predicate Stores(c: SetCommand) { Supported(c) && c.key != [] && c.value != [] }

  /** NX writes only a missing key, XX only a present one. */
  predicate Allowed(m: Space, c: SetCommand) {
    match c.cond case None => true case Some(o) => (o == NX) == (c.key !in m)
  }

  function TtlValue(t: Ttl): nat { if AllDigits(t.digits) then DecVal(t.digits) % TWO32 else 0 }

  /** The entry a successful SET writes; EXAT and PXAT count from now, like EX and PX. */
  function Written(c: SetCommand, now: int): Entry {
    var seconds := c.ttl.Some? && (c.ttl.value.unit == EX || c.ttl.value.unit == EXAT);
    Entry(c.value, now,
          if seconds then TtlValue(c.ttl.value) else 0,
          if c.ttl.Some? && !seconds then TtlValue(c.ttl.value) else 0)
  }

  /** A TTL is honoured exactly when its digits are not a multiple of 2^32. */
  lemma {:induction false} TtlHonoured(f: Floats, c: SetCommand, now: int)
    requires Rounding(f) && Unbounded(f)
    requires c.ttl.Some? && IsTtl(c.ttl.value.unit) && AllDigits(c.ttl.value.digits)
    ensures CanDie(f, Written(c, now)) <==> DecVal(c.ttl.value.digits) % TWO32 != 0
  {
    DiesIffTtl(f, Written(c, now));
  }

  /** The smallest positive TTL that is not: 4294967296. */
  lemma {:induction false} TtlWrapsToNone(f: Floats, c: SetCommand, unit: OptionType, now: int, later: int)
    requires c.ttl == Some(Ttl(unit, Dec(TWO32)))
    ensures !Dead(f, later, Written(c, now))
  {
    DecValDec(TWO32);
  }

  function OldValue(m: Space, key: Bytes): Reply {
    if key in m then BulkReply(m[key].value) else Reply(NIL)
  }

  function SetSpec(m: Space, c: SetCommand, now: int): (Reply, Space) {
    if !Stores(c) then (NoReply, m)
    else (if c.get then OldValue(m, c.key) else Reply(if Allowed(m, c) then OK else NIL),
          if Allowed(m, c) then m[c.key := Written(c, now)] else m)
  }

  function Step(f: Floats, m: Space, cmd: Command, now: int): (Reply, Space) {
    match cmd
    case Get(k) => GetSpec(f, m, k, now)
    case Set(c) => SetSpec(m, c, now)
    case Invalid => (NoReply, m)
  }

  // ---- lazy and eager expiry -------------------------------------------------------------------

  /** The map without its dead entries. */
  function Purge(f: Floats, m: Space, now: int): Space {
    map k | k in m && !Dead(f, now, m[k]) :: m[k]
  }

  datatype Timed = Timed(cmd: Command, now: int)

  /** The replies of a run that removes dead entries only on GET. */
  function LazyRun(f: Floats, m: Space, run: seq<Timed>): seq<Reply>
    decreases run
  {
    if run == [] then [] else
      var (reply, m') := Step(f, m, run[0].cmd, run[0].now);
      [reply] + LazyRun(f, m', run[1..])
  }

  function LazyState(f: Floats, m: Space, run: seq<Timed>): Space {
    if run == [] then m else
      var n := |run| - 1;
      Step(f, LazyState(f, m, run[..n]), run[n].cmd, run[n].now).1
  }

  /** The replies of a run that drops every dead entry before each command. */
  function EagerRun(f: Floats, m: Space, run: seq<Timed>): seq<Reply>
    decreases run
  {
    if run == [] then [] else
      var (reply, m') := Step(f, Purge(f, m, run[0].now), run[0].cmd, run[0].now);
      [reply] + EagerRun(f, m', run[1..])
  }

  predicate NonDecreasing(run: seq<Timed>) {
    forall i, j :: 0 <= i < j < |run| ==> run[i].now <= run[j].now
  }

  /** The commands that look a key up without checking its expiry: NX, XX and GET options. */
  predicate LooksUp(cmd: Command) { cmd.Set? && Stores(cmd.c) && (cmd.c.cond.Some? || cmd.c.get) }

  /** A command that looks up a key which is there but dead. */
  predicate HitsDead(f: Floats, m: Space, t: Timed) {
    LooksUp(t.cmd) && t.cmd.c.key in m && Dead(f, t.now, m[t.cmd.c.key])
  }

  /** No command of the run does that. */
  predicate Safe(f: Floats, m: Space, run: seq<Timed>)
    decreases run
  {
    run == [] || (!HitsDead(f, m, run[0]) && Safe(f, Step(f, m, run[0].cmd, run[0].now).1, run[1..]))
  }

  lemma PurgeTwice(f: Floats, m: Space, now: int, later: int)
    requires Rounding(f) && now <= later
    ensures Purge(f, Purge(f, m, now), later) == Purge(f, m, later)
  {
    forall k | k in m && Dead(f, now, m[k]) ensures Dead(f, later, m[k]) { DeadForGood(f, now, later, m[k]); }
  }

  lemma PurgeUpdate(f: Floats, m: Space, key: Bytes, e: Entry, now: int)
    requires Rounding(f) && e.time == now
    ensures Purge(f, m[key := e], now) == Purge(f, m, now)[key := e]
  {
    BornAlive(f, now, e);
  }

  /** A bulk reply is never the nil reply. */
  lemma BulkIsNotNil(v: Bytes)
    ensures BulkReply(v) != Reply(NIL)
  {
    assert Encode(Bulk(v))[1] == Dec(|v|)[0] && IsDigit(Dec(|v|)[0]);
  }

  /** One command: a command that hits no dead key gets the same reply from the purged map and
      leaves maps with the same live part; one that does gets another reply. */
  lemma {:induction false} StepAgrees(f: Floats, m: Space, t: Timed)
    requires Rounding(f)
    ensures var (reply, m1) := Step(f, m, t.cmd, t.now);
            var (reply', m2) := Step(f, Purge(f, m, t.now), t.cmd, t.now);
            && (reply == reply' <==> !HitsDead(f, m, t))
            && (!HitsDead(f, m, t) ==> Purge(f, m1, t.now) == Purge(f, m2, t.now))
  {
    var p := Purge(f, m, t.now);
    PurgeTwice(f, m, t.now, t.now);
    match t.cmd {
      case Get(k) =>
        if k in m && Dead(f, t.now, m[k]) { assert Purge(f, m - {k}, t.now) == p; }
      case Set(c) =>
        var e := Written(c, t.now);
        PurgeUpdate(f, m, c.key, e, t.now);
        PurgeUpdate(f, p, c.key, e, t.now);
        if c.key in m { BulkIsNotNil(m[c.key].value); }
      case Invalid =>
    }
  }

  /** Runs whose maps have the same live part behave alike. */
  lemma {:induction false} SameLivePart(f: Floats, l: Space, e: Space, run: seq<Timed>)
    requires Rounding(f) && NonDecreasing(run)
    requires run != [] ==> Purge(f, l, run[0].now) == Purge(f, e, run[0].now)
    ensures LazyRun(f, l, run) == EagerRun(f, e, run) <==> Safe(f, l, run)
    decreases run
  {
    if run != [] {
      var t, rest := run[0], run[1..];
      StepAgrees(f, l, t);
      var (reply, l') := Step(f, l, t.cmd, t.now);
      var (reply', e') := Step(f, Purge(f, e, t.now), t.cmd, t.now);
      var ls, es := LazyRun(f, l', rest), EagerRun(f, e', rest);
      assert LazyRun(f, l, run) == [reply] + ls && EagerRun(f, e, run) == [reply'] + es;
      assert ([reply] + ls)[0] == reply && ([reply'] + es)[0] == reply';
      assert ([reply] + ls)[1..] == ls && ([reply'] + es)[1..] == es;
      if !HitsDead(f, l, t) {
        if rest != [] {
          PurgeTwice(f, l', t.now, rest[0].now);
          PurgeTwice(f, e', t.now, rest[0].now);
        }
        SameLivePart(f, l', e', rest);
      }
    }
  }

  /** Lazy expiry is eager expiry: under a non-decreasing clock and any monotone rounding, the
      replies of a whole run are those of a map that expires eagerly exactly when no NX, XX or
      GET option looks up a key that is present and dead. */
  lemma {:induction false} LazyIsEager(f: Floats, m: Space, run: seq<Timed>)
    requires Rounding(f) && NonDecreasing(run)
    ensures LazyRun(f, m, run) == EagerRun(f, m, run) <==> Safe(f, m, run)
  {
    SameLivePart(f, m, m, run);
  }

  /** A nanosecond clock read in seconds, and exact arithmetic. */
  function ExactSeconds(): Floats { Floats(t => t as real / 1_000_000_000.0, x => x) }

  lemma TwoCommands(f: Floats, m: Space, a: Timed, b: Timed)
    ensures var (r, m') := Step(f, m, a.cmd, a.now);
      LazyRun(f, m, [a, b]) == [r, Step(f, m', b.cmd, b.now).0]
    ensures var (r, m') := Step(f, Purge(f, m, a.now), a.cmd, a.now);
      EagerRun(f, m, [a, b]) == [r, Step(f, Purge(f, m', b.now), b.cmd, b.now).0]
  {
    assert [a, b][1..] == [b] && [b][1..] == [];
    var m1, m2 := Step(f, m, a.cmd, a.now).1, Step(f, Purge(f, m, a.now), a.cmd, a.now).1;
    assert LazyRun(f, m1, [b]) == [Step(f, m1, b.cmd, b.now).0];
    assert EagerRun(f, m2, [b]) == [Step(f, Purge(f, m2, b.now), b.cmd, b.now).0];
  }

  /** A run that eager expiry answers differently: a key is written to live one millisecond, and
      two seconds later XX still finds it. */
  lemma {:induction false} LazyIsNotEager(key: Bytes, v: Bytes, w: Bytes)
    requires key != [] && v != [] && w != []
    ensures var f := ExactSeconds();
      var run := [Timed(Set(SetCommand(key, v, None, false, Some(Ttl(PX, [49])))), 0),
                  Timed(Set(SetCommand(key, w, Some(XX), false, None)), 2_000_000_000)];
      && Rounding(f) && NonDecreasing(run)
      && LazyRun(f, map[], run) == [Reply(OK), Reply(OK)]
      && EagerRun(f, map[], run) == [Reply(OK), Reply(NIL)]
  {
    var f, later := ExactSeconds(), 2_000_000_000;
    var c, d := SetCommand(key, v, None, false, Some(Ttl(PX, [49]))), SetCommand(key, w, Some(XX), false, None);
    var run := [Timed(Set(c), 0), Timed(Set(d), later)];
    var e := Written(c, 0);
    assert [49][..0] == [] && DecVal([49]) == 1;
    assert e == Entry(v, 0, 0, 1) && Dead(f, later, e);
    var m: Space := map[key := e];
    assert Step(f, map[], Set(c), 0) == (Reply(OK), m);
    assert Purge(f, map[], 0) == map[] && Purge(f, m, later) == map[];
    assert Step(f, m, Set(d), later).0 == Reply(OK) && Step(f, map[], Set(d), later).0 == Reply(NIL);
    TwoCommands(f, map[], run[0], run[1]);
  }

  /** Without those options every run is safe: GET, plain SET and SET with a TTL. */
  lemma {:induction false} PlainRunsAreSafe(f: Floats, m: Space, run: seq<Timed>)
    requires forall i :: 0 <= i < |run| ==> !LooksUp(run[i].cmd)
    ensures Safe(f, m, run)
    decreases run
  {
    if run != [] {
      PlainRunsAreSafe(f, Step(f, m, run[0].cmd, run[0].now).1, run[1..]);
    }
  }

  lemma {:induction false} LazyRunAppend(f: Floats, m: Space, run: seq<Timed>, t: Timed)
    ensures LazyRun(f, m, run + [t]) == LazyRun(f, m, run) + [Step(f, LazyState(f, m, run), t.cmd, t.now).0]
    decreases run
  {
    if run == [] {
      assert run + [t] == [t];
    } else {
      var m' := Step(f, m, run[0].cmd, run[0].now).1;
      assert (run + [t])[1..] == run[1..] + [t];
      LazyRunAppend(f, m', run[1..], t);
      LazyStateFront(f, m, run);
    }
  }

  /** What one more command adds to what is sent. */
  lemma SentAppend(f: Floats, m: Space, run: seq<Timed>, t: Timed)
    ensures SentAll(LazyRun(f, m, run + [t]))
         == SentAll(LazyRun(f, m, run)) + [Sent(Step(f, LazyState(f, m, run), t.cmd, t.now).0)]
  {
    LazyRunAppend(f, m, run, t);
    var rs, r := LazyRun(f, m, run), Step(f, LazyState(f, m, run), t.cmd, t.now).0;
    assert (rs + [r])[..|rs|] == rs;
  }

  lemma {:induction false} LazyStateFront(f: Floats, m: Space, run: seq<Timed>)
    requires run != []
    ensures LazyState(f, m, run) == LazyState(f, Step(f, m, run[0].cmd, run[0].now).1, run[1..])
    decreases run
  {
    var n := |run| - 1;
    if n == 0 {
      assert run[..0] == [] && run[1..] == [];
    } else {
      LazyStateFront(f, m, run[..n]);
      assert run[..n][1..] == run[1..][..n - 1];
    }
  }

  // ---- reading back ------------------------------------------------------------------------------

  /** No command of the run writes key `k`, and none is later than `until`. */
  predicate Leaves(run: seq<Timed>, k: Bytes, until: int) {
    forall i :: 0 <= i < |run| ==> run[i].now <= until && !(run[i].cmd.Set? && run[i].cmd.c.key == k)
  }

  /** An entry that nothing overwrites stays as it was written until it is dead. */
  lemma {:induction false} EntryStays(f: Floats, m: Space, run: seq<Timed>, k: Bytes, until: int)
    requires Rounding(f) && k in m && Leaves(run, k, until)
    ensures var after := LazyState(f, m, run);
      if k in after then after[k] == m[k] else Dead(f, until, m[k])
  {
    if run != [] {
      var n := |run| - 1;
      EntryStays(f, m, run[..n], k, until);
      if Dead(f, run[n].now, m[k]) { DeadForGood(f, run[n].now, until, m[k]); }
    }
  }

  /** A TTL in plain terms: its digits modulo 2^32, if not 0, as seconds for EX and EXAT and as
      milliseconds for PX and PXAT, against the rounded difference of two clock readings. */
  predicate PastTtl(f: Floats, c: SetCommand, now: int, later: int) {
    match c.ttl
    case None => false
    case Some(t) =>
      var n := if AllDigits(t.digits) then DecVal(t.digits) % 4_294_967_296 else 0;
      var waited := f.fl(f.sec(later) - f.sec(now));
      var seconds := t.unit == EX || t.unit == EXAT;
      n != 0 && if seconds then waited > f.fl(n as real) else f.fl(waited * 1000.0) > f.fl(n as real)
  }

  lemma PastIsDead(f: Floats, c: SetCommand, now: int, later: int)
    ensures Dead(f, later, Written(c, now)) <==> PastTtl(f, c, now, later)
  {
  }

  /** The last write alone decides: after a successful SET and any commands that do not write the
      key, GET returns the value written until the TTL of that write is over, and nil from then on,
      whatever the key held before. */
  lemma {:induction false} LastWriteDecides(f: Floats, m: Space, c: SetCommand, now: int, run: seq<Timed>, later: int)
    requires Rounding(f) && Stores(c) && Allowed(m, c) && Leaves(run, c.key, later)
    ensures var after := LazyState(f, SetSpec(m, c, now).1, run);
      GetSpec(f, after, c.key, later).0 == if PastTtl(f, c, now, later) then Reply(NIL) else BulkReply(c.value)
  {
    EntryStays(f, SetSpec(m, c, now).1, run, c.key, later);
    PastIsDead(f, c, now, later);
  }
}
