/** What GET and SET promise on argument lists, in literal option words, replies, map updates and
    nanoseconds: nothing here is said through the definitions the executors follow. */
module Outcomes {
  import opened Base
  import opened Resp
  import opened SetParser
  import opened Keyspace
  import opened Commands

  /** SET on its arguments, and GET on a key. */
  ghost function SetStep(f: Floats, m: Space, args: seq<Tree>, now: int): (Reply, Space) {
    Step(f, m, SetMeaning(args), now)
  }

  function GetStep(f: Floats, m: Space, key: Bytes, now: int): (Reply, Space) {
    Step(f, m, GetMeaning([Bulk(key)]), now)
  }

  function Nil(): Reply { Reply([36, 45, 49, 13, 10]) }

  function Ok(): Reply { Reply([43, 79, 75, 13, 10]) }

  lemma Means(args: seq<Tree>, c: SetCommand)
    requires Spells(args, c)
    ensures SetMeaning(args) == Set(c)
  {
    SpellsOnce(args, c, SetMeaning(args).c);
  }

  // ---- the option words ------------------------------------------------------------------------

  lemma ConditionWords()
    ensures GetOptionType([78, 88]) == NX && GetOptionType([88, 88]) == XX && GetOptionType([71, 69, 84]) == GET
  {
  }

  lemma TtlWords()
    ensures GetOptionType([69, 88]) == EX && GetOptionType([80, 88]) == PX
    ensures GetOptionType([69, 88, 65, 84]) == EXAT && GetOptionType([80, 88, 65, 84]) == PXAT
  {
  }

  /** `SET key value`. */
  lemma {:induction false} PlainSet(f: Floats, m: Space, key: Bytes, value: Bytes, now: int)
    requires key != [] && value != []
    ensures SetStep(f, m, [Bulk(key), Bulk(value)], now) == (Ok(), m[key := Entry(value, now, 0, 0)])
  {
    Means([Bulk(key), Bulk(value)], SetCommand(key, value, None, false, None));
  }

  /** `SET key value NX` writes exactly a missing key. */
  lemma {:induction false} SetNx(f: Floats, m: Space, key: Bytes, value: Bytes, now: int)
    requires key != [] && value != []
    ensures SetStep(f, m, [Bulk(key), Bulk(value), Bulk([78, 88])], now)
      == if key in m then (Nil(), m) else (Ok(), m[key := Entry(value, now, 0, 0)])
  {
    ConditionWords();
    Means([Bulk(key), Bulk(value), Bulk([78, 88])], SetCommand(key, value, Some(NX), false, None));
  }

  /** `SET key value XX` writes exactly a present one. */
  lemma {:induction false} SetXx(f: Floats, m: Space, key: Bytes, value: Bytes, now: int)
    requires key != [] && value != []
    ensures SetStep(f, m, [Bulk(key), Bulk(value), Bulk([88, 88])], now)
      == if key in m then (Ok(), m[key := Entry(value, now, 0, 0)]) else (Nil(), m)
  {
    ConditionWords();
    Means([Bulk(key), Bulk(value), Bulk([88, 88])], SetCommand(key, value, Some(XX), false, None));
  }

  /** What SET with GET replies: the value the key had, or nil. */
  function Had(m: Space, key: Bytes): Reply {
    if key in m then Reply(Encode(Bulk(m[key].value))) else Reply([36, 45, 49, 13, 10])
  }

  /** `SET key value GET` replies with the old value and writes. */
  lemma {:induction false} SetGet(f: Floats, m: Space, key: Bytes, value: Bytes, now: int)
    requires key != [] && value != []
    ensures SetStep(f, m, [Bulk(key), Bulk(value), Bulk([71, 69, 84])], now)
      == (Had(m, key), m[key := Entry(value, now, 0, 0)])
  {
    ConditionWords();
    Means([Bulk(key), Bulk(value), Bulk([71, 69, 84])], SetCommand(key, value, None, true, None));
  }

  /** `SET key value NX GET` and `SET key value XX GET` reply with the old value too, and write as
      without GET. */
  lemma {:induction false} SetNxGet(f: Floats, m: Space, key: Bytes, value: Bytes, now: int)
    requires key != [] && value != []
    ensures SetStep(f, m, [Bulk(key), Bulk(value), Bulk([78, 88]), Bulk([71, 69, 84])], now)
      == (Had(m, key), if key in m then m else m[key := Entry(value, now, 0, 0)])
  {
    ConditionWords();
    Means([Bulk(key), Bulk(value), Bulk([78, 88]), Bulk([71, 69, 84])], SetCommand(key, value, Some(NX), true, None));
  }

  lemma {:induction false} SetXxGet(f: Floats, m: Space, key: Bytes, value: Bytes, now: int)
    requires key != [] && value != []
    ensures SetStep(f, m, [Bulk(key), Bulk(value), Bulk([88, 88]), Bulk([71, 69, 84])], now)
      == (Had(m, key), if key in m then m[key := Entry(value, now, 0, 0)] else m)
  {
    ConditionWords();
    Means([Bulk(key), Bulk(value), Bulk([88, 88]), Bulk([71, 69, 84])], SetCommand(key, value, Some(XX), true, None));
  }

  /** The words EX and EXAT, and PX and PXAT. */
  predicate Seconds(word: Bytes) { word == [69, 88] || word == [69, 88, 65, 84] }

  predicate Milliseconds(word: Bytes) { word == [80, 88] || word == [80, 88, 65, 84] }

  lemma TtlMeans(key: Bytes, value: Bytes, word: Bytes, digits: Bytes)
    requires (Seconds(word) || Milliseconds(word)) && digits != [] && AllDigits(digits)
    ensures SetMeaning([Bulk(key), Bulk(value), Bulk(word), Bulk(digits)])
      == Set(SetCommand(key, value, None, false, Some(Ttl(GetOptionType(word), digits))))
    ensures IsTtl(GetOptionType(word))
  {
    TtlWords();
    Means([Bulk(key), Bulk(value), Bulk(word), Bulk(digits)],
          SetCommand(key, value, None, false, Some(Ttl(GetOptionType(word), digits))));
  }

  /** A third argument alone is an option exactly when it is NX, XX or GET, in capitals. */
  lemma {:induction false} ThirdArgument(key: Bytes, value: Bytes, word: Bytes)
    ensures SetMeaning([Bulk(key), Bulk(value), Bulk(word)]) != Invalid
      <==> CStr(word) == [78, 88] || CStr(word) == [88, 88] || CStr(word) == [71, 69, 84]
  {
    var args := [Bulk(key), Bulk(value), Bulk(word)];
    if CStr(word) == [78, 88] {
      Means(args, SetCommand(key, value, Some(NX), false, None));
    } else if CStr(word) == [88, 88] {
      Means(args, SetCommand(key, value, Some(XX), false, None));
    } else if CStr(word) == [71, 69, 84] {
      Means(args, SetCommand(key, value, None, true, None));
    } else {
      assert SetMeaning(args).Set? ==> Spells(args, SetMeaning(args).c);
    }
  }

  // ---- what is refused ---------------------------------------------------------------------------

  /** An empty key or value writes nothing and has no reply, with any options. */
  lemma {:induction false} EmptyRefused(f: Floats, m: Space, args: seq<Tree>, now: int)
    requires |args| >= 2 && (args[0] == Bulk([]) || args[1] == Bulk([]))
    ensures SetStep(f, m, args, now) == (NoReply, m)
    ensures GetStep(f, m, [], now) == (NoReply, m)
  {
    assert SetMeaning(args).Set? ==> Spells(args, SetMeaning(args).c);
  }

  /** SET with five or more arguments, which is a TTL behind another option or nothing at all, never
      writes and has no reply. */
  lemma {:induction false} FiveArguments(f: Floats, m: Space, args: seq<Tree>, now: int)
    requires |args| >= 5
    ensures SetStep(f, m, args, now) == (NoReply, m)
  {
    assert SetMeaning(args).Set? ==> Spells(args, SetMeaning(args).c);
  }

  /** The commands that leave their two nodes allocated are those with five or more arguments, when
      they are in order and key and value are not empty. */
  lemma {:induction false} LeakingForms(args: seq<Tree>)
    ensures Leaks(SetMeaning(args)) <==>
      SetMeaning(args) != Invalid && |args| >= 5 && args[0] != Bulk([]) && args[1] != Bulk([])
  {
    assert SetMeaning(args).Set? ==> Spells(args, SetMeaning(args).c);
  }

  /** GET has exactly one argument, a bulk string. */
  lemma {:induction false} GetForms(f: Floats, m: Space, args: seq<Tree>, now: int)
    ensures |args| == 1 && args[0].Bulk? ==> GetMeaning(args) == Get(args[0].data)
    ensures |args| != 1 || args[0].Arr? ==> Step(f, m, GetMeaning(args), now) == (NoReply, m)
  {
  }

  // ---- the grammar of SET, read from the front --------------------------------------------------------

  predicate Word(args: seq<Tree>, w: Bytes) { args != [] && args[0].Bulk? && CStr(args[0].data) == w }

  predicate Number(t: Tree) { t.Bulk? && t.data != [] && forall i :: 0 <= i < |t.data| ==> 48 <= t.data[i] <= 57 }

  /** Nothing, or a unit and a number. */
  predicate TtlForm(args: seq<Tree>) {
    args == []
    || (&& |args| == 2 && Number(args[1])
        && (|| Word(args, [69, 88]) || Word(args, [80, 88])
            || Word(args, [69, 88, 65, 84]) || Word(args, [80, 88, 65, 84])))
  }

  predicate GetForm(args: seq<Tree>) { TtlForm(args) || (Word(args, [71, 69, 84]) && TtlForm(args[1..])) }

  predicate OptionForm(args: seq<Tree>) {
    GetForm(args) || ((Word(args, [78, 88]) || Word(args, [88, 88])) && GetForm(args[1..]))
  }

  predicate SetForm(args: seq<Tree>) { |args| >= 2 && args[0].Bulk? && args[1].Bulk? && OptionForm(args[2..]) }

  lemma TtlIsForm(args: seq<Tree>, t: nat, ttl: Option<Ttl>)
    requires |args| == t + if ttl.Some? then 2 else 0
    requires ttl.Some? ==>
      && IsTtl(ttl.value.unit) && Names(args, t, ttl.value.unit)
      && ttl.value.digits != [] && AllDigits(ttl.value.digits) && args[t + 1] == Bulk(ttl.value.digits)
    ensures TtlForm(args[t..])
  {
    if ttl.Some? { assert args[t..][0] == args[t] && args[t..][1] == args[t + 1]; }
  }

  lemma GetIsForm(args: seq<Tree>, g: nat, get: bool)
    requires if get then Names(args, g, GET) && TtlForm(args[g + 1..]) else g <= |args| && TtlForm(args[g..])
    ensures GetForm(args[g..])
  {
    if get { assert args[g..][1..] == args[g + 1..] && args[g..][0] == args[g]; }
  }

  lemma SpelledIsForm(args: seq<Tree>, c: SetCommand)
    requires Spells(args, c)
    ensures SetForm(args)
  {
    var g := 2 + CondWidth(c);
    TtlIsForm(args, g + GetWidth(c), c.ttl);
    GetIsForm(args, g, c.get);
    if c.cond.Some? { assert args[2..][1..] == args[g..] && args[2..][0] == args[2]; }
  }

  lemma TtlFormMeans(args: seq<Tree>, t: nat) returns (ttl: Option<Ttl>)
    requires t <= |args| && TtlForm(args[t..])
    ensures |args| == t + if ttl.Some? then 2 else 0
    ensures ttl.Some? ==>
      && IsTtl(ttl.value.unit) && Names(args, t, ttl.value.unit)
      && ttl.value.digits != [] && AllDigits(ttl.value.digits) && args[t + 1] == Bulk(ttl.value.digits)
  {
    if args[t..] == [] {
      ttl := None;
    } else {
      assert args[t..][0] == args[t] && args[t..][1] == args[t + 1];
      ttl := Some(Ttl(GetOptionType(args[t].data), args[t + 1].data));
    }
  }

  lemma FormIsSpelled(args: seq<Tree>) returns (c: SetCommand)
    requires SetForm(args)
    ensures Spells(args, c)
  {
    var cond: Option<OptionType>, g, get := None, 2, false;
    if !GetForm(args[2..]) {
      cond, g := Some(GetOptionType(args[2].data)), 3;
      assert args[2..][1..] == args[3..];
    }
    var t := g;
    if !TtlForm(args[g..]) {
      get, t := true, g + 1;
      assert args[g..][1..] == args[t..] && args[g..][0] == args[g];
    }
    var ttl := TtlFormMeans(args, t);
    c := SetCommand(args[0].data, args[1].data, cond, get, ttl);
  }

  /** SET accepts exactly `key value [NX|XX] [GET] [(EX|PX|EXAT|PXAT) number]`, with these words in
      capitals, up to a NUL. */
  lemma {:induction false} SetForms(args: seq<Tree>)
    ensures SetMeaning(args) != Invalid <==> SetForm(args)
  {
    if SetMeaning(args).Set? { SpelledIsForm(args, SetMeaning(args).c); }
    if SetForm(args) {
      var c := FormIsSpelled(args);
      Means(args, c);
    }
  }

  // ---- how long a value lives ----------------------------------------------------------------------

  lemma WordUnits(word: Bytes)
    ensures Seconds(word) ==> GetOptionType(word) == EX || GetOptionType(word) == EXAT
    ensures Milliseconds(word) ==> GetOptionType(word) == PX || GetOptionType(word) == PXAT
  {
    TtlWords();
  }

  lemma TtlStep(f: Floats, m: Space, key: Bytes, value: Bytes, unit: OptionType, digits: Bytes, now: int)
    requires key != [] && value != [] && IsTtl(unit) && digits != [] && AllDigits(digits)
    ensures var n := DecVal(digits) % 4_294_967_296;
      Step(f, m, Set(SetCommand(key, value, None, false, Some(Ttl(unit, digits)))), now)
      == (Ok(), m[key := if unit == EX || unit == EXAT then Entry(value, now, n, 0) else Entry(value, now, 0, n)])
  {
  }

  /** SET with a TTL writes the digits modulo 2^32, in one of two fields. */
  lemma {:induction false} SetTtl(f: Floats, m: Space, key: Bytes, value: Bytes, word: Bytes, digits: Bytes, now: int)
    requires key != [] && value != [] && (Seconds(word) || Milliseconds(word)) && digits != [] && AllDigits(digits)
    ensures var n := DecVal(digits) % 4_294_967_296;
      SetStep(f, m, [Bulk(key), Bulk(value), Bulk(word), Bulk(digits)], now)
      == (Ok(), m[key := if Seconds(word) then Entry(value, now, n, 0) else Entry(value, now, 0, n)])
  {
    TtlMeans(key, value, word, digits);
    WordUnits(word);
    TtlStep(f, m, key, value, GetOptionType(word), digits, now);
  }

  /** What GET makes of an entry with at most one of the fields set. */
  lemma GetSeconds(f: Floats, m: Space, key: Bytes, value: Bytes, time: int, n: nat, later: int)
    requires key != [] && key in m && m[key] == Entry(value, time, n, 0)
    ensures GetStep(f, m, key, later).0 ==
      if n != 0 && f.fl(f.sec(later) - f.sec(time)) > f.fl(n as real) then Nil() else Reply(Encode(Bulk(value)))
  {
  }

  lemma GetMilliseconds(f: Floats, m: Space, key: Bytes, value: Bytes, time: int, n: nat, later: int)
    requires key != [] && key in m && m[key] == Entry(value, time, 0, n)
    ensures GetStep(f, m, key, later).0 ==
      if n != 0 && f.fl(f.fl(f.sec(later) - f.sec(time)) * 1000.0) > f.fl(n as real) then Nil()
      else Reply(Encode(Bulk(value)))
  {
  }

  /** EX and EXAT are seconds from now: until the rounded difference of the clock readings is more
      than the rounded number, GET replies with the value, and from then on with nil. */
  lemma {:induction false} LivesSeconds(f: Floats, m: Space, key: Bytes, value: Bytes, word: Bytes, digits: Bytes,
                                        now: int, later: int)
    requires key != [] && value != [] && Seconds(word) && digits != [] && AllDigits(digits)
    ensures var (reply, m') := SetStep(f, m, [Bulk(key), Bulk(value), Bulk(word), Bulk(digits)], now);
      var n := DecVal(digits) % 4_294_967_296;
      && reply == Ok()
      && GetStep(f, m', key, later).0 ==
         if n != 0 && f.fl(f.sec(later) - f.sec(now)) > f.fl(n as real) then Nil() else Reply(Encode(Bulk(value)))
  {
    var n := DecVal(digits) % 4_294_967_296;
    SetTtl(f, m, key, value, word, digits, now);
    var m' := SetStep(f, m, [Bulk(key), Bulk(value), Bulk(word), Bulk(digits)], now).1;
    GetSeconds(f, m', key, value, now, n, later);
  }

  /** PX and PXAT are milliseconds from now. */
  lemma {:induction false} LivesMilliseconds(f: Floats, m: Space, key: Bytes, value: Bytes, word: Bytes, digits: Bytes,
                                             now: int, later: int)
    requires key != [] && value != [] && Milliseconds(word) && digits != [] && AllDigits(digits)
    ensures var (reply, m') := SetStep(f, m, [Bulk(key), Bulk(value), Bulk(word), Bulk(digits)], now);
      var n := DecVal(digits) % 4_294_967_296;
      && reply == Ok()
      && GetStep(f, m', key, later).0 ==
         if n != 0 && f.fl(f.fl(f.sec(later) - f.sec(now)) * 1000.0) > f.fl(n as real) then Nil()
         else Reply(Encode(Bulk(value)))
  {
    var n := DecVal(digits) % 4_294_967_296;
    SetTtl(f, m, key, value, word, digits, now);
    var m' := SetStep(f, m, [Bulk(key), Bulk(value), Bulk(word), Bulk(digits)], now).1;
    GetMilliseconds(f, m', key, value, now, n, later);
  }

  /** Clock readings are nanoseconds, and nothing is rounded. */
  ghost predicate Exact(f: Floats) {
    (forall t: int :: f.sec(t) == t as real / 1_000_000_000.0) && forall x: real :: f.fl(x) == x
  }

  lemma ExactTimes(f: Floats, now: int, later: int, n: nat)
    requires Exact(f)
    ensures var delta := f.fl(f.sec(later) - f.sec(now));
      && (delta > f.fl(n as real) <==> later - now > n * 1_000_000_000)
      && (f.fl(delta * 1000.0) > f.fl(n as real) <==> later - now > n * 1_000_000)
  {
    assert f.sec(later) - f.sec(now) == (later - now) as real / 1_000_000_000.0;
  }

  lemma LivesSecondsIf(f: Floats, m: Space, key: Bytes, value: Bytes, word: Bytes, digits: Bytes, n: nat,
                       now: int, later: int, over: bool)
    requires key != [] && value != [] && Seconds(word) && digits != [] && AllDigits(digits)
    requires 0 < n == DecVal(digits) % 4_294_967_296
    requires over <==> f.fl(f.sec(later) - f.sec(now)) > f.fl(n as real)
    ensures var (reply, m') := SetStep(f, m, [Bulk(key), Bulk(value), Bulk(word), Bulk(digits)], now);
      reply == Ok() && GetStep(f, m', key, later).0 == if over then Nil() else Reply(Encode(Bulk(value)))
  {
    LivesSeconds(f, m, key, value, word, digits, now, later);
  }

  /** The same without rounding: `SET key value EX n` is answered for n seconds, in nanoseconds. */
  lemma {:induction false} SecondsExactly(f: Floats, m: Space, key: Bytes, value: Bytes, word: Bytes, digits: Bytes,
                                          n: nat, now: int, later: int)
    requires Exact(f)
    requires key != [] && value != [] && Seconds(word) && digits != [] && AllDigits(digits)
    requires 0 < n == DecVal(digits) % 4_294_967_296
    ensures var (reply, m') := SetStep(f, m, [Bulk(key), Bulk(value), Bulk(word), Bulk(digits)], now);
      && reply == Ok()
      && GetStep(f, m', key, later).0 ==
         if later - now > n * 1_000_000_000 then Nil() else Reply(Encode(Bulk(value)))
  {
    ExactTimes(f, now, later, n);
    LivesSecondsIf(f, m, key, value, word, digits, n, now, later, later - now > n * 1_000_000_000);
  }

  lemma LivesMillisecondsIf(f: Floats, m: Space, key: Bytes, value: Bytes, word: Bytes, digits: Bytes, n: nat,
                       now: int, later: int, over: bool)
    requires key != [] && value != [] && Milliseconds(word) && digits != [] && AllDigits(digits)
    requires 0 < n == DecVal(digits) % 4_294_967_296
    requires over <==> f.fl(f.fl(f.sec(later) - f.sec(now)) * 1000.0) > f.fl(n as real)
    ensures var (reply, m') := SetStep(f, m, [Bulk(key), Bulk(value), Bulk(word), Bulk(digits)], now);
      reply == Ok() && GetStep(f, m', key, later).0 == if over then Nil() else Reply(Encode(Bulk(value)))
  {
    LivesMilliseconds(f, m, key, value, word, digits, now, later);
  }

  /** And `SET key value PX n` for n milliseconds. */
  lemma {:induction false} MillisecondsExactly(f: Floats, m: Space, key: Bytes, value: Bytes, word: Bytes,
                                               digits: Bytes, n: nat, now: int, later: int)
    requires Exact(f)
    requires key != [] && value != [] && Milliseconds(word) && digits != [] && AllDigits(digits)
    requires 0 < n == DecVal(digits) % 4_294_967_296
    ensures var (reply, m') := SetStep(f, m, [Bulk(key), Bulk(value), Bulk(word), Bulk(digits)], now);
      && reply == Ok()
      && GetStep(f, m', key, later).0 ==
         if later - now > n * 1_000_000 then Nil() else Reply(Encode(Bulk(value)))
  {
    ExactTimes(f, now, later, n);
    LivesMillisecondsIf(f, m, key, value, word, digits, n, now, later, later - now > n * 1_000_000);
  }

  // ---- the old value -------------------------------------------------------------------------------

  /** The run has no SET of the key. */
  predicate Untouched(run: seq<Timed>, key: Bytes) {
    forall i :: 0 <= i < |run| ==> !(run[i].cmd.Set? && run[i].cmd.c.key == key)
  }

  /** Command `i` of the run is a GET of the key that is answered nil. */
  predicate NilAt(f: Floats, m: Space, run: seq<Timed>, key: Bytes, i: nat) {
    i < |run| && run[i].cmd == Get(key) && Step(f, LazyState(f, m, run[..i]), Get(key), run[i].now).0 == Nil()
  }

  ghost predicate AnsweredNil(f: Floats, m: Space, run: seq<Timed>, key: Bytes) {
    exists i :: NilAt(f, m, run, key, i)
  }

  lemma NilAtLonger(f: Floats, m: Space, run: seq<Timed>, key: Bytes)
    requires run != []
    ensures var n := |run| - 1;
      AnsweredNil(f, m, run, key) <==> AnsweredNil(f, m, run[..n], key) || NilAt(f, m, run, key, n)
  {
    var n := |run| - 1;
    forall i: nat | i < n ensures NilAt(f, m, run, key, i) <==> NilAt(f, m, run[..n], key, i) {
      assert run[..n][..i] == run[..i];
    }
    if AnsweredNil(f, m, run[..n], key) {
      var i :| NilAt(f, m, run[..n], key, i);
      assert NilAt(f, m, run, key, i);
    }
  }

  /** What one command leaves of an entry it does not write. */
  lemma EntryStep(f: Floats, m: Space, t: Timed, key: Bytes)
    requires key in m && !(t.cmd.Set? && t.cmd.c.key == key)
    ensures var (reply, m') := Step(f, m, t.cmd, t.now);
      && (key in m' <==> !(t.cmd == Get(key) && Step(f, m, Get(key), t.now).0 == Nil()))
      && (key in m' ==> m'[key] == m[key])
  {
    BulkIsNotNil(m[key].value);
  }

  /** An entry that no SET touches stays, dead or not, until a GET of its key is answered nil. */
  lemma {:induction false} StaysUnlessNil(f: Floats, m: Space, run: seq<Timed>, key: Bytes)
    requires key in m && Untouched(run, key)
    ensures var after := LazyState(f, m, run);
      (key in after <==> !AnsweredNil(f, m, run, key)) && (key in after ==> after[key] == m[key])
    decreases |run|
  {
    if run != [] {
      var n := |run| - 1;
      var before := LazyState(f, m, run[..n]);
      StaysUnlessNil(f, m, run[..n], key);
      NilAtLonger(f, m, run, key);
      if key in before { EntryStep(f, before, run[n], key); }
    }
  }

  lemma BulkIsNotOk(v: Bytes)
    ensures Reply(Encode(Bulk(v))) != Ok()
  {
    assert Encode(Bulk(v))[0] == DOLLAR;
  }

  /** A SET that is answered `+OK` has written its second argument. */
  lemma OkWrites(f: Floats, m: Space, args: seq<Tree>, now: int, key: Bytes)
    requires |args| >= 2 && args[0] == Bulk(key) && SetStep(f, m, args, now).0 == Ok()
    ensures var m' := SetStep(f, m, args, now).1;
      key != [] && args[1].Bulk? && key in m' && m'[key].value == args[1].data
  {
    BulkIsNotOk(if key in m then m[key].value else []);
  }

  /** SET with GET replies with the value of the last write that was answered `+OK`, expired or not,
      unless a GET in between was answered nil; then the reply is nil. NX and XX change nothing in
      that. */
  lemma {:induction false} OldValueReplied(f: Floats, m: Space, args: seq<Tree>, now: int, run: seq<Timed>, key: Bytes,
                                           value: Bytes, later: int)
    requires |args| >= 2 && args[0] == Bulk(key) && SetStep(f, m, args, now).0 == Ok()
    requires Untouched(run, key) && value != []
    ensures args[1].Bulk?
    ensures var m' := SetStep(f, m, args, now).1;
      var after := LazyState(f, m', run);
      var had := if AnsweredNil(f, m', run, key) then Nil() else Reply(Encode(args[1]));
      && SetStep(f, after, [Bulk(key), Bulk(value), Bulk([71, 69, 84])], later).0 == had
      && SetStep(f, after, [Bulk(key), Bulk(value), Bulk([78, 88]), Bulk([71, 69, 84])], later).0 == had
      && SetStep(f, after, [Bulk(key), Bulk(value), Bulk([88, 88]), Bulk([71, 69, 84])], later).0 == had
  {
    OkWrites(f, m, args, now, key);
    var m' := SetStep(f, m, args, now).1;
    StaysUnlessNil(f, m', run, key);
    var after := LazyState(f, m', run);
    SetGet(f, after, key, value, later);
    SetNxGet(f, after, key, value, later);
    SetXxGet(f, after, key, value, later);
  }

  lemma {:induction false} StaysAbsent(f: Floats, m: Space, run: seq<Timed>, key: Bytes)
    requires key !in m && Untouched(run, key)
    ensures key !in LazyState(f, m, run)
    decreases |run|
  {
    if run != [] { StaysAbsent(f, m, run[..|run| - 1], key); }
  }

  /** On a key that was never written it replies nil. */
  lemma {:induction false} NoOldValue(f: Floats, m: Space, run: seq<Timed>, key: Bytes, value: Bytes, later: int)
    requires key !in m && Untouched(run, key) && key != [] && value != []
    ensures var after := LazyState(f, m, run);
      && SetStep(f, after, [Bulk(key), Bulk(value), Bulk([71, 69, 84])], later).0 == Nil()
      && SetStep(f, after, [Bulk(key), Bulk(value), Bulk([78, 88]), Bulk([71, 69, 84])], later).0 == Nil()
      && SetStep(f, after, [Bulk(key), Bulk(value), Bulk([88, 88]), Bulk([71, 69, 84])], later).0 == Nil()
      && GetStep(f, after, key, later).0 == Nil()
  {
    StaysAbsent(f, m, run, key);
    var after := LazyState(f, m, run);
    SetGet(f, after, key, value, later);
    SetNxGet(f, after, key, value, later);
    SetXxGet(f, after, key, value, later);
  }
}
