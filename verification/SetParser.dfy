/** The SET command's bitmask parser. Arguments are the sibling nodes after the command name,
    an argument pointer is a position among them, and `|args|` is the NULL pointer. */
module SetParser {
  import opened Base
  import opened Resp

  datatype OptionType = NX | XX | GET | EX | PX | EXAT | PXAT | INVALID

  const NX_TEXT: Bytes := [78, 88]
  const XX_TEXT: Bytes := [88, 88]
  const GET_TEXT: Bytes := [71, 69, 84]
  const EX_TEXT: Bytes := [69, 88]
  const PX_TEXT: Bytes := [80, 88]
  const EXAT_TEXT: Bytes := [69, 88, 65, 84]
  const PXAT_TEXT: Bytes := [80, 88, 65, 84]

  /** `strcmp` against each option name. */
  function GetOptionType(option: Bytes): OptionType {
    var c := CStr(option);
    if c == NX_TEXT then NX else if c == XX_TEXT then XX else if c == GET_TEXT then GET
    else if c == EX_TEXT then EX else if c == PX_TEXT then PX
    else if c == EXAT_TEXT then EXAT else if c == PXAT_TEXT then PXAT else INVALID
  }

  // ---- the grammar -----------------------------------------------------------------------

  /** A SET command in the abstract. */
  datatype SetCommand = SetCommand(key: Bytes, value: Bytes, cond: Option<OptionType>, get: bool,
                                   ttl: Option<Ttl>)

  datatype Ttl = Ttl(unit: OptionType, digits: Bytes)

  predicate IsCond(o: OptionType) { o == NX || o == XX }

  predicate IsTtl(o: OptionType) { o == EX || o == PX || o == EXAT || o == PXAT }

  /** The bulk string at position `i` names option `o`. */
  predicate Names(args: seq<Tree>, i: nat, o: OptionType) {
    i < |args| && args[i].Bulk? && GetOptionType(args[i].data) == o
  }

  function CondWidth(c: SetCommand): nat { if c.cond.Some? then 1 else 0 }

  function GetWidth(c: SetCommand): nat { if c.get then 1 else 0 }

  function TtlWidth(c: SetCommand): nat { if c.ttl.Some? then 2 else 0 }

  /** `key value [NX|XX] [GET] [(EX|PX|EXAT|PXAT) digits+]`, in this order and nothing more. */
  predicate Spells(args: seq<Tree>, c: SetCommand) {
    var g := 2 + CondWidth(c);
    var t := g + GetWidth(c);
    && |args| == t + TtlWidth(c)
    && args[0] == Bulk(c.key) && args[1] == Bulk(c.value)
    && (c.cond.Some? ==> IsCond(c.cond.value) && Names(args, 2, c.cond.value))
    && (c.get ==> Names(args, g, GET))
    && (c.ttl.Some? ==>
          && IsTtl(c.ttl.value.unit) && Names(args, t, c.ttl.value.unit)
          && c.ttl.value.digits != [] && AllDigits(c.ttl.value.digits)
          && args[t + 1] == Bulk(c.ttl.value.digits))
  }

  /** The final state: 0x70 for key and value, 0x08 for NX or XX, 0x04 for GET, 0x03 for a TTL. */
  function StateOf(c: SetCommand): bv8 {
    0x70 | (if c.cond.Some? then 0x08 else 0) | (if c.get then 0x04 else 0) | (if c.ttl.Some? then 0x03 else 0)
  }

  /** The argument each slot points to. */
  function SlotsOf(c: SetCommand): seq<Option<nat>> {
    var g := 2 + CondWidth(c);
    var t := g + GetWidth(c);
    [ if c.ttl.Some? then Some(t + 1) else None,
      if c.ttl.Some? then Some(t) else None,
      if c.get then Some(g) else None,
      if c.cond.Some? then Some(2) else None,
      Some(1), Some(0) ]
  }

  /** An argument list spells at most one command. */
  lemma {:induction false} SpellsOnce(args: seq<Tree>, c: SetCommand, d: SetCommand)
    requires Spells(args, c) && Spells(args, d)
    ensures c == d
  {
    assert |args| >= 3 ==> (Names(args, 2, NX) || Names(args, 2, XX) <==> c.cond.Some?);
    assert c.cond == d.cond;
    var g := 2 + CondWidth(c);
    assert |args| > g ==> (Names(args, g, GET) <==> c.get);
    assert c.get == d.get;
  }

  /** The state tells exactly which options are present. */
  lemma StateInjective(c: SetCommand, d: SetCommand)
    ensures StateOf(c) == StateOf(d) <==>
      (c.cond.Some? <==> d.cond.Some?) && c.get == d.get && (c.ttl.Some? <==> d.ttl.Some?)
  {
  }

  /** What a command that starts with `c`, spelled by the first `n` arguments, must go on with. */
  predicate CanFollow(args: seq<Tree>, n: nat, c: SetCommand)
    requires n < |args|
  {
    args[n].Bulk? &&
    var o := GetOptionType(args[n].data);
    || (IsCond(o) && c.cond == None && !c.get)
    || (o == GET && !c.get)
    || (IsTtl(o) && n + 2 == |args| && args[n + 1].Bulk? && args[n + 1].data != [] && AllDigits(args[n + 1].data))
  }

  /** The command with the option at position `n` added. */
  function Continued(args: seq<Tree>, n: nat, c: SetCommand): SetCommand
    requires n < |args| && args[n].Bulk?
  {
    var o := GetOptionType(args[n].data);
    if IsCond(o) then c.(cond := Some(o))
    else if o == GET then c.(get := true)
    else if n + 1 < |args| && args[n + 1].Bulk? then c.(ttl := Some(Ttl(o, args[n + 1].data)))
    else c
  }

  lemma {:induction false} Continuations(args: seq<Tree>, n: nat, c: SetCommand)
    requires n < |args| && Spells(args[..n], c) && c.ttl == None
    ensures CanFollow(args, n, c) ==>
      var c' := Continued(args, n, c);
      Spells(args[..if c'.ttl.Some? then n + 2 else n + 1], c')
    ensures !CanFollow(args, n, c) ==> forall d :: !Spells(args, d)
  {
    if CanFollow(args, n, c) { CanContinue(args, n, c); }
    forall d | Spells(args, d) ensures CanFollow(args, n, c) {
      Continues(args, n, c, d);
    }
  }

  lemma CanContinue(args: seq<Tree>, n: nat, c: SetCommand)
    requires n < |args| && Spells(args[..n], c) && c.ttl == None && CanFollow(args, n, c)
    ensures var c' := Continued(args, n, c);
      Spells(args[..if c'.ttl.Some? then n + 2 else n + 1], c')
  {
    assert forall i :: 0 <= i < n ==> args[..n][i] == args[i];
  }

  /** A longer list that `d` spells agrees with `c` on what `c` has. */
  lemma SameStart(args: seq<Tree>, n: nat, c: SetCommand, d: SetCommand)
    requires n < |args| && Spells(args[..n], c) && c.ttl == None && Spells(args, d)
    ensures c.cond.Some? ==> d.cond == c.cond
    ensures c.get ==> d.get && d.cond == c.cond
    ensures n == 2 + CondWidth(c) + GetWidth(c)
  {
    assert forall i :: 0 <= i < n ==> args[..n][i] == args[i];
    if c.cond.Some? { assert Names(args, 2, c.cond.value); }
    if c.get { assert Names(args, 2 + CondWidth(c), GET); }
  }

  lemma Continues(args: seq<Tree>, n: nat, c: SetCommand, d: SetCommand)
    requires n < |args| && Spells(args[..n], c) && c.ttl == None && Spells(args, d)
    ensures CanFollow(args, n, c)
  {
    SameStart(args, n, c, d);
  }

  // ---- the parser --------------------------------------------------------------------------

  const NULL_STATE: bv8 := 0xFF

  /** `*state > 0` for a signed char. */
  predicate Positive(state: bv8) { 0 < state < 0x80 }

  /** Bit `j` of the state, for any position a `char` shift can name. */
  predicate IsSet(state: bv8, j: nat) { j < 8 && state & ((1 as bv8) << j) != 0 }

  predicate BitsClear(state: bv8, low: int, high: int) {
    forall j: nat :: low <= j <= high ==> !IsSet(state, j)
  }

  /** Walks down from `bitPos`, which may be anything a `char` holds; bit 8 is never set. */
  method IsSetOptionValid(state: bv8, bitPos: int) returns (valid: bool)
    ensures valid <==> -1 <= bitPos <= 8 && BitsClear(state, 0, bitPos)
  {
    if bitPos < -1 || bitPos > 8 { return false; }
    var bit := bitPos;
    while bit > -1
      invariant -1 <= bit <= bitPos
      invariant BitsClear(state, bit + 1, bitPos)
    {
      if IsSet(state, bit) { return false; }
      bit := bit - 1;
    }
    return true;
  }

  lemma LowBits(state: bv8)
    ensures BitsClear(state, 0, 0) <==> state & 1 == 0
    ensures BitsClear(state, 0, 1) <==> state & 3 == 0
    ensures BitsClear(state, 0, 2) <==> state & 7 == 0
    ensures BitsClear(state, 0, 3) <==> state & 15 == 0
    ensures (1 as bv8) << 0 == 1 && (1 as bv8) << 1 == 2 && (1 as bv8) << 2 == 4 && (1 as bv8) << 3 == 8
  {
    assert IsSet(state, 0) <==> state & 1 != 0;
    assert IsSet(state, 1) <==> state & 2 != 0;
    assert IsSet(state, 2) <==> state & 4 != 0;
    assert IsSet(state, 3) <==> state & 8 != 0;
  }

  /** Which slots are still open after command `c`, and what filling one does to the state. */
  lemma ClearBits(c: SetCommand)
    ensures BitsClear(StateOf(c), 0, 3) <==> c.cond == None && !c.get && c.ttl == None
    ensures BitsClear(StateOf(c), 0, 2) <==> !c.get && c.ttl == None
    ensures BitsClear(StateOf(c), 0, 1) <==> c.ttl == None
    ensures forall o :: c.cond == None ==> StateOf(c) | ((1 as bv8) << 3) == StateOf(c.(cond := Some(o)))
    ensures StateOf(c) | ((1 as bv8) << 2) == StateOf(c.(get := true))
    ensures Positive(StateOf(c))
  {
    LowBits(StateOf(c));
  }

  lemma TtlBits(c: SetCommand, t: Ttl)
    requires c.ttl == None
    ensures var s := StateOf(c) | ((1 as bv8) << 1);
      && BitsClear(StateOf(c), 0, 1) && BitsClear(s, 0, 0)
      && s | ((1 as bv8) << 0) == StateOf(c.(ttl := Some(t))) && Positive(s | ((1 as bv8) << 0))
  {
    LowBits(StateOf(c));
    LowBits(StateOf(c) | ((1 as bv8) << 1));
  }

  lemma TtlSlots(c: SetCommand, t: Ttl)
    requires c.ttl == None
    ensures var n := 2 + CondWidth(c) + GetWidth(c);
      SlotsOf(c)[1 := Some(n)][0 := Some(n + 1)] == SlotsOf(c.(ttl := Some(t)))
  {
  }

  /** The parser's `*state`, its six slots and its `*gnode`, all updated in place. */
  class Parser {
    const args: seq<Tree>
    var state: bv8
    var slots: seq<Option<nat>>
    var next: nat

    constructor (args: seq<Tree>)
      ensures this.args == args && state == 0 && next == 0 && slots == [None, None, None, None, None, None]
    {
      this.args, state, next := args, 0, 0;
      slots := [None, None, None, None, None, None];
    }

    /** Files the argument under the cursor in slot `bit` and moves on, or fails the parse. */
    method HandleSetOptions(bit: nat)
      requires |slots| == 6 && bit <= 3 && next <= |args|
      modifies this
      ensures var valid := old(next) < |args| && BitsClear(old(state), 0, bit);
        if valid then
          && state == old(state) | ((1 as bv8) << bit) && next == old(next) + 1
          && slots == old(slots)[bit := Some(old(next))]
        else state == NULL_STATE && next == old(next) && slots == old(slots)
    {
      if next == |args| { state := NULL_STATE; return; }
      var valid := IsSetOptionValid(state, bit);
      if !valid { state := NULL_STATE; return; }
      slots := slots[bit := Some(next)];
      state := state | ((1 as bv8) << bit);
      next := next + 1;
    }

    /** A TTL's argument must be a non-empty digit string. */
    method ValidatePxExContent(last: nat)
      requires last < |args| && args[last].Bulk?
      modifies `state
      ensures state == if !Positive(old(state)) && old(state) != 0 then old(state)
                       else if args[last].data != [] && AllDigits(args[last].data) then old(state) else NULL_STATE
    {
      if state >= 0x80 { return; }
      var content := args[last].data;
      if |content| < 1 { state := NULL_STATE; return; }
      var i := 0;
      while i < |content|
        invariant 0 <= i <= |content| && AllDigits(content[..i])
        invariant state == old(state)
      {
        if content[i] < 48 || content[i] > 57 { state := NULL_STATE; return; }
        i := i + 1;
      }
      assert content[..i] == content;
    }

    /** Key and value: two bulk strings, the first with a sibling behind it. */
    method StageA()
      requires |slots| == 6 && next == 0 && args != []
      modifies this
      ensures var ok := |args| >= 2 && args[0].Bulk? && args[1].Bulk?;
        if ok then state == 0x70 && next == 2 && slots == old(slots)[5 := Some(0)][4 := Some(1)]
        else state == NULL_STATE && |slots| == 6 && next <= |args|
    {
      state := 0x40;
      while Positive(state) && state < 0x70
        invariant |slots| == 6 && (state == 0x40 || state == 0x60 || state == 0x70)
        invariant state == 0x40 ==> next == 0 && slots == old(slots)
        invariant state == 0x60 ==>
          next == 1 && |args| >= 2 && args[0].Bulk? && slots == old(slots)[5 := Some(0)]
        invariant state == 0x70 ==>
          && next == 2 && |args| >= 2 && args[0].Bulk? && args[1].Bulk?
          && slots == old(slots)[5 := Some(0)][4 := Some(1)]
        decreases 0x70 - state as int
      {
        if state == 0x40 {
          if !args[next].Bulk? || next + 1 >= |args| { state := NULL_STATE; return; }
          state := state | 0x20;
          slots := slots[5 := Some(next)];
          next := next + 1;
        } else {
          if !args[next].Bulk? { state := NULL_STATE; return; }
          state := state | 0x10;
          slots := slots[4 := Some(next)];
          next := next + 1;
        }
      }
    }

    /** The parse so far: the consumed arguments spell `c`, or no command at all is spelled. */
    ghost predicate Progress(c: SetCommand)
      reads this
    {
      && |slots| == 6 && next <= |args|
      && if Positive(state)
         then Spells(args[..next], c) && state == StateOf(c) && slots == SlotsOf(c) && (c.ttl.Some? ==> next == |args|)
         else state == NULL_STATE && forall d :: !Spells(args, d)
    }

    /** NX, XX or GET, of type `o`, in slot `bit`. */
    method PlainOption(bit: nat, o: OptionType, ghost c: SetCommand) returns (ghost c': SetCommand)
      requires Progress(c) && Positive(state) && next < |args| && Names(args, next, o)
      requires (bit == 3 && IsCond(o)) || (bit == 2 && o == GET)
      modifies this
      ensures Progress(c') && (Positive(state) ==> next > old(next))
    {
      ghost var n := next;
      assert c.ttl == None;
      Continuations(args, n, c);
      ClearBits(c);
      c' := Continued(args, n, c);
      HandleSetOptions(bit);
      if CanFollow(args, n, c) {
        ClearBits(c');
        assert state == StateOf(c') && slots == SlotsOf(c');
      }
    }

    /** A TTL option of type `o` and the digits behind it, which must end the command. */
    method TtlOption(o: OptionType, ghost c: SetCommand) returns (go: bool, ghost c': SetCommand)
      requires Progress(c) && Positive(state) && next < |args| && Names(args, next, o) && IsTtl(o)
      modifies this
      ensures go ==> Progress(c') && (Positive(state) ==> next > old(next))
      ensures !go ==> forall d :: !Spells(args, d)
    {
      assert c.ttl == None;
      Continuations(args, next, c);
      c' := Continued(args, next, c);
      go := FileTtl(c, Ttl(o, if next + 1 < |args| && args[next + 1].Bulk? then args[next + 1].data else []));
      if go { TtlDigits(c', next - 1); }
    }

    /** The option and its argument go into slots 1 and 0, if the argument is a bulk string and the
        last one. */
    method FileTtl(ghost c: SetCommand, ghost t: Ttl) returns (ok: bool)
      requires state == StateOf(c) && slots == SlotsOf(c) && c.ttl == None
      requires next == 2 + CondWidth(c) + GetWidth(c) < |args|
      modifies this
      ensures ok <==> old(next) + 2 == |args| && args[old(next) + 1].Bulk?
      ensures ok ==>
        var c' := c.(ttl := Some(t));
        state == StateOf(c') && slots == SlotsOf(c') && next == |args|
    {
      TtlBits(c, t);
      TtlSlots(c, t);
      HandleSetOptions(1);
      if next == |args| || !args[next].Bulk? || next + 1 < |args| { return false; }
      HandleSetOptions(0);
      ok := true;
    }

    /** The digits check: it leaves a parse of all arguments, or fails it. */
    method TtlDigits(ghost c: SetCommand, last: nat)
      requires |slots| == 6 && last + 1 == next == |args| && args[last].Bulk?
      requires state == StateOf(c) && slots == SlotsOf(c) && c.ttl.Some?
      requires if args[last].data != [] && AllDigits(args[last].data) then Spells(args, c)
               else forall d :: !Spells(args, d)
      modifies `state
      ensures Progress(c)
    {
      ClearBits(c);
      ValidatePxExContent(last);
      assert args[..next] == args;
    }

    /** One round of the loop: the option under the cursor and, for a TTL, its argument. */
    method ParseOption(ghost c: SetCommand) returns (go: bool, ghost c': SetCommand)
      requires Progress(c) && Positive(state) && next < |args|
      modifies this
      ensures go ==> Progress(c') && (Positive(state) ==> next > old(next))
      ensures !go ==> forall d :: !Spells(args, d)
    {
      Continuations(args, next, c);
      if !args[next].Bulk? { return false, c; }
      var o := GetOptionType(args[next].data);
      match o {
        case NX => c' := PlainOption(3, o, c);
        case XX => c' := PlainOption(3, o, c);
        case GET => c' := PlainOption(2, o, c);
        case INVALID => return false, c;
        case _ => go, c' := TtlOption(o, c); return;
      }
      go := true;
    }

    /** `validate_set_cmd`. It accepts exactly the argument lists of the grammar, and then the
        state and the slots are those of the one command the list spells. */
    method ValidateSetCmd() returns (valid: bool)
      requires next == 0 && state == 0 && slots == [None, None, None, None, None, None]
      modifies this
      ensures valid <==> exists c :: Spells(args, c)
      ensures valid ==> forall c :: Spells(args, c) ==> state == StateOf(c) && slots == SlotsOf(c)
    {
      if args == [] { return false; }
      StageA();
      ghost var c := if state == NULL_STATE then SetCommand([], [], None, false, None)
                     else SetCommand(args[0].data, args[1].data, None, false, None);
      while next < |args| && Positive(state)
        invariant Progress(c)
        decreases if Positive(state) then 1 else 0, |args| - next
      {
        var go;
        go, c := ParseOption(c);
        if !go { return false; }
      }
      if !Positive(state) { return false; }
      assert args[..next] == args;
      forall d | Spells(args, d) ensures d == c { SpellsOnce(args, c, d); }
      return true;
    }
  }
}
