/** The byte stream, the numerals and the header state machine of the lexer, and the terminator
    check. */
module Lexer {
  import opened Base
  import opened Resp

  /** The receiving end of a connection: the bytes it will ever deliver, and how many it has. */
  class ByteStream {
    const data: Bytes
    var pos: nat

    ghost predicate Valid() reads this { pos <= |data| }

    ghost function Remaining(): Bytes
      reads this
      requires Valid()
    {
      data[pos..]
    }

    constructor (data: Bytes)
      ensures Valid() && Remaining() == data
    {
      this.data := data;
      pos := 0;
    }

    /** `recv` of at most `n` bytes; fewer only at the end of the stream. */
    method Recv(n: nat) returns (buf: Bytes)
      requires Valid()
      modifies this
      ensures Valid() && pos == old(pos) + |buf|
      ensures |buf| == if n <= |data| - old(pos) then n else |data| - old(pos)
      ensures old(Remaining()) == buf + Remaining()
    {
      var k := if n <= |data| - pos then n else |data| - pos;
      buf := data[pos..pos + k];
      pos := pos + k;
    }
  }

  // ---- numerals --------------------------------------------------------------------------

  /** The value of a `char` on the platforms the server is built for. */
  function Signed(b: byte): int { if b < 128 then b else b - 256 }

  function Horner(s: Bytes): int {
    if s == [] then 0 else 10 * Horner(s[..|s| - 1]) + (Signed(s[|s| - 1]) - 48)
  }

  lemma {:induction false} HornerDigits(d: Bytes)
    requires AllDigits(d)
    ensures Horner(d) == DecVal(d)
  {
    if d != [] { HornerDigits(d[..|d| - 1]); }
  }

  /** 32-bit unsigned, wrapping; on digits it is the numeral's value modulo 2^32. */
  method StringToUint(text: Bytes) returns (num: nat)
    ensures num < TWO32 && (num - Horner(CStr(text))) % TWO32 == 0
    ensures AllDigits(CStr(text)) ==> num == DecVal(CStr(text)) % TWO32
  {
    var s := CStr(text);
    num := 0;
    var i := 0;
    while i < |s|
      invariant 0 <= i <= |s| && 0 <= num < TWO32
      invariant (num - Horner(s[..i])) % TWO32 == 0
    {
      assert s[..i + 1][..i] == s[..i];
      ghost var h, n0, c := Horner(s[..i]), num, Signed(s[i]) - 48;
      num := num * 10 % TWO32;
      num := (num + (Signed(s[i]) - 48)) % TWO32;
      WrapStep(n0, h, c, num);
      i := i + 1;
    }
    assert s[..i] == s;
    if AllDigits(s) {
      HornerDigits(s);
      SameResidue(num, DecVal(s));
    }
  }

  lemma SameResidue(num: nat, v: nat)
    requires num < TWO32 && (num - v) % TWO32 == 0
    ensures num == v % TWO32
  {
  }

  lemma WrapStep(n: nat, h: int, c: int, n': nat)
    requires (n - h) % TWO32 == 0 && n' == (n * 10 % TWO32 + c) % TWO32
    ensures (n' - (10 * h + c)) % TWO32 == 0
  {
    var k := (n - h) / TWO32;
    assert n - h == k * TWO32;
    var a := n * 10 / TWO32;
    var b := (n * 10 % TWO32 + c) / TWO32;
    assert n * 10 % TWO32 == n * 10 - a * TWO32;
    assert n' == n * 10 - a * TWO32 + c - b * TWO32;
    assert n' - (10 * h + c) == (10 * k - a - b) * TWO32;
    Multiple(10 * k - a - b);
  }

  lemma Multiple(k: int) ensures k * TWO32 % TWO32 == 0 { }

  // ---- element sizes ---------------------------------------------------------------------

  datatype SizeState = START | DIGIT | NEG_DIGIT_I | NEG_DIGIT_II | END

  lemma {:induction false} LeadingDigitsIs(s: Bytes, k: nat)
    requires k <= |s| && AllDigits(s[..k])
    ensures LeadingDigits(s) >= k
    ensures k < |s| && !IsDigit(s[k]) ==> LeadingDigits(s) == k
    ensures k == |s| ==> LeadingDigits(s) == k
  {
    if k > 0 {
      assert s[0] == s[..k][0];
      assert s[1..][..k - 1] == s[..k][1..];
      LeadingDigitsIs(s[1..], k - 1);
    }
  }

  lemma {:induction false} CStrUpTo(s: Bytes, k: nat)
    requires k < |s| && s[k] == 0 && forall j :: 0 <= j < k ==> s[j] != 0
    ensures CStr(s) == s[..k]
  {
    if k > 0 {
      CStrUpTo(s[1..], k - 1);
      assert s[..k] == [s[0]] + s[1..][..k - 1];
    }
  }

  /** What the consumed part of the header and the buffer look like in each state; `i` bytes of
      `s` are consumed and `n` of them are in the buffer `b`. */
  ghost predicate SizeProgress(s: Bytes, b: Bytes, state: SizeState, i: nat, n: nat, negative: bool) {
    && i <= |s| && |b| == MAX_ARRAY_SIZE + 1 && n <= MAX_ARRAY_SIZE + 1
    && (forall j :: n < j < |b| ==> b[j] == 0)
    && match state
       case START => i == 0 && n == 0 && b[0] == 0 && !negative
       case DIGIT => i == n && n > 0 && b[..n] == s[..n] && AllDigits(s[..n]) && !negative
                     && (n < |b| ==> b[n] == 0)
       case NEG_DIGIT_I => i == 1 && n == 0 && s[0] == MINUS && b[0] == MINUS && negative
       case NEG_DIGIT_II => i == 2 && n == 1 && s[..2] == [MINUS, 49] && b[..1] == [49] && b[1] == 0 && negative
       case END => n > 0 && n < |b| && b[n] == CR && AllDigits(b[..n])
                   && (negative ==> i == 3 && s[..3] == [MINUS, 49, CR] && b[..n] == [49])
                   && (!negative ==> i == n + 1 && s[..n] == b[..n] && s[n] == CR)
  }

  /** Too many digits, the end of the stream, or a next byte that no transition takes: no header
      starts the stream. */
  lemma SizeRejected(s: Bytes, b: Bytes, state: SizeState, i: nat, n: nat, negative: bool)
    requires SizeProgress(s, b, state, i, n, negative)
    requires n <= MAX_ARRAY_SIZE ==> i < |s| ==>
      match state
      case START => !IsDigit(s[i]) && s[i] != MINUS
      case DIGIT => !IsDigit(s[i]) && s[i] != CR
      case NEG_DIGIT_I => s[i] != 49
      case NEG_DIGIT_II => s[i] != CR
      case END => s[i] != LF
    ensures ReadSize(s) == Fail
  {
    match state {
      case START => LeadingDigitsIs(s, 0);
      case DIGIT => LeadingDigitsIs(s, n);
      case END =>
        if !negative {
          assert s[..n] == b[..n];
          LeadingDigitsIs(s, n);
          assert |s| > n + 1 ==> s[n..][..2] == [CR, s[n + 1]];
        } else {
          assert s[0] == s[..3][0];
          LeadingDigitsIs(s, 0);
        }
      case NEG_DIGIT_I => LeadingDigitsIs(s, 0);
      case NEG_DIGIT_II =>
        assert s[0] == s[..2][0];
        LeadingDigitsIs(s, 0);
    }
  }

  lemma SizeComplete(s: Bytes, b: Bytes, n: nat, negative: bool, i: nat, num: nat)
    requires SizeProgress(s, b, END, i, n, negative) && i < |s| && s[i] == LF && n <= MAX_ARRAY_SIZE
    requires num == DecVal(b[..n]) % TWO32
    ensures negative ==> num == 1 && ReadSize(s) == Got(-1, s[i + 1..])
    ensures !negative ==> ReadSize(s) == if ToInt(num) == -2 then Fail else Got(ToInt(num), s[i + 1..])
  {
    if negative {
      assert s[0] == s[..3][0];
      LeadingDigitsIs(s, 0);
      assert s[..4] == s[..3] + [s[3]];
      assert b[..n][..0] == [];
      assert DecVal(b[..n]) == 1;
    } else {
      LeadingDigitsIs(s, n);
      assert s[n..][..2] == [CR, LF];
    }
  }

  /** The transitions of the header's state machine on the received byte `c`. */
  predicate SizeMove(c: byte, state: SizeState, n: nat, state': SizeState, n': nat) {
    match state
    case START => if IsDigit(c) then state' == DIGIT && n' == n + 1 else c == MINUS && state' == NEG_DIGIT_I && n' == n
    case DIGIT => if IsDigit(c) then state' == DIGIT && n' == n + 1 else c == CR && state' == END && n' == n
    case NEG_DIGIT_I => c == 49 && state' == NEG_DIGIT_II && n' == n + 1
    case NEG_DIGIT_II => c == CR && state' == END && n' == n
    case END => false
  }

  lemma SizeAdvances(s: Bytes, b: Bytes, state: SizeState, i: nat, n: nat, negative: bool,
                     state': SizeState, n': nat, negative': bool)
    requires SizeProgress(s, b, state, i, n, negative) && i < |s| && n <= MAX_ARRAY_SIZE
    requires SizeMove(s[i], state, n, state', n')
    requires negative' == if state == START then s[i] == MINUS else negative
    ensures SizeProgress(s, b[n := s[i]], state', i + 1, n', negative')
  {
    var b' := b[n := s[i]];
    assert b'[..n] == b[..n];
    match state {
      case START => assert IsDigit(s[i]) ==> b'[..1] == s[..1];
      case DIGIT =>
        if IsDigit(s[i]) { assert b'[..n + 1] == b[..n] + [s[i]] && s[..n + 1] == s[..n] + [s[i]]; }
      case NEG_DIGIT_I => assert s[..2] == [s[0], s[1]] && b'[..1] == [49];
      case NEG_DIGIT_II => assert s[..3] == s[..2] + [s[2]];
    }
  }

  /** At the end of the stream the byte under the cursor is stale and is always refused. */
  lemma SizeEnded(s: Bytes, b: Bytes, state: SizeState, n: nat, negative: bool)
    requires SizeProgress(s, b, state, |s|, n, negative) && n <= MAX_ARRAY_SIZE
    ensures forall state', n' :: !SizeMove(b[n], state, n, state', n')
    ensures state == END ==> b[n] != LF
  {
  }

  datatype Verdict = Continue | Stop | Malformed

  /** The switch of the header's state machine on the byte under the cursor. */
  method SizeSwitch(c: byte, state: SizeState, nBytes: nat, isNegative: bool)
    returns (verdict: Verdict, state': SizeState, nBytes': nat, isNegative': bool)
    ensures verdict == Continue ==> SizeMove(c, state, nBytes, state', nBytes')
    ensures verdict == Continue ==> isNegative' == if state == START then c == MINUS else isNegative
    ensures verdict == Stop <==> state == END && c == LF
    ensures verdict == Malformed ==>
      match state
      case START => !IsDigit(c) && c != MINUS
      case DIGIT => !IsDigit(c) && c != CR
      case NEG_DIGIT_I => c != 49
      case NEG_DIGIT_II => c != CR
      case END => c != LF
  {
    verdict, state', nBytes', isNegative' := Continue, state, nBytes, isNegative;
    match state {
      case START =>
        isNegative' := false;
        if IsDigit(c) {
          nBytes', state' := nBytes + 1, DIGIT;
        } else if c == MINUS {
          state', isNegative' := NEG_DIGIT_I, true;
        } else {
          verdict := Malformed;
        }
      case DIGIT =>
        if IsDigit(c) {
          nBytes' := nBytes + 1;
        } else if c == CR {
          state' := END;
        } else {
          verdict := Malformed;
        }
      case NEG_DIGIT_I =>
        if c != 49 { verdict := Malformed; } else { nBytes', state' := nBytes + 1, NEG_DIGIT_II; }
      case NEG_DIGIT_II =>
        if c != CR { verdict := Malformed; } else { state' := END; }
      case END =>
        verdict := if c != LF then Malformed else Stop;
    }
  }

  /** One round of the header loop: the next byte, if any, is stored under the cursor and judged. */
  method SizeRound(fd: ByteStream, buf: array<byte>, ghost s: Bytes, ghost i: nat,
                   state: SizeState, nBytes: nat, isNegative: bool)
    returns (verdict: Verdict, state': SizeState, nBytes': nat, isNegative': bool)
    requires fd.Valid() && i <= |s| && fd.Remaining() == s[i..]
    requires SizeProgress(s, buf[..], state, i, nBytes, isNegative) && nBytes <= MAX_ARRAY_SIZE
    modifies fd, buf
    ensures fd.Valid() && fd.pos >= old(fd.pos)
    ensures verdict == Malformed ==> ReadSize(s) == Fail
    ensures verdict != Malformed ==> i < |s| && fd.Remaining() == s[i + 1..]
    ensures verdict == Continue ==> SizeProgress(s, buf[..], state', i + 1, nBytes', isNegative')
    ensures verdict == Stop ==> state == END && s[i] == LF && buf[..] == old(buf[..])[nBytes := LF]
  {
    ghost var b0 := buf[..];
    var got := fd.Recv(1);
    if |got| == 1 { buf[nBytes] := got[0]; }
    if i == |s| {
      SizeEnded(s, b0, state, nBytes, isNegative);
    } else {
      assert got[0] == s[i] && buf[..] == b0[nBytes := s[i]];
    }
    verdict, state', nBytes', isNegative' := SizeSwitch(buf[nBytes], state, nBytes, isNegative);
    if verdict == Malformed {
      SizeRejected(s, b0, state, i, nBytes, isNegative);
    } else if verdict == Continue {
      SizeAdvances(s, b0, state, i, nBytes, isNegative, state', nBytes', isNegative');
    }
  }

  /** The size header after `$` or `*`, as an `int`; -2 on any malformed header. */
  method GetElSize(fd: ByteStream) returns (size: int)
    requires fd.Valid()
    modifies fd
    ensures fd.Valid() && fd.pos >= old(fd.pos)
    ensures match ReadSize(old(fd.Remaining()))
            case Got(v, rest) => size == v && fd.Remaining() == rest
            case _ => size == -2
  {
    var buf := new byte[MAX_ARRAY_SIZE + 1](_ => 0);
    var nBytes: nat, state, isNegative := 0, START, false;
    ghost var s, i: nat := fd.Remaining(), 0;
    while true
      invariant fd.Valid() && fd.pos >= old(fd.pos) && i <= |s| && fd.Remaining() == s[i..]
      invariant fresh(buf) && buf.Length == MAX_ARRAY_SIZE + 1
      invariant SizeProgress(s, buf[..], state, i, nBytes, isNegative)
      decreases |s| - i
    {
      ghost var b0 := buf[..];
      if nBytes > MAX_ARRAY_SIZE {
        SizeRejected(s, b0, state, i, nBytes, isNegative);
        return -2;
      }
      var verdict, state', nBytes', isNegative' := SizeRound(fd, buf, s, i, state, nBytes, isNegative);
      if verdict == Malformed { return -2; }
      if verdict == Stop {
        buf[nBytes] := 0;
        size := HeaderValue(s, b0, buf[..], i, nBytes, isNegative);
        return;
      }
      state, nBytes, isNegative, i := state', nBytes', isNegative', i + 1;
    }
  }

  /** The value of the NUL-terminated digits in the buffer, with the header's sign. */
  method HeaderValue(ghost s: Bytes, ghost b0: Bytes, buf: Bytes, ghost i: nat, ghost n: nat, isNegative: bool)
    returns (size: int)
    requires SizeProgress(s, b0, END, i, n, isNegative) && i < |s| && s[i] == LF && n <= MAX_ARRAY_SIZE
    requires buf == b0[n := 0]
    ensures match ReadSize(s)
            case Got(v, rest) => size == v && rest == s[i + 1..]
            case _ => size == -2
  {
    assert buf[..n] == b0[..n];
    assert forall j :: 0 <= j < n ==> buf[j] == b0[..n][j];
    CStrUpTo(buf, n);
    var arrSize := StringToUint(buf);
    SizeComplete(s, b0, n, isNegative, i, arrSize);
    size := if isNegative then ToInt((-1 * arrSize) % TWO32) else ToInt(arrSize);
  }

  /** Whether the next two bytes are `\r\n`. */
  method IsValidTerminator(fd: ByteStream) returns (ok: bool)
    requires fd.Valid()
    modifies fd
    ensures fd.Valid() && fd.pos >= old(fd.pos)
    ensures ok <==> StartsWith(old(fd.Remaining()), CRLF)
    ensures ok ==> fd.Remaining() == old(fd.Remaining())[2..]
  {
    ghost var s := fd.Remaining();
    var state := 0;
    while true
      invariant 0 <= state <= 1 && state <= |s| && fd.Valid() && fd.pos == old(fd.pos) + state
      invariant fd.Remaining() == s[state..]
      invariant state == 1 ==> s[0] == CR
      decreases 1 - state
    {
      var next := fd.Recv(1);
      if |next| < 1 { return false; }
      assert next[0] == s[state];
      if state == 0 {
        if next[0] != CR { return false; }
        state := 1;
      } else {
        assert s[..2] == [s[0], s[1]];
        if next[0] != LF { return false; }
        return true;
      }
    }
  }
}
