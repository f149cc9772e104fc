/** How many array records the lexer leaves behind: `delete_array` frees an array's base node and
    never its record, so every array that got as far as its first element stays allocated. */
module Leftovers {
  import opened Base
  import opened Resp
  import opened RespRoundTrip

  /** The arrays in a tree. */
  function Arrays(t: Tree): nat
    decreases t, 0
  {
    match t case Bulk(_) => 0 case Arr(kids) => 1 + ArraysIn(kids)
  }

  function ArraysIn(ts: seq<Tree>): nat
    decreases ts, 1
  {
    if ts == [] then 0 else Arrays(ts[0]) + ArraysIn(ts[1..])
  }

  lemma {:induction false} ArraysAppend(ts: seq<Tree>, t: Tree)
    ensures ArraysIn(ts + [t]) == ArraysIn(ts) + Arrays(t)
  {
    if ts == [] {
      assert ts + [t] == [t];
    } else {
      ArraysAppend(ts[1..], t);
      assert (ts + [t])[1..] == ts[1..] + [t];
    }
  }

  // ---- arrays begun while reading -----------------------------------------------------------

  /** The arrays whose first element is read, when an element is read from `s`. */
  function BegunNode(s: Bytes): nat
    decreases |s|, 1
  {
    if s != [] && s[0] == ASTERISK then BegunArray(s[1..]) else 0
  }

  /** The same for the array after `*`, itself included. */
  function BegunArray(s: Bytes): nat
    decreases |s|, 0
  {
    match ReadSize(s)
    case Got(v, r) => if v == -1 || v == 0 then 0 else BegunList(r, Announced(v))
    case _ => 0
  }

  /** The same for an array whose `n` elements are read from `s`. */
  function BegunList(s: Bytes, n: nat): nat
    decreases |s|, 3
  {
    (if ReadNode(s).Got? then 1 else 0) + BegunElems(s, n)
  }

  function BegunElems(s: Bytes, n: nat): nat
    decreases |s|, 2
  {
    if n == 0 then 0 else
      BegunNode(s) + (match ReadNode(s) case Got(_, r) => BegunElems(r, n - 1) case _ => 0)
  }

  /** A message that is read has begun exactly its own arrays. */
  lemma {:induction false} NodeBegun(s: Bytes)
    requires ReadNode(s).Got?
    ensures BegunNode(s) == Arrays(ReadNode(s).value)
    decreases |s|, 1
  {
    if s[0] == ASTERISK { ArrayBegun(s[1..]); }
  }

  lemma {:induction false} ArrayBegun(s: Bytes)
    requires ReadArray(s).Got?
    ensures BegunArray(s) == Arrays(ReadArray(s).value)
    decreases |s|, 0
  {
    var o := ReadSize(s);
    ElemsBegun(o.rest, Announced(o.value));
  }

  lemma {:induction false} ElemsBegun(s: Bytes, n: nat)
    requires ReadElems(s, n).Got?
    ensures BegunElems(s, n) == ArraysIn(ReadElems(s, n).value)
    decreases |s|, 2
  {
    if n > 0 {
      NodeBegun(s);
      var o := ReadNode(s);
      ElemsBegun(o.rest, n - 1);
      assert ReadElems(s, n).value[1..] == ReadElems(o.rest, n - 1).value;
    }
  }

  /** The elements `ts` were read from the front of `whole`, and `s` is left. */
  predicate ReadSoFar(whole: Bytes, ts: seq<Tree>, s: Bytes) { ReadElems(whole, |ts|) == Got(ts, s) }

  lemma ReadApart(whole: Bytes, ts: seq<Tree>, s: Bytes)
    requires ReadSoFar(whole, ts, s) && ts != []
    ensures var first := ReadNode(whole);
      first.Got? && first == Got(ts[0], first.rest) && ReadSoFar(first.rest, ts[1..], s)
  {
  }

  /** A wrapper that keeps the induction below from unfolding the reader. */
  predicate Counts(s: Bytes, n: nat, c: int) { BegunElems(s, n) == c }

  /** The first element's arrays, then the others'. */
  lemma CountFirst(whole: Bytes, ts: seq<Tree>, s: Bytes, r: Bytes, n: nat, c: nat)
    requires ReadSoFar(whole, ts, s) && ts != [] && r == ReadNode(whole).rest && Counts(r, n, c)
    ensures Counts(whole, n + 1, Arrays(ts[0]) + c)
  {
    NodeBegun(whole);
  }

  /** Behind what was read the count goes on. */
  lemma {:induction false} BegunAdds(whole: Bytes, ts: seq<Tree>, s: Bytes, k: nat)
    requires ReadSoFar(whole, ts, s)
    ensures Counts(whole, |ts| + k, ArraysIn(ts) + BegunElems(s, k))
    decreases |ts|
  {
    if ts != [] {
      ReadApart(whole, ts, s);
      var r := ReadNode(whole).rest;
      BegunAdds(r, ts[1..], s, k);
      CountFirst(whole, ts, s, r, |ts[1..]| + k, ArraysIn(ts[1..]) + BegunElems(s, k));
    }
  }

  lemma BegunStops(s: Bytes, k: nat)
    requires k > 0 && !ReadNode(s).Got?
    ensures BegunElems(s, k) == BegunNode(s)
  {
  }

  /** The count at a failure: what was read has begun its arrays, the list itself if anything was
      read, and the failed element its own. */
  lemma BegunAtFailure(whole: Bytes, ts: seq<Tree>, s: Bytes, count: nat)
    requires ReadSoFar(whole, ts, s) && |ts| < count && !ReadNode(s).Got?
    ensures BegunList(whole, count) == ArraysIn(ts) + (if ts == [] then 0 else 1) + BegunNode(s)
  {
    BegunAdds(whole, ts, s, count - |ts|);
    BegunStops(s, count - |ts|);
    if ts != [] { ReadApart(whole, ts, s); }
  }

  // ---- when nothing is left --------------------------------------------------------------------

  /** Whether the first bulk string of the array after `*`, however deep, is read to its end. */
  predicate FirstBulkRead(s: Bytes)
    decreases |s|
  {
    match ReadSize(s)
    case Got(v, r) =>
      && v != -1 && v != 0 && r != []
      && if r[0] == DOLLAR then ReadBulk(r[1..]).Got? else r[0] == ASTERISK && FirstBulkRead(r[1..])
    case _ => false
  }

  /** An array is begun exactly when the first bulk string is read. */
  lemma {:induction false} BegunIffBulkRead(s: Bytes)
    ensures BegunArray(s) > 0 <==> FirstBulkRead(s)
    ensures ReadArray(s).Got? ==> FirstBulkRead(s)
    decreases |s|
  {
    var o := ReadSize(s);
    if o.Got? && o.value != -1 && o.value != 0 {
      var r := o.rest;
      if r != [] && r[0] == ASTERISK {
        BegunIffBulkRead(r[1..]);
        if ReadNode(r).Got? { assert ReadArray(r[1..]).Got?; }
      }
      assert !ReadNode(r).Got? ==> BegunElems(r, Announced(o.value)) == BegunNode(r);
    }
    if ReadArray(s).Got? { ArrayBegun(s); }
  }

  // ---- two messages ------------------------------------------------------------------------------

  /** `$1\r\na\r\n` */
  const ONE_BULK: Bytes := [DOLLAR, 49, CR, LF, 97, CR, LF]

  lemma OneBulkRead(rest: Bytes)
    ensures ReadNode(ONE_BULK + rest) == Got(Bulk([97]), rest)
  {
    assert ONE_BULK == [DOLLAR] + Dec(1) + CRLF + [97] + CRLF;
    RoundTrip(Bulk([97]), rest);
  }

  /** An array of `n` elements with one bulk string behind its header. */
  lemma OneOf(n: nat, t: Tree, r: Bytes)
    requires 0 < n < 10 && t.Bulk? && ReadNode(r) == Got(t, []) && r != [] && r[0] != ASTERISK
    ensures ReadElems(r, n) == if n == 1 then Got([t], []) else Fail
    ensures BegunList(r, n) == 1
  {
    assert ReadElems([], n - 1) == (if n == 1 then Got([], []) else Fail) && BegunElems([], n - 1) == 0;
    assert BegunElems(r, n) == BegunNode(r) + BegunElems([], n - 1);
    assert [t] + [] == [t];
  }

  lemma OneInArray(s: Bytes, n: nat)
    requires 0 < n < 10 && s == Dec(n) + CRLF + ONE_BULK
    ensures ReadArray(s) == if n == 1 then Got(Arr([Bulk([97])]), []) else Fail
    ensures BegunArray(s) == 1
  {
    OneBulkRead([]);
    assert ONE_BULK + [] == ONE_BULK;
    OneOf(n, Bulk([97]), ONE_BULK);
    DecFits(n);
    SizeReadBack(Dec(n), n, ONE_BULK);
  }

  /** `*1\r\n$1\r\na\r\n`, after the `*`: it is read, and one record stays. */
  lemma {:induction false} WholeMessageLeft()
    ensures var s := [49, CR, LF] + ONE_BULK;
      ReadArray(s) == Got(Arr([Bulk([97])]), []) && BegunArray(s) == 1
  {
    assert [49, CR, LF] == Dec(1) + CRLF;
    OneInArray([49, CR, LF] + ONE_BULK, 1);
  }

  /** `*2\r\n$1\r\na\r\n`, after the `*`: the second element is missing, and one record stays. */
  lemma {:induction false} HalfMessageLeft()
    ensures var s := [50, CR, LF] + ONE_BULK;
      ReadArray(s) == Fail && BegunArray(s) == 1
  {
    assert [50, CR, LF] == Dec(2) + CRLF;
    OneInArray([50, CR, LF] + ONE_BULK, 2);
  }
}
