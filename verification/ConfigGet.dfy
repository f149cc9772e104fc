/** CONFIG GET: the matching loops over the configuration map and the hand-sized reply. */
module ConfigGet {
  import opened Base
  import opened Resp
  import opened RespRoundTrip
  import opened SimpleMap
  import opened Ownership
  import opened Keyspace
  import opened Commands

  datatype Pair = Pair(key: Bytes, value: Bytes)

  /** The glob match, case-insensitive: any relation between a pattern and a key. */
  type Matcher = (Bytes, Bytes) -> bool

  // ---- which pairs are listed ---------------------------------------------------------------

  predicate HasKey(l: seq<Pair>, key: Bytes) { exists i :: 0 <= i < |l| && l[i].key == key }

  /** The list after pattern `p` was tried on `pairs` in order; a key already listed stays once. */
  function Scan(m: Matcher, p: Bytes, pairs: seq<Pair>, l: seq<Pair>): seq<Pair> {
    if pairs == [] then l else
      var n := |pairs| - 1;
      var before := Scan(m, p, pairs[..n], l);
      if m(p, pairs[n].key) && !HasKey(before, pairs[n].key) then before + [pairs[n]] else before
  }

  /** The list after all bulk-string arguments; arguments of other types are skipped. */
  function ScanAll(m: Matcher, args: seq<Tree>, pairs: seq<Pair>): seq<Pair> {
    if args == [] then [] else
      var n := |args| - 1;
      var before := ScanAll(m, args[..n], pairs);
      if args[n].Bulk? then Scan(m, CStr(args[n].data), pairs, before) else before
  }

  predicate KeysOnce(l: seq<Pair>) { forall i, j :: 0 <= i < j < |l| ==> l[i].key != l[j].key }

  predicate Within(l: seq<Pair>, pairs: seq<Pair>) { forall i :: 0 <= i < |l| ==> l[i] in pairs }

  lemma {:induction false} ScanFacts(m: Matcher, p: Bytes, pairs: seq<Pair>, all: seq<Pair>, l: seq<Pair>)
    requires KeysOnce(l) && Within(l, all) && Within(pairs, all)
    ensures var r := Scan(m, p, pairs, l);
      && KeysOnce(r) && Within(r, all) && l <= r
      && (forall k :: HasKey(r, k) <==> HasKey(l, k) || (m(p, k) && HasKey(pairs, k)))
  {
    if pairs != [] {
      var n := |pairs| - 1;
      ScanFacts(m, p, pairs[..n], all, l);
      var before, r := Scan(m, p, pairs[..n], l), Scan(m, p, pairs, l);
      forall k ensures HasKey(pairs, k) <==> HasKey(pairs[..n], k) || pairs[n].key == k {
        HasKeyAppend(pairs[..n], pairs[n], k);
        assert pairs == pairs[..n] + [pairs[n]];
      }
      if r != before {
        forall k ensures HasKey(r, k) <==> HasKey(before, k) || pairs[n].key == k {
          HasKeyAppend(before, pairs[n], k);
        }
      }
    }
  }

  lemma HasKeyAppend(l: seq<Pair>, p: Pair, k: Bytes)
    ensures HasKey(l + [p], k) <==> HasKey(l, k) || p.key == k
  {
    var r := l + [p];
    if HasKey(l, k) {
      var i :| 0 <= i < |l| && l[i].key == k;
      assert r[i].key == k;
    }
    if p.key == k { assert r[|l|].key == k; }
  }

  /** A pattern among the arguments that matches `k`. */
  predicate Asked(m: Matcher, args: seq<Tree>, k: Bytes) {
    exists i :: 0 <= i < |args| && args[i].Bulk? && m(CStr(args[i].data), k)
  }

  /** The list holds each key once, only pairs of the configuration, and exactly the keys that
      are configured and asked for. */
  lemma {:induction false} ListedExactly(m: Matcher, args: seq<Tree>, pairs: seq<Pair>)
    ensures var l := ScanAll(m, args, pairs);
      && KeysOnce(l) && Within(l, pairs)
      && (forall k :: HasKey(l, k) <==> HasKey(pairs, k) && Asked(m, args, k))
  {
    if args != [] {
      var n := |args| - 1;
      ListedExactly(m, args[..n], pairs);
      assert args == args[..n] + [args[n]];
      if args[n].Bulk? { ScanFacts(m, CStr(args[n].data), pairs, pairs, ScanAll(m, args[..n], pairs)); }
      forall k ensures Asked(m, args, k) <==> Asked(m, args[..n], k) || (args[n].Bulk? && m(CStr(args[n].data), k)) {
        AskedAppend(m, args, k);
      }
    }
  }

  // ---- the order of the list -----------------------------------------------------------------

  /** The first slot with key `k`. */
  function FirstSlot(pairs: seq<Pair>, k: Bytes): (s: nat)
    ensures s <= |pairs| && (s < |pairs| <==> HasKey(pairs, k))
    ensures s < |pairs| ==> pairs[s].key == k && forall j :: 0 <= j < s ==> pairs[j].key != k
  {
    if pairs == [] then 0 else
      var n := |pairs| - 1;
      var s := FirstSlot(pairs[..n], k);
      assert pairs == pairs[..n] + [pairs[n]];
      HasKeyAppend(pairs[..n], pairs[n], k);
      if s < n then s else if pairs[n].key == k then n else n + 1
  }

  predicate Matches(m: Matcher, arg: Tree, k: Bytes) { arg.Bulk? && m(CStr(arg.data), k) }

  /** The first bulk-string argument that matches `k`. */
  function FirstArg(m: Matcher, args: seq<Tree>, k: Bytes): (a: nat)
    ensures a <= |args|
  {
    if args == [] then 0 else
      var n := |args| - 1;
      var a := FirstArg(m, args[..n], k);
      if a < n then a else if Matches(m, args[n], k) then n else n + 1
  }

  lemma {:induction false} FirstArgFacts(m: Matcher, args: seq<Tree>, k: Bytes)
    ensures var a := FirstArg(m, args, k);
      && (a < |args| <==> Asked(m, args, k)) && (a < |args| ==> Matches(m, args[a], k))
      && forall j :: 0 <= j < a ==> !Matches(m, args[j], k)
  {
    if args != [] {
      var n := |args| - 1;
      FirstArgFacts(m, args[..n], k);
      AskedAppend(m, args, k);
      assert forall j :: 0 <= j < n ==> args[..n][j] == args[j];
    }
  }

  /** The earlier argument first, and among the keys of one argument the earlier slot. */
  predicate Precedes(m: Matcher, args: seq<Tree>, pairs: seq<Pair>, x: Pair, y: Pair) {
    || FirstArg(m, args, x.key) < FirstArg(m, args, y.key)
    || (FirstArg(m, args, x.key) == FirstArg(m, args, y.key) && FirstSlot(pairs, x.key) < FirstSlot(pairs, y.key))
  }

  /** The pairs from `from` on are those of their keys' first slots, in slot order. */
  predicate SlotOrder(pairs: seq<Pair>, r: seq<Pair>, from: nat) {
    && (forall x :: from <= x < |r| ==> HasKey(pairs, r[x].key) && r[x] == pairs[FirstSlot(pairs, r[x].key)])
    && (forall x, y :: from <= x < y < |r| ==> FirstSlot(pairs, r[x].key) < FirstSlot(pairs, r[y].key))
  }

  lemma SlotOrderAppend(pairs: seq<Pair>, p: Pair, r: seq<Pair>, from: nat)
    requires SlotOrder(pairs, r, from)
    ensures SlotOrder(pairs + [p], r, from)
    ensures !HasKey(pairs, p.key) ==> SlotOrder(pairs + [p], r + [p], from)
  {
    var all := pairs + [p];
    assert all[..|pairs|] == pairs;
    forall k ensures HasKey(all, k) <==> HasKey(pairs, k) || p.key == k { HasKeyAppend(pairs, p, k); }
    forall x | from <= x < |r| ensures FirstSlot(all, r[x].key) == FirstSlot(pairs, r[x].key) < |pairs| { }
  }

  /** What one argument adds stands in slot order, each pair from its key's first slot. */
  lemma {:induction false} ScanOrder(m: Matcher, p: Bytes, pairs: seq<Pair>, all: seq<Pair>, l: seq<Pair>)
    requires KeysOnce(l) && Within(l, all) && Within(pairs, all)
    ensures SlotOrder(pairs, Scan(m, p, pairs, l), |l|)
  {
    if pairs != [] {
      var n := |pairs| - 1;
      var front := pairs[..n];
      ScanOrder(m, p, front, all, l);
      ScanFacts(m, p, front, all, l);
      assert pairs == front + [pairs[n]];
      SlotOrderAppend(front, pairs[n], Scan(m, p, front, l), |l|);
    }
  }

  lemma AskedAppend(m: Matcher, args: seq<Tree>, k: Bytes)
    requires args != []
    ensures var n := |args| - 1;
      Asked(m, args, k) <==> Asked(m, args[..n], k) || (args[n].Bulk? && m(CStr(args[n].data), k))
  {
    var n := |args| - 1;
    if Asked(m, args[..n], k) {
      var i :| 0 <= i < n && args[..n][i].Bulk? && m(CStr(args[..n][i].data), k);
      assert args[i].Bulk?;
    }
    if Asked(m, args, k) {
      var i :| 0 <= i < |args| && args[i].Bulk? && m(CStr(args[i].data), k);
      if i < n { assert args[..n][i].Bulk?; }
    }
  }

  /** First-match order: of two listed pairs the one comes first whose key an earlier argument
      matched first or, when one argument was the first for both, whose slot comes first; and each
      is the pair in its key's first slot. */
  lemma {:induction false} FirstMatchOrder(m: Matcher, args: seq<Tree>, pairs: seq<Pair>)
    ensures var l := ScanAll(m, args, pairs);
      && (forall x :: 0 <= x < |l| ==>
            FirstSlot(pairs, l[x].key) < |pairs| && l[x] == pairs[FirstSlot(pairs, l[x].key)])
      && (forall x, y :: 0 <= x < y < |l| ==> Precedes(m, args, pairs, l[x], l[y]))
  {
    if args != [] {
      var n := |args| - 1;
      var front := args[..n];
      FirstMatchOrder(m, front, pairs);
      ListedExactly(m, front, pairs);
      var before, l := ScanAll(m, front, pairs), ScanAll(m, args, pairs);
      if args[n].Bulk? {
        var p := CStr(args[n].data);
        ScanFacts(m, p, pairs, pairs, before);
        ScanOrder(m, p, pairs, pairs, before);
        assert forall x :: 0 <= x < |before| ==> l[x] == before[x];
      }
      forall x | 0 <= x < |l|
        ensures FirstArg(m, args, l[x].key) == if x < |before| then FirstArg(m, front, l[x].key) else n
        ensures x < |before| ==> FirstArg(m, front, l[x].key) < n
      {
        ArgOf(m, args, pairs, before, l, x);
      }
    }
  }

  /** Where a listed key was first asked for: as before, or by the last argument. */
  lemma ArgOf(m: Matcher, args: seq<Tree>, pairs: seq<Pair>, before: seq<Pair>, l: seq<Pair>, x: nat)
    requires args != [] && before == ScanAll(m, args[..|args| - 1], pairs) && l == ScanAll(m, args, pairs)
    requires before <= l && x < |l|
    ensures var n := |args| - 1;
      && FirstArg(m, args, l[x].key) == (if x < |before| then FirstArg(m, args[..n], l[x].key) else n)
      && (x < |before| ==> FirstArg(m, args[..n], l[x].key) < n)
  {
    var n := |args| - 1;
    var k := l[x].key;
    ListedExactly(m, args[..n], pairs);
    ListedExactly(m, args, pairs);
    AskedAppend(m, args, k);
    FirstArgFacts(m, args[..n], k);
    assert HasKey(l, k);
    if x < |before| {
      assert before[x].key == k && HasKey(before, k);
    } else {
      NotListedBefore(before, l, x);
    }
  }

  lemma NotListedBefore(before: seq<Pair>, l: seq<Pair>, x: nat)
    requires before <= l && KeysOnce(l) && |before| <= x < |l|
    ensures !HasKey(before, l[x].key)
  {
    assert forall i :: 0 <= i < |before| ==> before[i] == l[i];
  }

  function KeySet(l: seq<Pair>): set<Bytes> { set i | 0 <= i < |l| :: l[i].key }

  lemma KeySetAppend(l: seq<Pair>, p: Pair)
    ensures KeySet(l + [p]) == KeySet(l) + {p.key}
    ensures KeysOnce(l + [p]) ==> KeysOnce(l) && p.key !in KeySet(l)
  {
    var r := l + [p];
    assert forall i :: 0 <= i < |l| ==> r[i] == l[i];
    assert r[|l|] == p;
    forall k ensures k in KeySet(r) <==> k in KeySet(l) || k == p.key { HasKeyAppend(l, p, k); }
  }

  lemma {:induction false} KeyCount(l: seq<Pair>)
    ensures |KeySet(l)| <= |l|
    ensures KeysOnce(l) ==> |KeySet(l)| == |l|
  {
    if l != [] {
      var n := |l| - 1;
      var before := l[..n];
      KeyCount(before);
      assert l == before + [l[n]];
      KeySetAppend(before, l[n]);
    }
  }

  /** Pigeonhole: a list of distinct configured keys is no longer than the configuration, so the
      arrays sized by it suffice. */
  lemma ListFits(l: seq<Pair>, pairs: seq<Pair>)
    requires KeysOnce(l) && Within(l, pairs)
    ensures |l| <= |pairs|
  {
    KeyCount(l);
    KeyCount(pairs);
    forall k | k in KeySet(l) ensures k in KeySet(pairs) {
      var i :| 0 <= i < |l| && l[i].key == k;
      var j :| 0 <= j < |pairs| && pairs[j] == l[i];
      assert pairs[j].key == k;
    }
    SubsetSize(KeySet(l), KeySet(pairs));
  }

  lemma SubsetSize<T>(a: set<T>, b: set<T>)
    requires a <= b
    ensures |a| <= |b|
  {
    assert b == a + (b - a);
  }

  // ---- the reply -----------------------------------------------------------------------------

  function Items(l: seq<Pair>): seq<Tree> {
    if l == [] then [] else Items(l[..|l| - 1]) + [Bulk(l[|l| - 1].key), Bulk(l[|l| - 1].value)]
  }

  function ItemsText(l: seq<Pair>): Bytes {
    if l == [] then []
    else ItemsText(l[..|l| - 1]) + (Encode(Bulk(l[|l| - 1].key)) + Encode(Bulk(l[|l| - 1].value)))
  }

  lemma {:induction false} EncodeAllConcat(a: seq<Tree>, b: seq<Tree>)
    ensures EncodeAll(a + b) == EncodeAll(a) + EncodeAll(b)
  {
    if a == [] {
      assert a + b == b;
    } else {
      assert (a + b)[1..] == a[1..] + b;
      EncodeAllConcat(a[1..], b);
    }
  }

  lemma {:induction false} ItemsEncoded(l: seq<Pair>)
    ensures ItemsText(l) == EncodeAll(Items(l)) && |Items(l)| == 2 * |l|
  {
    if l != [] {
      var n := |l| - 1;
      ItemsEncoded(l[..n]);
      var k, v := Bulk(l[n].key), Bulk(l[n].value);
      EncodeAllConcat(Items(l[..n]), [k, v]);
      assert [k, v][1..] == [v] && [v][1..] == [];
      assert EncodeAll([v]) == Encode(v) + [];
      assert EncodeAll([k, v]) == Encode(k) + Encode(v);
    }
  }

  /** The numeral in the eight-byte buffer. */
  function CountText(n: nat): Bytes { if |Dec(n)| <= 7 then Dec(n) else Dec(n)[..7] }

  lemma {:induction false} DecShort(n: nat, k: nat)
    requires k > 0
    ensures |Dec(n)| <= k <==> n < Pow10(k)
  {
    if n >= 10 {
      if k > 1 { DecShort(n / 10, k - 1); }
    }
  }

  /** The count's numeral survives its buffer exactly when it has at most seven digits. */
  lemma CountExact(n: nat)
    ensures CountText(n) == Dec(n) <==> n < 10_000_000
  {
    DecShort(n, 7);
    assert Pow10(4) == 10_000 && Pow10(7) == 10_000_000;
  }

  /** `snprintf` at `pos`: what fits, then a NUL; the length it wanted is returned. */
  method Snprintf(buf: array<byte>, pos: nat, text: Bytes) returns (len: nat)
    requires pos < buf.Length
    modifies buf
    ensures len == |text|
    ensures var k := if |text| < buf.Length - pos then |text| else buf.Length - pos - 1;
      && buf[..pos] == old(buf[..pos]) && buf[pos..pos + k] == text[..k] && buf[pos + k] == 0
      && buf[pos + k + 1..] == old(buf[pos + k + 1..])
  {
    var k := if |text| < buf.Length - pos then |text| else buf.Length - pos - 1;
    forall i | 0 <= i < k { buf[pos + i] := text[i]; }
    buf[pos + k] := 0;
    len := |text|;
  }

  /** `snprintf` where the text fits behind what is already printed. */
  method Print(buf: array<byte>, pos: nat, text: Bytes, ghost done: Bytes) returns (pos': nat)
    requires pos + |text| < buf.Length && buf[..pos] == done
    modifies buf
    ensures pos' == pos + |text| && buf[..pos'] == done + text && buf[pos'] == 0
  {
    var len := Snprintf(buf, pos, text);
    pos' := pos + len;
    assert buf[..pos'] == buf[..pos] + buf[pos..pos'];
  }

  /** The total length of the listed texts. */
  function TextBytes(texts: seq<Bytes>): nat {
    if texts == [] then 0 else TextBytes(texts[..|texts| - 1]) + |texts[|texts| - 1]|
  }

  lemma TextBytesAppend(texts: seq<Bytes>, t: Bytes)
    ensures TextBytes(texts + [t]) == TextBytes(texts) + |t|
  {
    assert (texts + [t])[..|texts|] == texts;
  }

  /** The keys' and the values' bulk strings. */
  predicate Filed(keys: seq<Bytes>, values: seq<Bytes>, l: seq<Pair>) {
    |keys| == |values| == |l|
    && forall i :: 0 <= i < |l| ==> keys[i] == Encode(Bulk(l[i].key)) && values[i] == Encode(Bulk(l[i].value))
  }

  lemma {:induction false} ItemsLength(keys: seq<Bytes>, values: seq<Bytes>, l: seq<Pair>)
    requires Filed(keys, values, l)
    ensures |ItemsText(l)| == TextBytes(keys) + TextBytes(values)
  {
    if l != [] {
      var n := |l| - 1;
      ItemsLength(keys[..n], values[..n], l[..n]);
    }
  }

  lemma ItemsPrefix(l: seq<Pair>, i: nat)
    requires i < |l|
    ensures ItemsText(l[..i + 1]) == ItemsText(l[..i]) + (Encode(Bulk(l[i].key)) + Encode(Bulk(l[i].value)))
  {
    assert l[..i + 1][..i] == l[..i];
  }

  lemma {:induction false} ItemsMonotone(l: seq<Pair>, i: nat)
    requires i <= |l|
    ensures |ItemsText(l[..i])| <= |ItemsText(l)|
    decreases |l| - i
  {
    if i < |l| {
      ItemsPrefix(l, i);
      ItemsMonotone(l, i + 1);
    } else {
      assert l[..i] == l;
    }
  }

  /** `generate_conf_get_response`: the precomputed total is exactly the text and its NUL. */
  method GenerateResponse(keys: seq<Bytes>, values: seq<Bytes>, keyBytes: nat, valueBytes: nat, ghost l: seq<Pair>)
    returns (response: array<byte>)
    requires Filed(keys, values, l) && keyBytes == TextBytes(keys) && valueBytes == TextBytes(values)
    ensures fresh(response)
    ensures response[..] == [ASTERISK] + CountText(2 * |l|) + CRLF + ItemsText(l) + [0]
  {
    var count := CountText(2 * |keys|);
    var total := 1 + |count| + 2 + keyBytes + valueBytes + 1;
    response := new byte[total](_ => 0);
    var header := [ASTERISK] + count + CRLF;
    ItemsLength(keys, values, l);
    PrintAll(response, keys, values, header, l);
  }

  /** The printing loop over a buffer of the right size. */
  method PrintAll(response: array<byte>, keys: seq<Bytes>, values: seq<Bytes>, header: Bytes, ghost l: seq<Pair>)
    requires Filed(keys, values, l) && response.Length == |header| + |ItemsText(l)| + 1
    modifies response
    ensures response[..] == header + ItemsText(l) + [0]
  {
    assert response[..0] == [];
    var pos := Print(response, 0, header, []);
    ghost var done := header;
    assert [] + header == header && header + ItemsText(l[..0]) == header;
    var i := 0;
    while i < |keys|
      invariant 0 <= i <= |keys|
      invariant done == header + ItemsText(l[..i]) && pos == |done| < response.Length
      invariant response[..pos] == done && response[pos] == 0
    {
      ItemsStep(header, l, i);
      var text := keys[i] + values[i];
      pos := Print(response, pos, text, done);
      done := done + text;
      i := i + 1;
    }
    assert l[..i] == l;
    LastByte(response[..], pos, done);
  }

  lemma LastByte(buf: Bytes, pos: nat, done: Bytes)
    requires |buf| == pos + 1 && buf[..pos] == done
    ensures buf == done + [buf[pos]]
  {
  }

  lemma ItemsStep(header: Bytes, l: seq<Pair>, i: nat)
    requires i < |l|
    ensures var text := Encode(Bulk(l[i].key)) + Encode(Bulk(l[i].value));
      && header + ItemsText(l[..i]) + text == header + ItemsText(l[..i + 1])
      && |ItemsText(l[..i])| + |text| <= |ItemsText(l)|
  {
    ItemsPrefix(l, i);
    ItemsMonotone(l, i + 1);
  }

  // ---- the matching loops ---------------------------------------------------------------------

  /** The configuration's pairs in slot order. */
  function PairAt(s: Slot, nodes: Nodes, vals: Values): Pair
    requires s.key in nodes && s.value in vals
  {
    Pair(nodes[s.key].content, vals[s.value])
  }

  function PairsOf(slots: seq<Slot>, nodes: Nodes, vals: Values): (r: seq<Pair>)
    requires Allocated(slots, nodes, vals)
    ensures |r| == |slots|
  {
    seq(|slots|, i requires 0 <= i < |slots| => PairAt(slots[i], nodes, vals))
  }

  predicate PairNulFree(p: Pair) { NulFree(p.key) && NulFree(p.value) }

  lemma EncodedNulFree(d: Bytes)
    requires NulFree(d)
    ensures NulFree(Encode(Bulk(d)))
  {
  }

  /** The size read back from a bulk string's text is the length of its data. */
  lemma SizeShown(a: Bytes)
    ensures LeadingDigits(Encode(Bulk(a))[1..]) == |Dec(|a|)|
    ensures Encode(Bulk(a))[1..] == Dec(|a|) + (CRLF + a + CRLF)
  {
    assert Encode(Bulk(a))[1..] == Dec(|a|) + (CRLF + a + CRLF);
    LeadingDigitsOf(Dec(|a|), CRLF + a + CRLF);
  }

  lemma Inner(d: Bytes, a: Bytes, k: nat)
    requires |d| == k
    ensures var x := d + (CRLF + a + CRLF); x[k + 2..|x| - 2] == a
  {
  }

  lemma EncodedEqual(a: Bytes, b: Bytes)
    ensures Encode(Bulk(a)) == Encode(Bulk(b)) <==> a == b
  {
    SizeShown(a);
    SizeShown(b);
    Inner(Dec(|a|), a, |Dec(|a|)|);
    Inner(Dec(|b|), b, |Dec(|b|)|);
  }

  lemma FiledAppend(ks: seq<Bytes>, vs: seq<Bytes>, l: seq<Pair>, k: Bytes, v: Bytes, p: Pair)
    requires Filed(ks, vs, l) && k == Encode(Bulk(p.key)) && v == Encode(Bulk(p.value))
    ensures Filed(ks + [k], vs + [v], l + [p])
    ensures TextBytes(ks + [k]) == TextBytes(ks) + |k| && TextBytes(vs + [v]) == TextBytes(vs) + |v|
  {
    TextBytesAppend(ks, k);
    TextBytesAppend(vs, v);
  }

  /** The collecting arrays and their counters. */
  class Collector {
    const keys: array<Bytes>
    const values: array<Bytes>
    var count: nat
    var keyBytes: nat
    var valueBytes: nat
    ghost var listed: seq<Pair>

    ghost predicate Valid()
      reads this, keys, values
    {
      && keys != values && keys.Length == values.Length && count == |listed| <= keys.Length
      && Filed(keys[..count], values[..count], listed)
      && keyBytes == TextBytes(keys[..count]) && valueBytes == TextBytes(values[..count])
      && forall i :: 0 <= i < count ==> PairNulFree(listed[i])
    }

    constructor (size: nat)
      ensures Valid() && fresh(keys) && fresh(values) && keys.Length == size && listed == []
    {
      keys := new Bytes[size](_ => []);
      values := new Bytes[size](_ => []);
      count, keyBytes, valueBytes, listed := 0, 0, 0, [];
    }

    /** `is_it_possible_to_insert_the_str_in_array`: `strcmp` against every key filed so far. */
    method IsNew(text: Bytes, ghost key: Bytes) returns (fit: bool)
      requires Valid() && text == Encode(Bulk(key)) && NulFree(key)
      ensures fit <==> !HasKey(listed, key)
    {
      EncodedNulFree(key);
      var i := 0;
      while i < count
        invariant 0 <= i <= count
        invariant forall j :: 0 <= j < i ==> listed[j].key != key
      {
        EncodedEqual(key, listed[i].key);
        EncodedNulFree(listed[i].key);
        assert keys[..count][i] == Encode(Bulk(listed[i].key));
        if CStr(text) == CStr(keys[i]) { return false; }
        i := i + 1;
      }
      return true;
    }

    /** `insert_key_value_str_to_str_array`. */
    method Insert(pair: Pair)
      requires Valid() && PairNulFree(pair)
      requires !HasKey(listed, pair.key) ==> count < keys.Length
      modifies this, keys, values
      ensures Valid()
      ensures listed == if HasKey(old(listed), pair.key) then old(listed) else old(listed) + [pair]
    {
      var keyText, keySize := NodeToString(pair.key);
      var valueText, valueSize := NodeToString(pair.value);
      var k, v := keyText[..keySize - 1], valueText[..valueSize - 1];
      var fit := IsNew(k, pair.key);
      if fit {
        File(pair, k, v);
      }
    }

    /** The reply once everything is collected. */
    method Respond() returns (reply: Reply)
      requires Valid()
      ensures reply == ConfReply(listed, false)
    {
      if count == 0 { return Reply([ASTERISK, ZERO, CR, LF]); }
      var response := GenerateResponse(keys[..count], values[..count], keyBytes, valueBytes, listed);
      ghost var text := [ASTERISK] + CountText(2 * |listed|) + CRLF + ItemsText(listed);
      reply := Reply(response[..response.Length - 1]);
      assert response[..][..response.Length - 1] == text;
    }

    /** Puts the two texts in the next slots and counts their bytes. */
    method File(ghost pair: Pair, k: Bytes, v: Bytes)
      requires Valid() && PairNulFree(pair) && count < keys.Length
      requires k == Encode(Bulk(pair.key)) && v == Encode(Bulk(pair.value))
      modifies this, keys, values
      ensures Valid() && listed == old(listed) + [pair]
    {
      ghost var ks, vs := keys[..count], values[..count];
      keys[count], values[count] := k, v;
      count := count + 1;
      keyBytes, valueBytes := keyBytes + |k|, valueBytes + |v|;
      listed := listed + [pair];
      assert keys[..count] == ks + [k] && values[..count] == vs + [v];
      FiledAppend(ks, vs, old(listed), k, v, pair);
    }
  }

  function ConfReply(l: seq<Pair>, nothing: bool): Reply {
    if nothing then NoReply
    else if l == [] then Reply([ASTERISK, ZERO, CR, LF])
    else Reply([ASTERISK] + CountText(2 * |l|) + CRLF + ItemsText(l))
  }

  lemma ScanStep(m: Matcher, p: Bytes, pairs: seq<Pair>, l: seq<Pair>, i: nat)
    requires i < |pairs|
    ensures Scan(m, p, pairs[..i + 1], l) ==
      var before := Scan(m, p, pairs[..i], l);
      if m(p, pairs[i].key) && !HasKey(before, pairs[i].key) then before + [pairs[i]] else before
  {
    assert pairs[..i + 1][..i] == pairs[..i] && pairs[..i + 1][i] == pairs[i];
  }

  /** Room for one more: the list so far and a new configured key are still distinct keys. */
  lemma RoomLeft(l: seq<Pair>, pairs: seq<Pair>, p: Pair)
    requires KeysOnce(l) && Within(l, pairs) && p in pairs
    ensures !HasKey(l, p.key) ==> |l| < |pairs|
  {
    if !HasKey(l, p.key) {
      var r := l + [p];
      assert KeysOnce(r) by {
        forall i, j | 0 <= i < j < |r| ensures r[i].key != r[j].key { assert j == |l| ==> l[i].key != p.key; }
      }
      ListFits(r, pairs);
    }
  }

  /** One pair against one pattern. */
  method ScanPair(m: Matcher, p: Bytes, c: Collector, ghost all: seq<Pair>, pair: Pair, ghost i: nat,
                  ghost l: seq<Pair>)
    requires i < |all| && pair == all[i] && PairNulFree(pair)
    requires KeysOnce(l) && Within(l, all)
    requires c.Valid() && c.keys.Length == |all| && c.listed == Scan(m, p, all[..i], l)
    modifies c, c.keys, c.values
    ensures c.Valid() && c.listed == Scan(m, p, all[..i + 1], l)
  {
    ScanStep(m, p, all, l, i);
    ScanFacts(m, p, all[..i], all, l);
    if m(p, CStr(pair.key)) {
      RoomLeft(c.listed, all, pair);
      c.Insert(pair);
    }
  }

  /** The cursor stands before slot `i`. */
  ghost predicate At(smw: MapIterator, sm: SimpleMap, i: nat)
    reads smw
  {
    smw.sm == sm && smw.index == i
  }

  twostate lemma MapUnchanged(sm: SimpleMap)
    requires old(sm.Valid()) && unchanged(old(sm.Repr))
    ensures sm.Valid() && sm.slots == old(sm.slots) && sm.Repr == old(sm.Repr)
  {
  }

  /** One round of the inner loop: the cursor's next pair, if any, against the pattern. */
  method ScanNext(m: Matcher, p: Bytes, smw: MapIterator, sm: SimpleMap, nodes: Nodes, vals: Values, c: Collector,
                  ghost slots: seq<Slot>, ghost all: seq<Pair>, ghost i: nat, ghost l: seq<Pair>)
    returns (more: bool)
    requires sm.Valid() && sm.slots == slots && Allocated(slots, nodes, vals) && all == PairsOf(slots, nodes, vals)
    requires forall j :: 0 <= j < |all| ==> PairNulFree(all[j])
    requires At(smw, sm, i) && smw !in sm.Repr && i <= |all|
    requires c.Valid() && c.keys.Length == |all| && c.listed == Scan(m, p, all[..i], l)
    requires KeysOnce(l) && Within(l, all)
    requires c !in sm.Repr && c.keys !in sm.Repr && c.values !in sm.Repr
    modifies smw, c, c.keys, c.values
    ensures c.Valid() && sm.Valid() && sm.slots == slots && sm.Repr == old(sm.Repr)
    ensures more <==> i < |all|
    ensures c.listed == if more then Scan(m, p, all[..i + 1], l) else old(c.listed)
    ensures At(smw, sm, if more then i + 1 else i)
  {
    var kvp := smw.Next();
    if kvp == None {
      MapUnchanged(sm);
      return false;
    }
    assert kvp.value == slots[i] && PairAt(slots[i], nodes, vals) == all[i];
    ScanPair(m, p, c, all, Pair(nodes[kvp.value.key].content, vals[kvp.value.value]), i, l);
    MapUnchanged(sm);
    return true;
  }

  /** The inner loop of `handle_conf_get`: one pattern against every pair, by the map's cursor. */
  method ScanMap(m: Matcher, pattern: Bytes, sm: SimpleMap, nodes: Nodes, vals: Values, c: Collector,
                 ghost slots: seq<Slot>, ghost all: seq<Pair>)
    requires sm.Valid() && sm.slots == slots && Allocated(slots, nodes, vals) && all == PairsOf(slots, nodes, vals)
    requires forall i :: 0 <= i < |all| ==> PairNulFree(all[i])
    requires c.Valid() && c.keys.Length == |all| && KeysOnce(c.listed) && Within(c.listed, all)
    requires c !in sm.Repr && c.keys !in sm.Repr && c.values !in sm.Repr
    modifies c, c.keys, c.values
    ensures c.Valid() && c.listed == Scan(m, CStr(pattern), all, old(c.listed))
  {
    var smw := new MapIterator(sm);
    var p := CStr(pattern);
    ghost var i, l := 0, c.listed;
    var more := true;
    while more
      invariant At(smw, sm, i) && fresh(smw) && i <= |all| && (!more ==> i == |all|)
      invariant c.Valid() && sm.Valid() && sm.slots == slots && sm.Repr == old(sm.Repr)
      invariant c.listed == Scan(m, p, all[..i], l)
      decreases |all| - i, more
    {
      more := ScanNext(m, p, smw, sm, nodes, vals, c, slots, all, i, l);
      if more { i := i + 1; }
    }
    assert all[..i] == all;
  }

  lemma ListedOnce(m: Matcher, args: seq<Tree>, pairs: seq<Pair>)
    ensures KeysOnce(ScanAll(m, args, pairs)) && Within(ScanAll(m, args, pairs), pairs)
  {
    ListedExactly(m, args, pairs);
  }

  /** The outer loop of `handle_conf_get`: every bulk-string argument is a pattern. */
  method ScanArgs(m: Matcher, args: seq<Tree>, sm: SimpleMap, nodes: Nodes, vals: Values, c: Collector,
                  ghost all: seq<Pair>)
    requires sm.Valid() && Allocated(sm.slots, nodes, vals) && all == PairsOf(sm.slots, nodes, vals)
    requires forall i :: 0 <= i < |all| ==> PairNulFree(all[i])
    requires c.Valid() && c.keys.Length == |all| && c.listed == []
    requires c !in sm.Repr && c.keys !in sm.Repr && c.values !in sm.Repr
    modifies c, c.keys, c.values
    ensures c.Valid() && c.listed == ScanAll(m, args, all)
  {
    var b := 0;
    while b < |args|
      invariant 0 <= b <= |args| && c.Valid() && c.listed == ScanAll(m, args[..b], all)
    {
      assert args[..b + 1][..b] == args[..b] && args[..b + 1][b] == args[b];
      ListedOnce(m, args[..b], all);
      if args[b].Bulk? {
        ScanMap(m, args[b].data, sm, nodes, vals, c, sm.slots, all);
      }
      b := b + 1;
    }
    assert args[..b] == args;
  }

  /** `handle_conf_get`. Without arguments or configuration there is no reply; otherwise the reply
      is the list of all configured pairs some argument asks for, `*0` when there is none. */
  method HandleConfGet(m: Matcher, args: seq<Tree>, sm: SimpleMap, nodes: Nodes, vals: Values)
    returns (reply: Reply)
    requires sm.Valid() && Allocated(sm.slots, nodes, vals)
    requires forall p :: p in PairsOf(sm.slots, nodes, vals) ==> PairNulFree(p)
    ensures reply == ConfReply(ScanAll(m, args, PairsOf(sm.slots, nodes, vals)), args == [] || sm.slots == [])
  {
    ghost var all := PairsOf(sm.slots, nodes, vals);
    if args == [] || sm.top < 0 { return NoReply; }
    var c := new Collector(sm.top + 1);
    ScanArgs(m, args, sm, nodes, vals, c, all);
    reply := c.Respond();
  }

  /** A non-empty reply is the array of the pairs' keys and values in order exactly when the item
      count has at most seven digits. */
  lemma {:induction false} ReplyIsArray(l: seq<Pair>)
    requires l != []
    ensures ConfReply(l, false) == Reply(Encode(Arr(Items(l)))) <==> 2 * |l| < 10_000_000
  {
    ItemsEncoded(l);
    CountExact(2 * |l|);
    var n := 2 * |l|;
    HeadersDiffer(CountText(n), Dec(n), ItemsText(l));
    assert Encode(Arr(Items(l))) == [ASTERISK] + Dec(n) + CRLF + ItemsText(l);
  }

  lemma HeadersDiffer(a: Bytes, b: Bytes, text: Bytes)
    ensures [ASTERISK] + a + CRLF + text == [ASTERISK] + b + CRLF + text <==> a == b
  {
    var x, y := [ASTERISK] + a + CRLF + text, [ASTERISK] + b + CRLF + text;
    if x == y {
      assert |a| == |b|;
      assert x[1..|a| + 1] == a && y[1..|b| + 1] == b;
    }
  }

  predicate Storable(l: seq<Pair>) {
    forall i :: 0 <= i < |l| ==> |l[i].key| <= PROTO_MAX_BULK_SIZE && |l[i].value| <= PROTO_MAX_BULK_SIZE
  }

  lemma {:induction false} ItemsInDomain(l: seq<Pair>)
    requires Storable(l)
    ensures forall i :: 0 <= i < |Items(l)| ==> InDomain(Items(l)[i])
  {
    if l != [] { ItemsInDomain(l[..|l| - 1]); }
  }

  /** The reply lexes back to the listed pairs. */
  lemma {:induction false} ReplyReadBack(l: seq<Pair>, rest: Bytes)
    requires l != [] && 2 * |l| < 10_000_000 && Storable(l)
    ensures ConfReply(l, false).text[0] == ASTERISK
    ensures ReadArray(ConfReply(l, false).text[1..] + rest) == Got(Arr(Items(l)), rest)
  {
    ReplyIsArray(l);
    ItemsInDomain(l);
    ItemsEncoded(l);
    RoundTrip(Arr(Items(l)), rest);
  }
}
