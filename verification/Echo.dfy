/** ECHO: the recursive printer with its shared byte counter and truncated buffers. */
module Echo {
  import opened Base
  import opened Resp
  import opened RespRoundTrip

  const MAX_BYTES_ARR_SIZE: nat := 20
  const MAX_BYTES_BULK_STR: nat := 9

  function Take(s: Bytes, n: nat): Bytes { if n <= |s| then s[..n] else s }

  /** What `%d` prints for a size, which is kept in an `int`. */
  function IntText(n: nat): (d: Bytes)
    ensures n < TWO31 ==> d == Dec(n)
  {
    var v := ToInt(n);
    if v < 0 then [MINUS] + Dec(-v) else Dec(v)
  }

  /** `snprintf` of a size into a buffer of `cap + 1` bytes. */
  function Printed(n: nat, cap: nat): Bytes { Take(IntText(n), cap) }

  /** What `%s` prints: the text, or `absent` for a NULL pointer. */
  function Shown(text: Option<Bytes>, absent: Bytes): Bytes {
    match text case None => absent case Some(s) => s
  }

  /** `"*%d\r\n%s%s"`. */
  function ArrayText(n: nat, elements: Bytes, next: Bytes): Bytes {
    [ASTERISK] + IntText(n) + CRLF + (elements + next)
  }

  /** `"$%d\r\n%s\r\n%s"`. */
  function BulkText(data: Bytes, next: Bytes): Bytes {
    [DOLLAR] + IntText(|data|) + CRLF + CStr(data) + CRLF + next
  }

  // ---- the text and the counter, as functions -----------------------------------------------

  /** The counter after printing `nodes` with the counter at `size`. */
  function Counter(nodes: seq<Tree>, size: nat): nat {
    if nodes == [] then size else
      match nodes[0]
      case Arr(kids) => Counter(nodes[1..], Counter(kids, size)) + |Printed(|kids|, MAX_BYTES_ARR_SIZE)| + 3
      case Bulk(data) => Counter(nodes[1..], size) + |Printed(|data|, MAX_BYTES_BULK_STR)| + 5 + |CStr(data)|
  }

  /** The text for the sibling list `nodes`, entered with the counter at `size`; `absent` is
      what stands in for a missing tail. */
  function Output(nodes: seq<Tree>, size: nat, absent: Bytes): Option<Bytes> {
    if nodes == [] then None else
      match nodes[0]
      case Arr(kids) =>
        var elements := Output(kids, size, absent);
        var next := Output(nodes[1..], Counter(kids, size), absent);
        Some(Take(ArrayText(|kids|, Shown(elements, absent), Shown(next, absent)),
                  Counter(nodes, size)))
      case Bulk(data) =>
        var next := Output(nodes[1..], size, absent);
        Some(Take(BulkText(data, Shown(next, absent)),
                  Counter(nodes, size)))
  }

  /** `__handle_echo_cmd` on a sibling list, with the counter passed in and out. */
  method HandleEcho(nodes: seq<Tree>, size: nat, absent: Bytes) returns (text: Option<Bytes>, size': nat)
    ensures text == Output(nodes, size, absent) && size' == Counter(nodes, size)
  {
    if nodes == [] { return None, size; }
    match nodes[0] {
      case Arr(kids) =>
        var elements, next;
        elements, size' := HandleEcho(kids, size, absent);
        next, size' := HandleEcho(nodes[1..], size', absent);
        var arrSize := Printed(|kids|, MAX_BYTES_ARR_SIZE);
        size' := size' + |arrSize| + 3;
        assert size' == Counter(nodes, size);
        text := Some(Take(ArrayText(|kids|, Shown(elements, absent), Shown(next, absent)), size'));
      case Bulk(data) =>
        var next;
        next, size' := HandleEcho(nodes[1..], size, absent);
        var bsSize := Printed(|data|, MAX_BYTES_BULK_STR);
        size' := size' + |bsSize| + 5 + |CStr(data)|;
        assert size' == Counter(nodes, size);
        text := Some(Take(BulkText(data, Shown(next, absent)), size'));
    }
  }

  // ---- size accounting ------------------------------------------------------------------------

  /** Trees the printer can be given: the lexer's domain, with NUL-free strings. */
  predicate Printable(t: Tree) {
    match t
    case Bulk(data) => |data| <= PROTO_MAX_BULK_SIZE && NulFree(data)
    case Arr(kids) => 0 < |kids| < TWO31 && forall i :: 0 <= i < |kids| ==> Printable(kids[i])
  }

  predicate AllPrintable(ts: seq<Tree>) { forall i :: 0 <= i < |ts| ==> Printable(ts[i]) }

  lemma NumeralsFit(t: Tree)
    requires Printable(t)
    ensures t.Bulk? ==> Printed(|t.data|, MAX_BYTES_BULK_STR) == Dec(|t.data|) && CStr(t.data) == t.data
    ensures t.Arr? ==> Printed(|t.kids|, MAX_BYTES_ARR_SIZE) == Dec(|t.kids|) == IntText(|t.kids|)
  {
    assert Pow10(4) == 10_000;
    assert Pow10(9) == 1_000_000_000;
    assert Pow10(10) == 10_000_000_000;
    if t.Bulk? { DecLength(|t.data|, 9); } else { DecLength(|t.kids|, 10); }
  }

  /** The counter grows by exactly the length of the encoding, whatever it started from. */
  lemma {:induction false} SizeAccounting(nodes: seq<Tree>, size: nat)
    requires AllPrintable(nodes)
    ensures Counter(nodes, size) == size + |EncodeAll(nodes)|
  {
    if nodes != [] {
      NumeralsFit(nodes[0]);
      match nodes[0] {
        case Arr(kids) =>
          SizeAccounting(kids, size);
          SizeAccounting(nodes[1..], Counter(kids, size));
        case Bulk(data) =>
          SizeAccounting(nodes[1..], size);
      }
    }
  }

  // ---- when the text is the encoding -----------------------------------------------------------

  /** The forests ECHO prints faithfully, by whether the list is entered with bytes already
      counted: then an array may only stand last; otherwise that holds after the first array. */
  predicate Faithful(nodes: seq<Tree>, counted: bool) {
    nodes == [] ||
    match nodes[0]
    case Bulk(_) => Faithful(nodes[1..], counted)
    case Arr(kids) => Faithful(kids, counted) && if counted then nodes[1..] == [] else Faithful(nodes[1..], true)
  }

  /** A stand-in text that no encoding starts with, such as `(null)`. */
  predicate Recognisable(absent: Bytes) { absent != [] && absent[0] != DOLLAR && absent[0] != ASTERISK }

  /** The text of a non-empty list: never shorter than its encoding, never longer than the
      counter, and starting with the encoding exactly for faithful lists; with bytes counted on
      entry a faithful list's encoding is followed by the stand-in text. */
  predicate Described(nodes: seq<Tree>, size: nat, absent: Bytes) {
    Output(nodes, size, absent).Some? &&
    TextDescribed(EncodeAll(nodes), Output(nodes, size, absent).value, size, absent, Faithful(nodes, size > 0))
  }

  /** The same of the text `out` for a list with encoding `enc`. */
  predicate TextDescribed(enc: Bytes, out: Bytes, size: nat, absent: Bytes, faithful: bool) {
    && |enc| <= |out| <= size + |enc|
    && (faithful ==> StartsWith(out, enc))
    && (size > 0 && faithful && absent != [] ==> |enc| < |out| && out[|enc|] == absent[0])
    && (Recognisable(absent) && !faithful ==> !StartsWith(out, enc))
  }

  lemma PrefixAfter(h: Bytes, p: Bytes, s: Bytes)
    ensures StartsWith(h + s, h + p) <==> StartsWith(s, p)
  {
    if |p| <= |s| {
      assert (h + s)[..|h| + |p|] == h + s[..|p|];
      assert (h + s[..|p|])[|h|..] == s[..|p|] && (h + p)[|h|..] == p;
    }
  }

  /** A text is extended, and cut off no earlier than the expected prefix ends. */
  lemma PrefixOfTake(p: Bytes, s: Bytes, n: nat)
    requires |p| <= n
    ensures StartsWith(Take(s, n), p) <==> StartsWith(s, p)
  {
    if n <= |s| { assert s[..n][..|p|] == s[..|p|]; }
  }

  lemma PrefixOfConcat(p: Bytes, q: Bytes, s: Bytes, t: Bytes)
    requires |p| <= |s|
    ensures StartsWith(s + t, p + q) ==> StartsWith(s, p)
    ensures |p| == |s| ==> (StartsWith(s + t, p + q) <==> p == s && StartsWith(t, q))
    ensures |p| < |s| && StartsWith(s + t, p + q) && q != [] ==> s[|p|] == q[0]
    ensures q == [] && StartsWith(s, p) ==> StartsWith(s + t, p + q)
  {
    var x, y := p + q, s + t;
    if StartsWith(y, x) {
      assert x == y[..|x|];
      assert x[..|p|] == y[..|p|] == s[..|p|] by { assert y[..|x|][..|p|] == y[..|p|]; }
      if |p| < |s| && q != [] { assert x[|p|] == y[|p|]; }
      if |p| == |s| { assert x[|p|..] == y[..|x|][|p|..] == t[..|q|]; }
    }
    if |p| == |s| && p == s { PrefixAfter(p, q, t); }
    if q == [] && StartsWith(s, p) { assert y[..|p|] == s[..|p|]; }
  }

  lemma EncodingStart(ts: seq<Tree>)
    requires ts != []
    ensures EncodeAll(ts) != [] && EncodeAll(ts)[0] in {DOLLAR, ASTERISK}
  {
  }

  /** The bytes `h` and what follows them, cut at `total`. */
  lemma HeadPrinted(h: Bytes, enc: Bytes, out: Bytes, total: nat)
    requires |enc| <= |out| && total >= |h| + |enc|
    ensures var t := Take(h + out, total);
      && |h| + |enc| <= |t| <= total && (StartsWith(t, h + enc) <==> StartsWith(out, enc))
      && (|out| > |enc| && total > |h| + |enc| ==> |t| > |h| + |enc| && t[|h| + |enc|] == out[|enc|])
  {
    PrefixAfter(h, enc, out);
    PrefixOfTake(h + enc, h + out, total);
  }

  lemma {:induction false} DescribeBulk(data: Bytes, rest: seq<Tree>, size: nat, absent: Bytes)
    requires AllPrintable([Bulk(data)] + rest) && (rest != [] ==> Described(rest, size, absent))
    ensures Described([Bulk(data)] + rest, size, absent)
  {
    var nodes := [Bulk(data)] + rest;
    assert nodes[1..] == rest && nodes[0] == Bulk(data);
    NumeralsFit(nodes[0]);
    SizeAccounting(nodes, size);
    var h, enc, tail := Encode(Bulk(data)), EncodeAll(rest), Shown(Output(rest, size, absent), absent);
    var total := size + |EncodeAll(nodes)|;
    assert BulkText(data, tail) == h + tail && EncodeAll(nodes) == h + enc;
    assert Output(nodes, size, absent).value == Take(h + tail, total);
    assert Faithful(nodes, size > 0) <==> Faithful(rest, size > 0);
    HeadPrinted(h, enc, tail, total);
  }

  /** A last array's text is `h out absent`, cut at its own total, which `h out` never exceeds. */
  lemma LastPrinted(h: Bytes, enc: Bytes, out: Bytes, size: nat, absent: Bytes, faithful: bool)
    requires TextDescribed(enc, out, size, absent, faithful)
    ensures TextDescribed(h + enc, Take(h + (out + absent), size + |h + enc|), size, absent, faithful)
  {
    assert enc + [] == enc;
    PrefixOfConcat(enc, [], out, absent);
    HeadPrinted(h, enc, out + absent, size + |h + enc|);
  }

  function ArrayHead(kids: seq<Tree>): Bytes { [ASTERISK] + Dec(|kids|) + CRLF }

  lemma LastArrayEncoded(nodes: seq<Tree>, kids: seq<Tree>)
    requires |nodes| == 1 && nodes[0] == Arr(kids)
    ensures EncodeAll(nodes) == ArrayHead(kids) + EncodeAll(kids)
  {
  }

  lemma ArrayTextParts(kids: seq<Tree>, elements: Bytes, next: Bytes)
    requires Printable(Arr(kids))
    ensures ArrayText(|kids|, elements, next) == ArrayHead(kids) + (elements + next)
  {
    NumeralsFit(Arr(kids));
  }

  /** What is printed for an array and its siblings. */
  function ArrayPrint(kids: seq<Tree>, rest: seq<Tree>, size: nat, absent: Bytes): Bytes {
    Shown(Output(kids, size, absent), absent) + Shown(Output(rest, Counter(kids, size), absent), absent)
  }

  lemma ArrayOutput(nodes: seq<Tree>, kids: seq<Tree>, rest: seq<Tree>, size: nat, absent: Bytes, text: Bytes)
    requires nodes != [] && nodes[0] == Arr(kids) && nodes[1..] == rest && Printable(nodes[0])
    requires text == ArrayPrint(kids, rest, size, absent)
    ensures Output(nodes, size, absent) == Some(Take(ArrayHead(kids) + text, Counter(nodes, size)))
  {
    ArrayTextParts(kids, Shown(Output(kids, size, absent), absent),
                   Shown(Output(rest, Counter(kids, size), absent), absent));
  }

  lemma ArrayEncoded(nodes: seq<Tree>)
    requires nodes != [] && nodes[0].Arr?
    ensures EncodeAll(nodes) == ArrayHead(nodes[0].kids) + (EncodeAll(nodes[0].kids) + EncodeAll(nodes[1..]))
  {
  }

  lemma LastArrayPrint(kids: seq<Tree>, size: nat, absent: Bytes, out: Bytes)
    requires Output(kids, size, absent) == Some(out)
    ensures ArrayPrint(kids, [], size, absent) == out + absent
  {
  }

  lemma LastArrayText(nodes: seq<Tree>, kids: seq<Tree>, size: nat, absent: Bytes, out: Bytes)
    requires |nodes| == 1 && nodes[0] == Arr(kids) && Printable(nodes[0]) && Output(kids, size, absent) == Some(out)
    ensures Output(nodes, size, absent) == Some(Take(ArrayHead(kids) + (out + absent), Counter(nodes, size)))
  {
    LastArrayPrint(kids, size, absent, out);
    ArrayOutput(nodes, kids, [], size, absent, out + absent);
  }

  /** An array whose list ends with it. */
  lemma {:induction false} DescribeLastArray(nodes: seq<Tree>, kids: seq<Tree>, size: nat, absent: Bytes)
    requires |nodes| == 1 && nodes[0] == Arr(kids) && AllPrintable(nodes) && Described(kids, size, absent)
    ensures Described(nodes, size, absent)
  {
    var out := Output(kids, size, absent).value;
    LastArrayEncoded(nodes, kids);
    SizeAccounting(nodes, size);
    LastArrayText(nodes, kids, size, absent, out);
    assert Faithful(nodes, size > 0) <==> Faithful(kids, size > 0);
    LastPrinted(ArrayHead(kids), EncodeAll(kids), out, size, absent, Faithful(kids, size > 0));
  }

  /** The bytes of an array `h encK` followed by siblings `encR`, printed as `h outK outR` and cut
      at `total`: right exactly when both parts are and the first adds nothing of its own. */
  lemma PartsPrinted(h: Bytes, encK: Bytes, encR: Bytes, outK: Bytes, outR: Bytes, total: nat)
    requires |encK| <= |outK| && |encR| <= |outR| && total >= |h| + |encK| + |encR|
    ensures var enc, out := h + (encK + encR), Take(h + (outK + outR), total);
      && |enc| <= |out| <= total
      && (|outK| == |encK| ==> (StartsWith(out, enc) <==> StartsWith(outK, encK) && StartsWith(outR, encR)))
      && (StartsWith(out, enc) ==> StartsWith(outK, encK))
      && (|encK| < |outK| && encR != [] && StartsWith(out, enc) ==> outK[|encK|] == encR[0])
  {
    PrefixAfter(h, encK + encR, outK + outR);
    PrefixOfConcat(encK, encR, outK, outR);
    PrefixOfTake(h + (encK + encR), h + (outK + outR), total);
  }

  /** An array with siblings behind it: they are entered with bytes counted. */
  lemma {:induction false} DescribeArray(kids: seq<Tree>, rest: seq<Tree>, size: nat, absent: Bytes)
    requires rest != [] && AllPrintable([Arr(kids)] + rest) && Described(kids, size, absent)
    requires Described(rest, Counter(kids, size), absent)
    ensures Described([Arr(kids)] + rest, size, absent)
  {
    var nodes := [Arr(kids)] + rest;
    assert nodes[1..] == rest && nodes[0] == Arr(kids);
    assert Printable(nodes[0]) && AllPrintable(kids) && kids != [];
    SizeAccounting(kids, size);
    EncodingStart(kids);
    EncodingStart(rest);
    SizeAccounting(nodes, size);
    ArrayOutput(nodes, kids, rest, size, absent, ArrayPrint(kids, rest, size, absent));
    ArrayEncoded(nodes);
    var h, encK, encR := ArrayHead(kids), EncodeAll(kids), EncodeAll(rest);
    var outK, outR := Output(kids, size, absent).value, Output(rest, Counter(kids, size), absent).value;
    var total := size + |EncodeAll(nodes)|;
    assert Output(nodes, size, absent).value == Take(h + (outK + outR), total);
    assert Faithful(nodes, size > 0) <==> size == 0 && Faithful(kids, false) && Faithful(rest, true);
    PartsPrinted(h, encK, encR, outK, outR, total);
  }

  lemma {:induction false} Describe(nodes: seq<Tree>, size: nat, absent: Bytes)
    requires nodes != [] && AllPrintable(nodes)
    ensures Described(nodes, size, absent)
  {
    var rest := nodes[1..];
    assert nodes == [nodes[0]] + rest;
    assert Printable(nodes[0]);
    match nodes[0] {
      case Bulk(data) =>
        if rest != [] { Describe(rest, size, absent); }
        DescribeBulk(data, rest, size, absent);
      case Arr(kids) =>
        Describe(kids, size, absent);
        if rest != [] {
          Describe(rest, Counter(kids, size), absent);
          DescribeArray(kids, rest, size, absent);
        } else {
          DescribeLastArray(nodes, kids, size, absent);
        }
    }
  }

  /** `handle_echo_cmd`: the counter starts at 0. For printable arguments the counter ends at the
      encoding's length; the reply is the encoding of the arguments for every faithful forest,
      whatever text stands in for a missing tail, and for a text like `(null)` for no other forest. */
  method HandleEchoCmd(nodes: seq<Tree>, absent: Bytes) returns (reply: Option<Bytes>, size: nat)
    ensures reply == Output(nodes, 0, absent)
    ensures reply == None <==> nodes == []
    ensures AllPrintable(nodes) ==> size == |EncodeAll(nodes)|
    ensures AllPrintable(nodes) && nodes != [] && Faithful(nodes, false) ==> reply == Some(EncodeAll(nodes))
    ensures AllPrintable(nodes) && nodes != [] && Recognisable(absent) && reply == Some(EncodeAll(nodes)) ==>
      Faithful(nodes, false)
  {
    reply, size := HandleEcho(nodes, 0, absent);
    if AllPrintable(nodes) {
      SizeAccounting(nodes, 0);
      if nodes != [] {
        FaithfulText(nodes, absent);
        if !Faithful(nodes, false) && Recognisable(absent) { UnfaithfulText(nodes, absent); }
      }
    }
  }

  /** What is printed for a faithful forest is its encoding. */
  lemma FaithfulText(nodes: seq<Tree>, absent: Bytes)
    requires AllPrintable(nodes) && nodes != []
    ensures Faithful(nodes, false) ==> Output(nodes, 0, absent) == Some(EncodeAll(nodes))
  {
    Describe(nodes, 0, absent);
    var text := Output(nodes, 0, absent).value;
    assert StartsWith(text, EncodeAll(nodes)) ==> text[..|EncodeAll(nodes)|] == text;
  }

  predicate Flat(nodes: seq<Tree>) { forall i :: 0 <= i < |nodes| ==> nodes[i].Bulk? }

  /** Flat argument lists are always printed faithfully. */
  lemma {:induction false} FlatIsFaithful(nodes: seq<Tree>, counted: bool)
    requires Flat(nodes)
    ensures Faithful(nodes, counted)
  {
    if nodes != [] { FlatIsFaithful(nodes[1..], counted); }
  }

  /** The text of an unfaithful forest does not start with its encoding. */
  lemma {:induction false} UnfaithfulText(nodes: seq<Tree>, absent: Bytes)
    requires AllPrintable(nodes) && Recognisable(absent) && !Faithful(nodes, false)
    ensures Output(nodes, 0, absent).Some? && !StartsWith(Output(nodes, 0, absent).value, EncodeAll(nodes))
  {
    Describe(nodes, 0, absent);
  }

  /** Two nested arrays with a string behind them are not echoed back: the text printed does not
      even start with their encoding. */
  lemma {:induction false} UnfaithfulExample(b: Bytes, absent: Bytes)
    requires |b| <= PROTO_MAX_BULK_SIZE && NulFree(b) && Recognisable(absent)
    ensures var ts := [Arr([Bulk(b)]), Arr([Bulk(b)]), Bulk(b)];
      && !Faithful(ts, false) && Output(ts, 0, absent).Some?
      && !StartsWith(Output(ts, 0, absent).value, EncodeAll(ts)) && Output(ts, 0, absent) != Some(EncodeAll(ts))
  {
    var ts := [Arr([Bulk(b)]), Arr([Bulk(b)]), Bulk(b)];
    assert ts[1..] == [Arr([Bulk(b)]), Bulk(b)] && ts[1..][1..] == [Bulk(b)];
    assert Printable(Bulk(b)) && Printable(Arr([Bulk(b)]));
    UnfaithfulText(ts, absent);
  }

  /** `(null)` */
  const NULL_TEXT: Bytes := [40, 110, 117, 108, 108, 41]

  /** `$1\r\nx\r\n` */
  const X_TEXT: Bytes := [36, 49, 13, 10, 120, 13, 10]

  lemma XPrinted(ts: seq<Tree>, size: nat)
    requires ts == [Bulk([120])]
    ensures Counter(ts, size) == size + 7 && Output(ts, size, NULL_TEXT) == Some(Take(X_TEXT + NULL_TEXT, size + 7))
  {
    assert ts[1..] == [] && CStr([120]) == [120] && Dec(1) == [49];
    assert BulkText([120], NULL_TEXT) == X_TEXT + NULL_TEXT;
  }

  lemma OneXPrinted(ts: seq<Tree>, kids: seq<Tree>, size: nat, elements: Bytes, next: Bytes)
    requires ts != [] && ts[0] == Arr(kids) && |kids| == 1
    requires elements == Shown(Output(kids, size, NULL_TEXT), NULL_TEXT)
    requires next == Shown(Output(ts[1..], Counter(kids, size), NULL_TEXT), NULL_TEXT)
    ensures Counter(ts, size) == Counter(ts[1..], Counter(kids, size)) + 4
    ensures Output(ts, size, NULL_TEXT) == Some(Take([42, 49, 13, 10] + (elements + next), Counter(ts, size)))
  {
    assert Dec(1) == [49] && IntText(1) == [49] && Printed(1, MAX_BYTES_ARR_SIZE) == [49];
    assert ArrayText(1, elements, next) == [42, 49, 13, 10] + (elements + next);
  }

  /** Where the two cuts fall. */
  lemma Cuts(whole: Bytes, next: Bytes)
    requires whole == X_TEXT + NULL_TEXT && next == Take([42, 49, 13, 10] + (whole + whole), 25)
    ensures Take([42, 49, 13, 10] + (X_TEXT + next), 29)
      == [42, 49, 13, 10] + X_TEXT + [42, 49, 13, 10] + X_TEXT + NULL_TEXT + [36]
  {
  }

  lemma SecondPrinted(us: seq<Tree>, kids: seq<Tree>, whole: Bytes)
    requires kids == [Bulk([120])] && us == [Arr(kids), Bulk([120])] && whole == X_TEXT + NULL_TEXT
    ensures Counter(us, 7) == 25 && Output(us, 7, NULL_TEXT) == Some(Take([42, 49, 13, 10] + (whole + whole), 25))
  {
    assert us[1..] == kids;
    XPrinted(kids, 7);
    XPrinted(kids, 14);
    OneXPrinted(us, kids, 7, whole, whole);
  }

  /** The text printed for two arrays of one string and a string behind them: the second array runs on
      behind its element. */
  lemma {:induction false} UnfaithfulBytes(ts: seq<Tree>)
    requires ts == [Arr([Bulk([120])]), Arr([Bulk([120])]), Bulk([120])]
    ensures Output(ts, 0, NULL_TEXT) == Some([42, 49, 13, 10] + X_TEXT + [42, 49, 13, 10] + X_TEXT + NULL_TEXT + [36])
  {
    var kids, whole := [Bulk([120])], X_TEXT + NULL_TEXT;
    var next := Take([42, 49, 13, 10] + (whole + whole), 25);
    assert ts[1..] == [Arr(kids), Bulk([120])];
    SecondPrinted(ts[1..], kids, whole);
    XPrinted(kids, 0);
    OneXPrinted(ts, kids, 0, X_TEXT, next);
    Cuts(whole, next);
  }

  /** The echoed arguments are read back as they were sent. */
  lemma {:induction false} EchoReadBack(nodes: seq<Tree>, rest: Bytes)
    requires AllPrintable(nodes)
    ensures ReadElems(EncodeAll(nodes) + rest, |nodes|) == Got(nodes, rest)
  {
    if nodes == [] {
      assert EncodeAll(nodes) + rest == rest;
    } else {
      PrintableInDomain(nodes[0]);
      var more := EncodeAll(nodes[1..]) + rest;
      assert EncodeAll(nodes) + rest == Encode(nodes[0]) + more;
      RoundTrip(nodes[0], more);
      EchoReadBack(nodes[1..], rest);
      assert nodes == [nodes[0]] + nodes[1..];
    }
  }

  lemma {:induction false} PrintableInDomain(t: Tree)
    requires Printable(t)
    ensures InDomain(t)
  {
    if t.Arr? {
      forall i | 0 <= i < |t.kids| ensures InDomain(t.kids[i]) { PrintableInDomain(t.kids[i]); }
    }
  }
}
