/** The lexer's language: reading and printing are inverse. */
module RespRoundTrip {
  import opened Base
  import opened Resp

  // ---- everything in the concrete syntax is read back ---------------------------------

  lemma {:induction false} LeadingDigitsOf(d: Bytes, rest: Bytes)
    requires AllDigits(d) && (rest != [] ==> !IsDigit(rest[0]))
    ensures LeadingDigits(d + rest) == |d|
  {
    if d == [] {
      assert d + rest == rest;
    } else {
      assert (d + rest)[1..] == d[1..] + rest;
      LeadingDigitsOf(d[1..], rest);
    }
  }

  lemma SizeReadBack(d: Bytes, n: nat, rest: Bytes)
    requires IsHeader(d, n) && n < TWO32 - 2
    ensures ReadSize(d + CRLF + rest) == Got(ToInt(n), rest)
  {
    var s := d + CRLF + rest;
    assert s == d + (CRLF + rest);
    LeadingDigitsOf(d, CRLF + rest);
    assert s[..|d|] == d && s[|d|..] == CRLF + rest && s[|d| + 2..] == rest;
  }

  lemma BulkReadBack(d: Bytes, data: Bytes, rest: Bytes)
    requires Accepted(SBulk(d, data))
    ensures ReadBulk(Body(SBulk(d, data)) + rest) == Got(Bulk(data), rest)
  {
    var tail := data + CRLF + rest;
    assert Body(SBulk(d, data)) + rest == d + CRLF + tail;
    SizeReadBack(d, |data|, tail);
    assert tail[..|data|] == data && tail[|data|..|data| + 2] == CRLF && tail[|data| + 2..] == rest;
  }

  /** An array is read by its header and then its elements. */
  lemma ArrayByParts(s: Bytes, n: nat, r: Bytes, ts: seq<Tree>, rest: Bytes)
    requires 0 < n < TWO32 - 2 && ReadSize(s) == Got(ToInt(n), r) && ReadElems(r, n) == Got(ts, rest)
    ensures ReadArray(s) == Got(Arr(ts), rest)
  {
  }

  lemma ArrayReadBack(d: Bytes, kids: seq<Syntax>, rest: Bytes)
    requires Accepted(SArr(d, kids))
    requires ReadElems(Texts(kids) + rest, |kids|) == Got(TreesOf(kids), rest)
    ensures ReadArray(Body(SArr(d, kids)) + rest) == Got(Arr(TreesOf(kids)), rest)
  {
    var r := Texts(kids) + rest;
    assert Body(SArr(d, kids)) + rest == d + CRLF + r;
    SizeReadBack(d, |kids|, r);
    ArrayByParts(d + CRLF + r, |kids|, r, TreesOf(kids), rest);
  }

  /** Completeness: every accepted text is read as the tree it denotes, leaving exactly what
      follows it. */
  lemma {:induction false} ReadBack(x: Syntax, rest: Bytes)
    requires Accepted(x)
    ensures ReadNode(Text(x) + rest) == Got(TreeOf(x), rest)
    ensures x.SArr? ==> ReadArray(Body(x) + rest) == Got(TreeOf(x), rest)
    decreases x, 0
  {
    assert (Text(x) + rest)[1..] == Body(x) + rest;
    match x {
      case SBulk(d, data) =>
        BulkReadBack(d, data, rest);
      case SArr(d, kids) =>
        ElemsReadBack(kids, rest);
        ArrayReadBack(d, kids, rest);
    }
  }

  lemma ElemsTogether(s: Bytes, n: nat, t: Tree, r: Bytes, ts: seq<Tree>, rest: Bytes)
    requires n > 0 && ReadNode(s) == Got(t, r) && ReadElems(r, n - 1) == Got(ts, rest)
    ensures ReadElems(s, n) == Got([t] + ts, rest)
  {
  }

  lemma TextsApart(xs: seq<Syntax>, rest: Bytes)
    requires xs != []
    ensures Texts(xs) + rest == Text(xs[0]) + (Texts(xs[1..]) + rest)
    ensures TreesOf(xs) == [TreeOf(xs[0])] + TreesOf(xs[1..])
  {
  }

  lemma {:induction false} ElemsReadBack(xs: seq<Syntax>, rest: Bytes)
    requires forall i :: 0 <= i < |xs| ==> Accepted(xs[i])
    ensures ReadElems(Texts(xs) + rest, |xs|) == Got(TreesOf(xs), rest)
    decreases xs, 1
  {
    if xs == [] {
      assert Texts(xs) + rest == rest;
    } else {
      var r := Texts(xs[1..]) + rest;
      TextsApart(xs, rest);
      ReadBack(xs[0], r);
      ElemsReadBack(xs[1..], rest);
      ElemsTogether(Text(xs[0]) + r, |xs|, TreeOf(xs[0]), r, TreesOf(xs[1..]), rest);
    }
  }

  // ---- and nothing else is read ---------------------------------------------------------

  lemma SizeRead(s: Bytes) returns (d: Bytes)
    requires ReadSize(s).Got? && ReadSize(s).value != -1
    ensures var n := Announced(ReadSize(s).value);
            IsHeader(d, n) && n < TWO32 - 2 && s == d + CRLF + ReadSize(s).rest
  {
    var k := LeadingDigits(s);
    d := s[..k];
    assert s == d + s[k..] && s[k..] == CRLF + s[k + 2..];
  }

  lemma Tagged(tag: byte, d: Bytes, t: Bytes)
    ensures [tag] + (d + CRLF + t) == [tag] + d + CRLF + t
  {
  }

  /** An array's syntax from its parts. */
  lemma {:induction false} ArraySyntax(d: Bytes, xs: seq<Syntax>)
    ensures TreeOf(SArr(d, xs)) == Arr(TreesOf(xs))
    ensures Text(SArr(d, xs)) == [ASTERISK] + d + CRLF + Texts(xs) && Body(SArr(d, xs)) == d + CRLF + Texts(xs)
    ensures 0 < |xs| < TWO32 - 2 && IsHeader(d, |xs|) && (forall i :: 0 <= i < |xs| ==> Accepted(xs[i]))
      ==> Accepted(SArr(d, xs))
  {
    var x, t := SArr(d, xs), Texts(xs);
    assert Body(x) == d + CRLF + t;
    Tagged(ASTERISK, d, t);
  }

  lemma BulkApart(s: Bytes)
    requires ReadBulk(s).Got?
    ensures ReadSize(s).Got?
    ensures var v, r := ReadSize(s).value, ReadSize(s).rest;
      && 0 <= v <= PROTO_MAX_BULK_SIZE && v + 2 <= |r| && r[v..v + 2] == CRLF
      && ReadBulk(s) == Got(Bulk(r[..v]), r[v + 2..])
  {
  }

  lemma BulkTogether(d: Bytes, r: Bytes, v: nat)
    requires v + 2 <= |r| && r[v..v + 2] == CRLF
    ensures d + CRLF + r == Body(SBulk(d, r[..v])) + r[v + 2..]
  {
    assert r == r[..v] + CRLF + r[v + 2..];
  }

  lemma BulkRead(s: Bytes) returns (x: Syntax)
    requires ReadBulk(s).Got?
    ensures x.SBulk? && Accepted(x) && TreeOf(x) == ReadBulk(s).value && s == Body(x) + ReadBulk(s).rest
  {
    BulkApart(s);
    var d := SizeRead(s);
    var v, r := ReadSize(s).value, ReadSize(s).rest;
    BulkTogether(d, r, v);
    x := SBulk(d, r[..v]);
  }

  /** Soundness: whatever is read is an accepted text of the returned tree, and the rest of
      the stream is what follows that text. */
  lemma {:induction false} NodeRead(s: Bytes) returns (x: Syntax)
    requires ReadNode(s).Got?
    ensures Accepted(x) && TreeOf(x) == ReadNode(s).value && s == Text(x) + ReadNode(s).rest
    decreases |s|, 1
  {
    assert s == [s[0]] + s[1..];
    if s[0] == DOLLAR {
      x := BulkRead(s[1..]);
      assert s == [DOLLAR] + Body(x) + ReadNode(s).rest;
    } else {
      x := ArrayRead(s[1..]);
      assert s == [ASTERISK] + Body(x) + ReadNode(s).rest;
    }
  }

  lemma ArrayApart(s: Bytes)
    requires ReadArray(s).Got?
    ensures ReadSize(s).Got? && ReadSize(s).value != -1
    ensures var n, r := Announced(ReadSize(s).value), ReadSize(s).rest;
      && n > 0 && ReadElems(r, n).Got? && ReadArray(s) == Got(Arr(ReadElems(r, n).value), ReadElems(r, n).rest)
  {
  }

  lemma {:induction false} ArrayRead(s: Bytes) returns (x: Syntax)
    requires ReadArray(s).Got?
    ensures x.SArr? && Accepted(x) && TreeOf(x) == ReadArray(s).value
    ensures s == Body(x) + ReadArray(s).rest
    decreases |s|, 0
  {
    ArrayApart(s);
    var n, r := Announced(ReadSize(s).value), ReadSize(s).rest;
    var d := SizeRead(s);
    var xs := ElemsRead(r, n);
    var rest := ReadElems(r, n).rest;
    x := SArr(d, xs);
    ArraySyntax(d, xs);
    assert d + CRLF + (Texts(xs) + rest) == d + CRLF + Texts(xs) + rest;
  }

  lemma ElemsApart(s: Bytes, n: nat)
    requires n > 0 && ReadElems(s, n).Got?
    ensures ReadNode(s).Got? && ReadElems(ReadNode(s).rest, n - 1).Got?
    ensures ReadElems(s, n).value == [ReadNode(s).value] + ReadElems(ReadNode(s).rest, n - 1).value
    ensures ReadElems(s, n).rest == ReadElems(ReadNode(s).rest, n - 1).rest
  {
  }

  /** `s` is an accepted text of the trees `ts`, spelled by `xs`, and then `rest`. */
  predicate Spelled(xs: seq<Syntax>, s: Bytes, ts: seq<Tree>, rest: Bytes) {
    && (forall i :: 0 <= i < |xs| ==> Accepted(xs[i]))
    && TreesOf(xs) == ts && s == Texts(xs) + rest
  }

  lemma SpelledCons(x: Syntax, xs: seq<Syntax>, s: Bytes, r: Bytes, ts: seq<Tree>, rest: Bytes)
    requires Accepted(x) && s == Text(x) + r && Spelled(xs, r, ts, rest)
    ensures Spelled([x] + xs, s, [TreeOf(x)] + ts, rest)
  {
    assert ([x] + xs)[1..] == xs;
    assert Text(x) + (Texts(xs) + rest) == Text(x) + Texts(xs) + rest;
  }

  lemma {:induction false} ElemsRead(s: Bytes, n: nat) returns (xs: seq<Syntax>)
    requires ReadElems(s, n).Got?
    ensures |xs| == n && Spelled(xs, s, ReadElems(s, n).value, ReadElems(s, n).rest)
    decreases |s|, 2
  {
    if n == 0 {
      xs := [];
    } else {
      ElemsApart(s, n);
      var x := NodeRead(s);
      var r := ReadNode(s).rest;
      var more := ElemsRead(r, n - 1);
      var o := ReadElems(r, n - 1);
      SpelledCons(x, more, s, r, o.value, o.rest);
      xs := [x] + more;
    }
  }

  /** The lexer's language, both ways: after the leading `*` it returns `t` and leaves `rest`
      exactly when the stream is an accepted text of the array `t` followed by `rest`. */
  lemma LexerLanguage(s: Bytes, t: Tree, rest: Bytes)
    ensures ReadArray(s) == Got(t, rest)
      <==> exists x: Syntax :: x.SArr? && Accepted(x) && TreeOf(x) == t && s == Body(x) + rest
  {
    if ReadArray(s) == Got(t, rest) {
      var x := ArrayRead(s);
      assert x.SArr? && Accepted(x) && TreeOf(x) == t && s == Body(x) + rest;
    }
    if x: Syntax :| x.SArr? && Accepted(x) && TreeOf(x) == t && s == Body(x) + rest {
      ReadBack(x, rest);
    }
  }

  // ---- the canonical encoding -------------------------------------------------------------

  lemma {:induction false} CanonFacts(t: Tree)
    requires InDomain(t)
    ensures Accepted(Canon(t)) && TreeOf(Canon(t)) == t && Text(Canon(t)) == Encode(t)
    decreases t, 0
  {
    match t {
      case Bulk(data) =>
        DecFits(|data|);
      case Arr(kids) =>
        CanonAllFacts(kids);
        DecFits(|kids|);
        ArraySyntax(Dec(|kids|), CanonAll(kids));
    }
  }

  predicate AllAccepted(xs: seq<Syntax>) { forall i :: 0 <= i < |xs| ==> Accepted(xs[i]) }

  lemma SyntaxCons(x: Syntax, xs: seq<Syntax>)
    ensures var ys := [x] + xs;
      && TreesOf(ys) == [TreeOf(x)] + TreesOf(xs) && Texts(ys) == Text(x) + Texts(xs)
      && (Accepted(x) && AllAccepted(xs) ==> AllAccepted(ys))
  {
    assert ([x] + xs)[1..] == xs;
  }

  lemma {:induction false} CanonAllFacts(ts: seq<Tree>)
    requires forall i :: 0 <= i < |ts| ==> InDomain(ts[i])
    ensures AllAccepted(CanonAll(ts))
    ensures TreesOf(CanonAll(ts)) == ts && Texts(CanonAll(ts)) == EncodeAll(ts)
    decreases ts, 1
  {
    if ts != [] {
      CanonFacts(ts[0]);
      CanonAllFacts(ts[1..]);
      SyntaxCons(Canon(ts[0]), CanonAll(ts[1..]));
      assert ts == [ts[0]] + ts[1..];
    }
  }

  lemma DecFits(n: nat)
    requires n < TWO31
    ensures IsHeader(Dec(n), n)
  {
    DecValDec(n);
    assert Pow10(10) == 10_000_000_000 by { assert Pow10(5) == 100_000; }
    DecLength(n, 10);
  }

  /** Streaming round trip: every tree in the domain is read back from its encoding, and
      exactly the bytes after it are left. */
  lemma RoundTrip(t: Tree, rest: Bytes)
    requires InDomain(t)
    ensures ReadNode(Encode(t) + rest) == Got(t, rest)
    ensures t.Arr? ==> ReadArray(Encode(t)[1..] + rest) == Got(t, rest)
  {
    CanonFacts(t);
    ReadBack(Canon(t), rest);
    assert Encode(t)[1..] == Body(Canon(t));
  }

  /** Encodings are uniquely decodable, wherever the next message starts. */
  lemma UniqueDecoding(t: Tree, u: Tree, rest: Bytes, rest': Bytes)
    requires InDomain(t) && InDomain(u) && Encode(t) + rest == Encode(u) + rest'
    ensures t == u && rest == rest'
  {
    RoundTrip(t, rest);
    RoundTrip(u, rest');
  }

  // ---- leading zeros, and when they are the only freedom ---------------------------------

  lemma {:induction false} DropZerosIsDec(d: Bytes)
    requires AllDigits(d) && |d| > 0
    ensures DropZeros(d) == Dec(DecVal(d))
  {
    var k := DigitsAreDec(d);
    DropsPadding(k, Dec(DecVal(d)));
  }

  lemma {:induction false} DropsPadding(k: nat, d: Bytes)
    requires |d| > 0 && (|d| > 1 ==> d[0] != ZERO)
    ensures DropZeros(Zeros(k) + d) == d
  {
    if k == 0 {
      assert Zeros(0) + d == d;
    } else {
      assert (Zeros(k) + d)[1..] == Zeros(k - 1) + d;
      DropsPadding(k - 1, d);
    }
  }

  lemma DecInjective(m: nat, n: nat)
    ensures Dec(m) == Dec(n) <==> m == n
  {
    DecValDec(m);
    DecValDec(n);
  }

  lemma BelowModulus(v: nat, n: nat)
    requires v % TWO32 == n
    ensures v == n <==> v < TWO32
  {
  }

  lemma HeaderPadded(d: Bytes, n: nat)
    requires IsHeader(d, n)
    ensures DropZeros(d) == Dec(n) <==> DecVal(d) < TWO32
  {
    DropZerosIsDec(d);
    DecInjective(DecVal(d), n);
    BelowModulus(DecVal(d), n);
  }

  /** An accepted text is the printers' encoding of its tree up to leading zeros exactly when
      none of its headers wraps around 32 bits. */
  lemma {:induction false} PaddedIffNoWrap(x: Syntax)
    requires Accepted(x)
    ensures Unpadded(x) == Canon(TreeOf(x)) <==> NoWrap(x)
    decreases x, 0
  {
    match x {
      case SBulk(d, data) => HeaderPadded(d, |data|);
      case SArr(d, kids) =>
        HeaderPadded(d, |kids|);
        PaddedAll(kids);
    }
  }

  lemma {:induction false} PaddedAll(xs: seq<Syntax>)
    requires forall i :: 0 <= i < |xs| ==> Accepted(xs[i])
    ensures UnpaddedAll(xs) == CanonAll(TreesOf(xs)) <==> NoWrapAll(xs)
    decreases xs, 1
  {
    if xs != [] {
      PaddedIffNoWrap(xs[0]);
      PaddedAll(xs[1..]);
      var t, ts := TreeOf(xs[0]), TreesOf(xs[1..]);
      assert ([t] + ts)[1..] == ts;
      HeadsAndTails(Unpadded(xs[0]), UnpaddedAll(xs[1..]), Canon(t), CanonAll(ts));
    }
  }

  lemma HeadsAndTails<T>(a: T, s: seq<T>, b: T, t: seq<T>)
    ensures [a] + s == [b] + t <==> a == b && s == t
  {
    if [a] + s == [b] + t {
      assert ([a] + s)[0] == a && ([b] + t)[0] == b;
      assert ([a] + s)[1..] == s && ([b] + t)[1..] == t;
    }
  }

  /** A header that wraps: `*4294967297` followed by one element is read as a one-element array. */
  lemma WrappedHeader(rest: Bytes)
    ensures ReadArray(Dec(TWO32 + 1) + CRLF + Encode(Bulk([])) + rest) == Got(Arr([Bulk([])]), rest)
  {
    var x := SArr(Dec(TWO32 + 1), [Canon(Bulk([]))]);
    CanonFacts(Bulk([]));
    DecValDec(TWO32 + 1);
    assert Pow10(10) == 10_000_000_000 by { assert Pow10(5) == 100_000; }
    DecLength(TWO32 + 1, 10);
    ReadBack(x, rest);
    assert Texts(x.kids) == Encode(Bulk([])) by { assert x.kids[1..] == []; }
    assert Dec(TWO32 + 1) + CRLF + Encode(Bulk([])) + rest == Body(x) + rest;
    assert TreesOf(x.kids) == [Bulk([])] by { assert x.kids[1..] == []; }
  }

  // ---- the limits, in numbers --------------------------------------------------------------------

  lemma {:induction false} DigitsAtLeast(d: Bytes, rest: Bytes)
    requires AllDigits(d)
    ensures LeadingDigits(d + rest) >= |d|
  {
    if d != [] {
      assert (d + rest)[1..] == d[1..] + rest;
      DigitsAtLeast(d[1..], rest);
    }
  }

  /** A header has at most 8192 digits, and the value of those is its number modulo 2^32, except that
      4294967294 is the error value. */
  lemma {:induction false} HeaderLimits(d: Bytes, rest: Bytes)
    requires AllDigits(d)
    ensures |d| > 8_192 ==> ReadSize(d + rest) == Fail
    ensures 0 < |d| <= 8_192 ==>
      var v := DecVal(d) % 4_294_967_296;
      ReadSize(d + [13, 10] + rest)
      == if v < 2_147_483_648 then Got(v, rest) else if v == 4_294_967_294 then Fail else Got(v - 4_294_967_296, rest)
  {
    DigitsAtLeast(d, rest);
    assert d + [13, 10] + rest == d + ([13, 10] + rest);
    LeadingDigitsOf(d, [13, 10] + rest);
    assert (d + ([13, 10] + rest))[..|d|] == d && (d + ([13, 10] + rest))[|d|..] == [13, 10] + rest;
  }

  /** A bulk string has at most 512000000 bytes. */
  lemma {:induction false} BulkLimit(data: Bytes, n: nat, rest: Bytes)
    ensures |data| <= 512_000_000 ==>
      ReadNode([36] + Dec(|data|) + [13, 10] + data + [13, 10] + rest) == Got(Bulk(data), rest)
    ensures 512_000_000 < n < 2_147_483_648 ==> ReadNode([36] + (Dec(n) + [13, 10] + rest)) == Fail
  {
    if |data| <= 512_000_000 {
      assert InDomain(Bulk(data)) && Encode(Bulk(data)) == [36] + Dec(|data|) + [13, 10] + data + [13, 10];
      RoundTrip(Bulk(data), rest);
    }
    if 512_000_000 < n < 2_147_483_648 {
      DecFits(n);
      SizeReadBack(Dec(n), n, rest);
      assert ([36] + (Dec(n) + [13, 10] + rest))[1..] == Dec(n) + [13, 10] + rest;
    }
  }

  /** Nil and empty arrays and nil strings are neither read nor refused. */
  lemma {:induction false} OutsideForms(rest: Bytes)
    ensures ReadArray([45, 49, 13, 10] + rest) == Outside && ReadArray([48, 13, 10] + rest) == Outside
    ensures ReadNode([36, 45, 49, 13, 10] + rest) == Outside
  {
    var minus := [45, 49, 13, 10] + rest;
    assert minus[..4] == [45, 49, 13, 10] && minus[0] == 45;
    assert ([36, 45, 49, 13, 10] + rest)[1..] == minus;
    HeaderLimits([48], rest);
    assert DecVal([48]) == 0 && [48] + [13, 10] + rest == [48, 13, 10] + rest;
  }
}
