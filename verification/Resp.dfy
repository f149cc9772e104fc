/** RESP arrays and bulk strings: the reading functions the lexer is proved against, and the
    concrete syntax that says which byte strings they accept. */
module Resp {
  import opened Base

  const MAX_ARRAY_SIZE: nat := 8192
  const PROTO_MAX_BULK_SIZE: nat := 512_000_000

  datatype Tree = Bulk(data: Bytes) | Arr(kids: seq<Tree>)

  /** `Fail` is a NULL result. `Outside` marks nil and empty arrays, nil bulk strings and
      negative bulk sizes, whose nodes this model does not build. */
  datatype Outcome<+T> = Got(value: T, rest: Bytes) | Fail | Outside

  // ---- reading -------------------------------------------------------------------------

  function LeadingDigits(s: Bytes): (k: nat)
    ensures k <= |s| && AllDigits(s[..k])
    ensures k < |s| ==> !IsDigit(s[k])
  {
    if s == [] || !IsDigit(s[0]) then 0 else 1 + LeadingDigits(s[1..])
  }

  /** `unsigned int` to `int`. */
  function ToInt(u: int): int { if u < TWO31 then u else u - TWO32 }

  /** How many elements a header announces: the `int` read as `unsigned int`. */
  function Announced(v: int): (n: nat)
    requires -TWO31 <= v < TWO31
  {
    if v < 0 then v + TWO32 else v
  }

  predicate StartsWith(s: Bytes, p: Bytes) { |p| <= |s| && s[..|p|] == p }

  /** The header after `$` or `*`; -2 is the error value, so a numeral that wraps to it fails. */
  function ReadSize(s: Bytes): (o: Outcome<int>)
    ensures o.Got? ==> |o.rest| < |s| && -TWO31 <= o.value < TWO31
  {
    var k := LeadingDigits(s);
    if k == 0 then
      if StartsWith(s, [MINUS, 49, CR, LF]) then Got(-1, s[4..]) else Fail
    else if k <= MAX_ARRAY_SIZE && StartsWith(s[k..], CRLF) && ToInt(DecVal(s[..k]) % TWO32) != -2 then
      Got(ToInt(DecVal(s[..k]) % TWO32), s[k + 2..])
    else Fail
  }

  function ReadBulk(s: Bytes): (o: Outcome<Tree>)
    ensures o.Got? ==> |o.rest| < |s|
  {
    match ReadSize(s)
    case Got(v, r) =>
      if v < 0 then Outside
      else if v <= PROTO_MAX_BULK_SIZE && v + 2 <= |r| && r[v..v + 2] == CRLF then
        Got(Bulk(r[..v]), r[v + 2..])
      else Fail
    case _ => Fail
  }

  function ReadArray(s: Bytes): (o: Outcome<Tree>)
    ensures o.Got? ==> |o.rest| < |s| && o.value.Arr?
    decreases |s|, 0
  {
    match ReadSize(s)
    case Got(v, r) =>
      if v == -1 || v == 0 then Outside
      else (match ReadElems(r, Announced(v))
            case Got(kids, rest) => Got(Arr(kids), rest)
            case Fail => Fail
            case Outside => Outside)
    case _ => Fail
  }

  /** A tag byte and what follows it. */
  function ReadNode(s: Bytes): (o: Outcome<Tree>)
    ensures o.Got? ==> |o.rest| < |s|
    decreases |s|, 1
  {
    if s == [] then Fail
    else if s[0] == DOLLAR then ReadBulk(s[1..])
    else if s[0] == ASTERISK then ReadArray(s[1..])
    else Fail
  }

  function ReadElems(s: Bytes, n: nat): (o: Outcome<seq<Tree>>)
    ensures o.Got? ==> |o.value| == n && |o.rest| <= |s|
    decreases |s|, 2
  {
    if n == 0 then Got([], s) else
      match ReadNode(s)
      case Got(t, r) =>
        (match ReadElems(r, n - 1)
         case Got(ts, rest) => Got([t] + ts, rest)
         case Fail => Fail
         case Outside => Outside)
      case Fail => Fail
      case Outside => Outside
  }

  // ---- concrete syntax -----------------------------------------------------------------

  /** A tree together with the digits written in each of its headers. */
  datatype Syntax = SBulk(digits: Bytes, data: Bytes) | SArr(digits: Bytes, kids: seq<Syntax>)

  predicate IsHeader(d: Bytes, n: nat) {
    0 < |d| <= MAX_ARRAY_SIZE && AllDigits(d) && DecVal(d) % TWO32 == n
  }

  predicate Accepted(x: Syntax) {
    match x
    case SBulk(d, data) => |data| <= PROTO_MAX_BULK_SIZE && IsHeader(d, |data|)
    case SArr(d, kids) =>
      0 < |kids| < TWO32 - 2 && IsHeader(d, |kids|) && forall i :: 0 <= i < |kids| ==> Accepted(kids[i])
  }

  function Text(x: Syntax): Bytes
    decreases x, 1
  {
    [if x.SBulk? then DOLLAR else ASTERISK] + Body(x)
  }

  /** The text after the tag byte. */
  function Body(x: Syntax): Bytes
    decreases x, 0
  {
    match x
    case SBulk(d, data) => d + CRLF + data + CRLF
    case SArr(d, kids) => d + CRLF + Texts(kids)
  }

  function Texts(xs: seq<Syntax>): Bytes
    decreases xs, 2
  {
    if xs == [] then [] else Text(xs[0]) + Texts(xs[1..])
  }

  function TreeOf(x: Syntax): Tree
    decreases x, 0
  {
    match x
    case SBulk(_, data) => Bulk(data)
    case SArr(_, kids) => Arr(TreesOf(kids))
  }

  function TreesOf(xs: seq<Syntax>): (ts: seq<Tree>)
    ensures |ts| == |xs|
    decreases xs, 1
  {
    if xs == [] then [] else [TreeOf(xs[0])] + TreesOf(xs[1..])
  }

  // ---- the printers' encoding ------------------------------------------------------------

  /** The trees of the round trips: non-empty arrays of `int` size, bulk strings within the
      protocol's limit. */
  predicate InDomain(t: Tree) {
    match t
    case Bulk(data) => |data| <= PROTO_MAX_BULK_SIZE
    case Arr(kids) => 0 < |kids| < TWO31 && forall i :: 0 <= i < |kids| ==> InDomain(kids[i])
  }

  function Encode(t: Tree): (w: Bytes)
    ensures |w| > 0 && w[0] == if t.Bulk? then DOLLAR else ASTERISK
    decreases t, 0
  {
    match t
    case Bulk(data) => [DOLLAR] + Dec(|data|) + CRLF + data + CRLF
    case Arr(kids) => [ASTERISK] + Dec(|kids|) + CRLF + EncodeAll(kids)
  }

  function EncodeAll(ts: seq<Tree>): (w: Bytes)
    decreases ts, 1
  {
    if ts == [] then [] else Encode(ts[0]) + EncodeAll(ts[1..])
  }

  /** The syntax with each header in canonical form. */
  function Canon(t: Tree): Syntax
    decreases t, 0
  {
    match t
    case Bulk(data) => SBulk(Dec(|data|), data)
    case Arr(kids) => SArr(Dec(|kids|), CanonAll(kids))
  }

  function CanonAll(ts: seq<Tree>): (xs: seq<Syntax>)
    ensures |xs| == |ts|
    decreases ts, 1
  {
    if ts == [] then [] else [Canon(ts[0])] + CanonAll(ts[1..])
  }

  function DropZeros(d: Bytes): Bytes { if |d| > 1 && d[0] == ZERO then DropZeros(d[1..]) else d }

  /** The syntax without leading zeros in its headers. */
  function Unpadded(x: Syntax): Syntax
    decreases x, 0
  {
    match x
    case SBulk(d, data) => SBulk(DropZeros(d), data)
    case SArr(d, kids) => SArr(DropZeros(d), UnpaddedAll(kids))
  }

  function UnpaddedAll(xs: seq<Syntax>): seq<Syntax>
    decreases xs, 1
  {
    if xs == [] then [] else [Unpadded(xs[0])] + UnpaddedAll(xs[1..])
  }

  /** No header numeral exceeds 32 bits. */
  predicate NoWrap(x: Syntax)
    decreases x, 0
  {
    AllDigits(x.digits) && DecVal(x.digits) < TWO32 && (x.SArr? ==> NoWrapAll(x.kids))
  }

  predicate NoWrapAll(xs: seq<Syntax>)
    decreases xs, 1
  {
    xs == [] || (NoWrap(xs[0]) && NoWrapAll(xs[1..]))
  }
}
