/** `lexer` and `lex_bulk_str`: proved to read what `ReadArray` and `ReadBulk` say, to link the
    nodes of the tree they return, and to leave behind exactly the records of the arrays they had
    begun when they fail. */
module ArrayLexer {
  import opened Base
  import opened Resp
  import opened Leftovers
  import opened Lexer
  import opened Nodes

  datatype Status = Parsed | Failed | Beyond

  function StatusOf<T>(o: Outcome<T>): Status {
    match o case Got(_, _) => Parsed case Fail => Failed case Outside => Beyond
  }

  /** A tree that was read: the outline of its nodes, the tree, and the nodes. */
  datatype Piece = Piece(x: Shape, t: Tree, nodes: set<Node>)

  /** The nodes are linked, with no neighbours of their own. */
  ghost predicate Standing(p: Piece)
    reads p.nodes
  {
    match p
    case Piece(x, t, nodes) =>
      x.n in nodes && Cell(x, nodes) && Denotes(x, t) && x.n.next == null && x.n.prev == null
  }

  /** The outline of a node that was just read. */
  function ShapeOf(n: Node, kids: seq<Shape>): Shape {
    if n.kind == BULK_STR then Leaf(n) else Branch(n, kids)
  }

  /** What the caller of a reader gets: on success the linked nodes of the tree, otherwise none. */
  ghost predicate Delivered(o: Outcome<Tree>, status: Status, node: Node?, kids: seq<Shape>, nodes: set<Node>)
    reads nodes
  {
    && status == StatusOf(o)
    && (status == Parsed <==> node != null)
    && (node != null ==> Standing(Piece(ShapeOf(node, kids), o.value, nodes)))
  }

  /** Array records that nothing will free, `begun` of them. */
  predicate Lost(lost: set<Node>, begun: nat) { |lost| == begun && forall n :: n in lost ==> n.kind == ARRAY }

  /** What becomes of the heap: on success it gains the nodes of the tree, on failure the lost
      records. */
  predicate Account(status: Status, before: Blocks, after: Blocks, nodes: set<Node>, lost: set<Node>, begun: nat) {
    && (status == Parsed ==> after == before.With(nodes))
    && (status == Failed ==> after == Blocks(before.live, before.records + lost) && Lost(lost, begun))
  }

  /** Whether `n` bytes and a terminator come next. */
  predicate HasBody(r: Bytes, n: nat) { n + 2 <= |r| && r[n..n + 2] == CRLF }

  /** The `n` bytes of a bulk string and the terminator behind them. */
  method LexBody(fd: ByteStream, h: NodeHeap, n: nat) returns (node: Node?)
    requires fd.Valid()
    modifies fd, h
    ensures fd.Valid() && fd.pos >= old(fd.pos)
    ensures node != null <==> HasBody(old(fd.Remaining()), n)
    ensures node != null ==>
      && fresh(node) && node.next == null && node.prev == null
      && node.kind == BULK_STR && node.bytes == old(fd.Remaining())[..n] && node.size == n
      && fd.Remaining() == old(fd.Remaining())[n + 2..]
    ensures h.State() == if node == null then old(h.State()) else old(h.State()).With({node})
  {
    ghost var r := fd.Remaining();
    var buf := [];
    if n == 0 {
      assert r[..0] == [] && (|r| >= 2 ==> r[0..2] == r[..2]);
    } else {
      buf := fd.Recv(n);
      if |buf| < n { return null; }
      assert fd.Remaining() == r[n..] && (|r| >= n + 2 ==> r[n..][..2] == r[n..n + 2]);
    }
    var ok := IsValidTerminator(fd);
    if !ok { return null; }
    node := new Node.Bulk(h, buf, n);
  }

  /** The bulk string after `$`. */
  method LexBulkStr(fd: ByteStream, h: NodeHeap) returns (status: Status, node: Node?)
    requires fd.Valid()
    modifies fd, h
    ensures fd.Valid() && fd.pos >= old(fd.pos)
    ensures status == StatusOf(ReadBulk(old(fd.Remaining())))
    ensures status == Parsed <==> node != null
    ensures node != null ==> fresh(node) && node.next == null && node.prev == null
    ensures node != null ==>
      && Denotes(Leaf(node), ReadBulk(old(fd.Remaining())).value)
      && fd.Remaining() == ReadBulk(old(fd.Remaining())).rest
    ensures h.State() == if node == null then old(h.State()) else old(h.State()).With({node})
  {
    var strSize := GetElSize(fd);
    node := null;
    if strSize == -2 { return Failed, null; }
    if strSize < 0 { return Beyond, null; }
    if strSize > PROTO_MAX_BULK_SIZE { return Failed, null; }
    node := LexBody(fd, h, strSize);
    status := if node == null then Failed else Parsed;
  }

  // ---- linking an element ------------------------------------------------------------------

  /** The array under construction: the outline of its first elements, what they denote, and its
      nodes. */
  datatype Built = Built(xs: seq<Shape>, ts: seq<Tree>, nodes: set<Node>)

  const NOTHING: Built := Built([], [], {})

  /** What stands in the heap for it: the array's own node `holder`, once there is an element, and
      the cursor on the last element. */
  ghost predicate Partial(b: Built, holder: Node?, previous: Node?, size: int)
    reads b.nodes
  {
    match b
    case Built(xs, ts, nodes) =>
      && (xs == [] <==> holder == null) && previous == RootOf(xs, |xs| - 1) && DenotesAll(xs, ts)
      && if holder == null then nodes == {} else
           && holder in nodes && Row(xs, holder, nodes - {holder})
           && holder.kind == ARRAY && holder.content == RootOf(xs, 0) && holder.size == size
           && holder.prev == null && holder.next == null
  }

  function Joined(b: Built, p: Piece, holder: Node): Built {
    Built(b.xs + [p.x], b.ts + [p.t], b.nodes + p.nodes + {holder})
  }

  lemma ExtendSeparate(xs: seq<Shape>, x: Shape)
    requires SeparateAll(xs) && Separate(x) && ObjsAll(xs) !! Objs(x)
    ensures SeparateAll(xs + [x]) && ObjsAll(xs + [x]) == ObjsAll(xs) + Objs(x)
  {
    assert (xs + [x])[..|xs|] == xs;
  }

  lemma ExtendLinks(xs: seq<Shape>, x: Shape, holder: Node?)
    ensures Links(xs + [x], holder, null) ==
      Links(xs, holder, x.n)
      + map[x.n := Link(null, if xs == [] then holder else xs[|xs| - 1].n)] + Inside(x)
  {
    assert (xs + [x])[..|xs|] == xs;
  }

  lemma FirstLinked(x: Shape, holder: Node)
    requires Hold(Inside(x)) && x.n.next == null && x.n.prev == holder
    ensures Hold(Links([x], holder, null))
  {
    ExtendLinks([], x, holder);
    assert [] + [x] == [x];
    assert Hold(Links([], holder, x.n));
    Join3(Links([], holder, x.n), map[x.n := Link(null, holder)], Inside(x));
  }

  lemma FirstRow(x: Shape, holder: Node, nodes: set<Node>)
    requires Cell(x, nodes) && x.n in nodes && x.n.next == null && x.n.prev == holder
    ensures Row([x], holder, nodes)
  {
    FirstLinked(x, holder);
    LinkKeys([x], holder, null);
    assert [x][..0] == [];
  }

  /** Appends the first element: it gets an array to stand in. */
  method LinkFirst(h: NodeHeap, current: Node, arrSize: int, ghost p: Piece) returns (holder: Node)
    requires p.x.n == current && Standing(p)
    modifies h, current
    ensures fresh(holder) && holder.kind == ARRAY && holder.content == current && holder.size == arrSize
    ensures holder.prev == null && holder.next == null && Row([p.x], holder, p.nodes)
    ensures h.State() == old(h.State()).With({holder})
  {
    InsideKeys(p.x);
    holder := new Node.Array(h, current, arrSize);
    current.prev := holder;
    FirstRow(p.x, holder, p.nodes);
  }

  /** Before linking: what must survive does not speak of the two nodes that change. */
  lemma PartsUntouched(xs: seq<Shape>, x: Shape, holder: Node, k: nat)
    requires k + 1 == |xs| && SeparateAll(xs) && Separate(x) && ObjsAll(xs) !! Objs(x)
    requires Hold(Links(xs, holder, null)) && Hold(Inside(x))
    ensures var front := Links(xs[..k], holder, xs[k].n);
      && Hold(front) && xs[k].n !in front && x.n !in front
      && Hold(Inside(xs[k])) && xs[k].n !in Inside(xs[k]) && x.n !in Inside(xs[k])
      && xs[k].n !in Inside(x) && x.n !in Inside(x) && xs[k].n != x.n
      && xs[k].n.prev == if k == 0 then holder else xs[k - 1].n
  {
    LastLinked(xs, holder, null);
    LinksApart(xs, holder, null, k);
    InsideKeys(x);
  }

  lemma LastJoined(xs: seq<Shape>, holder: Node, after: Node, k: nat)
    requires k + 1 == |xs|
    requires Hold(Links(xs[..k], holder, xs[k].n)) && Hold(Inside(xs[k]))
    requires xs[k].n.next == after && xs[k].n.prev == if k == 0 then holder else xs[k - 1].n
    ensures Hold(Links(xs, holder, after))
  {
    HoldOne(xs[k].n);
    Join3(Links(xs[..k], holder, xs[k].n), map[xs[k].n := Link(after, xs[k].n.prev)], Inside(xs[k]));
  }

  /** After linking: the surviving parts and the two changed nodes are the longer chain. */
  lemma PartsJoined(xs: seq<Shape>, x: Shape, holder: Node, k: nat)
    requires k + 1 == |xs|
    requires Hold(Links(xs[..k], holder, xs[k].n)) && Hold(Inside(xs[k])) && Hold(Inside(x))
    requires xs[k].n.next == x.n && xs[k].n.prev == if k == 0 then holder else xs[k - 1].n
    requires x.n.next == null && x.n.prev == xs[k].n
    ensures Hold(Links(xs + [x], holder, null))
  {
    ExtendLinks(xs, x, holder);
    LastJoined(xs, holder, x.n, k);
    HoldOne(x.n);
    Join3(Links(xs, holder, x.n), map[x.n := Link(null, xs[k].n)], Inside(x));
  }

  lemma HoldOne(n: Node)
    ensures Hold(map[n := Link(n.next, n.prev)])
  {
  }

  lemma Join3(a: map<Node, Link>, b: map<Node, Link>, c: map<Node, Link>)
    requires Hold(a) && Hold(b) && Hold(c)
    ensures Hold(a + b + c)
  {
  }

  /** The two assignments, and what they leave alone. */
  method SetLinks(previous: Node, current: Node,
                  ghost a: map<Node, Link>, ghost b: map<Node, Link>, ghost c: map<Node, Link>)
    requires previous != current
    requires previous !in a && current !in a && previous !in b && current !in b
    requires previous !in c && current !in c && Hold(a) && Hold(b) && Hold(c)
    modifies current`prev, previous`next
    ensures Hold(a) && Hold(b) && Hold(c)
    ensures current.prev == previous && previous.next == current
    ensures current.next == old(current.next) && previous.prev == old(previous.prev)
  {
    current.prev := previous;
    previous.next := current;
  }

  lemma LongerRow(xs: seq<Shape>, x: Shape, holder: Node, nodes: set<Node>, more: set<Node>)
    requires SeparateAll(xs) && nodes == ObjsAll(xs) && Separate(x) && more == Objs(x) && nodes !! more
    requires Hold(Links(xs + [x], holder, null))
    ensures Row(xs + [x], holder, nodes + more)
  {
    ExtendSeparate(xs, x);
    LinkKeys(xs + [x], holder, null);
  }

  /** Appends a later element: it and its predecessor are linked both ways. */
  method LinkNext(holder: Node, previous: Node, current: Node, ghost xs: seq<Shape>, ghost nodes: set<Node>,
                  ghost x: Shape, ghost more: set<Node>, ghost all: set<Node>)
    requires xs != [] && Row(xs, holder, nodes) && previous == xs[|xs| - 1].n
    requires x.n == current && x.n in more && Cell(x, more) && current.next == null && nodes !! more
    requires all == nodes + more
    modifies current`prev, previous`next
    ensures Row(xs + [x], holder, all)
  {
    ghost var k := |xs| - 1;
    PartsUntouched(xs, x, holder, k);
    ghost var front, within, inner := Links(xs[..k], holder, xs[k].n), Inside(xs[k]), Inside(x);
    SetLinks(previous, current, front, within, inner);
    PartsJoined(xs, x, holder, k);
    LongerRow(xs, x, holder, nodes, more);
  }

  // ---- the loop ------------------------------------------------------------------------------

  lemma ReadTogether(whole: Bytes, t: Tree, r: Bytes, us: seq<Tree>, s: Bytes)
    requires ReadNode(whole) == Got(t, r) && ReadSoFar(r, us, s)
    ensures ReadSoFar(whole, [t] + us, s)
  {
  }

  lemma ReadStatus(whole: Bytes, n: nat)
    requires n > 0 && ReadNode(whole).Got?
    ensures StatusOf(ReadElems(whole, n)) == StatusOf(ReadElems(ReadNode(whole).rest, n - 1))
  {
  }

  /** One more element, or none: then no longer list can be read either. */
  lemma {:induction false} ReadOneMore(whole: Bytes, ts: seq<Tree>, s: Bytes, o: Outcome<Tree>, n: nat)
    requires ReadSoFar(whole, ts, s) && o == ReadNode(s) && n > |ts|
    ensures o.Got? ==> ReadSoFar(whole, ts + [o.value], o.rest)
    ensures !o.Got? ==> StatusOf(ReadElems(whole, n)) == StatusOf(o)
    decreases |ts|
  {
    if ts == [] {
      if o.Got? {
        assert ReadSoFar(o.rest, [], o.rest);
        ReadTogether(whole, o.value, o.rest, [], o.rest);
        assert ts + [o.value] == [o.value] + [];
      }
    } else {
      ReadApart(whole, ts, s);
      ReadStatus(whole, n);
      var r, us := ReadNode(whole).rest, ts[1..];
      ReadOneMore(r, us, s, o, n - 1);
      if o.Got? {
        ReadTogether(whole, ts[0], r, us + [o.value], o.rest);
        assert ts + [o.value] == [ts[0]] + (us + [o.value]);
      }
    }
  }

  // ---- reading ---------------------------------------------------------------------------------

  lemma LeafStanding(n: Node, t: Tree)
    requires Denotes(Leaf(n), t) && n.next == null && n.prev == null
    ensures ShapeOf(n, []) == Leaf(n) && Standing(Piece(Leaf(n), t, {n}))
  {
  }

  /** One array element: the tag byte, then the bulk string or array after it. */
  method LexElement(fd: ByteStream, h: NodeHeap)
    returns (status: Status, current: Node?, ghost kids: seq<Shape>, ghost nodes: set<Node>, ghost lost: set<Node>)
    requires fd.Valid()
    modifies fd, h
    ensures fd.Valid() && fd.pos >= old(fd.pos) && fresh(nodes) && fresh(lost)
    ensures Delivered(ReadNode(old(fd.Remaining())), status, current, kids, nodes)
    ensures status == Parsed ==> fd.Remaining() == ReadNode(old(fd.Remaining())).rest
    ensures Account(status, old(h.State()), h.State(), nodes, lost, BegunNode(old(fd.Remaining())))
    decreases |fd.data| - fd.pos, 0
  {
    kids, nodes, lost := [], {}, {};
    ghost var s := fd.Remaining();
    var nextChar := fd.Recv(1);
    if |nextChar| < 1 { return Failed, null, kids, nodes, lost; }
    assert s[1..] == fd.Remaining() && s[0] == nextChar[0];
    if nextChar[0] == DOLLAR {
      status, current := LexBulkStr(fd, h);
      if current != null {
        nodes := {current};
        LeafStanding(current, ReadBulk(s[1..]).value);
      }
    } else if nextChar[0] == ASTERISK {
      status, current, kids, nodes, lost := LexArray(fd, h);
    } else {
      status, current := Failed, null;
    }
  }

  lemma {:induction false} PartialTyped(xs: seq<Shape>, ts: seq<Tree>)
    requires DenotesAll(xs, ts)
    ensures TypedAll(xs)
  {
    forall i | 0 <= i < |xs| ensures Typed(xs[i]) { DenotesTyped(xs[i], ts[i]); }
  }

  /** `delete_array(previous, 1)` on the failure path: of the array under construction and
      everything in it, the base nodes and the records of the bulk strings go. */
  method DiscardPartial(h: NodeHeap, previous: Node?, ghost b: Built, ghost holder: Node?, ghost size: int)
    requires Partial(b, holder, previous, size) && h.State().Has(b.nodes)
    modifies h
    ensures h.State() == Blocks(old(h.live) - b.nodes, old(h.records) - BulksIn(b.xs))
  {
    PartialTyped(b.xs, b.ts);
    BulksWithin(b.xs);
    var _ := DeleteArray(h, previous, b.xs, if b.xs == [] then 0 else |b.xs| - 1, holder, b.nodes - {holder});
  }

  /** The first element: an array is made for it. */
  method AppendFirst(h: NodeHeap, current: Node, arrSize: int, ghost p: Piece) returns (holder: Node)
    requires p.x.n == current && Standing(p)
    modifies h, current
    ensures fresh(holder) && Partial(Joined(NOTHING, p, holder), holder, current, arrSize)
    ensures h.State() == old(h.State()).With({holder})
  {
    holder := LinkFirst(h, current, arrSize, p);
    assert {} + p.nodes + {holder} - {holder} == p.nodes;
    assert [] + [p.x] == [p.x] && [] + [p.t] == [p.t];
  }

  lemma DenotesAppend(xs: seq<Shape>, ts: seq<Tree>, x: Shape, t: Tree)
    requires DenotesAll(xs, ts) && Denotes(x, t)
    ensures DenotesAll(xs + [x], ts + [t])
    ensures RootOf(xs + [x], |xs|) == x.n && (xs != [] ==> RootOf(xs + [x], 0) == RootOf(xs, 0))
  {
  }

  /** A later element: it stands behind the last one. */
  method AppendLater(holder: Node, previous: Node, current: Node, arrSize: int, ghost b: Built, ghost p: Piece)
    requires Partial(b, holder, previous, arrSize)
    requires p.x.n == current && Standing(p) && b.nodes !! p.nodes
    modifies current, previous
    ensures Partial(Joined(b, p, holder), holder, current, arrSize)
  {
    DenotesAppend(b.xs, b.ts, p.x, p.t);
    ghost var all := Joined(b, p, holder).nodes - {holder};
    assert all == b.nodes - {holder} + p.nodes;
    LinkNext(holder, previous, current, b.xs, b.nodes - {holder}, p.x, p.nodes, all);
  }

  /** The new element extends the array under construction. */
  method AppendElement(h: NodeHeap, holder: Node?, previous: Node?, current: Node, arrSize: int, ghost b: Built,
                       ghost p: Piece)
    returns (holder': Node)
    requires Partial(b, holder, previous, arrSize)
    requires p.x.n == current && Standing(p) && b.nodes !! p.nodes
    modifies h, current, previous
    ensures Partial(Joined(b, p, holder'), holder', current, arrSize)
    ensures if holder == null then fresh(holder') else holder' == holder && holder in b.nodes
    ensures h.State() == if holder == null then old(h.State()).With({holder'}) else old(h.State())
  {
    if holder == null {
      assert b == NOTHING;
      holder' := AppendFirst(h, current, arrSize, p);
    } else {
      holder' := holder;
      AppendLater(holder, previous, current, arrSize, b, p);
    }
  }

  /** The array records of an array under construction. */
  function Begun(xs: seq<Shape>, holder: Node?): set<Node> {
    ArrayNodesIn(xs) + (if holder == null then {} else {holder})
  }

  lemma BegunOfPartial(b: Built, holder: Node?, previous: Node?, size: int)
    requires Partial(b, holder, previous, size)
    ensures BulksIn(b.xs) <= b.nodes && b.nodes - BulksIn(b.xs) == Begun(b.xs, holder)
    ensures Begun(b.xs, holder) <= b.nodes
    ensures Lost(Begun(b.xs, holder), ArraysIn(b.ts) + (if b.ts == [] then 0 else 1))
  {
    if holder == null {
      assert Begun(b.xs, holder) == {};
    } else {
      NodesSplit(b.xs);
      BegunCounted(b.xs, b.ts, holder);
    }
  }

  lemma BegunCounted(xs: seq<Shape>, ts: seq<Tree>, holder: Node)
    requires SeparateAll(xs) && DenotesAll(xs, ts) && holder !in ArrayNodesIn(xs) && holder.kind == ARRAY
    ensures Lost(Begun(xs, holder), ArraysIn(ts) + 1)
  {
    KindsCounted(xs, ts);
    CountUnion(ArrayNodesIn(xs), {holder});
  }

  lemma CountUnion(a: set<Node>, b: set<Node>)
    requires a !! b
    ensures |a + b| == |a| + |b|
  {
  }

  // ---- how many arrays an outline has ----------------------------------------------------------

  lemma {:induction false} ArrayKinds(xs: seq<Shape>, ts: seq<Tree>)
    requires DenotesAll(xs, ts)
    ensures forall n :: n in ArrayNodesIn(xs) ==> n.kind == ARRAY
  {
    if xs != [] {
      var k := |xs| - 1;
      ArrayKinds(xs[..k], ts[..k]);
      assert Denotes(xs[k], ts[k]);
      if xs[k].Branch? { ArrayKinds(xs[k].kids, ts[k].kids); }
    }
  }

  lemma {:induction false} ArraysCounted(xs: seq<Shape>, ts: seq<Tree>)
    requires SeparateAll(xs) && DenotesAll(xs, ts)
    ensures |ArrayNodesIn(xs)| == ArraysIn(ts)
  {
    if xs != [] {
      var k := |xs| - 1;
      assert Denotes(xs[k], ts[k]);
      ArraysCounted(xs[..k], ts[..k]);
      assert ts == ts[..k] + [ts[k]];
      ArraysAppend(ts[..k], ts[k]);
      if xs[k].Branch? {
        ArraysCounted(xs[k].kids, ts[k].kids);
        NodesSplit(xs[k].kids);
        CountUnion({xs[k].n}, ArrayNodesIn(xs[k].kids));
        NodesSplit(xs[..k]);
        CountUnion(ArrayNodesIn(xs[..k]), ArrayNodes(xs[k]));
      }
    }
  }

  lemma KindsCounted(xs: seq<Shape>, ts: seq<Tree>)
    requires SeparateAll(xs) && DenotesAll(xs, ts)
    ensures Lost(ArrayNodesIn(xs), ArraysIn(ts))
  {
    ArraysCounted(xs, ts);
    ArrayKinds(xs, ts);
  }

  lemma DiscardSets(before: Blocks, mine: set<Node>, bulks: set<Node>, begun: set<Node>, inner: set<Node>)
    requires bulks <= mine && mine - bulks == begun && before.Lacks(mine) && inner !! before.records + mine
    ensures before.live + mine - mine == before.live
    ensures before.records + mine + inner - bulks == before.records + (begun + inner)
  {
  }

  /** A failed element, with `inner` lost inside it: the array under construction is discarded. */
  method Refuse(h: NodeHeap, previous: Node?, ghost b: Built, ghost holder: Node?, ghost size: int,
                ghost before: Blocks, ghost inner: set<Node>)
    requires Partial(b, holder, previous, size) && before.Lacks(b.nodes)
    requires inner !! before.records + b.nodes
    requires h.State() == Blocks(before.live + b.nodes, before.records + b.nodes + inner)
    modifies h
    ensures h.State() == Blocks(before.live, before.records + (Begun(b.xs, holder) + inner))
  {
    BegunOfPartial(b, holder, previous, size);
    DiscardSets(before, b.nodes, BulksIn(b.xs), Begun(b.xs, holder), inner);
    DiscardPartial(h, previous, b, holder, size);
  }

  lemma AcceptSets(before: Blocks, mine: set<Node>, nodes: set<Node>, holder: Node)
    ensures before.With(mine).With(nodes).With({holder}) == before.With(mine + nodes + {holder})
    ensures holder in mine ==> before.With(mine).With(nodes) == before.With(mine + nodes + {holder})
  {
  }

  /** A new element joins the array under construction. */
  method Accept(h: NodeHeap, holder: Node?, previous: Node?, current: Node, arrSize: int, ghost b: Built,
                ghost p: Piece, ghost before: Blocks)
    returns (holder': Node, ghost b': Built)
    requires Partial(b, holder, previous, arrSize) && before.Lacks(b.nodes)
    requires p.x.n == current && Standing(p) && b.nodes !! p.nodes && before.Lacks(p.nodes)
    requires h.State() == before.With(b.nodes).With(p.nodes)
    modifies h, current, previous
    ensures Partial(b', holder', current, arrSize) && b'.ts == b.ts + [p.t]
    ensures h.State() == before.With(b'.nodes) && before.Lacks(b'.nodes)
    ensures forall n :: n in b'.nodes ==> n in b.nodes || n in p.nodes || fresh(n)
  {
    holder' := AppendElement(h, holder, previous, current, arrSize, b, p);
    b' := Joined(b, p, holder');
    AcceptSets(before, b.nodes, p.nodes, holder');
  }

  /** The next element is read beside the array under construction, which it leaves alone. `before`
      is the heap without that array. */
  method LexBeside(fd: ByteStream, h: NodeHeap, ghost b: Built, ghost holder: Node?, ghost previous: Node?,
                   ghost size: int, ghost before: Blocks)
    returns (status: Status, current: Node?, ghost p: Option<Piece>, ghost inner: set<Node>)
    requires fd.Valid() && Partial(b, holder, previous, size)
    requires h.State() == before.With(b.nodes) && before.Lacks(b.nodes)
    modifies fd, h
    ensures fd.Valid() && fd.pos >= old(fd.pos) && Partial(b, holder, previous, size)
    ensures var o := ReadNode(old(fd.Remaining()));
      && status == StatusOf(o) && (status == Parsed <==> current != null)
      && (status == Parsed ==> fd.Remaining() == o.rest && p.Some? && p.value.t == o.value)
    ensures status == Parsed ==>
      var q := p.value;
      && q.x.n == current && Standing(q) && fresh(q.nodes)
      && h.State() == before.With(b.nodes).With(q.nodes) && before.Lacks(q.nodes) && b.nodes !! q.nodes
    ensures status == Failed ==>
      && h.State() == Blocks(before.live + b.nodes, before.records + b.nodes + inner)
      && inner !! before.records + b.nodes && fresh(inner) && Lost(inner, BegunNode(old(fd.Remaining())))
    decreases |fd.data| - fd.pos, 1
  {
    ghost var o := ReadNode(fd.Remaining());
    ghost var kids, nodes;
    status, current, kids, nodes, inner := LexElement(fd, h);
    p := if current == null then None else Some(Piece(ShapeOf(current, kids), o.value, nodes));
  }

  /** One round of the loop: the next element goes into the array under construction, or
      that array is discarded. */
  method LexInto(fd: ByteStream, h: NodeHeap, holder: Node?, previous: Node?, arrSize: int, ghost b: Built,
                 ghost before: Blocks)
    returns (status: Status, holder': Node?, current: Node?, ghost b': Built, ghost inner: set<Node>)
    requires fd.Valid() && Partial(b, holder, previous, arrSize)
    requires h.State() == before.With(b.nodes) && before.Lacks(b.nodes)
    modifies fd, h, previous
    ensures fd.Valid() && fd.pos >= old(fd.pos)
    ensures var o := ReadNode(old(fd.Remaining()));
      status == StatusOf(o) && (status == Parsed ==> fd.Remaining() == o.rest && b'.ts == b.ts + [o.value])
    ensures status == Parsed ==>
      Partial(b', holder', current, arrSize) && h.State() == before.With(b'.nodes) && before.Lacks(b'.nodes)
    ensures status == Parsed ==> forall n :: n in b'.nodes ==> n in b.nodes || fresh(n)
    ensures status == Failed ==>
      && h.State() == Blocks(before.live, before.records + (Begun(b.xs, holder) + inner))
      && fresh(inner) && Lost(inner, BegunNode(old(fd.Remaining())))
    decreases |fd.data| - fd.pos, 2
  {
    ghost var p;
    holder', b' := holder, b;
    status, current, p, inner := LexBeside(fd, h, b, holder, previous, arrSize, before);
    if current == null {
      if status == Failed { Refuse(h, previous, b, holder, arrSize, before, inner); }
    } else {
      holder', b' := Accept(h, holder, previous, current, arrSize, b, p.value, before);
    }
  }

  /** The same, with what was read before: `whole` is what the elements started from. */
  method LexRound(fd: ByteStream, h: NodeHeap, holder: Node?, previous: Node?, arrSize: int, ghost b: Built,
                  ghost whole: Bytes, ghost count: nat, ghost before: Blocks)
    returns (status: Status, holder': Node?, current: Node?, ghost b': Built, ghost lost: set<Node>)
    requires fd.Valid() && Partial(b, holder, previous, arrSize)
    requires |b.ts| < count && ReadSoFar(whole, b.ts, fd.Remaining())
    requires h.State() == before.With(b.nodes) && before.Lacks(b.nodes)
    modifies fd, h, previous
    ensures fd.Valid() && fd.pos >= old(fd.pos)
    ensures status != Parsed ==> status == StatusOf(ReadElems(whole, count))
    ensures status == Parsed ==>
      |b'.ts| == |b.ts| + 1 && ReadSoFar(whole, b'.ts, fd.Remaining()) && Partial(b', holder', current, arrSize)
    ensures status == Parsed ==> h.State() == before.With(b'.nodes) && before.Lacks(b'.nodes)
    ensures status == Parsed ==> forall n :: n in b'.nodes ==> n in b.nodes || fresh(n)
    ensures status == Failed ==>
      && h.State() == Blocks(before.live, before.records + lost) && Lost(lost, BegunList(whole, count))
      && forall n :: n in lost ==> n in b.nodes || fresh(n)
    decreases |fd.data| - fd.pos, 3
  {
    ghost var s, begun := fd.Remaining(), Begun(b.xs, holder);
    ghost var inner;
    ReadOneMore(whole, b.ts, s, ReadNode(s), count);
    BegunOfPartial(b, holder, previous, arrSize);
    if !ReadNode(s).Got? { BegunAtFailure(whole, b.ts, s, count); }
    status, holder', current, b', inner := LexInto(fd, h, holder, previous, arrSize, b, before);
    lost := begun + inner;
    if status == Failed { CountUnion(begun, inner); }
  }

  /** The elements of an array of `count` elements: the loop of the lexer. */
  method LexElems(fd: ByteStream, h: NodeHeap, arrSize: int, count: nat)
    returns (status: Status, root: Node?, previous: Node?, ghost b: Built, ghost lost: set<Node>)
    requires fd.Valid() && count > 0
    modifies fd, h
    ensures fd.Valid() && fd.pos >= old(fd.pos) && fresh(b.nodes) && fresh(lost)
    ensures var o := ReadElems(old(fd.Remaining()), count);
      && status == StatusOf(o)
      && (status == Parsed ==> fd.Remaining() == o.rest && b.ts == o.value && Partial(b, root, previous, arrSize))
    ensures Account(status, old(h.State()), h.State(), b.nodes, lost, BegunList(old(fd.Remaining()), count))
    decreases |fd.data| - fd.pos, 4
  {
    b, root, previous, lost := NOTHING, null, null, {};
    ghost var whole, before := fd.Remaining(), h.State();
    var inserted := 0;
    while inserted < count
      invariant inserted == |b.ts| <= count
      invariant fd.Valid() && fd.pos >= old(fd.pos) && ReadSoFar(whole, b.ts, fd.Remaining())
      invariant Partial(b, root, previous, arrSize)
      invariant fresh(b.nodes) && h.State() == before.With(b.nodes) && before.Lacks(b.nodes)
    {
      ghost var b0 := b;
      status, root, previous, b, lost := LexRound(fd, h, root, previous, arrSize, b0, whole, count, before);
      if status != Parsed {
        assert status == Failed ==> forall n :: n in lost ==> n in b0.nodes || fresh(n);
        b, lost := NOTHING, if status == Failed then lost else {};
        return;
      }
      assert forall n :: n in b.nodes ==> n in b0.nodes || fresh(n);
      inserted := inserted + 1;
    }
    status, lost := Parsed, {};
  }

  /** How an array is read once its header is known. */
  lemma HeaderThenElems(s: Bytes)
    ensures match ReadSize(s)
      case Got(v, r) =>
        if v == -1 || v == 0 then ReadArray(s) == Outside
        else
          var n := Announced(v);
          var o := ReadElems(r, n);
          && StatusOf(ReadArray(s)) == StatusOf(o) && v == ToInt(n)
          && (o.Got? ==> ReadArray(s) == Got(Arr(o.value), o.rest))
      case _ => ReadArray(s) == Fail
  {
  }

  lemma DeliveredArray(o: Outcome<Tree>, root: Node, previous: Node?, size: int, b: Built)
    requires Partial(b, root, previous, size)
    requires o.Got? && o.value == Arr(b.ts) && size == ToInt(|b.ts|)
    ensures Delivered(o, Parsed, root, b.xs, b.nodes)
  {
    HolderCell(b.xs, root, b.nodes - {root});
    assert b.nodes - {root} + {root} == b.nodes;
  }

  /** The array after `*`: on success the heap gains its linked nodes, on failure the records of
      the arrays begun. */
  method LexArray(fd: ByteStream, h: NodeHeap)
    returns (status: Status, root: Node?, ghost kids: seq<Shape>, ghost nodes: set<Node>, ghost lost: set<Node>)
    requires fd.Valid()
    modifies fd, h
    ensures fd.Valid() && fd.pos >= old(fd.pos) && fresh(nodes) && fresh(lost)
    ensures Delivered(ReadArray(old(fd.Remaining())), status, root, kids, nodes)
    ensures status == Parsed ==> fd.Remaining() == ReadArray(old(fd.Remaining())).rest
    ensures Account(status, old(h.State()), h.State(), nodes, lost, BegunArray(old(fd.Remaining())))
    decreases |fd.data| - fd.pos, 5
  {
    kids, nodes, root, lost := [], {}, null, {};
    ghost var s := fd.Remaining();
    HeaderThenElems(s);
    var arrSize := GetElSize(fd);
    if arrSize == -2 { return Failed, null, kids, nodes, lost; }
    if arrSize == -1 || arrSize == 0 { return Beyond, null, kids, nodes, lost; }
    var count := Announced(arrSize);
    var previous;
    ghost var b;
    status, root, previous, b, lost := LexElems(fd, h, arrSize, count);
    if status == Parsed {
      kids, nodes := b.xs, b.nodes;
      DeliveredArray(ReadArray(s), root, previous, arrSize, b);
    } else {
      root := null;
    }
  }

  lemma StandingRow(p: Piece)
    requires Standing(p)
    ensures Row([p.x], null, p.nodes) && TypedAll([p.x])
  {
    AloneInRow(p.x, p.nodes);
    DenotesTyped(p.x, p.t);
  }

  lemma PartsOfOne(xs: seq<Shape>, x: Shape, nodes: set<Node>)
    requires xs == [x] && Separate(x) && nodes == Objs(x)
    ensures BulksIn(xs) <= nodes && nodes - BulksIn(xs) == ArrayNodesIn(xs)
  {
    assert xs[..0] == [];
    NodesSplit(xs);
  }

  lemma CountOfOne(xs: seq<Shape>, x: Shape, ts: seq<Tree>)
    requires xs == [x] && SeparateAll(xs) && DenotesAll(xs, ts)
    ensures Lost(ArrayNodesIn(xs), Arrays(ts[0]))
  {
    KindsCounted(xs, ts);
    assert ts[1..] == [] && ArraysIn(ts[1..]) == 0;
    assert ArraysIn(ts) == Arrays(ts[0]);
  }

  lemma Remaining(before: Blocks, nodes: set<Node>, bulks: set<Node>)
    requires bulks <= nodes && before.Lacks(nodes)
    ensures before.live + nodes - nodes == before.live
    ensures before.records + nodes - bulks == before.records + (nodes - bulks)
  {
  }

  /** `delete_array(array, 1)` on a message that was read. */
  method DeleteMessage(h: NodeHeap, root: Node, ghost p: Piece, ghost before: Blocks) returns (ghost lost: set<Node>)
    requires p.x.n == root && Standing(p) && h.State() == before.With(p.nodes) && before.Lacks(p.nodes)
    modifies h
    ensures h.State() == Blocks(before.live, before.records + lost)
    ensures lost <= p.nodes && Lost(lost, Arrays(p.t))
  {
    ghost var bulks := BulksIn([p.x]);
    StandingRow(p);
    PartsOfOne([p.x], p.x, p.nodes);
    DenotesAppend([], [], p.x, p.t);
    assert [] + [p.x] == [p.x] && [] + [p.t] == [p.t];
    CountOfOne([p.x], p.x, [p.t]);
    Remaining(before, p.nodes, bulks);
    lost := p.nodes - bulks;
    var _ := DeleteArray(h, root, [p.x], 0, null, p.nodes);
  }

  /** A message is read, and after its command deleted from its root. What stays allocated of all
      that was built for it are `lost` array records, one for each array whose first element was
      read; so nothing stays exactly when the first bulk string of the message is not read. */
  method ReadMessage(fd: ByteStream, h: NodeHeap) returns (status: Status, ghost lost: set<Node>)
    requires fd.Valid()
    modifies fd, h
    ensures fd.Valid() && status == StatusOf(ReadArray(old(fd.Remaining())))
    ensures status == Parsed ==> fd.Remaining() == ReadArray(old(fd.Remaining())).rest
    ensures status != Beyond ==>
      && h.State() == Blocks(old(h.live), old(h.records) + lost)
      && fresh(lost) && Lost(lost, BegunArray(old(fd.Remaining())))
    ensures status != Beyond ==> (h.State() == old(h.State()) <==> !FirstBulkRead(old(fd.Remaining())))
  {
    ghost var before, s := h.State(), fd.Remaining();
    var root;
    ghost var kids, nodes;
    status, root, kids, nodes, lost := LexArray(fd, h);
    if root != null {
      ArrayBegun(s);
      lost := DeleteMessage(h, root, Piece(ShapeOf(root, kids), ReadArray(s).value, nodes), before);
    }
    BegunIffBulkRead(s);
    NoneLost(before.records, lost);
  }

  lemma NoneLost(records: set<Node>, lost: set<Node>)
    ensures lost !! records ==> (records + lost == records <==> |lost| == 0)
  {
    if records + lost == records && lost !! records { assert lost == {}; }
  }
}
