/** The linked nodes of a parsed message, the memory they live in, and their release. A `Node`
    names a bulk-string or array record and its base node, which are allocated together and freed
    apart; only the sibling links change after creation. */
module Nodes {
  import opened Base
  import opened Resp

  datatype Kind = BULK_STR | ARRAY

  class Node {
    const kind: Kind
    const bytes: Bytes     // content of a bulk string
    const content: Node?   // first element of an array
    const size: int
    var next: Node?
    var prev: Node?

    constructor Bulk(h: NodeHeap, bytes: Bytes, size: int)
      modifies h
      ensures kind == BULK_STR && this.bytes == bytes && content == null && this.size == size
      ensures next == null && prev == null
      ensures h.live == old(h.live) + {this} && h.records == old(h.records) + {this}
    {
      this.kind, this.bytes, this.content, this.size := BULK_STR, bytes, null, size;
      next, prev := null, null;
      new;
      h.live, h.records := h.live + {this}, h.records + {this};
    }

    constructor Array(h: NodeHeap, content: Node, size: int)
      modifies h
      ensures kind == ARRAY && this.content == content && this.size == size
      ensures next == null && prev == null
      ensures h.live == old(h.live) + {this} && h.records == old(h.records) + {this}
    {
      this.kind, this.bytes, this.content, this.size := ARRAY, [], content, size;
      next, prev := null, null;
      new;
      h.live, h.records := h.live + {this}, h.records + {this};
    }
  }

  /** What is allocated: the base nodes, and the records with the content of bulk strings. */
  datatype Blocks = Blocks(live: set<Node>, records: set<Node>) {
    function With(nodes: set<Node>): Blocks { Blocks(live + nodes, records + nodes) }

    predicate Has(nodes: set<Node>) { nodes <= live && nodes <= records }

    predicate Lacks(nodes: set<Node>) { nodes !! live && nodes !! records }
  }

  /** The allocator: both parts of every node enter it when the node is built, and only a part
      that is allocated can be freed. */
  class NodeHeap {
    var live: set<Node>
    var records: set<Node>

    ghost function State(): Blocks
      reads this
    {
      Blocks(live, records)
    }

    constructor ()
      ensures State() == Blocks({}, {})
    {
      live, records := {}, {};
    }

    method FreeBase(n: Node)
      requires n in live
      modifies `live
      ensures live == old(live) - {n}
    {
      live := live - {n};
    }

    method FreeRecord(n: Node)
      requires n in records
      modifies `records
      ensures records == old(records) - {n}
    {
      records := records - {n};
    }
  }

  /** Which nodes stand where: the ghost outline of a parsed tree. */
  datatype Shape = Leaf(n: Node) | Branch(n: Node, kids: seq<Shape>)

  function Objs(x: Shape): set<Node>
    decreases x, 0
  {
    match x case Leaf(n) => {n} case Branch(n, kids) => {n} + ObjsAll(kids)
  }

  function ObjsAll(xs: seq<Shape>): set<Node>
    decreases xs, 1
  {
    if xs == [] then {} else
      var x := xs[|xs| - 1];
      ObjsAll(xs[..|xs| - 1]) + {x.n} + (if x.Branch? then ObjsAll(x.kids) else {})
  }

  /** The bulk strings of an outline, and its arrays. */
  function Bulks(x: Shape): set<Node>
    decreases x, 0
  {
    match x case Leaf(n) => {n} case Branch(_, kids) => BulksIn(kids)
  }

  function BulksIn(xs: seq<Shape>): set<Node>
    decreases xs, 1
  {
    if xs == [] then {} else
      var x := xs[|xs| - 1];
      BulksIn(xs[..|xs| - 1]) + (match x case Leaf(n) => {n} case Branch(_, kids) => BulksIn(kids))
  }

  function ArrayNodes(x: Shape): set<Node>
    decreases x, 0
  {
    match x case Leaf(_) => {} case Branch(n, kids) => {n} + ArrayNodesIn(kids)
  }

  function ArrayNodesIn(xs: seq<Shape>): set<Node>
    decreases xs, 1
  {
    if xs == [] then {} else
      var x := xs[|xs| - 1];
      ArrayNodesIn(xs[..|xs| - 1]) + (match x case Leaf(_) => {} case Branch(n, kids) => {n} + ArrayNodesIn(kids))
  }

  /** No node stands in two positions. */
  predicate Separate(x: Shape)
    decreases x, 0
  {
    x.Branch? ==> x.n !in ObjsAll(x.kids) && SeparateAll(x.kids)
  }

  predicate SeparateAll(xs: seq<Shape>)
    decreases xs, 1
  {
    xs != [] ==>
      var x := xs[|xs| - 1];
      && SeparateAll(xs[..|xs| - 1]) && ObjsAll(xs[..|xs| - 1]) !! Objs(x)
      && (x.Branch? ==> x.n !in ObjsAll(x.kids) && SeparateAll(x.kids))
  }

  /** The nodes carry the data of tree `t`. */
  predicate Denotes(x: Shape, t: Tree) {
    match t
    case Bulk(data) => x.Leaf? && x.n.kind == BULK_STR && x.n.bytes == data && x.n.size == |data|
    case Arr(kids) =>
      x.Branch? && kids != [] && x.n.kind == ARRAY && x.n.size == ToInt(|kids|)
      && |x.kids| == |kids| && x.n.content == x.kids[0].n
      && forall i :: 0 <= i < |kids| ==> Denotes(x.kids[i], kids[i])
  }

  predicate DenotesAll(xs: seq<Shape>, ts: seq<Tree>) {
    |xs| == |ts| && forall i :: 0 <= i < |ts| ==> Denotes(xs[i], ts[i])
  }

  /** The kinds and first elements are those of the outline. */
  predicate Typed(x: Shape) {
    match x
    case Leaf(n) => n.kind == BULK_STR
    case Branch(n, kids) => n.kind == ARRAY && kids != [] && n.content == kids[0].n && TypedAll(kids)
  }

  predicate TypedAll(xs: seq<Shape>) { forall i :: 0 <= i < |xs| ==> Typed(xs[i]) }

  lemma {:induction false} DenotesTyped(x: Shape, t: Tree)
    requires Denotes(x, t)
    ensures Typed(x)
  {
    if t.Arr? {
      forall i | 0 <= i < |x.kids| ensures Typed(x.kids[i]) { DenotesTyped(x.kids[i], t.kids[i]); }
    }
  }

  function RootOf(xs: seq<Shape>, i: int): Node? { if 0 <= i < |xs| then xs[i].n else null }

  // ---- links -----------------------------------------------------------------------------

  datatype Link = Link(next: Node?, prev: Node?)

  /** The sibling links of `xs` and of everything inside: `parent` stands before the first
      element and `after` behind the last, and each array's elements stand behind its node. */
  function Links(xs: seq<Shape>, parent: Node?, after: Node?): map<Node, Link> {
    if xs == [] then map[] else
      var k := |xs| - 1;
      Links(xs[..k], parent, xs[k].n)
      + map[xs[k].n := Link(after, if k == 0 then parent else xs[k - 1].n)]
      + (if xs[k].Branch? then Links(xs[k].kids, xs[k].n, null) else map[])
  }

  function Inside(x: Shape): map<Node, Link> {
    if x.Branch? then Links(x.kids, x.n, null) else map[]
  }

  ghost predicate Hold(e: map<Node, Link>)
    reads e.Keys
  {
    forall n :: n in e ==> n.next == e[n].next && n.prev == e[n].prev
  }

  lemma {:induction false} LinkKeys(xs: seq<Shape>, parent: Node?, after: Node?)
    ensures Links(xs, parent, after).Keys == ObjsAll(xs)
  {
    if xs != [] {
      var k := |xs| - 1;
      LinkKeys(xs[..k], parent, xs[k].n);
      if xs[k].Branch? { LinkKeys(xs[k].kids, xs[k].n, null); }
    }
  }

  /** The three parts of the last element's links: those before it, its own, those inside. */
  lemma LinksApart(xs: seq<Shape>, parent: Node?, after: Node?, k: nat)
    requires SeparateAll(xs) && k + 1 == |xs|
    ensures Links(xs[..k], parent, xs[k].n).Keys == ObjsAll(xs[..k]) && Inside(xs[k]).Keys <= ObjsAll(xs)
    ensures xs[k].n !in Links(xs[..k], parent, xs[k].n) && xs[k].n !in Inside(xs[k])
    ensures Links(xs[..k], parent, xs[k].n).Keys !! Inside(xs[k]).Keys
  {
    LinkKeys(xs[..k], parent, xs[k].n);
    if xs[k].Branch? { LinkKeys(xs[k].kids, xs[k].n, null); }
  }

  /** What the links say about the last element, and about the elements before it. */
  lemma LastLinked(xs: seq<Shape>, parent: Node?, after: Node?)
    requires xs != [] && SeparateAll(xs) && Hold(Links(xs, parent, after))
    ensures var k := |xs| - 1;
      && xs[k].n.next == after && xs[k].n.prev == (if k == 0 then parent else xs[k - 1].n)
      && Hold(Inside(xs[k])) && Hold(Links(xs[..k], parent, xs[k].n))
  {
    var k := |xs| - 1;
    LinksApart(xs, parent, after, k);
    var e := Links(xs, parent, after);
    assert e[xs[k].n] == Link(after, if k == 0 then parent else xs[k - 1].n);
    assert forall n :: n in Inside(xs[k]) ==> n in e && e[n] == Inside(xs[k])[n];
    var front := Links(xs[..k], parent, xs[k].n);
    assert forall n :: n in front ==> n in e && e[n] == front[n];
  }

  lemma {:induction false} LinkedAt(xs: seq<Shape>, parent: Node?, after: Node?, i: nat)
    requires i < |xs| && SeparateAll(xs) && Hold(Links(xs, parent, after))
    ensures xs[i].n.next == if i + 1 < |xs| then xs[i + 1].n else after
    ensures xs[i].n.prev == if i == 0 then parent else xs[i - 1].n
    ensures Separate(xs[i]) && Hold(Inside(xs[i]))
  {
    var k := |xs| - 1;
    LastLinked(xs, parent, after);
    if i < k { LinkedAt(xs[..k], parent, xs[k].n, i); }
  }

  // ---- release -----------------------------------------------------------------------------

  /** The order of the frees: elements first, then their array's node. */
  function Released(x: Shape): seq<Node> {
    match x case Leaf(n) => [n] case Branch(n, kids) => ReleasedAll(kids) + [n]
  }

  function ReleasedAll(xs: seq<Shape>): seq<Node> {
    if xs == [] then [] else
      var x := xs[|xs| - 1];
      ReleasedAll(xs[..|xs| - 1])
      + (match x case Leaf(n) => [n] case Branch(n, kids) => ReleasedAll(kids) + [n])
  }

  lemma ConcatDistinct(a: seq<Node>, b: seq<Node>)
    requires Distinct(a) && Distinct(b) && Elems(a) !! Elems(b)
    ensures Distinct(a + b) && Elems(a + b) == Elems(a) + Elems(b)
  {
    var c := a + b;
    forall i, j | 0 <= i < j < |c| ensures c[i] != c[j] {
      if i < |a| <= j { assert c[i] in Elems(a) && c[j] in Elems(b); }
    }
    forall o ensures o in Elems(c) <==> o in Elems(a) + Elems(b) { }
  }

  /** The release visits exactly the nodes of the outline, each once. */
  lemma {:induction false} ReleasedOnce(xs: seq<Shape>)
    requires SeparateAll(xs)
    ensures Distinct(ReleasedAll(xs)) && Elems(ReleasedAll(xs)) == ObjsAll(xs)
  {
    if xs != [] {
      var k := |xs| - 1;
      ReleasedOnce(xs[..k]);
      match xs[k] {
        case Leaf(n) =>
          ConcatDistinct(ReleasedAll(xs[..k]), [n]);
        case Branch(n, kids) =>
          ReleasedOnce(kids);
          ConcatDistinct(ReleasedAll(kids), [n]);
          ConcatDistinct(ReleasedAll(xs[..k]), ReleasedAll(kids) + [n]);
      }
    }
  }

  // ---- rows and cells: linked nodes with the set they live in ----------------------------------

  /** Siblings behind `parent`, linked and apart, that together with their insides are `nodes`. */
  ghost predicate Row(xs: seq<Shape>, parent: Node?, nodes: set<Node>)
    reads nodes
  {
    && nodes == ObjsAll(xs) && Links(xs, parent, null).Keys <= nodes
    && SeparateAll(xs) && Hold(Links(xs, parent, null))
  }

  /** One node with its inside. */
  ghost predicate Cell(x: Shape, nodes: set<Node>)
    reads nodes
  {
    && nodes == Objs(x) && Inside(x).Keys <= nodes
    && Separate(x) && Hold(Inside(x))
  }

  lemma CellOfRow(xs: seq<Shape>, parent: Node?, nodes: set<Node>, i: nat)
    requires Row(xs, parent, nodes) && i < |xs|
    ensures Cell(xs[i], Objs(xs[i])) && Objs(xs[i]) <= nodes && xs[i].n in nodes
    ensures xs[i].n.next == RootOf(xs, i + 1)
    ensures xs[i].n.prev == if i == 0 then parent else xs[i - 1].n
  {
    LinkedAt(xs, parent, null, i);
    SeparateAt(xs, i);
    InsideKeys(xs[i]);
  }

  lemma RowOfCell(x: Shape, nodes: set<Node>)
    requires Cell(x, nodes) && x.Branch?
    ensures x.n in nodes && Row(x.kids, x.n, nodes - {x.n})
  {
    LinkKeys(x.kids, x.n, null);
  }

  lemma InsideKeys(x: Shape)
    requires Separate(x)
    ensures Inside(x).Keys <= Objs(x) - {x.n}
  {
    if x.Branch? { LinkKeys(x.kids, x.n, null); }
  }

  /** The nodes of the elements from `i` on are none of those before. */
  lemma {:induction false} SeparateAt(xs: seq<Shape>, i: nat)
    requires i < |xs| && SeparateAll(xs)
    ensures ObjsAll(xs[..i]) !! Objs(xs[i]) && Objs(xs[i]) <= ObjsAll(xs) && Separate(xs[i])
    ensures ObjsAll(xs[..i + 1]) == ObjsAll(xs[..i]) + Objs(xs[i])
  {
    var k := |xs| - 1;
    assert xs[..i + 1][..i] == xs[..i] && xs[..i + 1][i] == xs[i];
    if i < k {
      SeparateAt(xs[..k], i);
      assert xs[..k][..i] == xs[..i] && xs[..k][..i + 1] == xs[..i + 1];
    } else {
      assert xs[..i + 1] == xs;
    }
  }

  /** Every node is a bulk string or an array, and not both. */
  lemma {:induction false} NodesSplit(xs: seq<Shape>)
    requires SeparateAll(xs)
    ensures ObjsAll(xs) == BulksIn(xs) + ArrayNodesIn(xs) && BulksIn(xs) !! ArrayNodesIn(xs)
  {
    if xs != [] {
      var x := xs[|xs| - 1];
      NodesSplit(xs[..|xs| - 1]);
      if x.Branch? { NodesSplit(x.kids); }
    }
  }

  /** Follows `prev` from a sibling back to the start: the array that holds the siblings, or
      the first of them when they stand in no array. */
  method Rewind(el: Node, ghost xs: seq<Shape>, ghost at: nat, ghost parent: Node?, ghost nodes: set<Node>)
    returns (start: Node)
    requires at < |xs| && el == xs[at].n && Row(xs, parent, nodes)
    requires parent != null ==> parent.prev == null
    ensures start == if parent != null then parent else xs[0].n
  {
    start := el;
    ghost var i: int := at;
    CellOfRow(xs, parent, nodes, at);
    while start.prev != null
      invariant -1 <= i <= at && start == if i < 0 then parent else xs[i].n
      invariant i >= 0 ==> start.prev == if i == 0 then parent else xs[i - 1].n
      decreases i
    {
      start := start.prev;
      i := i - 1;
      if i >= 0 { CellOfRow(xs, parent, nodes, i); }
    }
  }

  lemma ReleasedStep(xs: seq<Shape>, i: nat)
    requires i < |xs|
    ensures ReleasedAll(xs[..i + 1]) == ReleasedAll(xs[..i]) + Released(xs[i])
  {
    assert xs[..i + 1][..i] == xs[..i] && xs[..i + 1][i] == xs[i];
  }

  /** One sibling: an array's elements go before its own base node, and its record stays. */
  method ReleaseNode(h: NodeHeap, current: Node, ghost x: Shape, ghost nodes: set<Node>) returns (freed: seq<Node>)
    requires current == x.n && Cell(x, nodes) && Typed(x) && nodes <= h.live && Bulks(x) <= h.records
    modifies h
    ensures freed == Released(x) && h.live == old(h.live) - nodes && h.records == old(h.records) - Bulks(x)
    decreases x, 0
  {
    match current.kind {
      case ARRAY =>
        RowOfCell(x, nodes);
        var inner := ReleaseFrom(h, current.content, x.kids, current, nodes - {current});
        h.FreeBase(current);
        freed := inner + [current];
      case BULK_STR =>
        h.FreeBase(current);
        h.FreeRecord(current);
        freed := [current];
    }
  }

  lemma ReleasedSets(all: set<Node>, xs: seq<Shape>, i: nat)
    requires i < |xs| && SeparateAll(xs) && ObjsAll(xs) <= all
    ensures Objs(xs[i]) <= all - ObjsAll(xs[..i])
    ensures all - ObjsAll(xs[..i]) - Objs(xs[i]) == all - ObjsAll(xs[..i + 1])
  {
    SeparateAt(xs, i);
  }

  lemma {:induction false} BulksWithin(xs: seq<Shape>)
    ensures BulksIn(xs) <= ObjsAll(xs)
  {
    if xs != [] {
      var x := xs[|xs| - 1];
      BulksWithin(xs[..|xs| - 1]);
      if x.Branch? { BulksWithin(x.kids); }
    }
  }

  /** The same for the records: those of the bulk strings. */
  lemma ReleasedBulks(all: set<Node>, xs: seq<Shape>, i: nat)
    requires i < |xs| && SeparateAll(xs) && BulksIn(xs) <= all
    ensures Bulks(xs[i]) <= all - BulksIn(xs[..i])
    ensures all - BulksIn(xs[..i]) - Bulks(xs[i]) == all - BulksIn(xs[..i + 1])
  {
    SeparateAt(xs, i);
    BulksWithin(xs[..i]);
    BulksOfOne(xs[i]);
    BulksAt(xs, i);
  }

  lemma BulksOfOne(x: Shape)
    ensures Bulks(x) <= Objs(x)
  {
    if x.Branch? { BulksWithin(x.kids); }
  }

  lemma {:induction false} BulksAt(xs: seq<Shape>, i: nat)
    requires i < |xs|
    ensures BulksIn(xs[..i + 1]) == BulksIn(xs[..i]) + Bulks(xs[i]) && Bulks(xs[i]) <= BulksIn(xs)
  {
    var k := |xs| - 1;
    assert xs[..i + 1][..i] == xs[..i] && xs[..i + 1][i] == xs[i];
    if i < k {
      BulksAt(xs[..k], i);
    } else {
      assert xs[..i + 1] == xs;
    }
  }

  /** One round of the loop: the node goes, and the cursor moves on. `all` and `recs` are what was
      allocated when the loop began. */
  method ReleaseNext(h: NodeHeap, current: Node, ghost xs: seq<Shape>, ghost parent: Node?, ghost nodes: set<Node>,
                     ghost i: nat, ghost all: set<Node>, ghost recs: set<Node>)
    returns (freed: seq<Node>, next: Node?)
    requires i < |xs| && current == xs[i].n && Row(xs, parent, nodes) && TypedAll(xs)
    requires nodes <= all && h.live == all - ObjsAll(xs[..i])
    requires BulksIn(xs) <= recs && h.records == recs - BulksIn(xs[..i])
    modifies h
    ensures ReleasedAll(xs[..i]) + freed == ReleasedAll(xs[..i + 1])
    ensures next == RootOf(xs, i + 1) && h.live == all - ObjsAll(xs[..i + 1])
    ensures h.records == recs - BulksIn(xs[..i + 1])
    decreases xs, 0
  {
    CellOfRow(xs, parent, nodes, i);
    ReleasedSets(all, xs, i);
    ReleasedBulks(recs, xs, i);
    ReleasedStep(xs, i);
    next := current.next;
    freed := ReleaseNode(h, current, xs[i], Objs(xs[i]));
  }

  /** Releases the siblings from `el` on and, inside out, everything in their arrays. Each part
      must be allocated when it goes, so none goes twice. */
  method ReleaseFrom(h: NodeHeap, el: Node, ghost xs: seq<Shape>, ghost parent: Node?, ghost nodes: set<Node>)
    returns (freed: seq<Node>)
    requires xs != [] && el == xs[0].n && Row(xs, parent, nodes) && TypedAll(xs)
    requires nodes <= h.live && BulksIn(xs) <= h.records
    modifies h
    ensures freed == ReleasedAll(xs) && h.live == old(h.live) - nodes && h.records == old(h.records) - BulksIn(xs)
    decreases xs, 1
  {
    freed := [];
    var current: Node? := el;
    ghost var i, all, recs := 0, h.live, h.records;
    while current != null
      invariant 0 <= i <= |xs| && current == RootOf(xs, i)
      invariant freed == ReleasedAll(xs[..i])
      invariant h.live == all - ObjsAll(xs[..i]) && h.records == recs - BulksIn(xs[..i])
      invariant Row(xs, parent, nodes)
      decreases |xs| - i
    {
      var more;
      more, current := ReleaseNext(h, current, xs, parent, nodes, i, all, recs);
      freed := freed + more;
      i := i + 1;
    }
    assert xs[..i] == xs;
  }

  /** What a release that first rewinds covers. */
  function Whole(xs: seq<Shape>, parent: Node?): seq<Shape> {
    if parent == null then xs else [Branch(parent, xs)]
  }

  /** A cell that stands alone is a row of one. */
  lemma AloneInRow(x: Shape, nodes: set<Node>)
    requires Cell(x, nodes) && x.n in nodes && x.n.next == null && x.n.prev == null
    ensures Row([x], null, nodes)
  {
    var w := [x];
    assert w[..0] == [] && Links(w[..0], null, x.n) == map[];
    assert Links(w, null, null) == map[x.n := Link(null, null)] + Inside(x);
    InsideKeys(x);
  }

  /** The array that holds a row, as a cell. */
  lemma HolderCell(xs: seq<Shape>, parent: Node, nodes: set<Node>)
    requires Row(xs, parent, nodes) && parent !in nodes
    ensures Cell(Branch(parent, xs), nodes + {parent})
  {
  }

  /** `delete_array(el, 1)`: rewinds, and releases everything from there. Whatever sibling it is
      called on, the base nodes of the array that holds the siblings and of everything in it go
      once, and so do the records of the bulk strings; the records of the arrays stay. */
  method DeleteArray(h: NodeHeap, el: Node?, ghost xs: seq<Shape>, ghost at: nat, ghost parent: Node?,
                     ghost nodes: set<Node>)
    returns (freed: seq<Node>)
    requires el != null ==>
      && at < |xs| && el == xs[at].n && Row(xs, parent, nodes) && TypedAll(xs)
      && nodes <= h.live && BulksIn(xs) <= h.records
      && (parent != null ==>
            && parent.kind == ARRAY && parent.content == xs[0].n && parent !in nodes && parent in h.live
            && parent.prev == null && parent.next == null)
    modifies h
    ensures freed == if el == null then [] else ReleasedAll(Whole(xs, parent))
    ensures h.live == if el == null then old(h.live) else old(h.live) - nodes - {parent}
    ensures h.records == if el == null then old(h.records) else old(h.records) - BulksIn(xs)
  {
    if el == null { return []; }
    var start := Rewind(el, xs, at, parent, nodes);
    ghost var all := if parent == null then nodes else nodes + {parent};
    if parent != null {
      HolderCell(xs, parent, nodes);
      AloneInRow(Branch(parent, xs), all);
      WholeBulks(xs, parent);
    }
    freed := ReleaseFrom(h, start, Whole(xs, parent), null, all);
  }

  lemma WholeBulks(xs: seq<Shape>, parent: Node)
    ensures BulksIn(Whole(xs, parent)) == BulksIn(xs)
  {
    assert Whole(xs, parent)[..0] == [];
  }
}
