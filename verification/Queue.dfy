/** The FIFO queue of doubly linked nodes. A datum is an `Option`: `None` is the NULL pointer. */
module Queue {
  import opened Base

  class ListNode<T> {
    var prev: ListNode?<T>
    var next: ListNode?<T>
    var data: Option<T>

    constructor (data: Option<T>)
      ensures this.data == data && next == null && prev == null
    {
      this.data, next, prev := data, null, null;
    }
  }

  class Queue<T> {
    var front: ListNode?<T>
    var rear: ListNode?<T>
    ghost var nodes: seq<ListNode<T>>
    ghost var contents: seq<Option<T>>

    /** `next` and `prev` are mutually inverse along the chain from `front` to `rear`. */
    ghost predicate Valid()
      reads this, nodes
    {
      && |contents| == |nodes|
      && (front == null <==> nodes == []) && (rear == null <==> nodes == [])
      && (nodes != [] ==> front == nodes[0] && rear == nodes[|nodes| - 1])
      && (nodes != [] ==> nodes[0].prev == null && nodes[|nodes| - 1].next == null)
      && (forall i, j :: 0 <= i < j < |nodes| ==> nodes[i] != nodes[j])
      && (forall i {:trigger nodes[i].next} :: 0 <= i < |nodes| - 1 ==> nodes[i].next == nodes[i + 1])
      && (forall i {:trigger nodes[i].prev} :: 0 < i < |nodes| ==> nodes[i].prev == nodes[i - 1])
      && (forall i {:trigger nodes[i].data} :: 0 <= i < |nodes| ==> nodes[i].data == contents[i])
    }

    constructor ()
      ensures Valid() && contents == [] && nodes == []
    {
      front, rear, nodes, contents := null, null, [], [];
    }

    method GetFront() returns (data: Option<T>)
      requires Valid()
      ensures data == if contents == [] then None else contents[0]
    {
      if front == null { return None; }
      data := front.data;
    }

    method GetRear() returns (data: Option<T>)
      requires Valid()
      ensures data == if contents == [] then None else contents[|contents| - 1]
    {
      if rear == null { return None; }
      data := rear.data;
    }

    method Enqueue(data: Option<T>)
      requires Valid()
      modifies this, rear
      ensures Valid() && contents == old(contents) + [data]
      ensures exists n: ListNode<T> :: fresh(n) && nodes == old(nodes) + [n]
    {
      var n := new ListNode(data);
      if front == null && rear == null {
        front, rear := n, n;
        nodes, contents := [n], [data];
        assert old(nodes) + [n] == [n];
        return;
      }
      var prev := rear;
      prev.next := n;
      n.prev := prev;
      rear := n;
      nodes, contents := nodes + [n], contents + [data];
      assert forall i :: 0 <= i < |old(nodes)| ==> nodes[i] == old(nodes)[i];
    }

    /** Unlinks the front node, which C then frees: it is in no later state of the queue. */
    method Dequeue() returns (data: Option<T>)
      requires Valid()
      modifies this, nodes
      ensures Valid() && (old(contents) == [] <==> old(nodes) == [])
      ensures old(contents) == [] ==> data == None && nodes == [] && contents == []
      ensures old(contents) != [] ==>
        data == old(contents)[0] && nodes == old(nodes)[1..] && contents == old(contents)[1..]
    {
      if front == null { return None; }
      if front == rear {
        data := front.data;
        front, rear := null, null;
        nodes, contents := nodes[1..], contents[1..];
        return;
      }
      assert nodes[0].next == nodes[1];
      var first, next := front, front.next;
      first.next := null;
      next.prev := null;
      front := next;
      data := first.data;
      nodes, contents := nodes[1..], contents[1..];
      assert forall i :: 0 <= i < |nodes| ==> nodes[i] == old(nodes)[i + 1];
    }

    /** Frees every node once, front to rear, after handing its non-NULL datum to the destructor when
        there is one; `at` says which datum each call of the destructor got. */
    method Delete(hasDestructor: bool) returns (destroyed: seq<T>, freed: seq<ListNode<T>>, ghost at: seq<nat>)
      requires Valid()
      ensures freed == nodes
      ensures !hasDestructor ==> destroyed == []
      ensures |at| == |destroyed|
      ensures forall j :: 0 <= j < |at| ==> at[j] < |contents| && contents[at[j]] == Some(destroyed[j])
      ensures forall j, k :: 0 <= j < k < |at| ==> at[j] < at[k]
      ensures hasDestructor ==> forall i :: 0 <= i < |contents| && contents[i].Some? ==> i in at
    {
      destroyed, freed, at := [], [], [];
      var node := front;
      while node != null
        invariant |freed| <= |nodes| && freed == nodes[..|freed|]
        invariant node == null <==> |freed| == |nodes|
        invariant node != null ==> node == nodes[|freed|]
        invariant !hasDestructor ==> destroyed == []
        invariant |at| == |destroyed|
        invariant forall j :: 0 <= j < |at| ==> at[j] < |freed| && contents[at[j]] == Some(destroyed[j])
        invariant forall j, k :: 0 <= j < k < |at| ==> at[j] < at[k]
        invariant hasDestructor ==> forall i :: 0 <= i < |freed| && contents[i].Some? ==> i in at
        decreases |nodes| - |freed|
      {
        ghost var k := |freed|;
        var next := node.next;
        assert nodes[k].next == next && contents[k] == node.data;
        if node.data.Some? && hasDestructor {
          destroyed, at := destroyed + [node.data.value], at + [k];
        }
        freed := freed + [node];
        node := next;
      }
    }
  }
}
