/** The doubly linked list of src/structures/Dequeue.c. */
module Dequeue {
  import opened DataType

  class Node {
    var previous: Node?
    var next: Node?
    var data: Elem
    ghost var freed: bool

    constructor (value: Elem)
      ensures data == value && !freed
    {
      data := value;
      freed := false;
    }

    /** free(): a second free of the same node cannot be written. */
    ghost method Free()
      requires !freed
      modifies this
      ensures freed
    {
      freed := true;
    }
  }

  /** Following `previous` visits `chain` from front to back and `next` visits it backwards. */
  ghost predicate Linked(chain: seq<Node>)
    reads chain
  {
    && (forall i :: 0 <= i < |chain| ==> !chain[i].freed)
    && (forall i, j :: 0 <= i < j < |chain| ==> chain[i] != chain[j])
    && (forall i {:trigger chain[i].previous} :: 0 <= i < |chain| ==>
          chain[i].previous == if i + 1 < |chain| then chain[i + 1] else null)
    && (forall i {:trigger chain[i].next} :: 0 <= i < |chain| ==>
          chain[i].next == if i > 0 then chain[i - 1] else null)
  }

  method FreeNodes(first: Node, ghost chain: seq<Node>)
    requires chain != [] && first == chain[0] && Linked(chain)
    modifies chain
    ensures forall i :: 0 <= i < |chain| ==> chain[i].freed
  {
    var node: Node? := first;
    ghost var i := 0;
    while node != null
      invariant i <= |chain|
      invariant node == if i < |chain| then chain[i] else null
      invariant forall j :: 0 <= j < i ==> chain[j].freed
      invariant forall j :: i <= j < |chain| ==> !chain[j].freed
      invariant forall j {:trigger chain[j].previous} ::
                  0 <= j < |chain| ==> chain[j].previous == old(chain[j].previous)
      decreases |chain| - i
    {
      var nextNode := node.previous;
      node.Free();
      node := nextNode;
      i := i + 1;
    }
  }

  class Dequeue {
    var head: Node?
    var tail: Node?
    var length: nat
    /** The stored elements and the nodes that hold them, front first. */
    ghost var contents: seq<Elem>
    ghost var nodes: seq<Node>
    ghost var Repr: set<object>

    ghost predicate Valid()
      reads this, Repr
    {
      && this in Repr && (forall n :: n in nodes ==> n in Repr)
      && length == |nodes| == |contents|
      && Linked(nodes)
      && (forall i :: 0 <= i < |nodes| ==> nodes[i].data == contents[i])
      && head == (if nodes == [] then null else nodes[0])
      && tail == (if nodes == [] then null else nodes[|nodes| - 1])
    }

    constructor ()
      ensures Valid() && fresh(Repr) && contents == []
    {
      head, tail, length := null, null, 0;
      nodes, contents, Repr := [], [], {this};
    }

    /** The links of a new last node. */
    method LinkBack(node: Node)
      requires Valid() && node !in Repr && !node.freed
      modifies this, tail, node
      ensures Valid() && Repr == old(Repr) + {node}
      ensures contents == old(contents) + [node.data] && node.data == old(node.data)
    {
      if length == 0 {
        node.next, node.previous := null, null;
        head, tail := node, node;
      } else {
        node.previous := null;
        node.next := tail;
        tail.previous := node;
        tail := node;
      }
      length := length + 1;
      nodes, contents, Repr := nodes + [node], contents + [node.data], Repr + {node};
    }

    /** The links of a new first node. */
    method LinkFront(node: Node)
      requires Valid() && node !in Repr && !node.freed
      modifies this, head, node
      ensures Valid() && Repr == old(Repr) + {node}
      ensures contents == [node.data] + old(contents) && node.data == old(node.data)
    {
      if length == 0 {
        node.next, node.previous := null, null;
        head, tail := node, node;
      } else {
        node.previous := head;
        node.next := null;
        head.next := node;
        head := node;
      }
      length := length + 1;
      nodes, contents, Repr := [node] + nodes, [node.data] + contents, Repr + {node};
    }

    method PushBack(value: Elem, granted: bool) returns (failed: bool)
      requires Valid()
      modifies Repr
      ensures Valid() && fresh(Repr - old(Repr))
      ensures failed <==> !granted
      ensures contents == if failed then old(contents) else old(contents) + [value]
    {
      if !granted {
        return true;
      }
      var node := new Node(value);
      LinkBack(node);
      return false;
    }

    method PushFront(value: Elem, granted: bool) returns (failed: bool)
      requires Valid()
      modifies Repr
      ensures Valid() && fresh(Repr - old(Repr))
      ensures failed <==> !granted
      ensures contents == if failed then old(contents) else [value] + old(contents)
    {
      if !granted {
        return true;
      }
      var node := new Node(value);
      LinkFront(node);
      return false;
    }

    /** Frees the last node. */
    method UnlinkBack()
      requires Valid() && length > 0
      modifies Repr
      ensures Valid() && Repr == old(Repr)
      ensures contents == old(contents)[..|old(contents)| - 1]
      ensures old(tail).freed
    {
      var len := length - 1;
      if len == 0 {
        tail.Free();
        head, tail := null, null;
      } else {
        var oldNode := tail;
        tail := oldNode.next;
        tail.previous := null;
        oldNode.Free();
      }
      length := len;
      nodes, contents := nodes[..len], contents[..len];
    }

    /** Frees the first node. */
    method UnlinkFront()
      requires Valid() && length > 0
      modifies Repr
      ensures Valid() && Repr == old(Repr)
      ensures contents == old(contents)[1..]
      ensures old(head).freed
    {
      var len := length - 1;
      if len == 0 {
        head.Free();
        head, tail := null, null;
      } else {
        var oldNode := head;
        head := oldNode.previous;
        head.next := null;
        oldNode.Free();
      }
      length := len;
      nodes, contents := nodes[1..], contents[1..];
    }

    method PopBack() returns (failed: bool, value: Elem)
      requires Valid()
      modifies Repr
      ensures Valid() && Repr == old(Repr)
      ensures failed <==> old(contents) == []
      ensures if failed then contents == [] else old(contents) == contents + [value] && old(tail).freed
    {
      if length == 0 {
        return true, Elem(0, []);
      }
      value := tail.data;
      UnlinkBack();
      return false, value;
    }

    method PopFront() returns (failed: bool, value: Elem)
      requires Valid()
      modifies Repr
      ensures Valid() && Repr == old(Repr)
      ensures failed <==> old(contents) == []
      ensures if failed then contents == [] else old(contents) == [value] + contents && old(head).freed
    {
      if length == 0 {
        return true, Elem(0, []);
      }
      value := head.data;
      UnlinkFront();
      return false, value;
    }

    method PeekBack() returns (failed: bool, value: Elem)
      requires Valid()
      ensures failed <==> contents == []
      ensures !failed ==> value == contents[|contents| - 1]
    {
      if length != 0 {
        return false, tail.data;
      }
      return true, Elem(0, []);
    }

    method PeekFront() returns (failed: bool, value: Elem)
      requires Valid()
      ensures failed <==> contents == []
      ensures !failed ==> value == contents[0]
    {
      if length != 0 {
        return false, head.data;
      }
      return true, Elem(0, []);
    }

    /** Empties the list and frees every node of it once. */
    method Reset()
      requires Valid()
      modifies Repr
      ensures Valid() && contents == []
      ensures forall n :: n in old(nodes) ==> n.freed
    {
      if length != 0 {
        FreeNodes(head, nodes);
        head, tail, length := null, null, 0;
        nodes, contents := [], [];
      }
    }
  }
}
