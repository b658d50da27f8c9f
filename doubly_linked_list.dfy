/** A doubly linked list with head, tail and size fields; elements are added
    at either end. */
module DoublyLinked {
  import opened Text

  /** A list node: its data and links to its neighbours. Only what the list
      uses of it is modelled. */
  class Node<T> {
    const data: T
    var prev: Node?<T>
    var next: Node?<T>

    /** A new node is unlinked. */
    constructor (data: T)
      ensures this.data == data && prev == null && next == null
    {
      this.data := data;
      prev := null;
      next := null;
    }

    function GetNext(): (node: Node?<T>)
      reads this
      ensures node == next
    {
      next
    }
  }

  /** The data of the nodes, in order. */
  ghost function DataOf<T>(ns: seq<Node<T>>): (xs: seq<T>)
    ensures |xs| == |ns| && forall i :: 0 <= i < |ns| ==> xs[i] == ns[i].data
  {
    seq(|ns|, i requires 0 <= i < |ns| => ns[i].data)
  }

  class DoublyLinkedList<T> {
    var head: Node?<T>
    var tail: Node?<T>
    var size: int

    /** The nodes from head to tail. */
    ghost var nodes: seq<Node<T>>

    /** head and tail are the ends of the chain, neighbours point at each
        other through next and prev, the ends point nowhere beyond the list,
        no node appears twice, and size is the number of nodes. */
    ghost predicate Valid()
      reads this, nodes
    {
      && size == |nodes|
      && (forall i, j :: 0 <= i < j < |nodes| ==> nodes[i] != nodes[j])
      && (nodes == [] ==> head == null && tail == null)
      && (nodes != [] ==> head == nodes[0] && tail == nodes[|nodes| - 1] && head.prev == null && tail.next == null)
      && (forall i :: 0 <= i < |nodes| - 1 ==> nodes[i].next == nodes[i + 1] && nodes[i + 1].prev == nodes[i])
    }

    /** The elements from head to tail. */
    ghost function Elements(): (xs: seq<T>)
      reads this
    {
      DataOf(nodes)
    }

    /** A new list is empty. */
    constructor ()
      ensures Valid() && nodes == [] && head == null && tail == null && size == 0
    {
      head := null;
      tail := null;
      size := 0;
      nodes := [];
    }

    /** `is_empty`. */
    function IsEmpty(): (b: bool)
      reads this, nodes
      requires Valid()
      ensures b <==> Elements() == []
    {
      size == 0
    }

    /** `get_size`. */
    function GetSize(): (k: int)
      reads this, nodes
      requires Valid()
      ensures k == |Elements()|
    {
      size
    }

    /** `add_to_back`: a new node after the tail. */
    method AddToBack(data: T)
      requires Valid()
      modifies this, nodes
      ensures Valid() && fresh(tail)
      ensures Elements() == old(Elements()) + [data] && nodes == old(nodes) + [tail]
      ensures size == old(size) + 1
    {
      var newNode := new Node(data);
      if IsEmpty() {
        head := newNode;
      } else {
        newNode.prev := tail;
        tail.next := newNode;
      }
      tail := newNode;
      size := size + 1;
      nodes := nodes + [newNode];
    }

    /** `add_to_front`: a new node before the head. */
    method AddToFront(data: T)
      requires Valid()
      modifies this, nodes
      ensures Valid() && fresh(head)
      ensures Elements() == [data] + old(Elements()) && nodes == [head] + old(nodes)
      ensures size == old(size) + 1
    {
      var newNode := new Node(data);
      if IsEmpty() {
        tail := newNode;
      } else {
        newNode.next := head;
        head.prev := newNode;
      }
      head := newNode;
      size := size + 1;
      ghost var linked := [newNode] + nodes;
      nodes := linked;
    }

    /** `__repr__`: walk from the head along next and join the text of every
        element with " <-> "; `show` stands for `str` of a node. */
    method Repr(show: T -> string) returns (s: string)
      requires Valid()
      ensures s == Join(Shown(Elements(), show), " <-> ")
      ensures Elements() == [] ==> s == ""
    {
      var parts: seq<string> := [];
      var current := head;
      ghost var i := 0;
      while current != null
        invariant 0 <= i <= |nodes|
        invariant current == if i < |nodes| then nodes[i] else null
        invariant |parts| == i && forall k :: 0 <= k < i ==> parts[k] == show(nodes[k].data)
        decreases |nodes| - i
      {
        parts := parts + [show(current.data)];
        current := current.GetNext();
        i := i + 1;
      }
      assert parts == Shown(Elements(), show);
      s := Join(parts, " <-> ");
    }
  }
}
