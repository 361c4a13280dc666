/** Singly linked lists with insertion at the front and in-place removal through the word that
    points at the removed node: the shape of the task queue and of the wake-up list. */
module Chains {

  class Node<T> {
    var item: T
    var next: Node?<T>

    constructor (item: T, next: Node?<T>)
      ensures this.item == item && this.next == next
    {
      this.item := item;
      this.next := next;
    }
  }

  /** The node at position `i`, null past the end. */
  ghost function At<T>(nodes: seq<Node<T>>, i: nat): Node?<T> {
    if i < |nodes| then nodes[i] else null
  }

  ghost predicate Linked<T>(nodes: seq<Node<T>>, items: seq<T>, i: nat)
    requires i < |nodes| == |items|
    reads nodes
  {
    nodes[i].next == At(nodes, i + 1) && nodes[i].item == items[i]
  }

  class Chain<T> {
    var head: Node?<T>
    /** The contents of the list, the nodes that hold them, and all nodes ever linked. */
    ghost var items: seq<T>
    ghost var nodes: seq<Node<T>>
    ghost var repr: set<Node<T>>

    ghost predicate Valid()
      reads this, repr
    {
      && |items| == |nodes|
      && (forall i :: 0 <= i < |nodes| ==> nodes[i] in repr)
      && head == At(nodes, 0)
      && (forall i: nat :: i < |nodes| ==> Linked(nodes, items, i))
      && (forall i, j :: 0 <= i < j < |nodes| ==> nodes[i] != nodes[j])
    }

    constructor ()
      ensures Valid() && items == [] && fresh(repr)
    {
      head := null;
      items, nodes, repr := [], [], {};
    }

    /** Insert at the front. */
    method PushFront(item: T)
      requires Valid()
      modifies this
      ensures Valid() && items == [item] + old(items)
      ensures fresh(repr - old(repr))
    {
      var node := new Node(item, head);
      head := node;
      items, nodes, repr := [item] + items, [node] + nodes, repr + {node};
      forall i: nat | i < |nodes|
        ensures Linked(nodes, items, i)
      {
        assert i > 0 ==> old(Linked(nodes, items, i - 1));
      }
    }

    /** The links around position `k`. */
    lemma Links(k: nat)
      requires Valid() && k < |nodes|
      ensures nodes[k] in repr && nodes[k].item == items[k] && nodes[k].next == At(nodes, k + 1)
    {
      assert Linked(nodes, items, k);
    }

    /** Overwrite the contents of node `k`. */
    method SetItem(node: Node<T>, item: T, ghost k: nat)
      requires Valid() && k < |nodes| && node == nodes[k]
      modifies this, node
      ensures Valid() && items == old(items)[k := item]
      ensures nodes == old(nodes) && repr == old(repr) && node.next == old(node.next)
    {
      node.item := item;
      items := items[k := item];
      forall i: nat | i < |nodes|
        ensures Linked(nodes, items, i)
      {
        assert old(Linked(nodes, items, i));
      }
    }

    /** Make the word that points at node `k` (the head, or the link of `prev`) skip it. */
    method Unlink(prev: Node?<T>, node: Node<T>, ghost k: nat)
      requires Valid() && k < |nodes| && node == nodes[k]
      requires prev == if k == 0 then null else nodes[k - 1]
      modifies this, repr
      ensures Valid() && nodes == old(nodes)[..k] + old(nodes)[k + 1..]
      ensures items == old(items)[..k] + old(items)[k + 1..]
      ensures repr == old(repr) && node.next == old(node.next)
    {
      Links(k);
      ghost var before := nodes;
      if prev == null {
        head := node.next;
      } else {
        prev.next := node.next;
      }
      nodes, items := nodes[..k] + nodes[k + 1..], items[..k] + items[k + 1..];
      forall i: nat | i < |nodes|
        ensures Linked(nodes, items, i)
      {
        var j := if i < k then i else i + 1;
        assert old(Linked(nodes, items, j));
        assert nodes[i] == before[j];
        assert i + 1 != k ==> nodes[i].next == old(before[j].next);
      }
    }
  }
}
