/** The intrusive doubly linked list of hev-list.c. */
module HevList {
  import opened Sequences

  // A list node with the structure that embeds it, which the C code recovers with container_of:
  // owner is the part of that structure fixed at its creation, data the part that changes.
  class Node<T, D> {
    const owner: T
    var data: D
    var next: Node?<T, D>
    var prev: Node?<T, D>

    constructor (owner: T, data: D)
      ensures this.owner == owner && this.data == data
    {
      this.owner, this.data := owner, data;
      next, prev := null, null;
    }
  }

  ghost function Next<T, D>(s: seq<Node<T, D>>, i: nat): Node?<T, D>
    requires i < |s|
  {
    if i + 1 < |s| then s[i + 1] else null
  }

  ghost function Prev<T, D>(s: seq<Node<T, D>>, i: nat): Node?<T, D>
    requires i < |s|
  {
    if i > 0 then s[i - 1] else null
  }

  // next and prev mirror the order of s.
  ghost predicate Linked<T, D>(s: seq<Node<T, D>>)
    reads s`next, s`prev
  {
    && (forall i {:trigger s[i].next} :: 0 <= i < |s| ==> s[i].next == Next(s, i))
    && (forall i {:trigger s[i].prev} :: 0 <= i < |s| ==> s[i].prev == Prev(s, i))
  }

  // Once the neighbours of s[k] bypass it, the rest is a linked list again.
  lemma LinkedWithout<T, D>(s: seq<Node<T, D>>, k: nat)
    requires k < |s|
    requires forall i {:trigger s[i].next} :: 0 <= i < |s| && i != k ==>
      s[i].next == if i + 1 == k then Next(s, k) else Next(s, i)
    requires forall i {:trigger s[i].prev} :: 0 <= i < |s| && i != k ==>
      s[i].prev == if i == k + 1 then Prev(s, k) else Prev(s, i)
    ensures Linked(RemoveAt(s, k))
  {
  }

  class List<T, D> {
    var head: Node?<T, D>
    var tail: Node?<T, D>
    ghost var nodes: seq<Node<T, D>>

    ghost predicate Valid()
      reads this, nodes`next, nodes`prev
    {
      && NoDuplicates(nodes)
      && head == (if |nodes| == 0 then null else nodes[0])
      && tail == (if |nodes| == 0 then null else nodes[|nodes| - 1])
      && Linked(nodes)
    }

    constructor ()
      ensures Valid() && nodes == []
    {
      head, tail := null, null;
      nodes := [];
    }

    method AddTail(node: Node<T, D>)
      requires Valid() && node !in nodes
      modifies this, nodes`next, nodes`prev, node`next, node`prev
      ensures Valid() && nodes == old(nodes) + [node]
    {
      NoDuplicatesAppend(nodes, node);
      if tail != null { OnlyAt(nodes, |nodes| - 1); }
      node.prev := tail;
      node.next := null;
      if tail != null {
        tail.next := node;
      } else {
        head := node;
      }
      tail := node;
      nodes := nodes + [node];
    }

    method Del(node: Node<T, D>)
      requires Valid() && node in nodes
      modifies this, nodes`next, nodes`prev
      ensures Valid() && nodes == Without(old(nodes), node)
    {
      ghost var s := nodes;
      ghost var k: int := IndexOf(s, node);
      if k > 0 { OnlyAt(s, k - 1); }
      if k + 1 < |s| { OnlyAt(s, k + 1); }
      if node.prev != null {
        node.prev.next := node.next;
      } else {
        head := node.next;
      }
      if node.next != null {
        node.next.prev := node.prev;
      } else {
        tail := node.prev;
      }
      LinkedWithout(s, k);
      nodes := RemoveAt(s, k);
      RemoveAtMembers(s, k);
      assert nodes == Without(s, node) by {
        WithoutAt(s, k);
      }
    }

    // The hev_list_del, hev_list_add_tail pair that every user of the list performs.
    method MoveToTail(node: Node<T, D>)
      requires Valid() && node in nodes
      modifies this, nodes`next, nodes`prev
      ensures Valid() && nodes == Touch(old(nodes), node)
      ensures Elements(nodes) == Elements(old(nodes)) && |nodes| == |old(nodes)|
    {
      ghost var s := nodes;
      Del(node);
      WithoutMembers(s, node);
      assert forall i :: 0 <= i < |nodes| ==> nodes[i] in s;
      AddTail(node);
      TouchMembers(s, node);
      assert forall i :: 0 <= i < |s| ==> s[i] in nodes;
    }

    // hev_list_first
    method First() returns (node: Node?<T, D>)
      requires Valid()
      ensures nodes == [] ==> node == null
      ensures nodes != [] ==> node == nodes[0]
    {
      node := head;
    }
  }
}
