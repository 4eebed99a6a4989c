/** The intrusive doubly linked list with a sentinel head (llist.h). */
module LList {
  import opened Bytes

  class LNode {
    var next: LNode?
    var prev: LNode?

    constructor ()
      ensures next == null && prev == null
    {
      next, prev := null, null;
    }
  }

  ghost predicate Distinct(s: seq<LNode>) {
    forall i, j :: 0 <= i < j < |s| ==> s[i] != s[j]
  }

  /** s with x at index k. */
  ghost function Inserted(s: seq<LNode>, k: nat, x: LNode): seq<LNode>
    requires k <= |s|
  {
    s[..k] + [x] + s[k..]
  }

  /** Node i of s points to its neighbours; the ends point nowhere. */
  ghost predicate Linked(s: seq<LNode>, i: nat)
    requires i < |s|
    reads s[i]
  {
    && s[i].prev == (if i == 0 then null else s[i - 1])
    && s[i].next == (if i == |s| - 1 then null else s[i + 1])
  }

  class List {
    const head: LNode          // the sentinel; only its next pointer is used
    var tail: LNode?
    ghost var nodes: seq<LNode>

    /** Forward and backward pointers follow nodes; the first node's prev is null, not the sentinel. */
    ghost predicate Valid()
      reads this, head, nodes
    {
      && head !in nodes && Distinct(nodes)
      && head.next == (if nodes == [] then null else nodes[0])
      && tail == (if nodes == [] then null else nodes[|nodes| - 1])
      && forall i :: 0 <= i < |nodes| ==> Linked(nodes, i)
    }

    constructor ()
      ensures Valid() && nodes == [] && fresh(head)
    {
      head := new LNode();
      tail, nodes := null, [];
    }

    /** llist_add_after: k is where the node goes; prev is null or the sentinel for the front. */
    method AddAfter(prev: LNode?, node: LNode, ghost k: nat)
      requires Valid() && node !in nodes && node != head && k <= |nodes|
      requires if k == 0 then prev == null || prev == head else prev == nodes[k - 1]
      modifies this, head, node, nodes
      ensures Valid() && nodes == Inserted(old(nodes), k, node)
    {
      ghost var s := nodes;
      var p := if prev == null then head else prev;
      if k > 0 { assert Linked(s, k - 1); }
      if k < |s| { assert Linked(s, k); }
      assert p.next == if k == |s| then null else s[k];
      if tail == null || tail == p {
        tail := node;
      }
      node.prev := p;
      node.next := p.next;
      if p.next != null {
        p.next.prev := node;
      }
      p.next := node;
      if node.prev == head {
        node.prev := null;
      }
      nodes := Inserted(s, k, node);
      forall i | 0 <= i < |nodes| ensures Linked(nodes, i) {
        if i < k { assert old(Linked(s, i)); } else if i > k { assert old(Linked(s, i - 1)); }
      }
    }

    /** llist_insert. */
    method Insert(node: LNode)
      requires Valid() && node !in nodes && node != head
      modifies this, head, node, nodes
      ensures Valid() && nodes == [node] + old(nodes)
    {
      AddAfter(head, node, 0);
    }

    /** llist_append. */
    method Append(node: LNode)
      requires Valid() && node !in nodes && node != head
      modifies this, head, node, nodes
      ensures Valid() && nodes == old(nodes) + [node]
    {
      AddAfter(tail, node, |nodes|);
    }

    /** llist_remove of the k-th node. */
    method Remove(node: LNode, ghost k: nat)
      requires Valid() && k < |nodes| && nodes[k] == node
      modifies this, head, nodes
      ensures Valid() && nodes == Cut(old(nodes), k, 1)
    {
      ghost var s := nodes;
      assert Linked(s, k);
      if k > 0 { assert Linked(s, k - 1); }
      if k < |s| - 1 { assert Linked(s, k + 1); }
      if node == tail {
        tail := node.prev;
      }
      if head.next == node {
        node.prev := head;
      }
      if node.prev != null { node.prev.next := node.next; }
      if node.next != null { node.next.prev := node.prev; }
      if head.next != null {
        head.next.prev := null;
      }
      nodes := Cut(s, k, 1);
      forall i | 0 <= i < |nodes| ensures Linked(nodes, i) {
        if i < k { assert old(Linked(s, i)); } else { assert old(Linked(s, i + 1)); }
      }
    }

    /** llist_to_tail. */
    method ToTail(node: LNode, ghost k: nat)
      requires Valid() && k < |nodes| && nodes[k] == node
      modifies this, head, nodes
      ensures Valid() && nodes == Cut(old(nodes), k, 1) + [node]
    {
      Remove(node, k);
      Append(node);
    }

    /** The walk along next from the first node. */
    method Forward() returns (s: seq<LNode>)
      requires Valid()
      ensures s == nodes
    {
      s := [];
      var n := head.next;
      while n != null
        invariant |s| <= |nodes| && s == nodes[..|s|]
        invariant n == if |s| == |nodes| then null else nodes[|s|]
        decreases |nodes| - |s|
      {
        assert Linked(nodes, |s|);
        s := s + [n];
        n := n.next;
      }
    }

    /** The walk along prev from the tail. */
    method Backward() returns (s: seq<LNode>)
      requires Valid()
      ensures s == Reversed(nodes)
    {
      s := [];
      var n := tail;
      while n != null
        invariant |s| <= |nodes| && s == Reversed(nodes[|nodes| - |s|..])
        invariant n == if |s| == |nodes| then null else nodes[|nodes| - 1 - |s|]
        decreases |nodes| - |s|
      {
        ghost var k := |nodes| - 1 - |s|;
        assert Linked(nodes, k) && nodes[k..][1..] == nodes[k + 1..];
        s := s + [n];
        n := n.prev;
      }
      assert nodes[0..] == nodes;
    }
  }
}
