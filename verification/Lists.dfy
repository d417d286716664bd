/** The intrusive doubly linked list of libk/list.c: heap nodes between two sentinels, proved to be a
    sequence of distinct nodes whose forward and backward links are each other's inverse. */
module Lists {

  class Node {
    var next: Node?
    var prev: Node?

    constructor ()
      ensures next == null && prev == null
    {
      next, prev := null, null;
    }
  }

  ghost predicate Distinct<T>(s: seq<T>) {
    forall i, j | 0 <= i < j < |s| :: s[i] != s[j]
  }

  ghost function InsertAt<T>(s: seq<T>, k: nat, x: T): (r: seq<T>)
    requires k <= |s|
    ensures |r| == |s| + 1
    ensures forall i | 0 <= i < |r| :: r[i] == if i < k then s[i] else if i == k then x else s[i - 1]
  {
    s[..k] + [x] + s[k..]
  }

  ghost function RemoveAt<T>(s: seq<T>, k: nat): (r: seq<T>)
    requires k < |s|
    ensures |r| == |s| - 1
    ensures forall i | 0 <= i < |r| :: r[i] == s[if i < k then i else i + 1]
  {
    s[..k] + s[k + 1..]
  }

  class List {
    const head: Node
    const tail: Node
    ghost var chain: seq<Node>  // the nodes with the sentinels around them

    ghost predicate Valid()
      reads this, chain
    {
      && |chain| >= 2 && chain[0] == head && chain[|chain| - 1] == tail
      && Distinct(chain)
      && head.prev == null && tail.next == null
      && (forall i | 0 <= i < |chain| - 1 :: chain[i].next == chain[i + 1])
      && (forall i | 0 < i < |chain| :: chain[i].prev == chain[i - 1])
    }

    /** The abstract value of the list. */
    ghost function Nodes(): (s: seq<Node>)
      requires |chain| >= 2
      reads this
      ensures |s| == |chain| - 2 && forall i | 0 <= i < |s| :: s[i] == chain[i + 1]
    {
      chain[1..|chain| - 1]
    }

    constructor ()
      ensures Valid() && Nodes() == [] && chain == [head, tail] && fresh(head) && fresh(tail)
    {
      head := new Node();
      tail := new Node();
      new;
      head.prev := null;
      head.next := tail;
      tail.prev := head;
      tail.next := null;
      chain := [head, tail];
    }

    method InsertFront(node: Node)
      requires Valid() && node !in chain
      modifies this, chain, node
      ensures Valid() && Nodes() == [node] + old(Nodes())
      ensures chain == InsertAt(old(chain), 1, node)
    {
      assert chain[0].next == chain[1];
      head.next.prev := node;
      node.next := head.next;
      head.next := node;
      node.prev := head;
      chain := InsertAt(chain, 1, node);
      assert Nodes() == [node] + old(Nodes());
    }

    method InsertEnd(node: Node)
      requires Valid() && node !in chain
      modifies this, chain, node
      ensures Valid() && Nodes() == old(Nodes()) + [node]
    {
      assert chain[|chain| - 1].prev == chain[|chain| - 2];
      tail.prev.next := node;
      node.prev := tail.prev;
      tail.prev := node;
      node.next := tail;
      chain := InsertAt(chain, |chain| - 1, node);
    }

    /** Walks from the head sentinel until it meets the node or falls off the end. */
    method Find(node: Node?) returns (curr: Node?, ghost k: nat)
      requires Valid()
      ensures k <= |chain| && curr == (if k < |chain| then chain[k] else null)
      ensures curr == node || curr == null
      ensures node !in chain[..k]
    {
      curr := head;
      k := 0;
      while curr != null && curr != node
        invariant k <= |chain| && curr == (if k < |chain| then chain[k] else null)
        invariant node !in chain[..k]
        decreases |chain| - k
      {
        curr := curr.next;
        k := k + 1;
      }
    }

    method Unlink(curr: Node, ghost k: nat)
      requires Valid() && 0 < k < |chain| - 1 && chain[k] == curr
      modifies this, chain
      ensures Valid() && chain == RemoveAt(old(chain), k)
      ensures curr.next == null && curr.prev == null
    {
      assert chain[k].prev == chain[k - 1] && chain[k].next == chain[k + 1];
      curr.prev.next := curr.next;
      curr.next.prev := curr.prev;
      curr.prev, curr.next := null, null;
      chain := RemoveAt(chain, k);
    }

    /** A member is taken out and its links are cleared; for anything else, a sentinel included, NULL is
        returned and nothing changes. */
    method Delete(node: Node?) returns (r: Node?, ghost k: nat)
      requires Valid()
      modifies this, chain
      ensures Valid()
      ensures node in old(Nodes()) ==>
                && r == node && k < |old(Nodes())| && old(Nodes())[k] == node
                && Nodes() == RemoveAt(old(Nodes()), k) && chain == RemoveAt(old(chain), k + 1)
                && r.next == null && r.prev == null
      ensures node !in old(Nodes()) ==>
                r == null && chain == old(chain) && forall n | n in chain :: unchanged(n)
    {
      var curr: Node?;
      curr, k := Find(node);
      if curr == null {
        assert chain[..k] == chain;
        return null, 0;
      }
      if curr == head || curr == tail {
        return null, 0;
      }
      Unlink(curr, k);
      k := k - 1;
      assert old(Nodes())[k] == curr;
      assert Nodes() == RemoveAt(old(Nodes()), k);
      return curr, k;
    }

    method IsEmpty() returns (empty: bool)
      requires Valid()
      ensures empty <==> Nodes() == []
    {
      assert chain[0].next == chain[1];
      empty := head.next == tail;
    }

    method Pop() returns (r: Node?)
      requires Valid()
      modifies this, chain
      ensures Valid()
      ensures if old(Nodes()) == [] then
                r == null && chain == old(chain) && forall n | n in chain :: unchanged(n)
              else
                && r == old(Nodes())[0] && Nodes() == old(Nodes())[1..] && chain == RemoveAt(old(chain), 1)
                && r.next == null && r.prev == null
    {
      var empty := IsEmpty();
      if empty {
        return null;
      }
      assert chain[0].next == chain[1] == Nodes()[0];
      ghost var k;
      r, k := Delete(head.next);
      assert old(chain)[k + 1] == old(chain)[1];
    }

    method Size() returns (size: nat)
      requires Valid()
      ensures size == |Nodes()|
    {
      assert chain[0].next == chain[1];
      var curr := head.next;
      size := 0;
      while curr != null && curr.next != null
        invariant size <= |Nodes()| && curr == chain[size + 1]
        invariant size < |Nodes()| ==> curr.next == chain[size + 2]
        decreases |Nodes()| - size
      {
        curr := curr.next;
        size := size + 1;
      }
    }
  }

  /** A list does not notice changes to anything but itself and its nodes. */
  twostate lemma ListFrame(l: List)
    requires old(l.Valid()) && unchanged(l)
    requires forall n | n in l.chain :: n.next == old(n.next) && n.prev == old(n.prev)
    ensures l.Valid()
  {
  }
}
