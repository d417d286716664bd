/** Waiting for a thread and being notified by it (kernel/thread.c): how threads move between the
    list of waiters, the blocked list and the ready list. */
module Threads {
  import opened Lists
  import opened Machine

  datatype ThreadState = Ready | Running | Blocked | Dying | Terminated

  class Thread {
    var state: ThreadState
    var waitCode: int
    const node: Node  // its place in the ready or the blocked list
    const waitNode: Node  // its place in a list of waiters
    const waiters: List

    constructor ()
      ensures state == Ready && waitCode == 0 && fresh(node) && fresh(waitNode) && fresh(waiters)
      ensures waiters.Valid() && waiters.Nodes() == [] && fresh(waiters.chain)
      ensures node != waitNode && node !in waiters.chain && waitNode !in waiters.chain
    {
      state, waitCode := Ready, 0;
      node := new Node();
      waitNode := new Node();
      waiters := new List();
    }
  }

  // ---------------------------------------------------------------- the specification

  /** The nodes of s that are not gone, in their order. */
  ghost function Keep(s: seq<Node>, gone: set<Node>): seq<Node> {
    if s == [] then []
    else Keep(s[..|s| - 1], gone) + if s[|s| - 1] in gone then [] else [s[|s| - 1]]
  }

  /** The list nodes of the waiting threads, the last waiter first. */
  ghost function Woken(ws: seq<Node>, entry: map<Node, Thread>): seq<Node>
    requires forall i | 0 <= i < |ws| :: ws[i] in entry
  {
    if ws == [] then [] else [entry[ws[|ws| - 1]].node] + Woken(ws[..|ws| - 1], entry)
  }

  ghost function WaitNodes(began: seq<Thread>): set<Node> {
    set i | 0 <= i < |began| :: began[i].waitNode
  }

  /** The list nodes of the threads, in their order. */
  ghost function ListNodes(began: seq<Thread>): seq<Node> {
    seq(|began|, i requires 0 <= i < |began| => began[i].node)
  }

  /** The list of waiters that thread_wait builds when the given threads start to wait in turn. */
  ghost function NewestFirst(began: seq<Thread>): (ws: seq<Node>)
    ensures |ws| == |began|
    ensures forall i | 0 <= i < |ws| :: ws[i] == began[|began| - 1 - i].waitNode
  {
    seq(|began|, i requires 0 <= i < |began| => began[|began| - 1 - i].waitNode)
  }

  lemma {:induction false} KeepAll(s: seq<Node>)
    ensures Keep(s, {}) == s
  {
    if s != [] { KeepAll(s[..|s| - 1]); }
  }

  lemma {:induction false} KeepMembers(s: seq<Node>, gone: set<Node>)
    ensures forall n :: n in Keep(s, gone) <==> n in s && n !in gone
  {
    if s != [] {
      KeepMembers(s[..|s| - 1], gone);
      assert s == s[..|s| - 1] + [s[|s| - 1]];
    }
  }

  /** Taking one more node out of what is left. */
  lemma {:induction false} KeepWithout(s: seq<Node>, gone: set<Node>, k: nat)
    requires Distinct(s) && k < |Keep(s, gone)|
    ensures RemoveAt(Keep(s, gone), k) == Keep(s, gone + {Keep(s, gone)[k]})
  {
    var n := |s| - 1;
    var rest, x := Keep(s[..n], gone), Keep(s, gone)[k];
    KeepMembers(s[..n], gone);
    if k < |rest| {
      KeepWithout(s[..n], gone, k);
      assert x == rest[k] && x in rest;
    } else {
      KeepSame(s[..n], gone, x);
    }
  }

  lemma {:induction false} KeepSame(s: seq<Node>, gone: set<Node>, x: Node)
    requires x !in s
    ensures Keep(s, gone + {x}) == Keep(s, gone)
  {
    if s != [] {
      assert s[|s| - 1] != x;
      KeepSame(s[..|s| - 1], gone, x);
    }
  }

  /** Waiters are put in front and taken from the front, and so are ready threads: together that wakes
      them in the order in which they began to wait. */
  lemma {:induction false} WokenInOrder(began: seq<Thread>, entry: map<Node, Thread>)
    requires forall i | 0 <= i < |began| :: began[i].waitNode in entry && entry[began[i].waitNode] == began[i]
    ensures Woken(NewestFirst(began), entry) == ListNodes(began)
  {
    if began != [] {
      var ws := NewestFirst(began);
      WokenInOrder(began[1..], entry);
      assert ws[..|ws| - 1] == NewestFirst(began[1..]);
    }
  }

  // ---------------------------------------------------------------- the lists

  ghost predicate Apart(a: seq<Node>, b: seq<Node>) {
    forall n | n in a :: n !in b
  }

  /** Moving a node from one chain to the other keeps them apart. */
  lemma MoveKeepsApart(to: seq<Node>, from: seq<Node>, k: nat)
    requires Apart(to, from) && Distinct(from) && k < |from| && |to| > 0
    ensures from[k] !in to && from[k] !in RemoveAt(from, k)
    ensures Apart(to, RemoveAt(from, k))
    ensures Apart(InsertAt(to, 1, from[k]), RemoveAt(from, k))
  {
    var rest := RemoveAt(from, k);
    forall n | n in rest
      ensures n in from && n != from[k]
    {
      var i :| 0 <= i < |rest| && rest[i] == n;
    }
  }

  ghost function Elements(s: seq<Node>): set<Node> {
    set n | n in s
  }

  lemma RemoveElements(s: seq<Node>, k: nat)
    requires k < |s|
    ensures Elements(RemoveAt(s, k)) <= Elements(s)
  {
  }

  lemma MoveElements(to: seq<Node>, from: seq<Node>, k: nat)
    requires k < |from| && |to| > 0
    ensures Elements(InsertAt(to, 1, from[k])) + Elements(RemoveAt(from, k)) <= Elements(to) + Elements(from)
  {
    RemoveElements(from, k);
    assert from[k] in from;
    forall n | n in InsertAt(to, 1, from[k])
      ensures n in to || n == from[k]
    {
      var i :| 0 <= i < |to| + 1 && InsertAt(to, 1, from[k])[i] == n;
    }
  }

  /** A third chain apart from both does not meet them after the move either. */
  lemma MoveKeepsThirdApart(third: seq<Node>, to: seq<Node>, from: seq<Node>, k: nat)
    requires Apart(third, to) && Apart(third, from) && k < |from| && |to| > 0
    ensures Apart(third, InsertAt(to, 1, from[k])) && Apart(third, RemoveAt(from, k))
  {
    assert from[k] in from;
    forall n | n in third
      ensures n !in RemoveAt(from, k) && n !in InsertAt(to, 1, from[k])
    {
      assert n !in from && n !in to;
    }
  }

  /** A chain that gains nodes from outside another one stays apart from it. */
  lemma JoinKeepsApart(was: seq<Node>, now: seq<Node>, joined: set<Node>, other: seq<Node>)
    requires Apart(was, other) && Elements(now) <= Elements(was) + joined && joined !! Elements(other)
    ensures Apart(now, other)
  {
    assert forall n | n in now :: n in Elements(now);
  }

  class Scheduler {
    const ready: List
    const blocked: List
    const entry: map<Node, Thread>  // from a wait node to the thread it is part of

    ghost predicate Valid()
      reads ready, ready.chain, blocked, blocked.chain
    {
      ready.Valid() && blocked.Valid() && ready != blocked && Apart(ready.chain, blocked.chain)
    }

    constructor (entry: map<Node, Thread>)
      ensures Valid() && this.entry == entry && ready.Nodes() == [] && blocked.Nodes() == []
      ensures fresh(ready) && fresh(blocked) && fresh(ready.chain) && fresh(blocked.chain)
    {
      ready := new List();
      blocked := new List();
      this.entry := entry;
    }

    method TakeFromBlocked(node: Node) returns (r: Node?, ghost k: nat)
      requires Valid()
      modifies blocked, blocked.chain
      ensures Valid()
      ensures if node in old(blocked.Nodes()) then
                && r == node && k < |old(blocked.Nodes())| && old(blocked.Nodes())[k] == node
                && blocked.chain == RemoveAt(old(blocked.chain), k + 1)
                && node !in ready.chain && node !in blocked.chain
              else r == null && blocked.chain == old(blocked.chain)
    {
      r, k := blocked.Delete(node);
      ListFrame(ready);
      if r != null {
        MoveKeepsApart(ready.chain, old(blocked.chain), k + 1);
      }
    }

    method PutOnReady(node: Node)
      requires Valid() && node !in ready.chain && node !in blocked.chain
      modifies ready, ready.chain, node
      ensures Valid() && ready.chain == InsertAt(old(ready.chain), 1, node)
    {
      ready.InsertFront(node);
      ListFrame(blocked);
    }

    /** Moves a blocked thread to the front of the ready list; for any other thread nothing changes. */
    method Unblock(thread: Thread) returns (ghost k: nat)
      requires Valid()
      modifies thread`state, ready, ready.chain, blocked, blocked.chain
      ensures Valid()
      ensures if old(thread.state) == Blocked && thread.node in old(blocked.Nodes()) then
                && thread.state == Ready
                && k < |old(blocked.Nodes())| && old(blocked.Nodes())[k] == thread.node
                && ready.chain == InsertAt(old(ready.chain), 1, thread.node)
                && blocked.chain == RemoveAt(old(blocked.chain), k + 1)
              else
                && thread.state == old(thread.state)
                && ready.chain == old(ready.chain) && blocked.chain == old(blocked.chain)
    {
      k := 0;
      if thread.state != Blocked {
        return;
      }
      var node: Node?;
      node, k := TakeFromBlocked(thread.node);
      if node == null {
        return;
      }
      thread.state := Ready;
      PutOnReady(node);
    }

    // -------------------------------------------------------------- notify

    /** The wait nodes belong to threads with list nodes of their own. */
    ghost predicate Enrolled(ws: seq<Node>) {
      && (forall i | 0 <= i < |ws| :: ws[i] in entry && entry[ws[i]].waitNode == ws[i])
      && (forall i, j | 0 <= i < j < |ws| :: entry[ws[i]].node != entry[ws[j]].node)
    }

    ghost function ThreadsOf(ws: seq<Node>): set<Thread>
      requires Enrolled(ws)
    {
      set i | 0 <= i < |ws| :: entry[ws[i]]
    }

    ghost function NodesOf(ws: seq<Node>): set<Node>
      requires Enrolled(ws)
    {
      set i | 0 <= i < |ws| :: entry[ws[i]].node
    }

    /** The first i of the waiters ws have been woken: they are ready, in front of the threads r that were
        ready before, they are gone from the blocked threads b, and they know the code. */
    ghost predicate Progress(ws: seq<Node>, i: nat, r: seq<Node>, b: seq<Node>, code: int)
      requires Enrolled(ws)
      reads ready, ready.chain, blocked, blocked.chain, ThreadsOf(ws)
    {
      && Valid() && i <= |ws|
      && ready.Nodes() == Woken(ws[..i], entry) + r
      && blocked.Nodes() == Keep(b, NodesOf(ws[..i]))
      && (forall j | 0 <= j < i :: entry[ws[j]].state == Ready && entry[ws[j]].waitCode == code)
      && (forall j | i <= j < |ws| :: entry[ws[j]].state == Blocked)
    }

    lemma NextIsBlocked(ws: seq<Node>, i: nat, r: seq<Node>, b: seq<Node>, code: int)
      requires Enrolled(ws) && Progress(ws, i, r, b, code) && i < |ws| && NodesOf(ws) <= Elements(b)
      ensures entry[ws[i]].node in blocked.Nodes()
    {
      KeepMembers(b, NodesOf(ws[..i]));
      assert entry[ws[i]].node in NodesOf(ws);
    }

    /** What moving the next waiter's node does to the two sequences. */
    lemma NextMoves(ws: seq<Node>, i: nat, r: seq<Node>, b: seq<Node>, k: nat)
      requires Enrolled(ws) && i < |ws| && Distinct(b)
      requires k < |Keep(b, NodesOf(ws[..i]))| && Keep(b, NodesOf(ws[..i]))[k] == entry[ws[i]].node
      ensures [entry[ws[i]].node] + (Woken(ws[..i], entry) + r) == Woken(ws[..i + 1], entry) + r
      ensures RemoveAt(Keep(b, NodesOf(ws[..i])), k) == Keep(b, NodesOf(ws[..i + 1]))
    {
      assert ws[..i + 1][..i] == ws[..i];
      KeepWithout(b, NodesOf(ws[..i]), k);
      assert NodesOf(ws[..i + 1]) == NodesOf(ws[..i]) + {entry[ws[i]].node};
    }

    /** Gives a blocked thread its code and makes it ready; a third chain stays apart from both lists. */
    method Wake(thread: Thread, code: int, ghost third: seq<Node>) returns (ghost k: nat)
      requires Valid() && thread.state == Blocked && thread.node in blocked.Nodes()
      requires Apart(third, ready.chain) && Apart(third, blocked.chain)
      modifies thread, ready, ready.chain, blocked, blocked.chain
      ensures Valid() && thread.state == Ready && thread.waitCode == code
      ensures k < |old(blocked.Nodes())| && old(blocked.Nodes())[k] == thread.node
      ensures blocked.Nodes() == RemoveAt(old(blocked.Nodes()), k)
      ensures ready.Nodes() == [thread.node] + old(ready.Nodes())
      ensures Apart(third, ready.chain) && Apart(third, blocked.chain)
      ensures Elements(ready.chain) + Elements(blocked.chain) <= old(Elements(ready.chain) + Elements(blocked.chain))
    {
      thread.waitCode := code;
      k := Unblock(thread);
      assert blocked.Nodes() == RemoveAt(old(blocked.Nodes()), k);
      MoveKeepsThirdApart(third, old(ready.chain), old(blocked.chain), k + 1);
      MoveElements(old(ready.chain), old(blocked.chain), k + 1);
    }

    /** The body of the notify loop. */
    method WakeOne(node: Node, code: int, ghost ws: seq<Node>, ghost i: nat, ghost r: seq<Node>, ghost b: seq<Node>,
                   ghost third: seq<Node>)
      requires Enrolled(ws) && Progress(ws, i, r, b, code) && i < |ws| && node == ws[i]
      requires Distinct(b) && NodesOf(ws) <= Elements(b)
      requires Apart(third, ready.chain) && Apart(third, blocked.chain)
      modifies entry[node], ready, ready.chain, blocked, blocked.chain
      ensures Progress(ws, i + 1, r, b, code)
      ensures Apart(third, ready.chain) && Apart(third, blocked.chain)
      ensures Elements(ready.chain) + Elements(blocked.chain) <= old(Elements(ready.chain) + Elements(blocked.chain))
    {
      var waiting := entry[node];
      assert forall j | 0 <= j < |ws| && j != i :: entry[ws[j]] != waiting;
      NextIsBlocked(ws, i, r, b, code);
      ghost var k := Wake(waiting, code, third);
      NextMoves(ws, i, r, b, k);
    }

    /** A thread with its list of waiters apart from the two lists, and all its waiters blocked. */
    ghost predicate Notifiable(t: Thread)
      reads ready, ready.chain, blocked, blocked.chain, t.waiters, t.waiters.chain
    {
      && Valid() && t.waiters.Valid() && t.waiters != ready && t.waiters != blocked
      && Apart(t.waiters.chain, ready.chain) && Apart(t.waiters.chain, blocked.chain)
      && Enrolled(t.waiters.Nodes())
      && NodesOf(t.waiters.Nodes()) <= Elements(blocked.Nodes())
    }

    /** Takes the first waiter out while the other two lists stand still. */
    method PopWaiter(t: Thread) returns (node: Node?)
      requires Valid() && t.waiters.Valid() && t.waiters != ready && t.waiters != blocked
      requires Apart(t.waiters.chain, ready.chain) && Apart(t.waiters.chain, blocked.chain)
      modifies t.waiters, t.waiters.chain
      ensures Valid() && t.waiters.Valid()
      ensures Apart(t.waiters.chain, ready.chain) && Apart(t.waiters.chain, blocked.chain)
      ensures if old(t.waiters.Nodes()) == [] then node == null && t.waiters.Nodes() == []
              else node == old(t.waiters.Nodes())[0] && t.waiters.Nodes() == old(t.waiters.Nodes())[1..]
      ensures Elements(t.waiters.chain) <= old(Elements(t.waiters.chain))
    {
      RemoveElements(t.waiters.chain, 1);
      node := t.waiters.Pop();
      ListFrame(ready);
      ListFrame(blocked);
    }

    /** All but the waiters ws[i + 1..] are off the list, and ws[i] is at hand, if it exists. */
    ghost predicate Cycle(t: Thread, ws: seq<Node>, i: nat, node: Node?, r: seq<Node>, b: seq<Node>, code: int)
      requires Enrolled(ws)
      reads ready, ready.chain, blocked, blocked.chain, t.waiters, t.waiters.chain, ThreadsOf(ws)
    {
      && Progress(ws, i, r, b, code)
      && Distinct(b) && NodesOf(ws) <= Elements(b)
      && t.waiters.Valid() && t.waiters != ready && t.waiters != blocked
      && Apart(t.waiters.chain, ready.chain) && Apart(t.waiters.chain, blocked.chain)
      && (if i < |ws| then node == ws[i] && t.waiters.Nodes() == ws[i + 1..]
          else node == null && t.waiters.Nodes() == [])
    }

    /** The nodes of the three lists together. */
    ghost function Footprint(t: Thread): set<Node>
      reads ready, blocked, t.waiters
    {
      Elements(ready.chain) + Elements(blocked.chain) + Elements(t.waiters.chain)
    }

    method Begin(t: Thread, code: int) returns (node: Node?)
      requires Notifiable(t)
      requires forall i | 0 <= i < |t.waiters.Nodes()| :: entry[t.waiters.Nodes()[i]].state == Blocked
      modifies t.waiters, t.waiters.chain
      ensures Cycle(t, old(t.waiters.Nodes()), 0, node, ready.Nodes(), blocked.Nodes(), code)
      ensures Footprint(t) <= old(Footprint(t))
    {
      ghost var ws := t.waiters.Nodes();
      KeepAll(blocked.Nodes());
      assert NodesOf(ws[..0]) == {};
      node := PopWaiter(t);
    }

    /** The next waiter is woken while the remaining ones stay on their list. */
    method WakeNext(t: Thread, node: Node, code: int, ghost ws: seq<Node>, ghost i: nat, ghost r: seq<Node>, ghost b: seq<Node>)
      requires Enrolled(ws) && Cycle(t, ws, i, node, r, b, code)
      modifies ready, blocked, ready.chain, blocked.chain, ThreadsOf(ws)
      ensures Progress(ws, i + 1, r, b, code)
      ensures t.waiters.Valid() && t.waiters.chain == old(t.waiters.chain)
      ensures Apart(t.waiters.chain, ready.chain) && Apart(t.waiters.chain, blocked.chain)
      ensures Footprint(t) <= old(Footprint(t))
    {
      WakeOne(node, code, ws, i, r, b, t.waiters.chain);
      ListFrame(t.waiters);
    }

    method Again(t: Thread, node: Node, code: int, ghost ws: seq<Node>, ghost i: nat, ghost r: seq<Node>, ghost b: seq<Node>)
      returns (next: Node?)
      requires Enrolled(ws) && Cycle(t, ws, i, node, r, b, code)
      modifies t.waiters, ready, blocked, Footprint(t), ThreadsOf(ws)
      ensures Cycle(t, ws, i + 1, next, r, b, code)
      ensures Footprint(t) <= old(Footprint(t))
    {
      WakeNext(t, node, code, ws, i, r, b);
      next := PopWaiter(t);
    }

    /** With `all`, every waiter learns the code and becomes ready, in the order in which they began to
        wait and in front of the threads that were ready; exactly they leave the blocked list. Without
        `all` only the newest waiter is woken, but a second one is taken off the list and lost. */
    method Notify(t: Thread, all: bool, code: int) returns (result: int)
      requires Notifiable(t)
      requires forall i | 0 <= i < |t.waiters.Nodes()| :: entry[t.waiters.Nodes()[i]].state == Blocked
      modifies t.waiters, ready, blocked, Footprint(t), ThreadsOf(t.waiters.Nodes())
      ensures Valid() && t.waiters.Valid()
      ensures var ws := old(t.waiters.Nodes());
              && result == (if ws == [] then -1 else 0)
              && t.waiters.Nodes() == (if all || |ws| < 2 then [] else ws[2..])
              && Progress(ws, if all || ws == [] then |ws| else 1, old(ready.Nodes()), old(blocked.Nodes()), code)
    {
      ghost var ws, r, b, i := t.waiters.Nodes(), ready.Nodes(), blocked.Nodes(), 0;
      var node := Begin(t, code);
      if node == null {
        return -1;
      }
      node := Again(t, node, code, ws, i, r, b);
      i := 1;
      while all && node != null
        invariant Cycle(t, ws, i, node, r, b, code) && (!all ==> i == 1)
        invariant Footprint(t) <= old(Footprint(t))
        decreases |ws| - i
      {
        node := Again(t, node, code, ws, i, r, b);
        i := i + 1;
      }
      return 0;
    }

    /** Threads with nodes of their own that the entries lead to. */
    ghost predicate Known(began: seq<Thread>) {
      && (forall i | 0 <= i < |began| :: began[i].waitNode in entry && entry[began[i].waitNode] == began[i])
      && (forall i, j | 0 <= i < j < |began| :: began[i].waitNode != began[j].waitNode && began[i].node != began[j].node)
    }

    /** The i-th waiter is the thread that began as many places before the last. */
    lemma Newest(began: seq<Thread>, i: nat)
      requires Known(began) && i < |began|
      ensures NewestFirst(began)[i] in entry && entry[NewestFirst(began)[i]] == began[|began| - 1 - i]
      ensures entry[NewestFirst(began)[i]].node in ListNodes(began)
    {
      assert ListNodes(began)[|began| - 1 - i] == began[|began| - 1 - i].node;
    }

    lemma KnownAreEnrolled(began: seq<Thread>)
      requires Known(began)
      ensures Enrolled(NewestFirst(began))
      ensures forall thread | thread in ThreadsOf(NewestFirst(began)) :: thread in began
    {
      forall i | 0 <= i < |began|
        ensures NewestFirst(began)[i] in entry && entry[NewestFirst(began)[i]] == began[|began| - 1 - i]
      {
        Newest(began, i);
      }
    }

    lemma KnownNodes(began: seq<Thread>)
      requires Known(began) && Enrolled(NewestFirst(began))
      ensures NodesOf(NewestFirst(began)) == Elements(ListNodes(began))
    {
      var ws := NewestFirst(began);
      forall n | n in NodesOf(ws)
        ensures n in ListNodes(began)
      {
        var i :| 0 <= i < |ws| && entry[ws[i]].node == n;
        Newest(began, i);
      }
      forall n | n in ListNodes(began)
        ensures n in NodesOf(ws)
      {
        var i :| 0 <= i < |began| && ListNodes(began)[i] == n;
        Newest(began, |began| - 1 - i);
      }
    }

    /** When all of them have been woken. */
    lemma ProgressIsWakingAll(began: seq<Thread>, r: seq<Node>, b: seq<Node>, code: int)
      requires Known(began) && Enrolled(NewestFirst(began)) && Progress(NewestFirst(began), |began|, r, b, code)
      ensures ready.Nodes() == ListNodes(began) + r && blocked.Nodes() == Keep(b, Elements(ListNodes(began)))
      ensures forall i | 0 <= i < |began| :: began[i].state == Ready && began[i].waitCode == code
    {
      var ws := NewestFirst(began);
      KnownNodes(began);
      WokenInOrder(began, entry);
      assert ws[..|began|] == ws;
      assert forall i | 0 <= i < |began| :: began[i] == entry[ws[|began| - 1 - i]];
    }

    /** Known threads, all blocked, that can join the waiters of t, which are none yet. */
    ghost predicate CanWait(t: Thread, began: seq<Thread>)
      reads ready, ready.chain, blocked, blocked.chain, t.waiters, t.waiters.chain, began
    {
      && Notifiable(t) && t.waiters.Nodes() == [] && Known(began)
      && (forall i | 0 <= i < |began| :: began[i].state == Blocked)
      && Elements(ListNodes(began)) <= Elements(blocked.Nodes())
      && WaitNodes(began) !! Elements(t.waiters.chain) + Elements(ready.chain) + Elements(blocked.chain)
    }

    /** The threads join the waiters in turn. */
    method Enlist(t: Thread, began: seq<Thread>)
      requires CanWait(t, began)
      modifies t.waiters, t.waiters.chain, WaitNodes(began)
      ensures Notifiable(t) && t.waiters.Nodes() == NewestFirst(began)
      ensures Elements(t.waiters.chain) <= old(Elements(t.waiters.chain)) + WaitNodes(began)
    {
      assert forall i | 0 <= i < |began| :: began[i].waitNode in WaitNodes(began);
      WaitInTurn(t, began, entry);
      ListFrame(ready);
      ListFrame(blocked);
      JoinKeepsApart(old(t.waiters.chain), t.waiters.chain, WaitNodes(began), ready.chain);
      JoinKeepsApart(old(t.waiters.chain), t.waiters.chain, WaitNodes(began), blocked.chain);
      KnownAreEnrolled(began);
      KnownNodes(began);
    }

    /** However many threads begin to wait for t in turn, notifying all of them makes exactly them ready,
        in the order in which they began and in front of the threads that were ready, with the code. */
    method WaitThenNotify(t: Thread, began: seq<Thread>, code: int) returns (result: int)
      requires CanWait(t, began)
      modifies t.waiters, ready, blocked, Footprint(t), WaitNodes(began), began
      ensures Valid() && t.waiters.Valid() && t.waiters.Nodes() == []
      ensures result == if began == [] then -1 else 0
      ensures ready.Nodes() == ListNodes(began) + old(ready.Nodes())
      ensures blocked.Nodes() == Keep(old(blocked.Nodes()), Elements(ListNodes(began)))
      ensures forall i | 0 <= i < |began| :: began[i].state == Ready && began[i].waitCode == code
    {
      KnownAreEnrolled(began);
      ghost var r, b := ready.Nodes(), blocked.Nodes();
      Enlist(t, began);
      assert forall i | 0 <= i < |began| :: entry[t.waiters.Nodes()[i]] == began[|began| - 1 - i];
      result := Notify(t, true, code);
      ProgressIsWakingAll(began, r, b, code);
    }
  }

  // ---------------------------------------------------------------- waiting

  const THREAD_FAILURE := 1

  /** The part of thread_wait before the caller blocks: it joins the waiters in front, or, when there is
      no thread to wait for, returns an error early. */
  method JoinWaiters(t: Thread?, cur: Thread) returns (early: Option<int>)
    requires t != null ==> t.waiters.Valid() && cur.waitNode !in t.waiters.chain
    modifies if t == null then {} else {t.waiters, cur.waitNode} + Elements(t.waiters.chain)
    ensures early == if t == null then Some(-1) else None
    ensures t != null ==> t.waiters.Valid() && t.waiters.Nodes() == [cur.waitNode] + old(t.waiters.Nodes())
    ensures t != null ==> Elements(t.waiters.chain) <= old(Elements(t.waiters.chain)) + {cur.waitNode}
  {
    if t == null {
      return Some(-THREAD_FAILURE);
    }
    t.waiters.InsertFront(cur.waitNode);
    return None;
  }

  /** Threads that begin to wait one after the other stand on the list newest first; notifying all of
      them therefore makes them ready in the order in which they began. */
  method WaitInTurn(t: Thread, began: seq<Thread>, ghost entry: map<Node, Thread>)
    requires t.waiters.Valid() && t.waiters.Nodes() == []
    requires forall i | 0 <= i < |began| ::
               && began[i].waitNode !in t.waiters.chain
               && began[i].waitNode in entry && entry[began[i].waitNode] == began[i]
    requires forall i, j | 0 <= i < j < |began| :: began[i].waitNode != began[j].waitNode
    modifies t.waiters, t.waiters.chain, WaitNodes(began)
    ensures t.waiters.Valid() && t.waiters.Nodes() == NewestFirst(began)
    ensures Elements(t.waiters.chain) <= old(Elements(t.waiters.chain)) + WaitNodes(began)
    ensures Woken(t.waiters.Nodes(), entry) == ListNodes(began)
  {
    ghost var sentinels := Elements(t.waiters.chain);
    for k := 0 to |began|
      invariant t.waiters.Valid() && t.waiters.Nodes() == NewestFirst(began[..k])
      invariant Elements(t.waiters.chain) <= sentinels + WaitNodes(began[..k])
    {
      assert began[k].waitNode !in WaitNodes(began[..k]) && began[k].waitNode !in sentinels;
      assert began[k].waitNode !in Elements(t.waiters.chain);
      var _ := JoinWaiters(t, began[k]);
      assert NewestFirst(began[..k + 1]) == [began[k].waitNode] + NewestFirst(began[..k]);
    }
    assert began[..|began|] == began;
    WokenInOrder(began, entry);
  }

  // ---------------------------------------------------------------- thread ids

  const MAX_TID := 512

  /** The least id that is free, which is then taken; MAX_TID + 1 exactly when none is free. */
  method AllocateTid(tids: array<bool>) returns (tid: nat)
    requires tids.Length == 512
    modifies tids
    ensures if tid < 512 then
              && !old(tids[tid]) && tids[..] == old(tids[..])[tid := true]
              && forall i | 0 <= i < tid :: old(tids[i])
            else
              tid == 513 && tids[..] == old(tids[..]) && forall i | 0 <= i < 512 :: tids[i]
  {
    var i := 0;
    while i < MAX_TID
      invariant i <= MAX_TID
      invariant forall j | 0 <= j < i :: tids[j]
      invariant tids[..] == old(tids[..])
    {
      if !tids[i] {
        tids[i] := true;
        return i;
      }
      i := i + 1;
    }
    return MAX_TID + 1;
  }
}
