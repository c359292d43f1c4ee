/**
 * PuzzleSolver.PriorityQueue: search states in a doubly-linked list of
 * Nodes, kept in non-decreasing order of their priority. A new state goes
 * behind every state whose priority is at most its own (so ties leave in
 * the order they came), found by walking forward from the rear.
 */
module PriorityQueues {
  import opened Wrappers
  import opened Moves
  import opened Boards
  import opened Search

  // ---------------------------------------------------------------------------
  // The order of the queue, on values

  /** Priorities never decrease from the front to the rear. */
  ghost predicate Sorted(items: seq<State>)
  {
    forall i, j :: 0 <= i < j < |items| ==> Key(items[i]) <= Key(items[j])
  }

  /**
   * Where enqueue puts a state of priority p: walking forward from the rear,
   * past every state whose priority exceeds p.
   */
  ghost function InsertPos(items: seq<State>, p: int): (i: nat)
    ensures i <= |items|
  {
    if items == [] || Key(items[|items| - 1]) <= p then |items| else InsertPos(items[..|items| - 1], p)
  }

  /** The queue after enqueue(s). */
  ghost function Insert(items: seq<State>, s: State): seq<State>
  {
    var i := InsertPos(items, Key(s));
    items[..i] + [s] + items[i..]
  }

  /** The queue after enqueueing the states of ss one by one, in order. */
  ghost function InsertAll(items: seq<State>, ss: seq<State>): seq<State>
    decreases |ss|
  {
    if ss == [] then items else Insert(InsertAll(items, ss[..|ss| - 1]), ss[|ss| - 1])
  }

  /**
   * The walk stops at i exactly when every state from i on has a larger
   * priority and the state before i (if any) does not.
   */
  lemma {:induction false} InsertPosAt(items: seq<State>, p: int, i: int)
    requires 0 <= i <= |items|
    requires forall k :: i <= k < |items| ==> Key(items[k]) > p
    requires i > 0 ==> Key(items[i - 1]) <= p
    ensures InsertPos(items, p) == i
    decreases |items|
  {
    if i < |items| {
      var init := items[..|items| - 1];
      assert forall k :: i <= k < |init| ==> init[k] == items[k];
      if i > 0 {
        assert init[i - 1] == items[i - 1];
      }
      InsertPosAt(init, p, i);
    }
  }

  /**
   * In a sorted queue the new state goes behind exactly the states whose
   * priority is at most its own, so it leaves after every earlier tie.
   */
  lemma {:induction false} InsertPosSplit(items: seq<State>, p: int)
    requires Sorted(items)
    ensures var i := InsertPos(items, p);
      (forall k :: 0 <= k < i ==> Key(items[k]) <= p) &&
      (forall k :: i <= k < |items| ==> Key(items[k]) > p)
    decreases |items|
  {
    if items != [] && Key(items[|items| - 1]) > p {
      var init := items[..|items| - 1];
      assert Sorted(init);
      InsertPosSplit(init, p);
    }
  }

  /**
   * Enqueue keeps the queue sorted and adds exactly s: it goes in at the
   * position i behind every state of equal or lower priority and in front of
   * every state of higher priority, the others keeping their order.
   */
  lemma InsertSpec(items: seq<State>, s: State)
    requires Sorted(items)
    ensures var r, i := Insert(items, s), InsertPos(items, Key(s));
      r == items[..i] + [s] + items[i..] &&
      (forall k :: 0 <= k < i ==> Key(items[k]) <= Key(s)) &&
      (forall k :: i <= k < |items| ==> Key(items[k]) > Key(s))
    ensures var r := Insert(items, s);
      Sorted(r) && |r| == |items| + 1 && multiset(r) == multiset(items) + multiset{s}
  {
    InsertPosSplit(items, Key(s));
    InsertSorted(items, s);
  }

  /** Enqueue keeps the queue sorted, adds exactly s and grows it by one. */
  lemma InsertSorted(items: seq<State>, s: State)
    requires Sorted(items)
    ensures var r := Insert(items, s);
      Sorted(r) && |r| == |items| + 1 && multiset(r) == multiset(items) + multiset{s}
  {
    var i := InsertPos(items, Key(s));
    var r := items[..i] + [s] + items[i..];
    InsertPosSplit(items, Key(s));
    SpliceIndex(items, i, s);
    assert items == items[..i] + items[i..];
    forall a, b | 0 <= a < b < |r|
      ensures Key(r[a]) <= Key(r[b])
    {
      if a < i && b > i {
        assert Key(r[a]) <= Key(items[b - 1]);
      }
    }
  }


  /** Enqueueing several states keeps the queue sorted and adds exactly them. */
  lemma {:induction false} InsertAllSpec(items: seq<State>, ss: seq<State>)
    requires Sorted(items)
    ensures var r := InsertAll(items, ss);
      Sorted(r) && |r| == |items| + |ss| && multiset(r) == multiset(items) + multiset(ss)
    decreases |ss|
  {
    if ss != [] {
      var init := ss[..|ss| - 1];
      InsertAllSpec(items, init);
      InsertSorted(InsertAll(items, init), ss[|ss| - 1]);
      assert ss == init + [ss[|ss| - 1]];
    }
  }

  /** The states after enqueue(s) are those before it and s. */
  lemma InsertMembers(items: seq<State>, s: State)
    ensures forall x :: x in Insert(items, s) <==> x in items || x == s
  {
    var i := InsertPos(items, Key(s));
    assert items == items[..i] + items[i..];
  }

  /** Enqueueing several states brings in no state other than them. */
  lemma {:induction false} InsertAllMembers(items: seq<State>, ss: seq<State>)
    ensures forall x :: x in InsertAll(items, ss) ==> x in items || x in ss
    decreases |ss|
  {
    if ss != [] {
      var init := ss[..|ss| - 1];
      InsertAllMembers(items, init);
      InsertMembers(InsertAll(items, init), ss[|ss| - 1]);
      forall x | x in init
        ensures x in ss
      {
        var k :| 0 <= k < |init| && init[k] == x;
        assert ss[k] == x;
      }
    }
  }

  /** Enqueueing the first k + 1 states is enqueueing the first k, then the next one. */
  lemma InsertAllStep(items: seq<State>, ss: seq<State>, k: int)
    requires 0 <= k < |ss|
    ensures InsertAll(items, ss[..k + 1]) == Insert(InsertAll(items, ss[..k]), ss[k])
  {
    assert ss[..k + 1][..k] == ss[..k];
  }

  /** The front of a sorted queue has the smallest priority, and the rest stays sorted. */
  lemma FrontIsMinimum(items: seq<State>)
    requires Sorted(items) && items != []
    ensures Sorted(items[1..]) && forall s :: s in items ==> Key(items[0]) <= Key(s)
  {
  }

  // ---------------------------------------------------------------------------
  // The linked list

  /** PriorityQueue.Node: a state with links to its neighbours in the queue. */
  class Node {
    var before: Node?
    var behind: Node?
    const data: State

    constructor (data: State, before: Node?, behind: Node?)
      ensures this.data == data && this.before == before && this.behind == behind
    {
      this.data := data;
      this.before := before;
      this.behind := behind;
    }
  }

  /** Every state is well formed. */
  ghost predicate AllReady(items: seq<State>)
  {
    forall s :: s in items ==> s.Ready()
  }

  /** Where each element of xs goes when x is put at position i. */
  lemma SpliceIndex<T>(xs: seq<T>, i: int, x: T)
    requires 0 <= i <= |xs|
    ensures var r := xs[..i] + [x] + xs[i..];
      |r| == |xs| + 1 && r[i] == x &&
      (forall k :: 0 <= k < i ==> r[k] == xs[k]) && (forall k :: i < k < |r| ==> r[k] == xs[k - 1])
  {
  }

  /** No node occurs twice in the chain. */
  ghost predicate Distinct(nodes: seq<Node>)
  {
    forall i, j :: 0 <= i < j < |nodes| ==> nodes[i] != nodes[j]
  }

  /** A node not yet in a chain of distinct nodes may be put anywhere in it. */
  lemma InsertDistinct(nodes: seq<Node>, i: int, n: Node)
    requires Distinct(nodes) && 0 <= i <= |nodes| && n !in nodes
    ensures Distinct(nodes[..i] + [n] + nodes[i..])
  {
    var r := nodes[..i] + [n] + nodes[i..];
    forall a, b | 0 <= a < b < |r|
      ensures r[a] != r[b]
    {
      if a < i && b < i {
        assert r[a] == nodes[a] && r[b] == nodes[b];
      } else if a < i && b > i {
        assert r[a] == nodes[a] && r[b] == nodes[b - 1];
      } else if a > i {
        assert r[a] == nodes[a - 1] && r[b] == nodes[b - 1];
      } else if a == i {
        assert r[b] == nodes[b - 1];
      } else {
        assert r[a] == nodes[a];
      }
    }
  }

  class PriorityQueue {
    var front: Node?
    var rear: Node?
    /** The nodes from front to rear, and the states they hold. */
    ghost var nodes: seq<Node>
    ghost var items: seq<State>
    ghost var NodeSet: set<Node>

    /**
     * front and rear are the ends of the chain of distinct nodes, whose before
     * and behind links join each node to its neighbours; each node holds the
     * state at its position.
     */
    ghost predicate Linked()
      reads this, NodeSet
    {
      |items| == |nodes| &&
      (forall k :: 0 <= k < |nodes| ==> nodes[k] in NodeSet && nodes[k].data == items[k]) &&
      Distinct(nodes) &&
      (if nodes == [] then front == null && rear == null else front == nodes[0] && rear == nodes[|nodes| - 1]) &&
      (nodes != [] ==> nodes[0].before == null && nodes[|nodes| - 1].behind == null) &&
      (forall k :: 0 <= k < |nodes| - 1 ==> nodes[k].behind == nodes[k + 1] && nodes[k + 1].before == nodes[k])
    }

    /** The states held. */
    ghost function States(): set<State>
      reads this
    {
      set s | s in items
    }

    /** A linked chain of well-formed states in non-decreasing order of priority. */
    ghost predicate Valid()
      reads this, NodeSet
    {
      Linked() && Sorted(items) && AllReady(items)
    }

    /** A new queue is empty. */
    constructor ()
      ensures Valid() && items == [] && NodeSet == {}
    {
      front := null;
      rear := null;
      nodes := [];
      items := [];
      NodeSet := {};
    }

    /** The first node: a queue with no front gets a single node for state. */
    method Start(state: State)
      requires Linked() && front == null
      modifies this
      ensures Linked() && |nodes| == 1 && fresh(nodes[0])
      ensures items == [state] && NodeSet == old(NodeSet) + {nodes[0]}
    {
      var newNode := new Node(state, null, null);
      front := newNode;
      rear := newNode;
      nodes := [newNode];
      items := [state];
      NodeSet := NodeSet + {newNode};
    }

    /** Insertion at the rear: a new node for state behind the old rear. */
    method Append(state: State)
      requires Linked() && nodes != []
      modifies this, rear
      ensures Linked() && nodes == old(nodes) + [rear] && fresh(rear)
      ensures items == old(items) + [state] && NodeSet == old(NodeSet) + {rear}
    {
      ghost var ns := nodes;
      var newNode := new Node(state, rear, null);
      rear.behind := newNode;
      rear := newNode;
      nodes := nodes + [newNode];
      items := items + [state];
      NodeSet := NodeSet + {newNode};
      forall k | 0 <= k < |nodes| - 2
        ensures nodes[k].behind == nodes[k + 1] && nodes[k + 1].before == nodes[k]
      {
        assert nodes[k] == ns[k] && nodes[k + 1] == ns[k + 1];
        assert ns[k] != ns[|ns| - 1];
      }
      assert nodes[0] == ns[0];
      forall k | 0 <= k < |nodes|
        ensures nodes[k] in NodeSet && nodes[k].data == items[k]
      {
        if k < |ns| {
          assert nodes[k] == ns[k];
        }
      }
    }

    /** Insertion at the front: a new node for state ahead of the old front. */
    method PushFront(state: State)
      requires Linked() && nodes != []
      modifies this, front
      ensures Linked() && nodes == [front] + old(nodes) && fresh(front)
      ensures items == [state] + old(items) && NodeSet == old(NodeSet) + {front}
    {
      ghost var ns := nodes;
      var newNode := new Node(state, null, front);
      front.before := newNode;
      front := newNode;
      nodes := [newNode] + nodes;
      items := [state] + items;
      NodeSet := NodeSet + {newNode};
      forall k | 1 <= k < |nodes| - 1
        ensures nodes[k].behind == nodes[k + 1] && nodes[k + 1].before == nodes[k]
      {
        assert nodes[k] == ns[k - 1] && nodes[k + 1] == ns[k];
        assert ns[k] != ns[0];
      }
      assert nodes[1] == ns[0] && nodes[|nodes| - 1] == ns[|ns| - 1];
      forall k | 0 <= k < |nodes|
        ensures nodes[k] in NodeSet && nodes[k].data == items[k]
      {
        if k > 0 {
          assert nodes[k] == ns[k - 1];
        }
      }
    }

    /**
     * Insertion in the middle: a new node for state between currentNode, at
     * position i - 1, and the node behind it.
     */
    method InsertBehind(currentNode: Node, ghost i: int, state: State)
      requires Linked() && 1 <= i < |nodes| && currentNode == nodes[i - 1]
      modifies this, currentNode, currentNode.behind
      ensures Linked() && |nodes| == |old(nodes)| + 1 && fresh(nodes[i])
      ensures nodes == old(nodes)[..i] + [nodes[i]] + old(nodes)[i..]
      ensures items == old(items)[..i] + [state] + old(items)[i..]
      ensures NodeSet == old(NodeSet) + {nodes[i]}
      ensures front == old(front) && rear == old(rear)
    {
      ghost var ns := nodes;
      assert ns[i - 1].behind == ns[i];
      var next := currentNode.behind;
      var newNode := new Node(state, currentNode, next);
      next.before := newNode;
      currentNode.behind := newNode;
      SpliceIndex(nodes, i, newNode);
      SpliceIndex(items, i, state);
      InsertDistinct(ns, i, newNode);
      nodes := nodes[..i] + [newNode] + nodes[i..];
      items := items[..i] + [state] + items[i..];
      NodeSet := NodeSet + {newNode};
      forall k | 0 <= k < i - 1
        ensures nodes[k].behind == nodes[k + 1] && nodes[k + 1].before == nodes[k]
      {
        assert ns[k] != ns[i - 1] && ns[k] != ns[i] && ns[k + 1] != ns[i];
      }
      forall k | i < k < |nodes| - 1
        ensures nodes[k].behind == nodes[k + 1] && nodes[k + 1].before == nodes[k]
      {
        assert ns[k - 1] != ns[i - 1] && ns[k] != ns[i - 1] && ns[k] != ns[i];
      }
    }

    /** Removal of the front node; the node behind it (if any) becomes the front. */
    method RemoveFront()
      requires Linked() && nodes != []
      modifies this, front.behind
      ensures Linked() && nodes == old(nodes)[1..] && items == old(items)[1..] && NodeSet == old(NodeSet)
    {
      ghost var ns := nodes;
      if front.behind == null {
        front := null;
        rear := null;
      } else {
        assert ns[0].behind == ns[1];
        front := front.behind;
        front.before := null;
      }
      nodes := nodes[1..];
      items := items[1..];
      forall k | 0 <= k < |nodes| - 1
        ensures nodes[k].behind == nodes[k + 1] && nodes[k + 1].before == nodes[k]
      {
        assert nodes[k] == ns[k + 1] && nodes[k + 1] == ns[k + 2];
        assert ns[k + 2] != ns[1];
      }
    }

    /**
     * The walk of enqueue from the rear towards the front, past every node
     * whose priority exceeds p; it stops at the first node (from the rear)
     * whose priority is at most p, or at null.
     */
    method Walk(p: int) returns (currentNode: Node?, ghost j: int)
      requires Valid() && nodes != [] && Key(items[|items| - 1]) > p
      ensures -1 <= j < |nodes| - 1 && currentNode == (if j < 0 then null else nodes[j])
      ensures forall k :: j < k < |items| ==> Key(items[k]) > p
      ensures j >= 0 ==> Key(items[j]) <= p
    {
      currentNode := rear;
      j := |nodes| - 1;
      while currentNode != null
        invariant -1 <= j < |nodes| && currentNode == (if j < 0 then null else nodes[j])
        invariant forall k :: j < k < |items| ==> Key(items[k]) > p
        decreases j
      {
        assert items[j] in items;
        var currentPriority := currentNode.data.GetPriority();
        if currentPriority <= p {
          return;
        }
        currentNode := currentNode.before;
        j := j - 1;
      }
    }

    /**
     * enqueue: into an empty queue the state goes in alone; otherwise it goes
     * behind the rear when the rear's priority is at most its own, else behind
     * the last node from the rear whose priority is at most its own, or at the
     * front when there is none.
     */
    method Enqueue(state: State) returns (ghost newNode: Node)
      requires Valid() && state.Ready()
      modifies this, NodeSet
      ensures Valid() && items == Insert(old(items), state)
      ensures NodeSet == old(NodeSet) + {newNode} && fresh(newNode)
    {
      if front == null {
        newNode := EnqueueFirst(state);
      } else {
        var priority := state.GetPriority();
        assert items[|nodes| - 1] in items;
        var rearPriority := rear.data.GetPriority();
        if rearPriority <= priority {
          newNode := EnqueueRear(state, priority);
        } else {
          newNode := EnqueueWalking(state, priority);
        }
      }
    }

    /**
     * enqueue when the rear's priority exceeds the new one: the walk from the
     * rear decides between the front and a place behind some node.
     */
    method EnqueueWalking(state: State, priority: int) returns (ghost newNode: Node)
      requires Valid() && state.Ready() && priority == Key(state)
      requires nodes != [] && Key(items[|items| - 1]) > priority
      modifies this, NodeSet
      ensures Valid() && items == Insert(old(items), state)
      ensures NodeSet == old(NodeSet) + {newNode} && fresh(newNode)
    {
      var currentNode, j := Walk(priority);
      if currentNode == null {
        newNode := EnqueueFront(state, priority);
      } else {
        assert currentNode.behind == nodes[j + 1];
        newNode := EnqueueBehind(currentNode, j, state, priority);
      }
    }

    /** enqueue into an empty queue. */
    method EnqueueFirst(state: State) returns (ghost newNode: Node)
      requires Valid() && state.Ready() && front == null
      modifies this
      ensures Valid() && items == Insert(old(items), state)
      ensures NodeSet == old(NodeSet) + {newNode} && fresh(newNode)
    {
      ghost var xs := items;
      Start(state);
      newNode := nodes[0];
      InsertPosAt(xs, Key(state), 0);
      InsertedValid(xs, state);
    }

    /** enqueue when the rear's priority is at most the new one. */
    method EnqueueRear(state: State, priority: int) returns (ghost newNode: Node)
      requires Valid() && state.Ready() && priority == Key(state)
      requires nodes != [] && Key(items[|items| - 1]) <= priority
      modifies this, rear
      ensures Valid() && items == Insert(old(items), state)
      ensures NodeSet == old(NodeSet) + {newNode} && fresh(newNode)
    {
      ghost var xs := items;
      Append(state);
      newNode := rear;
      InsertPosAt(xs, priority, |xs|);
      InsertedValid(xs, state);
    }

    /** enqueue when every state has a larger priority than the new one. */
    method EnqueueFront(state: State, priority: int) returns (ghost newNode: Node)
      requires Valid() && state.Ready() && priority == Key(state) && nodes != []
      requires forall k :: 0 <= k < |items| ==> Key(items[k]) > priority
      modifies this, front
      ensures Valid() && items == Insert(old(items), state)
      ensures NodeSet == old(NodeSet) + {newNode} && fresh(newNode)
    {
      ghost var xs := items;
      PushFront(state);
      newNode := front;
      InsertPosAt(xs, priority, 0);
      InsertedValid(xs, state);
    }

    /**
     * enqueue behind currentNode, at position j, whose priority is at most the
     * new one while every state behind it has a larger one.
     */
    method EnqueueBehind(currentNode: Node, ghost j: int, state: State, priority: int) returns (ghost newNode: Node)
      requires Valid() && state.Ready() && priority == Key(state)
      requires 0 <= j < |nodes| - 1 && currentNode == nodes[j] && Key(items[j]) <= priority
      requires forall k :: j < k < |items| ==> Key(items[k]) > priority
      modifies this, currentNode, currentNode.behind
      ensures Valid() && items == Insert(old(items), state)
      ensures NodeSet == old(NodeSet) + {newNode} && fresh(newNode)
    {
      ghost var xs := items;
      InsertBehind(currentNode, j + 1, state);
      newNode := nodes[j + 1];
      InsertPosAt(xs, priority, j + 1);
      InsertedValid(xs, state);
    }

    /** A chain holding a sorted queue of well-formed states with s enqueued is valid. */
    lemma InsertedValid(xs: seq<State>, s: State)
      requires Linked() && Sorted(xs) && AllReady(xs) && s.Ready() && items == Insert(xs, s)
      ensures Valid()
    {
      InsertSpec(xs, s);
      InsertMembers(xs, s);
    }

    /** The front leaves the queue; the rest stays sorted and valid. */
    method PopFront() returns (first: State)
      requires Valid() && nodes != []
      modifies this, front.behind
      ensures Valid() && first == old(items)[0] && items == old(items)[1..] && NodeSet == old(NodeSet)
      ensures first.Ready() && forall s :: s in old(items) ==> Key(first) <= Key(s)
    {
      assert items[0] in items;
      first := front.data;
      ghost var xs := items;
      RemoveFront();
      FrontIsMinimum(xs);
      assert forall s :: s in items ==> s in xs;
    }

    /** The loop of dequeue that enqueues each neighbour in turn. */
    method EnqueueAll(ss: seq<State>)
      requires Valid() && forall k :: 0 <= k < |ss| ==> ss[k].Ready()
      modifies this, NodeSet
      ensures Valid() && items == InsertAll(old(items), ss)
      ensures forall n :: n in NodeSet ==> n in old(NodeSet) || fresh(n)
    {
      for k := 0 to |ss|
        invariant Valid() && items == InsertAll(old(items), ss[..k])
        invariant forall n :: n in NodeSet ==> n in old(NodeSet) || fresh(n)
      {
        var newNode := Enqueue(ss[k]);
        InsertAllStep(old(items), ss, k);
      }
      assert ss[..|ss|] == ss;
    }

    /**
     * dequeue: None on an empty queue; otherwise the front state, which has
     * the smallest priority, leaves the queue and each of its neighbours is
     * enqueued in the order getNeighbors lists them.
     */
    method Dequeue() returns (out: Option<State>, ghost nextStates: seq<State>)
      requires Valid()
      modifies this, NodeSet
      ensures Valid() && forall n :: n in NodeSet ==> n in old(NodeSet) || fresh(n)
      ensures old(items) == [] ==> out == None && items == []
      ensures old(items) != [] ==>
        out == Some(old(items)[0]) && (forall s :: s in old(items) ==> Key(out.value) <= Key(s)) &&
        out.value.Ready() &&
        out.value.Children(nextStates, NeighbourMoves(out.value.numRows, out.value.numCols, BlankCell(out.value.board).value, out.value.prevMove)) &&
        items == InsertAll(old(items)[1..], nextStates) && |items| >= 1
    {
      if front == null {
        return None, [];
      }
      assert front.behind != null ==> front.behind == nodes[1];
      var first := PopFront();
      var neighbours := first.GetNeighbors();
      nextStates := neighbours;
      EnqueueNeighbours(first, neighbours);
      out := Some(first);
    }

    /** The neighbours of a dequeued state, enqueued in turn, leave the queue non-empty. */
    method EnqueueNeighbours(first: State, neighbours: seq<State>)
      requires Valid() && first.Ready()
      requires first.Children(neighbours, NeighbourMoves(first.numRows, first.numCols, BlankCell(first.board).value, first.prevMove))
      modifies this, NodeSet
      ensures Valid() && items == InsertAll(old(items), neighbours) && |items| >= 1
      ensures forall n :: n in NodeSet ==> n in old(NodeSet) || fresh(n)
    {
      first.ChildrenReady(neighbours);
      ghost var xs := items;
      EnqueueAll(neighbours);
      InsertAllSpec(xs, neighbours);
    }
  }
}
