/** The doubly linked list used throughout the server, refined to the sequence of its nodes. */
module LinkedList {
  import opened Collections

  class Node<T> {
    var prev: Node?<T>
    var next: Node?<T>
    const value: T

    constructor (value: T)
      ensures this.value == value && prev == null && next == null
    {
      this.value := value;
      prev, next := null, null;
    }
  }

  /** The node at a position, null outside. */
  function At<T>(s: seq<Node<T>>, i: int): Node?<T> {
    if 0 <= i < |s| then s[i] else null
  }

  /** The node at i points to its neighbours in the sequence. */
  ghost predicate NodeOk<T>(s: seq<Node<T>>, i: nat)
    requires i < |s|
    reads s[i]
  {
    s[i].prev == At(s, i - 1) && s[i].next == At(s, i + 1)
  }

  ghost predicate Linked<T>(s: seq<Node<T>>)
    reads s
  {
    Distinct(s) && forall i :: 0 <= i < |s| ==> NodeOk(s, i)
  }

  function Values<T>(s: seq<Node<T>>): seq<T> {
    seq(|s|, i requires 0 <= i < |s| => s[i].value)
  }

  class List<T(==)> {
    var head: Node?<T>
    var tail: Node?<T>
    var len: nat
    ghost var nodes: seq<Node<T>>

    ghost predicate Valid()
      reads this, nodes
    {
      && Linked(nodes) && len == |nodes|
      && head == At(nodes, 0) && tail == At(nodes, |nodes| - 1)
    }

    constructor ()
      ensures Valid() && nodes == []
    {
      head, tail, len, nodes := null, null, 0, [];
    }

    method LinkHead(node: Node<T>)
      requires Valid() && node !in nodes
      modifies this, nodes, node
      ensures Valid() && nodes == [node] + old(nodes)
    {
      ghost var was := nodes;
      if len == 0 {
        head, tail := node, node;
        node.prev, node.next := null, null;
      } else {
        node.prev := null;
        node.next := head;
        head.prev := node;
        head := node;
      }
      len := len + 1;
      nodes := [node] + nodes;
      forall i | 0 <= i < |nodes| ensures NodeOk(nodes, i) {
        if i > 0 { assert old(NodeOk(was, i - 1)); }
      }
    }

    method LinkTail(node: Node<T>)
      requires Valid() && node !in nodes
      modifies this, nodes, node
      ensures Valid() && nodes == old(nodes) + [node]
    {
      ghost var was := nodes;
      if len == 0 {
        head, tail := node, node;
        node.prev, node.next := null, null;
      } else {
        node.prev := tail;
        node.next := null;
        tail.next := node;
        tail := node;
      }
      len := len + 1;
      nodes := nodes + [node];
      forall i | 0 <= i < |nodes| ensures NodeOk(nodes, i) {
        if i < |was| { assert old(NodeOk(was, i)); }
      }
    }

    method AddNodeHead(value: T)
      requires Valid()
      modifies this, nodes
      ensures Valid() && |nodes| == |old(nodes)| + 1 && nodes[1..] == old(nodes) && nodes[0].value == value
      ensures fresh(nodes[0])
    {
      var node := new Node<T>(value);
      LinkHead(node);
    }

    method AddNodeTail(value: T)
      requires Valid()
      modifies this, nodes
      ensures Valid() && |nodes| == |old(nodes)| + 1 && nodes[..|old(nodes)|] == old(nodes)
      ensures nodes[|old(nodes)|].value == value && fresh(nodes[|old(nodes)|])
    {
      var node := new Node<T>(value);
      LinkTail(node);
    }

    /** listInsertNode; i is the place of the old node. */
    method InsertNode(oldNode: Node<T>, value: T, after: bool, ghost i: nat)
      requires Valid() && i < |nodes| && nodes[i] == oldNode
      modifies this, nodes
      ensures Valid() && |nodes| == |old(nodes)| + 1
      ensures var k := if after then i + 1 else i;
              && nodes == old(nodes)[..k] + [nodes[k]] + old(nodes)[k..]
              && nodes[k].value == value && fresh(nodes[k])
    {
      ghost var was := nodes;
      assert NodeOk(was, i);
      var node := new Node<T>(value);
      if after {
        node.prev := oldNode;
        node.next := oldNode.next;
        if tail == oldNode {
          tail := node;
        }
      } else {
        node.next := oldNode;
        node.prev := oldNode.prev;
        if head == oldNode {
          head := node;
        }
      }
      Splice(node, if after then i + 1 else i);
    }

    /** The end of listInsertNode: the neighbours of a node that knows them learn of it. */
    method Splice(node: Node<T>, ghost k: nat)
      requires Linked(nodes) && len == |nodes| > 0 && k <= |nodes| && node !in nodes
      requires node.prev == At(nodes, k - 1) && node.next == At(nodes, k)
      requires head == (if k == 0 then node else nodes[0])
      requires tail == (if k == |nodes| then node else nodes[|nodes| - 1])
      modifies this, nodes, node
      ensures Valid() && nodes == old(nodes)[..k] + [node] + old(nodes)[k..]
    {
      ghost var was := nodes;
      if node.prev != null {
        node.prev.next := node;
      }
      if node.next != null {
        node.next.prev := node;
      }
      len := len + 1;
      nodes := nodes[..k] + [node] + nodes[k..];
      forall j | 0 <= j < |nodes| ensures NodeOk(nodes, j) {
        if j < k {
          assert old(NodeOk(was, j)) && nodes[j] == was[j];
        } else if j > k {
          assert old(NodeOk(was, j - 1)) && nodes[j] == was[j - 1];
        }
      }
    }

    /** listUnlinkNode; i is the place of the node. */
    method UnlinkNode(node: Node<T>, ghost i: nat)
      requires Valid() && i < |nodes| && nodes[i] == node
      modifies this, nodes
      ensures Valid() && nodes == old(nodes)[..i] + old(nodes)[i + 1..] && node.prev == null && node.next == null
    {
      ghost var was := nodes;
      assert NodeOk(was, i);
      if node.prev != null {
        node.prev.next := node.next;
      } else {
        head := node.next;
      }
      if node.next != null {
        node.next.prev := node.prev;
      } else {
        tail := node.prev;
      }
      node.next := null;
      node.prev := null;
      len := len - 1;
      nodes := nodes[..i] + nodes[i + 1..];
      forall j | 0 <= j < |nodes| ensures NodeOk(nodes, j) {
        if j < i {
          assert old(NodeOk(was, j)) && nodes[j] == was[j];
        } else {
          assert old(NodeOk(was, j + 1)) && nodes[j] == was[j + 1];
        }
      }
    }

    /** listJoin: the other list's nodes are moved to the end of this one. */
    method Join(other: List<T>)
      requires Valid() && other.Valid() && other != this && forall n :: n in nodes ==> n !in other.nodes
      modifies this, nodes, other, other.nodes
      ensures Valid() && nodes == old(nodes) + old(other.nodes)
      ensures other.Valid() && other.nodes == []
    {
      if other.len == 0 {
        return;
      }
      ghost var a, b := nodes, other.nodes;
      Apart(a, b);
      other.head.prev := tail;
      if tail != null {
        tail.next := other.head;
      } else {
        head := other.head;
      }
      tail := other.tail;
      len := len + other.len;
      nodes := a + b;
      other.head, other.tail, other.len, other.nodes := null, null, 0, [];
      forall i | 0 <= i < |nodes| ensures NodeOk(nodes, i) {
        if i < |a| {
          assert old(NodeOk(a, i));
        } else {
          assert old(NodeOk(b, i - |a|));
        }
      }
    }

    method RotateTailToHead()
      requires Valid()
      modifies this, nodes
      ensures Valid() && nodes == if |old(nodes)| <= 1 then old(nodes)
                else [old(nodes)[|old(nodes)| - 1]] + old(nodes)[..|old(nodes)| - 1]
    {
      if len <= 1 {
        return;
      }
      ghost var was, n := nodes, |nodes|;
      assert NodeOk(was, n - 1);
      var last := tail;
      tail := last.prev;
      tail.next := null;
      head.prev := last;
      last.prev := null;
      last.next := head;
      head := last;
      nodes := [was[n - 1]] + was[..n - 1];
      forall i | 0 <= i < n ensures NodeOk(nodes, i) {
        if i > 0 { assert old(NodeOk(was, i - 1)); }
      }
    }

    method RotateHeadToTail()
      requires Valid()
      modifies this, nodes
      ensures Valid() && nodes == if |old(nodes)| <= 1 then old(nodes) else old(nodes)[1..] + [old(nodes)[0]]
    {
      if len <= 1 {
        return;
      }
      ghost var was, n := nodes, |nodes|;
      assert NodeOk(was, 0);
      var first := head;
      head := first.next;
      head.prev := null;
      tail.next := first;
      first.next := null;
      first.prev := tail;
      tail := first;
      nodes := was[1..] + [was[0]];
      forall i | 0 <= i < n ensures NodeOk(nodes, i) {
        if i < n - 1 { assert old(NodeOk(was, i + 1)) && nodes[i] == was[i + 1]; }
      }
    }

    /** listIndex: negative indices count from the tail. */
    method Index(index: int) returns (n: Node?<T>)
      requires Valid()
      ensures n == At(nodes, if index < 0 then |nodes| + index else index)
    {
      var i: nat := if index < 0 then -index - 1 else index;
      ghost var at: int := if index < 0 then |nodes| - 1 else 0;
      n := if index < 0 then tail else head;
      while i > 0 && n != null
        invariant n == At(nodes, at)
        invariant if index < 0 then at - i == |nodes| + index && at < |nodes| else at + i == index && at >= 0
        decreases i
      {
        assert NodeOk(nodes, at);
        n := if index < 0 then n.prev else n.next;
        at := if index < 0 then at - 1 else at + 1;
        i := i - 1;
      }
    }

    /** listSearchKey without a match callback: the first node with the value. */
    method SearchKey(key: T) returns (n: Node?<T>, ghost at: nat)
      requires Valid()
      ensures n == null ==> forall i :: 0 <= i < |nodes| ==> nodes[i].value != key
      ensures n != null ==> at < |nodes| && n == nodes[at] && n.value == key
      ensures n != null ==> forall i :: 0 <= i < at ==> nodes[i].value != key
    {
      n, at := head, 0;
      while n != null
        invariant at <= |nodes| && n == At(nodes, at) && forall i :: 0 <= i < at ==> nodes[i].value != key
        decreases |nodes| - at
      {
        if n.value == key {
          return;
        }
        assert NodeOk(nodes, at);
        n := n.next;
        at := at + 1;
      }
    }

    /** listDup without a dup callback: a list of new nodes with the same values. */
    method Dup() returns (copy: List<T>)
      requires Valid()
      ensures fresh(copy) && fresh(copy.nodes) && copy.Valid() && Values(copy.nodes) == Values(nodes)
    {
      copy := new List<T>();
      var n := head;
      ghost var at := 0;
      while n != null
        invariant fresh(copy) && fresh(copy.nodes) && copy.Valid()
        invariant at <= |nodes| == |old(nodes)| && nodes == old(nodes) && Valid() && n == At(nodes, at)
        invariant |copy.nodes| == at && forall i :: 0 <= i < at ==> copy.nodes[i].value == nodes[i].value
        decreases |nodes| - at
      {
        ghost var before := copy.nodes;
        copy.AddNodeTail(n.value);
        assert forall i :: 0 <= i < at ==> copy.nodes[i] == copy.nodes[..at][i] == before[i];
        assert NodeOk(nodes, at);
        n := n.next;
        at := at + 1;
      }
    }

    /** One turn of a walk from the head: `rest` is still to come, and the node returned may be deleted. */
    method VisitOne(iter: Iter<T>, delete: bool, ghost kept: seq<Node<T>>, ghost rest: seq<Node<T>>,
                    ghost was: seq<Node<T>>) returns (n: Node<T>)
      requires Valid() && Within(nodes, was) && |rest| > 0 && nodes == kept + rest && iter.fromHead
      requires iter.next == rest[0]
      modifies this, was, iter
      ensures Valid() && n == rest[0] && iter.next == At(rest, 1)
      ensures nodes == (if delete then kept + rest[1..] else kept + rest) && Within(nodes, was)
    {
      assert nodes[|kept|] == rest[0] && NodeOk(nodes, |kept|);
      n := iter.Next();
      if delete {
        UnlinkNode(n, |kept|);
      }
    }

    /** One turn of a walk from the tail. */
    method VisitOneBack(iter: Iter<T>, delete: bool, ghost kept: seq<Node<T>>, ghost rest: seq<Node<T>>,
                        ghost was: seq<Node<T>>) returns (n: Node<T>)
      requires Valid() && Within(nodes, was) && |rest| > 0 && nodes == rest + kept && !iter.fromHead
      requires iter.next == rest[|rest| - 1]
      modifies this, was, iter
      ensures Valid() && n == rest[|rest| - 1] && iter.next == At(rest, |rest| - 2)
      ensures nodes == (if delete then rest[..|rest| - 1] + kept else rest + kept) && Within(nodes, was)
    {
      ghost var k := |rest| - 1;
      assert nodes[k] == rest[k] && NodeOk(nodes, k);
      n := iter.Next();
      if delete {
        UnlinkNode(n, k);
      }
    }

    /** Walking the list from the head with an iterator and deleting some of the nodes just returned: every
        node the list had is returned exactly once, in order, and those not deleted are left. */
    method VisitFromHead(doomed: set<nat>) returns (ghost visited: seq<Node<T>>)
      requires Valid()
      modifies this, nodes
      ensures Valid() && visited == old(nodes) && nodes == Keep(old(nodes), doomed, |old(nodes)|)
    {
      hide Keep, Linked, Distinct, NodeOk, Within;
      WithinItself(nodes);
      ghost var was, kept, rest := nodes, [], nodes;
      var iter := new Iter<T>(head, true);
      visited := [];
      var i := 0;
      KeepNone(was, doomed);
      while iter.next != null
        invariant Valid() && fresh(iter) && iter.fromHead && visited + rest == was && |visited| == i
        invariant kept == Keep(was, doomed, i) && nodes == kept + rest && Within(nodes, was)
        invariant iter.next == At(rest, 0)
        decreases |rest|
      {
        KeepStep(was, doomed, i);
        Shift(visited, rest);
        Shift(kept, rest);
        var n := VisitOne(iter, i in doomed, kept, rest, was);
        kept := if i in doomed then kept else kept + [n];
        visited, rest := visited + [n], rest[1..];
        i := i + 1;
      }
      assert visited == was;
    }

    /** The same from the tail. */
    method VisitFromTail(doomed: set<nat>) returns (ghost visited: seq<Node<T>>)
      requires Valid()
      modifies this, nodes
      ensures Valid() && visited == Reversed(old(nodes)) && nodes == KeepFrom(old(nodes), doomed, 0)
    {
      hide KeepFrom, Linked, Reversed, Distinct, NodeOk, Within;
      WithinItself(nodes);
      ghost var was, kept, rest := nodes, [], nodes;
      var iter := new Iter<T>(tail, false);
      visited := [];
      ghost var done: seq<Node<T>> := [];
      var i: nat := len;
      KeepFromNone(was, doomed);
      while iter.next != null
        invariant Valid() && fresh(iter) && !iter.fromHead && rest + done == was && |rest| == i
        invariant visited == Reversed(done)
        invariant kept == KeepFrom(was, doomed, i) && nodes == rest + kept && Within(nodes, was)
        invariant iter.next == At(rest, i - 1)
        decreases i
      {
        BackStep(was, rest, done, kept, doomed, i);
        var n := VisitOneBack(iter, i - 1 in doomed, kept, rest, was);
        kept := if i - 1 in doomed then kept else [n] + kept;
        done, rest := [n] + done, rest[..i - 1];
        visited := visited + [n];
        i := i - 1;
      }
      assert done == was;
    }
  }

  lemma Apart<T>(a: seq<Node<T>>, b: seq<Node<T>>)
    requires forall n :: n in a ==> n !in b
    ensures forall i, j :: 0 <= i < |a| && 0 <= j < |b| ==> a[i] != b[j]
  {
    forall i, j | 0 <= i < |a| && 0 <= j < |b| ensures a[i] != b[j] {
      assert a[i] in a && b[j] in b;
    }
  }

  ghost predicate Within<T>(s: seq<Node<T>>, t: seq<Node<T>>) {
    forall k :: 0 <= k < |s| ==> s[k] in t
  }

  lemma Shift<T>(a: seq<T>, b: seq<T>)
    requires |b| > 0
    ensures (a + [b[0]]) + b[1..] == a + b
  {
  }

  lemma ShiftBack<T>(a: seq<T>, b: seq<T>)
    requires |a| > 0
    ensures a[..|a| - 1] + ([a[|a| - 1]] + b) == a + b
  {
  }

  /** One step of the walk from the tail, on the sequences. */
  lemma BackStep<T>(was: seq<T>, rest: seq<T>, done: seq<T>, kept: seq<T>, doomed: set<nat>, i: nat)
    requires rest + done == was && |rest| == i > 0
    ensures var n := rest[i - 1];
            && rest[..i - 1] + ([n] + done) == was && rest[..i - 1] + ([n] + kept) == rest + kept
            && Reversed([n] + done) == Reversed(done) + [n]
            && KeepFrom(was, doomed, i - 1)
            == if i - 1 in doomed then KeepFrom(was, doomed, i) else [n] + KeepFrom(was, doomed, i)
  {
    hide KeepFrom, Reversed;
    KeepFromStep(was, doomed, i - 1);
    ReversedCons(rest[i - 1], done);
    ShiftBack(rest, done);
    ShiftBack(rest, kept);
  }

  lemma WithinItself<T>(s: seq<Node<T>>)
    ensures Within(s, s)
  {
  }

  lemma KeepNone<T>(s: seq<T>, doomed: set<nat>)
    ensures Keep(s, doomed, 0) == []
  {
  }

  lemma KeepStep<T>(s: seq<T>, doomed: set<nat>, i: nat)
    requires i < |s|
    ensures Keep(s, doomed, i + 1) == if i in doomed then Keep(s, doomed, i) else Keep(s, doomed, i) + [s[i]]
  {
  }

  lemma KeepFromNone<T>(s: seq<T>, doomed: set<nat>)
    ensures KeepFrom(s, doomed, |s|) == [] && Reversed<T>([]) == []
  {
  }

  lemma KeepFromStep<T>(s: seq<T>, doomed: set<nat>, i: nat)
    requires i < |s|
    ensures KeepFrom(s, doomed, i) == if i in doomed then KeepFrom(s, doomed, i + 1)
              else [s[i]] + KeepFrom(s, doomed, i + 1)
  {
  }

  lemma ReversedCons<T>(x: T, s: seq<T>)
    ensures Reversed([x] + s) == Reversed(s) + [x]
  {
    assert ([x] + s)[1..] == s;
  }

  function Reversed<T>(s: seq<T>): seq<T> {
    if s == [] then [] else Reversed(s[1..]) + [s[0]]
  }

  /** The nodes from place n on that are not doomed. */
  function KeepFrom<T>(s: seq<T>, doomed: set<nat>, n: nat): seq<T>
    requires n <= |s|
    decreases |s| - n
  {
    if n == |s| then [] else (if n in doomed then [] else [s[n]]) + KeepFrom(s, doomed, n + 1)
  }

  /** The nodes among the first n that are not doomed. */
  function Keep<T>(s: seq<T>, doomed: set<nat>, n: nat): seq<T>
    requires n <= |s|
  {
    if n == 0 then [] else Keep(s, doomed, n - 1) + (if n - 1 in doomed then [] else [s[n - 1]])
  }

  class Iter<T> {
    var next: Node?<T>
    const fromHead: bool

    constructor (start: Node?<T>, fromHead: bool)
      ensures next == start && this.fromHead == fromHead
    {
      next := start;
      this.fromHead := fromHead;
    }

    /** listNext: steps on before returning, so the node returned may be deleted. */
    method Next() returns (current: Node?<T>)
      modifies this
      ensures current == old(next)
      ensures current != null ==> next == if fromHead then current.next else current.prev
      ensures current == null ==> next == null
    {
      current := next;
      if current != null {
        if fromHead {
          next := current.next;
        } else {
          next := current.prev;
        }
      }
    }
  }
}
