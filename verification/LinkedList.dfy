/** src/linklist.c and src/linklist.h: the doubly linked list and its pointer surgery.

    `nodes` is the abstract value: the nodes in list order.  `Valid` says that the head and
    tail pointers, the links in both directions and the counter all agree with it. */
module LinkedList {

  /** `struct listnode`. */
  class Node<T> {
    var next: Node?<T>
    var prev: Node?<T>
    var data: T

    constructor (val: T, prev: Node?<T>)
      ensures this.data == val && this.prev == prev && this.next == null
    {
      this.data := val;
      this.prev := prev;
      this.next := null;
    }
  }

  /** `pos` gives each node its position; so no node occurs twice. */
  ghost predicate Indexed<T>(ns: seq<Node<T>>, pos: map<Node<T>, int>) {
    forall i {:trigger ns[i]} :: 0 <= i < |ns| ==> ns[i] in pos && pos[ns[i]] == i
  }

  /** `s` without its element at position `k`. */
  function Without<X>(s: seq<X>, k: nat): seq<X>
    requires k < |s|
  {
    seq(|s| - 1, i requires 0 <= i < |s| - 1 => s[if i < k then i else i + 1])
  }

  /** The position of the first occurrence. */
  function FirstAt<X(==)>(s: seq<X>, x: X): (k: nat)
    requires x in s
    ensures k < |s| && s[k] == x
  {
    if s[0] == x then 0 else 1 + FirstAt(s[1..], x)
  }

  lemma {:induction false} FirstAtIs<X>(s: seq<X>, x: X, k: nat)
    requires k < |s| && s[k] == x && forall i :: 0 <= i < k ==> s[i] != x
    ensures FirstAt(s, x) == k
  {
    if k > 0 {
      FirstAtIs(s[1..], x, k - 1);
    }
  }

  /** The element at position `i`, NULL beyond either end. */
  function At<T>(ns: seq<Node<T>>, i: int): Node?<T> {
    if 0 <= i < |ns| then ns[i] else null
  }

  ghost predicate NextLinks<T>(ns: seq<Node<T>>)
    reads ns`next
  {
    forall i {:trigger ns[i].next} :: 0 <= i < |ns| ==> ns[i].next == At(ns, i + 1)
  }

  ghost predicate PrevLinks<T>(ns: seq<Node<T>>)
    reads ns`prev
  {
    forall i {:trigger ns[i].prev} :: 0 <= i < |ns| ==> ns[i].prev == At(ns, i - 1)
  }

  ghost predicate Holds<T>(ns: seq<Node<T>>, d: seq<T>)
    reads ns`data
  {
    |ns| == |d| && forall i {:trigger ns[i].data} :: 0 <= i < |ns| ==> ns[i].data == d[i]
  }

  ghost function PosWithout<T>(pos: map<Node<T>, int>, n: Node<T>, k: nat): map<Node<T>, int> {
    map m | m in pos && m != n :: if pos[m] > k then pos[m] - 1 else pos[m]
  }

  lemma WithoutEnds<T>(ns: seq<Node<T>>, pos: map<Node<T>, int>, k: nat)
    requires k < |ns| && Indexed(ns, pos)
    ensures Indexed(Without(ns, k), PosWithout(pos, ns[k], k)) && ns[k] !in Without(ns, k)
    ensures At(Without(ns, k), 0) == At(ns, if k == 0 then 1 else 0)
    ensures At(Without(ns, k), |ns| - 2) == At(ns, |ns| - if k == |ns| - 1 then 2 else 1)
    ensures |Without(ns, k)| == |ns| - 1 && forall n :: n in Without(ns, k) ==> n in ns
  {
  }

  lemma HoldsWithout<T>(ns: seq<Node<T>>, d: seq<T>, k: nat)
    requires k < |ns| && Holds(ns, d)
    ensures Holds(Without(ns, k), Without(d, k)) && |ns| == |d|
  {
  }

  /** One more node at the end. */
  lemma OneMore<T>(ns: seq<Node<T>>, pos: map<Node<T>, int>, d: seq<T>, node: Node<T>)
    requires Indexed(ns, pos) && node !in ns && Holds(ns, d)
    ensures Indexed(ns + [node], pos[node := |ns|]) && Holds(ns + [node], d + [node.data])
  {
  }

  ghost function PosAfter<T>(pos: map<Node<T>, int>, node: Node<T>): map<Node<T>, int> {
    (map n | n in pos :: pos[n] + 1)[node := 0]
  }

  /** One more node at the front. */
  lemma OneBefore<T>(ns: seq<Node<T>>, pos: map<Node<T>, int>, d: seq<T>, node: Node<T>)
    requires Indexed(ns, pos) && node !in ns && Holds(ns, d)
    ensures Indexed([node] + ns, PosAfter(pos, node)) && Holds([node] + ns, [node.data] + d)
  {
  }

  /** `struct list`. */
  class List<T(==)> {
    var head: Node?<T>
    var tail: Node?<T>
    var count: int
    ghost var nodes: seq<Node<T>>
    ghost var contents: seq<T>
    ghost var pos: map<Node<T>, int>
    ghost var Repr: set<Node<T>>  // the nodes

    ghost predicate Valid()
      reads this, Repr
    {
      Linked() && count == |nodes|
    }

    ghost predicate Linked()
      reads this, Repr
    {
      && (forall n :: n in nodes ==> n in Repr) && Holds(nodes, contents)
      && Indexed(nodes, pos)
      && head == At(nodes, 0) && tail == At(nodes, |nodes| - 1)
      && NextLinks(nodes) && PrevLinks(nodes)
    }

    /** `list_new`. */
    constructor ()
      ensures Valid() && nodes == [] && contents == [] && Repr == {}
    {
      head, tail, count := null, null, 0;
      nodes, contents, pos, Repr := [], [], map[], {};
    }

    /** `list_isempty`. */
    predicate IsEmpty()
      reads this
    {
      head == null && tail == null
    }

    /** `listnode_add`: append. */
    method Add(val: T)
      requires Valid()
      modifies this, Repr`next
      ensures Valid()
      ensures fresh(Repr - old(Repr))
      ensures contents == old(contents) + [val]
    {
      var node := new Node(val, tail);
      Append(node);
    }

    method Append(node: Node<T>)
      requires Valid() && node !in Repr && node.next == null && node.prev == tail
      modifies this, Repr`next
      ensures Valid() && nodes == old(nodes) + [node] && contents == old(contents) + [node.data]
      ensures Repr == old(Repr) + {node}
    {
      OneMore(nodes, pos, contents, node);
      hide Indexed, Holds, NextLinks, PrevLinks, At;
      LinkLast(node);
      count := (if count < 0 then 0 else count) + 1;
      pos, nodes, contents, Repr := pos[node := |nodes|], nodes + [node], contents + [node.data], Repr + {node};
    }

    /** `head` or the last node now leads to `node`, which becomes the tail. */
    method LinkLast(node: Node<T>)
      requires Indexed(nodes, pos) && NextLinks(nodes) && PrevLinks(nodes) && node !in nodes
      requires node.next == null && node.prev == tail
      requires head == At(nodes, 0) && tail == At(nodes, |nodes| - 1)
      modifies `head, `tail, nodes`next
      ensures NextLinks(nodes + [node]) && PrevLinks(nodes + [node])
      ensures head == At(nodes + [node], 0) && tail == At(nodes + [node], |nodes|)
    {
      if head == null {
        head := node;
      } else {
        tail.next := node;
      }
      tail := node;
    }

    /** `list_delete_node`, which is also the surgery inside `listnode_delete`.  The node
        keeps its own pointers. */
    method DeleteNode(node: Node<T>, ghost k: nat)
      requires Valid() && k < |nodes| && nodes[k] == node
      modifies this, Repr`next, Repr`prev
      ensures Valid() && nodes == Without(old(nodes), k) && contents == Without(old(contents), k)
      ensures Repr == old(Repr)
      ensures node.next == old(node.next) && node.prev == old(node.prev)
    {
      Detach(node, k);
      count := count - 1;
    }

    method Detach(node: Node<T>, ghost k: nat)
      requires Linked() && k < |nodes| && nodes[k] == node
      modifies `head, `tail, `nodes, `contents, `pos, Repr`next, Repr`prev
      ensures Linked() && nodes == Without(old(nodes), k) && node !in nodes
      ensures contents == Without(old(contents), k)
      ensures node.next == old(node.next) && node.prev == old(node.prev)
    {
      WithoutEnds(nodes, pos, k);
      HoldsWithout(nodes, contents, k);
      hide NextLinks, PrevLinks, Indexed, Holds, PosWithout, Without, At;
      Unlink(node, k);
      pos, nodes, contents := PosWithout(pos, node, k), Without(nodes, k), Without(contents, k);
    }

    /** The pointers around `node`. */
    method Unlink(node: Node<T>, ghost k: nat)
      requires k < |nodes| && nodes[k] == node
      requires Indexed(nodes, pos) && NextLinks(nodes) && PrevLinks(nodes)
      requires head == At(nodes, 0) && tail == At(nodes, |nodes| - 1)
      modifies `head, `tail, nodes`next, nodes`prev
      ensures NextLinks(Without(nodes, k)) && PrevLinks(Without(nodes, k))
      ensures head == At(Without(nodes, k), 0) && tail == At(Without(nodes, k), |nodes| - 2)
      ensures node.next == old(node.next) && node.prev == old(node.prev)
    {
      WithoutEnds(nodes, pos, k);
      hide NextLinks, PrevLinks, Indexed, Without, At;
      BridgeForward(node, k);
      BridgeBackward(node, k);
    }

    method BridgeForward(node: Node<T>, ghost k: nat)
      requires k < |nodes| && nodes[k] == node
      requires Indexed(nodes, pos) && head == At(nodes, 0) && NextLinks(nodes) && PrevLinks(nodes)
      modifies `head, nodes`next
      ensures NextLinks(Without(nodes, k)) && head == At(nodes, if k == 0 then 1 else 0)
      ensures node.next == old(node.next) == At(nodes, k + 1)
    {
      ghost var ns := nodes;
      assert node.prev == At(nodes, k - 1) && node.next == At(nodes, k + 1);
      if node.prev != null {
        node.prev.next := node.next;
      } else {
        head := node.next;
      }
      forall i | 0 <= i < |ns| - 1 ensures Without(ns, k)[i].next == At(Without(ns, k), i + 1) {
        var j := if i < k then i else i + 1;
        assert old(ns[j].next) == At(ns, j + 1);
      }
    }

    method BridgeBackward(node: Node<T>, ghost k: nat)
      requires k < |nodes| && nodes[k] == node
      requires Indexed(nodes, pos) && tail == At(nodes, |nodes| - 1) && node.next == At(nodes, k + 1) && PrevLinks(nodes)
      modifies `tail, nodes`prev
      ensures PrevLinks(Without(nodes, k)) && tail == At(nodes, |nodes| - if k == |nodes| - 1 then 2 else 1)
      ensures node.prev == old(node.prev)
    {
      ghost var ns := nodes;
      assert node.prev == At(nodes, k - 1);
      if node.next != null {
        node.next.prev := node.prev;
      } else {
        tail := node.prev;
      }
      forall i | 0 <= i < |ns| - 1 ensures Without(ns, k)[i].prev == At(Without(ns, k), i - 1) {
        var j := if i < k then i else i + 1;
        assert old(ns[j].prev) == At(ns, j - 1);
      }
    }

    /** `listnode_delete`: remove the first node that holds this very pointer, if any. */
    method Delete(val: T)
      requires Valid()
      modifies this, Repr`next, Repr`prev
      ensures Valid() && Repr == old(Repr)
      ensures val !in old(contents) ==> nodes == old(nodes) && contents == old(contents)
      ensures val in old(contents) ==>
                var k := FirstAt(old(contents), val);
                nodes == Without(old(nodes), k) && contents == Without(old(contents), k)
    {
      var node := head;
      ghost var k := 0;
      while node != null && node.data != val
        invariant 0 <= k <= |nodes| && node == At(nodes, k)
        invariant forall i :: 0 <= i < k ==> contents[i] != val
        decreases |nodes| - k
      {
        node := node.next;
        k := k + 1;
      }
      if node != null {
        FirstAtIs(contents, val, k);
        DeleteNode(node, k);
      }
    }

    /** `list_movefront_node`. */
    method MoveFront(node: Node<T>, ghost k: nat)
      requires Valid() && k < |nodes| && nodes[k] == node
      modifies this, Repr`next, Repr`prev
      ensures Valid()
      ensures nodes == [node] + Without(old(nodes), k) && contents == [node.data] + Without(old(contents), k)
    {
      if head == node {
        assert k == 0 && contents == [node.data] + Without(contents, 0);
        return;
      }
      Detach(node, k);
      PushFront(node);
    }

    /** The second half of `list_movefront_node`. */
    method PushFront(node: Node<T>)
      requires Linked() && node in Repr && node !in nodes && nodes != []
      modifies `head, `nodes, `contents, `pos, Repr`next, Repr`prev
      ensures Linked() && nodes == [node] + old(nodes) && contents == [node.data] + old(contents)
    {
      OneBefore(nodes, pos, contents, node);
      hide Indexed, Holds, NextLinks, PrevLinks, PosAfter, At;
      LinkFirst(node);
      pos, nodes, contents := PosAfter(pos, node), [node] + nodes, [node.data] + contents;
    }

    /** `node` leads to the old front node and back, and `head` to `node`. */
    method LinkFirst(node: Node<T>)
      requires Indexed(nodes, pos) && NextLinks(nodes) && PrevLinks(nodes) && node !in nodes && nodes != []
      requires head == At(nodes, 0) && tail == At(nodes, |nodes| - 1)
      modifies `head, node`next, node`prev, nodes`prev
      ensures NextLinks([node] + nodes) && PrevLinks([node] + nodes)
      ensures head == At([node] + nodes, 0) && tail == At([node] + nodes, |nodes|)
    {
      assert nodes[0].prev == null;
      if head != null {
        node.prev := head.prev;
        head.prev := node;
      }
      node.next := head;
      head := node;
    }
  }

  // ---------------------------------------------------------------- LIST_LOOP

  /** Where LIST_LOOP starts, and that the counter is the length. */
  lemma Start<T>(l: List<T>)
    requires l.Valid()
    ensures l.head == At(l.nodes, 0) && l.count == |l.nodes| == |l.contents|
    ensures l.IsEmpty() <==> l.contents == []
  {
  }

  /** What LIST_LOOP finds at position `i`. */
  lemma Cursor<T>(l: List<T>, ln: Node?<T>, i: nat)
    requires l.Valid() && ln == At(l.nodes, i) && i <= |l.contents|
    ensures ln == null <==> i == |l.contents|
    ensures ln != null ==> |l.nodes| == |l.contents| && ln == l.nodes[i]
    ensures ln != null ==> ln in l.Repr && ln.data == l.contents[i] && ln.next == At(l.nodes, i + 1)
  {
  }
}
