/**
 The kernel's intrusive list: nodes in a ring through a head node. The ring refines a sequence;
 adding, deleting and walking are the sequence operations that the other modules use.
 */
module CircularList {

  class Node {
    var prev: Node?
    var next: Node?

    // A node that is on no list
    constructor ()
      ensures prev == null && next == null
    {
      prev, next := null, null;
    }
  }

  // The i-th node of the ring, the head at both ends
  function At(head: Node, s: seq<Node>, i: nat): Node
    requires i <= |s| + 1
  {
    if i == 0 || i == |s| + 1 then head else s[i - 1]
  }

  // Node i and the node behind it point to each other
  ghost predicate Link(head: Node, s: seq<Node>, i: nat)
    requires i <= |s|
    reads head, s
  {
    At(head, s, i).next == At(head, s, i + 1) && At(head, s, i + 1).prev == At(head, s, i)
  }

  // The list at head holds the nodes of s in that order
  ghost predicate Ring(head: Node, s: seq<Node>)
    reads head, s
  {
    && head !in s
    && (forall i, j :: 0 <= i < j < |s| ==> s[i] != s[j])
    && (forall i {:trigger Link(head, s, i)} :: 0 <= i <= |s| ==> Link(head, s, i))
  }

  // list_head_init
  method Init(head: Node)
    modifies head
    ensures Ring(head, [])
  {
    head.prev := head;
    head.next := head;
    assert Link(head, [], 0);
  }

  // list_is_null
  method IsNull(head: Node, ghost s: seq<Node>) returns (b: bool)
    requires Ring(head, s)
    ensures b <==> s == []
  {
    assert Link(head, s, 0) && Link(head, s, |s|);
    b := head.next == head || head.prev == head;
  }

  // __list_add between two neighbours
  method AddBetween(node: Node, prev: Node, next: Node, ghost head: Node, ghost s: seq<Node>, ghost i: nat)
    requires Ring(head, s) && i <= |s| && node != head && node !in s
    requires prev == At(head, s, i) && next == At(head, s, i + 1)
    modifies node, prev, next
    ensures Ring(head, s[..i] + [node] + s[i..])
  {
    assert Link(head, s, i);
    node.next := next;
    node.prev := prev;
    prev.next := node;
    next.prev := node;
    ghost var t := s[..i] + [node] + s[i..];
    forall k | 0 <= k <= |t| ensures Link(head, t, k) {
      if k < i {
        assert old(Link(head, s, k));
      } else if k > i + 1 {
        assert old(Link(head, s, k - 1));
      }
    }
  }

  // list_add
  method Add(node: Node, head: Node, ghost s: seq<Node>)
    requires Ring(head, s) && node != head && node !in s
    modifies node, head, At(head, s, 1)
    ensures Ring(head, [node] + s)
  {
    assert Link(head, s, 0);
    AddBetween(node, head, head.next, head, s, 0);
    assert s[..0] + [node] + s[0..] == [node] + s;
  }

  // list_add_tail
  method AddTail(node: Node, head: Node, ghost s: seq<Node>)
    requires Ring(head, s) && node != head && node !in s
    modifies node, head, At(head, s, |s|)
    ensures Ring(head, s + [node])
  {
    assert Link(head, s, |s|);
    AddBetween(node, head.prev, head, head, s, |s|);
    assert s[..|s|] + [node] + s[|s|..] == s + [node];
  }

  // list_del of a node on the list
  method Del(entry: Node, ghost head: Node, ghost s: seq<Node>, ghost i: nat)
    requires Ring(head, s) && i < |s| && entry == s[i]
    modifies entry, At(head, s, i), At(head, s, i + 2)
    ensures Ring(head, s[..i] + s[i + 1..])
    ensures entry.prev == null && entry.next == null
  {
    assert Link(head, s, i) && Link(head, s, i + 1);
    if entry.prev != null && entry.next != null {
      var prev, next := entry.prev, entry.next;
      prev.next := next;
      next.prev := prev;
    }
    entry.next := null;
    entry.prev := null;
    ghost var t := s[..i] + s[i + 1..];
    forall k | 0 <= k <= |t| ensures Link(head, t, k) {
      if k < i {
        assert old(Link(head, s, k));
      } else if k > i {
        assert old(Link(head, s, k + 1));
      }
    }
  }

  // list_for_each visits every node once, in order
  method ForEach(head: Node, ghost s: seq<Node>) returns (visited: seq<Node>)
    requires Ring(head, s)
    ensures visited == s
  {
    visited := [];
    assert Link(head, s, 0);
    var pos: Node := head.next;
    while pos != head
      invariant |visited| <= |s| && visited == s[..|visited|]
      invariant pos == At(head, s, |visited| + 1)
      decreases |s| - |visited|
    {
      assert Link(head, s, |visited| + 1);
      visited := visited + [pos];
      pos := pos.next;
    }
  }

  // list_for_each_prev visits them the other way round
  method ForEachPrev(head: Node, ghost s: seq<Node>) returns (visited: seq<Node>)
    requires Ring(head, s)
    ensures |visited| == |s| && forall k :: 0 <= k < |s| ==> visited[k] == s[|s| - 1 - k]
  {
    visited := [];
    assert Link(head, s, |s|);
    var pos: Node := head.prev;
    while pos != head
      invariant |visited| <= |s| && forall k :: 0 <= k < |visited| ==> visited[k] == s[|s| - 1 - k]
      invariant pos == At(head, s, |s| - |visited|)
      decreases |s| - |visited|
    {
      assert Link(head, s, |s| - |visited| - 1);
      visited := visited + [pos];
      pos := pos.prev;
    }
  }

  // Deleting the first node, the one behind it being known
  method DelFirst(pos: Node, n: Node, head: Node, ghost s: seq<Node>, ghost k: nat)
    requires k < |s| && Ring(head, s[k..]) && pos == s[k] && n == (if k + 1 < |s| then s[k + 1] else head)
    modifies pos, n, head
    ensures Ring(head, s[k + 1..]) && pos.prev == null && pos.next == null
  {
    ghost var rest := s[k..];
    assert n == At(head, rest, 2);
    Del(pos, head, rest, 0);
    assert rest[..0] + rest[1..] == s[k + 1..];
  }

  lemma FirstLinks(head: Node, s: seq<Node>, k: nat)
    requires k <= |s| && Ring(head, s[k..])
    ensures head.next == if k < |s| then s[k] else head
    ensures k < |s| ==> s[k].next == if k + 1 < |s| then s[k + 1] else head
  {
    assert Link(head, s[k..], 0);
    if k < |s| {
      assert Link(head, s[k..], 1);
    }
  }

  // list_for_each_safe with a body that deletes the node it is at still visits every node
  method ForEachSafeDeleting(head: Node, ghost s: seq<Node>) returns (visited: seq<Node>)
    requires Ring(head, s)
    modifies head, s
    ensures visited == s && Ring(head, [])
    ensures forall j :: 0 <= j < |s| ==> s[j].prev == null && s[j].next == null
  {
    visited := [];
    assert s[0..] == s;
    FirstLinks(head, s, 0);
    var pos: Node := head.next;
    while pos != head
      invariant |visited| <= |s| && visited == s[..|visited|] && Ring(head, s[|visited|..])
      invariant pos == if |visited| < |s| then s[|visited|] else head
      invariant forall j :: 0 <= j < |visited| ==> s[j].prev == null && s[j].next == null
      decreases |s| - |visited|
    {
      FirstLinks(head, s, |visited|);
      var n: Node := pos.next;
      DelFirst(pos, n, head, s, |visited|);
      visited := visited + [pos];
      pos := n;
    }
    assert s[|visited|..] == [];
  }

  // The move to the tail of schedule()
  method MoveToTail(entry: Node, head: Node, ghost s: seq<Node>, ghost i: nat)
    requires Ring(head, s) && i < |s| && entry == s[i]
    modifies head, s
    ensures Ring(head, s[..i] + s[i + 1..] + [entry])
  {
    Del(entry, head, s, i);
    AddTail(entry, head, s[..i] + s[i + 1..]);
  }
}
