/** The doubly linked list of owned, nullable strings (`DList` / `Node`).
    The list is a heap structure updated in place; its abstract value is
    the ghost sequence `Contents` (one value per node, head to tail) and
    `Nodes` lists the node objects in the same order. */
module DLists {
  import opened Values
  import opened ListSpec

  /** One list element: an owned value and the two neighbour links. */
  class Node {
    var s: Value
    var prev: Node?
    var next: Node?

    /** A fresh, unlinked node holding `value`. */
    constructor (value: Value)
      ensures s == value && prev == null && next == null
    {
      s := value;
      prev := null;
      next := null;
    }
  }

  class DList {
    var head: Node?
    var tail: Node?
    var size: nat

    /** The member nodes, head to tail. */
    ghost var Nodes: seq<Node>
    /** The stored values, head to tail. */
    ghost var Contents: seq<Value>
    /** The objects the list may update: itself and every node it holds. */
    ghost var Repr: set<object>

    /** The structural invariant: `size` counts the nodes, no node occurs
        twice, head and tail are the endpoints (both NULL exactly when the
        list is empty), and each node holds its value and is linked to its
        neighbours both ways, with NULL beyond the ends. */
    ghost predicate Valid()
      reads this, Repr
      ensures Valid() ==> this in Repr
      ensures Valid() ==> (head == null <==> size == 0)
      ensures Valid() ==> (tail == null <==> size == 0)
    {
      this in Repr && (forall i :: 0 <= i < |Nodes| ==> Nodes[i] in Repr) &&
      size == |Nodes| && |Contents| == |Nodes| && Distinct(Nodes) &&
      head == (if |Nodes| == 0 then null else Nodes[0]) &&
      tail == (if |Nodes| == 0 then null else Nodes[|Nodes| - 1]) &&
      (forall i {:trigger Nodes[i].s} :: 0 <= i < |Nodes| ==> Nodes[i].s == Contents[i]) &&
      (forall i {:trigger Nodes[i].prev} :: 0 <= i < |Nodes| ==>
        Nodes[i].prev == if i == 0 then null else Nodes[i - 1]) &&
      (forall i {:trigger Nodes[i].next} :: 0 <= i < |Nodes| ==>
        Nodes[i].next == if i + 1 == |Nodes| then null else Nodes[i + 1])
    }

    /** The nodes met by following `next` links from `n`, stopping at
        NULL, at a node outside the list, or after `steps` nodes. The C
        walk stops only at NULL; for a valid list the two agree, since
        every node met is in `Repr` (lemma `MirrorChains`). */
    ghost function ForwardWalk(n: Node?, steps: nat): seq<Node>
      reads this, Repr
      decreases steps
    {
      if steps == 0 || n == null || n !in Repr then []
      else [n] + ForwardWalk(n.next, steps - 1)
    }

    /** The nodes met by following `prev` links from `n`, stopping as
        `ForwardWalk` does. */
    ghost function BackwardWalk(n: Node?, steps: nat): seq<Node>
      reads this, Repr
      decreases steps
    {
      if steps == 0 || n == null || n !in Repr then []
      else [n] + BackwardWalk(n.prev, steps - 1)
    }

    /** `dlist_init`: the empty list. */
    constructor ()
      ensures Valid() && fresh(Repr)
      ensures head == null && tail == null && size == 0
      ensures Nodes == [] && Contents == []
    {
      head := null;
      tail := null;
      size := 0;
      Nodes := [];
      Contents := [];
      Repr := {this};
    }

    /** `dlist_insert_tail`: append a copy of `value` after the current
        tail and return the new node. */
    method InsertTail(value: Value) returns (n: Node)
      requires Valid()
      modifies Repr
      ensures Valid() && Repr == old(Repr) + {n}
      ensures fresh(n)
      ensures Contents == old(Contents) + [value]
      ensures Nodes == old(Nodes) + [n]
      ensures size == old(size) + 1
      ensures n.s == value && n.prev == old(tail) && n.next == null
      ensures tail == n
      ensures head == if old(size) == 0 then n else old(head)
      ensures forall m :: m in old(Nodes) ==> m.s == old(m.s) && m.prev == old(m.prev)
      ensures forall m :: m in old(Nodes) && m != old(tail) ==> m.next == old(m.next)
    {
      n := new Node(StrDupSafe(value));
      n.prev := tail;
      n.next := null;
      if tail != null {
        tail.next := n;
      } else {
        head := n;
      }
      tail := n;
      size := size + 1;
      ghost var N, C := Nodes, Contents;
      Nodes := Nodes + [n];
      Contents := Contents + [value];
      Repr := Repr + {n};
      AppendKeepsValid(this, N, C, n, value);
    }

    /** `dlist_find_first`: the first node, head to tail, whose value
        matches `value`, or NULL. The list is only read. */
    method FindFirst(value: Value) returns (r: Node?)
      requires Valid()
      ensures r == null <==> value !in Contents
      ensures r != null ==> r in Nodes && r.s == value
      ensures FirstMatch(Contents, value).Some? ==>
                r == Nodes[FirstMatch(Contents, value).value]
    {
      var cur := head;
      ghost var i := 0;
      while cur != null
        invariant 0 <= i <= |Nodes|
        invariant cur == if i < |Nodes| then Nodes[i] else null
        invariant value !in Contents[..i]
        decreases |Nodes| - i
      {
        if Matches(cur.s, value) {
          return cur;
        }
        cur := cur.next;
        i := i + 1;
      }
      assert Contents[..i] == Contents;
      return null;
    }

    /** `dlist_delete_node`: unlink a member node (or do nothing for NULL),
        bypassing it in both directions and moving head/tail when it is
        an endpoint. Returns 1 when a node was removed, 0 otherwise. */
    method DeleteNode(n: Node?) returns (r: int)
      requires Valid()
      requires n != null ==> n in Nodes
      modifies Repr
      ensures Valid() && Repr == old(Repr) - {n}
      ensures n == null ==> r == 0 && Nodes == old(Nodes) && Contents == old(Contents) &&
                            size == old(size) && head == old(head) && tail == old(tail)
      ensures n != null ==> r == 1 && n !in Nodes && size == old(size) - 1
      ensures n != null ==>
                var k := IndexOf(old(Nodes), n);
                Nodes == RemoveAt(old(Nodes), k) && Contents == RemoveAt(old(Contents), k)
      ensures n != null && old(n.prev) != null ==> old(n.prev).next == old(n.next)
      ensures n != null && old(n.next) != null ==> old(n.next).prev == old(n.prev)
      ensures n != null && old(n.prev) == null ==> head == old(n.next)
      ensures n != null && old(n.next) == null ==> tail == old(n.prev)
    {
      if n == null {
        return 0;
      }
      ghost var N, C := Nodes, Contents;
      ghost var k := IndexOf(N, n);
      assert n.prev == if k == 0 then null else N[k - 1];
      assert n.next == if k + 1 == |N| then null else N[k + 1];
      size := size - 1;
      Nodes := RemoveAt(N, k);
      Contents := RemoveAt(C, k);
      Repr := Repr - {n};
      if n.prev != null {
        n.prev.next := n.next;
      } else {
        head := n.next;
      }
      if n.next != null {
        n.next.prev := n.prev;
      } else {
        tail := n.prev;
      }
      UnlinkKeepsValid(this, N, C, k);
      return 1;
    }

    /** `dlist_delete_first_match`: find the first match and delete it.
        Returns 1 when a match was removed, 0 when there was none. */
    method DeleteFirstMatch(value: Value) returns (r: int)
      requires Valid()
      modifies Repr
      ensures Valid() && Repr <= old(Repr)
      ensures r == if value in old(Contents) then 1 else 0
      ensures Contents == DeleteFirst(old(Contents), value)
      ensures FirstMatch(old(Contents), value).Some? ==>
                var i := FirstMatch(old(Contents), value).value;
                Nodes == RemoveAt(old(Nodes), i) && Repr == old(Repr) - {old(Nodes)[i]}
      ensures value !in old(Contents) ==>
                Nodes == old(Nodes) && head == old(head) && tail == old(tail) &&
                size == old(size) && Repr == old(Repr)
    {
      var n := FindFirst(value);
      if n != null {
        IndexOfAt(Nodes, FirstMatch(Contents, value).value);
      }
      r := DeleteNode(n);
    }

    /** `dlist_clear`: walk the chain releasing every node, then reset to
        the empty list. `released` records the nodes freed, in order. */
    method Clear() returns (ghost released: seq<Node>)
      requires Valid()
      modifies this
      ensures Valid() && Repr == {this}
      ensures released == old(Nodes)
      ensures head == null && tail == null && size == 0
      ensures Nodes == [] && Contents == []
    {
      var cur := head;
      released := [];
      while cur != null
        invariant |released| <= |Nodes|
        invariant released == Nodes[..|released|]
        invariant cur == if |released| < |Nodes| then Nodes[|released|] else null
        decreases |Nodes| - |released|
      {
        var next := cur.next;
        released := released + [cur];
        cur := next;
      }
      assert released == Nodes;
      head := null;
      tail := null;
      size := 0;
      Nodes := [];
      Contents := [];
      Repr := {this};
    }
  }

  /** Following `next` links from the node at position `i` (NULL past
      the end) meets exactly the nodes from position `i` on, then NULL. */
  lemma {:induction false} ForwardWalkFrom(l: DList, i: nat)
    requires l.Valid() && i <= |l.Nodes|
    ensures l.ForwardWalk(if i < |l.Nodes| then l.Nodes[i] else null, |l.Nodes| - i + 1) == l.Nodes[i..]
    decreases |l.Nodes| - i
  {
    if i < |l.Nodes| {
      ForwardWalkFrom(l, i + 1);
    }
  }

  /** Following `prev` links from the node before position `i` (NULL
      before the start) meets the first `i` nodes in reverse, then NULL. */
  lemma {:induction false} BackwardWalkFrom(l: DList, i: nat)
    requires l.Valid() && i <= |l.Nodes|
    ensures l.BackwardWalk(if i == 0 then null else l.Nodes[i - 1], i + 1) == Reverse(l.Nodes[..i])
  {
    if i > 0 {
      BackwardWalkFrom(l, i - 1);
      assert l.Nodes[..i][..i - 1] == l.Nodes[..i - 1];
    }
  }

  /** The forward and backward chains are mirror images: from the head,
      `size` steps along `next` visit every node in list order and the
      next link after them is NULL; from the tail, `size` steps along
      `prev` visit the same nodes in reverse order, then NULL. */
  lemma MirrorChains(l: DList)
    requires l.Valid()
    ensures l.ForwardWalk(l.head, l.size + 1) == l.Nodes
    ensures l.BackwardWalk(l.tail, l.size + 1) == Reverse(l.Nodes)
    ensures l.BackwardWalk(l.tail, l.size + 1) == Reverse(l.ForwardWalk(l.head, l.size + 1))
    ensures l.size > 0 ==> l.ForwardWalk(l.head, l.size + 1)[l.size - 1] == l.tail
    ensures l.size > 0 ==> l.BackwardWalk(l.tail, l.size + 1)[l.size - 1] == l.head
    ensures l.size > 0 ==> l.tail.next == null && l.head.prev == null
  {
    ForwardWalkFrom(l, 0);
    BackwardWalkFrom(l, |l.Nodes|);
    assert l.Nodes[0..] == l.Nodes && l.Nodes[..|l.Nodes|] == l.Nodes;
  }

  /** Linking a fresh node after the tail of a valid list, as `InsertTail`
      does, gives a valid list with that node and its value appended.
      `N` and `C` are the old nodes and values; in the heap at hand the
      only changed link is the old tail's `next`, which now leads to `n`. */
  lemma AppendKeepsValid(l: DList, N: seq<Node>, C: seq<Value>, n: Node, value: Value)
    requires Distinct(N) && n !in N && |C| == |N|
    requires l.Nodes == N + [n] && l.Contents == C + [value] && l.size == |N| + 1
    requires l.head == (if |N| == 0 then n else N[0]) && l.tail == n
    requires l in l.Repr && n in l.Repr && forall j :: 0 <= j < |N| ==> N[j] in l.Repr
    requires n.s == value && n.prev == (if |N| == 0 then null else N[|N| - 1]) && n.next == null
    requires forall j :: 0 <= j < |N| ==> N[j].s == C[j]
    requires forall j {:trigger N[j].next} :: 0 <= j < |N| ==>
               N[j].next == if N[j] == N[|N| - 1] then n else N[j + 1]
    requires forall j {:trigger N[j].prev} :: 0 <= j < |N| ==>
               N[j].prev == if j == 0 then null else N[j - 1]
    ensures l.Valid()
  {
    DistinctAppend(N, n);
    var M := l.Nodes;
    forall i {:trigger M[i].next} | 0 <= i < |M|
      ensures M[i].next == if i + 1 == |M| then null else M[i + 1]
    {
      if i + 1 < |N| {
        assert M[i] == N[i];
        DistinctAt(N, i, |N| - 1);
      }
    }
  }

  /** Bypassing the node at position `k` of a valid list, as `DeleteNode`
      does, leaves a valid list holding the old nodes and values without
      position `k`. `N` and `C` are the old nodes and values; in the heap
      at hand only two links differ from the old ones: the predecessor's
      `next` now skips to the successor and the successor's `prev` back to
      the predecessor. */
  lemma UnlinkKeepsValid(l: DList, N: seq<Node>, C: seq<Value>, k: nat)
    requires k < |N| && |C| == |N| && Distinct(N)
    requires l.Nodes == RemoveAt(N, k) && l.Contents == RemoveAt(C, k) && l.size == |N| - 1
    requires l in l.Repr && forall j :: 0 <= j < |N| && N[j] != N[k] ==> N[j] in l.Repr
    requires l.head == (if k == 0 then (if |N| == 1 then null else N[1]) else N[0])
    requires l.tail == (if k + 1 == |N| then (if k == 0 then null else N[k - 1]) else N[|N| - 1])
    requires forall j :: 0 <= j < |N| ==> N[j].s == C[j]
    requires forall j {:trigger N[j].next} :: 0 <= j < |N| ==>
               N[j].next == if k > 0 && N[j] == N[k - 1] then (if k + 1 == |N| then null else N[k + 1])
                            else (if j + 1 == |N| then null else N[j + 1])
    requires forall j {:trigger N[j].prev} :: 0 <= j < |N| ==>
               N[j].prev == if k + 1 < |N| && N[j] == N[k + 1] then (if k == 0 then null else N[k - 1])
                            else (if j == 0 then null else N[j - 1])
    ensures l.Valid()
  {
    DistinctRemoveAt(N, k);
    var M := l.Nodes;
    forall i | 0 <= i < |M|
      ensures M[i] in l.Repr && M[i].s == l.Contents[i]
    {
      var j := if i < k then i else i + 1;
      assert M[i] == N[j] && l.Contents[i] == C[j];
      if j < k { DistinctAt(N, j, k); } else { DistinctAt(N, k, j); }
    }
    UnlinkNextLinks(M, N, k);
    UnlinkPrevLinks(M, N, k);
  }

  /** After the bypass, the `next` links of the remaining nodes chain them
      in order, with NULL after the last. */
  lemma UnlinkNextLinks(M: seq<Node>, N: seq<Node>, k: nat)
    requires k < |N| && Distinct(N) && M == RemoveAt(N, k)
    requires forall j {:trigger N[j].next} :: 0 <= j < |N| ==>
               N[j].next == if k > 0 && N[j] == N[k - 1] then (if k + 1 == |N| then null else N[k + 1])
                            else (if j + 1 == |N| then null else N[j + 1])
    ensures forall i {:trigger M[i].next} :: 0 <= i < |M| ==>
              M[i].next == if i + 1 == |M| then null else M[i + 1]
  {
    forall i {:trigger M[i].next} | 0 <= i < |M|
      ensures M[i].next == if i + 1 == |M| then null else M[i + 1]
    {
      if i < k {
        assert M[i] == N[i];
        if i + 1 < k {
          DistinctAt(N, i, k - 1);
          assert N[i].next == N[i + 1] == M[i + 1];
        } else {
          assert N[i].next == if k + 1 == |N| then null else N[k + 1];
          if i + 1 < |M| { assert M[i + 1] == N[k + 1]; }
        }
      } else {
        assert M[i] == N[i + 1];
        if k > 0 { DistinctAt(N, k - 1, i + 1); }
        assert N[i + 1].next == if i + 2 == |N| then null else N[i + 2];
        if i + 1 < |M| { assert M[i + 1] == N[i + 2]; }
      }
    }
  }

  /** After the bypass, the `prev` links of the remaining nodes chain them
      in reverse order, with NULL before the first. */
  lemma UnlinkPrevLinks(M: seq<Node>, N: seq<Node>, k: nat)
    requires k < |N| && Distinct(N) && M == RemoveAt(N, k)
    requires forall j {:trigger N[j].prev} :: 0 <= j < |N| ==>
               N[j].prev == if k + 1 < |N| && N[j] == N[k + 1] then (if k == 0 then null else N[k - 1])
                            else (if j == 0 then null else N[j - 1])
    ensures forall i {:trigger M[i].prev} :: 0 <= i < |M| ==>
              M[i].prev == if i == 0 then null else M[i - 1]
  {
    forall i {:trigger M[i].prev} | 0 <= i < |M|
      ensures M[i].prev == if i == 0 then null else M[i - 1]
    {
      if i < k {
        assert M[i] == N[i];
        if k + 1 < |N| { DistinctAt(N, i, k + 1); }
        if i > 0 { assert M[i - 1] == N[i - 1]; }
      } else {
        assert M[i] == N[i + 1];
        if i > k {
          DistinctAt(N, k + 1, i + 1);
          assert M[i - 1] == N[i];
        } else if k > 0 {
          assert M[i - 1] == N[k - 1];
        }
      }
    }
  }

  /** Position of the first occurrence of a node in a sequence of nodes. */
  ghost function IndexOf(nodes: seq<Node>, n: Node): (k: nat)
    requires n in nodes
    ensures k < |nodes| && nodes[k] == n && n !in nodes[..k]
  {
    if nodes[0] == n then 0
    else
      var k := 1 + IndexOf(nodes[1..], n);
      assert nodes[..k] == [nodes[0]] + nodes[1..][..k - 1];
      k
  }

  /** In a sequence without repeated nodes, the position of the node at
      position `i` is `i`. */
  lemma {:induction false} IndexOfAt(nodes: seq<Node>, i: nat)
    requires Distinct(nodes) && i < |nodes|
    ensures IndexOf(nodes, nodes[i]) == i
  {
    if i > 0 {
      DistinctAt(nodes, 0, i);
      assert nodes[1..][i - 1] == nodes[i];
      IndexOfAt(nodes[1..], i - 1);
    }
  }

  /** No node occurs twice: the first is not among the rest, and the rest
      are distinct. */
  ghost predicate Distinct(nodes: seq<Node>)
  {
    |nodes| == 0 || (nodes[0] !in nodes[1..] && Distinct(nodes[1..]))
  }

  /** Two different positions of a distinct sequence hold different nodes. */
  lemma {:induction false} DistinctAt(nodes: seq<Node>, i: nat, j: nat)
    requires Distinct(nodes) && i < j < |nodes|
    ensures nodes[i] != nodes[j]
  {
    if i == 0 {
      assert nodes[1..][j - 1] == nodes[j];
    } else {
      DistinctAt(nodes[1..], i - 1, j - 1);
    }
  }

  /** Taking one node out of a distinct sequence leaves it distinct, and
      the node taken out is no longer in it. */
  lemma {:induction false} DistinctRemoveAt(nodes: seq<Node>, k: nat)
    requires k < |nodes| && Distinct(nodes)
    ensures Distinct(RemoveAt(nodes, k))
    ensures nodes[k] !in RemoveAt(nodes, k)
  {
    if k == 0 {
      assert RemoveAt(nodes, k) == nodes[1..];
    } else {
      var rest := RemoveAt(nodes[1..], k - 1);
      DistinctRemoveAt(nodes[1..], k - 1);
      assert RemoveAt(nodes, k) == [nodes[0]] + rest;
      assert forall x :: x in rest ==> x in nodes[1..];
    }
  }

  /** Appending a node that is not yet present keeps a sequence distinct. */
  lemma {:induction false} DistinctAppend(nodes: seq<Node>, n: Node)
    requires Distinct(nodes) && n !in nodes
    ensures Distinct(nodes + [n])
  {
    if |nodes| > 0 {
      DistinctAppend(nodes[1..], n);
      assert (nodes + [n])[1..] == nodes[1..] + [n];
    }
  }
}
