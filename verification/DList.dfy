/** The intrusive circular doubly linked list of `include/dllist.h`. A list is a ring
    of nodes through its head node; an empty list is a head linked to itself; a node
    that is in no list has null links. The sequence of member nodes is never stored:
    each operation takes it as a ghost argument. */
module DList {
  import opened Seqs

  class Node {
    var prev: Node?
    var next: Node?

    /** A node whose links have been cleared. */
    constructor ()
      ensures prev == null && next == null
    {
      prev, next := null, null;
    }
  }

  ghost predicate Distinct(s: seq<Node>) {
    forall i, j :: 0 <= i < j < |s| ==> s[i] != s[j]
  }

  /** The member at place `i`, the places before the first and after the last being the head. */
  ghost function At(head: Node, s: seq<Node>, i: int): Node
    requires -1 <= i <= |s|
  {
    if 0 <= i < |s| then s[i] else head
  }

  /** `head` and the members `s`, in this order, form one closed ring of different nodes. */
  ghost predicate Ring(head: Node, s: seq<Node>)
    reads head, s
  {
    && (forall i :: 0 <= i < |s| ==> s[i] != head)
    && Distinct(s)
    && head.next == At(head, s, 0)
    && head.prev == At(head, s, |s| - 1)
    && (forall i {:trigger s[i].next} :: 0 <= i < |s| ==> s[i].next == At(head, s, i + 1))
    && (forall i {:trigger s[i].prev} :: 0 <= i < |s| ==> s[i].prev == At(head, s, i - 1))
  }

  /** No node of the first ring is in the second. */
  ghost predicate Apart(h1: Node, s1: seq<Node>, h2: Node, s2: seq<Node>) {
    && h1 != h2 && h1 !in s2 && h2 !in s1
    && forall i, j :: 0 <= i < |s1| && 0 <= j < |s2| ==> s1[i] != s2[j]
  }

  // ---------- Facts about rings ----------

  /** Any member can be taken as the head of the same ring. */
  lemma {:induction false} Rotate(head: Node, s: seq<Node>, i: int)
    requires Ring(head, s) && 0 <= i < |s|
    ensures Ring(s[i], s[i + 1..] + [head] + s[..i])
  {
    var t := s[i + 1..] + [head] + s[..i];
    var k := |s| - i - 1;
    assert forall j :: 0 <= j < k ==> t[j] == s[i + 1 + j];
    assert t[k] == head;
    assert forall j :: k < j < |t| ==> t[j] == s[j - k - 1];
  }

  /** The links determine the members: a head has one ring only. */
  lemma {:induction false} RingUnique(head: Node, s: seq<Node>, t: seq<Node>)
    requires Ring(head, s) && Ring(head, t)
    ensures s == t
  {
    var i := 0;
    while i < |s|
      invariant 0 <= i <= |s| && i <= |t|
      invariant s[..i] == t[..i]
    {
      assert i > 0 ==> s[i - 1] == t[i - 1] && s[i - 1].next == t[i - 1].next;
      assert At(head, s, i) == At(head, t, i);
      i := i + 1;
    }
    assert |s| > 0 ==> s[|s| - 1] == t[|s| - 1] && s[|s| - 1].next == t[|s| - 1].next;
    assert At(head, t, |s|) == head;
  }

  // ---------- The operations ----------

  method Init(head: Node)
    modifies head
    ensures Ring(head, [])
  {
    head.prev := head;
    head.next := head;
  }

  method IsEmpty(head: Node, ghost s: seq<Node>) returns (empty: bool)
    requires Ring(head, s)
    ensures empty <==> s == []
  {
    empty := head.prev == head && head.next == head;
  }

  method AddToHead(head: Node, node: Node, ghost s: seq<Node>)
    requires Ring(head, s) && node != head && node !in s
    modifies head, node, head.next
    ensures Ring(head, [node] + s)
  {
    var tmp := head.next;
    head.next := node;
    node.next := tmp;
    tmp.prev := node;
    node.prev := head;
  }

  method AddToTail(head: Node, node: Node, ghost s: seq<Node>)
    requires Ring(head, s) && node != head && node !in s
    modifies head, node, head.prev
    ensures Ring(head, s + [node])
  {
    var tmp := head.prev;
    head.prev := node;
    node.prev := tmp;
    tmp.next := node;
    node.next := head;
  }

  method NodeIsInList(node: Node) returns (linked: bool)
    ensures linked <==> node.next != null
  {
    linked := node.next != null;
  }

  method GetNextNode(head: Node, ghost s: seq<Node>) returns (r: Node?)
    requires Ring(head, s)
    ensures r == if s == [] then null else s[0]
  {
    if head.next == head {
      return null;
    } else {
      return head.next;
    }
  }

  method GetPrevNode(head: Node, ghost s: seq<Node>) returns (r: Node?)
    requires Ring(head, s)
    ensures r == if s == [] then null else s[|s| - 1]
  {
    if head.prev == head {
      return null;
    } else {
      return head.prev;
    }
  }

  /** Unlinking any node of a ring closes the ring over its neighbours. */
  method RemoveNode(node: Node, ghost t: seq<Node>)
    requires Ring(node, t)
    modifies node, node.prev, node.next
    ensures t != [] ==> Ring(t[0], t[1..])
    ensures node.prev == null && node.next == null
  {
    node.next.prev := node.prev;
    node.prev.next := node.next;
    node.prev := null;
    node.next := null;
  }

  /** A ring from which member `i` was unlinked, read from its head again. */
  lemma {:induction false} ReadFromHead(head: Node, s: seq<Node>, i: nat, t: seq<Node>)
    requires i < |s| && t == s[i + 1..] + [head] + s[..i]
    requires Ring(t[0], t[1..])
    ensures Ring(head, RemoveAt(s, i))
  {
    if i == |s| - 1 {
      assert t[1..] == RemoveAt(s, i);
    } else {
      var k := |s| - i - 2;
      var u := t[1..];
      assert u == s[i + 2..] + [head] + s[..i];
      Rotate(t[0], u, k);
      assert u[k] == head;
      assert u[k + 1..] + [t[0]] + u[..k] == RemoveAt(s, i);
    }
  }

  /** RemoveNode as seen from the list that holds the node. */
  method RemoveMember(node: Node, ghost head: Node, ghost s: seq<Node>, ghost i: nat)
    requires Ring(head, s) && i < |s| && s[i] == node
    modifies node, node.prev, node.next
    ensures Ring(head, RemoveAt(s, i))
    ensures node.prev == null && node.next == null
  {
    ghost var t := s[i + 1..] + [head] + s[..i];
    Rotate(head, s, i);
    RemoveNode(node, t);
    ReadFromHead(head, s, i, t);
  }

  /** The new head may hold anything; it is overwritten. Given the same non-empty list
      twice, the head is emptied: its old members still lead to it, but not it to them. */
  method ReplaceHead(oldHead: Node, newHead: Node, ghost s: seq<Node>)
    requires Ring(oldHead, s) && newHead !in s
    modifies oldHead, newHead, oldHead.next, oldHead.prev
    ensures Ring(oldHead, [])
    ensures newHead != oldHead || s == [] ==> Ring(newHead, s)
    ensures newHead == oldHead ==>
      forall i {:trigger s[i].next} {:trigger s[i].prev} :: 0 <= i < |s| ==>
        s[i].next == At(oldHead, s, i + 1) && s[i].prev == At(oldHead, s, i - 1)
  {
    var empty := IsEmpty(oldHead, s);
    if empty {
      newHead.next := newHead;
      newHead.prev := newHead;
    } else {
      oldHead.next.prev := newHead;
      oldHead.prev.next := newHead;
      newHead.next := oldHead.next;
      newHead.prev := oldHead.prev;
      oldHead.next := oldHead;
      oldHead.prev := oldHead;
    }
  }

  /** Prepends one list to another. Given the same non-empty list twice, it instead
      empties the head and leaves the members behind as a ring without a head. */
  method InsertListAtHead(outHead: Node, inHead: Node, ghost outs: seq<Node>, ghost ins: seq<Node>)
    requires Ring(outHead, outs) && Ring(inHead, ins)
    requires outHead == inHead || Apart(outHead, outs, inHead, ins)
    modifies outHead, inHead, outHead.next, inHead.next, inHead.prev
    ensures Ring(inHead, [])
    ensures outHead != inHead ==> Ring(outHead, ins + outs)
    ensures outHead == inHead && outs != [] ==> Ring(outs[0], outs[1..])
  {
    var inNext := inHead.next;
    var outNext := outHead.next;
    ghost var same := outHead == inHead;
    if same { RingUnique(outHead, outs, ins); }
    var empty := IsEmpty(inHead, ins);
    if !empty {
      outHead.next := inNext;
      inNext.prev := outHead;
      inHead.prev.next := outNext;
      outNext.prev := inHead.prev;
      Init(inHead);
    }
  }

  // ---------- The links themselves ----------

  /** A ring is a closed chain in which every two neighbours lead to each other. */
  lemma {:induction false} LinksOfRing(head: Node, s: seq<Node>)
    requires Distinct(s) && head !in s
    ensures Ring(head, s)
      <==> && (forall i :: 0 < i < |s| ==> s[i - 1].next == s[i] && s[i].prev == s[i - 1])
           && (s == [] ==> head.next == head && head.prev == head)
           && (s != [] ==> head.next == s[0] && s[0].prev == head && s[|s| - 1].next == head && head.prev == s[|s| - 1])
  {
    if Ring(head, s) {
      forall i | 0 < i < |s| ensures s[i - 1].next == s[i] && s[i].prev == s[i - 1] {
        assert s[i - 1].next == At(head, s, i) && s[i].prev == At(head, s, i - 1);
      }
      assert s != [] ==> s[0].prev == At(head, s, -1) && s[|s| - 1].next == At(head, s, |s|);
    } else if forall i :: 0 < i < |s| ==> s[i - 1].next == s[i] && s[i].prev == s[i - 1] {
      forall i | 0 <= i < |s| - 1 ensures s[i].next == s[i + 1] { assert s[(i + 1) - 1].next == s[i + 1]; }
    }
  }

  /** Moving a list to an empty head: inserting it there and replacing the head leave the
      very same rings, and so the very same links, whichever of the two is chosen. */
  method MoveToEmpty(outHead: Node, inHead: Node, byInsert: bool, ghost ins: seq<Node>)
    requires Ring(outHead, []) && Ring(inHead, ins) && Apart(outHead, [], inHead, ins)
    modifies outHead, inHead, inHead.next, inHead.prev
    ensures Ring(outHead, ins) && Ring(inHead, [])
  {
    if byInsert {
      assert ins + [] == ins;
      InsertListAtHead(outHead, inHead, [], ins);
    } else {
      ReplaceHead(inHead, outHead, ins);
    }
  }

  /** Moving a list to another head and back restores every link. */
  method ReplaceThereAndBack(oldHead: Node, newHead: Node, ghost s: seq<Node>)
    requires Ring(oldHead, s) && Ring(newHead, []) && oldHead != newHead
    modifies oldHead, newHead, oldHead.next, oldHead.prev
    ensures Ring(oldHead, s) && Ring(newHead, [])
    ensures oldHead.prev == old(oldHead.prev) && oldHead.next == old(oldHead.next)
    ensures newHead.prev == old(newHead.prev) && newHead.next == old(newHead.next)
    ensures forall i {:trigger s[i].prev} {:trigger s[i].next} :: 0 <= i < |s| ==>
      s[i].prev == old(s[i].prev) && s[i].next == old(s[i].next)
  {
    ReplaceHead(oldHead, newHead, s);
    ReplaceHead(newHead, oldHead, s);
  }
}
