/** `dllist_sort` of `include/dllist.h`: the list is moved, reversed, to a temporary
    head, and then drained smallest first. */
module DListSort {
  import opened DList
  import opened DListIter
  import opened Selection
  import opened Seqs

  /** The inner loop: the running smallest over the whole temporary list. */
  method FindSmallest(temp: Node, cmpr: Callback<Node>, calls0: nat, ghost t: seq<Node>)
    returns (smallest: Node, calls: nat)
    requires Ring(temp, t) && t != []
    ensures smallest == t[Pick(t, cmpr, calls0, |t|)] && calls == calls0 + |t| - 1
  {
    var smallestNode: Node? := null;
    calls := calls0;
    var node := temp.next;
    var next := node.next;
    ghost var j := 0;
    while node != temp
      invariant 0 <= j <= |t| && node == At(temp, t, j) && next == node.next
      invariant if j == 0 then smallestNode == null && calls == calls0
                else smallestNode == t[Pick(t, cmpr, calls0, j)] && calls == calls0 + j - 1
      decreases |t| - j
    {
      if smallestNode == null {
        smallestNode := node;
      } else {
        var swap := cmpr(calls, smallestNode, node);
        calls := calls + 1;
        if swap {
          smallestNode := node;
        }
      }
      j := j + 1;
      node := next;
      next := node.next;
    }
    smallest := smallestNode;
  }

  ghost predicate Within(t: seq<Node>, s: seq<Node>) {
    forall j :: 0 <= j < |t| ==> t[j] in s
  }

  /** The state of the outer loop: what was sorted out so far and what is still to come
      make up the whole. */
  ghost predicate Sorting(s: seq<Node>, whole: seq<Node>, cmpr: Callback<Node>, t: seq<Node>, out: seq<Node>,
                          calls: nat)
  {
    && Within(t, s) && Within(out, s)
    && out + Drain(t, cmpr, calls) == whole
    && calls + DrainCalls(|t|) == DrainCalls(|s|)
  }

  lemma {:induction false} SortingStart(s: seq<Node>, cmpr: Callback<Node>)
    ensures Sorting(s, SortOrder(s, cmpr), cmpr, Reverse(s), [], 0)
  {
    assert [] + Drain(Reverse(s), cmpr, 0) == SortOrder(s, cmpr);
    forall j | 0 <= j < |s| ensures Reverse(s)[j] in s { ReverseAt(s, j); }
  }

  lemma {:induction false} MoveAcross(out: seq<Node>, x: Node, r: seq<Node>, d: seq<Node>, whole: seq<Node>)
    requires d == [x] + r && out + d == whole
    ensures (out + [x]) + r == whole
  {
  }

  lemma {:induction false} DrainAcross(whole: seq<Node>, cmpr: Callback<Node>, t: seq<Node>, out: seq<Node>,
                                       calls: nat, d: seq<Node>)
    requires t != [] && d == Drain(t, cmpr, calls) && out + d == whole
    ensures var p := Pick(t, cmpr, calls, |t|);
      (out + [t[p]]) + Drain(RemoveAt(t, p), cmpr, calls + |t| - 1) == whole
  {
    var x, rest, r := DrainStep(t, cmpr, calls);
    MoveAcross(out, x, r, d, whole);
  }

  lemma {:induction false} WithinStep(s: seq<Node>, t: seq<Node>, out: seq<Node>, p: nat)
    requires p < |t| && Within(t, s) && Within(out, s)
    ensures Within(RemoveAt(t, p), s) && Within(out + [t[p]], s)
  {
  }

  lemma {:induction false} SortingStep(s: seq<Node>, whole: seq<Node>, cmpr: Callback<Node>, t: seq<Node>,
                                       out: seq<Node>, calls: nat, p: nat)
    requires t != [] && Sorting(s, whole, cmpr, t, out, calls) && p == Pick(t, cmpr, calls, |t|)
    ensures Sorting(s, whole, cmpr, RemoveAt(t, p), out + [t[p]], calls + |t| - 1)
  {
    DrainAcross(whole, cmpr, t, out, calls, Drain(t, cmpr, calls));
    WithinStep(s, t, out, p);
    assert DrainCalls(|t|) == |t| - 1 + DrainCalls(|t| - 1);
  }

  lemma {:induction false} SortingEnd(s: seq<Node>, whole: seq<Node>, cmpr: Callback<Node>, out: seq<Node>, calls: nat)
    requires Sorting(s, whole, cmpr, [], out, calls)
    ensures out == whole && 2 * calls == |s| * (|s| - 1)
  {
    assert out + [] == out;
    DrainCallsTotal(|s|);
  }

  /** One round of the outer loop. */
  method TakeSmallest(head: Node, temp: Node, cmpr: Callback<Node>, calls0: nat, ghost s: seq<Node>,
                      ghost whole: seq<Node>, ghost t: seq<Node>, ghost out: seq<Node>)
    returns (calls: nat, ghost t': seq<Node>, ghost out': seq<Node>)
    requires TwoLists(temp, head, t, out, {}) && t != [] && Sorting(s, whole, cmpr, t, out, calls0)
    modifies head, s, temp
    ensures TwoLists(temp, head, t', out', {}) && Sorting(s, whole, cmpr, t', out', calls)
    ensures |t'| == |t| - 1
  {
    var smallest;
    smallest, calls := FindSmallest(temp, cmpr, calls0, t);
    ghost var p := Pick(t, cmpr, calls0, |t|);
    SortingStep(s, whole, cmpr, t, out, calls0, p);
    VisitTwoLists(smallest, temp, head, ToTail, t, p, out, {});
    t' := RemoveAt(t, p);
    out' := out + [smallest];
  }

  /** Empties the list into the temporary head, in reverse. */
  method MoveReversed(head: Node, temp: Node, ghost s: seq<Node>)
    requires Ring(head, s) && Ring(temp, []) && Apart(head, s, temp, [])
    modifies head, s, temp
    ensures TwoLists(temp, head, Reverse(s), [], {})
  {
    var body: Body := (_, _) => ToHead;
    var _ := ForeachNode(head, temp, body, s, []);
    SendAll(s, body, |s|);
    assert s[..|s|] == s;
  }

  /** The outer loop. */
  method DrainInto(head: Node, temp: Node, cmpr: Callback<Node>, ghost s: seq<Node>, ghost whole: seq<Node>)
    returns (calls: nat)
    requires TwoLists(temp, head, Reverse(s), [], {}) && Sorting(s, whole, cmpr, Reverse(s), [], 0)
    modifies head, s, temp
    ensures TwoLists(temp, head, [], whole, {}) && 2 * calls == |s| * (|s| - 1)
  {
    calls := 0;
    ghost var t, out := Reverse(s), [];
    var empty := IsEmpty(temp, t);
    while !empty
      invariant TwoLists(temp, head, t, out, {}) && Sorting(s, whole, cmpr, t, out, calls)
      invariant empty <==> t == []
      decreases |t|
    {
      calls, t, out := TakeSmallest(head, temp, cmpr, calls, s, whole, t, out);
      empty := IsEmpty(temp, t);
    }
    SortingEnd(s, whole, cmpr, out, calls);
  }

  /** Whatever the callback answers, the head ends up with all the old members in the
      order SortOrder gives them, after n(n-1)/2 calls, and no link leads outside the list, in particular
      none to the temporary head. */
  method Sort(head: Node, cmpr: Callback<Node>, ghost s: seq<Node>) returns (calls: nat)
    requires Ring(head, s)
    modifies head, s
    ensures Ring(head, SortOrder(s, cmpr)) && 2 * calls == |s| * (|s| - 1)
    ensures forall x :: x == head || x in s ==> (x.prev == head || x.prev in s) && (x.next == head || x.next in s)
  {
    var temp := new Node();
    Init(temp);
    MoveReversed(head, temp, s);
    SortingStart(s, cmpr);
    calls := DrainInto(head, temp, cmpr, s, SortOrder(s, cmpr));
    SortedLinks(head, s, cmpr);
  }

  /** The links of the sorted list stay among the head and the old members. */
  lemma {:induction false} SortedLinks(head: Node, s: seq<Node>, cmpr: Callback<Node>)
    requires Ring(head, SortOrder(s, cmpr))
    ensures forall x :: x == head || x in s ==> (x.prev == head || x.prev in s) && (x.next == head || x.next in s)
  {
    RingLinks(head, SortOrder(s, cmpr));
    SortOrderMembers(s, cmpr);
  }

  lemma {:induction false} SortOrderMembers(s: seq<Node>, cmpr: Callback<Node>)
    ensures forall x :: x in SortOrder(s, cmpr) <==> x in s
  {
    SortOrderPermutes(s, cmpr);
    assert forall x :: x in s <==> x in multiset(s);
    assert forall x :: x in SortOrder(s, cmpr) <==> x in multiset(SortOrder(s, cmpr));
  }
}
