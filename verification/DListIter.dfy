/** The iteration macros of `include/dllist.h`. A loop body may leave the current node
    alone, unlink it, or move it to either end of another list; `Body` decides, from
    the number of the visit and the node, which of these it does. */
module DListIter {
  import opened DList
  import opened Seqs

  datatype Action = Keep | Drop | ToHead | ToTail

  type Body = (nat, Node) -> Action

  /** Those of the first `n` nodes on which the body took one kind of action, in their order. */
  ghost function Chosen(s: seq<Node>, body: Body, action: Action, n: nat): (r: seq<Node>)
    requires n <= |s|
    ensures forall j :: 0 <= j < |r| ==> r[j] in s
  {
    if n == 0 then []
    else Chosen(s, body, action, n - 1) + if body(n - 1, s[n - 1]) == action then [s[n - 1]] else []
  }

  /** The nodes left in the list by the first `n` visits. */
  ghost function Kept(s: seq<Node>, body: Body, n: nat): (r: seq<Node>)
    requires n <= |s|
    ensures forall j :: 0 <= j < |r| ==> r[j] in s
  {
    Chosen(s, body, Keep, n)
  }

  /** One visit's effect on the other list. */
  ghost function Receive(d: seq<Node>, action: Action, node: Node): seq<Node> {
    match action
    case ToHead => [node] + d
    case ToTail => d + [node]
    case _ => d
  }

  /** The other list after the first `n` visits to `s`. */
  ghost function Sent(s: seq<Node>, body: Body, n: nat, d: seq<Node>): (r: seq<Node>)
    requires n <= |s|
    ensures forall j :: 0 <= j < |r| ==> r[j] in s || r[j] in d
  {
    if n == 0 then d
    else Receive(Sent(s, body, n - 1, d), body(n - 1, s[n - 1]), s[n - 1])
  }

  /** The nodes unlinked and not put anywhere else by the first `n` visits. */
  ghost function Dropped(s: seq<Node>, body: Body, n: nat): set<Node>
    requires n <= |s|
  {
    if n == 0 then {} else AlsoGone(Dropped(s, body, n - 1), body(n - 1, s[n - 1]), s[n - 1])
  }

  // ---------- One visit ----------

  ghost function Left(action: Action, cur: seq<Node>, k: nat): seq<Node>
    requires k < |cur|
  {
    if action == Keep then cur else RemoveAt(cur, k)
  }

  /** Every link of a ring stays inside it. */
  lemma {:induction false} RingLinks(head: Node, s: seq<Node>)
    requires Ring(head, s)
    ensures forall x :: x == head || x in s ==> (x.prev == head || x.prev in s) && (x.next == head || x.next in s)
  {
  }

  method Detach(node: Node, ghost head: Node, ghost cur: seq<Node>, ghost k: nat)
    requires Ring(head, cur) && k < |cur| && cur[k] == node
    modifies head, cur
    ensures Ring(head, RemoveAt(cur, k)) && node.prev == null && node.next == null
  {
    RingLinks(head, cur);
    RemoveMember(node, head, cur, k);
  }

  method Attach(node: Node, other: Node, action: Action, ghost d: seq<Node>)
    requires Ring(other, d) && node != other && node !in d && node.prev == null && node.next == null
    modifies node, other, d
    ensures Ring(other, Receive(d, action, node))
    ensures action == Keep || action == Drop ==> node.prev == null && node.next == null
  {
    RingLinks(other, d);
    if action == ToHead {
      AddToHead(other, node, d);
    } else if action == ToTail {
      AddToTail(other, node, d);
    }
  }

  lemma {:induction false} LeftMembers(action: Action, cur: seq<Node>, k: nat)
    requires k < |cur| && Distinct(cur)
    ensures var l := Left(action, cur, k);
      forall j :: 0 <= j < |l| ==> l[j] in cur && (action != Keep ==> l[j] != cur[k])
  {
  }

  lemma {:induction false} ReceiveMembers(action: Action, d: seq<Node>, node: Node)
    ensures var r := Receive(d, action, node);
      forall j :: 0 <= j < |r| ==> r[j] in d || (r[j] == node && (action == ToHead || action == ToTail))
  {
  }

  /** A visit keeps the lists apart. */
  lemma {:induction false} VisitApart(action: Action, head: Node, other: Node, cur: seq<Node>, k: nat, d: seq<Node>)
    requires k < |cur| && Distinct(cur) && Apart(head, cur, other, d)
    requires forall i :: 0 <= i < |cur| ==> cur[i] != head
    ensures Apart(head, Left(action, cur, k), other, Receive(d, action, cur[k]))
  {
    LeftMembers(action, cur, k);
    ReceiveMembers(action, d, cur[k]);
  }

  /** What was in neither list stays in neither, and a dropped node is in neither. */
  lemma {:induction false} VisitLeaves(action: Action, cur: seq<Node>, k: nat, d: seq<Node>, x: Node)
    requires k < |cur| && Distinct(cur)
    requires (x !in cur && x !in d) || (x == cur[k] && action == Drop && x !in d)
    ensures x !in Left(action, cur, k) && x !in Receive(d, action, cur[k])
  {
    LeftMembers(action, cur, k);
    ReceiveMembers(action, d, cur[k]);
  }

  ghost predicate NoLinks(gone: set<Node>)
    reads gone
  {
    forall x :: x in gone ==> x.prev == null && x.next == null
  }

  /** The nodes `gone` are in neither list. */
  ghost predicate Outside(gone: set<Node>, head: Node, cur: seq<Node>, other: Node, d: seq<Node>) {
    forall x :: x in gone ==> x != head && x != other && x !in cur && x !in d
  }

  ghost function AlsoGone(gone: set<Node>, action: Action, node: Node): set<Node> {
    if action == Drop then gone + {node} else gone
  }

  lemma {:induction false} VisitOutside(gone: set<Node>, action: Action, head: Node, other: Node,
                                        cur: seq<Node>, k: nat, d: seq<Node>)
    requires k < |cur| && Distinct(cur) && cur[k] != head && Apart(head, cur, other, d)
    requires Outside(gone, head, cur, other, d)
    ensures Outside(AlsoGone(gone, action, cur[k]), head, Left(action, cur, k), other, Receive(d, action, cur[k]))
  {
    forall x | x in AlsoGone(gone, action, cur[k])
      ensures x !in Left(action, cur, k) && x !in Receive(d, action, cur[k])
    {
      VisitLeaves(action, cur, k, d, x);
    }
  }

  /** The loop body at the current node. */
  method Visit(node: Node, other: Node, action: Action, ghost head: Node, ghost cur: seq<Node>, ghost k: nat,
               ghost d: seq<Node>, ghost gone: set<Node>)
    requires Ring(head, cur) && Ring(other, d) && Apart(head, cur, other, d)
    requires NoLinks(gone) && Outside(gone, head, cur, other, d)
    requires k < |cur| && cur[k] == node
    modifies head, cur, other, d
    ensures Ring(head, Left(action, cur, k)) && Ring(other, Receive(d, action, node))
    ensures NoLinks(AlsoGone(gone, action, node))
  {
    if action != Keep {
      Detach(node, head, cur, k);
      assert Ring(other, d) && NoLinks(gone) && node !in d;
      LeftMembers(action, cur, k);
      Attach(node, other, action, d);
      assert Ring(head, RemoveAt(cur, k)) && NoLinks(gone);
    }
  }

  /** Two separate lists, and nodes that are in neither and have no links. */
  ghost predicate TwoLists(head: Node, other: Node, cur: seq<Node>, e: seq<Node>, gone: set<Node>)
    reads head, other, cur, e, gone
  {
    && Ring(head, cur) && Ring(other, e) && Apart(head, cur, other, e)
    && NoLinks(gone) && Outside(gone, head, cur, other, e)
  }

  method VisitTwoLists(node: Node, head: Node, other: Node, action: Action, ghost cur: seq<Node>, ghost k: nat,
                       ghost e: seq<Node>, ghost gone: set<Node>)
    requires TwoLists(head, other, cur, e, gone) && k < |cur| && cur[k] == node
    modifies head, cur, other, e
    ensures TwoLists(head, other, Left(action, cur, k), Receive(e, action, node), AlsoGone(gone, action, node))
  {
    VisitApart(action, head, other, cur, k, e);
    VisitOutside(gone, action, head, other, cur, k, e);
    Visit(node, other, action, head, cur, k, e, gone);
  }

  // ---------- The forward macro ----------

  /** The list while it is walked: what was left so far and what is still to come. */
  ghost function Current(s: seq<Node>, body: Body, i: nat): (r: seq<Node>)
    requires i <= |s|
    ensures forall j :: 0 <= j < |r| ==> r[j] in s
  {
    Kept(s, body, i) + s[i..]
  }

  /** The state between two visits. */
  ghost predicate Walking(head: Node, other: Node, body: Body, s: seq<Node>, d: seq<Node>, i: nat)
    requires i <= |s|
    reads head, other, Current(s, body, i), Sent(s, body, i, d), Dropped(s, body, i)
  {
    TwoLists(head, other, Current(s, body, i), Sent(s, body, i, d), Dropped(s, body, i))
  }

  lemma {:induction false} Middle(a: seq<Node>, x: Node, b: seq<Node>, c: seq<Node>)
    requires c == a + ([x] + b)
    ensures |a| < |c| && c[|a|] == x && RemoveAt(c, |a|) == a + b && c == (a + [x]) + b
  {
  }

  lemma {:induction false} CurrentStep(s: seq<Node>, body: Body, i: nat)
    requires i < |s|
    ensures var k := |Kept(s, body, i)|; var cur := Current(s, body, i);
      && k < |cur| && cur[k] == s[i]
      && Current(s, body, i + 1) == Left(body(i, s[i]), cur, k)
  {
    var a, b := Kept(s, body, i), s[i + 1..];
    assert s[i..] == [s[i]] + b;
    Middle(a, s[i], b, Current(s, body, i));
    assert Kept(s, body, i + 1) == if body(i, s[i]) == Keep then a + [s[i]] else a + [];
    assert a + [] == a;
  }

  method VisitPlace(node: Node, head: Node, other: Node, action: Action,
                    ghost body: Body, ghost i: nat, ghost s: seq<Node>, ghost d: seq<Node>)
    requires i < |s| && node == s[i] && action == body(i, s[i]) && Walking(head, other, body, s, d, i)
    modifies head, s, other, d
    ensures Walking(head, other, body, s, d, i + 1)
  {
    ghost var cur, k, e := Current(s, body, i), |Kept(s, body, i)|, Sent(s, body, i, d);
    CurrentStep(s, body, i);
    VisitTwoLists(node, head, other, action, cur, k, e, Dropped(s, body, i));
  }

  /** One round of the loop: the visit is noted and the body carried out. */
  method VisitNext(node: Node, head: Node, other: Node, body: Body, visited: seq<Node>,
                   ghost i: nat, ghost s: seq<Node>, ghost d: seq<Node>)
    returns (log: seq<Node>)
    requires i < |s| && node == s[i] && Walking(head, other, body, s, d, i)
    requires |visited| == i && visited == s[..i]
    modifies head, s, other, d
    ensures Walking(head, other, body, s, d, i + 1)
    ensures |log| == i + 1 && log == s[..i + 1]
  {
    log := visited + [node];
    VisitPlace(node, head, other, body(|visited|, node), body, i, s, d);
  }

  lemma {:induction false} WalkingStart(head: Node, other: Node, body: Body, s: seq<Node>, d: seq<Node>)
    requires Ring(head, s) && Ring(other, d) && Apart(head, s, other, d)
    ensures Walking(head, other, body, s, d, 0)
  {
    assert Current(s, body, 0) == s;
  }

  /** The next node to visit is the one linked from the current one. */
  lemma {:induction false} WalkingNext(head: Node, other: Node, body: Body, s: seq<Node>, d: seq<Node>, i: nat)
    requires i < |s| && Walking(head, other, body, s, d, i)
    ensures s[i].next == At(head, s, i + 1)
  {
    var cur, k := Current(s, body, i), |Kept(s, body, i)|;
    assert cur[k] == s[i];
    assert cur[k].next == At(head, cur, k + 1);
  }

  lemma {:induction false} WalkingEnd(head: Node, other: Node, body: Body, s: seq<Node>, d: seq<Node>)
    requires Walking(head, other, body, s, d, |s|)
    ensures Ring(head, Kept(s, body, |s|)) && Ring(other, Sent(s, body, |s|, d))
    ensures Apart(head, Kept(s, body, |s|), other, Sent(s, body, |s|, d))
    ensures NoLinks(Dropped(s, body, |s|))
  {
    assert Current(s, body, |s|) == Kept(s, body, |s|);
  }

  method WalkList(head: Node, other: Node, body: Body, ghost s: seq<Node>, ghost d: seq<Node>)
    returns (visited: seq<Node>)
    requires Walking(head, other, body, s, d, 0) && Ring(head, s)
    modifies head, s, other, d
    ensures |visited| == |s| && visited == s[..|s|] && Walking(head, other, body, s, d, |s|)
  {
    visited := [];
    var node := head.next;
    var next := node.next;
    ghost var i := 0;
    while node != head
      invariant i <= |s| && |visited| == i && visited == s[..i]
      invariant Walking(head, other, body, s, d, i)
      invariant node == At(head, s, i) && next == node.next
      decreases |s| - i
    {
      WalkingNext(head, other, body, s, d, i);
      visited := VisitNext(node, head, other, body, visited, i, s, d);
      i := i + 1;
      node := next;
      next := node.next;
    }
  }

  /** Walks the list, calling the body on every node. The nodes are visited once each and
      in their old order, although the body may unlink the one it is called on. */
  method ForeachNode(head: Node, other: Node, body: Body, ghost s: seq<Node>, ghost d: seq<Node>)
    returns (visited: seq<Node>)
    requires Ring(head, s) && Ring(other, d) && Apart(head, s, other, d)
    modifies head, s, other, d
    ensures visited == s
    ensures Ring(head, Kept(s, body, |s|)) && Ring(other, Sent(s, body, |s|, d))
    ensures Ring(other, Reverse(Chosen(s, body, ToHead, |s|)) + d + Chosen(s, body, ToTail, |s|))
    ensures Apart(head, Kept(s, body, |s|), other, Sent(s, body, |s|, d))
    ensures NoLinks(Dropped(s, body, |s|))
  {
    WalkingStart(head, other, body, s, d);
    visited := WalkList(head, other, body, s, d);
    WalkingEnd(head, other, body, s, d);
    SentInOrder(s, body, |s|, d);
  }

  // ---------- The backward macro ----------

  /** What the visits from the tail down to place `m` left in the list. The visit to
      place `m` has number `|s| - 1 - m`. */
  ghost function KeptFrom(s: seq<Node>, body: Body, m: nat): (r: seq<Node>)
    requires m <= |s|
    ensures forall j :: 0 <= j < |r| ==> r[j] in s
    decreases |s| - m
  {
    if m == |s| then []
    else (if body(|s| - 1 - m, s[m]) == Keep then [s[m]] else []) + KeptFrom(s, body, m + 1)
  }

  ghost function SentFrom(s: seq<Node>, body: Body, m: nat, d: seq<Node>): (r: seq<Node>)
    requires m <= |s|
    ensures forall j :: 0 <= j < |r| ==> r[j] in s || r[j] in d
    decreases |s| - m
  {
    if m == |s| then d else Receive(SentFrom(s, body, m + 1, d), body(|s| - 1 - m, s[m]), s[m])
  }

  ghost function DroppedFrom(s: seq<Node>, body: Body, m: nat): set<Node>
    requires m <= |s|
    decreases |s| - m
  {
    if m == |s| then {} else AlsoGone(DroppedFrom(s, body, m + 1), body(|s| - 1 - m, s[m]), s[m])
  }

  /** The list while it is walked backwards: what is still to come and what was left. */
  ghost function CurrentFrom(s: seq<Node>, body: Body, m: nat): (r: seq<Node>)
    requires m <= |s|
    ensures forall j :: 0 <= j < |r| ==> r[j] in s
  {
    s[..m] + KeptFrom(s, body, m)
  }

  ghost predicate WalkingBackwards(head: Node, other: Node, body: Body, s: seq<Node>, d: seq<Node>, m: nat)
    requires m <= |s|
    reads head, other, CurrentFrom(s, body, m), SentFrom(s, body, m, d), DroppedFrom(s, body, m)
  {
    TwoLists(head, other, CurrentFrom(s, body, m), SentFrom(s, body, m, d), DroppedFrom(s, body, m))
  }

  lemma {:induction false} CurrentFromStep(s: seq<Node>, body: Body, m: nat)
    requires m < |s|
    ensures var cur := CurrentFrom(s, body, m + 1);
      && m < |cur| && cur[m] == s[m]
      && CurrentFrom(s, body, m) == Left(body(|s| - 1 - m, s[m]), cur, m)
  {
    var a, b := s[..m], KeptFrom(s, body, m + 1);
    assert s[..m + 1] == a + [s[m]];
    assert CurrentFrom(s, body, m + 1) == a + ([s[m]] + b);
    Middle(a, s[m], b, CurrentFrom(s, body, m + 1));
    assert KeptFrom(s, body, m) == if body(|s| - 1 - m, s[m]) == Keep then [s[m]] + b else [] + b;
    assert [] + b == b;
  }

  lemma {:induction false} FromStep(s: seq<Node>, body: Body, m: nat, d: seq<Node>)
    requires m < |s|
    ensures SentFrom(s, body, m, d) == Receive(SentFrom(s, body, m + 1, d), body(|s| - 1 - m, s[m]), s[m])
    ensures DroppedFrom(s, body, m) == AlsoGone(DroppedFrom(s, body, m + 1), body(|s| - 1 - m, s[m]), s[m])
  {
  }

  lemma {:induction false} ReverseFrom(s: seq<Node>, m: nat)
    requires m < |s|
    ensures Reverse(s[m..]) == Reverse(s[m + 1..]) + [s[m]]
  {
    assert s[m..][1..] == s[m + 1..];
  }

  /** One round of the backward loop. */
  method VisitPrev(node: Node, head: Node, other: Node, body: Body, visited: seq<Node>,
                   ghost m: nat, ghost s: seq<Node>, ghost d: seq<Node>)
    returns (log: seq<Node>)
    requires m < |s| && node == s[m] && WalkingBackwards(head, other, body, s, d, m + 1)
    requires |visited| == |s| - 1 - m && visited == Reverse(s[m + 1..])
    modifies head, s, other, d
    ensures WalkingBackwards(head, other, body, s, d, m)
    ensures |log| == |s| - m && log == Reverse(s[m..])
  {
    ReverseFrom(s, m);
    log := visited + [node];
    VisitPlaceBackwards(node, head, other, body(|visited|, node), body, m, s, d);
  }

  method VisitPlaceBackwards(node: Node, head: Node, other: Node, action: Action,
                             ghost body: Body, ghost m: nat, ghost s: seq<Node>, ghost d: seq<Node>)
    requires m < |s| && node == s[m] && action == body(|s| - 1 - m, s[m])
    requires WalkingBackwards(head, other, body, s, d, m + 1)
    modifies head, s, other, d
    ensures WalkingBackwards(head, other, body, s, d, m)
  {
    ghost var cur, e := CurrentFrom(s, body, m + 1), SentFrom(s, body, m + 1, d);
    CurrentFromStep(s, body, m);
    FromStep(s, body, m, d);
    VisitTwoLists(node, head, other, action, cur, m, e, DroppedFrom(s, body, m + 1));
  }

  lemma {:induction false} WalkingBackwardsStart(head: Node, other: Node, body: Body, s: seq<Node>, d: seq<Node>)
    requires Ring(head, s) && Ring(other, d) && Apart(head, s, other, d)
    ensures WalkingBackwards(head, other, body, s, d, |s|)
  {
    assert CurrentFrom(s, body, |s|) == s;
  }

  lemma {:induction false} WalkingBackwardsNext(head: Node, other: Node, body: Body, s: seq<Node>, d: seq<Node>,
                                                m: nat)
    requires m < |s| && WalkingBackwards(head, other, body, s, d, m + 1)
    ensures s[m].prev == At(head, s, m - 1)
  {
    var cur := CurrentFrom(s, body, m + 1);
    assert cur[m] == s[m];
    assert m > 0 ==> cur[m - 1] == s[m - 1];
    assert cur[m].prev == At(head, cur, m - 1);
  }

  lemma {:induction false} WalkingBackwardsEnd(head: Node, other: Node, body: Body, s: seq<Node>, d: seq<Node>)
    requires WalkingBackwards(head, other, body, s, d, 0)
    ensures Ring(head, KeptFrom(s, body, 0)) && Ring(other, SentFrom(s, body, 0, d))
    ensures Apart(head, KeptFrom(s, body, 0), other, SentFrom(s, body, 0, d))
    ensures NoLinks(DroppedFrom(s, body, 0))
  {
    assert CurrentFrom(s, body, 0) == KeptFrom(s, body, 0);
  }

  method WalkListBackwards(head: Node, other: Node, body: Body, ghost s: seq<Node>, ghost d: seq<Node>)
    returns (visited: seq<Node>)
    requires WalkingBackwards(head, other, body, s, d, |s|) && Ring(head, s)
    modifies head, s, other, d
    ensures |visited| == |s| && visited == Reverse(s[0..]) && WalkingBackwards(head, other, body, s, d, 0)
  {
    visited := [];
    var node := head.prev;
    var prev := node.prev;
    ghost var m: nat := |s|;
    while node != head
      invariant 0 <= m <= |s| && |visited| == |s| - m && visited == Reverse(s[m..])
      invariant WalkingBackwards(head, other, body, s, d, m)
      invariant node == At(head, s, m - 1) && prev == node.prev
      decreases m
    {
      m := m - 1;
      WalkingBackwardsNext(head, other, body, s, d, m);
      visited := VisitPrev(node, head, other, body, visited, m, s, d);
      node := prev;
      prev := node.prev;
    }
  }

  /** The same from the tail: the nodes are visited once each and in reverse order. */
  method ForeachNodeBackwards(head: Node, other: Node, body: Body, ghost s: seq<Node>, ghost d: seq<Node>)
    returns (visited: seq<Node>)
    requires Ring(head, s) && Ring(other, d) && Apart(head, s, other, d)
    modifies head, s, other, d
    ensures visited == Reverse(s)
    ensures Ring(head, KeptFrom(s, body, 0)) && Ring(other, SentFrom(s, body, 0, d))
    ensures Ring(other, Reverse(Chosen(Reverse(s), body, ToHead, |s|)) + d + Chosen(Reverse(s), body, ToTail, |s|))
    ensures Apart(head, KeptFrom(s, body, 0), other, SentFrom(s, body, 0, d))
    ensures NoLinks(DroppedFrom(s, body, 0))
  {
    WalkingBackwardsStart(head, other, body, s, d);
    visited := WalkListBackwards(head, other, body, s, d);
    WalkingBackwardsEnd(head, other, body, s, d);
    SentFromInOrder(s, body, d);
    assert s[0..] == s;
  }

  // ---------- What iteration amounts to ----------

  /** The order-preserving filter. */
  ghost function Filter(s: seq<Node>, keep: Node -> bool): seq<Node> {
    if s == [] then [] else Filter(s[..|s| - 1], keep) + if keep(s[|s| - 1]) then [s[|s| - 1]] else []
  }

  ghost predicate Decides(s: seq<Node>, body: Body, keep: Node -> bool) {
    forall n: nat, i :: 0 <= i < |s| ==> (body(n, s[i]) == Keep <==> keep(s[i]))
  }

  lemma {:induction false} ChosenIsFilter(s: seq<Node>, body: Body, action: Action, pick: Node -> bool, n: nat)
    requires n <= |s| && forall c: nat, i :: 0 <= i < |s| ==> (body(c, s[i]) == action <==> pick(s[i]))
    ensures Chosen(s, body, action, n) == Filter(s[..n], pick)
  {
    if n > 0 {
      ChosenIsFilter(s, body, action, pick, n - 1);
      assert s[..n][..n - 1] == s[..n - 1];
    }
  }

  lemma {:induction false} FilterConcat(a: seq<Node>, b: seq<Node>, keep: Node -> bool)
    ensures Filter(a + b, keep) == Filter(a, keep) + Filter(b, keep)
  {
    if b == [] {
      assert a + b == a;
    } else {
      FilterConcat(a, b[..|b| - 1], keep);
      assert (a + b)[..|a + b| - 1] == a + b[..|b| - 1];
    }
  }

  lemma {:induction false} KeptFromIsFilter(s: seq<Node>, body: Body, keep: Node -> bool, m: nat)
    requires m <= |s| && Decides(s, body, keep)
    ensures KeptFrom(s, body, m) == Filter(s[m..], keep)
    decreases |s| - m
  {
    if m < |s| {
      KeptFromIsFilter(s, body, keep, m + 1);
      assert s[m..] == [s[m]] + s[m + 1..];
      FilterConcat([s[m]], s[m + 1..], keep);
      assert Filter([s[m]], keep) == if keep(s[m]) then [s[m]] else [] by { assert [s[m]][..0] == []; }
    }
  }

  /** When the body's choice depends on the node only, both directions leave the same
      list: the nodes it keeps, in their old order. */
  lemma {:induction false} BothDirectionsFilter(s: seq<Node>, body: Body, keep: Node -> bool)
    requires Decides(s, body, keep)
    ensures Kept(s, body, |s|) == Filter(s, keep) == KeptFrom(s, body, 0)
  {
    ChosenIsFilter(s, body, Keep, keep, |s|);
    KeptFromIsFilter(s, body, keep, 0);
    assert s[..|s|] == s && s[0..] == s;
  }

  /** Walking backwards is walking the reversed list, with what is left put back in order. */
  lemma {:induction false} BackwardsIsReversed(s: seq<Node>, body: Body, m: nat, d: seq<Node>)
    requires m <= |s|
    ensures SentFrom(s, body, m, d) == Sent(Reverse(s), body, |s| - m, d)
    ensures DroppedFrom(s, body, m) == Dropped(Reverse(s), body, |s| - m)
    ensures KeptFrom(s, body, m) == Reverse(Kept(Reverse(s), body, |s| - m))
    decreases |s| - m
  {
    if m < |s| {
      var n := |s| - 1 - m;
      ReverseAt(s, n);
      BackwardsIsReversed(s, body, m + 1, d);
      var k := Kept(Reverse(s), body, n);
      ReverseSnoc(k, s[m]);
      assert k + [] == k && [] + KeptFrom(s, body, m + 1) == KeptFrom(s, body, m + 1);
    }
  }

  /** No node is lost or duplicated: each is kept, sent or dropped. */
  lemma {:induction false} IterationConserves(s: seq<Node>, body: Body, n: nat, d: seq<Node>)
    requires n <= |s| && Distinct(s)
    ensures multiset(Kept(s, body, n)) + multiset(Sent(s, body, n, d)) + multiset(Dropped(s, body, n))
         == multiset(s[..n]) + multiset(d)
    decreases n
  {
    if n > 0 {
      IterationConserves(s, body, n - 1, d);
      DroppedBefore(s, body, n - 1);
      ConservesStep(s, body, n - 1, d);
      PrefixMultiset(s, n - 1);
    }
  }

  lemma {:induction false} PrefixMultiset(s: seq<Node>, n: nat)
    requires n < |s|
    ensures multiset(s[..n + 1]) == multiset(s[..n]) + multiset{s[n]}
  {
    assert s[..n + 1] == s[..n] + [s[n]];
  }

  lemma {:induction false} ConservesStep(s: seq<Node>, body: Body, n: nat, d: seq<Node>)
    requires n < |s| && s[n] !in Dropped(s, body, n)
    ensures multiset(Kept(s, body, n + 1)) + multiset(Sent(s, body, n + 1, d)) + multiset(Dropped(s, body, n + 1))
         == multiset(Kept(s, body, n)) + multiset(Sent(s, body, n, d)) + multiset(Dropped(s, body, n)) + multiset{s[n]}
  {
    var x := s[n];
    match body(n, x)
    case Keep => assert multiset(Kept(s, body, n + 1)) == multiset(Kept(s, body, n)) + multiset{x};
    case Drop => assert multiset(Dropped(s, body, n + 1)) == multiset(Dropped(s, body, n)) + multiset{x};
    case _ => assert multiset(Sent(s, body, n + 1, d)) == multiset(Sent(s, body, n, d)) + multiset{x};
  }

  /** Nor by the walk from the tail. */
  lemma {:induction false} BackwardIterationConserves(s: seq<Node>, body: Body, d: seq<Node>)
    requires Distinct(s)
    ensures multiset(KeptFrom(s, body, 0)) + multiset(SentFrom(s, body, 0, d)) + multiset(DroppedFrom(s, body, 0))
         == multiset(s) + multiset(d)
  {
    var r := Reverse(s);
    forall i, j | 0 <= i < j < |r| ensures r[i] != r[j] {
      ReverseAt(s, i);
      ReverseAt(s, j);
    }
    BackwardsIsReversed(s, body, 0, d);
    IterationConserves(r, body, |r|, d);
    assert r[..|r|] == r;
    ReverseMultiset(s);
    ReverseMultiset(Kept(r, body, |r|));
  }

  lemma {:induction false} DroppedBefore(s: seq<Node>, body: Body, n: nat)
    requires n <= |s| && Distinct(s)
    ensures forall j :: n <= j < |s| ==> s[j] !in Dropped(s, body, n)
  {
    if n > 0 { DroppedBefore(s, body, n - 1); }
  }

  // ---------- What the other list receives ----------

  /** For every body: the nodes sent to the head come first, the latest foremost; then
      the old members, untouched; then the nodes sent to the tail, the latest last. */
  lemma {:induction false} SentInOrder(s: seq<Node>, body: Body, n: nat, d: seq<Node>)
    requires n <= |s|
    ensures Sent(s, body, n, d) == Reverse(Chosen(s, body, ToHead, n)) + d + Chosen(s, body, ToTail, n)
  {
    if n > 0 {
      var h, t := Chosen(s, body, ToHead, n - 1), Chosen(s, body, ToTail, n - 1);
      SentInOrder(s, body, n - 1, d);
      ReverseSnoc(h, s[n - 1]);
      ReceiveAround(Reverse(h), d, t, body(n - 1, s[n - 1]), s[n - 1]);
      assert h + [] == h && t + [] == t;
    }
  }

  lemma {:induction false} ReceiveAround(a: seq<Node>, d: seq<Node>, b: seq<Node>, action: Action, x: Node)
    ensures Receive(a + d + b, action, x) == if action == ToHead then ([x] + a) + d + b
                                             else if action == ToTail then a + d + (b + [x]) else a + d + b
  {
  }

  /** The walk from the tail sends the same way, in the order of its visits. */
  lemma {:induction false} SentFromInOrder(s: seq<Node>, body: Body, d: seq<Node>)
    ensures SentFrom(s, body, 0, d)
         == Reverse(Chosen(Reverse(s), body, ToHead, |s|)) + d + Chosen(Reverse(s), body, ToTail, |s|)
  {
    BackwardsIsReversed(s, body, 0, d);
    SentInOrder(Reverse(s), body, |s|, d);
  }

  lemma {:induction false} FilterReverse(s: seq<Node>, pick: Node -> bool)
    ensures Filter(Reverse(s), pick) == Reverse(Filter(s, pick))
  {
    if s != [] {
      var a, x := s[..|s| - 1], s[|s| - 1];
      assert s == a + [x];
      FilterReverse(a, pick);
      ReverseSnoc(a, x);
      FilterConcat([x], Reverse(a), pick);
      assert Filter([x], pick) == if pick(x) then [x] else [] by { assert [x][..0] == []; }
      ReverseSnoc(Filter(a, pick), x);
      assert Filter(a, pick) + [] == Filter(a, pick) && [] + Filter(Reverse(a), pick) == Filter(Reverse(a), pick);
    }
  }

  /** When the choice depends on the node only: walking forwards turns the nodes sent to
      the head round and keeps the order of those sent to the tail; backwards it is the
      other way round. */
  lemma {:induction false} SentIsFilters(s: seq<Node>, body: Body, toHead: Node -> bool, toTail: Node -> bool,
                                         d: seq<Node>)
    requires forall n: nat, i :: 0 <= i < |s| ==> (body(n, s[i]) == ToHead <==> toHead(s[i]))
    requires forall n: nat, i :: 0 <= i < |s| ==> (body(n, s[i]) == ToTail <==> toTail(s[i]))
    ensures Sent(s, body, |s|, d) == Reverse(Filter(s, toHead)) + d + Filter(s, toTail)
    ensures SentFrom(s, body, 0, d) == Filter(s, toHead) + d + Reverse(Filter(s, toTail))
  {
    SentInOrder(s, body, |s|, d);
    ChosenIsFilter(s, body, ToHead, toHead, |s|);
    ChosenIsFilter(s, body, ToTail, toTail, |s|);
    assert s[..|s|] == s;
    SentFromInOrder(s, body, d);
    var r := Reverse(s);
    forall i | 0 <= i < |r| ensures r[i] in s { ReverseAt(s, i); }
    ChosenIsFilter(r, body, ToHead, toHead, |r|);
    ChosenIsFilter(r, body, ToTail, toTail, |r|);
    assert r[..|r|] == r;
    FilterReverse(s, toHead);
    FilterReverse(s, toTail);
    ReverseTwice(Filter(s, toHead));
  }

  /** Visits that send nothing leave the other list as it was. */
  lemma {:induction false} NothingSent(s: seq<Node>, body: Body, n: nat, d: seq<Node>)
    requires n <= |s| && forall i :: 0 <= i < n ==> body(i, s[i]) == Keep || body(i, s[i]) == Drop
    ensures Sent(s, body, n, d) == d
  {
    if n > 0 { NothingSent(s, body, n - 1, d); }
  }

  lemma {:induction false} NothingSentFrom(s: seq<Node>, body: Body, m: nat, d: seq<Node>)
    requires m <= |s|
    requires forall i :: m <= i < |s| ==> body(|s| - 1 - i, s[i]) == Keep || body(|s| - 1 - i, s[i]) == Drop
    ensures SentFrom(s, body, m, d) == d
    decreases |s| - m
  {
    if m < |s| { NothingSentFrom(s, body, m + 1, d); }
  }

  /** Sending every node to the head of an empty list reverses it; to the tail, copies it. */
  lemma {:induction false} SendAll(s: seq<Node>, body: Body, n: nat)
    requires n <= |s|
    ensures (forall i, x: Node :: body(i, x) == ToHead) ==>
      Sent(s, body, n, []) == Reverse(s[..n]) && Kept(s, body, n) == []
    ensures (forall i, x: Node :: body(i, x) == ToTail) ==>
      Sent(s, body, n, []) == s[..n] && Kept(s, body, n) == []
  {
    if n > 0 {
      SendAll(s, body, n - 1);
      assert s[..n] == s[..n - 1] + [s[n - 1]];
      ReverseSnoc(s[..n - 1], s[n - 1]);
    }
  }
}
