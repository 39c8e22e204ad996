/** Any number of lists at once (`include/dllist.h`): what every operation, and so every
    run of operations, keeps true of all heads, all members and all nodes in no list. */
module DListRuns {
  import opened DList
  import opened DListIter
  import opened DListSort
  import opened Selection
  import opened Seqs

  /** The members of every head, and the tracked nodes that are in no list. */
  datatype Lists = Lists(rings: map<Node, seq<Node>>, loose: set<Node>)

  datatype Op =
    | OpInit(head: Node)
    | OpAddToHead(head: Node, node: Node)
    | OpAddToTail(head: Node, node: Node)
    | OpRemove(node: Node)
    | OpReplaceHead(oldHead: Node, newHead: Node)
    | OpInsertList(outHead: Node, inHead: Node)
    | OpSort(head: Node, cmpr: Callback<Node>)

  ghost predicate IsMember(w: Lists, x: Node) {
    exists h :: h in w.rings && x in w.rings[h]
  }

  /** Linked into some ring, as its head or as a member. */
  ghost predicate InSomeRing(w: Lists, x: Node) {
    x in w.rings || IsMember(w, x)
  }

  ghost predicate Disjoint(s: seq<Node>, t: seq<Node>) {
    forall i, j :: 0 <= i < |s| && 0 <= j < |t| ==> s[i] != t[j]
  }

  /** Every node has one role: head, member of one list at one place, or loose. */
  ghost predicate OneRole(w: Lists) {
    && w.rings.Keys !! w.loose
    && (forall h :: h in w.rings ==> Distinct(w.rings[h]))
    && (forall h, i :: h in w.rings && 0 <= i < |w.rings[h]| ==>
          w.rings[h][i] !in w.rings && w.rings[h][i] !in w.loose)
    && (forall h, g :: h in w.rings && g in w.rings && h != g ==> Disjoint(w.rings[h], w.rings[g]))
  }

  /** All nodes under observation. */
  ghost function Nodes(w: Lists): (r: set<Node>)
    ensures forall h :: h in w.rings ==> h in r
    ensures forall h, i :: h in w.rings && 0 <= i < |w.rings[h]| ==> w.rings[h][i] in r
    ensures forall x :: x in w.loose ==> x in r
  {
    assert forall h, i :: h in w.rings && 0 <= i < |w.rings[h]| ==> w.rings[h][i] in w.rings[h];
    w.rings.Keys + (set h, x | h in w.rings && x in w.rings[h] :: x) + w.loose
  }

  ghost predicate Rings(w: Lists)
    reads Nodes(w)
  {
    forall h :: h in w.rings ==> Ring(h, w.rings[h])
  }

  /** The state of the links. */
  ghost predicate Represents(w: Lists)
    reads Nodes(w)
  {
    OneRole(w) && Rings(w) && NoLinks(w.loose)
  }

  ghost function Minus(s: seq<Node>, x: Node): seq<Node> {
    if s == [] then [] else (if s[0] == x then [] else [s[0]]) + Minus(s[1..], x)
  }

  /** What the documentation asks of a caller. */
  ghost predicate Legal(w: Lists, op: Op) {
    match op
    case OpInit(h) => h in w.loose || (h in w.rings && w.rings[h] == [])
    case OpAddToHead(h, x) => h in w.rings && x in w.loose
    case OpAddToTail(h, x) => h in w.rings && x in w.loose
    case OpRemove(x) => IsMember(w, x)
    case OpReplaceHead(h, g) => h in w.rings && g in w.rings && w.rings[g] == []
    case OpInsertList(h, g) => h in w.rings && g in w.rings && (h != g || w.rings[h] == [])
    case OpSort(h, _) => h in w.rings
  }

  /** The head of the list that holds a member. */
  ghost function Owner(w: Lists, x: Node): (h: Node)
    requires IsMember(w, x)
    ensures h in w.rings && x in w.rings[h]
  {
    var h :| h in w.rings && x in w.rings[h]; h
  }

  ghost function Next(w: Lists, op: Op): Lists
    requires Legal(w, op)
  {
    match op
    case OpInit(h) => Lists(w.rings[h := []], w.loose - {h})
    case OpAddToHead(h, x) => Lists(w.rings[h := [x] + w.rings[h]], w.loose - {x})
    case OpAddToTail(h, x) => Lists(w.rings[h := w.rings[h] + [x]], w.loose - {x})
    case OpRemove(x) => var h := Owner(w, x); Lists(w.rings[h := Minus(w.rings[h], x)], w.loose + {x})
    case OpReplaceHead(h, g) => Lists(w.rings[g := w.rings[h]][h := []], w.loose)
    case OpInsertList(h, g) => Lists(w.rings[h := w.rings[g] + w.rings[h]][g := []], w.loose)
    case OpSort(h, cmpr) => Lists(w.rings[h := SortOrder(w.rings[h], cmpr)], w.loose)
  }

  ghost predicate LegalRun(w: Lists, ops: seq<Op>)
    decreases |ops|
  {
    ops == [] || (Legal(w, ops[0]) && LegalRun(Next(w, ops[0]), ops[1..]))
  }

  ghost function After(w: Lists, ops: seq<Op>): Lists
    requires LegalRun(w, ops)
    decreases |ops|
  {
    if ops == [] then w else After(Next(w, ops[0]), ops[1..])
  }

  // ---------- Sequences ----------

  lemma {:induction false} MinusOf(s: seq<Node>, x: Node, i: nat)
    requires i < |s| && s[i] == x && Distinct(s)
    ensures Minus(s, x) == RemoveAt(s, i)
  {
    if i == 0 {
      MinusNothing(s[1..], x);
    } else {
      MinusOf(s[1..], x, i - 1);
      assert RemoveAt(s, i) == [s[0]] + RemoveAt(s[1..], i - 1);
    }
  }

  lemma {:induction false} MinusNothing(s: seq<Node>, x: Node)
    requires forall j :: 0 <= j < |s| ==> s[j] != x
    ensures Minus(s, x) == s
  {
    if s != [] { MinusNothing(s[1..], x); }
  }

  lemma {:induction false} DistinctCount(s: seq<Node>)
    ensures Distinct(s) <==> forall x :: multiset(s)[x] <= 1
  {
    if Distinct(s) {
      forall x ensures multiset(s)[x] <= 1 { CountDistinct(s, x); }
    } else {
      var i, j :| 0 <= i < j < |s| && s[i] == s[j];
      RemoveAtMultiset(s, i);
      assert RemoveAt(s, i)[j - 1] == s[i];
      assert s[i] in multiset(RemoveAt(s, i));
      assert multiset(s)[s[i]] >= 2;
    }
  }

  lemma {:induction false} CountDistinct(s: seq<Node>, x: Node)
    requires Distinct(s)
    ensures multiset(s)[x] <= 1
  {
    if s != [] {
      CountDistinct(s[1..], x);
      assert s == [s[0]] + s[1..];
      if x == s[0] { assert x !in s[1..]; assert x !in multiset(s[1..]); }
    }
  }

  lemma {:induction false} SortedDistinct(s: seq<Node>, cmpr: Callback<Node>)
    requires Distinct(s)
    ensures Distinct(SortOrder(s, cmpr))
  {
    SortOrderPermutes(s, cmpr);
    DistinctCount(s);
    DistinctCount(SortOrder(s, cmpr));
  }

  // ---------- One operation, on roles ----------

  lemma {:induction false} InitRoles(w: Lists, h: Node)
    requires OneRole(w) && Legal(w, OpInit(h))
    ensures OneRole(Next(w, OpInit(h)))
  {
  }

  lemma {:induction false} AddRoles(w: Lists, h: Node, x: Node)
    requires OneRole(w) && Legal(w, OpAddToHead(h, x))
    ensures OneRole(Next(w, OpAddToHead(h, x))) && OneRole(Next(w, OpAddToTail(h, x)))
  {
  }

  lemma {:induction false} RemoveRoles(w: Lists, x: Node)
    requires OneRole(w) && Legal(w, OpRemove(x))
    ensures OneRole(Next(w, OpRemove(x)))
  {
    var s := w.rings[Owner(w, x)];
    var i :| 0 <= i < |s| && s[i] == x;
    MinusOf(s, x, i);
    TakeOutRoles(w, Owner(w, x), i);
  }

  lemma {:induction false} TakeOutRoles(w: Lists, h: Node, i: nat)
    requires OneRole(w) && h in w.rings && i < |w.rings[h]|
    ensures var s := w.rings[h]; OneRole(Lists(w.rings[h := RemoveAt(s, i)], w.loose + {s[i]}))
  {
  }

  lemma {:induction false} ReplaceRoles(w: Lists, h: Node, g: Node)
    requires OneRole(w) && Legal(w, OpReplaceHead(h, g))
    ensures OneRole(Next(w, OpReplaceHead(h, g)))
  {
  }

  lemma {:induction false} InsertRoles(w: Lists, h: Node, g: Node)
    requires OneRole(w) && Legal(w, OpInsertList(h, g))
    ensures OneRole(Next(w, OpInsertList(h, g)))
  {
  }

  lemma {:induction false} PermuteRoles(w: Lists, h: Node, r: seq<Node>)
    requires OneRole(w) && h in w.rings && Distinct(r)
    requires forall j :: 0 <= j < |r| ==> r[j] in w.rings[h]
    ensures OneRole(Lists(w.rings[h := r], w.loose))
  {
  }

  lemma {:induction false} SortRoles(w: Lists, h: Node, cmpr: Callback<Node>)
    requires OneRole(w) && Legal(w, OpSort(h, cmpr))
    ensures OneRole(Next(w, OpSort(h, cmpr)))
  {
    var s := w.rings[h];
    SortedDistinct(s, cmpr);
    SortOrderPermutes(s, cmpr);
    var r := SortOrder(s, cmpr);
    forall j | 0 <= j < |r| ensures r[j] in s { assert r[j] in multiset(r); }
    PermuteRoles(w, h, r);
  }

  lemma {:induction false} NextOneRole(w: Lists, op: Op)
    requires OneRole(w) && Legal(w, op)
    ensures OneRole(Next(w, op))
  {
    match op
    case OpInit(h) => InitRoles(w, h);
    case OpAddToHead(h, x) => AddRoles(w, h, x);
    case OpAddToTail(h, x) => AddRoles(w, h, x);
    case OpRemove(x) => RemoveRoles(w, x);
    case OpReplaceHead(h, g) => ReplaceRoles(w, h, g);
    case OpInsertList(h, g) => InsertRoles(w, h, g);
    case OpSort(h, cmpr) => SortRoles(w, h, cmpr);
  }

  // ---------- One operation, on the set of all nodes ----------

  lemma {:induction false} NodesAre(w: Lists)
    ensures forall x :: x in Nodes(w) <==> InSomeRing(w, x) || x in w.loose
  {
  }

  lemma {:induction false} SameNodesOne(w: Lists, h: Node, r: seq<Node>, loose: set<Node>)
    requires h in w.rings
    requires forall x :: x in r || x in loose <==> x in w.rings[h] || x in w.loose
    ensures Nodes(Lists(w.rings[h := r], loose)) == Nodes(w)
  {
    var w' := Lists(w.rings[h := r], loose);
    NodesAre(w);
    NodesAre(w');
    forall x ensures x in Nodes(w') <==> x in Nodes(w) {
      if g :| g in w.rings && x in w.rings[g] && g != h { assert x in w'.rings[g]; }
      if g :| g in w'.rings && x in w'.rings[g] && g != h { assert x in w.rings[g]; }
      assert x in r ==> x in w'.rings[h];
    }
  }

  lemma {:induction false} SameNodesTwo(w: Lists, h: Node, g: Node, r: seq<Node>)
    requires h in w.rings && g in w.rings
    requires forall x :: x in r <==> x in w.rings[h] || x in w.rings[g]
    requires h == g ==> r == []
    ensures Nodes(Lists(w.rings[h := r][g := []], w.loose)) == Nodes(w)
  {
    var w' := Lists(w.rings[h := r][g := []], w.loose);
    NodesAre(w);
    NodesAre(w');
    forall x ensures x in Nodes(w') <==> x in Nodes(w) {
      if k :| k in w.rings && x in w.rings[k] && k != h && k != g { assert x in w'.rings[k]; }
      if k :| k in w'.rings && x in w'.rings[k] && k != h && k != g { assert x in w.rings[k]; }
      assert x in r ==> x in w'.rings[h];
    }
  }

  lemma {:induction false} SameNodesInit(w: Lists, h: Node)
    requires OneRole(w) && Legal(w, OpInit(h))
    ensures Nodes(Next(w, OpInit(h))) == Nodes(w)
  {
    var w' := Next(w, OpInit(h));
    NodesAre(w);
    NodesAre(w');
    forall x ensures x in Nodes(w') <==> x in Nodes(w) {
      if h in w.rings { assert w.rings[h] == []; }
      if k :| k in w.rings && x in w.rings[k] { assert k in w'.rings && w'.rings[k] == w.rings[k]; }
      if k :| k in w'.rings && x in w'.rings[k] { assert x in w.rings[k]; }
    }
  }

  /** No operation loses a node or brings in a new one. */
  lemma {:induction false} NextSameNodes(w: Lists, op: Op)
    requires OneRole(w) && Legal(w, op)
    ensures Nodes(Next(w, op)) == Nodes(w)
  {
    match op
    case OpInit(h) => SameNodesInit(w, h);
    case OpAddToHead(h, x) => SameNodesOne(w, h, [x] + w.rings[h], w.loose - {x});
    case OpAddToTail(h, x) => SameNodesOne(w, h, w.rings[h] + [x], w.loose - {x});
    case OpRemove(x) =>
      var h := Owner(w, x);
      var i :| 0 <= i < |w.rings[h]| && w.rings[h][i] == x;
      MinusOf(w.rings[h], x, i);
      RemoveAtMembers(w.rings[h], i);
      SameNodesOne(w, h, Minus(w.rings[h], x), w.loose + {x});
    case OpReplaceHead(h, g) => SameNodesTwo(w, g, h, w.rings[h]);
    case OpInsertList(h, g) => SameNodesTwo(w, h, g, w.rings[g] + w.rings[h]);
    case OpSort(h, cmpr) =>
      SortOrderMembers(w.rings[h], cmpr);
      SameNodesOne(w, h, SortOrder(w.rings[h], cmpr), w.loose);
  }

  lemma {:induction false} RemoveAtMembers(s: seq<Node>, i: nat)
    requires i < |s|
    ensures forall x :: x in RemoveAt(s, i) || x == s[i] <==> x in s
  {
    assert s == s[..i] + [s[i]] + s[i + 1..];
  }

  // ---------- One operation, on the links ----------

  ghost function SetOf(s: seq<Node>): (r: set<Node>)
    ensures forall i :: 0 <= i < |s| ==> s[i] in r
    ensures forall x :: x in r ==> x in s
  {
    set x | x in s
  }

  /** The nodes of one list. */
  ghost function RingNodes(w: Lists, h: Node): set<Node>
    requires h in w.rings
  {
    {h} + SetOf(w.rings[h])
  }

  /** None of the nodes of `w` is touched. */
  ghost predicate Untouched(w: Lists, touched: set<Node>) {
    && (forall h :: h in w.rings ==> h !in touched)
    && (forall h, i :: h in w.rings && 0 <= i < |w.rings[h]| ==> w.rings[h][i] !in touched)
    && w.loose !! touched
  }

  /** The lists and loose nodes left when the given heads and nodes are set aside. */
  ghost function Rest(w: Lists, heads: set<Node>, x: set<Node>): Lists {
    Lists(w.rings - heads, w.loose - x)
  }

  lemma {:induction false} RestUntouched(w: Lists, h: Node, x: set<Node>)
    requires OneRole(w) && h in w.rings && x <= w.loose
    ensures Untouched(Rest(w, {h}, x), RingNodes(w, h) + x)
  {
  }

  lemma {:induction false} RestUntouchedTwo(w: Lists, h: Node, g: Node)
    requires OneRole(w) && h in w.rings && g in w.rings
    ensures Untouched(Rest(w, {h, g}, {}), RingNodes(w, h) + RingNodes(w, g))
  {
  }

  /** Lists stay as they were when no link of theirs changes. */
  twostate lemma {:induction false} BystandersStay(w: Lists)
    requires old(Rings(w)) && old(NoLinks(w.loose))
    requires forall x :: x in Nodes(w) ==> x.prev == old(x.prev) && x.next == old(x.next)
    ensures Rings(w) && NoLinks(w.loose)
  {
    forall h | h in w.rings ensures Ring(h, w.rings[h]) {
      assert old(Ring(h, w.rings[h]));
      var s := w.rings[h];
      assert forall i :: 0 <= i < |s| ==> s[i].prev == old(s[i].prev) && s[i].next == old(s[i].next);
    }
  }

  /** The lists `w` are the untouched ones of `rest` and the list of `h`. */
  lemma {:induction false} Join(w: Lists, rest: Lists, h: Node)
    requires OneRole(w) && Rings(rest) && NoLinks(rest.loose)
    requires h in w.rings && Ring(h, w.rings[h])
    requires forall k :: k in w.rings && k != h ==> k in rest.rings && rest.rings[k] == w.rings[k]
    requires forall x :: x in w.loose ==> x in rest.loose || (x.prev == null && x.next == null)
    ensures Represents(w)
  {
  }

  lemma {:induction false} JoinTwo(w: Lists, rest: Lists, h: Node, g: Node)
    requires OneRole(w) && Rings(rest) && NoLinks(rest.loose) && w.loose == rest.loose
    requires h in w.rings && Ring(h, w.rings[h]) && g in w.rings && Ring(g, w.rings[g])
    requires forall k :: k in w.rings && k != h && k != g ==> k in rest.rings && rest.rings[k] == w.rings[k]
    ensures Represents(w)
  {
  }

  method ApplyInit(h: Node, ghost w: Lists)
    requires Represents(w) && Legal(w, OpInit(h))
    modifies Nodes(w)
    ensures Represents(Next(w, OpInit(h)))
  {
    InitRoles(w, h);
    Init(h);
  }

  method AddAmong(h: Node, x: Node, action: Action, ghost s: seq<Node>, ghost rest: Lists, ghost touched: set<Node>)
    requires Ring(h, s) && x != h && x !in s && x.prev == null && x.next == null
    requires Rings(rest) && NoLinks(rest.loose) && Untouched(rest, touched)
    requires touched == {h} + SetOf(s) + {x}
    modifies touched
    ensures Ring(h, Receive(s, action, x)) && Rings(rest) && NoLinks(rest.loose)
  {
    Attach(x, h, action, s);
    BystandersStay(rest);
  }

  method ApplyAddToHead(h: Node, x: Node, ghost w: Lists)
    requires Represents(w) && Legal(w, OpAddToHead(h, x))
    modifies RingNodes(w, h), x
    ensures Represents(Next(w, OpAddToHead(h, x)))
  {
    AddRoles(w, h, x);
    RestUntouched(w, h, {x});
    AddAmong(h, x, ToHead, w.rings[h], Rest(w, {h}, {x}), RingNodes(w, h) + {x});
    Join(Next(w, OpAddToHead(h, x)), Rest(w, {h}, {x}), h);
  }

  method ApplyAddToTail(h: Node, x: Node, ghost w: Lists)
    requires Represents(w) && Legal(w, OpAddToTail(h, x))
    modifies RingNodes(w, h), x
    ensures Represents(Next(w, OpAddToTail(h, x)))
  {
    AddRoles(w, h, x);
    RestUntouched(w, h, {x});
    AddAmong(h, x, ToTail, w.rings[h], Rest(w, {h}, {x}), RingNodes(w, h) + {x});
    Join(Next(w, OpAddToTail(h, x)), Rest(w, {h}, {x}), h);
  }

  method RemoveAmong(x: Node, ghost h: Node, ghost s: seq<Node>, ghost i: nat, ghost rest: Lists,
                     ghost touched: set<Node>)
    requires Ring(h, s) && i < |s| && s[i] == x
    requires Rings(rest) && NoLinks(rest.loose) && Untouched(rest, touched)
    requires touched == {h} + SetOf(s)
    modifies touched
    ensures Ring(h, RemoveAt(s, i)) && x.prev == null && x.next == null && Rings(rest) && NoLinks(rest.loose)
  {
    Detach(x, h, s, i);
    BystandersStay(rest);
  }

  method ApplyRemove(x: Node, ghost h: Node, ghost w: Lists)
    requires Represents(w) && Legal(w, OpRemove(x)) && h == Owner(w, x)
    modifies RingNodes(w, h)
    ensures Represents(Next(w, OpRemove(x)))
  {
    ghost var s := w.rings[h];
    ghost var i: nat :| i < |s| && s[i] == x;
    RemoveRoles(w, x);
    MinusOf(s, x, i);
    RestUntouched(w, h, {});
    RemoveAmong(x, h, s, i, Rest(w, {h}, {}), RingNodes(w, h));
    Join(Next(w, OpRemove(x)), Rest(w, {h}, {}), h);
  }

  method ReplaceAmong(h: Node, g: Node, ghost s: seq<Node>, ghost rest: Lists, ghost touched: set<Node>)
    requires Ring(h, s) && Ring(g, []) && g !in s && (g == h ==> s == [])
    requires Rings(rest) && NoLinks(rest.loose) && Untouched(rest, touched)
    requires touched == {h} + SetOf(s) + {g}
    modifies touched
    ensures Ring(g, s) && Ring(h, []) && Rings(rest) && NoLinks(rest.loose)
  {
    RingLinks(h, s);
    ReplaceHead(h, g, s);
    BystandersStay(rest);
  }

  method ApplyReplaceHead(h: Node, g: Node, ghost w: Lists)
    requires Represents(w) && Legal(w, OpReplaceHead(h, g))
    modifies RingNodes(w, h), g
    ensures Represents(Next(w, OpReplaceHead(h, g)))
  {
    ReplaceRoles(w, h, g);
    RestUntouchedTwo(w, h, g);
    ReplaceAmong(h, g, w.rings[h], Rest(w, {h, g}, {}), RingNodes(w, h) + {g});
    JoinTwo(Next(w, OpReplaceHead(h, g)), Rest(w, {h, g}, {}), h, g);
  }

  method InsertAmong(h: Node, g: Node, ghost s: seq<Node>, ghost t: seq<Node>, ghost rest: Lists,
                     ghost touched: set<Node>)
    requires Ring(h, s) && Ring(g, t) && (if h == g then s == [] else Apart(h, s, g, t))
    requires Rings(rest) && NoLinks(rest.loose) && Untouched(rest, touched)
    requires touched == {h} + SetOf(s) + ({g} + SetOf(t))
    modifies touched
    ensures Ring(h, if h == g then [] else t + s) && Ring(g, []) && Rings(rest) && NoLinks(rest.loose)
  {
    RingLinks(h, s);
    RingLinks(g, t);
    InsertListAtHead(h, g, s, t);
    BystandersStay(rest);
  }

  method ApplyInsertList(h: Node, g: Node, ghost w: Lists)
    requires Represents(w) && Legal(w, OpInsertList(h, g))
    modifies RingNodes(w, h), RingNodes(w, g)
    ensures Represents(Next(w, OpInsertList(h, g)))
  {
    InsertRoles(w, h, g);
    RestUntouchedTwo(w, h, g);
    InsertAmong(h, g, w.rings[h], w.rings[g], Rest(w, {h, g}, {}), RingNodes(w, h) + RingNodes(w, g));
    JoinTwo(Next(w, OpInsertList(h, g)), Rest(w, {h, g}, {}), h, g);
  }

  method SortAmong(h: Node, cmpr: Callback<Node>, ghost s: seq<Node>, ghost rest: Lists, ghost touched: set<Node>)
    requires Ring(h, s) && Rings(rest) && NoLinks(rest.loose) && Untouched(rest, touched)
    requires touched == {h} + SetOf(s)
    modifies touched
    ensures Ring(h, SortOrder(s, cmpr)) && Rings(rest) && NoLinks(rest.loose)
  {
    var _ := Sort(h, cmpr, s);
    BystandersStay(rest);
  }

  method ApplySort(h: Node, cmpr: Callback<Node>, ghost w: Lists)
    requires Represents(w) && Legal(w, OpSort(h, cmpr))
    modifies RingNodes(w, h)
    ensures Represents(Next(w, OpSort(h, cmpr)))
  {
    SortRoles(w, h, cmpr);
    RestUntouched(w, h, {});
    SortAmong(h, cmpr, w.rings[h], Rest(w, {h}, {}), RingNodes(w, h));
    Join(Next(w, OpSort(h, cmpr)), Rest(w, {h}, {}), h);
  }

  lemma {:induction false} RingNodesIn(w: Lists)
    ensures forall h :: h in w.rings ==> RingNodes(w, h) <= Nodes(w)
  {
  }

  // ---------- What the new state says, list by list ----------

  lemma {:induction false} RingIn(w: Lists, h: Node, s: seq<Node>)
    requires Represents(w) && h in w.rings && w.rings[h] == s
    ensures Ring(h, s)
  {
  }

  /** The lists `w'` differ from `w` at the given heads only. */
  lemma {:induction false} OthersStay(w: Lists, w': Lists, heads: set<Node>, loose: set<Node>)
    requires Represents(w')
    requires forall k :: k in w.rings && k !in heads ==> k in w'.rings && w'.rings[k] == w.rings[k]
    requires loose <= w'.loose
    ensures forall k :: k in w.rings && k !in heads ==> Ring(k, w.rings[k])
    ensures NoLinks(loose)
  {
  }

  lemma {:induction false} InitOutcome(w: Lists, h: Node)
    requires Legal(w, OpInit(h)) && Represents(Next(w, OpInit(h)))
    ensures Ring(h, []) && NoLinks(w.loose - {h})
    ensures forall k :: k in w.rings && k != h ==> Ring(k, w.rings[k])
  {
    OthersStay(w, Next(w, OpInit(h)), {h}, w.loose - {h});
    RingIn(Next(w, OpInit(h)), h, []);
  }

  lemma {:induction false} AddToHeadOutcome(w: Lists, h: Node, x: Node)
    requires Legal(w, OpAddToHead(h, x)) && Represents(Next(w, OpAddToHead(h, x)))
    ensures Ring(h, [x] + w.rings[h]) && NoLinks(w.loose - {x})
    ensures forall k :: k in w.rings && k != h ==> Ring(k, w.rings[k])
  {
    OthersStay(w, Next(w, OpAddToHead(h, x)), {h}, w.loose - {x});
    RingIn(Next(w, OpAddToHead(h, x)), h, [x] + w.rings[h]);
  }

  lemma {:induction false} AddToTailOutcome(w: Lists, h: Node, x: Node)
    requires Legal(w, OpAddToTail(h, x)) && Represents(Next(w, OpAddToTail(h, x)))
    ensures Ring(h, w.rings[h] + [x]) && NoLinks(w.loose - {x})
    ensures forall k :: k in w.rings && k != h ==> Ring(k, w.rings[k])
  {
    OthersStay(w, Next(w, OpAddToTail(h, x)), {h}, w.loose - {x});
    RingIn(Next(w, OpAddToTail(h, x)), h, w.rings[h] + [x]);
  }

  lemma {:induction false} RemoveOutcome(w: Lists, x: Node)
    requires OneRole(w) && Legal(w, OpRemove(x)) && Represents(Next(w, OpRemove(x)))
    ensures NoLinks(w.loose + {x})
    ensures forall h, i :: h in w.rings && 0 <= i < |w.rings[h]| && w.rings[h][i] == x ==>
      Ring(h, RemoveAt(w.rings[h], i))
    ensures forall k :: k in w.rings && x !in w.rings[k] ==> Ring(k, w.rings[k])
  {
    var w' := Next(w, OpRemove(x));
    OthersStay(w, w', {Owner(w, x)}, w.loose + {x});
    forall h, i | h in w.rings && 0 <= i < |w.rings[h]| && w.rings[h][i] == x
      ensures Ring(h, RemoveAt(w.rings[h], i))
    {
      OwnerIsOnly(w, h, i);
      MinusOf(w.rings[h], x, i);
      RingIn(w', h, RemoveAt(w.rings[h], i));
    }
  }

  lemma {:induction false} OwnerIsOnly(w: Lists, h: Node, i: nat)
    requires OneRole(w) && h in w.rings && i < |w.rings[h]|
    ensures IsMember(w, w.rings[h][i]) && Owner(w, w.rings[h][i]) == h
  {
    var x := w.rings[h][i];
    assert x in w.rings[h];
    var g := Owner(w, x);
    var j :| 0 <= j < |w.rings[g]| && w.rings[g][j] == x;
  }

  lemma {:induction false} ReplaceHeadOutcome(w: Lists, h: Node, g: Node)
    requires Legal(w, OpReplaceHead(h, g)) && Represents(Next(w, OpReplaceHead(h, g)))
    ensures Ring(g, w.rings[h]) && Ring(h, []) && NoLinks(w.loose)
    ensures forall k :: k in w.rings && k != h && k != g ==> Ring(k, w.rings[k])
  {
    OthersStay(w, Next(w, OpReplaceHead(h, g)), {h, g}, w.loose);
    RingIn(Next(w, OpReplaceHead(h, g)), g, w.rings[h]);
    RingIn(Next(w, OpReplaceHead(h, g)), h, []);
  }

  lemma {:induction false} InsertListOutcome(w: Lists, h: Node, g: Node)
    requires Legal(w, OpInsertList(h, g)) && Represents(Next(w, OpInsertList(h, g)))
    ensures Ring(h, w.rings[g] + w.rings[h]) && Ring(g, []) && NoLinks(w.loose)
    ensures forall k :: k in w.rings && k != h && k != g ==> Ring(k, w.rings[k])
  {
    OthersStay(w, Next(w, OpInsertList(h, g)), {h, g}, w.loose);
    RingIn(Next(w, OpInsertList(h, g)), h, w.rings[g] + w.rings[h]);
    RingIn(Next(w, OpInsertList(h, g)), g, []);
  }

  lemma {:induction false} SortOutcome(w: Lists, h: Node, cmpr: Callback<Node>)
    requires Legal(w, OpSort(h, cmpr)) && Represents(Next(w, OpSort(h, cmpr)))
    ensures Ring(h, SortOrder(w.rings[h], cmpr)) && NoLinks(w.loose)
    ensures forall k :: k in w.rings && k != h ==> Ring(k, w.rings[k])
  {
    OthersStay(w, Next(w, OpSort(h, cmpr)), {h}, w.loose);
    RingIn(Next(w, OpSort(h, cmpr)), h, SortOrder(w.rings[h], cmpr));
  }

  /** One operation among any number of lists. The first clauses say where each operation
      leaves the list it works on; the last two, that no other list and no other loose node
      is touched. */
  method Apply(op: Op, ghost w: Lists)
    requires Represents(w) && Legal(w, op)
    modifies Nodes(w)
    ensures Represents(Next(w, op))
    ensures op.OpInit? ==> Ring(op.head, [])
    ensures op.OpAddToHead? ==> Ring(op.head, [op.node] + w.rings[op.head])
    ensures op.OpAddToTail? ==> Ring(op.head, w.rings[op.head] + [op.node])
    ensures op.OpRemove? ==> op.node.prev == null && op.node.next == null
    ensures op.OpRemove? ==> forall h, i :: h in w.rings && 0 <= i < |w.rings[h]| && w.rings[h][i] == op.node ==>
      Ring(h, RemoveAt(w.rings[h], i))
    ensures op.OpReplaceHead? ==> Ring(op.newHead, w.rings[op.oldHead]) && Ring(op.oldHead, [])
    ensures op.OpInsertList? ==> Ring(op.outHead, w.rings[op.inHead] + w.rings[op.outHead]) && Ring(op.inHead, [])
    ensures op.OpSort? ==> Ring(op.head, SortOrder(w.rings[op.head], op.cmpr))
    ensures op.OpSort? ==> forall key: Node -> int, strict :: ByKey(w.rings[op.head], op.cmpr, key, strict) ==>
      SortedBy(w.rings[op.head], SortOrder(w.rings[op.head], op.cmpr), key, strict)
    ensures forall k | k in w.rings
                    && (op.OpInit? || op.OpAddToHead? || op.OpAddToTail? || op.OpSort? ==> k != op.head)
                    && (op.OpRemove? ==> op.node !in w.rings[k])
                    && (op.OpReplaceHead? ==> k != op.oldHead && k != op.newHead)
                    && (op.OpInsertList? ==> k != op.outHead && k != op.inHead)
      :: Ring(k, w.rings[k])
    ensures forall x | x in w.loose && (op.OpInit? ==> x != op.head)
                    && (op.OpAddToHead? || op.OpAddToTail? ==> x != op.node)
      :: x.prev == null && x.next == null
  {
    RingNodesIn(w);
    match op
    case OpInit(h) => ApplyInit(h, w); InitOutcome(w, h);
    case OpAddToHead(h, x) => ApplyAddToHead(h, x, w); AddToHeadOutcome(w, h, x);
    case OpAddToTail(h, x) => ApplyAddToTail(h, x, w); AddToTailOutcome(w, h, x);
    case OpRemove(x) => ApplyRemove(x, Owner(w, x), w); RemoveOutcome(w, x);
    case OpReplaceHead(h, g) => ApplyReplaceHead(h, g, w); ReplaceHeadOutcome(w, h, g);
    case OpInsertList(h, g) => ApplyInsertList(h, g, w); InsertListOutcome(w, h, g);
    case OpSort(h, cmpr) => ApplySort(h, cmpr, w); SortOutcome(w, h, cmpr); SortIsByEveryKey(w.rings[h], cmpr);
  }

  // ---------- Runs ----------

  /** Carries out any run of operations on the actual links. */
  method Run(ops: seq<Op>, ghost w: Lists)
    requires Represents(w) && LegalRun(w, ops)
    modifies Nodes(w)
    ensures Represents(After(w, ops))
    decreases |ops|
  {
    if ops != [] {
      NextSameNodes(w, ops[0]);
      Apply(ops[0], w);
      Run(ops[1..], Next(w, ops[0]));
    }
  }

  /** A run of one operation is that operation. */
  lemma {:induction false} RunOne(w: Lists, op: Op)
    ensures LegalRun(w, []) && After(w, []) == w
    ensures LegalRun(w, [op]) <==> Legal(w, op)
    ensures Legal(w, op) ==> After(w, [op]) == Next(w, op)
  {
    assert [op][1..] == [];
  }

  /** Two runs one after the other are one run. */
  lemma {:induction false} RunConcat(w: Lists, a: seq<Op>, b: seq<Op>)
    ensures LegalRun(w, a + b) <==> LegalRun(w, a) && LegalRun(After(w, a), b)
    ensures LegalRun(w, a + b) ==> After(w, a + b) == After(After(w, a), b)
    decreases |a|
  {
    if a == [] {
      assert a + b == b;
    } else {
      assert (a + b)[0] == a[0] && (a + b)[1..] == a[1..] + b;
      if Legal(w, a[0]) { RunConcat(Next(w, a[0]), a[1..], b); }
    }
  }

  /** Adding nodes one by one at the tail leaves them in order behind the old members. */
  lemma {:induction false} AddAllToTail(w: Lists, h: Node, xs: seq<Node>, ops: seq<Op>)
    requires h in w.rings && Distinct(xs) && forall i :: 0 <= i < |xs| ==> xs[i] in w.loose
    requires |ops| == |xs| && forall i :: 0 <= i < |ops| ==> ops[i] == OpAddToTail(h, xs[i])
    ensures LegalRun(w, ops)
    ensures After(w, ops) == Lists(w.rings[h := w.rings[h] + xs], w.loose - SetOf(xs))
    decreases |xs|
  {
    var s := w.rings[h];
    if xs == [] {
      assert s + xs == s && w.rings[h := s] == w.rings && w.loose - SetOf(xs) == w.loose;
    } else {
      var w' := Next(w, ops[0]);
      AddAllToTail(w', h, xs[1..], ops[1..]);
      assert (s + [xs[0]]) + xs[1..] == s + xs;
      assert w'.loose - SetOf(xs[1..]) == w.loose - SetOf(xs) by { assert xs == [xs[0]] + xs[1..]; }
    }
  }

  /** Adding them at the head leaves them in reverse in front. */
  lemma {:induction false} AddAllToHead(w: Lists, h: Node, xs: seq<Node>, ops: seq<Op>)
    requires h in w.rings && Distinct(xs) && forall i :: 0 <= i < |xs| ==> xs[i] in w.loose
    requires |ops| == |xs| && forall i :: 0 <= i < |ops| ==> ops[i] == OpAddToHead(h, xs[i])
    ensures LegalRun(w, ops)
    ensures After(w, ops) == Lists(w.rings[h := Reverse(xs) + w.rings[h]], w.loose - SetOf(xs))
    decreases |xs|
  {
    var s := w.rings[h];
    if xs == [] {
      assert Reverse(xs) + s == s && w.rings[h := s] == w.rings && w.loose - SetOf(xs) == w.loose;
    } else {
      var w' := Next(w, ops[0]);
      AddAllToHead(w', h, xs[1..], ops[1..]);
      assert Reverse(xs[1..]) + ([xs[0]] + s) == Reverse(xs) + s;
      assert w'.loose - SetOf(xs[1..]) == w.loose - SetOf(xs) by { assert xs == [xs[0]] + xs[1..]; }
    }
  }

  /** The same on the links; `h` may well be empty, and no other list is touched. */
  method RunAdds(ops: seq<Op>, h: Node, atTail: bool, ghost xs: seq<Node>, ghost w: Lists)
    requires Represents(w) && h in w.rings && Distinct(xs) && forall i :: 0 <= i < |xs| ==> xs[i] in w.loose
    requires |ops| == |xs|
    requires forall i :: 0 <= i < |ops| ==> ops[i] == if atTail then OpAddToTail(h, xs[i]) else OpAddToHead(h, xs[i])
    modifies Nodes(w)
    ensures Ring(h, if atTail then w.rings[h] + xs else Reverse(xs) + w.rings[h])
    ensures forall k :: k in w.rings && k != h ==> Ring(k, w.rings[k])
  {
    if atTail { AddAllToTail(w, h, xs, ops); } else { AddAllToHead(w, h, xs, ops); }
    Run(ops, w);
    ghost var w' := After(w, ops);
    RingIn(w', h, if atTail then w.rings[h] + xs else Reverse(xs) + w.rings[h]);
    OthersStay(w, w', {h}, {});
  }

  /** Taking a node out again undoes adding it, at either end. */
  lemma {:induction false} RemoveUndoesAdd(w: Lists, h: Node, x: Node)
    requires OneRole(w) && h in w.rings && x in w.loose
    ensures LegalRun(w, [OpAddToHead(h, x), OpRemove(x)]) && After(w, [OpAddToHead(h, x), OpRemove(x)]) == w
    ensures LegalRun(w, [OpAddToTail(h, x), OpRemove(x)]) && After(w, [OpAddToTail(h, x), OpRemove(x)]) == w
  {
    UndoAdd(w, h, x, OpAddToHead(h, x), 0);
    UndoAdd(w, h, x, OpAddToTail(h, x), |w.rings[h]|);
  }

  lemma {:induction false} UndoAdd(w: Lists, h: Node, x: Node, add: Op, i: nat)
    requires OneRole(w) && h in w.rings && x in w.loose
    requires (add == OpAddToHead(h, x) && i == 0) || (add == OpAddToTail(h, x) && i == |w.rings[h]|)
    ensures LegalRun(w, [add, OpRemove(x)]) && After(w, [add, OpRemove(x)]) == w
  {
    var w' := Next(w, add);
    AddRoles(w, h, x);
    OwnerIsOnly(w', h, i);
    MinusOf(w'.rings[h], x, i);
    assert RemoveAt(w'.rings[h], i) == w.rings[h];
    assert Next(w', OpRemove(x)).rings == w.rings && Next(w', OpRemove(x)).loose == w.loose;
    RunConcat(w, [add], [OpRemove(x)]);
    assert [add] + [OpRemove(x)] == [add, OpRemove(x)];
    RunOne(w, add);
    RunOne(w', OpRemove(x));
  }

  /** Over a whole run every node keeps exactly one role, and none is lost or added. */
  lemma {:induction false} RunConserves(w: Lists, ops: seq<Op>)
    requires OneRole(w) && LegalRun(w, ops)
    ensures OneRole(After(w, ops)) && Nodes(After(w, ops)) == Nodes(w)
    decreases |ops|
  {
    if ops != [] {
      NextOneRole(w, ops[0]);
      NextSameNodes(w, ops[0]);
      RunConserves(Next(w, ops[0]), ops[1..]);
    }
  }

  /** The in-list test is right about every tracked node. */
  method QueryInList(x: Node, ghost w: Lists) returns (linked: bool)
    requires Represents(w) && x in Nodes(w)
    ensures linked <==> InSomeRing(w, x)
  {
    NodesAre(w);
    linked := NodeIsInList(x);
  }
}
