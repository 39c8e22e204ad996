/** What `dllist_sort` of `include/dllist.h` does to the order of the members, apart
    from the links: reverse the list, then repeatedly take out a running smallest.
    The callback also receives the number of calls made before, so that it stands for
    any callback whatever, including one that contradicts itself. */
module Selection {
  import opened Seqs

  type Callback<!T> = (nat, T, T) -> bool

  /** Place of the running smallest after `n` nodes; the first node costs no call. */
  function Pick<T>(t: seq<T>, cmpr: Callback<T>, calls: nat, n: nat): (p: nat)
    requires 1 <= n <= |t|
    ensures p < n
    decreases n
  {
    if n == 1 then 0
    else
      var p := Pick(t, cmpr, calls, n - 1);
      if cmpr(calls + n - 2, t[p], t[n - 1]) then n - 1 else p
  }

  /** Taking the smallest out until nothing is left. */
  function Drain<T>(t: seq<T>, cmpr: Callback<T>, calls: nat): seq<T>
    decreases |t|
  {
    if t == [] then []
    else
      var p := Pick(t, cmpr, calls, |t|);
      [t[p]] + Drain(RemoveAt(t, p), cmpr, calls + |t| - 1)
  }

  function SortOrder<T>(s: seq<T>, cmpr: Callback<T>): seq<T> {
    Drain(Reverse(s), cmpr, 0)
  }

  /** The calls made while draining `n` nodes, pass by pass. */
  function DrainCalls(n: nat): nat {
    if n == 0 then 0 else n - 1 + DrainCalls(n - 1)
  }

  lemma {:induction false} DrainCallsTotal(n: nat)
    ensures 2 * DrainCalls(n) == n * (n - 1)
  {
    if n > 0 { DrainCallsTotal(n - 1); }
  }

  // ---------- Permutation, for every callback ----------

  /** One pass: the pick `x` comes first, the rest follows. */
  lemma {:induction false} DrainStep<T>(t: seq<T>, cmpr: Callback<T>, calls: nat)
    returns (x: T, rest: seq<T>, r: seq<T>)
    requires t != []
    ensures var p := Pick(t, cmpr, calls, |t|); x == t[p] && rest == RemoveAt(t, p)
    ensures r == Drain(rest, cmpr, calls + |t| - 1)
    ensures Drain(t, cmpr, calls) == [x] + r
    ensures multiset(t) == multiset{x} + multiset(rest)
  {
    var p := Pick(t, cmpr, calls, |t|);
    x, rest := t[p], RemoveAt(t, p);
    r := Drain(rest, cmpr, calls + |t| - 1);
    RemoveAtMultiset(t, p);
  }

  lemma {:induction false} PassMultiset<T>(t: seq<T>, cmpr: Callback<T>, calls: nat, d: seq<T>)
    returns (rest: seq<T>, r: seq<T>, later: nat)
    requires t != [] && d == Drain(t, cmpr, calls)
    ensures |rest| == |t| - 1 && r == Drain(rest, cmpr, later)
    ensures multiset(r) == multiset(rest) ==> multiset(d) == multiset(t)
  {
    var x;
    x, rest, r := DrainStep(t, cmpr, calls);
    later := calls + |t| - 1;
  }

  lemma {:induction false} DrainMultiset<T>(t: seq<T>, cmpr: Callback<T>, calls: nat, d: seq<T>)
    requires d == Drain(t, cmpr, calls)
    ensures multiset(d) == multiset(t)
    decreases |t|
  {
    if t != [] {
      var rest, r, later := PassMultiset(t, cmpr, calls, d);
      DrainMultiset(rest, cmpr, later, r);
    }
  }

  lemma {:induction false} SortOrderPermutes<T>(s: seq<T>, cmpr: Callback<T>)
    ensures multiset(SortOrder(s, cmpr)) == multiset(s) && |SortOrder(s, cmpr)| == |s|
  {
    ReverseMultiset(s);
    DrainMultiset(Reverse(s), cmpr, 0, SortOrder(s, cmpr));
    assert |multiset(SortOrder(s, cmpr))| == |SortOrder(s, cmpr)| && |multiset(s)| == |s|;
  }

  // ---------- The numbers of the calls ----------

  /** On the members of `t` the callback says yes to call `k` and to no other call. */
  ghost predicate OnlyAt<T>(t: seq<T>, cmpr: Callback<T>, k: nat) {
    forall c: nat, i, j :: 0 <= i < |t| && 0 <= j < |t| ==> (cmpr(c, t[i], t[j]) <==> c == k)
  }

  /** `d` is `t` with the element at place `b` moved up to place `a`. */
  ghost predicate MovedUp<T>(d: seq<T>, t: seq<T>, a: nat, b: nat) {
    && |d| == |t| && a <= b < |t|
    && forall j {:trigger d[j]} :: 0 <= j < |d| ==>
         d[j] == t[if j == a then b else if a < j <= b then j - 1 else j]
  }

  /** A pass picks the first node, or the one that call `k` offers: node `j` of a pass is
      offered by the pass's call number `j - 1`. */
  lemma {:induction false} PickAtCall<T>(t: seq<T>, cmpr: Callback<T>, calls: nat, n: nat, k: nat)
    requires 1 <= n <= |t| && OnlyAt(t, cmpr, k)
    ensures Pick(t, cmpr, calls, n) == if calls <= k < calls + n - 1 then k - calls + 1 else 0
    decreases n
  {
    if n > 1 { PickAtCall(t, cmpr, calls, n - 1, k); }
  }

  lemma {:induction false} PassAtCall<T>(t: seq<T>, cmpr: Callback<T>, calls: nat, k: nat, p: nat)
    returns (rest: seq<T>, r: seq<T>)
    requires t != [] && OnlyAt(t, cmpr, k) && p == if calls <= k < calls + |t| - 1 then k - calls + 1 else 0
    ensures rest == RemoveAt(t, p) && OnlyAt(rest, cmpr, k) && r == Drain(rest, cmpr, calls + |t| - 1)
    ensures Drain(t, cmpr, calls) == [t[p]] + r
  {
    var x;
    x, rest, r := DrainStep(t, cmpr, calls);
    PickAtCall(t, cmpr, calls, |t|, k);
  }

  lemma {:induction false} FirstPassSkips<T>(t: seq<T>, cmpr: Callback<T>, calls: nat, k: nat, d: seq<T>)
    returns (rest: seq<T>, r: seq<T>, later: nat)
    requires OnlyAt(t, cmpr, k) && d == Drain(t, cmpr, calls)
    requires t != [] && (k < calls || calls + |t| - 1 <= k)
    ensures OnlyAt(rest, cmpr, k) && r == Drain(rest, cmpr, later) && later == calls + |t| - 1
    ensures rest == RemoveAt(t, 0) && |rest| == |t| - 1 && d == [t[0]] + r
  {
    rest, r := PassAtCall(t, cmpr, calls, k, 0);
    later := calls + |t| - 1;
  }

  lemma {:induction false} PassUnmoved<T>(t: seq<T>, cmpr: Callback<T>, calls: nat, k: nat, d: seq<T>)
    returns (rest: seq<T>, r: seq<T>, later: nat)
    requires OnlyAt(t, cmpr, k) && d == Drain(t, cmpr, calls)
    requires t != [] && (k < calls || calls + |t| - 1 <= k)
    ensures OnlyAt(rest, cmpr, k) && r == Drain(rest, cmpr, later) && later == calls + |t| - 1
    ensures |rest| == |t| - 1 && (r == rest ==> d == t)
  {
    rest, r, later := FirstPassSkips(t, cmpr, calls, k, d);
    assert t == [t[0]] + rest;
  }

  lemma {:induction false} DrainPast<T>(t: seq<T>, cmpr: Callback<T>, calls: nat, k: nat, d: seq<T>)
    requires k < calls && OnlyAt(t, cmpr, k) && d == Drain(t, cmpr, calls)
    ensures d == t
    decreases |t|
  {
    if t != [] {
      var rest, r, later := PassUnmoved(t, cmpr, calls, k, d);
      DrainPast(rest, cmpr, later, k, r);
    }
  }

  lemma {:induction false} MovedFirst<T>(d: seq<T>, t: seq<T>, p: nat)
    requires p < |t| && d == [t[p]] + RemoveAt(t, p)
    ensures MovedUp(d, t, 0, p)
  {
  }

  lemma {:induction false} MovedLater<T>(d: seq<T>, t: seq<T>, rest: seq<T>, r: seq<T>, a: nat, b: nat)
    requires t != [] && rest == RemoveAt(t, 0) && d == [t[0]] + r && MovedUp(r, rest, a, b)
    ensures MovedUp(d, t, a + 1, b + 1)
  {
    forall j | 0 < j < |d|
      ensures d[j] == t[if j == a + 1 then b + 1 else if a + 1 < j <= b + 1 then j - 1 else j]
    {
      assert d[j] == r[j - 1];
    }
  }

  /** The number of the first call of pass `a` when draining `n` nodes. */
  function FirstCall(n: nat, a: nat): nat
    requires a < n
  {
    if a == 0 then 0 else n - 1 + FirstCall(n - 1, a - 1)
  }

  lemma {:induction false} FirstCallIs(n: nat, a: nat)
    requires a < n
    ensures FirstCall(n, a) == DrainCalls(n) - DrainCalls(n - a)
  {
    if a > 0 { FirstCallIs(n - 1, a - 1); }
  }

  lemma {:induction false} CallsLeft(n: nat)
    ensures DrainCalls(n) == if n == 0 then 0 else n - 1 + DrainCalls(n - 1)
  {
  }

  lemma {:induction false} FirstPassMoves<T>(t: seq<T>, cmpr: Callback<T>, calls: nat, k: nat, d: seq<T>, p: nat)
    requires OnlyAt(t, cmpr, k) && d == Drain(t, cmpr, calls)
    requires calls <= k < calls + |t| - 1 && p == k - calls + 1
    ensures d == [t[p]] + RemoveAt(t, p)
  {
    var rest, r := PassAtCall(t, cmpr, calls, k, p);
    DrainPast(rest, cmpr, calls + |t| - 1, k, r);
  }

  lemma {:induction false} FirstPassMovesUp<T>(t: seq<T>, cmpr: Callback<T>, calls: nat, k: nat, d: seq<T>, p: nat)
    requires OnlyAt(t, cmpr, k) && d == Drain(t, cmpr, calls)
    requires calls <= k < calls + |t| - 1 && p == k - calls + 1
    ensures MovedUp(d, t, 0, p)
  {
    FirstPassMoves(t, cmpr, calls, k, d, p);
    MovedFirst(d, t, p);
  }

  lemma {:induction false} LaterCall(n: nat, a: nat, b: nat, calls: nat, k: nat)
    requires 0 < a < b < n && k == calls + FirstCall(n, a) + (b - a - 1)
    ensures calls + n - 1 <= k == (calls + n - 1) + FirstCall(n - 1, a - 1) + (b - a - 1)
  {
  }

  lemma {:induction false} LaterMoves<T>(d: seq<T>, t: seq<T>, rest: seq<T>, r: seq<T>, a: nat, b: nat)
    requires 0 < a < b < |t| && rest == RemoveAt(t, 0) && d == [t[0]] + r
    ensures MovedUp(r, rest, a - 1, b - 1) ==> MovedUp(d, t, a, b)
  {
    if MovedUp(r, rest, a - 1, b - 1) { MovedLater(d, t, rest, r, a - 1, b - 1); }
  }

  lemma {:induction false} SkipMoves<T>(t: seq<T>, cmpr: Callback<T>, calls: nat, k: nat, d: seq<T>, a: nat, b: nat)
    returns (rest: seq<T>, r: seq<T>, later: nat)
    requires OnlyAt(t, cmpr, k) && d == Drain(t, cmpr, calls)
    requires 0 < a < b < |t| && calls + |t| - 1 <= k
    ensures OnlyAt(rest, cmpr, k) && r == Drain(rest, cmpr, later) && later == calls + |t| - 1 && |rest| == |t| - 1
    ensures MovedUp(r, rest, a - 1, b - 1) ==> MovedUp(d, t, a, b)
  {
    rest, r, later := FirstPassSkips(t, cmpr, calls, k, d);
    LaterMoves(d, t, rest, r, a, b);
  }

  lemma {:induction false} LaterPassMoves<T>(t: seq<T>, cmpr: Callback<T>, calls: nat, k: nat, d: seq<T>,
                                             a: nat, b: nat)
    returns (rest: seq<T>, r: seq<T>, later: nat)
    requires OnlyAt(t, cmpr, k) && d == Drain(t, cmpr, calls)
    requires 0 < a < b < |t| && k == calls + FirstCall(|t|, a) + (b - a - 1)
    ensures OnlyAt(rest, cmpr, k) && r == Drain(rest, cmpr, later)
    ensures b - 1 < |rest| && k == later + FirstCall(|rest|, a - 1) + (b - a - 1)
    ensures MovedUp(r, rest, a - 1, b - 1) ==> MovedUp(d, t, a, b)
  {
    LaterCall(|t|, a, b, calls, k);
    rest, r, later := SkipMoves(t, cmpr, calls, k, d, a, b);
  }

  /** Pass `a` offers the node at place `b` in the pass's call `b - a - 1`; if the callback says
      yes to that call only, the node moves up to place `a`. */
  lemma {:induction false} DrainAtCall<T>(t: seq<T>, cmpr: Callback<T>, calls: nat, k: nat, d: seq<T>, a: nat, b: nat)
    requires OnlyAt(t, cmpr, k) && d == Drain(t, cmpr, calls)
    requires a < b < |t| && k == calls + FirstCall(|t|, a) + (b - a - 1)
    ensures MovedUp(d, t, a, b)
    decreases a
  {
    if a == 0 {
      FirstPassMovesUp(t, cmpr, calls, k, d, b);
    } else {
      var rest, r, later := LaterPassMoves(t, cmpr, calls, k, d, a, b);
      DrainAtCall(rest, cmpr, later, k, r, a - 1, b - 1);
    }
  }

  lemma {:induction false} DrainWithout<T>(t: seq<T>, cmpr: Callback<T>, calls: nat, k: nat, d: seq<T>)
    requires OnlyAt(t, cmpr, k) && d == Drain(t, cmpr, calls)
    requires k >= calls + DrainCalls(|t|)
    ensures d == t
    decreases |t|
  {
    CallsLeft(|t|);
    if t != [] {
      var rest, r, later := PassUnmoved(t, cmpr, calls, k, d);
      DrainWithout(rest, cmpr, later, k, r);
    }
  }

  lemma {:induction false} OnlyAtReversed<T>(s: seq<T>, cmpr: Callback<T>, k: nat)
    requires OnlyAt(s, cmpr, k)
    ensures OnlyAt(Reverse(s), cmpr, k)
  {
    forall i | 0 <= i < |s| ensures Reverse(s)[i] == s[|s| - 1 - i] { ReverseAt(s, i); }
  }

  /** The calls of a sort are numbered pass by pass, and in each pass from the front: a callback
      that says yes only to call `b - a - 1` of pass `a` moves exactly one node, from place `b`
      to place `a`, and one that says yes only to a later call than there are moves none. */
  lemma {:induction false} SortCallNumbers<T>(s: seq<T>, cmpr: Callback<T>, k: nat, a: nat, b: nat)
    requires OnlyAt(s, cmpr, k)
    ensures a < b < |s| && k == DrainCalls(|s|) - DrainCalls(|s| - a) + (b - a - 1) ==>
      MovedUp(SortOrder(s, cmpr), Reverse(s), a, b)
    ensures 2 * k >= |s| * (|s| - 1) ==> SortOrder(s, cmpr) == Reverse(s)
  {
    var t, d := Reverse(s), SortOrder(s, cmpr);
    OnlyAtReversed(s, cmpr, k);
    DrainCallsTotal(|s|);
    if k >= DrainCalls(|s|) {
      DrainWithout(t, cmpr, 0, k, d);
    }
    if a < b < |s| && k == DrainCalls(|s|) - DrainCalls(|s| - a) + (b - a - 1) {
      FirstCallIs(|s|, a);
      DrainAtCall(t, cmpr, 0, k, d, a, b);
    }
  }

  // ---------- Sorting by a key ----------

  /** On the members of `s` the callback compares keys. */
  ghost predicate ByKey<T>(s: seq<T>, cmpr: Callback<T>, key: T -> int, strict: bool) {
    forall c: nat, a, b :: a in s && b in s ==>
      (cmpr(c, a, b) <==> if strict then key(a) > key(b) else key(a) >= key(b))
  }

  lemma {:induction false} ByKeyOnFewer<T>(s: seq<T>, q: seq<T>, cmpr: Callback<T>, key: T -> int, strict: bool)
    requires ByKey(s, cmpr, key, strict) && forall x :: x in multiset(q) ==> x in multiset(s)
    ensures ByKey(q, cmpr, key, strict)
  {
    assert forall x :: x in q ==> x in multiset(q);
    assert forall x :: x in multiset(s) ==> x in s;
  }

  ghost predicate Ascending<T>(s: seq<T>, key: T -> int) {
    forall i, j :: 0 <= i < j < |s| ==> key(s[i]) <= key(s[j])
  }

  /** The members with key `k`, in order. */
  ghost function WithKey<T>(s: seq<T>, key: T -> int, k: int): seq<T> {
    if s == [] then [] else (if key(s[0]) == k then [s[0]] else []) + WithKey(s[1..], key, k)
  }

  /** Equal keys keep their order. */
  ghost predicate SameTies<T>(s: seq<T>, r: seq<T>, key: T -> int) {
    forall k :: WithKey(r, key, k) == WithKey(s, key, k)
  }

  /** Equal keys come out in exactly the opposite order. */
  ghost predicate OppositeTies<T>(s: seq<T>, r: seq<T>, key: T -> int) {
    forall k :: WithKey(r, key, k) == Reverse(WithKey(s, key, k))
  }

  lemma {:induction false} Associative<T>(a: seq<T>, b: seq<T>, c: seq<T>)
    ensures a + (b + c) == (a + b) + c
  {
  }

  lemma {:induction false} EmptySides<T>(a: seq<T>, b: seq<T>)
    ensures [] + a == a && a + [] == a && ([] + a) + b == a + b && (a + b) + [] == a + b
  {
  }

  lemma {:induction false} WithKeyConcat<T>(a: seq<T>, b: seq<T>, key: T -> int, k: int)
    ensures WithKey(a + b, key, k) == WithKey(a, key, k) + WithKey(b, key, k)
  {
    if a == [] {
      assert a + b == b;
    } else {
      WithKeyConcat(a[1..], b, key, k);
      assert (a + b)[0] == a[0] && (a + b)[1..] == a[1..] + b;
      Associative(if key(a[0]) == k then [a[0]] else [], WithKey(a[1..], key, k), WithKey(b, key, k));
    }
  }

  lemma {:induction false} WithKeyReverse<T>(s: seq<T>, key: T -> int, k: int)
    ensures WithKey(Reverse(s), key, k) == Reverse(WithKey(s, key, k))
  {
    if s != [] {
      WithKeyReverse(s[1..], key, k);
      WithKeyConcat(Reverse(s[1..]), [s[0]], key, k);
      assert WithKey([s[0]], key, k) == if key(s[0]) == k then [s[0]] else [];
      assert Reverse([s[0]]) == [s[0]];
      ReverseConcat(if key(s[0]) == k then [s[0]] else [], WithKey(s[1..], key, k));
    }
  }

  lemma {:induction false} NoneWithKey<T>(s: seq<T>, key: T -> int, k: int)
    requires forall i :: 0 <= i < |s| ==> key(s[i]) != k
    ensures WithKey(s, key, k) == []
  {
    if s != [] { NoneWithKey(s[1..], key, k); }
  }

  /** The pick is a least element: the last such for `>=`, the first such for `>`. */
  lemma {:induction false} PickIsLeast<T>(t: seq<T>, cmpr: Callback<T>, calls: nat, n: nat, key: T -> int,
                                          strict: bool)
    requires 1 <= n <= |t| && ByKey(t, cmpr, key, strict)
    ensures var p := Pick(t, cmpr, calls, n);
      && (forall j :: 0 <= j < n ==> key(t[p]) <= key(t[j]))
      && (forall j :: (if strict then 0 <= j < p else p < j < n) ==> key(t[p]) < key(t[j]))
    decreases n
  {
    if n > 1 { PickIsLeast(t, cmpr, calls, n - 1, key, strict); }
  }

  lemma {:induction false} ConsAscending<T>(d: seq<T>, x: T, r: seq<T>, key: T -> int)
    requires d == [x] + r && forall j :: 0 <= j < |r| ==> key(x) <= key(r[j])
    ensures Ascending(r, key) ==> Ascending(d, key)
  {
  }

  lemma {:induction false} LeastOfAll<T>(x: T, rest: seq<T>, r: seq<T>, key: T -> int)
    requires multiset(r) == multiset(rest) && forall j :: 0 <= j < |rest| ==> key(x) <= key(rest[j])
    ensures forall j :: 0 <= j < |r| ==> key(x) <= key(r[j])
  {
    forall j | 0 <= j < |r| ensures key(x) <= key(r[j]) {
      assert r[j] in multiset(r);
      assert r[j] in rest;
    }
  }

  lemma {:induction false} PassLeast<T>(t: seq<T>, cmpr: Callback<T>, calls: nat, key: T -> int, strict: bool)
    requires t != [] && ByKey(t, cmpr, key, strict)
    ensures var p := Pick(t, cmpr, calls, |t|); var rest := RemoveAt(t, p);
      forall j :: 0 <= j < |rest| ==> key(t[p]) <= key(rest[j])
  {
    PickIsLeast(t, cmpr, calls, |t|, key, strict);
  }

  lemma {:induction false} PassByKey<T>(t: seq<T>, cmpr: Callback<T>, calls: nat, key: T -> int, strict: bool)
    returns (x: T, rest: seq<T>, r: seq<T>)
    requires t != [] && ByKey(t, cmpr, key, strict)
    ensures |rest| == |t| - 1 && r == Drain(rest, cmpr, calls + |t| - 1)
    ensures Drain(t, cmpr, calls) == [x] + r && ByKey(rest, cmpr, key, strict)
    ensures forall j :: 0 <= j < |rest| ==> key(x) <= key(rest[j])
  {
    x, rest, r := DrainStep(t, cmpr, calls);
    PassLeast(t, cmpr, calls, key, strict);
    ByKeyOnFewer(t, rest, cmpr, key, strict);
  }

  /** Nothing left over is below the pick. */
  lemma {:induction false} PickFirst<T>(d: seq<T>, x: T, rest: seq<T>, cmpr: Callback<T>, later: nat, r: seq<T>,
                                        key: T -> int)
    requires d == [x] + r && r == Drain(rest, cmpr, later)
    requires forall j :: 0 <= j < |rest| ==> key(x) <= key(rest[j])
    ensures Ascending(r, key) ==> Ascending(d, key)
  {
    DrainMultiset(rest, cmpr, later, r);
    LeastOfAll(x, rest, r, key);
    ConsAscending(d, x, r, key);
  }

  lemma {:induction false} PassAscending<T>(t: seq<T>, cmpr: Callback<T>, calls: nat, d: seq<T>, key: T -> int,
                                            strict: bool)
    returns (rest: seq<T>, r: seq<T>, later: nat)
    requires t != [] && ByKey(t, cmpr, key, strict) && d == Drain(t, cmpr, calls)
    ensures |rest| == |t| - 1 && r == Drain(rest, cmpr, later) && ByKey(rest, cmpr, key, strict)
    ensures Ascending(r, key) ==> Ascending(d, key)
  {
    var x;
    x, rest, r := PassByKey(t, cmpr, calls, key, strict);
    later := calls + |t| - 1;
    PickFirst(d, x, rest, cmpr, later, r, key);
  }

  lemma {:induction false} DrainAscending<T>(t: seq<T>, cmpr: Callback<T>, calls: nat, d: seq<T>, key: T -> int,
                                             strict: bool)
    requires d == Drain(t, cmpr, calls) && ByKey(t, cmpr, key, strict)
    ensures Ascending(d, key)
    decreases |t|
  {
    if t != [] {
      var rest, r, later := PassAscending(t, cmpr, calls, d, key, strict);
      DrainAscending(rest, cmpr, later, r, key, strict);
    }
  }

  /** The nodes of key `k` are in `d` as in `t`, or the other way round. */
  ghost predicate TiesOf<T>(d: seq<T>, t: seq<T>, key: T -> int, strict: bool, k: int) {
    WithKey(d, key, k) == if strict then WithKey(t, key, k) else Reverse(WithKey(t, key, k))
  }

  /** `x` was taken out of `t`, from in front of its equals or from behind them. */
  ghost predicate TakenOut<T>(x: T, t: seq<T>, rest: seq<T>, key: T -> int, strict: bool, k: int) {
    var w, v := WithKey(t, key, k), WithKey(rest, key, k);
    w == if key(x) != k then v else if strict then [x] + v else v + [x]
  }

  /** Taking the first of the equals out of `t`, or the last, or another node. */
  lemma {:induction false} TakeOutTies<T>(t: seq<T>, p: nat, key: T -> int, strict: bool, k: int)
    requires p < |t|
    requires key(t[p]) == k ==> forall j :: (if strict then 0 <= j < p else p < j < |t|) ==> key(t[j]) != k
    ensures TakenOut(t[p], t, RemoveAt(t, p), key, strict, k)
  {
    var a, b := t[..p], t[p + 1..];
    var wa, wb := WithKey(a, key, k), WithKey(b, key, k);
    WithKeyConcat(a, b, key, k);
    WithKeyAround(t, p, key, k);
    if key(t[p]) != k {
      EmptySides(wa, wb);
    } else if strict {
      NoneWithKey(a, key, k);
      EmptySides([t[p]], wb);
      EmptySides(wb, wb);
    } else {
      NoneWithKey(b, key, k);
      EmptySides(wa, [t[p]]);
    }
  }

  lemma {:induction false} WithKeyAround<T>(t: seq<T>, p: nat, key: T -> int, k: int)
    requires p < |t|
    ensures WithKey(t, key, k)
         == WithKey(t[..p], key, k) + (if key(t[p]) == k then [t[p]] else []) + WithKey(t[p + 1..], key, k)
  {
    assert t == t[..p] + t[p..];
    assert t[p..][1..] == t[p + 1..];
    WithKeyConcat(t[..p], t[p..], key, k);
  }

  lemma {:induction false} ConsTies<T>(d: seq<T>, x: T, r: seq<T>, t: seq<T>, rest: seq<T>, key: T -> int,
                                       strict: bool, k: int)
    requires d == [x] + r && TakenOut(x, t, rest, key, strict, k)
    ensures TiesOf(r, rest, key, strict, k) ==> TiesOf(d, t, key, strict, k)
  {
    assert d[1..] == r;
    ReverseSnoc(WithKey(rest, key, k), x);
  }

  /** What one pass does to the nodes of one key. */
  lemma {:induction false} PassTakesOut<T>(t: seq<T>, cmpr: Callback<T>, calls: nat, key: T -> int, strict: bool,
                                           k: int)
    returns (x: T, rest: seq<T>, r: seq<T>)
    requires t != [] && ByKey(t, cmpr, key, strict)
    ensures |rest| == |t| - 1 && r == Drain(rest, cmpr, calls + |t| - 1)
    ensures Drain(t, cmpr, calls) == [x] + r && ByKey(rest, cmpr, key, strict)
    ensures TakenOut(x, t, rest, key, strict, k)
  {
    x, rest, r := DrainStep(t, cmpr, calls);
    PickIsLeast(t, cmpr, calls, |t|, key, strict);
    ByKeyOnFewer(t, rest, cmpr, key, strict);
    TakeOutTies(t, Pick(t, cmpr, calls, |t|), key, strict, k);
  }

  lemma {:induction false} PassTies<T>(t: seq<T>, cmpr: Callback<T>, calls: nat, d: seq<T>, key: T -> int,
                                       strict: bool, k: int)
    returns (rest: seq<T>, r: seq<T>, later: nat)
    requires t != [] && ByKey(t, cmpr, key, strict) && d == Drain(t, cmpr, calls)
    ensures |rest| == |t| - 1 && r == Drain(rest, cmpr, later) && ByKey(rest, cmpr, key, strict)
    ensures TiesOf(r, rest, key, strict, k) ==> TiesOf(d, t, key, strict, k)
  {
    var x;
    x, rest, r := PassTakesOut(t, cmpr, calls, key, strict, k);
    later := calls + |t| - 1;
    ConsTies(d, x, r, t, rest, key, strict, k);
  }

  /** Draining lists the ties in the order of the picks. */
  lemma {:induction false} DrainTies<T>(t: seq<T>, cmpr: Callback<T>, calls: nat, d: seq<T>, key: T -> int,
                                        strict: bool, k: int)
    requires d == Drain(t, cmpr, calls) && ByKey(t, cmpr, key, strict)
    ensures TiesOf(d, t, key, strict, k)
    decreases |t|
  {
    if t == [] {
      assert d == [];
    } else {
      var rest, r, later := PassTies(t, cmpr, calls, d, key, strict, k);
      DrainTies(rest, cmpr, later, r, key, strict, k);
    }
  }

  /** With `key(a) >= key(b)` the result is ascending and ties keep their order. */
  lemma {:induction false} SortIsStable<T>(s: seq<T>, cmpr: Callback<T>, key: T -> int)
    requires ByKey(s, cmpr, key, false)
    ensures Ascending(SortOrder(s, cmpr), key) && SameTies(s, SortOrder(s, cmpr), key)
  {
    ReverseMultiset(s);
    ByKeyOnFewer(s, Reverse(s), cmpr, key, false);
    DrainAscending(Reverse(s), cmpr, 0, SortOrder(s, cmpr), key, false);
    forall k ensures WithKey(SortOrder(s, cmpr), key, k) == WithKey(s, key, k) {
      DrainTies(Reverse(s), cmpr, 0, SortOrder(s, cmpr), key, false, k);
      WithKeyReverse(s, key, k);
      ReverseTwice(WithKey(s, key, k));
    }
  }

  /** With `key(a) > key(b)` the result is ascending and ties come out reversed. */
  lemma {:induction false} StrictSortReversesTies<T>(s: seq<T>, cmpr: Callback<T>, key: T -> int)
    requires ByKey(s, cmpr, key, true)
    ensures Ascending(SortOrder(s, cmpr), key) && OppositeTies(s, SortOrder(s, cmpr), key)
  {
    ReverseMultiset(s);
    ByKeyOnFewer(s, Reverse(s), cmpr, key, true);
    DrainAscending(Reverse(s), cmpr, 0, SortOrder(s, cmpr), key, true);
    forall k ensures WithKey(SortOrder(s, cmpr), key, k) == Reverse(WithKey(s, key, k)) {
      DrainTies(Reverse(s), cmpr, 0, SortOrder(s, cmpr), key, true, k);
      WithKeyReverse(s, key, k);
    }
  }

  /** Equal keys keep their order under a callback for `>=` and change it round under one for `>`. */
  ghost predicate SortedBy<T>(s: seq<T>, r: seq<T>, key: T -> int, strict: bool) {
    Ascending(r, key) && if strict then OppositeTies(s, r, key) else SameTies(s, r, key)
  }

  lemma {:induction false} SortIsByEveryKey<T>(s: seq<T>, cmpr: Callback<T>)
    ensures forall key: T -> int, strict: bool :: ByKey(s, cmpr, key, strict) ==>
      SortedBy(s, SortOrder(s, cmpr), key, strict)
  {
    forall key: T -> int, strict: bool | ByKey(s, cmpr, key, strict)
      ensures SortedBy(s, SortOrder(s, cmpr), key, strict)
    {
      if strict { StrictSortReversesTies(s, cmpr, key); } else { SortIsStable(s, cmpr, key); }
    }
  }

  // ---------- The result is the only one ----------

  lemma {:induction false} WithKeyHas<T>(s: seq<T>, key: T -> int, i: nat)
    requires i < |s|
    ensures s[i] in WithKey(s, key, key(s[i]))
  {
    if i > 0 { WithKeyHas(s[1..], key, i - 1); }
  }

  lemma {:induction false} WithKeyFrom<T>(s: seq<T>, key: T -> int, k: int, x: T)
    requires x in WithKey(s, key, k)
    ensures x in s && key(x) == k
  {
    if x !in (if key(s[0]) == k then [s[0]] else []) { WithKeyFrom(s[1..], key, k, x); }
  }

  /** An ascending sequence starts with a least key of all that it holds. */
  lemma {:induction false} FirstIsLeast<T>(r: seq<T>, q: seq<T>, key: T -> int)
    requires r != [] && Ascending(q, key) && forall k :: WithKey(r, key, k) == WithKey(q, key, k)
    ensures q != [] && key(q[0]) <= key(r[0])
  {
    WithKeyHas(r, key, 0);
    WithKeyFrom(q, key, key(r[0]), r[0]);
  }

  lemma {:induction false} WithKeyRest<T>(s: seq<T>, key: T -> int, k: int)
    requires s != []
    ensures WithKey(s[1..], key, k) == if key(s[0]) == k then WithKey(s, key, k)[1..] else WithKey(s, key, k)
  {
  }

  /** There is one ascending order with given ties: sortedness and the order of
      equal keys determine the whole result. */
  lemma {:induction false} AscendingUnique<T>(r: seq<T>, q: seq<T>, key: T -> int)
    requires Ascending(r, key) && Ascending(q, key)
    requires forall k :: WithKey(r, key, k) == WithKey(q, key, k)
    ensures r == q
  {
    if r == [] {
      if q != [] { FirstIsLeast(q, r, key); }
    } else {
      FirstIsLeast(r, q, key);
      FirstIsLeast(q, r, key);
      var k0 := key(r[0]);
      assert WithKey(r, key, k0)[0] == r[0] && WithKey(q, key, k0)[0] == q[0];
      forall k ensures WithKey(r[1..], key, k) == WithKey(q[1..], key, k) {
        WithKeyRest(r, key, k);
        WithKeyRest(q, key, k);
      }
      AscendingUnique(r[1..], q[1..], key);
      assert r == [r[0]] + r[1..] && q == [q[0]] + q[1..];
    }
  }

  // ---------- When the strict callback is stable ----------

  lemma {:induction false} ConsDistinct<T>(x: T, v: seq<T>)
    requires x !in v && forall i, j :: 0 <= i < j < |v| ==> v[i] != v[j]
    ensures var w := [x] + v; forall i, j :: 0 <= i < j < |w| ==> w[i] != w[j]
  {
  }

  lemma {:induction false} WithKeyDistinct<T>(s: seq<T>, key: T -> int, k: int, w: seq<T>)
    requires w == WithKey(s, key, k) && forall i, j :: 0 <= i < j < |s| ==> s[i] != s[j]
    ensures forall i, j :: 0 <= i < j < |w| ==> w[i] != w[j]
  {
    if s != [] {
      var v := WithKey(s[1..], key, k);
      WithKeyDistinct(s[1..], key, k, v);
      if s[0] in v { WithKeyFrom(s[1..], key, k, s[0]); }
      if key(s[0]) == k { ConsDistinct(s[0], v); } else { assert w == v; }
    }
  }

  lemma {:induction false} WithKeyAtMostOne<T>(s: seq<T>, key: T -> int, k: int)
    requires forall i, j :: 0 <= i < j < |s| ==> key(s[i]) != key(s[j])
    ensures |WithKey(s, key, k)| <= 1
  {
    if s != [] {
      if key(s[0]) == k { NoneWithKey(s[1..], key, k); } else { WithKeyAtMostOne(s[1..], key, k); }
    }
  }

  /** On different nodes, the strict callback keeps ties in order exactly when there are none. */
  lemma {:induction false} StrictSortStableIff<T>(s: seq<T>, cmpr: Callback<T>, key: T -> int)
    requires ByKey(s, cmpr, key, true)
    requires forall i, j :: 0 <= i < j < |s| ==> s[i] != s[j]
    ensures SameTies(s, SortOrder(s, cmpr), key) <==> forall i, j :: 0 <= i < j < |s| ==> key(s[i]) != key(s[j])
  {
    StrictSortReversesTies(s, cmpr, key);
    if forall i, j :: 0 <= i < j < |s| ==> key(s[i]) != key(s[j]) {
      forall k ensures WithKey(SortOrder(s, cmpr), key, k) == WithKey(s, key, k) {
        WithKeyAtMostOne(s, key, k);
        var w := WithKey(s, key, k);
        if |w| == 1 { ReverseAt(w, 0); }
      }
    } else {
      var i, j :| 0 <= i < j < |s| && key(s[i]) == key(s[j]);
      var w := WithKey(s, key, key(s[i]));
      WithKeyHas(s, key, i);
      WithKeyHas(s, key, j);
      WithKeyDistinct(s, key, key(s[i]), w);
      ReverseAt(w, 0);
      assert |w| > 1 && Reverse(w) != w;
    }
  }

  /** A key that 10 and 11 share, and the strict callback for it. */
  function Tens(x: int): int {
    x / 10
  }

  predicate TensAbove(calls: nat, x: int, y: int) {
    Tens(x) > Tens(y)
  }

  lemma {:induction false} DrainOne<T>(a: T, cmpr: Callback<T>, calls: nat)
    ensures Drain([a], cmpr, calls) == [a]
  {
    assert RemoveAt([a], 0) == [];
  }

  lemma {:induction false} DrainTwo<T>(t: seq<T>, cmpr: Callback<T>)
    requires |t| == 2
    ensures Drain(t, cmpr, 0) == if cmpr(0, t[0], t[1]) then [t[1], t[0]] else t
  {
    var x, rest, r := DrainStep(t, cmpr, 0);
    if cmpr(0, t[0], t[1]) {
      assert rest == [t[0]];
      DrainOne(t[0], cmpr, 1);
    } else {
      assert rest == [t[1]];
      DrainOne(t[1], cmpr, 1);
    }
  }

  /** Two members: the one call compares the second with the first. */
  lemma {:induction false} SortTwo<T>(a: T, b: T, cmpr: Callback<T>)
    ensures SortOrder([a, b], cmpr) == if cmpr(0, b, a) then [a, b] else [b, a]
  {
    var t := Reverse([a, b]);
    ReverseAt([a, b], 0);
    ReverseAt([a, b], 1);
    DrainTwo(t, cmpr);
    assert t == [b, a];
  }

  lemma {:induction false} StrictSortSwaps<T>(s: seq<T>, cmpr: Callback<T>, key: T -> int)
    requires |s| == 2 && s[0] != s[1] && key(s[0]) == key(s[1]) && ByKey(s, cmpr, key, true)
    ensures SortOrder(s, cmpr) == [s[1], s[0]] && !SameTies(s, SortOrder(s, cmpr), key)
  {
    assert s == [s[0], s[1]];
    SortTwo(s[0], s[1], cmpr);
    StrictSortStableIff(s, cmpr, key);
  }

  /** Two equals change places under the strict callback. */
  lemma {:induction false} StrictSortSwapsEquals()
    ensures ByKey([10, 11], TensAbove, Tens, true) && Tens(10) == Tens(11)
    ensures SortOrder([10, 11], TensAbove) == [11, 10]
    ensures !SameTies([10, 11], SortOrder([10, 11], TensAbove), Tens)
  {
    var s := [10, 11];
    assert Tens(s[0]) == Tens(s[1]);
    StrictSortSwaps(s, TensAbove, Tens);
  }
}
