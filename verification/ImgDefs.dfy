/** The two macros of `include/img_defs.h` that the rest depends on. */
module ImgDefs {
  import opened Bits

  function Max(a: nat, b: nat): nat {
    if a > b then a else b
  }

  /** `PVR_ALIGN(x, n)` on `w`-bit words; `n` has to be a power of two. */
  function PvrAlign(w: nat, x: nat, n: nat): nat
    requires 0 < n < Pow2(w)
  {
    And(Add(w, x, n - 1), Not(w, n - 1))
  }

  /** `r` is the least multiple of `n` that is not below `x`. */
  ghost predicate LeastMultipleFrom(x: nat, n: nat, r: nat) {
    && (exists k: nat :: r == k * n)
    && x <= r
    && forall k: nat :: x <= k * n ==> r <= k * n
  }

  lemma {:induction false} TruncWraps(w: nat, n: nat)
    requires Pow2(w) <= n < 2 * Pow2(w)
    ensures Trunc(w, n) == n - Pow2(w)
  {
    if w > 0 {
      var p := Pow2(w - 1);
      assert n / 2 - p == (n - 2 * p) / 2;
      TruncWraps(w - 1, n / 2);
    }
  }

  /** The sum without its low bits. */
  lemma {:induction false} AlignIsCut(w: nat, x: nat, a: nat)
    requires a < w && x < Pow2(w)
    ensures Pow2(a) < Pow2(w) && PvrAlign(w, x, Pow2(a)) == Scale(Shr(Trunc(w, x + Pow2(a) - 1), a), a)
  {
    Pow2Mono(a, w);
    Cut(x + Pow2(a) - 1, w);
    AndHighMask(w, Trunc(w, x + Pow2(a) - 1), a);
  }

  lemma {:induction false} RoundedUpIsLeast(x: nat, a: nat)
    ensures LeastMultipleFrom(x, Pow2(a), Scale(Shr(x + Pow2(a) - 1, a), a))
  {
    var n := Pow2(a);
    var y := x + n - 1;
    var q := Shr(y, a);
    Cut(y, a);
    ScaleIsTimes(q, a);
    forall k: nat | x <= k * n ensures q * n <= k * n {
      assert (q - k) * n == q * n - k * n;
      TimesGrows(q - k, n);
    }
  }

  /** The macro gives the least multiple exactly when the rounding still fits the word;
      otherwise it gives zero. */
  lemma {:induction false} AlignIsLeastMultipleIff(w: nat, x: nat, a: nat)
    requires a < w && x < Pow2(w)
    ensures Pow2(a) < Pow2(w)
    ensures LeastMultipleFrom(x, Pow2(a), PvrAlign(w, x, Pow2(a))) <==> x <= Pow2(w) - Pow2(a)
    ensures x > Pow2(w) - Pow2(a) ==> PvrAlign(w, x, Pow2(a)) == 0
  {
    var y := x + Pow2(a) - 1;
    AlignIsCut(w, x, a);
    if y < Pow2(w) {
      TruncFits(w, y);
      RoundedUpIsLeast(x, a);
    } else {
      TruncWraps(w, y);
      ShrSmall(y - Pow2(w), a);
    }
  }

  lemma {:induction false} ShrSmall(n: nat, a: nat)
    requires n < Pow2(a)
    ensures Scale(Shr(n, a), a) == 0
  {
    Cut(n, a);
    TruncFits(a, n);
  }

  lemma {:induction false} LeastIsUnique(x: nat, n: nat, r: nat, q: nat)
    requires LeastMultipleFrom(x, n, r) && LeastMultipleFrom(x, n, q)
    ensures r == q
  {
  }

  /** A multiple of a larger power of two is one of every smaller. */
  lemma {:induction false} CoarserMultiple(a: nat, b: nat, k: nat) returns (k': nat)
    requires a <= b
    ensures k * Pow2(b) == k' * Pow2(a)
  {
    Pow2Add(b - a, a);
    var c, d := Pow2(b - a), Pow2(a);
    k' := k * c;
    assert k * (c * d) == (k * c) * d;
  }

  /** Rounding to a fine grid first does not change the rounding to a coarse one. */
  lemma {:induction false} FineThenCoarse(x: nat, a: nat, b: nat, r: nat, q: nat)
    requires a <= b && LeastMultipleFrom(x, Pow2(a), r) && LeastMultipleFrom(x, Pow2(b), q)
    ensures r <= q && LeastMultipleFrom(r, Pow2(b), q)
  {
    var k: nat :| q == k * Pow2(b);
    var k' := CoarserMultiple(a, b, k);
  }

  /** A value on a coarse grid is on every finer one. */
  lemma {:induction false} CoarseThenFine(x: nat, a: nat, b: nat, r: nat)
    requires b <= a && LeastMultipleFrom(x, Pow2(a), r)
    ensures LeastMultipleFrom(r, Pow2(b), r)
  {
    var k: nat :| r == k * Pow2(a);
    var k' := CoarserMultiple(b, a, k);
  }

  lemma {:induction false} AlignFits(w: nat, x: nat, a: nat)
    requires a < w && x < Pow2(w)
    ensures Pow2(a) < Pow2(w) && PvrAlign(w, x, Pow2(a)) < Pow2(w)
  {
    AlignIsCut(w, x, a);
    Cut(x + Pow2(a) - 1, w);
    Cut(Trunc(w, x + Pow2(a) - 1), a);
  }

  lemma {:induction false} Pow2Max(a: nat, b: nat)
    ensures Max(Pow2(a), Pow2(b)) == Pow2(Max(a, b))
  {
    if a <= b { Pow2Mono(a, b); } else { Pow2Mono(b, a); }
  }

  /** Aligning twice is aligning once to the larger of the two, on every input, also
      where a rounding runs over the end of the word. */
  lemma {:induction false} AlignTwice(w: nat, x: nat, a: nat, b: nat)
    requires a < w && b < w && x < Pow2(w)
    ensures Pow2(a) < Pow2(w) && Pow2(b) < Pow2(w) && Max(Pow2(a), Pow2(b)) < Pow2(w)
    ensures PvrAlign(w, PvrAlign(w, x, Pow2(a)), Pow2(b)) == PvrAlign(w, x, Max(Pow2(a), Pow2(b)))
  {
    AlignFits(w, x, a);
    AlignFits(w, x, b);
    Pow2Max(a, b);
    if a <= b { AlignFineThenCoarse(w, x, a, b); } else { AlignCoarseThenFine(w, x, a, b); }
  }

  lemma {:induction false} AlignFineThenCoarse(w: nat, x: nat, a: nat, b: nat)
    requires a <= b < w && x < Pow2(w) && Pow2(a) < Pow2(w) && Pow2(b) < Pow2(w)
    ensures PvrAlign(w, PvrAlign(w, x, Pow2(a)), Pow2(b)) == PvrAlign(w, x, Pow2(b))
  {
    AlignFits(w, x, a);
    AlignFits(w, x, b);
    if x <= Pow2(w) - Pow2(b) {
      FineThenCoarseFits(w, x, a, b, PvrAlign(w, x, Pow2(a)), PvrAlign(w, x, Pow2(b)));
    } else {
      FineThenCoarseWraps(w, x, a, b, PvrAlign(w, x, Pow2(a)));
    }
  }

  lemma {:induction false} FineThenCoarseFits(w: nat, x: nat, a: nat, b: nat, r: nat, q: nat)
    requires a <= b < w && x <= Pow2(w) - Pow2(b) && r < Pow2(w) && q < Pow2(w)
    requires Pow2(a) < Pow2(w) && Pow2(b) < Pow2(w) && x < Pow2(w)
    requires r == PvrAlign(w, x, Pow2(a)) && q == PvrAlign(w, x, Pow2(b))
    ensures PvrAlign(w, r, Pow2(b)) == q
  {
    Pow2Mono(a, b);
    AlignIsLeastMultipleIff(w, x, a);
    AlignIsLeastMultipleIff(w, x, b);
    FineThenCoarse(x, a, b, r, q);
    WholeWordMultiple(w, b, q);
    AlignIsLeastMultipleIff(w, r, b);
    LeastIsUnique(r, Pow2(b), q, PvrAlign(w, r, Pow2(b)));
  }

  lemma {:induction false} FineThenCoarseWraps(w: nat, x: nat, a: nat, b: nat, r: nat)
    requires a <= b < w && Pow2(w) - Pow2(b) < x < Pow2(w) && r < Pow2(w)
    requires Pow2(a) < Pow2(w) && Pow2(b) < Pow2(w) && r == PvrAlign(w, x, Pow2(a))
    ensures PvrAlign(w, r, Pow2(b)) == 0 == PvrAlign(w, x, Pow2(b))
  {
    AlignIsLeastMultipleIff(w, x, b);
    AlignIsLeastMultipleIff(w, x, a);
    if r == 0 { AlignZero(w, b); } else { AlignIsLeastMultipleIff(w, r, b); }
  }

  lemma {:induction false} AlignCoarseThenFine(w: nat, x: nat, a: nat, b: nat)
    requires b <= a < w && x < Pow2(w) && Pow2(a) < Pow2(w) && Pow2(b) < Pow2(w)
    ensures PvrAlign(w, PvrAlign(w, x, Pow2(a)), Pow2(b)) == PvrAlign(w, x, Pow2(a))
  {
    var r := PvrAlign(w, x, Pow2(a));
    AlignFits(w, x, a);
    AlignIsLeastMultipleIff(w, x, a);
    AlignIsLeastMultipleIff(w, r, b);
    if x <= Pow2(w) - Pow2(a) {
      CoarseThenFine(x, a, b, r);
      WholeWordMultiple(w, a, r);
      Pow2Mono(b, a);
      LeastIsUnique(r, Pow2(b), r, PvrAlign(w, r, Pow2(b)));
    } else {
      AlignZero(w, b);
    }
  }

  lemma {:induction false} AlignZero(w: nat, b: nat)
    requires b < w
    ensures Pow2(b) < Pow2(w) && PvrAlign(w, 0, Pow2(b)) == 0
  {
    AlignIsCut(w, 0, b);
    Pow2Mono(b, w);
    TruncFits(w, Pow2(b) - 1);
    ShrSmall(Pow2(b) - 1, b);
  }

  /** The largest multiple that fits a word leaves room for one more step. */
  lemma {:induction false} WholeWordMultiple(w: nat, b: nat, q: nat)
    requires b < w && q < Pow2(w) && (exists k: nat :: q == k * Pow2(b))
    ensures q <= Pow2(w) - Pow2(b)
  {
    var k: nat :| q == k * Pow2(b);
    Pow2Add(w - b, b);
    StepBelow(k, Pow2(w - b), Pow2(b));
  }

  lemma {:induction false} StepBelow(k: nat, c: nat, d: nat)
    requires k * d < c * d
    ensures k * d + d <= c * d
  {
    assert (c - k) * d == c * d - k * d;
    TimesGrows(c - k, d);
  }
}
