/** Unsigned machine words as natural numbers, with the bitwise operators of C
    given by their effect on single bits. Nothing here fixes a word width: a
    `w`-bit word is a natural number below `Pow2(w)`. */
module Bits {

  function Pow2(k: nat): (p: nat)
    ensures p >= 1
  {
    if k == 0 then 1 else 2 * Pow2(k - 1)
  }

  /** Bit `i` of `n`, bit 0 being the least significant. */
  predicate Bit(n: nat, i: nat) {
    if i == 0 then n % 2 == 1 else Bit(n / 2, i - 1)
  }

  /** `a & b` */
  function And(a: nat, b: nat): nat {
    if a == 0 || b == 0 then 0
    else (if a % 2 == 1 && b % 2 == 1 then 1 else 0) + 2 * And(a / 2, b / 2)
  }

  /** `a | b` */
  function Or(a: nat, b: nat): nat {
    if a == 0 then b
    else if b == 0 then a
    else (if a % 2 == 1 || b % 2 == 1 then 1 else 0) + 2 * Or(a / 2, b / 2)
  }

  /** `~a` on `w`-bit words */
  function Not(w: nat, a: nat): nat
    requires a < Pow2(w)
  {
    Pow2(w) - 1 - a
  }

  /** `a >> k` */
  function Shr(a: nat, k: nat): nat {
    if k == 0 then a else Shr(a / 2, k - 1)
  }

  /** The low `w` bits of `a`: what a `w`-bit word keeps of it. */
  function Trunc(w: nat, a: nat): nat {
    if w == 0 then 0 else a % 2 + 2 * Trunc(w - 1, a / 2)
  }

  /** `a` moved up by `k` bit positions, no matter how wide it gets. */
  function Scale(a: nat, k: nat): nat {
    if k == 0 then a else 2 * Scale(a, k - 1)
  }

  /** `a << k` on `w`-bit words */
  function Shl(w: nat, a: nat, k: nat): nat {
    Trunc(w, Scale(a, k))
  }

  /** `a + b` on `w`-bit words */
  function Add(w: nat, a: nat, b: nat): nat {
    Trunc(w, a + b)
  }

  /** `n - 1U` on `w`-bit words: zero wraps to the all-ones word */
  function Dec(w: nat, n: nat): nat {
    if n == 0 then Pow2(w) - 1 else n - 1
  }

  // ---------- Powers of two ----------

  lemma {:induction false} Pow2Mono(a: nat, b: nat)
    requires a <= b
    ensures Pow2(a) <= Pow2(b)
    ensures a < b ==> 2 * Pow2(a) <= Pow2(b)
    decreases b
  {
    if a < b { Pow2Mono(a, b - 1); }
  }

  lemma {:induction false} Pow2Add(a: nat, b: nat)
    ensures Pow2(a + b) == Pow2(a) * Pow2(b)
    decreases b
  {
    if b > 0 {
      Pow2Add(a, b - 1);
      assert Pow2(a + b) == 2 * Pow2(a + (b - 1));
    }
  }

  lemma {:induction false} Pow2Step(k: nat)
    ensures Pow2(k + 4) == 16 * Pow2(k)
  {
    assert Pow2(k + 4) == 2 * Pow2(k + 3) && Pow2(k + 3) == 2 * Pow2(k + 2);
    assert Pow2(k + 2) == 2 * Pow2(k + 1);
  }

  // ---------- Words and their bits ----------

  /** Two words with the same bits are the same word. */
  lemma {:induction false} BitExt(a: nat, b: nat)
    requires forall i: nat :: Bit(a, i) == Bit(b, i)
    ensures a == b
    decreases a + b
  {
    assert Bit(a, 0) == Bit(b, 0);
    if a + b > 0 {
      forall i: nat ensures Bit(a / 2, i) == Bit(b / 2, i) {
        assert Bit(a, i + 1) == Bit(b, i + 1);
      }
      BitExt(a / 2, b / 2);
    }
  }

  lemma {:induction false} ZeroBit(i: nat)
    ensures !Bit(0, i)
  {
    if i > 0 { ZeroBit(i - 1); }
  }

  lemma {:induction false} AndBit(a: nat, b: nat, i: nat)
    ensures Bit(And(a, b), i) <==> Bit(a, i) && Bit(b, i)
    decreases i
  {
    if a == 0 || b == 0 {
      ZeroBit(i);
    } else if i > 0 {
      AndBit(a / 2, b / 2, i - 1);
      assert And(a, b) / 2 == And(a / 2, b / 2);
    }
  }

  lemma {:induction false} OrHalf(a: nat, b: nat)
    ensures Or(a, b) / 2 == Or(a / 2, b / 2)
    ensures Or(a, b) % 2 == 1 <==> a % 2 == 1 || b % 2 == 1
  {
    assert a == 0 || b == 0 || Or(a, b) - 2 * Or(a / 2, b / 2) == if a % 2 == 1 || b % 2 == 1 then 1 else 0;
  }

  lemma {:induction false} OrBit(a: nat, b: nat, i: nat)
    ensures Bit(Or(a, b), i) <==> Bit(a, i) || Bit(b, i)
    decreases i
  {
    OrHalf(a, b);
    if i > 0 { OrBit(a / 2, b / 2, i - 1); }
  }

  // ---------- What the operators are in arithmetic ----------

  lemma {:induction false} TimesDouble(a: nat, p: nat)
    ensures a * (2 * p) == 2 * (a * p)
  {
  }

  lemma {:induction false} ScaleIsTimes(a: nat, k: nat)
    ensures Scale(a, k) == a * Pow2(k)
  {
    if k > 0 {
      ScaleIsTimes(a, k - 1);
      TimesDouble(a, Pow2(k - 1));
    }
  }

  /** A word is its high part moved up plus its low part. */
  lemma {:induction false} Cut(n: nat, k: nat)
    ensures n == Scale(Shr(n, k), k) + Trunc(k, n)
    ensures Trunc(k, n) < Pow2(k)
    decreases k
  {
    if k > 0 {
      Cut(n / 2, k - 1);
      assert Scale(Shr(n, k), k) == 2 * Scale(Shr(n / 2, k - 1), k - 1);
    }
  }

  lemma {:induction false} TimesGrows(d: int, p: nat)
    ensures d >= 1 ==> d * p >= p
    ensures d <= -1 ==> d * p + p <= 0
  {
  }

  lemma {:induction false} DivModUnique(n: nat, p: nat, q: nat, r: nat)
    requires n == q * p + r && r < p
    ensures n / p == q && n % p == r
  {
    var d := n / p - q;
    assert n == (n / p) * p + n % p;
    assert d * p == r - n % p;
    TimesGrows(d, p);
  }

  lemma {:induction false} CutIsDivMod(n: nat, k: nat)
    ensures Shr(n, k) == n / Pow2(k) && Trunc(k, n) == n % Pow2(k)
  {
    Cut(n, k);
    ScaleIsTimes(Shr(n, k), k);
    DivModUnique(n, Pow2(k), Shr(n, k), Trunc(k, n));
  }

  lemma {:induction false} ShrFits(n: nat, k: nat, m: nat)
    requires n < Pow2(k + m)
    ensures Shr(n, k) < Pow2(m)
    decreases k
  {
    if k > 0 { ShrFits(n / 2, k - 1, m); }
  }

  /** Truncating a word that fits changes nothing. */
  lemma {:induction false} TruncFits(w: nat, n: nat)
    requires n < Pow2(w)
    ensures Trunc(w, n) == n
  {
    if w > 0 { TruncFits(w - 1, n / 2); }
  }

  // ---------- The bits of each operator ----------

  /** A word put together from a low part of `m` bits and a high part. */
  lemma {:induction false} SplitBit(hi: nat, lo: nat, m: nat, i: nat)
    requires lo < Pow2(m)
    ensures Bit(Scale(hi, m) + lo, i) <==> if i < m then Bit(lo, i) else Bit(hi, i - m)
    decreases m
  {
    if m > 0 {
      var n := Scale(hi, m) + lo;
      assert n / 2 == Scale(hi, m - 1) + lo / 2 && n % 2 == lo % 2;
      if i > 0 { SplitBit(hi, lo / 2, m - 1, i - 1); }
    }
  }

  lemma {:induction false} ShrBit(n: nat, k: nat, i: nat)
    ensures Bit(Shr(n, k), i) <==> Bit(n, i + k)
    decreases k
  {
    if k > 0 { ShrBit(n / 2, k - 1, i); }
  }

  lemma {:induction false} TruncBit(w: nat, n: nat, i: nat)
    ensures Bit(Trunc(w, n), i) <==> i < w && Bit(n, i)
    decreases w
  {
    if w == 0 {
      ZeroBit(i);
    } else if i > 0 {
      assert Trunc(w, n) / 2 == Trunc(w - 1, n / 2);
      TruncBit(w - 1, n / 2, i - 1);
    }
  }

  lemma {:induction false} ScaleBit(n: nat, k: nat, i: nat)
    ensures Bit(Scale(n, k), i) <==> k <= i && Bit(n, i - k)
  {
    SplitBit(n, 0, k, i);
    ZeroBit(i);
  }

  lemma {:induction false} BitBelow(n: nat, w: nat, i: nat)
    requires n < Pow2(w) && w <= i
    ensures !Bit(n, i)
    decreases w
  {
    if w == 0 { ZeroBit(i); } else { BitBelow(n / 2, w - 1, i - 1); }
  }

  lemma {:induction false} NotHalf(p: nat, a: nat)
    requires a < 2 * p
    ensures (2 * p - 1 - a) / 2 == p - 1 - a / 2
    ensures (2 * p - 1 - a) % 2 == 1 - a % 2
  {
    var q, r := a / 2, a % 2;
    assert 2 * p - 1 - a == 2 * (p - 1 - q) + (1 - r);
  }

  lemma {:induction false} NotBit(w: nat, a: nat, i: nat)
    requires a < Pow2(w)
    ensures Bit(Not(w, a), i) <==> i < w && !Bit(a, i)
    decreases w
  {
    if w == 0 {
      ZeroBit(i);
    } else {
      NotHalf(Pow2(w - 1), a);
      if i > 0 { NotBit(w - 1, a / 2, i - 1); }
    }
  }

  lemma {:induction false} LowMaskBit(k: nat, i: nat)
    ensures Bit(Pow2(k) - 1, i) <==> i < k
  {
    NotBit(k, 0, i);
    ZeroBit(i);
  }

  lemma {:induction false} Pow2Bit(k: nat, i: nat)
    ensures Bit(Pow2(k), i) <==> i == k
  {
    ScaleIsTimes(1, k);
    ScaleBit(1, k, i);
    if k < i { ZeroBit(i - k - 1); }
  }

  // ---------- Masks in arithmetic ----------

  /** Masking with `2^k - 1` keeps the low `k` bits. */
  lemma {:induction false} AndLowMask(n: nat, k: nat)
    ensures And(n, Pow2(k) - 1) == Trunc(k, n)
  {
    forall i: nat ensures Bit(And(n, Pow2(k) - 1), i) == Bit(Trunc(k, n), i) {
      AndBit(n, Pow2(k) - 1, i);
      LowMaskBit(k, i);
      TruncBit(k, n, i);
    }
    BitExt(And(n, Pow2(k) - 1), Trunc(k, n));
  }

  lemma {:induction false} RoundDownBit(n: nat, k: nat, i: nat)
    ensures Bit(Scale(Shr(n, k), k), i) <==> k <= i && Bit(n, i)
  {
    ScaleBit(Shr(n, k), k, i);
    if k <= i { ShrBit(n, k, i - k); }
  }

  /** Masking with `~(2^k - 1)` clears the low `k` bits. */
  lemma {:induction false} AndHighMask(w: nat, n: nat, k: nat)
    requires n < Pow2(w) && Pow2(k) <= Pow2(w)
    ensures And(n, Not(w, Pow2(k) - 1)) == Scale(Shr(n, k), k)
  {
    var m, r := Not(w, Pow2(k) - 1), Scale(Shr(n, k), k);
    forall i: nat ensures Bit(And(n, m), i) == Bit(r, i) {
      AndBit(n, m, i);
      NotBit(w, Pow2(k) - 1, i);
      LowMaskBit(k, i);
      RoundDownBit(n, k, i);
      if w <= i { BitBelow(n, w, i); }
    }
    BitExt(And(n, m), r);
  }

  /** Masking with a field of `k` ones starting at bit `m`. */
  lemma {:induction false} AndField(n: nat, m: nat, k: nat)
    ensures And(n, Scale(Pow2(k) - 1, m)) == Scale(Trunc(k, Shr(n, m)), m)
  {
    var mask, r := Scale(Pow2(k) - 1, m), Scale(Trunc(k, Shr(n, m)), m);
    forall i: nat ensures Bit(And(n, mask), i) == Bit(r, i) {
      AndBit(n, mask, i);
      ScaleBit(Pow2(k) - 1, m, i);
      ScaleBit(Trunc(k, Shr(n, m)), m, i);
      if m <= i {
        LowMaskBit(k, i - m);
        TruncBit(k, Shr(n, m), i - m);
        ShrBit(n, m, i - m);
      }
    }
    BitExt(And(n, mask), r);
  }

  /** Or-ing fields that do not overlap adds them. */
  lemma {:induction false} OrDisjoint(lo: nat, hi: nat, m: nat)
    requires lo < Pow2(m)
    ensures Or(lo, Scale(hi, m)) == Scale(hi, m) + lo
    ensures Or(Scale(hi, m), lo) == Scale(hi, m) + lo
  {
    var h := Scale(hi, m);
    forall i: nat ensures Bit(Or(lo, h), i) == Bit(h + lo, i)
                  ensures Bit(Or(h, lo), i) == Bit(h + lo, i)
    {
      OrBit(lo, h, i);
      OrBit(h, lo, i);
      ScaleBit(hi, m, i);
      SplitBit(hi, lo, m, i);
      if m <= i { BitBelow(lo, m, i); }
    }
    BitExt(Or(lo, h), h + lo);
    BitExt(Or(h, lo), h + lo);
  }

  /** The parts of a word put together from two fields. */
  lemma {:induction false} Parts(hi: nat, lo: nat, m: nat)
    requires lo < Pow2(m)
    ensures Shr(Scale(hi, m) + lo, m) == hi && Trunc(m, Scale(hi, m) + lo) == lo
    decreases m
  {
    if m > 0 {
      var n := Scale(hi, m) + lo;
      assert n / 2 == Scale(hi, m - 1) + lo / 2 && n % 2 == lo % 2;
      Parts(hi, lo / 2, m - 1);
    }
  }
}
