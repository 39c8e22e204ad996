/** The portable ExactLog2 (`include/log2.h`): one test per bit of the answer,
    each against a constant mask. */
module ExactLog2 {
  import opened Bits
  import opened Log2

  /** The mask of the bit positions below `2^k` whose own number has bit `j` set. */
  ghost function Mask(k: nat, j: nat): nat
    requires j < k
  {
    var half := Pow2(k - 1);
    if j == k - 1 then Scale(Pow2(half) - 1, half)
    else Scale(Mask(k - 1, j), half) + Mask(k - 1, j)
  }

  lemma {:induction false} MaskFits(k: nat, j: nat)
    requires j < k
    ensures Mask(k, j) < Pow2(Pow2(k))
    decreases k
  {
    var half := Pow2(k - 1);
    if j < k - 1 { MaskFits(k - 1, j); }
    DoubleFits(if j == k - 1 then Pow2(half) - 1 else Mask(k - 1, j), half);
  }

  lemma {:induction false} DoubleFits(m: nat, half: nat)
    requires m < Pow2(half)
    ensures Scale(m, half) + m < Pow2(2 * half)
  {
    Pow2Add(half, half);
    ScaleIsTimes(m, half);
    BelowSquare(m, Pow2(half));
  }

  lemma {:induction false} BelowSquare(m: nat, p: nat)
    requires m < p
    ensures m * p + m < p * p
  {
    TimesGrows(p - m, p);
    assert (p - m) * p == p * p - m * p;
  }

  lemma {:induction false} MaskBit(k: nat, j: nat, i: nat)
    requires j < k && i < Pow2(k)
    ensures Bit(Mask(k, j), i) <==> Bit(i, j)
    decreases k
  {
    var half := Pow2(k - 1);
    TopOfIndex(k, j, i);
    if j == k - 1 {
      ScaleBit(Pow2(half) - 1, half, i);
      if half <= i { LowMaskBit(half, i - half); }
    } else {
      MaskFits(k - 1, j);
      SplitBit(Mask(k - 1, j), Mask(k - 1, j), half, i);
      MaskBit(k - 1, j, if i < half then i else i - half);
    }
  }

  /** A number below `2^k` is one top bit and a number below `2^(k-1)`. */
  lemma {:induction false} TopOfIndex(k: nat, j: nat, i: nat)
    requires j < k && i < Pow2(k)
    ensures j == k - 1 ==> (Bit(i, j) <==> Pow2(k - 1) <= i)
    ensures j < k - 1 && Pow2(k - 1) <= i ==> (Bit(i, j) <==> Bit(i - Pow2(k - 1), j))
  {
    TopBit(i, k - 1);
    if Pow2(k - 1) <= i {
      ScaleIsTimes(1, k - 1);
      SplitBit(1, i - Pow2(k - 1), k - 1, j);
    }
  }

  lemma {:induction false} NonZeroHasBit(n: nat)
    requires n > 0
    ensures exists i: nat :: Bit(n, i)
  {
    if n % 2 == 1 {
      assert Bit(n, 0);
    } else {
      NonZeroHasBit(n / 2);
      var i: nat :| Bit(n / 2, i);
      assert Bit(n, i + 1);
    }
  }

  /** Bit `i` of `n` is set and `i` itself has bit `j` set. */
  ghost predicate Witness(n: nat, j: nat, i: nat) {
    Bit(n, i) && Bit(i, j)
  }

  lemma {:induction false} IndexInRange(k: nat, n: nat, j: nat, i: nat)
    requires n < Pow2(Pow2(k)) && Witness(n, j, i)
    ensures j < k && i < Pow2(k)
  {
    if Pow2(k) <= i { BitBelow(n, Pow2(k), i); }
    if k <= j { BitBelow(i, k, j); }
  }

  /** Some set bit of `n` has a number with bit `j` set. */
  ghost predicate SomeIndexHas(n: nat, j: nat) {
    exists i: nat :: Witness(n, j, i)
  }

  /** The test against a mask asks exactly that. */
  lemma {:induction false} MaskTest(k: nat, j: nat, n: nat)
    requires j < k && n < Pow2(Pow2(k))
    ensures And(n, Mask(k, j)) != 0 <==> SomeIndexHas(n, j)
  {
    var a := And(n, Mask(k, j));
    if a != 0 {
      NonZeroHasBit(a);
      var i: nat :| Bit(a, i);
      AndBit(n, Mask(k, j), i);
      if Pow2(k) <= i { BitBelow(n, Pow2(k), i); }
      MaskBit(k, j, i);
      assert Witness(n, j, i);
    }
    if i: nat :| Witness(n, j, i) {
      IndexInRange(k, n, j, i);
      MaskBit(k, j, i);
      AndBit(n, Mask(k, j), i);
      ZeroBit(i);
    }
  }

  // ---------- The reference: or-ing the numbers of all set bits ----------

  function OrOfSetBits(n: nat, w: nat): nat {
    if w == 0 then 0
    else Or(OrOfSetBits(n, w - 1), if Bit(n, w - 1) then w - 1 else 0)
  }

  lemma {:induction false} OrOfSetBitsBit(n: nat, w: nat, j: nat)
    ensures Bit(OrOfSetBits(n, w), j) <==> exists i: nat :: i < w && Witness(n, j, i)
    decreases w
  {
    ZeroBit(j);
    if w > 0 {
      OrOfSetBitsBit(n, w - 1, j);
      OrBit(OrOfSetBits(n, w - 1), if Bit(n, w - 1) then w - 1 else 0, j);
      assert Witness(n, j, w - 1) <==> Bit(n, w - 1) && Bit(w - 1, j);
    }
  }

  /** The bits of `r` answer the questions in `asked`; all others are clear. */
  ghost predicate Answers(n: nat, r: nat, asked: set<nat>) {
    forall j: nat :: Bit(r, j) <==> j in asked && SomeIndexHas(n, j)
  }

  lemma {:induction false} NothingAsked(n: nat)
    ensures Answers(n, 0, {})
  {
    forall j: nat ensures !Bit(0, j) { ZeroBit(j); }
  }

  /** `((n & mask) != 0U) ? value : 0U` */
  function Flag(n: nat, mask: nat, value: nat): nat {
    if And(n, mask) != 0 then value else 0
  }

  /** `r |= ((n & b[j]) != 0U) ? (1U << j) : 0U` asks question `j`. */
  lemma {:induction false} Ask(k: nat, n: nat, r: nat, asked: set<nat>, j: nat, mask: nat, flag: nat)
    requires n < Pow2(Pow2(k)) && j < k && Answers(n, r, asked)
    requires mask == Mask(k, j) && flag == Pow2(j)
    ensures Answers(n, Or(r, Flag(n, mask, flag)), asked + {j})
  {
    MaskTest(k, j, n);
    var f := Flag(n, mask, flag);
    forall i: nat ensures Bit(Or(r, f), i) <==> i in asked + {j} && SomeIndexHas(n, i) {
      OrBit(r, f, i);
      Pow2Bit(j, i);
      ZeroBit(i);
    }
  }

  /** With all `k` questions answered the word is the reference. */
  lemma {:induction false} AnswersAreOr(k: nat, n: nat, r: nat, asked: set<nat>)
    requires n < Pow2(Pow2(k)) && Answers(n, r, asked)
    requires forall j: nat :: j in asked <==> j < k
    ensures r == OrOfSetBits(n, Pow2(k))
  {
    var o := OrOfSetBits(n, Pow2(k));
    forall j: nat ensures Bit(r, j) == Bit(o, j) {
      OrOfSetBitsBit(n, Pow2(k), j);
      if i: nat :| Witness(n, j, i) { IndexInRange(k, n, j, i); }
    }
    BitExt(r, o);
  }

  /** On powers of two all the logarithms of the file agree. */
  lemma {:induction false} LogarithmsAgreeOnPowersOfTwo(w: nat, n: nat)
    requires 0 < n < Pow2(w) && IsPower2(w, n)
    ensures OrOfSetBits(n, w) == ExactLog2Gcc(w, n) == FloorLog2Gcc(w, n) == CeilLog2Gcc(w, n)
    ensures n == Pow2(OrOfSetBits(n, w))
  {
    IsPower2Iff(w, n);
    var e: nat :| n == Pow2(e);
    FloorLog2Unique(w, n, e);
    CeilFloorLog2(w, n);
    ClzTop(w, n);
    forall j: nat ensures Bit(OrOfSetBits(n, w), j) == Bit(e, j) {
      OrOfSetBitsBit(n, w, j);
      forall i: nat ensures Bit(n, i) <==> i == e { Pow2Bit(e, i); }
      assert Witness(n, j, e) <==> Bit(e, j);
    }
    BitExt(OrOfSetBits(n, w), e);
  }

  // ---------- The constant tables ----------

  lemma {:induction false} Halves()
    ensures Pow2(1) == 2 && Pow2(2) == 4 && Pow2(4) == 16 && Pow2(8) == 256 && Pow2(16) == 0x1_0000
    ensures Pow2(32) == 0x1_0000_0000
  {
    Pow2Step(4); Pow2Step(8); Pow2Step(12); Pow2Step(16);
    Pow2Step(20); Pow2Step(24); Pow2Step(28);
  }

  /** The masks up to 16 bits wide. */
  lemma {:induction false} Masks16() returns (k: nat)
    ensures k == 4 && Mask(k, 0) == 0xAAAA && Mask(k, 1) == 0xCCCC && Mask(k, 2) == 0xF0F0 && Mask(k, 3) == 0xFF00
  {
    k := 1;
    Halves();
    SmallPowers();
    MaskStep(1);
    k := 2;
    MaskStep(2);
    k := 3;
    MaskStep(3);
    k := 4;
    MaskStep(4);
  }

  lemma {:induction false} Masks32() returns (k: nat)
    ensures k == 5 && Pow2(k) == 32
    ensures Mask(k, 0) == 0xAAAA_AAAA && Mask(k, 1) == 0xCCCC_CCCC && Mask(k, 2) == 0xF0F0_F0F0
    ensures Mask(k, 3) == 0xFF00_FF00 && Mask(k, 4) == 0xFFFF_0000
  {
    var k' := Masks16();
    k := k' + 1;
    Halves();
    SmallPowers();
    MaskStep(k);
  }

  lemma {:induction false} Masks64() returns (k: nat)
    ensures k == 6 && Pow2(k) == 64
    ensures Mask(k, 0) == 0xAAAA_AAAA_AAAA_AAAA && Mask(k, 1) == 0xCCCC_CCCC_CCCC_CCCC
    ensures Mask(k, 2) == 0xF0F0_F0F0_F0F0_F0F0 && Mask(k, 3) == 0xFF00_FF00_FF00_FF00
    ensures Mask(k, 4) == 0xFFFF_0000_FFFF_0000 && Mask(k, 5) == 0xFFFF_FFFF_0000_0000
  {
    var k' := Masks32();
    k := k' + 1;
    Halves();
    SmallPowers();
    MaskStep(k);
  }

  lemma {:induction false} MaskStep(k: nat)
    requires k > 0
    ensures Mask(k, k - 1) == (Pow2(Pow2(k - 1)) - 1) * Pow2(Pow2(k - 1))
    ensures forall j: nat :: j < k - 1 ==> Mask(k, j) == Mask(k - 1, j) * Pow2(Pow2(k - 1)) + Mask(k - 1, j)
  {
    var half := Pow2(k - 1);
    ScaleIsTimes(Pow2(half) - 1, half);
    forall j: nat | j < k - 1
      ensures Mask(k, j) == Mask(k - 1, j) * Pow2(half) + Mask(k - 1, j)
    {
      ScaleIsTimes(Mask(k - 1, j), half);
    }
  }

  // ---------- The accumulating code ----------

  lemma {:induction false} AllAsked(k: nat, n: nat, r: nat, asked: set<nat>)
    requires n < Pow2(Pow2(k)) && Answers(n, r, asked)
    requires (k == 5 && asked == {0, 4, 3, 2} + {1}) || (k == 6 && asked == {0, 5, 4, 3, 2} + {1})
    ensures r == OrOfSetBits(n, Pow2(k))
  {
    assert forall j: nat :: j in asked <==> j < k;
    AnswersAreOr(k, n, r, asked);
  }

  /** The constant table of the 32-bit variant, which is the table of all masks. */
  method Table32() returns (b: seq<nat>, ghost k: nat)
    ensures k == 5 && Pow2(k) == 32 && |b| == 5
    ensures forall j: nat :: j < k ==> b[j] == Mask(k, j)
  {
    k := Masks32();
    b := [0xAAAAAAAA, 0xCCCCCCCC, 0xF0F0F0F0, 0xFF00FF00, 0xFFFF0000];
    assert b[0] == Mask(k, 0);
    assert b[1] == Mask(k, 1);
    assert b[2] == Mask(k, 2);
    assert b[3] == Mask(k, 3);
    assert b[4] == Mask(k, 4);
  }

  /** The constant table of the 64-bit variant, which is the table of all masks. */
  method Table64() returns (b: seq<nat>, ghost k: nat)
    ensures k == 6 && Pow2(k) == 64 && |b| == 6
    ensures forall j: nat :: j < k ==> b[j] == Mask(k, j)
  {
    k := Masks64();
    b := [0xAAAAAAAAAAAAAAAA, 0xCCCCCCCCCCCCCCCC, 0xF0F0F0F0F0F0F0F0,
         0xFF00FF00FF00FF00, 0xFFFF0000FFFF0000, 0xFFFFFFFF00000000];
    assert b[0] == Mask(k, 0);
    assert b[1] == Mask(k, 1);
    assert b[2] == Mask(k, 2);
    assert b[3] == Mask(k, 3);
    assert b[4] == Mask(k, 4);
    assert b[5] == Mask(k, 5);
  }

  /** One line of the accumulation: `r |= ((n & mask) != 0U) ? flag : 0U`. */
  method OrFlag(ghost k: nat, n: nat, r: nat, mask: nat, flag: nat, ghost j: nat, ghost asked: set<nat>)
    returns (r': nat)
    requires n < Pow2(Pow2(k)) && j < k && Answers(n, r, asked)
    requires mask == Mask(k, j) && flag == Pow2(j)
    ensures Answers(n, r', asked + {j})
  {
    Ask(k, n, r, asked, j, mask, flag);
    r' := Or(r, Flag(n, mask, flag));
  }

  method ExactLog2Portable(n: nat) returns (r: nat)
    requires n < Pow2(32)
    ensures r == OrOfSetBits(n, 32)
  {
    var b, k := Table32();
    SmallPowers();
    NothingAsked(n);
    r := OrFlag(k, n, 0, b[0], 1, 0, {});
    r := OrFlag(k, n, r, b[4], 16, 4, {0});
    r := OrFlag(k, n, r, b[3], 8, 3, {0, 4});
    r := OrFlag(k, n, r, b[2], 4, 2, {0, 4, 3});
    r := OrFlag(k, n, r, b[1], 2, 1, {0, 4, 3, 2});
    AllAsked(k, n, r, {0, 4, 3, 2} + {1});
  }

  method ExactLog264Portable(n: nat) returns (r: nat)
    requires n < Pow2(64)
    ensures r == OrOfSetBits(n, 64)
  {
    var b, k := Table64();
    SmallPowers();
    NothingAsked(n);
    r := OrFlag(k, n, 0, b[0], 1, 0, {});
    r := OrFlag(k, n, r, b[5], 32, 5, {0});
    r := OrFlag(k, n, r, b[4], 16, 4, {0, 5});
    r := OrFlag(k, n, r, b[3], 8, 3, {0, 5, 4});
    r := OrFlag(k, n, r, b[2], 4, 2, {0, 5, 4, 3});
    r := OrFlag(k, n, r, b[1], 2, 1, {0, 5, 4, 3, 2});
    AllAsked(k, n, r, {0, 5, 4, 3, 2} + {1});
  }
}
