/** Integer logarithms and powers of two (`include/log2.h`). Every operation of
    that file exists twice, once over the count-leading-zeros builtin (`...Gcc`
    below) and once in portable C (`...Portable`). The width `w` is 32 or 64 in
    the source and arbitrary here wherever the code does not depend on it. */
module Log2 {
  import opened Bits
  import opened ImgDefs

  // ---------- The GCC variants ----------

  /** `__builtin_clz` on `w`-bit words: zero bits above the highest set bit. */
  function Clz(w: nat, n: nat): (c: nat)
    ensures c <= w
  {
    if w == 0 || Bit(n, w - 1) then 0 else 1 + Clz(w - 1, n)
  }

  predicate IsPower2(w: nat, n: nat) {
    And(n, Dec(w, n)) == 0
  }

  function FloorLog2Gcc(w: nat, n: nat): nat
    requires n < Pow2(w)
  {
    if n == 0 then 0
    else
      ClzTop(w, n);
      w - Clz(w, n) - 1
  }

  function CeilLog2Gcc(w: nat, n: nat): nat
    requires n < Pow2(w)
  {
    if n == 0 || n == 1 then 0 else w - Clz(w, n - 1)
  }

  function ExactLog2Gcc(w: nat, n: nat): nat
    requires 0 < n < Pow2(w)
  {
    ClzTop(w, n);
    w - Clz(w, n) - 1
  }

  function RoundUpToNextPowerOfTwoGcc(w: nat, n: nat): nat
    requires 0 < w && n < Pow2(w)
  {
    if n == 0 || n > Shl(w, 1, w - 1) then 0
    else if And(n, Dec(w, n)) == 0 then n
    else Shl(w, 1, w - Clz(w, n))
  }

  // ---------- Logarithms against their adjunctions ----------

  lemma {:induction false} TopBit(n: nat, w: nat)
    requires n < Pow2(w + 1)
    ensures Bit(n, w) <==> Pow2(w) <= n
    decreases w
  {
    if w > 0 { TopBit(n / 2, w - 1); }
  }

  /** Clz finds the highest set bit. */
  lemma {:induction false} ClzTop(w: nat, n: nat)
    requires 0 < n < Pow2(w)
    ensures Clz(w, n) < w
    ensures Pow2(w - Clz(w, n) - 1) <= n < Pow2(w - Clz(w, n))
    decreases w
  {
    TopBit(n, w - 1);
    if !Bit(n, w - 1) { ClzTop(w - 1, n); }
  }

  lemma {:induction false} FloorLog2Adjunction(w: nat, n: nat, k: nat)
    requires 1 <= n < Pow2(w)
    ensures k <= FloorLog2Gcc(w, n) <==> Pow2(k) <= n
  {
    ClzTop(w, n);
    var f := FloorLog2Gcc(w, n);
    if k <= f { Pow2Mono(k, f); } else { Pow2Mono(f + 1, k); }
  }

  lemma {:induction false} CeilLog2Adjunction(w: nat, n: nat, k: nat)
    requires n < Pow2(w)
    ensures CeilLog2Gcc(w, n) <= k <==> n <= Pow2(k)
  {
    if n > 1 {
      ClzTop(w, n - 1);
      var c := CeilLog2Gcc(w, n);
      if c <= k { Pow2Mono(c, k); } else { Pow2Mono(k, c - 1); }
    }
  }

  /** The only number with `2^f <= n < 2^(f+1)` is the floor logarithm. */
  lemma {:induction false} FloorLog2Unique(w: nat, n: nat, f: nat)
    requires Pow2(f) <= n < Pow2(f + 1) && n < Pow2(w)
    ensures FloorLog2Gcc(w, n) == f
  {
    FloorLog2Adjunction(w, n, f);
    FloorLog2Adjunction(w, n, f + 1);
  }

  lemma {:induction false} CeilLog2Unique(w: nat, n: nat, c: nat)
    requires n < Pow2(w) && n <= Pow2(c) && (c > 0 ==> Pow2(c - 1) < n)
    ensures CeilLog2Gcc(w, n) == c
  {
    CeilLog2Adjunction(w, n, c);
    if c > 0 { CeilLog2Adjunction(w, n, c - 1); }
  }

  // ---------- The portable shift loops ----------

  lemma {:induction false} ShrAgain(n: nat, k: nat)
    ensures Shr(n, k + 1) == Shr(n, k) / 2
    decreases k
  {
    if k > 0 { ShrAgain(n / 2, k - 1); }
  }

  lemma {:induction false} ShrAtLeast(n: nat, k: nat)
    ensures Shr(n, k) == 0 <==> n < Pow2(k)
    decreases k
  {
    if k > 0 { ShrAtLeast(n / 2, k - 1); }
  }

  method FloorLog2Portable(ghost w: nat, n: nat) returns (log2: nat)
    requires n < Pow2(w)
    ensures log2 == FloorLog2Gcc(w, n)
  {
    log2 := 0;
    var m := Shr(n, 1);
    while m != 0
      invariant m == Shr(n, log2 + 1)
      invariant n > 0 ==> Pow2(log2) <= n
      invariant n == 0 ==> m == log2 == 0
      decreases m
    {
      ShrAgain(n, log2 + 1);
      ShrAgain(m, 0);
      ShrAtLeast(n, log2 + 1);
      log2 := log2 + 1;
      m := Shr(m, 1);
    }
    ShrAtLeast(n, log2 + 1);
    if n > 0 { FloorLog2Unique(w, n, log2); }
  }

  method CeilLog2Portable(ghost w: nat, n: nat) returns (log2: nat)
    requires n < Pow2(w)
    ensures log2 == CeilLog2Gcc(w, n)
  {
    log2 := 0;
    if n == 0 { return 0; }
    var m := n - 1;
    while m != 0
      invariant m == Shr(n - 1, log2)
      invariant log2 > 0 ==> Pow2(log2 - 1) <= n - 1
      decreases m
    {
      ShrAgain(n - 1, log2);
      ShrAgain(m, 0);
      ShrAtLeast(n - 1, log2);
      log2 := log2 + 1;
      m := Shr(m, 1);
    }
    ShrAtLeast(n - 1, log2);
    CeilLog2Unique(w, n, log2);
  }

  // ---------- Powers of two ----------

  lemma {:induction false} AndSelf(a: nat)
    ensures And(a, a) == a
  {
    if a > 0 { AndSelf(a / 2); }
  }

  lemma {:induction false} AndPredZero(n: nat)
    requires n > 0
    ensures And(n, n - 1) == 0 ==> exists k: nat :: n == Pow2(k)
  {
    if n % 2 == 1 {
      AndSelf(n / 2);
      assert n == 1 ==> n == Pow2(0);
    } else {
      AndPredZero(n / 2);
      assert (n - 1) / 2 == n / 2 - 1;
      if And(n, n - 1) == 0 {
        var k: nat :| n / 2 == Pow2(k);
        assert n == Pow2(k + 1);
      }
    }
  }

  lemma {:induction false} AndPow2Pred(k: nat)
    ensures And(Pow2(k), Pow2(k) - 1) == 0
  {
    if k > 0 {
      assert (Pow2(k) - 1) / 2 == Pow2(k - 1) - 1;
      AndPow2Pred(k - 1);
    }
  }

  /** IsPower2 accepts exactly zero and the powers of two. */
  lemma {:induction false} IsPower2Iff(w: nat, n: nat)
    requires n < Pow2(w)
    ensures IsPower2(w, n) <==> n == 0 || exists k: nat :: n == Pow2(k)
  {
    if n > 0 {
      AndPredZero(n);
      if k: nat :| n == Pow2(k) { AndPow2Pred(k); }
    }
  }

  lemma {:induction false} CeilFloorLog2(w: nat, n: nat)
    requires 1 <= n < Pow2(w)
    ensures CeilLog2Gcc(w, n) == FloorLog2Gcc(w, n) + if IsPower2(w, n) then 0 else 1
  {
    var f := FloorLog2Gcc(w, n);
    ClzTop(w, n);
    IsPower2Iff(w, n);
    if IsPower2(w, n) {
      var k: nat :| n == Pow2(k);
      FloorLog2Unique(w, n, k);
      if k > 0 { Pow2Mono(k - 1, k); }
      CeilLog2Unique(w, n, k);
    } else {
      assert n != Pow2(f);
      CeilLog2Unique(w, n, f + 1);
    }
  }

  // ---------- Rounding up to a power of two ----------

  ghost predicate LeastPowerOfTwoFrom(n: nat, p: nat) {
    && (exists k: nat :: p == Pow2(k))
    && n <= p
    && forall j: nat :: n <= Pow2(j) ==> p <= Pow2(j)
  }

  lemma {:induction false} CeilLog2IsLeast(w: nat, n: nat)
    requires n < Pow2(w)
    ensures LeastPowerOfTwoFrom(n, Pow2(CeilLog2Gcc(w, n)))
  {
    var c := CeilLog2Gcc(w, n);
    CeilLog2Adjunction(w, n, c);
    forall j: nat | n <= Pow2(j) ensures Pow2(c) <= Pow2(j) {
      CeilLog2Adjunction(w, n, j);
      Pow2Mono(c, j);
    }
  }

  lemma {:induction false} ShlOne(w: nat, k: nat)
    requires k < w
    ensures Shl(w, 1, k) == Pow2(k)
  {
    ScaleIsTimes(1, k);
    Pow2Mono(k, w);
    TruncFits(w, Pow2(k));
  }

  /** RoundUpToNextPowerOfTwo is the power of two of CeilLog2 up to the half range,
      which is the least power of two not below `n`, and zero elsewhere. */
  lemma {:induction false} RoundUpIsLeastPowerOfTwo(w: nat, n: nat)
    requires 0 < w && n < Pow2(w)
    ensures 1 <= n <= Pow2(w - 1) ==>
              && RoundUpToNextPowerOfTwoGcc(w, n) == Pow2(CeilLog2Gcc(w, n))
              && LeastPowerOfTwoFrom(n, RoundUpToNextPowerOfTwoGcc(w, n))
    ensures n == 0 || Pow2(w - 1) < n ==> RoundUpToNextPowerOfTwoGcc(w, n) == 0
  {
    ShlOne(w, w - 1);
    if 1 <= n <= Pow2(w - 1) {
      CeilLog2IsLeast(w, n);
      CeilFloorLog2(w, n);
      ClzTop(w, n);
      IsPower2Iff(w, n);
      if IsPower2(w, n) {
        var k: nat :| n == Pow2(k);
        FloorLog2Unique(w, n, k);
      } else {
        CeilLog2Adjunction(w, n, w - 1);
        ShlOne(w, w - Clz(w, n));
      }
    }
  }

  /** `k` rounds of `n |= n >> 1; n |= n >> 2; n |= n >> 4; ...` */
  ghost function Smear(n: nat, k: nat): nat {
    if k == 0 then n else var m := Smear(n, k - 1); Or(m, Shr(m, Pow2(k - 1)))
  }

  /** Some bit among the `len` ones from `from` upwards is set. */
  ghost predicate AnyBit(n: nat, from: nat, len: nat) {
    exists i: nat :: from <= i < from + len && Bit(n, i)
  }

  /** After `k` rounds every set bit has spread over the `2^k` positions below it. */
  lemma {:induction false} SmearBit(n: nat, k: nat, j: nat)
    ensures Bit(Smear(n, k), j) <==> AnyBit(n, j, Pow2(k))
    decreases k
  {
    if k == 0 {
      if Bit(n, j) { assert AnyBit(n, j, 1); }
    } else {
      var h := Pow2(k - 1);
      var m := Smear(n, k - 1);
      OrBit(m, Shr(m, h), j);
      ShrBit(m, h, j);
      SmearBit(n, k - 1, j);
      SmearBit(n, k - 1, j + h);
      AnyBitSplit(n, j, h);
    }
  }

  lemma {:induction false} AnyBitSplit(n: nat, j: nat, h: nat)
    ensures AnyBit(n, j, 2 * h) <==> AnyBit(n, j, h) || AnyBit(n, j + h, h)
  {
    if i: nat :| j <= i < j + 2 * h && Bit(n, i) {
      if i < j + h { assert AnyBit(n, j, h); } else { assert AnyBit(n, j + h, h); }
    }
  }

  /** From a word with highest bit `t`, enough rounds reach exactly the bits up to `t`. */
  lemma {:induction false} AnyBitFrom(n: nat, t: nat, j: nat, w: nat)
    requires Pow2(t) <= n < Pow2(t + 1) && t < w
    ensures AnyBit(n, j, w) <==> j <= t
  {
    if j <= t {
      TopBit(n, t);
      assert Bit(n, t);
    } else {
      forall i: nat | j <= i ensures !Bit(n, i) { BitBelow(n, t + 1, i); }
    }
  }

  /** Enough rounds fill the word with ones from its highest set bit down. */
  lemma {:induction false} SmearFills(n: nat, k: nat, t: nat)
    requires Pow2(t) <= n < Pow2(t + 1) && t < Pow2(k)
    ensures Smear(n, k) == Pow2(t + 1) - 1
  {
    forall j: nat ensures Bit(Smear(n, k), j) == Bit(Pow2(t + 1) - 1, j) {
      SmearBit(n, k, j);
      LowMaskBit(t + 1, j);
      AnyBitFrom(n, t, j, Pow2(k));
    }
    BitExt(Smear(n, k), Pow2(t + 1) - 1);
  }

  /** Filling `n - 1U` with ones and adding one, at any width. */
  lemma {:induction false} FilledRoundsUp(w: nat, n: nat)
    requires 0 < w && n < Pow2(w) && n != 1
    ensures Dec(w, n) > 0
    ensures Add(w, Pow2(FloorLog2Gcc(w, Dec(w, n)) + 1) - 1, 1) == RoundUpToNextPowerOfTwoGcc(w, n)
  {
    var d := Dec(w, n);
    var t := FloorLog2Gcc(w, d);
    ClzTop(w, d);
    RoundUpIsLeastPowerOfTwo(w, n);
    FloorLog2Adjunction(w, d, w - 1);
    if 1 <= n <= Pow2(w - 1) {
      CeilLog2Unique(w, n, t + 1);
      Pow2Mono(t + 1, w - 1);
      TruncFits(w, Pow2(t + 1));
    } else {
      assert t + 1 == w;
      TruncPow2(w);
    }
  }

  /** The smear computes what the clz variant computes, on every input and at every
      width that is a power of two. */
  lemma {:induction false} SmearRoundsUp(k: nat, n: nat)
    requires n < Pow2(Pow2(k))
    ensures Add(Pow2(k), Smear(Dec(Pow2(k), n), k), 1) == RoundUpToNextPowerOfTwoGcc(Pow2(k), n)
  {
    if n == 1 {
      SmearZero(k);
      RoundUpOfOne(Pow2(k));
    } else {
      FilledRoundsUp(Pow2(k), n);
      var d := Dec(Pow2(k), n);
      ClzTop(Pow2(k), d);
      SmearFills(d, k, FloorLog2Gcc(Pow2(k), d));
    }
  }

  lemma {:induction false} RoundUpOfOne(w: nat)
    requires 0 < w
    ensures 1 < Pow2(w) && Add(w, 0, 1) == 1 && RoundUpToNextPowerOfTwoGcc(w, 1) == 1
  {
    Pow2Mono(1, w);
    TruncFits(w, 1);
    ShlOne(w, w - 1);
  }

  lemma {:induction false} SmearZero(k: nat)
    ensures Smear(0, k) == 0
  {
    if k > 0 {
      SmearZero(k - 1);
      ShrAtLeast(0, Pow2(k - 1));
    }
  }

  lemma {:induction false} TruncPow2(w: nat)
    ensures Trunc(w, Pow2(w)) == 0
  {
    if w > 0 { TruncPow2(w - 1); }
  }

  lemma {:induction false} SmallPowers()
    ensures Pow2(0) == 1 && Pow2(1) == 2 && Pow2(2) == 4 && Pow2(3) == 8
    ensures Pow2(4) == 16 && Pow2(5) == 32 && Pow2(6) == 64
  {
  }

  method RoundUpToNextPowerOfTwoPortable(n: nat) returns (m: nat)
    requires n < Pow2(32)
    ensures m == RoundUpToNextPowerOfTwoGcc(32, n)
  {
    SmallPowers();
    m := Dec(32, n);
    m := Or(m, Shr(m, 1));
    m := Or(m, Shr(m, 2));
    m := Or(m, Shr(m, 4));
    m := Or(m, Shr(m, 8));
    m := Or(m, Shr(m, 16));
    FiveRounds(Dec(32, n));
    m := Add(32, m, 1);
    SmearRoundsUp(5, n);
  }

  method RoundUpToNextPowerOfTwo64Portable(n: nat) returns (m: nat)
    requires n < Pow2(64)
    ensures m == RoundUpToNextPowerOfTwoGcc(64, n)
  {
    SmallPowers();
    m := Dec(64, n);
    m := Or(m, Shr(m, 1));
    m := Or(m, Shr(m, 2));
    m := Or(m, Shr(m, 4));
    m := Or(m, Shr(m, 8));
    m := Or(m, Shr(m, 16));
    FiveRounds(Dec(64, n));
    SmearStep(Dec(64, n), 5);
    m := Or(m, Shr(m, 32));
    m := Add(64, m, 1);
    SmearRoundsUp(6, n);
  }

  lemma {:induction false} SmearStep(n: nat, k: nat)
    ensures Smear(n, k + 1) == Or(Smear(n, k), Shr(Smear(n, k), Pow2(k)))
  {
  }

  lemma {:induction false} FiveRounds(n: nat)
    ensures
      var a := Or(n, Shr(n, 1));
      var b := Or(a, Shr(a, 2));
      var c := Or(b, Shr(b, 4));
      var d := Or(c, Shr(c, 8));
      Smear(n, 5) == Or(d, Shr(d, 16))
  {
    SmallPowers();
    SmearStep(n, 0);
    SmearStep(n, 1);
    SmearStep(n, 2);
    SmearStep(n, 3);
    SmearStep(n, 4);
  }

  // ---------- Mip levels ----------

  function NumMipLevels(sizeX: nat, sizeY: nat, sizeZ: nat): nat
    requires sizeX < Pow2(32) && sizeY < Pow2(32) && sizeZ < Pow2(32)
  {
    FloorLog2Gcc(32, Max(Max(sizeX, sizeY), sizeZ)) + 1
  }

  /** One dimension of the next smaller level. */
  function NextMip(size: nat): nat {
    Max(1, size / 2)
  }

  /** A zero size first grows to one. */
  ghost function MipMeasure(size: nat): nat {
    if size == 0 then 2 else size
  }

  /** The number of levels from the given sizes down to 1x1x1, by walking them. */
  ghost function MipChain(x: nat, y: nat, z: nat): nat
    decreases if x == y == z == 1 then 0 else MipMeasure(x) + MipMeasure(y) + MipMeasure(z)
  {
    if x == y == z == 1 then 1 else 1 + MipChain(NextMip(x), NextMip(y), NextMip(z))
  }

  lemma {:induction false} MipChainLength(x: nat, y: nat, z: nat, f: nat)
    requires x > 0 && y > 0 && z > 0
    requires Pow2(f) <= Max(Max(x, y), z) < Pow2(f + 1)
    ensures MipChain(x, y, z) == f + 1
    decreases f
  {
    if f > 0 {
      assert Max(Max(NextMip(x), NextMip(y)), NextMip(z)) == Max(Max(x, y), z) / 2;
      MipChainLength(NextMip(x), NextMip(y), NextMip(z), f - 1);
    }
  }

  /** A zero size costs no extra level as long as some size is above one. */
  lemma {:induction false} MipChainOnce(x: nat, y: nat, z: nat, f: nat)
    requires Pow2(f) <= Max(Max(x, y), z) < Pow2(f + 1) && f > 0
    ensures MipChain(x, y, z) == f + 1
  {
    assert Max(Max(NextMip(x), NextMip(y)), NextMip(z)) == Max(Max(x, y), z) / 2;
    MipChainLength(NextMip(x), NextMip(y), NextMip(z), f - 1);
  }

  /** Sizes of one and zero, one of them zero: a single step leads to 1x1x1. */
  lemma {:induction false} MipChainFlat(x: nat, y: nat, z: nat)
    requires x <= 1 && y <= 1 && z <= 1
    ensures MipChain(x, y, z) == if x == y == z == 1 then 1 else 2
  {
    assert MipChain(1, 1, 1) == 1;
  }

  /** The floor logarithm of the largest size. */
  ghost predicate LogOfLargest(x: nat, y: nat, z: nat, f: nat) {
    var m := Max(Max(x, y), z);
    if m <= 1 then f == 0 else f > 0 && Pow2(f) <= m < Pow2(f + 1)
  }

  lemma {:induction false} NumMipLevelsRange(x: nat, y: nat, z: nat) returns (f: nat)
    requires x < Pow2(32) && y < Pow2(32) && z < Pow2(32)
    ensures NumMipLevels(x, y, z) == f + 1 && LogOfLargest(x, y, z, f)
  {
    var m := Max(Max(x, y), z);
    f := FloorLog2Gcc(32, m);
    LogRange(32, m, f);
  }

  lemma {:induction false} LogRange(w: nat, m: nat, f: nat)
    requires m < Pow2(w) && f == FloorLog2Gcc(w, m)
    ensures if m <= 1 then f == 0 else f > 0 && Pow2(f) <= m < Pow2(f + 1)
  {
    if m == 1 { FloorLog2Unique(w, 1, 0); }
    if m > 1 {
      ClzTop(w, m);
      FloorLog2Adjunction(w, m, 1);
    }
  }

  lemma {:induction false} ChainAgainstLog(x: nat, y: nat, z: nat, f: nat)
    requires LogOfLargest(x, y, z, f)
    ensures MipChain(x, y, z) == f + 1 <==> (x > 0 && y > 0 && z > 0) || x > 1 || y > 1 || z > 1
  {
    if x > 1 || y > 1 || z > 1 {
      MipChainOnce(x, y, z, f);
    } else {
      MipChainFlat(x, y, z);
    }
  }

  /** A size of zero beside ones: the count is one, the chain has two levels. */
  lemma {:induction false} NumMipLevelsMissesALevel()
    ensures NumMipLevels(1, 1, 0) == 1 && MipChain(1, 1, 0) == 2
  {
    Pow2Mono(1, 32);
    FloorLog2Unique(32, 1, 0);
    MipChainFlat(1, 1, 0);
  }

  /** NumMipLevels is the length of the chain of levels, except where some size is zero
      and none is above one: there it misses the step up to 1x1x1. */
  lemma {:induction false} NumMipLevelsIsChain(x: nat, y: nat, z: nat)
    requires x < Pow2(32) && y < Pow2(32) && z < Pow2(32)
    ensures NumMipLevels(x, y, z) == MipChain(x, y, z)
       <==> (x > 0 && y > 0 && z > 0) || x > 1 || y > 1 || z > 1
  {
    var f := NumMipLevelsRange(x, y, z);
    ChainAgainstLog(x, y, z, f);
  }
}
