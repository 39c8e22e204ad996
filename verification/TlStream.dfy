/** A stream of transport-layer packets (`include/pvrsrv_tlcommon.h`): what is laid out
    back to back, what a walk with the address macro reads, and what a client sees. */
module TlStream {
  import opened TlPacket

  type byte = x: int | 0 <= x < 256

  datatype Option<+T> = None | Some(value: T)

  // ---------- Words in memory ----------

  function Bytes32(v: nat): (b: seq<byte>)
    requires v < 0x1_0000_0000
    ensures |b| == 4
  {
    [v % 0x100, v / 0x100 % 0x100, v / 0x1_0000 % 0x100, v / 0x100_0000]
  }

  function Word32(b: seq<byte>): (v: nat)
    requires |b| == 4
    ensures v < 0x1_0000_0000
  {
    FromDigits(b[0], b[1], b[2], b[3])
  }

  function FromDigits(b0: byte, b1: byte, b2: byte, b3: byte): nat {
    b0 as nat + 0x100 * b1 as nat + 0x1_0000 * b2 as nat + 0x100_0000 * b3 as nat
  }

  lemma {:induction false} Digits(v: nat)
    ensures v == v % 0x100 + 0x100 * (v / 0x100 % 0x100)
                 + 0x1_0000 * (v / 0x1_0000 % 0x100) + 0x100_0000 * (v / 0x100_0000)
  {
    var a, b := v / 0x100, v / 0x1_0000;
    assert a / 0x100 == b && b / 0x100 == v / 0x100_0000;
  }

  lemma {:induction false} WordOfBytes(v: nat)
    requires v < 0x1_0000_0000
    ensures Word32(Bytes32(v)) == v
  {
    Digits(v);
  }

  lemma {:induction false} DigitsBack(b0: byte, b1: byte, b2: byte, b3: byte)
    ensures Bytes32(FromDigits(b0, b1, b2, b3)) == [b0, b1, b2, b3]
  {
    var v: nat := FromDigits(b0, b1, b2, b3);
    var a: nat := b1 as nat + 0x100 * b2 as nat + 0x1_0000 * b3 as nat;
    var b: nat := b2 as nat + 0x100 * b3 as nat;
    assert v == 0x100 * a + b0 as nat && v / 0x100 == a;
    assert v == 0x1_0000 * b + (b0 as nat + 0x100 * b1 as nat) && v / 0x1_0000 == b;
  }

  lemma {:induction false} BytesOfWord(b: seq<byte>)
    requires |b| == 4
    ensures Bytes32(Word32(b)) == b
  {
    DigitsBack(b[0], b[1], b[2], b[3]);
  }

  // ---------- Packets in memory ----------

  /** Everything in the memory of one packet: the header word, the reserved word, the
      data, and the bytes skipped to reach the next multiple of eight. */
  datatype Slot = Slot(word: nat, reserved: seq<byte>, payload: seq<byte>, filler: seq<byte>)

  ghost predicate ValidSlot(x: Slot) {
    && x.word < 0x1_0000_0000
    && |x.reserved| == 4
    && |x.payload| == x.word % 0x1_0000
    && |x.filler| < 8 && (|x.payload| + |x.filler|) % 8 == 0
  }

  ghost predicate AllValid(xs: seq<Slot>) {
    forall i :: 0 <= i < |xs| ==> ValidSlot(xs[i])
  }

  ghost function EncodeSlot(x: Slot): seq<byte>
    requires ValidSlot(x)
  {
    Bytes32(x.word) + x.reserved + x.payload + x.filler
  }

  ghost function Encode(xs: seq<Slot>): seq<byte>
    requires AllValid(xs)
  {
    if xs == [] then [] else EncodeSlot(xs[0]) + Encode(xs[1..])
  }

  /** The macros find the data and the next packet where the layout put them. */
  lemma {:induction false} SlotEnd(off: nat, word: nat, len: nat, filler: nat)
    requires len == word % 0x1_0000 && filler < 8 && (len + filler) % 8 == 0
    ensures GetDataLen(word) == len && NextPacketAddr(off, len) == off + 8 + len + filler
  {
    DataLenIsMod(word);
    var f := NextPacketAfterFiller(off, len);
    FillerUnique(len, f, filler);
  }

  lemma {:induction false} SlotBounds(off: nat, len: nat)
    requires len < 0x1_0000
    ensures off + 8 + len <= NextPacketAddr(off, len)
  {
    var f := NextPacketAfterFiller(off, len);
  }

  /** The packet at `off`, if the buffer holds all of it. */
  function ReadSlot(s: seq<byte>, off: nat): Option<Slot> {
    if off + 8 > |s| then None
    else
      var word := Word32(s[off..off + 4]);
      var len := GetDataLen(word);
      var next := NextPacketAddr(off, len);
      DataLenFits(word);
      SlotBounds(off, len);
      if next > |s| then None
      else Some(Slot(word, s[off + 4..off + 8], s[off + 8..off + 8 + len], s[off + 8 + len..next]))
  }

  /** The four parts of the bytes of one packet make up a valid packet. */
  lemma {:induction false} SlotInPlace(s: seq<byte>, off: nat, len: nat, f: nat, x: Slot)
    requires off + 8 + len + f <= |s| && f < 8 && (len + f) % 8 == 0
    requires x.word == Word32(s[off..off + 4]) && len == x.word % 0x1_0000
    requires x.reserved == s[off + 4..off + 8] && x.payload == s[off + 8..off + 8 + len]
    requires x.filler == s[off + 8 + len..off + 8 + len + f]
    ensures ValidSlot(x) && EncodeSlot(x) == s[off..off + 8 + len + f] && |EncodeSlot(x)| == 8 + len + f
  {
    BytesOfWord(s[off..off + 4]);
    FourParts(s, off, off + 4, off + 8, off + 8 + len, off + 8 + len + f);
  }

  /** What is read is a valid packet, and laying it out gives back the bytes read. */
  lemma {:induction false} ReadSlotIs(s: seq<byte>, off: nat, x: Slot)
    requires ReadSlot(s, off) == Some(x)
    ensures ValidSlot(x) && |EncodeSlot(x)| >= 8
    ensures NextPacketAddr(off, |x.payload|) == off + |EncodeSlot(x)| <= |s|
    ensures s[off..off + |EncodeSlot(x)|] == EncodeSlot(x)
  {
    assert off + 8 <= |s| && x.word == Word32(s[off..off + 4]);
    var len := GetDataLen(x.word);
    DataLenIsMod(x.word);
    var f := NextPacketAfterFiller(off, len);
    assert x.payload == s[off + 8..off + 8 + len];
    SlotInPlace(s, off, len, f, x);
  }

  lemma {:induction false} FourParts(s: seq<byte>, a: nat, b: nat, c: nat, d: nat, e: nat)
    requires a <= b <= c <= d <= e <= |s|
    ensures s[a..e] == s[a..b] + s[b..c] + s[c..d] + s[d..e]
  {
    assert s[a..c] == s[a..b] + s[b..c];
    assert s[a..d] == s[a..c] + s[c..d];
    assert s[a..e] == s[a..d] + s[d..e];
  }

  /** Walking from packet to packet. The walk stops at the end of the buffer; it fails if
      the last packet runs over it. */
  function Walk(s: seq<byte>, off: nat): Option<seq<Slot>>
    decreases |s| - off
  {
    if off == |s| then Some([])
    else
      match ReadSlot(s, off)
      case None => None
      case Some(x) =>
        ReadSlotIs(s, off, x);
        match Walk(s, NextPacketAddr(off, |x.payload|))
        case None => None
        case Some(xs) => Some([x] + xs)
  }

  // ---------- Layout and walk are inverse ----------

  lemma {:induction false} PartsBack(pre: seq<byte>, a: seq<byte>, b: seq<byte>, c: seq<byte>, d: seq<byte>,
                                     post: seq<byte>)
    ensures var s := pre + (a + b + c + d) + post;
      var p := |pre|; var q := p + |a|; var r := q + |b|; var t := r + |c|; var u := t + |d|;
      s[p..q] == a && s[q..r] == b && s[r..t] == c && s[t..u] == d
  {
  }

  lemma {:induction false} ReadParts(s: seq<byte>, off: nat, x: Slot, next: nat)
    requires x.word < 0x1_0000_0000 && |x.reserved| == 4 && |x.payload| == GetDataLen(x.word)
    requires next == NextPacketAddr(off, |x.payload|) && off + 8 + |x.payload| <= next <= |s|
    requires s[off..off + 4] == Bytes32(x.word) && s[off + 4..off + 8] == x.reserved
    requires s[off + 8..off + 8 + |x.payload|] == x.payload && s[off + 8 + |x.payload|..next] == x.filler
    ensures ReadSlot(s, off) == Some(x)
  {
    WordOfBytes(x.word);
  }

  /** A packet in the middle of a buffer is read back. */
  lemma {:induction false} ReadEncoded(pre: seq<byte>, x: Slot, post: seq<byte>)
    requires ValidSlot(x)
    ensures ReadSlot(pre + EncodeSlot(x) + post, |pre|) == Some(x)
    ensures NextPacketAddr(|pre|, |x.payload|) == |pre + EncodeSlot(x)|
  {
    SlotEnd(|pre|, x.word, |x.payload|, |x.filler|);
    PartsBack(pre, Bytes32(x.word), x.reserved, x.payload, x.filler, post);
    ReadParts(pre + EncodeSlot(x) + post, |pre|, x, |pre + EncodeSlot(x)|);
  }

  lemma {:induction false} WalkEncoded(pre: seq<byte>, xs: seq<Slot>)
    requires AllValid(xs)
    ensures Walk(pre + Encode(xs), |pre|) == Some(xs)
    decreases |xs|
  {
    var s := pre + Encode(xs);
    if xs != [] {
      var e := EncodeSlot(xs[0]);
      assert s == pre + e + Encode(xs[1..]);
      ReadEncoded(pre, xs[0], Encode(xs[1..]));
      WalkEncoded(pre + e, xs[1..]);
      assert [xs[0]] + xs[1..] == xs;
    }
  }

  /** The first packet of a successful walk, and the walk from the next. */
  lemma {:induction false} WalkFirst(s: seq<byte>, off: nat, xs: seq<Slot>)
    returns (x: Slot, rest: seq<Slot>, next: nat)
    requires off < |s| && Walk(s, off) == Some(xs)
    ensures xs != [] && xs[0] == x && xs[1..] == rest
    ensures ValidSlot(x) && off < next <= |s| && s[off..next] == EncodeSlot(x)
    ensures Walk(s, next) == Some(rest)
  {
    x := ReadSlot(s, off).value;
    ReadSlotIs(s, off, x);
    next := NextPacketAddr(off, |x.payload|);
    rest := Walk(s, next).value;
    assert ([x] + rest)[1..] == rest;
  }

  lemma {:induction false} CutAt(s: seq<byte>, a: nat, b: nat)
    requires a <= b <= |s|
    ensures s[a..] == s[a..b] + s[b..]
  {
  }

  lemma {:induction false} AllValidCons(xs: seq<Slot>)
    requires xs != [] && ValidSlot(xs[0]) && AllValid(xs[1..])
    ensures AllValid(xs)
  {
    assert xs == [xs[0]] + xs[1..];
  }

  lemma {:induction false} EncodeWalked(s: seq<byte>, off: nat, xs: seq<Slot>)
    requires off <= |s| && Walk(s, off) == Some(xs)
    ensures AllValid(xs) && s[off..] == Encode(xs)
    decreases |s| - off
  {
    if off < |s| {
      var x, rest, next := WalkFirst(s, off, xs);
      EncodeWalked(s, next, rest);
      CutAt(s, off, next);
      AllValidCons(xs);
    }
  }

  lemma {:induction false} WalkedIsEncoded(s: seq<byte>, xs: seq<Slot>)
    requires Walk(s, 0) == Some(xs)
    ensures AllValid(xs) && s == Encode(xs)
  {
    EncodeWalked(s, 0, xs);
    assert s[0..] == s;
  }

  lemma {:induction false} EncodedIsWalked(xs: seq<Slot>)
    requires AllValid(xs)
    ensures Walk(Encode(xs), 0) == Some(xs)
  {
    WalkEncoded([], xs);
    assert [] + Encode(xs) == Encode(xs);
  }

  /** A buffer is read as exactly the packets it was laid out from, and no other buffer
      is read as these packets. */
  lemma {:induction false} WalkIffEncoded(s: seq<byte>, xs: seq<Slot>)
    ensures Walk(s, 0) == Some(xs) <==> AllValid(xs) && s == Encode(xs)
  {
    if Walk(s, 0) == Some(xs) { WalkedIsEncoded(s, xs); }
    if AllValid(xs) { EncodedIsWalked(xs); }
  }
}
