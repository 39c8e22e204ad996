/** The transport-layer packet format of `include/pvrsrv_tlcommon.h`: a 32-bit word with
    type, drop mark and size, a reserved word, the data, and filler up to a multiple of
    eight bytes. Words are stored least significant byte first. */
module TlPacket {
  import opened Bits
  import opened ImgDefs

  const TYPE_PADDING: nat := 3

  // ---------- The header word ----------

  function SetPacketHdr(len: nat, ptype: nat): nat {
    Or(len, Shl(32, ptype, 24))
  }

  function SetPacketData(len: nat): nat {
    Or(len, Shl(32, 1, 24))
  }

  function SetPacketPadding(len: nat): nat {
    Or(len, Shl(32, 3, 24))
  }

  function SetPacketWriteFailed(): nat {
    Or(0, Shl(32, 2, 24))
  }

  function GetDataLen(word: nat): nat {
    And(word, 0x0000_FFFF)
  }

  function GetType(word: nat): nat {
    Shr(And(word, 0xFF00_0000), 24)
  }

  function SetPacketsDropped(word: nat): nat {
    Or(word, Shl(32, 1, 23))
  }

  predicate CheckPacketsDropped(word: nat) {
    Shr(And(word, 0x0080_0000), 23) != 0
  }

  /** GET_NEXT_PACKET_ADDR for the packet at `addr` with the given GET_PACKET_DATA_LEN:
      past the header and the data, rounded up to eight bytes. */
  function NextPacketAddr(addr: nat, len: nat): nat {
    addr + 8 + And(Add(32, len, 7), Not(32, 7))
  }

  lemma {:induction false} WordPowers()
    ensures Pow2(3) == 8 && Pow2(7) == 0x80 && Pow2(8) == 0x100 && Pow2(16) == 0x1_0000 && Pow2(23) == 0x80_0000
    ensures Pow2(24) == 0x100_0000 && Pow2(32) == 0x1_0000_0000
  {
    assert Pow2(4) == 16;
    Pow2Step(4); Pow2Step(8); Pow2Step(12); Pow2Step(16); Pow2Step(20); Pow2Step(24); Pow2Step(28);
    assert Pow2(24) == 2 * Pow2(23);
  }

  /** The masks cut out the fields. */
  lemma {:induction false} Fields(word: nat)
    requires word < Pow2(32)
    ensures GetDataLen(word) == Trunc(16, word)
    ensures GetType(word) == Shr(word, 24)
    ensures CheckPacketsDropped(word) <==> Bit(word, 23)
  {
    WordPowers();
    AndLowMask(word, 16);
    TypeField(word);
    DroppedField(word);
  }

  lemma {:induction false} TypeField(word: nat)
    requires word < Pow2(32)
    ensures GetType(word) == Shr(word, 24)
  {
    WordPowers();
    ScaleIsTimes(255, 24);
    AndField(word, 24, 8);
    var f := Trunc(8, Shr(word, 24));
    Parts(f, 0, 24);
    Cut(word, 24);
    ShrFits(word, 24, 8);
    TruncFits(8, Shr(word, 24));
  }

  lemma {:induction false} DroppedField(word: nat)
    ensures CheckPacketsDropped(word) <==> Bit(word, 23)
  {
    WordPowers();
    ScaleIsTimes(1, 23);
    AndField(word, 23, 1);
    Parts(Trunc(1, Shr(word, 23)), 0, 23);
    ShrBit(word, 23, 0);
    assert Trunc(1, Shr(word, 23)) == Shr(word, 23) % 2 + 2 * Trunc(0, Shr(word, 23) / 2);
  }

  // ---------- Writing and reading the header word ----------

  lemma {:induction false} ShlKeepsField(t: nat)
    ensures Shl(32, t, 24) == Scale(Trunc(8, t), 24)
  {
    forall i: nat ensures Bit(Shl(32, t, 24), i) == Bit(Scale(Trunc(8, t), 24), i) {
      TruncBit(32, Scale(t, 24), i);
      ScaleBit(t, 24, i);
      ScaleBit(Trunc(8, t), 24, i);
      if 24 <= i { TruncBit(8, t, i - 24); }
    }
    BitExt(Shl(32, t, 24), Scale(Trunc(8, t), 24));
  }

  lemma {:induction false} PacketHdrIs(len: nat, ptype: nat)
    requires len < Pow2(24)
    ensures SetPacketHdr(len, ptype) == Scale(Trunc(8, ptype), 24) + len < Pow2(32)
    ensures Shr(SetPacketHdr(len, ptype), 24) == Trunc(8, ptype) && Trunc(24, SetPacketHdr(len, ptype)) == len
  {
    var f := Trunc(8, ptype);
    WordPowers();
    ShlKeepsField(ptype);
    OrDisjoint(len, f, 24);
    Parts(f, len, 24);
    Cut(ptype, 8);
    ScaleIsTimes(f, 24);
  }

  /** A length and a type come back out of the word exactly when they fit their fields;
      then the word also does not carry the drop mark. */
  lemma {:induction false} PacketHdrRoundTripIff(len: nat, ptype: nat)
    requires len < Pow2(32) && ptype < Pow2(32)
    ensures GetDataLen(SetPacketHdr(len, ptype)) == len && GetType(SetPacketHdr(len, ptype)) == ptype
       <==> len < 0x1_0000 && ptype < 0x100
    ensures len < 0x1_0000 ==> SetPacketHdr(len, ptype) < Pow2(32) && !CheckPacketsDropped(SetPacketHdr(len, ptype))
  {
    var word := SetPacketHdr(len, ptype);
    WordPowers();
    AndLowMask(word, 16);
    Cut(word, 16);
    if len < 0x1_0000 {
      PacketHdrIs(len, ptype);
      Fields(word);
      LowBits(word, len);
      Cut(ptype, 8);
      if ptype < 0x100 { TruncFits(8, ptype); }
    }
  }

  lemma {:induction false} HdrWord(len: nat, ptype: nat)
    requires len < 0x1_0000 && ptype < 0x100
    ensures Or(len, Shl(32, ptype, 24)) == 0x100_0000 * ptype + len
    ensures GetType(Or(len, Shl(32, ptype, 24))) == ptype
  {
    var word := SetPacketHdr(len, ptype);
    WordPowers();
    PacketHdrIs(len, ptype);
    TruncFits(8, ptype);
    ScaleIsTimes(ptype, 24);
    Fields(word);
  }

  /** The header words of the three special macros, and the types they are read with. */
  lemma {:induction false} SpecialWords(len: nat)
    requires len < 0x1_0000
    ensures SetPacketData(len) == 0x100_0000 + len && GetType(SetPacketData(len)) == 1
    ensures SetPacketPadding(len) == 0x300_0000 + len && GetType(SetPacketPadding(len)) == 3
    ensures SetPacketWriteFailed() == 0x200_0000 && GetType(SetPacketWriteFailed()) == 2
  {
    HdrWord(len, 1);
    HdrWord(len, 3);
    HdrWord(0, 2);
  }

  lemma {:induction false} FailedWord(ptype: nat)
    requires ptype == 2
    ensures SetPacketWriteFailed() == 0x200_0000
  {
    HdrWord(0, ptype);
  }

  /** The packet of a failed write has type 2 and no data. */
  lemma {:induction false} WriteFailedHdr(word: nat, len: nat, ptype: nat)
    requires word == SetPacketWriteFailed() && len == word % 0x1_0000 && ptype == 2
    ensures len == 0 && word == SetPacketHdr(len, ptype)
  {
    FailedWord(ptype);
    HdrWord(len, ptype);
  }

  /** The low 24 bits of a word decide its size and its drop mark. */
  lemma {:induction false} LowBits(word: nat, len: nat)
    requires Trunc(24, word) == len < Pow2(16)
    ensures Trunc(16, word) == len && !Bit(word, 23)
  {
    forall i: nat ensures Bit(Trunc(16, word), i) == Bit(len, i) {
      TruncBit(16, word, i);
      TruncBit(24, word, i);
      if 16 <= i { BitBelow(len, 16, i); }
    }
    BitExt(Trunc(16, word), len);
    TruncBit(24, word, 23);
    BitBelow(len, 16, 23);
  }

  lemma {:induction false} MarkBit(word: nat, i: nat)
    ensures Bit(SetPacketsDropped(word), i) <==> Bit(word, i) || i == 23
  {
    WordPowers();
    ScaleIsTimes(1, 23);
    TruncFits(32, Pow2(23));
    OrBit(word, Pow2(23), i);
    Pow2Bit(23, i);
  }

  /** The drop mark changes neither size nor type, and the check sees it. */
  lemma {:induction false} MarkKeepsFields(word: nat)
    requires word < Pow2(32)
    ensures SetPacketsDropped(word) < Pow2(32)
    ensures GetDataLen(SetPacketsDropped(word)) == GetDataLen(word)
    ensures GetType(SetPacketsDropped(word)) == GetType(word)
    ensures CheckPacketsDropped(SetPacketsDropped(word))
  {
    var marked := SetPacketsDropped(word);
    forall i: nat ensures Bit(Trunc(32, marked), i) == Bit(marked, i)
                  ensures Bit(Trunc(16, marked), i) == Bit(Trunc(16, word), i)
                  ensures Bit(Shr(marked, 24), i) == Bit(Shr(word, 24), i)
    {
      MarkBit(word, i);
      MarkBit(word, i + 24);
      TruncBit(32, marked, i);
      TruncBit(16, marked, i);
      TruncBit(16, word, i);
      ShrBit(marked, 24, i);
      ShrBit(word, 24, i);
      if 32 <= i { BitBelow(word, 32, i); }
    }
    BitExt(Trunc(32, marked), marked);
    BitExt(Trunc(16, marked), Trunc(16, word));
    BitExt(Shr(marked, 24), Shr(word, 24));
    Cut(marked, 32);
    Fields(word);
    Fields(marked);
    MarkBit(word, 23);
  }

  lemma {:induction false} EightCovers(len: nat, r: nat) returns (filler: nat)
    requires LeastMultipleFrom(len, 8, r)
    ensures r == len + filler && filler < 8 && (len + filler) % 8 == 0
  {
    var k: nat :| r == k * 8;
    var j: nat := if k > 0 then k - 1 else 0;
    assert len <= j * 8 ==> r <= j * 8;
    filler := r - len;
  }

  lemma {:induction false} AlignEight(len: nat)
    requires len < 0x1_0000
    ensures 8 < Pow2(32) && LeastMultipleFrom(len, 8, PvrAlign(32, len, 8))
  {
    WordPowers();
    AlignIsLeastMultipleIff(32, len, 3);
  }

  lemma {:induction false} DataLenFits(word: nat)
    ensures GetDataLen(word) < 0x1_0000
  {
    WordPowers();
    AndLowMask(word, 16);
    Cut(word, 16);
  }

  /** The size field is the word modulo 2^16. */
  lemma {:induction false} DataLenIsMod(word: nat)
    ensures GetDataLen(word) == word % 0x1_0000
  {
    WordPowers();
    AndLowMask(word, 16);
    CutIsDivMod(word, 16);
  }

  /** The data length rounded up, as the address macro computes it. */
  lemma {:induction false} RoundedLen(len: nat) returns (filler: nat)
    requires len < 0x1_0000
    ensures And(Add(32, len, 7), Not(32, 7)) == len + filler
    ensures filler < 8 && (len + filler) % 8 == 0
  {
    AlignEight(len);
    filler := EightCovers(len, PvrAlign(32, len, 8));
  }

  /** The next packet follows the least filler that reaches a multiple of eight. */
  lemma {:induction false} NextPacketAfterFiller(addr: nat, len: nat) returns (filler: nat)
    requires len < 0x1_0000
    ensures NextPacketAddr(addr, len) == addr + 8 + len + filler
    ensures filler < 8 && (len + filler) % 8 == 0
  {
    filler := RoundedLen(len);
  }

  lemma {:induction false} FillerUnique(len: nat, f: nat, g: nat)
    requires f < 8 && (len + f) % 8 == 0 && g < 8 && (len + g) % 8 == 0
    ensures f == g
  {
  }
}
