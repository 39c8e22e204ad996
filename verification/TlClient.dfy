/** What a client of the packet stream sees (`include/pvrsrv_tlcommon.h`): padding packets
    are skipped, and the drop mark, the reserved word and the filler do not matter. */
module TlClient {
  import opened TlPacket
  import opened TlStream

  datatype Message = Message(ptype: nat, payload: seq<byte>)

  function MessageOf(x: Slot): Message {
    Message(GetType(x.word), x.payload)
  }

  /** What a client makes of one packet. */
  function Shown(x: Slot): seq<Message> {
    if GetType(x.word) == TYPE_PADDING then [] else [MessageOf(x)]
  }

  function Visible(xs: seq<Slot>): seq<Message> {
    if xs == [] then []
    else Shown(xs[0]) + Visible(xs[1..])
  }

  /** The whole client: walk the buffer, drop the padding. */
  function ClientView(s: seq<byte>): Option<seq<Message>> {
    match Walk(s, 0)
    case None => None
    case Some(xs) => Some(Visible(xs))
  }

  /** A client gets nothing out of a buffer exactly if no list of packets is laid out as it. */
  lemma {:induction false} NoViewIff(s: seq<byte>)
    ensures ClientView(s) == None <==> forall xs :: AllValid(xs) ==> Encode(xs) != s
  {
    if forall xs :: AllValid(xs) ==> Encode(xs) != s {
      if ClientView(s) != None { WalkedIsEncoded(s, Walk(s, 0).value); }
    } else {
      var xs :| AllValid(xs) && Encode(xs) == s;
      EncodedIsWalked(xs);
    }
  }

  lemma {:induction false} ViewOfEncoded(xs: seq<Slot>)
    requires AllValid(xs)
    ensures ClientView(Encode(xs)) == Some(Visible(xs))
  {
    EncodedIsWalked(xs);
  }

  lemma {:induction false} ConcatStep(a: seq<Slot>, b: seq<Slot>, x: seq<Message>, y: seq<Message>, z: seq<Message>)
    requires a != []
    ensures (a + b)[0] == a[0] && (a + b)[1..] == a[1..] + b && x + (y + z) == (x + y) + z
  {
  }

  lemma {:induction false} VisibleConcat(a: seq<Slot>, b: seq<Slot>)
    ensures Visible(a + b) == Visible(a) + Visible(b)
  {
    if a == [] {
      assert a + b == b;
    } else {
      VisibleConcat(a[1..], b);
      ConcatStep(a, b, Shown(a[0]), Visible(a[1..]), Visible(b));
    }
  }

  /** Streams laid out one behind the other are seen one behind the other. */
  lemma {:induction false} ViewConcat(a: seq<Slot>, b: seq<Slot>) returns (before: seq<Message>, after: seq<Message>)
    requires AllValid(a) && AllValid(b)
    ensures AllValid(a + b) && ClientView(Encode(a)) == Some(before) && ClientView(Encode(b)) == Some(after)
    ensures ClientView(Encode(a + b)) == Some(before + after)
  {
    before, after := Visible(a), Visible(b);
    ViewOfEncoded(a);
    ViewOfEncoded(b);
    ViewOfEncoded(a + b);
    VisibleConcat(a, b);
  }

  lemma {:induction false} VisibleAround(a: seq<Slot>, p: Slot, b: seq<Slot>)
    ensures GetType(p.word) == TYPE_PADDING ==> Visible(a + [p] + b) == Visible(a + b)
    ensures GetType(p.word) != TYPE_PADDING ==> Visible(a + [p] + b) == Visible(a) + [MessageOf(p)] + Visible(b)
  {
    VisibleConcat(a + [p], b);
    VisibleConcat(a, [p]);
    VisibleConcat(a, b);
    assert Visible([p]) == Shown(p) by { assert [p][1..] == []; }
    assert Visible(a) + [] == Visible(a);
  }

  /** A packet with the padding header is skipped, wherever it is and whatever it holds. */
  lemma {:induction false} PaddingIsSkipped(pre: seq<Slot>, p: Slot, post: seq<Slot>)
    requires AllValid(pre) && ValidSlot(p) && AllValid(post)
    requires |p.payload| < 0x1_0000 && p.word == SetPacketPadding(|p.payload|)
    ensures AllValid(pre + [p] + post) && AllValid(pre + post)
    ensures ClientView(Encode(pre + [p] + post)) == ClientView(Encode(pre + post))
  {
    SpecialWords(|p.payload|);
    VisibleAround(pre, p, post);
    ViewOfEncoded(pre + [p] + post);
    ViewOfEncoded(pre + post);
  }

  /** A packet with any other type in its header is seen between what is seen before and after it. */
  lemma {:induction false} OthersAreSeen(pre: seq<Slot>, p: Slot, post: seq<Slot>, ptype: nat)
    returns (before: seq<Message>, after: seq<Message>)
    requires AllValid(pre) && ValidSlot(p) && AllValid(post) && ptype < 0x100 && ptype != 3
    requires |p.payload| < 0x1_0000 && p.word == SetPacketHdr(|p.payload|, ptype)
    ensures AllValid(pre + [p] + post)
    ensures ClientView(Encode(pre)) == Some(before) && ClientView(Encode(post)) == Some(after)
    ensures ClientView(Encode(pre + [p] + post)) == Some(before + [Message(ptype, p.payload)] + after)
  {
    before, after := Visible(pre), Visible(post);
    HdrWord(|p.payload|, ptype);
    VisibleAround(pre, p, post);
    ViewOfEncoded(pre);
    ViewOfEncoded(post);
    ViewOfEncoded(pre + [p] + post);
  }

  /** In particular a data packet with its data. */
  lemma {:induction false} DataIsSeen(pre: seq<Slot>, p: Slot, post: seq<Slot>)
    returns (before: seq<Message>, after: seq<Message>)
    requires AllValid(pre) && ValidSlot(p) && AllValid(post)
    requires |p.payload| < 0x1_0000 && p.word == SetPacketData(|p.payload|)
    ensures AllValid(pre + [p] + post)
    ensures ClientView(Encode(pre)) == Some(before) && ClientView(Encode(post)) == Some(after)
    ensures ClientView(Encode(pre + [p] + post)) == Some(before + [Message(1, p.payload)] + after)
  {
    before, after := OthersAreSeen(pre, p, post, 1);
  }

  /** And the empty packet of a failed write. */
  lemma {:induction false} WriteFailureIsSeen(pre: seq<Slot>, p: Slot, post: seq<Slot>)
    returns (before: seq<Message>, after: seq<Message>)
    requires AllValid(pre) && ValidSlot(p) && AllValid(post) && p.word == SetPacketWriteFailed()
    ensures AllValid(pre + [p] + post)
    ensures ClientView(Encode(pre)) == Some(before) && ClientView(Encode(post)) == Some(after)
    ensures ClientView(Encode(pre + [p] + post)) == Some(before + [Message(2, [])] + after)
  {
    var ptype: nat :| ptype == 2;
    WriteFailedHdr(p.word, |p.payload|, ptype);
    before, after := OthersAreSeen(pre, p, post, ptype);
  }

  // ---------- The writer ----------

  /** A packet written with PVRSRVTL_SET_PACKET_HDR. */
  ghost predicate Written(x: Slot, m: Message) {
    ValidSlot(x) && x.payload == m.payload && |m.payload| < 0x1_0000 && m.ptype < 0x100
    && x.word == SetPacketHdr(|m.payload|, m.ptype)
  }

  ghost predicate AllWritten(xs: seq<Slot>, ms: seq<Message>) {
    |xs| == |ms| && forall i :: 0 <= i < |xs| ==> Written(xs[i], ms[i])
  }

  lemma {:induction false} VisibleAll(xs: seq<Slot>, ms: seq<Message>)
    requires |xs| == |ms| && forall i :: 0 <= i < |xs| ==> MessageOf(xs[i]) == ms[i] && ms[i].ptype != TYPE_PADDING
    ensures Visible(xs) == ms
  {
    if xs != [] {
      VisibleAll(xs[1..], ms[1..]);
      assert ms == [ms[0]] + ms[1..];
    }
  }

  lemma {:induction false} WrittenMessage(x: Slot, m: Message)
    requires Written(x, m)
    ensures MessageOf(x) == m && !CheckPacketsDropped(x.word)
  {
    WordPowers();
    PacketHdrRoundTripIff(|m.payload|, m.ptype);
  }

  /** Every packet written is found by the walk with its type, length and data, unmarked,
      whatever the reserved words and fillers hold. */
  lemma {:induction false} WriteThenRead(xs: seq<Slot>, ms: seq<Message>)
    requires AllWritten(xs, ms)
    ensures AllValid(xs) && Walk(Encode(xs), 0) == Some(xs)
    ensures forall i :: 0 <= i < |xs| ==> MessageOf(xs[i]) == ms[i]
    ensures forall i :: 0 <= i < |xs| ==> !CheckPacketsDropped(xs[i].word)
  {
    WalkIffEncoded(Encode(xs), xs);
    forall i | 0 <= i < |xs| ensures MessageOf(xs[i]) == ms[i] && !CheckPacketsDropped(xs[i].word) {
      WrittenMessage(xs[i], ms[i]);
    }
  }

  /** A client sees all that was written, if none of it is padding. */
  lemma {:induction false} WriteThenSee(xs: seq<Slot>, ms: seq<Message>)
    requires AllWritten(xs, ms) && forall i :: 0 <= i < |ms| ==> ms[i].ptype != 3
    ensures AllValid(xs) && ClientView(Encode(xs)) == Some(ms)
  {
    WriteThenRead(xs, ms);
    VisibleAll(xs, ms);
  }

  // ---------- Padding and drop marks ----------

  function Marked(x: Slot): Slot {
    x.(word := SetPacketsDropped(x.word))
  }

  /** `ys` is `xs` with padding put in anywhere and drop marks set anywhere. */
  ghost predicate Disturbed(ys: seq<Slot>, xs: seq<Slot>)
    decreases |ys|
  {
    if ys == [] then xs == []
    else
      || (GetType(ys[0].word) == TYPE_PADDING && Disturbed(ys[1..], xs))
      || (xs != [] && (ys[0] == xs[0] || ys[0] == Marked(xs[0])) && Disturbed(ys[1..], xs[1..]))
  }

  lemma {:induction false} MarkedMessage(x: Slot)
    requires ValidSlot(x)
    ensures MessageOf(Marked(x)) == MessageOf(x)
  {
    WordPowers();
    MarkKeepsFields(x.word);
  }

  lemma {:induction false} DisturbedVisible(ys: seq<Slot>, xs: seq<Slot>)
    requires AllValid(xs) && Disturbed(ys, xs)
    ensures Visible(ys) == Visible(xs)
    decreases |ys|
  {
    if ys != [] {
      if GetType(ys[0].word) == TYPE_PADDING && Disturbed(ys[1..], xs) {
        DisturbedVisible(ys[1..], xs);
        assert [] + Visible(xs) == Visible(xs);
      } else {
        MarkedMessage(xs[0]);
        DisturbedVisible(ys[1..], xs[1..]);
      }
    }
  }

  /** Padding packets of any length at any packet boundary, and drop marks on any packets,
      leave what the client sees unchanged. */
  lemma {:induction false} DisturbanceIsInvisible(ys: seq<Slot>, xs: seq<Slot>)
    requires AllValid(xs) && AllValid(ys) && Disturbed(ys, xs)
    ensures ClientView(Encode(ys)) == ClientView(Encode(xs))
  {
    WalkIffEncoded(Encode(xs), xs);
    WalkIffEncoded(Encode(ys), ys);
    DisturbedVisible(ys, xs);
  }

  // ---------- Marking packets in memory ----------

  /** The address of packet `i`. */
  ghost function PacketAddr(xs: seq<Slot>, i: nat): nat
    requires AllValid(xs) && i <= |xs|
  {
    if i == 0 then 0 else |EncodeSlot(xs[0])| + PacketAddr(xs[1..], i - 1)
  }

  /** Storing a word at `off`. */
  function Stored(s: seq<byte>, off: nat, word: nat): seq<byte>
    requires off + 4 <= |s| && word < 0x1_0000_0000
  {
    s[..off] + Bytes32(word) + s[off + 4..]
  }

  /** Storing SET_PACKETS_DROPPED into the header at `off`. */
  function MarkInMemory(s: seq<byte>, off: nat): seq<byte>
    requires off + 4 <= |s|
  {
    var word := Word32(s[off..off + 4]);
    MarkFits(word);
    Stored(s, off, SetPacketsDropped(word))
  }

  lemma {:induction false} MarkFits(word: nat)
    requires word < 0x1_0000_0000
    ensures SetPacketsDropped(word) < 0x1_0000_0000
  {
    WordPowers();
    MarkKeepsFields(word);
  }

  lemma {:induction false} MarkedValid(x: Slot)
    requires ValidSlot(x)
    ensures ValidSlot(Marked(x)) && |EncodeSlot(Marked(x))| == |EncodeSlot(x)|
  {
    WordPowers();
    MarkKeepsFields(x.word);
    DataLenIsMod(x.word);
    DataLenIsMod(Marked(x).word);
  }

  lemma {:induction false} PacketAddrOfFirst(x: Slot, addr: nat)
    requires ValidSlot(x)
    ensures NextPacketAddr(addr, GetDataLen(x.word)) == addr + |EncodeSlot(x)|
  {
    SlotEnd(addr, x.word, |x.payload|, |x.filler|);
  }

  /** The address of the next packet, as laid out. */
  lemma {:induction false} PacketAddrNext(xs: seq<Slot>, i: nat)
    requires AllValid(xs) && i < |xs|
    ensures PacketAddr(xs, i + 1) == PacketAddr(xs, i) + |EncodeSlot(xs[i])|
    decreases i
  {
    if i > 0 { PacketAddrNext(xs[1..], i - 1); }
  }

  /** The address macro leads from each packet to the next, from one multiple of eight to
      another, and at least past a header. */
  lemma {:induction false} WalkSteps(xs: seq<Slot>, i: nat)
    requires AllValid(xs) && i < |xs|
    ensures NextPacketAddr(PacketAddr(xs, i), GetDataLen(xs[i].word)) == PacketAddr(xs, i + 1)
    ensures PacketAddr(xs, i + 1) >= PacketAddr(xs, i) + 8
    ensures PacketAddr(xs, i) % 8 == 0 && PacketAddr(xs, i + 1) % 8 == 0
  {
    PacketAddrOfFirst(xs[i], PacketAddr(xs, i));
    PacketAddrNext(xs, i);
    SlotLong(xs[i]);
    PacketAddrAligned(xs, i);
    PacketAddrAligned(xs, i + 1);
  }

  lemma {:induction false} AddAligned(a: nat, b: nat)
    requires a % 8 == 0 && b % 8 == 0
    ensures (a + b) % 8 == 0
  {
  }

  /** Every header is eight-byte aligned. */
  lemma {:induction false} PacketAddrAligned(xs: seq<Slot>, i: nat)
    requires AllValid(xs) && i <= |xs|
    ensures PacketAddr(xs, i) % 8 == 0
    decreases i
  {
    if i > 0 {
      SlotAligned(xs[0]);
      PacketAddrAligned(xs[1..], i - 1);
      AddAligned(|EncodeSlot(xs[0])|, PacketAddr(xs[1..], i - 1));
    }
  }

  lemma {:induction false} SlotLong(x: Slot)
    requires ValidSlot(x)
    ensures |EncodeSlot(x)| >= 8
  {
  }

  /** Every header lies inside the buffer, and the address after the last packet is its end. */
  lemma {:induction false} PacketAddrInside(xs: seq<Slot>, i: nat)
    requires AllValid(xs) && i <= |xs|
    ensures if i < |xs| then PacketAddr(xs, i) + 8 <= |Encode(xs)| else PacketAddr(xs, i) == |Encode(xs)|
    decreases i
  {
    if i > 0 {
      PacketAddrInside(xs[1..], i - 1);
    } else if xs != [] {
      SlotLong(xs[0]);
    }
  }

  /** The bytes of one packet, in place: the header word with its least significant byte
      first, the reserved word, the data. */
  ghost predicate InPlace(x: Slot, s: seq<byte>, a: nat) {
    && a + 8 + |x.payload| <= |s|
    && s[a] as nat + 0x100 * s[a + 1] as nat + 0x1_0000 * s[a + 2] as nat + 0x100_0000 * s[a + 3] as nat == x.word
    && s[a + 4..a + 8] == x.reserved
    && s[a + 8..a + 8 + |x.payload|] == x.payload
  }

  lemma {:induction false} WordInPlace(b: seq<byte>, word: nat)
    requires |b| == 4 && word < 0x1_0000_0000 && b == Bytes32(word)
    ensures b[0] as nat + 0x100 * b[1] as nat + 0x1_0000 * b[2] as nat + 0x100_0000 * b[3] as nat == word
  {
    WordOfBytes(word);
  }

  lemma {:induction false} PartsInPlace(w: seq<byte>, x: Slot, rest: seq<byte>, s: seq<byte>)
    requires |w| == 4 && |x.reserved| == 4 && s == w + x.reserved + x.payload + x.filler + rest
    ensures 8 + |x.payload| <= |s| && s[4..8] == x.reserved && s[8..8 + |x.payload|] == x.payload
    ensures s[0] == w[0] && s[1] == w[1] && s[2] == w[2] && s[3] == w[3]
  {
  }

  lemma {:induction false} FirstInPlace(x: Slot, rest: seq<byte>)
    requires ValidSlot(x)
    ensures InPlace(x, EncodeSlot(x) + rest, 0)
  {
    var w := Bytes32(x.word);
    WordInPlace(w, x.word);
    PartsInPlace(w, x, rest, EncodeSlot(x) + rest);
  }

  lemma {:induction false} LaterInPlace(x: Slot, e: seq<byte>, s: seq<byte>, a: nat, es: seq<byte>)
    requires InPlace(x, s, a) && es == e + s
    ensures InPlace(x, es, |e| + a)
  {
    var b := |e| + a;
    assert es[b..b + 4] == s[a..a + 4];
    assert es[b + 4..b + 8] == s[a + 4..a + 8];
    assert es[b + 8..b + 8 + |x.payload|] == s[a + 8..a + 8 + |x.payload|];
  }

  lemma {:induction false} RestInPlace(xs: seq<Slot>, i: nat, s: seq<byte>, a: nat)
    returns (rest: seq<Slot>, t: seq<byte>, b: nat)
    requires AllValid(xs) && 0 < i < |xs| && s == Encode(xs) && a == PacketAddr(xs, i)
    ensures AllValid(rest) && i - 1 < |rest| && rest[i - 1] == xs[i]
    ensures t == Encode(rest) && b == PacketAddr(rest, i - 1)
    ensures InPlace(xs[i], t, b) ==> InPlace(xs[i], s, a)
  {
    rest := xs[1..];
    t, b := Encode(rest), PacketAddr(rest, i - 1);
    if InPlace(xs[i], t, b) { LaterInPlace(xs[i], EncodeSlot(xs[0]), t, b, s); }
  }

  lemma {:induction false} PacketInPlaceAt(xs: seq<Slot>, i: nat, s: seq<byte>, a: nat)
    requires AllValid(xs) && i < |xs| && s == Encode(xs) && a == PacketAddr(xs, i)
    ensures InPlace(xs[i], s, a)
    decreases i
  {
    if i == 0 {
      FirstInPlace(xs[0], Encode(xs[1..]));
    } else {
      var rest, t, b := RestInPlace(xs, i, s, a);
      PacketInPlaceAt(rest, i - 1, t, b);
    }
  }

  /** Every packet is found, byte for byte, at its address. */
  lemma {:induction false} PacketInPlace(xs: seq<Slot>, i: nat)
    requires AllValid(xs) && i < |xs|
    ensures InPlace(xs[i], Encode(xs), PacketAddr(xs, i))
  {
    PacketInPlaceAt(xs, i, Encode(xs), PacketAddr(xs, i));
  }

  lemma {:induction false} SlotAligned(x: Slot)
    requires ValidSlot(x)
    ensures |EncodeSlot(x)| % 8 == 0
  {
    AddAligned(8, |x.payload| + |x.filler|);
    assert |EncodeSlot(x)| == 8 + (|x.payload| + |x.filler|);
  }

  lemma {:induction false} EncodeCons(x: Slot, xs: seq<Slot>)
    requires ValidSlot(x) && AllValid(xs)
    ensures AllValid([x] + xs) && Encode([x] + xs) == EncodeSlot(x) + Encode(xs)
  {
    assert ([x] + xs)[1..] == xs;
  }

  lemma {:induction false} UpdateCons(xs: seq<Slot>, i: nat, y: Slot)
    requires i < |xs|
    ensures xs == [xs[0]] + xs[1..]
    ensures xs[i := y] == if i == 0 then [y] + xs[1..] else [xs[0]] + xs[1..][i - 1 := y]
  {
  }

  lemma {:induction false} Regroup(a: seq<byte>, b: seq<byte>, c: seq<byte>, d: seq<byte>, e: seq<byte>)
    ensures (a + b + c + d) + e == a + (b + c + d + e)
  {
  }

  lemma {:induction false} StoredAtStart(first: seq<byte>, tail: seq<byte>, word: nat)
    requires |first| == 4 && word < 0x1_0000_0000
    ensures Stored(first + tail, 0, word) == Bytes32(word) + tail
  {
    var s := first + tail;
    assert s[4..] == tail && s[..0] == [];
  }

  lemma {:induction false} StoredBehind(e: seq<byte>, rest: seq<byte>, off: nat, word: nat, s: seq<byte>)
    requires off + 4 <= |rest| && word < 0x1_0000_0000 && s == e + rest
    ensures Stored(s, |e| + off, word) == e + Stored(rest, off, word)
  {
    assert s[..|e| + off] == e + rest[..off];
    assert s[|e| + off + 4..] == rest[off + 4..];
  }

  lemma {:induction false} StoredInFirst(x: Slot, word: nat, rest: seq<byte>)
    requires ValidSlot(x) && ValidSlot(x.(word := word))
    ensures Stored(EncodeSlot(x) + rest, 0, word) == EncodeSlot(x.(word := word)) + rest
  {
    Regroup(Bytes32(x.word), x.reserved, x.payload, x.filler, rest);
    Regroup(Bytes32(word), x.reserved, x.payload, x.filler, rest);
    StoredAtStart(Bytes32(x.word), x.reserved + x.payload + x.filler + rest, word);
  }

  /** Storing `word` at `addr` turns the layout of `xs` into the layout of `ys`. */
  ghost predicate StoreGives(xs: seq<Slot>, addr: nat, word: nat, ys: seq<Slot>) {
    && AllValid(xs) && AllValid(ys) && addr + 4 <= |Encode(xs)| && word < 0x1_0000_0000
    && Stored(Encode(xs), addr, word) == Encode(ys)
  }

  lemma {:induction false} StoreGivesFirst(xs: seq<Slot>, addr: nat, word: nat, ys: seq<Slot>)
    requires AllValid(xs) && xs != [] && addr == 0
    requires ValidSlot(xs[0].(word := word)) && ys == xs[0 := xs[0].(word := word)]
    ensures StoreGives(xs, addr, word, ys)
  {
    UpdateCons(xs, 0, xs[0].(word := word));
    EncodeCons(xs[0], xs[1..]);
    EncodeCons(xs[0].(word := word), xs[1..]);
    SlotLong(xs[0]);
    StoredInFirst(xs[0], word, Encode(xs[1..]));
  }

  lemma {:induction false} StoreGivesBehind(x: Slot, xs: seq<Slot>, addr: nat, word: nat, ys: seq<Slot>)
    requires ValidSlot(x) && StoreGives(xs, addr, word, ys)
    ensures StoreGives([x] + xs, |EncodeSlot(x)| + addr, word, [x] + ys)
  {
    EncodeCons(x, xs);
    EncodeCons(x, ys);
    StoredBehind(EncodeSlot(x), Encode(xs), addr, word, Encode([x] + xs));
  }

  lemma {:induction false} StoreGivesLater(xs: seq<Slot>, i: nat, addr: nat, word: nat, ys: seq<Slot>)
    returns (rest: seq<Slot>, zs: seq<Slot>, before: nat)
    requires AllValid(xs) && 0 < i < |xs| && addr == PacketAddr(xs, i) && ys == xs[i := xs[i].(word := word)]
    ensures AllValid(rest) && i - 1 < |rest| && rest[i - 1] == xs[i] && before == PacketAddr(rest, i - 1)
    ensures zs == rest[i - 1 := xs[i].(word := word)]
    ensures StoreGives(rest, before, word, zs) ==> StoreGives(xs, addr, word, ys)
  {
    rest := xs[1..];
    zs, before := rest[i - 1 := xs[i].(word := word)], PacketAddr(rest, i - 1);
    UpdateCons(xs, i, xs[i].(word := word));
    if StoreGives(rest, before, word, zs) { StoreGivesBehind(xs[0], rest, before, word, zs); }
  }

  /** Storing a header word that keeps the packet valid changes that word of that packet only. */
  lemma {:induction false} StoreInPacket(xs: seq<Slot>, i: nat, addr: nat, word: nat, ys: seq<Slot>)
    requires AllValid(xs) && i < |xs| && addr == PacketAddr(xs, i)
    requires ValidSlot(xs[i].(word := word)) && ys == xs[i := xs[i].(word := word)]
    ensures StoreGives(xs, addr, word, ys)
    decreases i
  {
    if i == 0 {
      StoreGivesFirst(xs, addr, word, ys);
    } else {
      var rest, zs, before := StoreGivesLater(xs, i, addr, word, ys);
      StoreInPacket(rest, i - 1, before, word, zs);
    }
  }

  lemma {:induction false} WordAt(x: Slot, s: seq<byte>, a: nat)
    requires InPlace(x, s, a)
    ensures Word32(s[a..a + 4]) == x.word
  {
  }

  /** Marking a packet in memory is laying the stream out with that packet marked. */
  lemma {:induction false} MarkInMemoryIs(xs: seq<Slot>, i: nat, ys: seq<Slot>)
    requires AllValid(xs) && i < |xs| && ys == xs[i := Marked(xs[i])]
    ensures AllValid(ys) && PacketAddr(xs, i) + 4 <= |Encode(xs)|
    ensures MarkInMemory(Encode(xs), PacketAddr(xs, i)) == Encode(ys)
  {
    MarkedValid(xs[i]);
    PacketInPlace(xs, i);
    WordAt(xs[i], Encode(xs), PacketAddr(xs, i));
    StoreInPacket(xs, i, PacketAddr(xs, i), Marked(xs[i]).word, ys);
  }

  // ---------- Marking any set of packets ----------

  ghost function MarkAll(xs: seq<Slot>, marks: seq<nat>): (ys: seq<Slot>)
    requires forall j :: 0 <= j < |marks| ==> marks[j] < |xs|
    ensures |ys| == |xs|
    decreases |marks|
  {
    if marks == [] then xs else var i := marks[0]; MarkAll(xs[i := Marked(xs[i])], marks[1..])
  }

  /** Stores the mark into the given headers one after the other. */
  ghost function MarkAllInMemory(s: seq<byte>, addrs: seq<nat>): (t: seq<byte>)
    requires forall j :: 0 <= j < |addrs| ==> addrs[j] + 4 <= |s|
    decreases |addrs|
  {
    if addrs == [] then s else MarkAllInMemory(MarkInMemory(s, addrs[0]), addrs[1..])
  }

  /** The check finds the mark on exactly the marked packets. */
  lemma {:induction false} MarkedExactly(xs: seq<Slot>, marks: seq<nat>, i: nat)
    requires AllValid(xs) && i < |xs| && forall j :: 0 <= j < |marks| ==> marks[j] < |xs|
    ensures CheckPacketsDropped(MarkAll(xs, marks)[i].word) <==> i in marks || CheckPacketsDropped(xs[i].word)
    decreases |marks|
  {
    if marks != [] {
      var m := marks[0];
      var ys := xs[m := Marked(xs[m])];
      MarkedValid(xs[m]);
      MarkedExactly(ys, marks[1..], i);
      WordPowers();
      MarkKeepsFields(xs[m].word);
      assert marks == [m] + marks[1..];
    }
  }

  lemma {:induction false} MarkAllDisturbs(xs: seq<Slot>, marks: seq<nat>)
    requires AllValid(xs) && forall j :: 0 <= j < |marks| ==> marks[j] < |xs|
    ensures AllValid(MarkAll(xs, marks)) && Visible(MarkAll(xs, marks)) == Visible(xs)
    decreases |marks|
  {
    if marks != [] {
      var m := marks[0];
      var ys := xs[m := Marked(xs[m])];
      MarkedValid(xs[m]);
      MarkAllDisturbs(ys, marks[1..]);
      OneMarkDisturbs(xs, m);
      DisturbedVisible(ys, xs);
    }
  }

  lemma {:induction false} OneMarkDisturbs(xs: seq<Slot>, m: nat)
    requires m < |xs|
    ensures Disturbed(xs[m := Marked(xs[m])], xs)
    decreases m
  {
    var ys := xs[m := Marked(xs[m])];
    if m == 0 {
      assert ys[1..] == xs[1..];
      Undisturbed(xs[1..]);
    } else {
      OneMarkDisturbs(xs[1..], m - 1);
      assert ys[1..] == xs[1..][m - 1 := Marked(xs[m])];
    }
  }

  lemma {:induction false} Undisturbed(xs: seq<Slot>)
    ensures Disturbed(xs, xs)
  {
    if xs != [] { Undisturbed(xs[1..]); }
  }

  /** Marking headers in memory, any and in any order: the walk finds the same packets with
      exactly those marked, and the client sees the same messages. */
  lemma {:induction false} MarkAllInMemoryIs(xs: seq<Slot>, marks: seq<nat>, addrs: seq<nat>)
    requires AllValid(xs) && |addrs| == |marks|
    requires forall j :: 0 <= j < |marks| ==> marks[j] < |xs| && addrs[j] == PacketAddr(xs, marks[j])
    ensures forall j :: 0 <= j < |addrs| ==> addrs[j] + 4 <= |Encode(xs)|
    ensures AllValid(MarkAll(xs, marks)) && MarkAllInMemory(Encode(xs), addrs) == Encode(MarkAll(xs, marks))
    decreases |marks|
  {
    forall j | 0 <= j < |addrs| ensures addrs[j] + 4 <= |Encode(xs)| { PacketAddrInside(xs, marks[j]); }
    if marks != [] {
      var m := marks[0];
      var ys := xs[m := Marked(xs[m])];
      MarkInMemoryIs(xs, m, ys);
      forall j | 0 <= j < |marks| ensures PacketAddr(ys, marks[j]) == addrs[j] { SameAddrMarked(xs, m, marks[j]); }
      MarkAllInMemoryIs(ys, marks[1..], addrs[1..]);
    }
  }

  /** Addresses depend on the sizes of the packets only. */
  lemma {:induction false} SameAddr(xs: seq<Slot>, ys: seq<Slot>, i: nat)
    requires AllValid(xs) && AllValid(ys) && |xs| == |ys| && i <= |xs|
    requires forall j :: 0 <= j < |xs| ==> |EncodeSlot(xs[j])| == |EncodeSlot(ys[j])|
    ensures PacketAddr(ys, i) == PacketAddr(xs, i)
    decreases i
  {
    if i > 0 {
      SameAddr(xs[1..], ys[1..], i - 1);
    }
  }

  lemma {:induction false} SameAddrMarked(xs: seq<Slot>, m: nat, i: nat)
    requires AllValid(xs) && m < |xs| && i <= |xs|
    ensures AllValid(xs[m := Marked(xs[m])]) && PacketAddr(xs[m := Marked(xs[m])], i) == PacketAddr(xs, i)
  {
    MarkedValid(xs[m]);
    SameAddr(xs, xs[m := Marked(xs[m])], i);
  }

  lemma {:induction false} MarkingIsInvisible(xs: seq<Slot>, marks: seq<nat>, addrs: seq<nat>)
    requires AllValid(xs) && |addrs| == |marks|
    requires forall j :: 0 <= j < |marks| ==> marks[j] < |xs| && addrs[j] == PacketAddr(xs, marks[j])
    ensures forall j :: 0 <= j < |addrs| ==> addrs[j] + 4 <= |Encode(xs)|
    ensures var t := MarkAllInMemory(Encode(xs), addrs);
      ClientView(t) == ClientView(Encode(xs)) && Walk(t, 0) == Some(MarkAll(xs, marks))
  {
    MarkAllInMemoryIs(xs, marks, addrs);
    MarkAllDisturbs(xs, marks);
    WalkIffEncoded(Encode(xs), xs);
    WalkIffEncoded(Encode(MarkAll(xs, marks)), MarkAll(xs, marks));
  }
}
