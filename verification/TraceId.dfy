/** Firmware trace ids: the word that names a trace string (`include/rgx_fwif_sf.h`) and
    the search for it in a table closed by a sentinel row (`include/rgxfw_log_helper.h`). */
module TraceId {
  import opened Bits
  import opened Seqs

  const ID_MARKER: nat := 0x7000_0000

  // ---------- The id word ----------

  function CreateSfId(id: nat, group: nat, args: nat): nat {
    Or(Or(Or(id, Shl(32, group, 12)), Shl(32, args, 16)), ID_MARKER)
  }

  predicate LogValidId(word: nat) {
    And(word, 0xFFF0_0000) == ID_MARKER
  }

  function SfGid(word: nat): nat {
    And(Shr(word, 12), 0xF)
  }

  function SfParamNum(word: nat): nat {
    And(Shr(word, 16), 0xF)
  }

  /** RGXFW_SF_LAST, the id of the row that closes every table. */
  const SF_LAST: nat := 0x700F_FFFF

  lemma {:induction false} FieldPowers()
    ensures Pow2(4) == 0x10 && Pow2(12) == 0x1000 && Pow2(16) == 0x1_0000 && Pow2(20) == 0x10_0000
    ensures Pow2(28) == 0x1000_0000 && Pow2(32) == 0x1_0000_0000
  {
    assert Pow2(4) == 16;
    Pow2Step(4); Pow2Step(8); Pow2Step(12); Pow2Step(16); Pow2Step(20); Pow2Step(24); Pow2Step(28);
  }

  /** A field shifted into place. */
  lemma {:induction false} ShlField(field: nat, k: nat, width: nat)
    requires field < width && width * Pow2(k) <= Pow2(32)
    ensures Shl(32, field, k) == Scale(field, k) == field * Pow2(k)
  {
    ScaleIsTimes(field, k);
    Below(field, width, Pow2(k));
    TruncFits(32, Scale(field, k));
  }

  lemma {:induction false} Below(a: nat, b: nat, c: nat)
    requires a < b && c > 0
    ensures a * c < b * c
  {
  }

  lemma {:induction false} UpperFields(low: nat, args: nat)
    requires low < 0x1_0000 && args < 0x10
    ensures Or(Or(low, Shl(32, args, 16)), ID_MARKER) == 0x7000_0000 + args * 0x1_0000 + low
  {
    FieldPowers();
    ShlField(args, 16, 16);
    OrDisjoint(low, args, 16);
    MarkerField(args * 0x1_0000 + low);
  }

  lemma {:induction false} MarkerField(n: nat)
    requires n < 0x1000_0000
    ensures Or(n, ID_MARKER) == 0x7000_0000 + n
  {
    FieldPowers();
    ScaleIsTimes(7, 28);
    OrDisjoint(n, 7, 28);
  }

  lemma {:induction false} LowerFields(id: nat, group: nat)
    requires id < 0x1000 && group < 0x10
    ensures Or(id, Shl(32, group, 12)) == group * 0x1000 + id
  {
    FieldPowers();
    ShlField(group, 12, 16);
    OrDisjoint(id, group, 12);
  }

  /** The word is the sum of its fields. */
  lemma {:induction false} CreateIs(id: nat, group: nat, args: nat)
    requires id < 0x1000 && group < 0x10 && args < 0x10
    ensures CreateSfId(id, group, args) == 0x7000_0000 + args * 0x1_0000 + group * 0x1000 + id
  {
    LowerFields(id, group);
    UpperFields(group * 0x1000 + id, args);
  }

  /** The sentinel is made like every id, but its id number runs over into the group field. */
  lemma {:induction false} LastIs()
    ensures CreateSfId(65535, 0, 15) == SF_LAST
  {
    FieldPowers();
    ShlField(0, 12, 16);
    UpperFields(65535, 15);
  }

  // ---------- Reading the word ----------

  lemma {:induction false} AndNibble(n: nat)
    ensures And(n, 0xF) == n % 0x10
  {
    FieldPowers();
    AndLowMask(n, 4);
    CutIsDivMod(n, 4);
  }

  lemma {:induction false} ShrTwelve(word: nat)
    ensures Shr(word, 12) == word / 0x1000 && Shr(word, 16) == word / 0x1_0000
  {
    FieldPowers();
    CutIsDivMod(word, 12);
    CutIsDivMod(word, 16);
  }

  lemma {:induction false} FieldsOf(word: nat)
    ensures SfGid(word) == word / 0x1000 % 0x10 && SfParamNum(word) == word / 0x1_0000 % 0x10
  {
    ShrTwelve(word);
    AndNibble(word / 0x1000);
    AndNibble(word / 0x1_0000);
  }

  /** The validity mask looks at the upper twelve bits. */
  lemma {:induction false} ValidIdIs(word: nat)
    requires word < Pow2(32)
    ensures LogValidId(word) <==> word / 0x10_0000 == 0x700
  {
    FieldPowers();
    ScaleIsTimes(0xFFF, 20);
    AndField(word, 20, 12);
    CutIsDivMod(word, 20);
    ShrFits(word, 20, 12);
    TruncFits(12, Shr(word, 20));
    ScaleIsTimes(Shr(word, 20), 20);
  }

  /** Group and argument count come back out of every id that was made from fitting fields. */
  lemma {:induction false} DecodeCreated(id: nat, group: nat, args: nat, word: nat)
    requires id < 0x1000 && group < 0x10 && args < 0x10 && word == CreateSfId(id, group, args)
    ensures SfGid(word) == group && SfParamNum(word) == args && word % 0x1000 == id
    ensures word < Pow2(32) && LogValidId(word)
  {
    CreateIs(id, group, args);
    DecodeSum(id, group, args, word);
  }

  lemma {:induction false} DecodeSum(id: nat, group: nat, args: nat, word: nat)
    requires id < 0x1000 && group < 0x10 && args < 0x10
    requires word == 0x7000_0000 + args * 0x1_0000 + group * 0x1000 + id
    ensures SfGid(word) == group && SfParamNum(word) == args && word % 0x1000 == id
    ensures word < Pow2(32) && LogValidId(word)
  {
    FieldPowers();
    FieldsOf(word);
    ValidIdIs(word);
    Split(id, group, args);
  }

  lemma {:induction false} Split(id: nat, group: nat, args: nat)
    requires id < 0x1000 && group < 0x10 && args < 0x10
    ensures var word := 0x7000_0000 + args * 0x1_0000 + group * 0x1000 + id;
      word / 0x1000 == 0x7_0000 + args * 0x10 + group && word / 0x1_0000 == 0x7000 + args
      && word / 0x10_0000 == 0x700 && word % 0x1000 == id
  {
  }

  ghost predicate MadeFrom(word: nat, id: nat, group: nat, args: nat) {
    id < 0x1000 && group < 0x10 && args < 0x10 && word == CreateSfId(id, group, args)
  }

  /** The valid words are exactly those made from fitting fields. */
  lemma {:induction false} ValidIdIff(word: nat)
    requires word < Pow2(32)
    ensures LogValidId(word) <==> exists id, group, args :: MadeFrom(word, id, group, args)
  {
    ValidIdIs(word);
    if LogValidId(word) {
      var id, group, args := word % 0x1000, word / 0x1000 % 0x10, word / 0x1_0000 % 0x10;
      Recompose(word);
      CreateIs(id, group, args);
      assert MadeFrom(word, id, group, args);
    }
    if id, group, args :| MadeFrom(word, id, group, args) {
      DecodeCreated(id, group, args, word);
    }
  }

  lemma {:induction false} Recompose(word: nat)
    requires word / 0x10_0000 == 0x700
    ensures word == 0x7000_0000 + word / 0x1_0000 % 0x10 * 0x1_0000 + word / 0x1000 % 0x10 * 0x1000 + word % 0x1000
  {
    var a, b := word / 0x1000, word / 0x1_0000;
    assert a / 0x10 == b && b / 0x10 == 0x700;
  }

  /** Which of the arguments each bit of the word comes from. */
  lemma {:induction false} CreateBit(id: nat, group: nat, args: nat, j: nat)
    requires j < 28
    ensures Bit(CreateSfId(id, group, args), j) <==>
      Bit(id, j) || (12 <= j && Bit(group, j - 12)) || (16 <= j && Bit(args, j - 16))
  {
    OrBit(Or(Or(id, Shl(32, group, 12)), Shl(32, args, 16)), ID_MARKER, j);
    OrBit(Or(id, Shl(32, group, 12)), Shl(32, args, 16), j);
    OrBit(id, Shl(32, group, 12), j);
    ShlBit(group, 12, j);
    ShlBit(args, 16, j);
    MarkerBit(j);
  }

  lemma {:induction false} ShlBit(field: nat, k: nat, j: nat)
    requires j < 32
    ensures Bit(Shl(32, field, k), j) <==> k <= j && Bit(field, j - k)
  {
    TruncBit(32, Scale(field, k), j);
    ScaleBit(field, k, j);
  }

  lemma {:induction false} MarkerBit(j: nat)
    requires j < 28
    ensures !Bit(ID_MARKER, j)
  {
    FieldPowers();
    ScaleIsTimes(7, 28);
    ScaleBit(7, 28, j);
  }

  lemma {:induction false} NibbleBit(word: nat, k: nat, i: nat)
    ensures Bit(And(Shr(word, k), 0xF), i) <==> i < 4 && Bit(word, i + k)
  {
    FieldPowers();
    AndLowMask(Shr(word, k), 4);
    TruncBit(4, Shr(word, k), i);
    ShrBit(word, k, i);
  }

  /** The group field of the word: the group and what the id number puts over it. */
  lemma {:induction false} GidOfCreated(id: nat, group: nat, args: nat, word: nat)
    requires word == CreateSfId(id, group, args)
    ensures SfGid(word) == Or(SfGid(id), Trunc(4, group))
  {
    var r := Or(SfGid(id), Trunc(4, group));
    forall i: nat ensures Bit(SfGid(word), i) == Bit(r, i) {
      NibbleBit(word, 12, i);
      NibbleBit(id, 12, i);
      OrBit(SfGid(id), Trunc(4, group), i);
      TruncBit(4, group, i);
      if i < 4 { CreateBit(id, group, args, i + 12); }
    }
    BitExt(SfGid(word), r);
  }

  /** The argument count field, for a group that fits. */
  lemma {:induction false} ParamNumOfCreated(id: nat, group: nat, args: nat, word: nat)
    requires word == CreateSfId(id, group, args) && group < 0x10
    ensures SfParamNum(word) == Or(SfParamNum(id), Trunc(4, args))
  {
    var r := Or(SfParamNum(id), Trunc(4, args));
    FieldPowers();
    forall i: nat ensures Bit(SfParamNum(word), i) == Bit(r, i) {
      NibbleBit(word, 16, i);
      NibbleBit(id, 16, i);
      OrBit(SfParamNum(id), Trunc(4, args), i);
      TruncBit(4, args, i);
      if i < 4 {
        CreateBit(id, group, args, i + 16);
        BitBelow(group, 4, i + 4);
      }
    }
    BitExt(SfParamNum(word), r);
  }

  lemma {:induction false} NibbleFits(n: nat)
    ensures And(n, 0xF) < 0x10
  {
    AndNibble(n);
  }

  lemma {:induction false} NibbleKept(n: nat)
    requires n < 0x10
    ensures Trunc(4, n) == n
  {
    FieldPowers();
    TruncFits(4, n);
  }

  /** Group and argument count come back exactly when both fit and the id number, where it
      runs over into their fields, sets no bit there that they do not have. */
  lemma {:induction false} DecodeCreatedIff(id: nat, group: nat, args: nat, word: nat)
    requires word == CreateSfId(id, group, args)
    ensures SfGid(word) == group && SfParamNum(word) == args
       <==> group < 0x10 && args < 0x10 && Or(SfGid(id), group) == group && Or(SfParamNum(id), args) == args
  {
    NibbleFits(Shr(word, 12));
    NibbleFits(Shr(word, 16));
    if group < 0x10 && args < 0x10 {
      GidOfCreated(id, group, args, word);
      ParamNumOfCreated(id, group, args, word);
      NibbleKept(group);
      NibbleKept(args);
    }
  }

  /** All three fields come back exactly when all three fit. */
  lemma {:induction false} RoundTripIff(id: nat, group: nat, args: nat, word: nat)
    requires word == CreateSfId(id, group, args)
    ensures word % 0x1000 == id && SfGid(word) == group && SfParamNum(word) == args
       <==> id < 0x1000 && group < 0x10 && args < 0x10
  {
    NibbleFits(Shr(word, 12));
    NibbleFits(Shr(word, 16));
    if id < 0x1000 && group < 0x10 && args < 0x10 { DecodeCreated(id, group, args, word); }
  }

  /** The sentinel's id number, 65535, fills the group field with ones. */
  lemma {:induction false} SentinelLosesGroup(id: nat, group: nat, args: nat, word: nat)
    requires id == 65535 && group == 0 && args == 15 && word == CreateSfId(id, group, args)
    ensures SfGid(word) == 15 != group && SfParamNum(word) == args
  {
    FieldPowers();
    FieldsOf(id);
    NibbleKept(group);
    NibbleKept(args);
    GidOfCreated(id, group, args, word);
    ParamNumOfCreated(id, group, args, word);
  }

  /** Two rows have the same word only if they agree in everything. */
  lemma {:induction false} CreateInjective(i: nat, g: nat, a: nat, i': nat, g': nat, a': nat)
    requires i < 0x1000 && g < 0x10 && a < 0x10 && i' < 0x1000 && g' < 0x10 && a' < 0x10
    requires CreateSfId(i, g, a) == CreateSfId(i', g', a')
    ensures i == i' && g == g' && a == a'
  {
    DecodeCreated(i, g, a, CreateSfId(i, g, a));
    DecodeCreated(i', g', a', CreateSfId(i, g, a));
  }

  /** The words are ordered by argument count first, then group, then id number. */
  lemma {:induction false} CreateOrder(i: nat, g: nat, a: nat, i': nat, g': nat, a': nat)
    requires i < 0x1000 && g < 0x10 && a < 0x10 && i' < 0x1000 && g' < 0x10 && a' < 0x10
    ensures CreateSfId(i, g, a) < CreateSfId(i', g', a')
       <==> a < a' || (a == a' && (g < g' || (g == g' && i < i')))
  {
    CreateIs(i, g, a);
    CreateIs(i', g', a');
  }

  /** The first two rows of the main group, with six and two arguments: the words do not
      increase with the id numbers, so the table is not in the order a binary search needs. */
  lemma {:induction false} IdsDoNotIncrease()
    ensures CreateSfId(1, 1, 6) > CreateSfId(2, 1, 2)
  {
    CreateOrder(2, 1, 2, 1, 1, 6);
  }

  /** An id with fitting fields is taken for the sentinel exactly when all its fields are full.
      The sentinel itself passes for a valid id, of a group that is not its own. */
  lemma {:induction false} SentinelClashIff(id: nat, group: nat, args: nat)
    requires id < 0x1000 && group < 0x10 && args < 0x10
    ensures CreateSfId(id, group, args) == SF_LAST <==> id == 4095 && group == 15 && args == 15
    ensures LogValidId(SF_LAST) && SfGid(SF_LAST) == 15 && SfParamNum(SF_LAST) == 15
  {
    FieldPowers();
    LastIs();
    CreateIs(4095, 15, 15);
    DecodeCreated(4095, 15, 15, SF_LAST);
    if CreateSfId(id, group, args) == SF_LAST { CreateInjective(id, group, args, 4095, 15, 15); }
  }

  // ---------- The search ----------

  datatype StidFmt = StidFmt(id: nat, name: string)

  /** Some row closes the table. */
  ghost predicate Closed(table: seq<StidFmt>) {
    exists i :: 0 <= i < |table| && table[i].id == SF_LAST
  }

  /** `n` is the number of rows before the sentinel. */
  ghost predicate RowsBefore(table: seq<StidFmt>, n: nat) {
    n < |table| && table[n].id == SF_LAST && forall j :: 0 <= j < n ==> table[j].id != SF_LAST
  }

  /** The first row with the id, of those before the sentinel, or the sentinel's word. */
  ghost predicate FoundAt(table: seq<StidFmt>, n: nat, checkData: nat, r: nat) {
    if exists j :: 0 <= j < n <= |table| && table[j].id == checkData
    then r < n <= |table| && table[r].id == checkData && forall j :: 0 <= j < r ==> table[j].id != checkData
    else r == SF_LAST
  }

  method IdToStringId(checkData: nat, table: seq<StidFmt>) returns (id: nat)
    requires Closed(table)
    ensures exists n: nat :: RowsBefore(table, n) && FoundAt(table, n, checkData, id)
  {
    id := SF_LAST;
    var i := 0;
    while table[i].id != SF_LAST
      invariant 0 <= i < |table| && id == SF_LAST
      invariant forall j :: 0 <= j < i ==> table[j].id != SF_LAST && table[j].id != checkData
      decreases |table| - i
    {
      if checkData == table[i].id {
        id := i;
        break;
      }
      i := i + 1;
    }
    ghost var n := Sentinel(table, i);
    assert RowsBefore(table, n) && FoundAt(table, n, checkData, id);
  }

  /** The first sentinel at or after a place that no sentinel precedes. */
  lemma {:induction false} Sentinel(table: seq<StidFmt>, i: nat) returns (n: nat)
    requires Closed(table) && i < |table| && forall j :: 0 <= j < i ==> table[j].id != SF_LAST
    ensures RowsBefore(table, n) && i <= n
    decreases |table| - i
  {
    if table[i].id == SF_LAST {
      n := i;
    } else {
      n := Sentinel(table, i + 1);
    }
  }

  // ---------- Tables as the driver builds them ----------

  datatype Key = Key(id: nat, group: nat, args: nat)

  /** Row `i` is made from key `i`; no two keys share id and group; the sentinel follows. */
  ghost predicate BuiltFrom(table: seq<StidFmt>, keys: seq<Key>) {
    && |table| == |keys| + 1 && table[|keys|].id == SF_LAST
    && (forall i :: 0 <= i < |keys| ==> keys[i].id < 4095 && keys[i].group < 0x10 && keys[i].args < 0x10)
    && (forall i :: 0 <= i < |keys| ==> table[i].id == CreateSfId(keys[i].id, keys[i].group, keys[i].args))
    && (forall i, j :: 0 <= i < j < |keys| ==> keys[i].id != keys[j].id || keys[i].group != keys[j].group)
  }

  lemma {:induction false} BuiltTable(table: seq<StidFmt>, keys: seq<Key>)
    requires BuiltFrom(table, keys)
    ensures Closed(table) && forall n: nat :: RowsBefore(table, n) <==> n == |keys|
    ensures forall i, j :: 0 <= i < j < |table| ==> table[i].id != table[j].id
  {
    forall i | 0 <= i < |keys| ensures table[i].id != SF_LAST {
      SentinelClashIff(keys[i].id, keys[i].group, keys[i].args);
    }
    forall i, j | 0 <= i < j < |keys| ensures table[i].id != table[j].id {
      if table[i].id == table[j].id {
        CreateInjective(keys[i].id, keys[i].group, keys[i].args, keys[j].id, keys[j].group, keys[j].args);
      }
    }
  }

  /** Different numbers below `n` are at most `n`. */
  lemma {:induction false} Pigeonhole(s: seq<nat>, n: nat)
    requires forall i :: 0 <= i < |s| ==> s[i] < n
    requires forall i, j :: 0 <= i < j < |s| ==> s[i] != s[j]
    ensures |s| <= n
    decreases n
  {
    if s != [] {
      assert s[0] < n;
      if i: nat :| i < |s| && s[i] == n - 1 {
        Pigeonhole(RemoveAt(s, i), n - 1);
      } else {
        Pigeonhole(s, n - 1);
      }
    }
  }

  lemma {:induction false} KeyCode(i: nat, g: nat, i': nat, g': nat)
    requires i < 4095 && i' < 4095 && (i != i' || g != g')
    ensures g * 4095 + i != g' * 4095 + i'
  {
  }

  /** There are fewer rows than the sentinel's word, so no row number is mistaken for it. */
  lemma {:induction false} TableIsSmall(table: seq<StidFmt>, keys: seq<Key>)
    requires BuiltFrom(table, keys)
    ensures |keys| <= 16 * 4095 < SF_LAST
  {
    var codes: seq<nat> := seq(|keys|, i requires 0 <= i < |keys| => keys[i].group * 4095 + keys[i].id);
    forall i, j | 0 <= i < j < |codes| ensures codes[i] != codes[j] {
      KeyCode(keys[i].id, keys[i].group, keys[j].id, keys[j].group);
    }
    Pigeonhole(codes, 16 * 4095);
  }

  /** On a table as built, the search finds exactly the row of each id, and every other
      word, the sentinel's included, is not found. */
  lemma {:induction false} SearchBuiltTable(table: seq<StidFmt>, keys: seq<Key>, n: nat, checkData: nat, r: nat)
    requires BuiltFrom(table, keys) && RowsBefore(table, n) && FoundAt(table, n, checkData, r)
    ensures forall i :: 0 <= i < |keys| && table[i].id == checkData ==> r == i
    ensures r == SF_LAST <==> forall i :: 0 <= i < |keys| ==> table[i].id != checkData
    ensures checkData == SF_LAST ==> r == SF_LAST
    ensures forall i :: 0 <= i < |keys| && table[i].id == checkData ==>
      SfGid(checkData) == keys[i].group && SfParamNum(checkData) == keys[i].args
  {
    BuiltTable(table, keys);
    TableIsSmall(table, keys);
    forall i | 0 <= i < |keys| && table[i].id == checkData
      ensures SfGid(checkData) == keys[i].group && SfParamNum(checkData) == keys[i].args
    {
      DecodeCreated(keys[i].id, keys[i].group, keys[i].args, checkData);
    }
  }
}
