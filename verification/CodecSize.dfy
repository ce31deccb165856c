// The longest message is 38 bytes.
module CodecSize {
  import opened Bits
  import opened Protocol
  import opened MsgTypes
  import opened Codec
  import opened CodecRoundTrip
  import opened CodecNormal

  const MAX_BYTES: nat := 38

  lemma WidthBound(f: VarField, m: Msg)
    requires f.vao ==> f.slot == Data
    ensures FieldOf(f, m).width <= SlotBits(f.slot)
  {
    hide BitLen, Pow2, SignedBits, LaneCount;
    GetBound(m, f.slot);
    BitLenBound(Get(m, f.slot), SlotBits(f.slot));
  }

  lemma TimeLanes(hw: HwCfg, m: Msg)
    ensures LaneSum(TimeGroup(hw, m)) <= 11
  {
    hide ReqBits, Pow2;
    TimeWidth(m.timestamp);
    LaneSumOne(Field(m.timestamp, ReqBits(m.timestamp)));
    assert LaneSum([]) == 0;
  }

  // Lanes of the fields that have a group of their own.
  function Room(fs: seq<VarField>): nat
  {
    if fs == [] then 0 else LaneCount(SlotBits(fs[0].slot)) + Room(fs[1..])
  }

  lemma {:induction false} GroupsBound(fs: seq<VarField>, m: Msg)
    requires forall i :: 0 <= i < |fs| && fs[i].vao ==> fs[i].slot == Data
    ensures LaneSum(Groups(fs, m)) <= Room(fs)
  {
    hide FieldOf;
    if fs != [] {
      WidthBound(fs[0], m);
      OneWidth(FieldOf(fs[0], m));
      GroupsBound(fs[1..], m);
    }
  }

  // Room for the variable-length fields of any kind, next to its fixed ones.
  lemma KindRoom(hw: HwCfg, m: Msg)
    requires m.HasFields() && m.Encodable()
    ensures var fs := VarFields(hw, m);
            LaneCount(6 + hw.srcBits + Code4Bits(m.tcode) + Code2Bits(m.tcode) + SlotBits(fs[0].slot))
            + Room(fs[1..]) + (if m.tcode == ICT && m.code2 == 0 then 11 else 0) <= 27
  {
    var fs := VarFields(hw, m);
    assert Room([]) == 0;
    if |fs| >= 2 { assert fs[1..][1..] == fs[2..]; }
    if |fs| == 3 { assert fs[2..][1..] == []; }
  }

  lemma SizeBound(hw: HwCfg, m: Msg)
    requires m.Encodable()
    ensures |Encode(hw, m)| <= MAX_BYTES
  {
    hide Encode, VarFields, Groups, TimeGroup, FieldOf, LaneSum, Room, Code4Bits, Code2Bits;
    if m.IsIdle() {
      IdleLength(hw, m);
    } else {
      EncodeLength(hw, m);
      var fs := VarFields(hw, m);
      VaoIsData(hw, m);
      KindRoom(hw, m);
      WidthBound(fs[0], m);
      GroupsBound(fs[1..], m);
      TimeLanes(hw, m);
      ExtraBound(m);
    }
  }

  lemma ExtraBound(m: Msg)
    ensures LaneSum(ExtraGroups(m)) <= if m.tcode == ICT && m.code2 == 0 then 11 else 0
  {
    hide FieldOf;
    WidthBound(Req(Data), m);
    LaneSumOne(FieldOf(Req(Data), m));
    assert LaneSum([]) == 0;
  }

  lemma FullBits()
    ensures BitLen(U32 - 1) == 32 && BitLen(U64 - 1) == 64 && VaoBits(U64 / 2) == 64 && BitLen(U64 / 2) == 64
  {
    hide BitLen, Pow2, LaneCount, SignedBits;
    Pow2Words();
    HalfWord();
    BitLenBound(U32 - 1, 31);
    BitLenBound(U32 - 1, 32);
    BitLenBound(U64 - 1, 63);
    BitLenBound(U64 - 1, 64);
    BitLenBound(U64 / 2, 63);
    BitLenBound(U64 / 2, 64);
    HalfSigned();
  }

  lemma HalfWord()
    ensures Pow2(31) == U32 / 2 && Pow2(63) == U64 / 2
  {
    Pow2Words();
    assert Pow2(32) == 2 * Pow2(31) && Pow2(64) == 2 * Pow2(63);
  }

  lemma HalfSigned()
    ensures SignedBits(U64 / 2) == 64
  {
    hide BitLen, Pow2;
    HalfWord();
    BitLenBound(U64 / 2, 63);
    BitLenBound(U64 - 1 - U64 / 2, 63);
    HalfAgain();
    BitLenBound(U64 - 1 - U64 / 2, 62);
  }

  lemma HalfAgain()
    ensures Pow2(62) == U64 / 4
  {
    HalfWord();
    assert Pow2(63) == 2 * Pow2(62);
  }

  // A branch with history that reaches the bound,
  lemma BranchReachesBound(hw: HwCfg, m: Msg)
    requires hw.srcBits == 16 && hw.tsBits > 0
    requires m.tcode == INDIRECT_BRANCH_HIST_SYNC && m.timestamp == U64 - 1
    requires m.word == U32 - 1 && m.hist == U32 - 1 && m.data == U64 / 2
    ensures m.Encodable() && |Encode(hw, m)| == MAX_BYTES
  {
    hide Encode, BitLen, SignedBits, VaoBits, LaneSum, Groups;
    EncodeLength(hw, m);
    FullBits();
    NoGroups();
    var fs := VarFields(hw, m);
    assert fs == [Req(Word), VarField(Data, true, hw.vao), Req(Hist)];
    assert fs[1..] == [fs[1], fs[2]];
    TwoGroups(fs[1], fs[2], m);
    LaneSumOne(Field(m.timestamp, ReqBits(m.timestamp)));
  }

  // and an instrumentation message that does.
  lemma IctReachesBound(hw: HwCfg, m: Msg)
    requires hw.srcBits == 16 && hw.tsBits > 0
    requires m.tcode == ICT && m.code4 < 2 && m.code2 == 1 && m.timestamp == U64 - 1
    requires m.hist == U32 - 1 && m.hrepeat == U32 - 1 && m.data == U64 - 1
    ensures m.Encodable() && |Encode(hw, m)| == MAX_BYTES
  {
    hide Encode, BitLen, SignedBits, VaoBits, LaneSum, Groups;
    EncodeLength(hw, m);
    FullBits();
    var fs := VarFields(hw, m);
    assert fs == [Req(Check0), Req(Data)];
    assert fs[1..] == [Req(Data)];
    LastGroup(Req(Data), m);
    NoGroups();
    LaneSumOne(Field(m.timestamp, ReqBits(m.timestamp)));
  }

  lemma LastGroup(f: VarField, m: Msg)
    ensures LaneSum(Groups([f], m)) == LaneCount(FieldOf(f, m).width)
  {
    hide FieldOf, LaneCount;
    assert [f][1..] == [];
    assert Groups([f], m) == [[FieldOf(f, m)]];
    LaneSumOne(FieldOf(f, m));
  }

  lemma TwoGroups(f: VarField, g: VarField, m: Msg)
    ensures LaneSum(Groups([f, g], m)) == LaneCount(FieldOf(f, m).width) + LaneCount(FieldOf(g, m).width)
  {
    hide FieldOf, LaneCount;
    assert [f, g][1..] == [g] && [g][1..] == [];
    assert Groups([g], m) == [[FieldOf(g, m)]];
    assert Groups([f, g], m) == [[FieldOf(f, m)]] + [[FieldOf(g, m)]];
    LaneSumAppend([[FieldOf(f, m)]], [[FieldOf(g, m)]]);
    LaneSumOne(FieldOf(f, m));
    LaneSumOne(FieldOf(g, m));
  }
}
