// Re-encoding makes no message longer than what it was decoded from, except an
// ICT message without CKDATA1.
module CodecNormal {
  import opened Bits
  import opened Results
  import opened Protocol
  import opened MsgTypes
  import opened Codec
  import opened CodecContent
  import opened CodecRoundTrip
  import CodecVao

  // Bytes a list of groups takes.
  function LaneSum(gs: seq<seq<Field>>): nat
  {
    if gs == [] then 0 else LaneCount(Width(gs[0])) + LaneSum(gs[1..])
  }

  lemma {:induction false} FrameLength(gs: seq<seq<Field>>)
    requires gs != []
    ensures |Frame(gs)| == LaneSum(gs)
  {
    if |gs| > 1 {
      FrameLength(gs[1..]);
    } else {
      assert LaneSum(gs[1..]) == 0;
    }
  }

  lemma {:induction false} LaneSumAppend(a: seq<seq<Field>>, b: seq<seq<Field>>)
    ensures LaneSum(a + b) == LaneSum(a) + LaneSum(b)
  {
    if a == [] {
      assert a + b == b;
    } else {
      assert (a + b)[1..] == a[1..] + b;
      LaneSumAppend(a[1..], b);
    }
  }

  lemma LaneSumOne(f: Field)
    ensures LaneSum([[f]]) == LaneCount(f.width)
  {
    OneWidth(f);
    assert [[f]][1..] == [];
  }

  // Bytes of a frame, group by group.
  lemma PlusLength(hw: HwCfg, m: Msg, extra: seq<seq<Field>>)
    requires m.Encodable() && !m.IsIdle()
    ensures m.HasFields()
    ensures var fs := VarFields(hw, m);
            |FramePlus(hw, m, extra)| ==
              LaneCount(6 + hw.srcBits + Code4Bits(m.tcode) + Code2Bits(m.tcode) + FieldOf(fs[0], m).width)
              + LaneSum(Groups(fs[1..], m)) + LaneSum(extra) + LaneSum(TimeGroup(hw, m))
  {
    hide Width, LaneCount, Groups, TimeGroup, FieldOf, VarFields, Frame, HeadFields;
    var fs := VarFields(hw, m);
    var first := HeadFields(hw, m) + [FieldOf(fs[0], m)];
    var more := extra + TimeGroup(hw, m);
    var wire := [first] + (Groups(fs[1..], m) + more);
    FrameLength(wire);
    LaneSumAppend(Groups(fs[1..], m), more);
    LaneSumAppend(extra, TimeGroup(hw, m));
    assert wire[0] == first && wire[1..] == Groups(fs[1..], m) + more;
    HeadWidths(hw, m, FieldOf(fs[0], m));
  }

  // The same of an encoding.
  lemma EncodeLength(hw: HwCfg, m: Msg)
    requires m.Encodable() && !m.IsIdle()
    ensures m.HasFields()
    ensures var fs := VarFields(hw, m);
            |Encode(hw, m)| ==
              LaneCount(6 + hw.srcBits + Code4Bits(m.tcode) + Code2Bits(m.tcode) + FieldOf(fs[0], m).width)
              + LaneSum(Groups(fs[1..], m)) + LaneSum(ExtraGroups(m)) + LaneSum(TimeGroup(hw, m))
  {
    hide Encode, FramePlus, LaneCount, Groups, ExtraGroups, TimeGroup, FieldOf, VarFields;
    EncodedFrame(hw, m);
    PlusLength(hw, m, ExtraGroups(m));
  }

  // ---- Re-encoding what was decoded ----

  // A field takes no more room than it was read from.
  lemma FieldShrinks(f: VarField, m: Msg, c: Cursor)
    requires Bounded(c) && TakeVar(c, f).Ok?
    requires f.vao ==> f.slot == Data && c.left % 6 == 0 && c.left > 0
    ensures var v := TakeVar(c, f).value.0;
            var w := FieldOf(f, Set(m, f.slot, v)).width;
            if f.vao then LaneCount(w) <= c.left / 6 else w <= c.left
  {
    hide SignExtend, Set, Get, VaoBits, ReqBits, Bounded, LaneCount, Low, BitLen, TakeVar;
    var v := TakeVar(c, f).value.0;
    GetSet(m, f.slot, v, f.slot);
    TakenValue(c, f);
    if f.vao {
      assert Low(v, 64) == v by { LowWords(v); }
      VaoShrinks(c, f);
    } else {
      PlainShrinks(c, v, SlotBits(f.slot));
    }
  }

  lemma TakenValue(c: Cursor, f: VarField)
    requires TakeVar(c, f).Ok?
    ensures !f.vao ==> TakeVar(c, f).value.0 <= c.rest
    ensures f.required ==> c.left > 0
  {
  }

  lemma PlainShrinks(c: Cursor, v: nat, bits: nat)
    requires Bounded(c) && v <= c.rest
    ensures BitLen(Low(v, bits)) <= c.left
    ensures c.left > 0 ==> ReqBits(Low(v, bits)) <= c.left
  {
    hide Low, High, BitLen;
    LowHigh(v, bits);
    assert Pow2(bits) * High(v, bits) >= 0;
    BitLenBound(Low(v, bits), c.left);
  }

  lemma VaoShrinks(c: Cursor, f: VarField)
    requires f.vao && Bounded(c) && TakeVar(c, f).Ok?
    requires c.left % 6 == 0 && c.left > 0
    ensures LaneCount(VaoBits(TakeVar(c, f).value.0)) <= c.left / 6
  {
    hide SignExtend, VaoBits;
    CodecVao.VaoShortest(TakeVar(c, f).value.0, c.rest, c.left / 6);
  }

  lemma {:induction false} FieldsShrink(fs: seq<VarField>, m: Msg, c: Cursor)
    requires Bounded(c) && ApartFields(fs) && fs != []
    requires forall i :: 0 <= i < |fs| && fs[i].vao ==> fs[i].slot == Data
    requires fs[0].vao ==> c.left % 6 == 0 && c.left > 0
    requires DecodeFields(fs, m, c).Ok?
    ensures var (r, c1) := DecodeFields(fs, m, c).value;
            var w := FieldOf(fs[0], r).width;
            && (if fs[0].vao then LaneCount(w) <= c.left / 6 else w <= c.left)
            && LaneSum(Groups(fs[1..], r)) <= |c.tail| - |c1.tail|
  {
    hide FieldBits, LaneCount, Bounded, Open, Set, Apart;
    var (v, c1) := TakeVar(c, fs[0]).value;
    var m1 := Set(m, fs[0].slot, v);
    FieldShrinks(fs[0], m, c);
    if |fs| > 1 {
      var rs := fs[1..];
      var c2 := Next(c1).value;
      OpenBounded(c1.tail);
      RestApart(fs);
      FieldsCopy(rs, m1, m1, c2);
      var (r, c3) := DecodeFields(rs, m1, c2).value;
      KeepsFirst(fs, r, m1);
      FieldsShrink(rs, m1, c2);
      OneGroup(rs[0], r, c2.left);
    }
  }

  lemma RestApart(fs: seq<VarField>)
    requires fs != [] && ApartFields(fs)
    ensures ApartFields(fs[1..])
  {
    forall i, j | 0 <= i < j < |fs[1..]| ensures Apart(fs[1..][i].slot, fs[1..][j].slot) {
      assert Apart(fs[i + 1].slot, fs[j + 1].slot);
    }
  }

  lemma OneGroup(f: VarField, r: Msg, left: nat)
    requires left % 6 == 0
    requires var w := FieldOf(f, r).width; if f.vao then LaneCount(w) <= left / 6 else w <= left
    ensures 6 * LaneCount(FieldOf(f, r).width) <= left
    ensures LaneCount(Width([FieldOf(f, r)])) == LaneCount(FieldOf(f, r).width)
  {
    OneWidth(FieldOf(f, r));
  }

  lemma FinishShrinks(hw: HwCfg, m: Msg, c: Cursor)
    requires Bounded(c) && m.timestamp == 0 && Finish(hw, m, c).Ok?
    ensures var (r, tail) := Finish(hw, m, c).value;
            LaneSum(TimeGroup(hw, r)) <= |c.tail| - |tail|
  {
    hide Low, High, Pow2, BitLen;
    var (r, tail) := Finish(hw, m, c).value;
    assert LaneSum([]) == 0;
    if hw.tsBits > 0 && c.eom {
    } else {
      SkipBounded(c);
      var c1 := SkipToEnd(c).value;
      if hw.tsBits > 0 {
        LaneSumOne(Field(r.timestamp, ReqBits(r.timestamp)));
        BitLenBound(r.timestamp, c1.left);
      }
    }
  }

  // A header field leaves a bounded cursor on the same group.
  lemma FixedBounded(c: Cursor, width: nat)
    requires Bounded(c) && TakeFixed(c, width).Ok?
    ensures var (v, c1) := TakeFixed(c, width).value;
            && v < Pow2(width) && Bounded(c1)
            && c1.left + width == c.left && c1.tail == c.tail && c1.eom == c.eom
  {
    hide Low, High, Pow2;
    LowHigh(c.rest, width);
    Pow2Add(width, c.left - width);
    if High(c.rest, width) >= Pow2(c.left - width) {
      MulOrder(Pow2(width), Pow2(c.left - width), High(c.rest, width));
      assert false;
    }
  }

  lemma CodesBounded(m: Msg, c: Cursor)
    requires Bounded(c) && DecodeCodes(m, c).Ok?
    ensures var (m1, c1) := DecodeCodes(m, c).value;
            && Bounded(c1) && c1.tail == c.tail
            && c1.left + Code4Bits(m.tcode) + Code2Bits(m.tcode) == c.left
            && m1.tcode == m.tcode && m1.src == m.src && m1.timestamp == m.timestamp
  {
    hide Low, High, Bounded;
    FixedBounded(c, Code4Bits(m.tcode));
    FixedBounded(TakeFixed(c, Code4Bits(m.tcode)).value.1, Code2Bits(m.tcode));
  }

  // What DecodeKnown delivers needs no more room than it took.
  lemma KnownShrinks(hw: HwCfg, m: Msg, c: Cursor)
    requires m.HasFields() && m.timestamp == 0 && Bounded(c) && DecodeKnown(hw, m, c).Ok?
    ensures var (r, tail) := DecodeKnown(hw, m, c).value;
            var fs := VarFields(hw, r);
            && r.tcode == m.tcode && r.src == m.src && fs != []
            && Code4Bits(m.tcode) + Code2Bits(m.tcode) + FieldOf(fs[0], r).width <= c.left
            && LaneSum(Groups(fs[1..], r)) + LaneSum(TimeGroup(hw, r)) <= |c.tail| - |tail|
  {
    hide DecodeCodes, DecodeFields, Finish, Bounded, FieldBits, LaneSum, Groups, TimeGroup, Low, High, Content;
    var (m1, c1) := DecodeCodes(m, c).value;
    CodesBounded(m, c);
    var fs := VarFields(hw, m1);
    var (m2, c2) := DecodeFields(fs, Cleared(m1), c1).value;
    VarFieldsApart(hw, m1);
    VaoIsData(hw, m1);
    FieldsCopy(fs, Cleared(m1), Cleared(m1), c1);
    FieldsShrink(fs, Cleared(m1), c1);
    CopyKeeps(fs, m2, Cleared(m1));
    HeadKept(hw, m1, m2);
    HeadFixesFields(hw, m1, m2);
    FieldsEnd(fs, Cleared(m1), c1);
    FinishShrinks(hw, m2, c2);
    TimestampAside(hw, m2, c2);
  }

  lemma VaoIsData(hw: HwCfg, m: Msg)
    ensures forall i :: 0 <= i < |VarFields(hw, m)| && VarFields(hw, m)[i].vao ==> VarFields(hw, m)[i].slot == Data
  {
  }

  lemma {:induction false} FieldsEnd(fs: seq<VarField>, m: Msg, c: Cursor)
    requires fs != [] && DecodeFields(fs, m, c).Ok?
    ensures DecodeFields(fs, m, c).value.1.rest == 0
    ensures Bounded(DecodeFields(fs, m, c).value.1)
  {
    if |fs| > 1 {
      var (v, c1) := TakeVar(c, fs[0]).value;
      FieldsEnd(fs[1..], Set(m, fs[0].slot, v), Next(c1).value);
    }
  }

  // The timestamp changes none of the other fields.
  lemma TimestampAside(hw: HwCfg, m: Msg, c: Cursor)
    requires Finish(hw, m, c).Ok?
    ensures var r := Finish(hw, m, c).value.0;
            && r == m.(timestamp := r.timestamp)
            && VarFields(hw, r) == VarFields(hw, m)
    ensures forall fs :: Groups(fs, Finish(hw, m, c).value.0) == Groups(fs, m)
    ensures forall f :: FieldOf(f, Finish(hw, m, c).value.0) == FieldOf(f, m)
  {
    var r := Finish(hw, m, c).value.0;
    forall fs ensures Groups(fs, r) == Groups(fs, m) { GroupsSame(fs, m, r); }
  }

  lemma {:induction false} GroupsSame(fs: seq<VarField>, m: Msg, r: Msg)
    requires r == m.(timestamp := r.timestamp)
    ensures Groups(fs, r) == Groups(fs, m)
  {
    if fs != [] { GroupsSame(fs[1..], m, r); }
  }

  // An ICT message without CKDATA1.
  predicate Bare(m: Msg)
  {
    m.tcode == ICT && m.code2 == 0
  }

  // A message that can come off the wire.
  predicate OffTheWire(hw: HwCfg, m: Msg)
  {
    m.Encodable() && SrcFits(hw, m) && (hw.tsBits == 0 ==> m.timestamp == 0)
  }

  // Where m is decoded from, there is room to encode it again.
  predicate Refits(hw: HwCfg, b: seq<byte>, prev: Msg, m: Msg)
    requires m.Encodable()
  {
    var r := Decode(hw, b, prev);
    r.Ok? && r.value.0 == m ==> |Encode(hw, m)| <= r.value.1
  }

  /** Decoding, encoding and decoding again: the second decode takes the bytes
      encoded and tells the same content, unless a stray CKDATA1 is taken for the
      timestamp. The bytes are no more than before, unless the message is an ICT
      message without CKDATA1. */
  lemma Normalise(hw: HwCfg, b: seq<byte>, prev: Msg, again: Msg, rest: seq<byte>)
    requires Decode(hw, b, prev).Ok? && Decode(hw, b, prev).value.0.Encodable()
    ensures var (m, n) := Decode(hw, b, prev).value;
            && (!Bare(m) ==> |Encode(hw, m)| <= n)
            && var r := Decode(hw, Encode(hw, m) + rest, again);
               && r.Ok? && r.value.1 == |Encode(hw, m)|
               && (Content(hw, r.value.0) == Content(hw, m) <==> !TakenForTime(hw, m))
  {
    hide Decode, Encode, Content, Pow2, TakenForTime;
    var (m, n) := Decode(hw, b, prev).value;
    if !Bare(m) { DecodedFits(hw, b, prev); }
    DecodedSrc(hw, b, prev);
    RoundTrip(hw, m, again, rest);
  }

  /** Wherever a message is decoded from it can be encoded again in place, if
      and only if it is not an ICT message without CKDATA1. */
  lemma RefitsExactly(hw: HwCfg, m: Msg)
    requires OffTheWire(hw, m)
    ensures (forall b, prev :: Refits(hw, b, prev, m)) <==> !Bare(m)
  {
    hide Decode, Encode, FramePlus, SrcFits;
    if Bare(m) {
      BareGrows(hw, m, []);
      assert FramePlus(hw, m, []) + [] == FramePlus(hw, m, []);
      assert !Refits(hw, FramePlus(hw, m, []), m, m);
    } else {
      forall b, prev ensures Refits(hw, b, prev, m) {
        var r := Decode(hw, b, prev);
        if r.Ok? && r.value.0 == m { DecodedFits(hw, b, prev); }
      }
    }
  }

  // Without the group for CKDATA1 such a message decodes just as well, and is
  // shorter than its encoding.
  lemma BareGrows(hw: HwCfg, m: Msg, rest: seq<byte>)
    requires OffTheWire(hw, m) && Bare(m)
    ensures var b := FramePlus(hw, m, []);
            Decode(hw, b + rest, m) == Ok((m, |b|)) && |b| < |Encode(hw, m)|
  {
    hide DecodeTail, Encode, FramePlus, LaneCount, Groups, TimeGroup, Pow2, FieldOf;
    KnownRoundTrip(hw, m, m, [], rest);
    BareDelivered(hw, m);
    EncodeLength(hw, m);
    PlusLength(hw, m, []);
    FieldWidths(Req(Data), m);
    LaneSumOne(FieldOf(Req(Data), m));
    NoGroups();
  }

  lemma BareDelivered(hw: HwCfg, m: Msg)
    requires OffTheWire(hw, m) && Bare(m)
    ensures Delivered(hw, m, m, []) == m
  {
    hide Low, Pow2, TimeGroup;
    CodesFit(m);
    var v := m.hist + U32 * m.hrepeat;
    assert v % U32 == m.hist && v / U32 == m.hrepeat;
    var m0 := m.(timestamp := 0);
    assert WithCodes(m, m0) == m0 && Cleared(m0) == m0;
    assert VarFields(hw, m) == [Req(Check0)] && [Req(Check0)][1..] == [];
    assert CopySlots([Req(Check0)], m, m0) == CopySlots([], m, Set(m0, Check0, v));
  }

  lemma DecodedFits(hw: HwCfg, b: seq<byte>, prev: Msg)
    requires Decode(hw, b, prev).Ok?
    requires var m := Decode(hw, b, prev).value.0;
             m.Encodable() && !Bare(m)
    ensures var (m, n) := Decode(hw, b, prev).value;
            |Encode(hw, m)| <= n
  {
    hide DecodeKnown, Encode, Low, High, Pow2, Bounded, Open, Groups, TimeGroup, LaneSum, VarFields, FieldOf, Code4Bits,
         Code2Bits;
    var c := Open(b).value;
    OpenBounded(b);
    OpenRoom(b);
    FixedBounded(c, 6);
    var (tcode, c1) := TakeFixed(c, 6).value;
    var m0 := prev.(timestamp := 0, tcode := tcode % 256);
    if m0.IsIdle() {
      IdleLength(hw, m0);
    } else {
      FixedBounded(c1, hw.srcBits);
      var (src, c2) := TakeFixed(c1, hw.srcBits).value;
      Pow2Mono(hw.srcBits, 16);
      SixteenBits();
      var m1 := m0.(src := src % 0x1_0000);
      NeedsFields(m1);
      KnownShrinks(hw, m1, c2);
      var (r, tail) := DecodeKnown(hw, m1, c2).value;
      LengthWithin(hw, r, c.left, |c.tail| - |tail|);
    }
  }

  lemma SixteenBits()
    ensures Pow2(16) == 0x1_0000
  {
    Pow2Add(8, 8);
    assert Pow2(8) == 256;
  }

  lemma NeedsFields(m: Msg)
    ensures forall r: Msg :: r.tcode == m.tcode && r.Encodable() && !r.IsIdle() ==> m.HasFields()
  {
  }

  lemma OpenRoom(b: seq<byte>)
    requires Open(b).Ok?
    ensures Open(b).value.left == 6 * (|b| - |Open(b).value.tail|) > 0
  {
  }

  lemma IdleLength(hw: HwCfg, m: Msg)
    requires m.IsIdle()
    ensures |Encode(hw, m)| == 1
  {
    OneWidth(Field(IDLE, 6));
  }

  lemma LengthWithin(hw: HwCfg, m: Msg, left: nat, after: nat)
    requires m.Encodable() && !m.IsIdle() && m.HasFields() && (m.tcode == ICT ==> m.code2 != 0)
    requires left % 6 == 0
    requires var fs := VarFields(hw, m);
             && 6 + hw.srcBits + Code4Bits(m.tcode) + Code2Bits(m.tcode) + FieldOf(fs[0], m).width <= left
             && LaneSum(Groups(fs[1..], m)) + LaneSum(TimeGroup(hw, m)) <= after
    ensures |Encode(hw, m)| <= left / 6 + after
  {
    hide Encode, Groups, TimeGroup, FieldOf, VarFields, Code4Bits, Code2Bits;
    EncodeLength(hw, m);
    assert LaneSum(ExtraGroups(m)) == 0;
  }

  lemma NoGroups()
    ensures LaneSum([]) == 0
  {
  }
}
