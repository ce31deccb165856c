// Decoding an encoding gives the message back.
module CodecRoundTrip {
  import opened Bits
  import opened Results
  import opened Protocol
  import opened MsgTypes
  import opened Codec
  import CodecVao
  import opened CodecContent
  import CodecFraming

  // ---- Groups ----

  lemma {:induction false} PackBound(fs: seq<Field>)
    ensures Pack(fs) < Pow2(Width(fs))
  {
    hide Low, Pow2;
    if fs != [] {
      var w, rest := fs[0].width, Width(fs[1..]);
      PackBound(fs[1..]);
      Pow2Add(w, rest);
      assert Pow2(w) * Pack(fs[1..]) <= Pow2(w) * Pow2(rest) - Pow2(w) by {
        MulOrder(Pow2(w), Pack(fs[1..]), Pow2(rest) - 1);
      }
    } else {
      Pow2Zero();
    }
  }

  lemma {:induction false} WidthAppend(a: seq<Field>, b: seq<Field>)
    ensures Width(a + b) == Width(a) + Width(b)
  {
    if a == [] {
      assert a + b == b;
    } else {
      assert (a + b)[1..] == a[1..] + b;
      WidthAppend(a[1..], b);
    }
  }

  function FrameThen(gs: seq<seq<Field>>, rest: seq<byte>): seq<byte>
  {
    if gs == [] then rest else Frame(gs) + rest
  }

  // Opening a frame gives the number packed in its first group.
  lemma OpenFrame(gs: seq<seq<Field>>, rest: seq<byte>)
    requires gs != [] && Width(gs[0]) > 0
    ensures Open(FrameThen(gs, rest)) ==
            Ok(Cursor(Pack(gs[0]), 6 * LaneCount(Width(gs[0])), |gs| == 1, FrameThen(gs[1..], rest)))
  {
    hide Low, High, Pow2, Pack, Width, Lanes, LaneCount, Open;
    var g := gs[0];
    var n := LaneCount(Width(g));
    PackBound(g);
    Pow2Mono(Width(g), 6 * n);
    if |gs| == 1 {
      OpenLanes(Pack(g), n, 3, rest);
    } else {
      OpenLanes(Pack(g), n, 1, Frame(gs[1..]) + rest);
      assert Frame(gs) + rest == GroupBytes(g, 1) + (Frame(gs[1..]) + rest);
    }
  }

  lemma TakePacked(fs: seq<Field>, left: nat, eom: bool, tail: seq<byte>)
    requires fs != [] && fs[0].width <= left
    ensures TakeFixed(Cursor(Pack(fs), left, eom, tail), fs[0].width) ==
            Ok((Low(fs[0].value, fs[0].width), Cursor(Pack(fs[1..]), left - fs[0].width, eom, tail)))
  {
    Split(Low(fs[0].value, fs[0].width), Pack(fs[1..]), fs[0].width);
  }

  lemma PackOne(f: Field)
    requires f.value < Pow2(f.width)
    ensures Pack([f]) == f.value
  {
    LowSmall(f.value, f.width);
    assert Pack([f]) == Low(f.value, f.width) + Pow2(f.width) * 0;
  }

  // ---- Variable-length fields ----

  lemma FieldWidths(f: VarField, m: Msg)
    ensures f.required || f.vao ==> FieldOf(f, m).width > 0
    ensures !f.vao ==> FieldOf(f, m).value < Pow2(FieldOf(f, m).width)
  {
    BitLenBound(Get(m, f.slot), BitLen(Get(m, f.slot)));
    if Get(m, f.slot) == 0 { assert Pow2(1) == 2; }
  }

  // A field alone at the end of a group is read back.
  lemma TakeLast(f: VarField, m: Msg, left: nat, eom: bool, tail: seq<byte>)
    requires FieldOf(f, m).width <= left
    requires f.vao ==> left == 6 * LaneCount(FieldOf(f, m).width)
    ensures TakeVar(Cursor(Pack([FieldOf(f, m)]), left, eom, tail), f) ==
            Ok((Get(m, f.slot), Cursor(0, 0, eom, tail)))
  {
    hide SignExtend, LaneCount, BitLen, Low, SignedBits, ReqBits, Pow2;
    var x := Get(m, f.slot);
    GetBound(m, f.slot);
    FieldWidths(f, m);
    if f.vao {
      CodecVao.VaoLossless(x);
      assert Pack([FieldOf(f, m)]) == Low(x, VaoBits(x)) + Pow2(VaoBits(x)) * 0;
    } else {
      PackOne(FieldOf(f, m));
    }
  }

  // Reading the fields in the order they were written copies their slots.
  lemma {:induction false} FieldsRoundTrip(
    fs: seq<VarField>, m: Msg, into: Msg, left: nat, more: seq<seq<Field>>, rest: seq<byte>)
    requires fs != [] && FieldOf(fs[0], m).width <= left
    requires fs[0].vao ==> left == 6 * LaneCount(FieldOf(fs[0], m).width)
    requires forall i :: 0 < i < |fs| ==> fs[i].required
    requires fs[0].required ==> left > 0
    ensures var gs := Groups(fs[1..], m) + more;
            DecodeFields(fs, into, Cursor(Pack([FieldOf(fs[0], m)]), left, gs == [], FrameThen(gs, rest))) ==
            Ok((CopySlots(fs, m, into), Cursor(0, 0, more == [], FrameThen(more, rest))))
  {
    var gs := Groups(fs[1..], m) + more;
    var x := Get(m, fs[0].slot);
    GetBound(m, fs[0].slot);
    TakeLast(fs[0], m, left, gs == [], FrameThen(gs, rest));
    var m1 := Set(into, fs[0].slot, x);
    if |fs| == 1 {
      assert gs == more;
      assert CopySlots(fs[1..], m, m1) == m1;
    } else {
      var rs := fs[1..];
      NextGroup(rs, m, more, rest);
      FieldsRoundTrip(rs, m, m1, 6 * LaneCount(FieldOf(rs[0], m).width), more, rest);
    }
  }

  // The group of the next field.
  lemma NextGroup(fs: seq<VarField>, m: Msg, more: seq<seq<Field>>, rest: seq<byte>)
    requires fs != [] && fs[0].required
    ensures var gs := Groups(fs, m) + more;
            var w := FieldOf(fs[0], m).width;
            && 0 < w <= 6 * LaneCount(w)
            && Next(Cursor(0, 0, gs == [], FrameThen(gs, rest))) ==
               Ok(Cursor(Pack([FieldOf(fs[0], m)]), 6 * LaneCount(w),
                         Groups(fs[1..], m) + more == [], FrameThen(Groups(fs[1..], m) + more, rest)))
  {
    hide Open, Pack, LaneCount, Frame, Low, Pow2, FieldBits;
    var gs := Groups(fs, m) + more;
    var f := FieldOf(fs[0], m);
    FieldWidths(fs[0], m);
    OneWidth(f);
    assert gs[0] == [f];
    assert gs[1..] == Groups(fs[1..], m) + more;
    assert (|gs| == 1) == (gs[1..] == []);
    OpenFrame(gs, rest);
  }

  lemma OneWidth(f: Field)
    ensures Width([f]) == f.width
  {
    assert [f][1..] == [];
  }

  // ---- The end of the message ----

  lemma {:induction false} SkipFrame(gs: seq<seq<Field>>, c: Cursor, rest: seq<byte>)
    requires forall i :: 0 <= i < |gs| ==> Width(gs[i]) > 0
    requires c.eom == (gs == []) && c.tail == FrameThen(gs, rest)
    ensures SkipToEnd(c) ==
            Ok(if gs == [] then c
               else Cursor(Pack(gs[|gs| - 1]), 6 * LaneCount(Width(gs[|gs| - 1])), true, rest))
    decreases |gs|
  {
    hide Open, Pack, Width, LaneCount, Frame;
    if gs != [] {
      OpenFrame(gs, rest);
      var c1 := Open(c.tail).value;
      SkipFrame(gs[1..], c1, rest);
    }
  }

  lemma TimeWidth(t: uint64)
    ensures t < Pow2(ReqBits(t)) && ReqBits(t) <= 64
  {
    Pow2Words();
    BitLenBound(t, BitLen(t));
    BitLenBound(t, 64);
    assert Pow2(1) == 2;
  }

  // The timestamp comes back, whatever groups precede it, unless it is left out
  // and the last of those groups is taken for it.
  lemma FinishRoundTrip(hw: HwCfg, m: Msg, into: Msg, extra: seq<seq<Field>>, rest: seq<byte>)
    requires forall i :: 0 <= i < |extra| ==> Width(extra[i]) > 0
    requires into.IsSync() == m.IsSync() && into.timestamp == 0
    requires forall i :: 0 <= i < |extra| ==> Pack(extra[i]) < U64
    ensures var gs := extra + TimeGroup(hw, m);
            Finish(hw, into, Cursor(0, 0, gs == [], FrameThen(gs, rest))) ==
            Ok((into.(timestamp :=
                        if hw.tsBits == 0 then 0
                        else if TimeGroup(hw, m) != [] || extra == [] then m.timestamp
                        else Pack(extra[|extra| - 1])), rest))
  {
    hide Low, High, Pow2, BitLen, Pack, Width, SkipToEnd, Open, Frame;
    var time := TimeGroup(hw, m);
    var gs := extra + time;
    var c := Cursor(0, 0, gs == [], FrameThen(gs, rest));
    TimeWidth(m.timestamp);
    OneWidth(Field(m.timestamp, ReqBits(m.timestamp)));
    forall i | 0 <= i < |gs| ensures Width(gs[i]) > 0 {
      if i >= |extra| { assert gs[i] == time[0]; }
    }
    SkipFrame(gs, c, rest);
    if gs != [] {
      var last := gs[|gs| - 1];
      if time != [] {
        assert last == time[0];
        PackOne(Field(m.timestamp, ReqBits(m.timestamp)));
      } else {
        assert last == extra[|extra| - 1];
      }
    }
  }

  // ---- Whole messages ----

  // SRC must fit the width the hardware gives it.
  predicate SrcFits(hw: HwCfg, m: Msg)
  {
    m.IsIdle() || m.src < Pow2(hw.srcBits)
  }

  /** The encoder writes CKDATA1 even when CKDF says there is none. The decoder
      then takes that group for the timestamp, if it expects one and the
      encoder left a zero timestamp out. */
  predicate TakenForTime(hw: HwCfg, m: Msg)
  {
    m.tcode == ICT && m.code2 == 0 && m.data != 0 && hw.tsBits > 0 && m.timestamp == 0
  }

  // Groups after the fields the decoder knows of, apart from the timestamp.
  function ExtraGroups(m: Msg): seq<seq<Field>>
  {
    if m.tcode == ICT && m.code2 == 0 then [[FieldOf(Req(Data), m)]] else []
  }

  // The fields of a message as the decoder lists them, then what it skips.
  lemma WireShape(hw: HwCfg, m: Msg)
    requires m.Encodable() && !m.IsIdle()
    ensures m.HasFields()
    ensures var fs := VarFields(hw, m);
            Wire(hw, m) == [HeadFields(hw, m) + [FieldOf(fs[0], m)]]
                           + (Groups(fs[1..], m) + (ExtraGroups(m) + TimeGroup(hw, m)))
  {
    var fs := VarFields(hw, m);
    if m.tcode == ICT {
      var e := EncodedFields(hw, m);
      assert e[1..] == [Req(Data)];
      assert e[1..][1..] == [];
      assert Groups(e[1..], m) == [[FieldOf(Req(Data), m)]];
      assert if m.code2 == 0 then fs[1..] == [] else fs[1..] == [Req(Data)];
      assert Groups(e[1..], m) == Groups(fs[1..], m) + ExtraGroups(m);
    } else {
      assert Groups(fs[1..], m) + ([] + TimeGroup(hw, m)) == Groups(fs[1..], m) + TimeGroup(hw, m);
    }
  }

  lemma HeadWidths(hw: HwCfg, m: Msg, f: Field)
    ensures Width(HeadFields(hw, m) + [f]) ==
            6 + hw.srcBits + Code4Bits(m.tcode) + Code2Bits(m.tcode) + f.width
  {
    var h := HeadFields(hw, m);
    WidthAppend(h, [f]);
    WidthAppend([h[0], h[1]], [h[2], h[3]]);
    assert h == [h[0], h[1]] + [h[2], h[3]];
    TwoWidths(h[0], h[1]);
    TwoWidths(h[2], h[3]);
    OneWidth(f);
  }

  lemma TwoWidths(f: Field, g: Field)
    ensures Width([f, g]) == f.width + g.width
  {
    WidthAppend([f], [g]);
    assert [f] + [g] == [f, g];
    OneWidth(f);
    OneWidth(g);
  }

  // The header: TCODE and SRC,
  lemma SrcRoundTrip(hw: HwCfg, m: Msg, tail: seq<Field>, left: nat, eom: bool, after: seq<byte>)
    requires m.src < Pow2(hw.srcBits) && m.tcode < 64
    requires left >= 6 + hw.srcBits
    ensures var c := Cursor(Pack([Field(m.tcode, 6), Field(m.src, hw.srcBits)] + tail), left, eom, after);
            && TakeFixed(c, 6).Ok? && TakeFixed(c, 6).value.0 == m.tcode
            && TakeFixed(TakeFixed(c, 6).value.1, hw.srcBits) ==
               Ok((m.src, Cursor(Pack(tail), left - 6 - hw.srcBits, eom, after)))
  {
    hide Low, High, Pow2, Pack;
    var h := [Field(m.tcode, 6), Field(m.src, hw.srcBits)] + tail;
    assert h[1..] == [Field(m.src, hw.srcBits)] + tail && h[1..][1..] == tail;
    LowWords(m.tcode);
    LowSmall(m.src, hw.srcBits);
    TakePacked(h, left, eom, after);
    TakePacked(h[1..], left - 6, eom, after);
  }

  // then the fixed codes.
  lemma CodesRoundTrip(m: Msg, m0: Msg, f: Field, left: nat, eom: bool, after: seq<byte>)
    requires m0.tcode == m.tcode
    requires left >= Code4Bits(m.tcode) + Code2Bits(m.tcode)
    ensures var fs := [Field(m.code4, Code4Bits(m.tcode)), Field(m.code2, Code2Bits(m.tcode)), f];
            DecodeCodes(m0, Cursor(Pack(fs), left, eom, after)) ==
            Ok((WithCodes(m, m0),
                Cursor(Pack([f]), left - Code4Bits(m.tcode) - Code2Bits(m.tcode), eom, after)))
  {
    var fs := [Field(m.code4, Code4Bits(m.tcode)), Field(m.code2, Code2Bits(m.tcode)), f];
    assert fs[1..] == [Field(m.code2, Code2Bits(m.tcode)), f] && fs[1..][1..] == [f];
    TakePacked(fs, left, eom, after);
    TakePacked(fs[1..], left - Code4Bits(m.tcode), eom, after);
  }

  // m0 with the fixed codes of m.
  function WithCodes(m: Msg, m0: Msg): Msg
  {
    SetCodes(m0, Low(m.code4, Code4Bits(m.tcode)), Low(m.code2, Code2Bits(m.tcode)))
  }

  lemma CodesMatch(m: Msg, m0: Msg)
    requires m0.tcode == m.tcode && m0.src == m.src
    ensures SameHead(m, WithCodes(m, m0))
  {
    hide Low, Pow2;
    CodesFit(m);
    CodesFit(WithCodes(m, m0));
  }

  // Groups the decoder skips.
  predicate Skippable(extra: seq<seq<Field>>)
  {
    forall i :: 0 <= i < |extra| ==> Width(extra[i]) > 0 && Pack(extra[i]) < U64
  }

  // The timestamp found behind the fields and those groups.
  function TimeFound(hw: HwCfg, m: Msg, extra: seq<seq<Field>>): uint64
    requires Skippable(extra)
  {
    if hw.tsBits == 0 then 0
    else if TimeGroup(hw, m) != [] || extra == [] then m.timestamp
    else Pack(extra[|extra| - 1])
  }

  // What the decoder leaves in the structure.
  function Delivered(hw: HwCfg, m: Msg, prev: Msg, extra: seq<seq<Field>>): Msg
    requires Skippable(extra)
  {
    var m0 := prev.(timestamp := 0, tcode := m.tcode, src := m.src);
    CopySlots(VarFields(hw, m), m, Cleared(WithCodes(m, m0))).(timestamp := TimeFound(hw, m, extra))
  }

  lemma ExtraPacked(m: Msg)
    ensures Skippable(ExtraGroups(m))
    ensures forall i :: 0 <= i < |ExtraGroups(m)| ==> Pack(ExtraGroups(m)[i]) == m.data
  {
    var f := FieldOf(Req(Data), m);
    FieldWidths(Req(Data), m);
    OneWidth(f);
    PackOne(f);
  }

  lemma KnownSteps(hw: HwCfg, m: Msg, m1: Msg, m2: Msg, c: Cursor, c1: Cursor, c2: Cursor)
    requires m.HasFields()
    requires DecodeCodes(m, c) == Ok((m1, c1))
    requires DecodeFields(VarFields(hw, m1), Cleared(m1), c1) == Ok((m2, c2))
    ensures DecodeKnown(hw, m, c) == Finish(hw, m2, c2)
  {
    hide DecodeCodes, DecodeFields, VarFields, Cleared, Finish;
  }

  // The fields after SRC.
  lemma BodyRoundTrip(hw: HwCfg, m: Msg, prev: Msg, left: nat, extra: seq<seq<Field>>, rest: seq<byte>)
    requires m.Encodable() && !m.IsIdle() && m.HasFields() && Skippable(extra)
    requires left > Code4Bits(m.tcode) + Code2Bits(m.tcode) || !VarFields(hw, m)[0].required
    requires left >= Code4Bits(m.tcode) + Code2Bits(m.tcode) + FieldOf(VarFields(hw, m)[0], m).width
    ensures var fs := VarFields(hw, m);
            var gs := Groups(fs[1..], m) + (extra + TimeGroup(hw, m));
            var body := [Field(m.code4, Code4Bits(m.tcode)), Field(m.code2, Code2Bits(m.tcode)), FieldOf(fs[0], m)];
            DecodeKnown(hw, prev.(timestamp := 0, tcode := m.tcode, src := m.src),
                        Cursor(Pack(body), left, gs == [], FrameThen(gs, rest)))
            == Ok((Delivered(hw, m, prev, extra), rest))
  {
    hide DecodeKnown, Low, High, Pow2, Pack, TakeFixed, DecodeFields, Finish, FieldBits, Groups, TimeGroup, DecodeCodes,
         FrameThen, CopySlots, VarFields, Content, FieldOf, Set, Get, HeadContent;
    var fs := VarFields(hw, m);
    var time := TimeGroup(hw, m);
    var gs := Groups(fs[1..], m) + (extra + time);
    var m0 := prev.(timestamp := 0, tcode := m.tcode, src := m.src);
    var m1 := WithCodes(m, m0);
    CodesRoundTrip(m, m0, FieldOf(fs[0], m), left, gs == [], FrameThen(gs, rest));
    CodesMatch(m, m0);
    HeadFixesFields(hw, m, m1);
    FieldsRoundTrip(fs, m, Cleared(m1), left - Code4Bits(m.tcode) - Code2Bits(m.tcode), extra + time, rest);
    CopyKeeps(fs, m, Cleared(m1));
    var m2 := CopySlots(fs, m, Cleared(m1));
    FinishRoundTrip(hw, m, m2, extra, rest);
    var body := [Field(m.code4, Code4Bits(m.tcode)), Field(m.code2, Code2Bits(m.tcode)), FieldOf(fs[0], m)];
    KnownSteps(hw, m0, m1, m2,
               Cursor(Pack(body), left, gs == [], FrameThen(gs, rest)),
               Cursor(Pack([FieldOf(fs[0], m)]), left - Code4Bits(m.tcode) - Code2Bits(m.tcode),
                      gs == [], FrameThen(gs, rest)),
               Cursor(0, 0, extra + time == [], FrameThen(extra + time, rest)));
  }

  // A stray CKDATA1 is the timestamp found only if none was written.
  lemma TimeDelivered(hw: HwCfg, m: Msg)
    ensures Skippable(ExtraGroups(m))
    ensures hw.tsBits > 0 ==>
              TimeFound(hw, m, ExtraGroups(m)) == if TakenForTime(hw, m) then m.data else m.timestamp
  {
    hide Pack, ReqBits, FieldOf, Skippable;
    ExtraPacked(m);
  }

  lemma TailSteps(hw: HwCfg, b: seq<byte>, prev: Msg, m: Msg, c: Cursor)
    requires Open(b).Ok? && TakeFixed(Open(b).value, 6).Ok? && TakeFixed(Open(b).value, 6).value.0 == m.tcode
    requires TakeFixed(TakeFixed(Open(b).value, 6).value.1, hw.srcBits) == Ok((m.src, c))
    requires m.HasFields()
    ensures DecodeTail(hw, b, prev) == DecodeKnown(hw, prev.(timestamp := 0, tcode := m.tcode, src := m.src), c)
  {
    hide Open, TakeFixed, DecodeKnown;
  }

  // The groups of a message, with others between its fields and its timestamp.
  function FramePlus(hw: HwCfg, m: Msg, extra: seq<seq<Field>>): seq<byte>
    requires m.Encodable() && !m.IsIdle()
  {
    var fs := VarFields(hw, m);
    Frame([HeadFields(hw, m) + [FieldOf(fs[0], m)]] + (Groups(fs[1..], m) + (extra + TimeGroup(hw, m))))
  }

  lemma KnownRoundTrip(hw: HwCfg, m: Msg, prev: Msg, extra: seq<seq<Field>>, rest: seq<byte>)
    requires m.Encodable() && !m.IsIdle() && m.src < Pow2(hw.srcBits) && Skippable(extra)
    ensures DecodeTail(hw, FramePlus(hw, m, extra) + rest, prev) == Ok((Delivered(hw, m, prev, extra), rest))
  {
    hide Low, High, Pow2, Pack, Open, TakeFixed, DecodeKnown, DecodeTail, FieldBits, Groups, TimeGroup, Delivered,
         VarFields, Code4Bits, Code2Bits, FieldOf, Skippable;
    var fs := VarFields(hw, m);
    var f := FieldOf(fs[0], m);
    var gs := Groups(fs[1..], m) + (extra + TimeGroup(hw, m));
    var h := HeadFields(hw, m) + [f];
    var wire := [h] + gs;
    var body := [Field(m.code4, Code4Bits(m.tcode)), Field(m.code2, Code2Bits(m.tcode)), f];
    HeadWidths(hw, m, f);
    FieldWidths(fs[0], m);
    OpenFrame(wire, rest);
    assert wire[1..] == gs;
    assert (|wire| == 1) == (gs == []);
    assert h == [Field(m.tcode, 6), Field(m.src, hw.srcBits)] + body;
    var left := 6 * LaneCount(Width(h));
    SrcRoundTrip(hw, m, body, left, gs == [], FrameThen(gs, rest));
    BodyRoundTrip(hw, m, prev, left - 6 - hw.srcBits, extra, rest);
    TailSteps(hw, FramePlus(hw, m, extra) + rest, prev, m,
              Cursor(Pack(body), left - 6 - hw.srcBits, gs == [], FrameThen(gs, rest)));
  }

  // The encoding is such a frame.
  lemma EncodedFrame(hw: HwCfg, m: Msg)
    requires m.Encodable() && !m.IsIdle()
    ensures Encode(hw, m) == FramePlus(hw, m, ExtraGroups(m))
  {
    hide Frame, Groups, VarFields, ExtraGroups, TimeGroup, HeadFields, FieldOf, Wire;
    WireShape(hw, m);
  }

  lemma DeliveredContent(hw: HwCfg, m: Msg, prev: Msg)
    requires m.HasFields()
    ensures Skippable(ExtraGroups(m))
    ensures Content(hw, Delivered(hw, m, prev, ExtraGroups(m))) == Content(hw, m) <==> !TakenForTime(hw, m)
  {
    hide Skippable, TimeFound, ExtraGroups;
    TimeDelivered(hw, m);
    var m0 := prev.(timestamp := 0, tcode := m.tcode, src := m.src);
    var m1 := WithCodes(m, m0);
    var fs, r := VarFields(hw, m), Delivered(hw, m, prev, ExtraGroups(m));
    CodesMatch(m, m0);
    HeadFixesFields(hw, m, m1);
    VarFieldsApart(hw, m);
    CopyKeeps(fs, m, Cleared(m1));
    CopyGets(fs, m, Cleared(m1));
    HeadKept(hw, m1, r);
    assert SameHead(m, r);
    forall i | 0 <= i < |fs| ensures Get(r, fs[i].slot) == Get(m, fs[i].slot) {
      assert Get(r, fs[i].slot) == Get(CopySlots(fs, m, Cleared(m1)), fs[i].slot);
    }
    if !TakenForTime(hw, m) {
      SameContent(hw, m, r);
    } else if Content(hw, r) == Content(hw, m) {
      ContentTells(hw, r, m);
      assert false;
    }
  }

  // The same for a SRC that fits its field.
  lemma FittingRoundTrip(hw: HwCfg, m: Msg, prev: Msg, rest: seq<byte>)
    requires m.Encodable() && SrcFits(hw, m)
    ensures var r := Decode(hw, Encode(hw, m) + rest, prev);
            && r.Ok? && r.value.1 == |Encode(hw, m)|
            && (Content(hw, r.value.0) == Content(hw, m) <==> !TakenForTime(hw, m))
  {
    if m.IsIdle() {
      IdleRoundTrip(hw, m, prev, rest);
    } else {
      ExtraPacked(m);
      EncodedFrame(hw, m);
      KnownRoundTrip(hw, m, prev, ExtraGroups(m), rest);
      WireShape(hw, m);
      DeliveredContent(hw, m, prev);
    }
  }

  lemma LowFits(v: nat, n: nat)
    ensures Low(v, n) < Pow2(n) && Low(v, n) <= v
    ensures v < Pow2(n) ==> Low(v, n) == v
  {
    hide Low, High, Pow2;
    LowHigh(v, n);
    if v < Pow2(n) { LowSmall(v, n); }
  }

  // A message as its SRC field holds it.
  function SrcCut(hw: HwCfg, m: Msg): (r: Msg)
    ensures SrcFits(hw, r) && (SrcFits(hw, m) ==> r == m)
  {
    if m.IsIdle() then m
    else
      LowFits(m.src, hw.srcBits);
      m.(src := Low(m.src, hw.srcBits))
  }

  lemma {:induction false} GroupsCut(hw: HwCfg, fs: seq<VarField>, m: Msg)
    ensures Groups(fs, SrcCut(hw, m)) == Groups(fs, m)
  {
    hide Low, Pow2, FieldBits;
    if fs != [] { GroupsCut(hw, fs[1..], m); }
  }

  // The encoder cuts a SRC that is too large without a word.
  lemma EncodeCut(hw: HwCfg, m: Msg)
    requires m.Encodable()
    ensures SrcCut(hw, m).Encodable() && Encode(hw, SrcCut(hw, m)) == Encode(hw, m)
  {
    hide Low, Pow2, FieldBits, LaneCount, Pack;
    var r := SrcCut(hw, m);
    if !m.IsIdle() {
      var fs := EncodedFields(hw, m);
      assert EncodedFields(hw, r) == fs && TimeGroup(hw, r) == TimeGroup(hw, m);
      assert FieldOf(fs[0], r) == FieldOf(fs[0], m);
      GroupsCut(hw, fs[1..], m);
      HeadCut(hw, m, FieldOf(fs[0], m));
      assert Wire(hw, r)[1..] == Wire(hw, m)[1..];
      SameFrame(Wire(hw, m), Wire(hw, r));
    }
  }

  lemma HeadCut(hw: HwCfg, m: Msg, f: Field)
    requires !m.IsIdle()
    ensures var g, h := HeadFields(hw, m) + [f], HeadFields(hw, SrcCut(hw, m)) + [f];
            Pack(g) == Pack(h) && Width(g) == Width(h)
  {
    hide Low, Pow2;
    var g, h := HeadFields(hw, m) + [f], HeadFields(hw, SrcCut(hw, m)) + [f];
    assert g[1..][1..] == h[1..][1..];
    LowHigh(m.src, hw.srcBits);
    LowSmall(Low(m.src, hw.srcBits), hw.srcBits);
  }

  lemma SameFrame(a: seq<seq<Field>>, b: seq<seq<Field>>)
    requires a != [] && b != [] && a[1..] == b[1..]
    requires Pack(a[0]) == Pack(b[0]) && Width(a[0]) == Width(b[0])
    ensures Frame(a) == Frame(b)
  {
    hide Pack, Width, Lanes;
    assert |a| == |a[1..]| + 1 && |b| == |b[1..]| + 1;
  }

  /** Decoding an encoding, whatever bytes follow and whatever the structure
      held before, takes exactly the bytes produced. The content is the same
      unless the SRC did not fit its field or a stray CKDATA1 is taken for the
      timestamp. */
  lemma RoundTrip(hw: HwCfg, m: Msg, prev: Msg, rest: seq<byte>)
    requires m.Encodable()
    ensures var r := Decode(hw, Encode(hw, m) + rest, prev);
            && r.Ok? && r.value.1 == |Encode(hw, m)|
            && (Content(hw, r.value.0) == Content(hw, m) <==> SrcFits(hw, m) && !TakenForTime(hw, m))
  {
    hide Decode, Encode, Content, Pow2;
    EncodeCut(hw, m);
    FittingRoundTrip(hw, SrcCut(hw, m), prev, rest);
    if !SrcFits(hw, m) {
      var r := Decode(hw, Encode(hw, m) + rest, prev).value.0;
      DecodedSrc(hw, Encode(hw, m) + rest, prev);
      ContentKind(hw, r);
      ContentKind(hw, m);
    }
  }

  lemma IdleRoundTrip(hw: HwCfg, m: Msg, prev: Msg, rest: seq<byte>)
    requires m.IsIdle()
    ensures DecodeTail(hw, Encode(hw, m) + rest, prev) == Ok((prev.(timestamp := 0, tcode := IDLE), rest))
  {
    hide Low, High, Pow2, Pack, Width, Open, TakeFixed, DecodeKnown, DecodeTail, Frame;
    var f := Field(IDLE, 6);
    OneWidth(f);
    OpenFrame([[f]], rest);
    assert [[f]][1..] == [];
    TakePacked([f], 6, true, rest);
    LowWords(IDLE);
    IdleTail(hw, Encode(hw, m) + rest, prev, Cursor(Pack([f]), 6, true, rest));
  }

  lemma IdleTail(hw: HwCfg, b: seq<byte>, prev: Msg, c: Cursor)
    requires Open(b) == Ok(c) && c.eom
    requires TakeFixed(c, 6).Ok? && TakeFixed(c, 6).value.0 == IDLE
    ensures DecodeTail(hw, b, prev) == Ok((prev.(timestamp := 0, tcode := IDLE), c.tail))
  {
    hide Open, Low, High, DecodeKnown;
  }

  // An ICT message whose stray CKDATA1 comes back as a timestamp.
  lemma RoundTripFails(hw: HwCfg, prev: Msg)
    requires hw.tsBits > 0
    ensures var m := BLANK.(tcode := ICT, data := 5);
            && m.Encodable() && SrcFits(hw, m)
            && Decode(hw, Encode(hw, m), prev).Ok?
            && Decode(hw, Encode(hw, m), prev).value.0.timestamp == 5
  {
    var m := BLANK.(tcode := ICT, data := 5);
    EncodedFrame(hw, m);
    TimeDelivered(hw, m);
    KnownRoundTrip(hw, m, prev, ExtraGroups(m), []);
    assert Encode(hw, m) + [] == Encode(hw, m);
  }

  // An encoding has one MSEO 3, at its end.
  lemma EncodeFrames(hw: HwCfg, m: Msg)
    requires m.Encodable()
    ensures SyncForward(Encode(hw, m)) == Ok(|Encode(hw, m)|)
  {
    RoundTrip(hw, m, BLANK, []);
    assert Encode(hw, m) + [] == Encode(hw, m);
    CodecFraming.DecodeEndsAtSync(hw, Encode(hw, m), BLANK);
  }
}
