// One encoding per TCODE, byte for byte, and what it decodes to.
module WireExamples {
  import opened Protocol
  import opened MsgTypes
  import opened Codec
  import opened WireFormat
  import CodecRoundTrip
  import WireLegible
  import WireReading

  // No SRC, no timestamps, plain addresses.
  const PLAIN: HwCfg := Hardware(0, 0, 64, 32, false, false)

  // The bytes are written for the message, and are read as it.
  ghost predicate Says(b: seq<byte>, m: Msg)
  {
    var r := Decode(PLAIN, b, BLANK);
    && m.Encodable() && Encode(PLAIN, m) == b
    && r.Ok? && r.value.1 == |b| && Content(PLAIN, r.value.0) == m
  }

  lemma Computed(m: Msg, ns: seq<Num>, b: seq<byte>)
    requires m.Encodable() && CodecRoundTrip.SrcFits(PLAIN, m) && Content(PLAIN, m) == m
    requires Layout(PLAIN, m) == ns && Laid(ns) == b
    ensures Says(b, m)
  {
    hide Layout, Laid, Encode, Decode, Content, CodecRoundTrip.SrcFits;
    EncodeLaid(PLAIN, m);
    CodecRoundTrip.RoundTrip(PLAIN, m, BLANK, []);
    assert b + [] == b;
  }

  lemma Spelling1(v: nat, last: nat)
    ensures Spelled(v, 1, last) == [v % 64 * 4 + last]
  {
  }

  lemma Spelling2(v: nat, last: nat)
    ensures Spelled(v, 2, last) == [v % 64 * 4, v / 64 % 64 * 4 + last]
  {
    assert Spelled(v / 64, 1, last) == [v / 64 % 64 * 4 + last];
  }

  lemma Spelling3(v: nat, last: nat)
    ensures Spelled(v, 3, last) == [v % 64 * 4, v / 64 % 64 * 4, v / 4096 % 64 * 4 + last]
  {
    Spelling2(v / 64, last);
    assert v / 64 / 64 == v / 4096;
  }

  lemma OwnershipBytes()
    ensures Laid([Num(19778, 15)]) == [0x08, 0xD4, 0x13]
  {
    hide Spelled;
    var ns: seq<Num> := [Num(19778, 15)];
    Spelling3(19778, 3);
    assert ns[1..] == [];
  }

  lemma OwnershipNumbers()
    ensures Layout(PLAIN, BLANK.(tcode := 2, code4 := 5, code2 := 1, data := 9)) == [Num(19778, 15)]
  {
    assert Spare(9) == Num(9, 4);
    assert Then(1, 1, Num(9, 4)) == Num(19, 5);
    assert Then(5, 4, Num(19, 5)) == Num(309, 9);
    assert Then(0, 0, Num(309, 9)) == Num(309, 9);
    assert Then(2, 6, Num(309, 9)) == Num(19778, 15);
  }

  lemma Ownership()
    ensures Says([0x08, 0xD4, 0x13], BLANK.(tcode := 2, code4 := 5, code2 := 1, data := 9))
  {
    hide Laid, Layout;
    var m := BLANK.(tcode := 2, code4 := 5, code2 := 1, data := 9);
    OwnershipBytes();
    OwnershipNumbers();
    Computed(m, [Num(19778, 15)], [0x08, 0xD4, 0x13]);
  }

  lemma DirectBranch()
    ensures Says([0x0C, 0x2B], BLANK.(tcode := 3, word := 10))
  {
    var m := BLANK.(tcode := 3, word := 10);
    Computed(m, [Num(643, 10)], [0x0C, 0x2B]);
  }

  lemma IndirectBranchBytes()
    ensures Laid([Num(900, 10), Num(5, 3)]) == [0x10, 0x39, 0x17]
  {
    hide Spelled;
    var ns: seq<Num> := [Num(900, 10), Num(5, 3)];
    Spelling2(900, 1);
    Spelling1(5, 3);
    assert ns[1..] == [Num(5, 3)];
    assert ns[1..][1..] == [];
  }

  lemma IndirectBranchNumbers()
    ensures Layout(PLAIN, BLANK.(tcode := 4, code2 := 2, word := 3, data := 5)) == [Num(900, 10), Num(5, 3)]
  {
    assert Needed(3) == Num(3, 2);
    assert Then(2, 2, Num(3, 2)) == Num(14, 4);
    assert Then(0, 0, Num(14, 4)) == Num(14, 4);
    assert Then(4, 6, Num(14, 4)) == Num(900, 10);
  }

  lemma IndirectBranch()
    ensures Says([0x10, 0x39, 0x17], BLANK.(tcode := 4, code2 := 2, word := 3, data := 5))
  {
    hide Laid, Layout;
    var m := BLANK.(tcode := 4, code2 := 2, word := 3, data := 5);
    IndirectBranchBytes();
    IndirectBranchNumbers();
    Computed(m, [Num(900, 10), Num(5, 3)], [0x10, 0x39, 0x17]);
  }

  lemma Error()
    ensures Says([0x20, 0x8C, 0x07], BLANK.(tcode := 8, code4 := 3, word := 6))
  {
    var m := BLANK.(tcode := 8, code4 := 3, word := 6);
    Computed(m, [Num(6344, 13)], [0x20, 0x8C, 0x07]);
  }

  lemma ProgTraceSyncBytes()
    ensures Laid([Num(73, 11), Num(7, 3)]) == [0x24, 0x05, 0x1F]
  {
    hide Spelled;
    var ns: seq<Num> := [Num(73, 11), Num(7, 3)];
    Spelling2(73, 1);
    Spelling1(7, 3);
    assert ns[1..] == [Num(7, 3)];
    assert ns[1..][1..] == [];
  }

  lemma ProgTraceSyncNumbers()
    ensures Layout(PLAIN, BLANK.(tcode := 9, code4 := 1, data := 7)) == [Num(73, 11), Num(7, 3)]
  {
    assert Needed(0) == Num(0, 1);
    assert Then(1, 4, Num(0, 1)) == Num(1, 5);
    assert Then(0, 0, Num(1, 5)) == Num(1, 5);
    assert Then(9, 6, Num(1, 5)) == Num(73, 11);
  }

  lemma ProgTraceSync()
    ensures Says([0x24, 0x05, 0x1F], BLANK.(tcode := 9, code4 := 1, data := 7))
  {
    hide Laid, Layout;
    var m := BLANK.(tcode := 9, code4 := 1, data := 7);
    ProgTraceSyncBytes();
    ProgTraceSyncNumbers();
    Computed(m, [Num(73, 11), Num(7, 3)], [0x24, 0x05, 0x1F]);
  }

  lemma DirectBranchSyncBytes()
    ensures Laid([Num(2379, 12), Num(4, 3)]) == [0x2C, 0x95, 0x13]
  {
    hide Spelled;
    var ns: seq<Num> := [Num(2379, 12), Num(4, 3)];
    Spelling2(2379, 1);
    Spelling1(4, 3);
    assert ns[1..] == [Num(4, 3)];
    assert ns[1..][1..] == [];
  }

  lemma DirectBranchSyncNumbers()
    ensures Layout(PLAIN, BLANK.(tcode := 11, code4 := 5, word := 2, data := 4)) == [Num(2379, 12), Num(4, 3)]
  {
    assert Needed(2) == Num(2, 2);
    assert Then(5, 4, Num(2, 2)) == Num(37, 6);
    assert Then(0, 0, Num(37, 6)) == Num(37, 6);
    assert Then(11, 6, Num(37, 6)) == Num(2379, 12);
  }

  lemma DirectBranchSync()
    ensures Says([0x2C, 0x95, 0x13], BLANK.(tcode := 11, code4 := 5, word := 2, data := 4))
  {
    hide Laid, Layout;
    var m := BLANK.(tcode := 11, code4 := 5, word := 2, data := 4);
    DirectBranchSyncBytes();
    DirectBranchSyncNumbers();
    Computed(m, [Num(2379, 12), Num(4, 3)], [0x2C, 0x95, 0x13]);
  }

  lemma IndirectBranchSyncBytes()
    ensures Laid([Num(9548, 14), Num(4, 3)]) == [0x30, 0x54, 0x09, 0x13]
  {
    hide Spelled;
    var ns: seq<Num> := [Num(9548, 14), Num(4, 3)];
    Spelling3(9548, 1);
    Spelling1(4, 3);
    assert ns[1..] == [Num(4, 3)];
    assert ns[1..][1..] == [];
  }

  lemma IndirectBranchSyncNumbers()
    ensures Layout(PLAIN, BLANK.(tcode := 12, code4 := 5, code2 := 1, word := 2, data := 4))
            == [Num(9548, 14), Num(4, 3)]
  {
    assert Needed(2) == Num(2, 2);
    assert Then(1, 2, Num(2, 2)) == Num(9, 4);
    assert Then(5, 4, Num(9, 4)) == Num(149, 8);
    assert Then(0, 0, Num(149, 8)) == Num(149, 8);
    assert Then(12, 6, Num(149, 8)) == Num(9548, 14);
  }

  lemma IndirectBranchSync()
    ensures Says([0x30, 0x54, 0x09, 0x13], BLANK.(tcode := 12, code4 := 5, code2 := 1, word := 2, data := 4))
  {
    hide Laid, Layout;
    var m := BLANK.(tcode := 12, code4 := 5, code2 := 1, word := 2, data := 4);
    IndirectBranchSyncBytes();
    IndirectBranchSyncNumbers();
    Computed(m, [Num(9548, 14), Num(4, 3)], [0x30, 0x54, 0x09, 0x13]);
  }

  lemma ResourceFullCode0()
    ensures Says([0x6C, 0x40, 0x07], BLANK.(tcode := 27, word := 5))
  {
    var m := BLANK.(tcode := 27, word := 5);
    Computed(m, [Num(5147, 13)], [0x6C, 0x40, 0x07]);
  }

  lemma ResourceFullCode1()
    ensures Says([0x6C, 0x84, 0x07], BLANK.(tcode := 27, code4 := 1, hist := 6))
  {
    var m := BLANK.(tcode := 27, code4 := 1, hist := 6);
    Computed(m, [Num(6235, 13)], [0x6C, 0x84, 0x07]);
  }

  lemma ResourceFullCode2Bytes()
    ensures Laid([Num(5275, 13), Num(3, 2)]) == [0x6C, 0x48, 0x05, 0x0F]
  {
    hide Spelled;
    var ns: seq<Num> := [Num(5275, 13), Num(3, 2)];
    Spelling3(5275, 1);
    Spelling1(3, 3);
    assert ns[1..] == [Num(3, 2)];
    assert ns[1..][1..] == [];
  }

  lemma ResourceFullCode2Numbers()
    ensures Layout(PLAIN, BLANK.(tcode := 27, code4 := 2, hist := 5, hrepeat := 3)) == [Num(5275, 13), Num(3, 2)]
  {
    assert Needed(5) == Num(5, 3);
    assert Then(2, 4, Num(5, 3)) == Num(82, 7);
    assert Then(0, 0, Num(82, 7)) == Num(82, 7);
    assert Then(27, 6, Num(82, 7)) == Num(5275, 13);
  }

  lemma ResourceFullCode2()
    ensures Says([0x6C, 0x48, 0x05, 0x0F], BLANK.(tcode := 27, code4 := 2, hist := 5, hrepeat := 3))
  {
    hide Laid, Layout;
    var m := BLANK.(tcode := 27, code4 := 2, hist := 5, hrepeat := 3);
    ResourceFullCode2Bytes();
    ResourceFullCode2Numbers();
    Computed(m, [Num(5275, 13), Num(3, 2)], [0x6C, 0x48, 0x05, 0x0F]);
  }

  lemma ResourceFullCode8()
    ensures Says([0x6C, 0x60, 0x0B], BLANK.(tcode := 27, code4 := 8, word := 9))
  {
    var m := BLANK.(tcode := 27, code4 := 8, word := 9);
    Computed(m, [Num(9755, 14)], [0x6C, 0x60, 0x0B]);
  }

  lemma IndirectBranchHistBytes()
    ensures Laid([Num(1052, 11), Num(3, 2), Num(5, 3)]) == [0x70, 0x41, 0x0D, 0x17]
  {
    hide Spelled;
    var ns: seq<Num> := [Num(1052, 11), Num(3, 2), Num(5, 3)];
    Spelling2(1052, 1);
    Spelling1(3, 1);
    Spelling1(5, 3);
    assert ns[1..] == [Num(3, 2), Num(5, 3)];
    assert ns[1..][1..] == [Num(5, 3)];
    assert ns[1..][1..][1..] == [];
  }

  lemma IndirectBranchHistNumbers()
    ensures Layout(PLAIN, BLANK.(tcode := 28, word := 4, data := 3, hist := 5)) == [Num(1052, 11), Num(3, 2), Num(5, 3)]
  {
    assert Needed(4) == Num(4, 3);
    assert Then(0, 2, Num(4, 3)) == Num(16, 5);
    assert Then(0, 0, Num(16, 5)) == Num(16, 5);
    assert Then(28, 6, Num(16, 5)) == Num(1052, 11);
  }

  lemma IndirectBranchHist()
    ensures Says([0x70, 0x41, 0x0D, 0x17], BLANK.(tcode := 28, word := 4, data := 3, hist := 5))
  {
    hide Laid, Layout;
    var m := BLANK.(tcode := 28, word := 4, data := 3, hist := 5);
    IndirectBranchHistBytes();
    IndirectBranchHistNumbers();
    Computed(m, [Num(1052, 11), Num(3, 2), Num(5, 3)], [0x70, 0x41, 0x0D, 0x17]);
  }

  lemma IndirectBranchHistSyncBytes()
    ensures Laid([Num(7581, 13), Num(2, 2), Num(7, 3)]) == [0x74, 0xD8, 0x05, 0x09, 0x1F]
  {
    hide Spelled;
    var ns: seq<Num> := [Num(7581, 13), Num(2, 2), Num(7, 3)];
    Spelling3(7581, 1);
    Spelling1(2, 1);
    Spelling1(7, 3);
    assert ns[1..] == [Num(2, 2), Num(7, 3)];
    assert ns[1..][1..] == [Num(7, 3)];
    assert ns[1..][1..][1..] == [];
  }

  lemma IndirectBranchHistSyncNumbers()
    ensures Layout(PLAIN, BLANK.(tcode := 29, code4 := 6, code2 := 3, word := 1, data := 2, hist := 7))
            == [Num(7581, 13), Num(2, 2), Num(7, 3)]
  {
    assert Needed(1) == Num(1, 1);
    assert Then(3, 2, Num(1, 1)) == Num(7, 3);
    assert Then(6, 4, Num(7, 3)) == Num(118, 7);
    assert Then(0, 0, Num(118, 7)) == Num(118, 7);
    assert Then(29, 6, Num(118, 7)) == Num(7581, 13);
  }

  lemma IndirectBranchHistSync()
    ensures Says([0x74, 0xD8, 0x05, 0x09, 0x1F],
                 BLANK.(tcode := 29, code4 := 6, code2 := 3, word := 1, data := 2, hist := 7))
  {
    hide Laid, Layout;
    var m := BLANK.(tcode := 29, code4 := 6, code2 := 3, word := 1, data := 2, hist := 7);
    IndirectBranchHistSyncBytes();
    IndirectBranchHistSyncNumbers();
    Computed(m, [Num(7581, 13), Num(2, 2), Num(7, 3)], [0x74, 0xD8, 0x05, 0x09, 0x1F]);
  }

  lemma RepeatBranch()
    ensures Says([0x78, 0x0F], BLANK.(tcode := 30, hrepeat := 3))
  {
    var m := BLANK.(tcode := 30, hrepeat := 3);
    Computed(m, [Num(222, 8)], [0x78, 0x0F]);
  }

  lemma ProgTraceCorrelationBytes()
    ensures Laid([Num(17569, 15), Num(3, 2)]) == [0x84, 0x48, 0x11, 0x0F]
  {
    hide Spelled;
    var ns: seq<Num> := [Num(17569, 15), Num(3, 2)];
    Spelling3(17569, 1);
    Spelling1(3, 3);
    assert ns[1..] == [Num(3, 2)];
    assert ns[1..][1..] == [];
  }

  lemma ProgTraceCorrelationNumbers()
    ensures Layout(PLAIN, BLANK.(tcode := 33, code4 := 2, code2 := 1, word := 4, hist := 3))
            == [Num(17569, 15), Num(3, 2)]
  {
    assert Needed(4) == Num(4, 3);
    assert Then(1, 2, Num(4, 3)) == Num(17, 5);
    assert Then(2, 4, Num(17, 5)) == Num(274, 9);
    assert Then(0, 0, Num(274, 9)) == Num(274, 9);
    assert Then(33, 6, Num(274, 9)) == Num(17569, 15);
  }

  lemma ProgTraceCorrelation()
    ensures Says([0x84, 0x48, 0x11, 0x0F], BLANK.(tcode := 33, code4 := 2, code2 := 1, word := 4, hist := 3))
  {
    hide Laid, Layout;
    var m := BLANK.(tcode := 33, code4 := 2, code2 := 1, word := 4, hist := 3);
    ProgTraceCorrelationBytes();
    ProgTraceCorrelationNumbers();
    Computed(m, [Num(17569, 15), Num(3, 2)], [0x84, 0x48, 0x11, 0x0F]);
  }

  lemma IctBytes()
    ensures Laid([Num(9250, 14), Num(3, 2)]) == [0x88, 0x40, 0x09, 0x0F]
  {
    hide Spelled;
    var ns: seq<Num> := [Num(9250, 14), Num(3, 2)];
    Spelling3(9250, 1);
    Spelling1(3, 3);
    assert ns[1..] == [Num(3, 2)];
    assert ns[1..][1..] == [];
  }

  lemma IctNumbers()
    ensures Layout(PLAIN, BLANK.(tcode := 34, code2 := 1, hist := 2, data := 3)) == [Num(9250, 14), Num(3, 2)]
  {
    assert Needed(2) == Num(2, 2);
    assert Then(1, 2, Num(2, 2)) == Num(9, 4);
    assert Then(0, 4, Num(9, 4)) == Num(144, 8);
    assert Then(0, 0, Num(144, 8)) == Num(144, 8);
    assert Then(34, 6, Num(144, 8)) == Num(9250, 14);
  }

  lemma Ict()
    ensures Says([0x88, 0x40, 0x09, 0x0F], BLANK.(tcode := 34, code2 := 1, hist := 2, data := 3))
  {
    hide Laid, Layout;
    var m := BLANK.(tcode := 34, code2 := 1, hist := 2, data := 3);
    IctBytes();
    IctNumbers();
    Computed(m, [Num(9250, 14), Num(3, 2)], [0x88, 0x40, 0x09, 0x0F]);
  }

  lemma Idle()
    ensures Says([0xFF], BLANK.(tcode := 63))
  {
    var m := BLANK.(tcode := 63);
    Computed(m, [Num(63, 6)], [0xFF]);
  }

  // DataAcquisition is only decoded.
  lemma DataAcquisition()
    ensures var r := Decode(PLAIN, [0x1C, 0x15, 0x27], BLANK);
            r.Ok? && r.value.1 == 3 && Content(PLAIN, r.value.0) == BLANK.(tcode := 7, code4 := 5, data := 9)
  {
    hide Decode, Content, Numbers;
    var b: seq<byte> := [0x1C, 0x15, 0x27];
    assert b[..3] == b;
    AcquisitionNumbers();
    WireLegible.DecodesExactly(PLAIN, b, BLANK, 3);
    WireReading.DecodedMeaning(PLAIN, b, BLANK);
  }

  lemma AcquisitionNumbers()
    ensures Numbers([0x1C, 0x15, 0x27]) == [Num(327, 12), Num(9, 6)]
  {
    var b := [0x1C, 0x15, 0x27];
    assert b[1..] == [0x15, 0x27] && b[1..][1..] == [0x27] && b[1..][1..][1..] == [];
    assert Numbers([0x27]) == [Num(9, 6)];
    assert Numbers([0x15, 0x27]) == [Num(5, 6), Num(9, 6)];
  }

  /** One encoding per TCODE of the branches and syncs, */
  lemma BranchesAndSyncs()
    ensures Says([0x0C, 0x2B], BLANK.(tcode := 3, word := 10))
    ensures Says([0x10, 0x39, 0x17], BLANK.(tcode := 4, code2 := 2, word := 3, data := 5))
    ensures Says([0x24, 0x05, 0x1F], BLANK.(tcode := 9, code4 := 1, data := 7))
    ensures Says([0x2C, 0x95, 0x13], BLANK.(tcode := 11, code4 := 5, word := 2, data := 4))
    ensures Says([0x30, 0x54, 0x09, 0x13], BLANK.(tcode := 12, code4 := 5, code2 := 1, word := 2, data := 4))
    ensures Says([0x70, 0x41, 0x0D, 0x17], BLANK.(tcode := 28, word := 4, data := 3, hist := 5))
    ensures Says([0x74, 0xD8, 0x05, 0x09, 0x1F],
                 BLANK.(tcode := 29, code4 := 6, code2 := 3, word := 1, data := 2, hist := 7))
  {
    hide Says;
    DirectBranch();
    IndirectBranch();
    ProgTraceSync();
    DirectBranchSync();
    IndirectBranchSync();
    IndirectBranchHist();
    IndirectBranchHistSync();
  }

  /** and of the other kinds, one per RCODE for ResourceFull. */
  lemma OtherKinds()
    ensures Says([0x08, 0xD4, 0x13], BLANK.(tcode := 2, code4 := 5, code2 := 1, data := 9))
    ensures Says([0x20, 0x8C, 0x07], BLANK.(tcode := 8, code4 := 3, word := 6))
    ensures Says([0x6C, 0x40, 0x07], BLANK.(tcode := 27, word := 5))
    ensures Says([0x6C, 0x84, 0x07], BLANK.(tcode := 27, code4 := 1, hist := 6))
    ensures Says([0x6C, 0x48, 0x05, 0x0F], BLANK.(tcode := 27, code4 := 2, hist := 5, hrepeat := 3))
    ensures Says([0x6C, 0x60, 0x0B], BLANK.(tcode := 27, code4 := 8, word := 9))
    ensures Says([0x78, 0x0F], BLANK.(tcode := 30, hrepeat := 3))
    ensures Says([0x84, 0x48, 0x11, 0x0F], BLANK.(tcode := 33, code4 := 2, code2 := 1, word := 4, hist := 3))
    ensures Says([0x88, 0x40, 0x09, 0x0F], BLANK.(tcode := 34, code2 := 1, hist := 2, data := 3))
    ensures Says([0xFF], BLANK.(tcode := 63))
  {
    hide Says;
    Ownership();
    Error();
    ResourceFullCode0();
    ResourceFullCode1();
    ResourceFullCode2();
    ResourceFullCode8();
    RepeatBranch();
    ProgTraceCorrelation();
    Ict();
    Idle();
  }
}
