// What a decoded message says, in terms of the numbers its bytes hold: for any
// bytes, and per TCODE, without the tables the decoder is built from.
module WireReading {
  import opened Bits
  import opened Protocol
  import opened MsgTypes
  import opened Codec
  import opened WireFormat
  import CodecFraming

  // ---- What the numbers say ----

  // An address, whose top bit counts for all above it if they are left out.
  function AddressIn(hw: HwCfg, n: Num): uint64
  {
    if hw.vao then SignExtend(n.value % U64, n.bits) else n.value % U64
  }

  // How many numbers a message takes before its timestamp, of which r is the
  // first behind TCODE and SRC.
  function Count(tcode: nat, r: nat): nat
  {
    match tcode
    case 4 | 7 | 9 | 11 | 12 => 2
    case 28 | 29 => 3
    case 27 => if r % 16 == 2 then 2 else 1
    case 33 => if r / 16 % 4 == 1 then 2 else 1
    case 34 => if r / 16 % 4 > 0 then 2 else 1
    case _ => 1
  }

  // The kinds with a timestamp, if the hardware has any.
  predicate Stamped(tcode: nat)
  {
    tcode in {2, 3, 4, 7, 8, 9, 11, 12, 27, 28, 29, 30, 33, 34}
  }

  // The bits of a number from bit n on.
  function Above(v: nat, n: nat): nat
  {
    DividesDown(v, Pow2(n));
    v / Pow2(n)
  }

  lemma DividesDown(v: nat, d: nat)
    requires d > 0
    ensures v / d >= 0
  {
    if v / d < 0 {
      MulOrder(d, v / d, -1);
    }
  }

  // What is left of the first number behind TCODE and SRC.
  function Behind(hw: HwCfg, n: nat): nat
  {
    Above(n / 64, hw.srcBits)
  }

  // All the numbers of the message are there.
  predicate Enough(hw: HwCfg, ns: seq<Num>)
  {
    ns != [] && Count(ns[0].value % 64, Behind(hw, ns[0].value)) <= |ns|
  }

  function Meaning(hw: HwCfg, ns: seq<Num>): Msg
    requires Enough(hw, ns)
  {
    var n := ns[0].value;
    var tcode, r := n % 64, Behind(hw, n);
    if tcode == 63 then BLANK
    else
      Filled(hw, BLANK.(tcode := tcode, src := n / 64 % Pow2(hw.srcBits) % 0x1_0000,
                        timestamp := if hw.tsBits > 0 && Stamped(tcode) && |ns| > Count(tcode, r)
                                     then ns[|ns| - 1].value % U64 else 0), r, ns)
  }

  // The fields behind SRC.
  function Filled(hw: HwCfg, m: Msg, r: nat, ns: seq<Num>): Msg
    requires |ns| >= Count(m.tcode, r)
  {
    match m.tcode
    case 2 => m.(code4 := r % 16, code2 := r / 16 % 2, data := r / 32 % U64)
    case 3 => m.(word := r % U32)
    case 4 => m.(code2 := r % 4, word := r / 4 % U32, data := AddressIn(hw, ns[1]))
    case 7 => m.(code4 := r % 8, data := ns[1].value % U64)
    case 8 => m.(code4 := r % 16, word := r / 16 % U32)
    case 9 | 11 => m.(code4 := r % 16, word := r / 16 % U32, data := AddressIn(hw, ns[1]))
    case 12 =>
      m.(code4 := r % 16, code2 := r / 16 % 4, word := r / 64 % U32, data := AddressIn(hw, ns[1]))
    case 27 =>
      (match r % 16
       case 1 => m.(code4 := 1, hist := r / 16 % U32)
       case 2 => m.(code4 := 2, hist := r / 16 % U32, hrepeat := ns[1].value % U32)
       case _ => m.(code4 := r % 16, word := r / 16 % U32))
    case 28 =>
      m.(code2 := r % 4, word := r / 4 % U32, data := AddressIn(hw, ns[1]), hist := ns[2].value % U32)
    case 29 =>
      m.(code4 := r % 16, code2 := r / 16 % 4, word := r / 64 % U32, data := AddressIn(hw, ns[1]),
         hist := ns[2].value % U32)
    case 30 => m.(hrepeat := r % U32)
    case 33 =>
      m.(code4 := r % 16, code2 := r / 16 % 4, word := r / 64 % U32,
         hist := if r / 16 % 4 == 1 then ns[1].value % U32 else 0)
    case 34 =>
      m.(code4 := r % 16, code2 := r / 16 % 4, hist := r / 64 % U32, hrepeat := r / 64 / U32 % U32,
         data := if r / 16 % 4 > 0 then ns[1].value % U64 else 0)
    case _ => m
  }

  // ---- The decoder's groups ----

  lemma {:induction false} ConsumedNumbers(b: seq<byte>)
    requires ConsumeGroup(b).Ok?
    ensures var n := ConsumeGroup(b).value.0;
            Numbers(b) == [Num(LaneValue(b[..n]), 6 * n)] + Numbers(b[n..])
  {
    hide Numbers;
    var n := ConsumeGroup(b).value.0;
    NumbersStep(b);
    if Mseo(b[0]) == 0 {
      var k := n - 1;
      ConsumedNumbers(b[1..]);
      assert b[1..][..k] == b[..n][1..] && b[1..][k..] == b[n..];
      assert b[..n][0] == b[0];
      assert Numbers(b[1..])[1..] == Numbers(b[n..]);
    } else {
      assert b[..1][1..] == [] && b[..1][0] == b[0];
      assert LaneValue(b[..1]) == b[0] / 4;
    }
  }

  lemma OpenNumbers(b: seq<byte>)
    requires Open(b).Ok?
    ensures var c := Open(b).value; Numbers(b) == [Num(c.rest, c.left)] + Numbers(c.tail)
  {
    ConsumedNumbers(b);
  }

  // The timestamp is the last number, if any is left.
  lemma {:induction false} SkippedNumbers(c: Cursor)
    requires SkipToEnd(c).Ok? && SkipToEnd(c).value.tail == []
    ensures c.eom <==> Numbers(c.tail) == []
    ensures !c.eom ==>
              var ns := Numbers(c.tail);
              SkipToEnd(c).value.rest == ns[|ns| - 1].value && SkipToEnd(c).value.left > 0
    decreases |c.tail|
  {
    if !c.eom {
      OpenNumbers(c.tail);
      var c1 := Open(c.tail).value;
      SkippedNumbers(c1);
      var ns := Numbers(c.tail);
      assert ns[1..] == Numbers(c1.tail);
    }
  }

  // ---- The fields ----

  // A field as its number tells it.
  function Told(f: VarField, n: Num): uint64
  {
    if f.vao then SignExtend(Whole(n), n.bits) else Whole(n)
  }

  function Whole(n: Num): uint64
  {
    n.value % U64
  }

  function Assigned(fs: seq<VarField>, m: Msg, ns: seq<Num>): Msg
    requires |fs| <= |ns|
  {
    if fs == [] then m else Assigned(fs[1..], Set(m, fs[0].slot, Told(fs[0], ns[0])), ns[1..])
  }

  lemma {:induction false} FieldsTold(fs: seq<VarField>, m: Msg, c: Cursor)
    requires fs != [] && DecodeFields(fs, m, c).Ok?
    ensures var (r, c1) := DecodeFields(fs, m, c).value;
            var ns := [Num(c.rest, c.left)] + Numbers(c.tail);
            && |fs| <= |ns| && r == Assigned(fs, m, ns) && Numbers(c1.tail) == ns[|fs|..]
  {
    hide Set, SignExtend, Numbers;
    var ns := [Num(c.rest, c.left)] + Numbers(c.tail);
    var (v, c1) := TakeVar(c, fs[0]).value;
    assert ns[1..] == Numbers(c.tail);
    var m1 := Set(m, fs[0].slot, v);
    if |fs| == 1 {
      assert fs[1..] == [];
    } else {
      OpenNumbers(c1.tail);
      FieldsTold(fs[1..], m1, Next(c1).value);
      assert ns[1..][|fs| - 1..] == ns[|fs|..];
    }
  }

  lemma CodesTold(m: Msg, c: Cursor)
    requires DecodeCodes(m, c).Ok?
    ensures var w4, w2 := Code4Bits(m.tcode), Code2Bits(m.tcode);
            var r4 := Above(c.rest, w4);
            && DecodeCodes(m, c).value
               == (SetCodes(m, c.rest % Pow2(w4), r4 % Pow2(w2)),
                   Cursor(Above(r4, w2), c.left - w4 - w2, c.eom, c.tail))
  {
    hide Low, High, Pow2;
    LowIs(c.rest, Code4Bits(m.tcode));
    LowIs(High(c.rest, Code4Bits(m.tcode)), Code2Bits(m.tcode));
  }

  // A message whose fields are known, from the numbers behind its SRC.
  lemma KnownTold(hw: HwCfg, m: Msg, c: Cursor)
    requires m.HasFields() && m.timestamp == 0
    requires DecodeKnown(hw, m, c).Ok? && DecodeKnown(hw, m, c).value.1 == []
    ensures var (m1, c1) := DecodeCodes(m, c).value;
            var fs, ns := VarFields(hw, m1), [Num(c1.rest, c1.left)] + Numbers(c1.tail);
            && DecodeCodes(m, c).Ok? && 1 <= |fs| <= |ns|
            && DecodeKnown(hw, m, c).value.0
               == Assigned(fs, Cleared(m1), ns)
                  .(timestamp := if hw.tsBits > 0 && |ns| > |fs| then ns[|ns| - 1].value % U64 else 0)
  {
    hide DecodeCodes, DecodeFields, VarFields, Numbers, Assigned, Low;
    var (m1, c1) := DecodeCodes(m, c).value;
    CodesKind(m, c);
    var fs := VarFields(hw, m1);
    var (m2, c2) := DecodeFields(fs, Cleared(m1), c1).value;
    FieldsTold(fs, Cleared(m1), c1);
    NoTime(fs, Cleared(m1), c1);
    var ns := [Num(c1.rest, c1.left)] + Numbers(c1.tail);
    SkippedNumbers(c2);
    if !c2.eom {
      assert ns[|fs|..][|ns| - |fs| - 1] == ns[|ns| - 1];
    }
  }

  lemma CodesKind(m: Msg, c: Cursor)
    requires DecodeCodes(m, c).Ok?
    ensures var m1 := DecodeCodes(m, c).value.0; m1.tcode == m.tcode && m1.timestamp == m.timestamp && m1.src == m.src
  {
  }

  lemma {:induction false} NoTime(fs: seq<VarField>, m: Msg, c: Cursor)
    requires DecodeFields(fs, m, c).Ok?
    ensures var r := DecodeFields(fs, m, c).value.0; r.timestamp == m.timestamp && r.tcode == m.tcode
  {
    if |fs| > 1 {
      var (v, c1) := TakeVar(c, fs[0]).value;
      NoTime(fs[1..], Set(m, fs[0].slot, v), Next(c1).value);
    }
  }

  // ---- The theorem ----

  lemma SmallPowers()
    ensures Pow2(0) == 1 && Pow2(1) == 2 && Pow2(2) == 4 && Pow2(4) == 16
  {
  }

  lemma AssignedFew(fs: seq<VarField>, m: Msg, ns: seq<Num>)
    requires 1 <= |fs| <= 3 && |fs| <= |ns|
    ensures var m1 := Set(m, fs[0].slot, Told(fs[0], ns[0]));
            && (|fs| == 1 ==> Assigned(fs, m, ns) == m1)
            && (|fs| > 1 ==>
                  var m2 := Set(m1, fs[1].slot, Told(fs[1], ns[1]));
                  && (|fs| == 2 ==> Assigned(fs, m, ns) == m2)
                  && (|fs| == 3 ==> Assigned(fs, m, ns) == Set(m2, fs[2].slot, Told(fs[2], ns[2]))))
  {
    hide Set, Told;
    assert fs[1..] == [] || fs[1..][0] == fs[1];
    if |fs| == 3 {
      assert fs[1..][1..] == [fs[2]] && [fs[2]][1..] == [];
    }
  }

  lemma CopiedFew(fs: seq<VarField>, m: Msg, into: Msg)
    requires 1 <= |fs| <= 3
    ensures var m1 := Set(into, fs[0].slot, GetOf(m, fs[0]));
            && (|fs| == 1 ==> CopySlots(fs, m, into) == m1)
            && (|fs| > 1 ==>
                  var m2 := Set(m1, fs[1].slot, GetOf(m, fs[1]));
                  && (|fs| == 2 ==> CopySlots(fs, m, into) == m2)
                  && (|fs| == 3 ==> CopySlots(fs, m, into) == Set(m2, fs[2].slot, GetOf(m, fs[2]))))
  {
    hide Set, Get;
    assert fs[1..] == [] || fs[1..][0] == fs[1];
    if |fs| == 3 {
      assert fs[1..][1..] == [fs[2]] && [fs[2]][1..] == [];
    }
  }

  function GetOf(m: Msg, f: VarField): uint64
  {
    GetBound(m, f.slot);
    Get(m, f.slot)
  }

  // The content of what is read into m, from its codes and fields.
  function ReadInto(hw: HwCfg, m: Msg, v4: nat, v2: nat, ns: seq<Num>, t: uint64): Msg
    requires |VarFields(hw, SetCodes(m, v4, v2))| <= |ns|
  {
    var m1 := SetCodes(m, v4, v2);
    Content(hw, Assigned(VarFields(hw, m1), Cleared(m1), ns).(timestamp := t))
  }

  lemma ReadFew(hw: HwCfg, m: Msg, v4: nat, v2: nat, ns: seq<Num>, t: uint64)
    requires m.HasFields() && v4 < 16 && v2 < 4
    requires |VarFields(hw, SetCodes(m, v4, v2))| <= |ns| && (hw.tsBits == 0 ==> t == 0)
    ensures var m1 := SetCodes(m, v4, v2);
            var fs := VarFields(hw, m1);
            var v0 := Told(fs[0], ns[0]);
            var a1 := Set(Cleared(m1), fs[0].slot, v0);
            var a2 := if |fs| > 1 then Set(a1, fs[1].slot, Told(fs[1], ns[1])) else a1;
            var a3 := if |fs| > 2 then Set(a2, fs[2].slot, Told(fs[2], ns[2])) else a2;
            var x := a3.(timestamp := t);
            var c0 := BLANK.(src := m.src, tcode := m.tcode, timestamp := t,
                             code4 := if Code4Bits(m.tcode) == 4 then v4 else 0,
                             code2 := if Code2Bits(m.tcode) == 2 then v2
                                      else if Code2Bits(m.tcode) == 1 then v2 % 2 else 0);
            var c1 := Set(c0, fs[0].slot, GetOf(x, fs[0]));
            var c2 := if |fs| > 1 then Set(c1, fs[1].slot, GetOf(x, fs[1])) else c1;
            && x.HasFields() && VarFields(hw, x) == fs
            && ReadInto(hw, m, v4, v2, ns, t) == if |fs| > 2 then Set(c2, fs[2].slot, GetOf(x, fs[2])) else c2
  {
    hide Pow2, SignExtend, Low, Assigned, CopySlots, Told, HeadContent, GetOf;
    var m1 := SetCodes(m, v4, v2);
    var fs := VarFields(hw, m1);
    FieldSlots(hw, m1);
    AssignedFew(fs, Cleared(m1), ns);
    var x := Assigned(fs, Cleared(m1), ns).(timestamp := t);
    SameFields(hw, m1, x);
    HeadsAs(hw, x);
    CopiedFew(fs, x, HeadContent(hw, x));
  }

  lemma FieldSlots(hw: HwCfg, m: Msg)
    requires m.HasFields()
    ensures var fs := VarFields(hw, m);
            1 <= |fs| <= 3 && (m.tcode != 7 ==> forall i :: 0 <= i < |fs| ==> fs[i].slot != IdTag)
  {
  }

  lemma SameFields(hw: HwCfg, a: Msg, b: Msg)
    requires a.tcode == b.tcode && a.HasFields() && (a.tcode != 7 ==> a.code4 == b.code4 && a.code2 == b.code2)
    ensures VarFields(hw, a) == VarFields(hw, b) && b.HasFields()
  {
  }

  lemma HeadsAs(hw: HwCfg, x: Msg)
    ensures HeadContent(hw, x)
            == BLANK.(src := x.src, tcode := x.tcode, timestamp := if hw.tsBits > 0 then x.timestamp else 0,
                      code4 := if Code4Bits(x.tcode) == 4 then x.code4 else 0,
                      code2 := if Code2Bits(x.tcode) == 2 then x.code2
                               else if Code2Bits(x.tcode) == 1 then x.code2 % 2 else 0)
  {
    hide Low, Code4Bits, Code2Bits;
    CodesFit(x);
  }

  lemma ReadBranch(hw: HwCfg, m: Msg, v4: nat, v2: nat, ns: seq<Num>, t: uint64)
    requires m.IsCommon() && v4 < 16 && v2 < 4 && (hw.tsBits == 0 ==> t == 0)
    requires |VarFields(hw, SetCodes(m, v4, v2))| <= |ns|
    ensures ReadInto(hw, m, v4, v2, ns, t)
            == BLANK.(src := m.src, tcode := m.tcode, timestamp := t,
                      code4 := if m.IsSync() then v4 else 0, code2 := if m.IsIndirect() then v2 else 0,
                      word := Told(Req(Word), ns[0]) % U32,
                      data := if m.tcode == 3 then 0 else Told(VarField(Data, true, hw.vao), ns[1]),
                      hist := if m.tcode == 28 || m.tcode == 29 then Told(Req(Hist), ns[2]) % U32 else 0)
  {
    hide ReadInto, Told;
    ReadFew(hw, m, v4, v2, ns, t);
  }

  lemma ReadOneNumber(hw: HwCfg, m: Msg, v4: nat, v2: nat, ns: seq<Num>, t: uint64)
    requires m.tcode in {2, 8, 30} && v4 < 16 && v2 < 4 && (hw.tsBits == 0 ==> t == 0)
    requires |VarFields(hw, SetCodes(m, v4, v2))| <= |ns|
    ensures var c := BLANK.(src := m.src, tcode := m.tcode, timestamp := t);
            var v := Whole(ns[0]);
            ReadInto(hw, m, v4, v2, ns, t)
            == if m.tcode == 2 then c.(code4 := v4, code2 := v2 % 2, data := v)
               else if m.tcode == 8 then c.(code4 := v4, word := v % U32)
               else c.(hrepeat := v % U32)
  {
    hide ReadInto, Whole, SignExtend;
    ReadFew(hw, m, v4, v2, ns, t);
  }

  lemma ReadAcquisition(hw: HwCfg, m: Msg, v4: nat, v2: nat, ns: seq<Num>, t: uint64)
    requires m.tcode == 7 && v4 < 16 && v2 < 4 && (hw.tsBits == 0 ==> t == 0)
    requires |VarFields(hw, SetCodes(m, v4, v2))| <= |ns|
    ensures ReadInto(hw, m, v4, v2, ns, t)
            == BLANK.(src := m.src, tcode := 7, timestamp := t, code4 := Whole(ns[0]) % 8, data := Whole(ns[1]))
  {
    hide ReadInto, Whole, SignExtend;
    ReadFew(hw, m, v4, v2, ns, t);
  }

  lemma ReadResource(hw: HwCfg, m: Msg, v4: nat, v2: nat, ns: seq<Num>, t: uint64)
    requires m.tcode == 27 && v4 < 16 && v2 < 4 && (hw.tsBits == 0 ==> t == 0)
    requires |VarFields(hw, SetCodes(m, v4, v2))| <= |ns|
    ensures var c := BLANK.(src := m.src, tcode := m.tcode, timestamp := t, code4 := v4);
            var v := Whole(ns[0]);
            ReadInto(hw, m, v4, v2, ns, t)
            == if v4 == 1 then c.(hist := v % U32)
               else if v4 == 2 then c.(hist := v % U32, hrepeat := Whole(ns[1]) % U32)
               else c.(word := v % U32)
  {
    hide ReadInto, Whole, SignExtend;
    ReadFew(hw, m, v4, v2, ns, t);
  }

  lemma ReadByCode(hw: HwCfg, m: Msg, v4: nat, v2: nat, ns: seq<Num>, t: uint64)
    requires m.tcode in {33, 34} && v4 < 16 && v2 < 4 && (hw.tsBits == 0 ==> t == 0)
    requires |VarFields(hw, SetCodes(m, v4, v2))| <= |ns|
    ensures var c := BLANK.(src := m.src, tcode := m.tcode, timestamp := t, code4 := v4, code2 := v2);
            var v := Whole(ns[0]);
            ReadInto(hw, m, v4, v2, ns, t)
            == if m.tcode == 33 then
                 c.(word := v % U32, hist := if v2 == 1 then Whole(ns[1]) % U32 else 0)
               else
                 c.(hist := v % U32, hrepeat := v / U32, data := if v2 > 0 then Whole(ns[1]) else 0)
  {
    hide ReadInto, Whole, SignExtend;
    ReadFew(hw, m, v4, v2, ns, t);
  }

  // Cutting a number in steps.
  lemma Cuts(r: nat)
    ensures r / 16 / 4 == r / 64 && r / 16 / 2 == r / 32
  {
  }

  lemma CutWords(r: nat)
    ensures r % U64 % U32 == r % U32 && r % U64 / U32 == r / U32 % U32
  {
    var q, low := r / U64, r % U64;
    assert r == low + U32 * (U32 * q);
    assert r / U32 == low / U32 + U32 * q;
  }

  // How TCODE and the fixed codes cut a number.
  ghost predicate CutAs(tcode: nat, r: nat, v4: nat, v2: nat, n: nat)
  {
    && (tcode in {3, 7, 30} ==> n == r)
    && (tcode in {4, 28} ==> v2 == r % 4 && n == r / 4)
    && (tcode in {8, 9, 11, 27} ==> v4 == r % 16 && n == r / 16)
    && (tcode in {12, 29, 33, 34} ==> v4 == r % 16 && v2 == r / 16 % 4 && n == r / 64)
    && (tcode == 2 ==> v4 == r % 16 && v2 == r / 16 % 2 && n == r / 32)
  }

  lemma CodesCut(m: Msg, r: nat)
    requires m.HasFields()
    ensures var w4, w2 := Code4Bits(m.tcode), Code2Bits(m.tcode);
            var v4, v2 := r % Pow2(w4), r / Pow2(w4) % Pow2(w2);
            v4 < 16 && v2 < 4 && CutAs(m.tcode, r, v4, v2, r / Pow2(w4) / Pow2(w2))
  {
    hide Pow2;
    SmallPowers();
    Cuts(r);
  }

  lemma FilledBranch(hw: HwCfg, m: Msg, r: nat, v4: nat, v2: nat, ns: seq<Num>, t: uint64)
    requires m.IsCommon() && v4 < 16 && v2 < 4 && (hw.tsBits == 0 ==> t == 0)
    requires |VarFields(hw, SetCodes(m, v4, v2))| <= |ns| && CutAs(m.tcode, r, v4, v2, ns[0].value)
    ensures |VarFields(hw, SetCodes(m, v4, v2))| == Count(m.tcode, r)
    ensures ReadInto(hw, m, v4, v2, ns, t)
            == Filled(hw, BLANK.(tcode := m.tcode, src := m.src, timestamp := t), r, ns)
  {
    hide SignExtend, ReadInto;
    ReadBranch(hw, m, v4, v2, ns, t);
    CutWords(ns[0].value);
    if |ns| > 2 { CutWords(ns[2].value); }
  }

  lemma WordsOf(n: Num)
    ensures var v := Whole(n);
            v == n.value % U64 && v % U32 == n.value % U32 && v / U32 == n.value / U32 % U32 && v % 8 == n.value % 8
  {
    CutWords(n.value);
    var q, low := n.value / U64, n.value % U64;
    assert n.value == low + 8 * (U64 / 8 * q);
  }

  lemma FilledOne(hw: HwCfg, m: Msg, r: nat, v4: nat, v2: nat, ns: seq<Num>, t: uint64)
    requires m.tcode in {2, 7, 8, 30} && v4 < 16 && v2 < 4 && (hw.tsBits == 0 ==> t == 0)
    requires |VarFields(hw, SetCodes(m, v4, v2))| <= |ns| && CutAs(m.tcode, r, v4, v2, ns[0].value)
    ensures |VarFields(hw, SetCodes(m, v4, v2))| == Count(m.tcode, r)
    ensures ReadInto(hw, m, v4, v2, ns, t)
            == Filled(hw, BLANK.(tcode := m.tcode, src := m.src, timestamp := t), r, ns)
  {
    hide SignExtend, ReadInto, Whole;
    WordsOf(ns[0]);
    if |ns| > 1 { WordsOf(ns[1]); }
    if m.tcode == 7 {
      ReadAcquisition(hw, m, v4, v2, ns, t);
    } else {
      ReadOneNumber(hw, m, v4, v2, ns, t);
    }
  }

  lemma FilledByCode(hw: HwCfg, m: Msg, r: nat, v4: nat, v2: nat, ns: seq<Num>, t: uint64)
    requires m.tcode in {27, 33, 34} && v4 < 16 && v2 < 4 && (hw.tsBits == 0 ==> t == 0)
    requires |VarFields(hw, SetCodes(m, v4, v2))| <= |ns| && CutAs(m.tcode, r, v4, v2, ns[0].value)
    ensures |VarFields(hw, SetCodes(m, v4, v2))| == Count(m.tcode, r)
    ensures ReadInto(hw, m, v4, v2, ns, t)
            == Filled(hw, BLANK.(tcode := m.tcode, src := m.src, timestamp := t), r, ns)
  {
    hide SignExtend, ReadInto, Whole;
    WordsOf(ns[0]);
    if |ns| > 1 { WordsOf(ns[1]); }
    if m.tcode == 27 {
      ReadResource(hw, m, v4, v2, ns, t);
    } else {
      ReadByCode(hw, m, v4, v2, ns, t);
    }
  }

  lemma FilledKnown(hw: HwCfg, m: Msg, c: Cursor)
    requires m.HasFields() && m.timestamp == 0
    requires DecodeKnown(hw, m, c).Ok? && DecodeKnown(hw, m, c).value.1 == []
    ensures var k, last := Count(m.tcode, c.rest), Numbers(c.tail);
            && k <= |last| + 1
            && Content(hw, DecodeKnown(hw, m, c).value.0)
               == Filled(hw, BLANK.(tcode := m.tcode, src := m.src,
                                    timestamp := if hw.tsBits > 0 && |last| >= k then last[|last| - 1].value % U64
                                                 else 0),
                         c.rest, [Num(c.rest, c.left)] + last)
  {
    hide DecodeKnown, DecodeCodes, VarFields, Numbers, Assigned, Pow2, Content, Filled, Cleared, SetCodes, CutAs, Count;
    KnownTold(hw, m, c);
    CodesTold(m, c);
    CodesCut(m, c.rest);
    var w4, w2 := Code4Bits(m.tcode), Code2Bits(m.tcode);
    var v4, v2 := c.rest % Pow2(w4), c.rest / Pow2(w4) % Pow2(w2);
    var c1 := DecodeCodes(m, c).value.1;
    var ns := [Num(c1.rest, c1.left)] + Numbers(c.tail);
    var k := |VarFields(hw, SetCodes(m, v4, v2))|;
    var t: uint64 := if hw.tsBits > 0 && |ns| > k then ns[|ns| - 1].value % U64 else 0;
    if m.IsCommon() {
      FilledBranch(hw, m, c.rest, v4, v2, ns, t);
    } else if m.tcode in {27, 33, 34} {
      FilledByCode(hw, m, c.rest, v4, v2, ns, t);
    } else {
      FilledOne(hw, m, c.rest, v4, v2, ns, t);
    }
    FilledTail(hw, BLANK.(tcode := m.tcode, src := m.src, timestamp := t), c.rest, ns,
               [Num(c.rest, c.left)] + Numbers(c.tail));
    assert ns[1..] == Numbers(c.tail);
  }

  // The first number counts through r alone.
  lemma FilledTail(hw: HwCfg, m: Msg, r: nat, a: seq<Num>, b: seq<Num>)
    requires |a| == |b| >= Count(m.tcode, r) && a[1..] == b[1..]
    ensures Filled(hw, m, r, a) == Filled(hw, m, r, b)
  {
    hide SignExtend;
    if |a| > 1 { assert a[1..][0] == a[1] && b[1..][0] == b[1]; }
    if |a| > 2 { assert a[1..][1] == a[2] && b[1..][1] == b[2]; }
  }

  // A message whose fields are known, from its first number on.
  lemma KnownMeaning(hw: HwCfg, ns: seq<Num>, m: Msg, c: Cursor)
    requires ns != [] && ns[1..] == Numbers(c.tail) && c.rest == Behind(hw, ns[0].value)
    requires m.tcode == ns[0].value % 64 && m.src == ns[0].value / 64 % Pow2(hw.srcBits) % 0x1_0000
    requires m.HasFields() && m.timestamp == 0
    requires DecodeKnown(hw, m, c).Ok? && DecodeKnown(hw, m, c).value.1 == []
    ensures Enough(hw, ns) && Content(hw, DecodeKnown(hw, m, c).value.0) == Meaning(hw, ns)
  {
    hide DecodeKnown, Pow2, Numbers, Filled, Count, Content, Behind;
    FilledKnown(hw, m, c);
    AtLeastOne(m.tcode, c.rest);
    var rest, r := Numbers(c.tail), c.rest;
    var k := Count(m.tcode, r);
    if |rest| >= k {
      assert ns[|ns| - 1] == ns[1..][|rest| - 1];
    }
    FilledTail(hw, BLANK.(tcode := m.tcode, src := m.src,
                          timestamp := if hw.tsBits > 0 && |rest| >= k then rest[|rest| - 1].value % U64 else 0),
               r, [Num(c.rest, c.left)] + rest, ns);
  }

  lemma WholeMeaning(hw: HwCfg, b: seq<byte>, prev: Msg)
    requires DecodeTail(hw, b, prev).Ok? && DecodeTail(hw, b, prev).value.1 == []
    ensures var ns := Numbers(b);
            && Enough(hw, ns)
            && Content(hw, DecodeTail(hw, b, prev).value.0) == Meaning(hw, ns)
  {
    hide Open, Low, High, Pow2, DecodeKnown, Numbers, SkipToEnd, Filled, Count;
    OpenNumbers(b);
    var c := Open(b).value;
    var n := c.rest;
    LowWords(n);
    LowIs(n / 64, hw.srcBits);
    NoneCounted();
    var m := prev.(timestamp := 0, tcode := n % 64);
    if !m.IsIdle() {
      var c2 := Cursor(Behind(hw, n), c.left - 6 - hw.srcBits, c.eom, c.tail);
      var m1 := m.(src := n / 64 % Pow2(hw.srcBits) % 0x1_0000);
      var ns := Numbers(b);
      assert ns[1..] == Numbers(c.tail);
      if m1.HasFields() {
        KnownMeaning(hw, ns, m1, c2);
      } else {
        UnknownFilled(hw, BLANK.(tcode := m1.tcode, src := m1.src), c2.rest, ns);
      }
    }
  }

  lemma NoneCounted()
    ensures forall r :: Count(63, r) == 1
  {
  }

  lemma AtLeastOne(tcode: nat, r: nat)
    ensures Count(tcode, r) >= 1
  {
  }

  lemma UnknownFilled(hw: HwCfg, m: Msg, r: nat, ns: seq<Num>)
    requires !m.HasFields() && ns != []
    ensures Count(m.tcode, r) == 1 && Filled(hw, m, r, ns) == m && !Stamped(m.tcode)
  {
  }

  /** What a decoded message says, whatever bytes it was decoded from, are the
      bits of the numbers those bytes hold, where its TCODE has them. */
  lemma DecodedMeaning(hw: HwCfg, b: seq<byte>, prev: Msg)
    requires Decode(hw, b, prev).Ok?
    ensures var (m, n) := Decode(hw, b, prev).value;
            && 0 < n <= |b|
            && var ns := Numbers(b[..n]);
               && Enough(hw, ns)
               && Content(hw, m) == Meaning(hw, ns)
  {
    hide DecodeTail, Pow2, Numbers, Content, Meaning, Enough;
    var (m, n) := Decode(hw, b, prev).value;
    CodecFraming.DecodeEndsAtSync(hw, b, prev);
    CodecFraming.SelfDelimiting(hw, b, prev, []);
    assert b[..n] + [] == b[..n];
    assert |b[..n]| - |DecodeTail(hw, b[..n], prev).value.1| == n;
    WholeMeaning(hw, b[..n], prev);
  }
}
