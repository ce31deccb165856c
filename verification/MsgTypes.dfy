// Messages as the library lays them out in memory, and the tables that say
// which fields a message of each kind carries.
module MsgTypes {
  import opened Bits

  type uint2 = n: nat | n < 4
  type uint4 = n: nat | n < 16
  type uint8 = n: nat | n < 256
  type uint16 = n: nat | n < 0x1_0000
  type uint32 = n: nat | n < U32
  type uint64 = n: nat | n < U64

  datatype Hardware = Hardware(
    srcBits: nat, tsBits: nat, addrBits: nat, maxStack: uint32, vao: bool, quirkSifive: bool)

  // SRC is kept in 16 bits, and a width of zero address bits has no top bit.
  type HwCfg = hw: Hardware | hw.srcBits <= 16 && 0 < hw.addrBits
    witness Hardware(0, 0, 64, 32, false, false)

  const OWNERSHIP: uint8 := 2
  const DIRECT_BRANCH: uint8 := 3
  const INDIRECT_BRANCH: uint8 := 4
  const DATA_ACQUISITION: uint8 := 7
  const ERROR: uint8 := 8
  const PROG_TRACE_SYNC: uint8 := 9
  const DIRECT_BRANCH_SYNC: uint8 := 11
  const INDIRECT_BRANCH_SYNC: uint8 := 12
  const RESOURCE_FULL: uint8 := 27
  const INDIRECT_BRANCH_HIST: uint8 := 28
  const INDIRECT_BRANCH_HIST_SYNC: uint8 := 29
  const REPEAT_BRANCH: uint8 := 30
  const PROG_TRACE_CORRELATION: uint8 := 33
  const ICT: uint8 := 34
  const IDLE: uint8 := 63

  /** One message. The structure overlays its alternatives, so each field here
      is one storage slot and stands for every name the source gives it:
      `code4` is SYNC, ETYPE, RCODE, EVCODE, CKSRC, the first four bits of
      PROCESS or, in its low three bits, IDTAG; `code2` is B-TYPE, CDF, CKDF or,
      in its low bit, PROCESS.V; `word` is I-CNT, ECODE or RDATA; `hist` and
      `hrepeat` together are CKDATA0; `data` is X-ADDR, CONTEXT, DQDATA or CKDATA1. */
  datatype Msg = Msg(
    timestamp: uint64, src: uint16, tcode: uint8, code4: uint4, code2: uint2,
    word: uint32, hist: uint32, hrepeat: uint32, data: uint64)
  {
    predicate IsIdle() { tcode == IDLE }

    predicate IsRes() { tcode == RESOURCE_FULL }

    predicate IsError() { tcode == ERROR }

    predicate IsStop() { tcode == PROG_TRACE_CORRELATION }

    predicate IsIndirect() {
      (tcode == INDIRECT_BRANCH || tcode == INDIRECT_BRANCH_SYNC || tcode == INDIRECT_BRANCH_HIST
       || tcode == INDIRECT_BRANCH_HIST_SYNC)
    }

    predicate IsBranch() {
      (tcode == DIRECT_BRANCH || tcode == DIRECT_BRANCH_SYNC) || IsIndirect()
    }

    predicate IsSync() {
      (tcode == DIRECT_BRANCH_SYNC || tcode == INDIRECT_BRANCH_SYNC || tcode == INDIRECT_BRANCH_HIST_SYNC
       || tcode == PROG_TRACE_SYNC)
    }

    // The kinds that share the common branch layout.
    predicate IsCommon() {
      IsBranch() || tcode == PROG_TRACE_SYNC
    }

    predicate HasXaddr() {
      IsIndirect() || (tcode == DIRECT_BRANCH_SYNC || tcode == PROG_TRACE_SYNC)
    }

    predicate HasIcnt() {
      if IsRes() then code4 == 0 else IsCommon() || IsStop()
    }

    predicate HasHist() {
      if IsRes() then code4 == 1 || code4 == 2
      else if IsStop() then code2 == 1
      else (tcode == INDIRECT_BRANCH_HIST || tcode == INDIRECT_BRANCH_HIST_SYNC)
    }

    predicate Known() {
      if IsStop() then code2 < 2
      else if tcode == ICT then code4 < 2
      else
        || IsCommon()
        || (tcode == IDLE || tcode == RESOURCE_FULL || tcode == REPEAT_BRANCH || tcode == ERROR
            || tcode == DATA_ACQUISITION || tcode == OWNERSHIP)
    }

    // The kinds whose fields the decoder reads beyond SRC.
    predicate HasFields() {
      || IsCommon()
      || (tcode == OWNERSHIP || tcode == ERROR || tcode == DATA_ACQUISITION || tcode == RESOURCE_FULL
          || tcode == REPEAT_BRANCH || tcode == PROG_TRACE_CORRELATION || tcode == ICT)
    }

    predicate Encodable() {
      Known() && tcode != DATA_ACQUISITION && (tcode == ICT ==> code2 <= 1)
    }
  }

  const BLANK: Msg := Msg(0, 0, IDLE, 0, 0, 0, 0, 0, 0)

  // Number of TNTs in a HIST: all bits below the leading one.
  function HistBits(hist: uint32): nat
  {
    if hist == 0 then 0 else BitLen(hist) - 1
  }

  // ---- Layout ----

  // The storage a variable-length field is kept in.
  datatype Slot = Word | Hist | Repeat | Data | Check0 | IdTag

  datatype VarField = VarField(slot: Slot, required: bool, vao: bool)

  function Req(slot: Slot): VarField { VarField(slot, true, false) }

  function Opt(slot: Slot): VarField { VarField(slot, false, false) }

  function SlotBits(slot: Slot): nat
  {
    match slot
    case Word | Hist | Repeat => 32
    case Data | Check0 => 64
    case IdTag => 3
  }

  function Get(m: Msg, slot: Slot): nat
  {
    match slot
    case Word => m.word
    case Hist => m.hist
    case Repeat => m.hrepeat
    case Data => m.data
    case Check0 => m.hist + U32 * m.hrepeat
    case IdTag => m.code4 % 8
  }

  function Set(m: Msg, slot: Slot, v: uint64): Msg
  {
    match slot
    case Word => m.(word := v % U32)
    case Hist => m.(hist := v % U32)
    case Repeat => m.(hrepeat := v % U32)
    case Data => m.(data := v)
    case Check0 => m.(hist := v % U32, hrepeat := v / U32)
    case IdTag => m.(code4 := m.code4 / 8 * 8 + v % 8)
  }

  // Widths of the fixed fields after SRC: those kept in code4, then code2.
  function Code4Bits(tcode: uint8): (w: nat)
    ensures w <= 4
  {
    if (tcode == DIRECT_BRANCH_SYNC || tcode == INDIRECT_BRANCH_SYNC || tcode == INDIRECT_BRANCH_HIST_SYNC
        || tcode == PROG_TRACE_SYNC || tcode == OWNERSHIP || tcode == ERROR || tcode == RESOURCE_FULL
        || tcode == PROG_TRACE_CORRELATION || tcode == ICT) then 4 else 0
  }

  function Code2Bits(tcode: uint8): (w: nat)
    ensures w <= 2
  {
    if tcode == OWNERSHIP then 1
    else if (tcode == INDIRECT_BRANCH || tcode == INDIRECT_BRANCH_SYNC || tcode == INDIRECT_BRANCH_HIST
             || tcode == INDIRECT_BRANCH_HIST_SYNC || tcode == PROG_TRACE_CORRELATION || tcode == ICT) then 2
    else 0
  }

  // The variable-length fields the decoder reads; the first one ends the group
  // that holds the fixed fields, each other one is a group of its own.
  function VarFields(hw: HwCfg, m: Msg): (fs: seq<VarField>)
    ensures m.HasFields() ==> 1 <= |fs| <= 3
    ensures forall i :: 0 < i < |fs| ==> fs[i].required
    ensures |fs| > 0 ==> !fs[0].vao
  {
    if m.IsCommon() then
      [Req(Word)]
      + (if m.HasXaddr() then [VarField(Data, true, hw.vao)] else [])
      + (if m.HasHist() then [Req(Hist)] else [])
    else if m.tcode == OWNERSHIP then [Opt(Data)]
    else if m.tcode == ERROR then [Opt(Word)]
    else if m.tcode == DATA_ACQUISITION then [Req(IdTag), Req(Data)]
    else if m.tcode == RESOURCE_FULL then
      if m.code4 > 2 then [Opt(Word)]
      else if m.code4 == 0 then [Req(Word)]
      else if m.code4 == 1 then [Req(Hist)]
      else [Req(Hist), Req(Repeat)]
    else if m.tcode == REPEAT_BRANCH then [Req(Repeat)]
    else if m.tcode == PROG_TRACE_CORRELATION then
      [Req(Word)] + (if m.code2 == 1 then [Req(Hist)] else [])
    else if m.tcode == ICT then
      [Req(Check0)] + (if m.code2 > 0 then [Req(Data)] else [])
    else []
  }

  // The encoder writes CKDATA1 whatever CKDF says; otherwise it writes what
  // the decoder reads.
  function EncodedFields(hw: HwCfg, m: Msg): seq<VarField>
  {
    if m.tcode == ICT then [Req(Check0), Req(Data)] else VarFields(hw, m)
  }

  // Slots the decoder zeroes before it reads the variable-length fields.
  function Cleared(m: Msg): Msg
  {
    if m.IsCommon() then m.(hrepeat := 0)
    else if m.tcode == PROG_TRACE_CORRELATION || (m.IsRes() && m.code4 <= 2) then
      m.(word := 0, hist := 0, hrepeat := 0)
    else m
  }

  // ---- What a message says ----

  // The message with the listed slots taken from m.
  function CopySlots(fs: seq<VarField>, m: Msg, into: Msg): Msg
  {
    if fs == [] then into
    else CopySlots(fs[1..], m, Set(into, fs[0].slot, Get(m, fs[0].slot)))
  }

  lemma CodesFit(m: Msg)
    ensures Low(m.code4, Code4Bits(m.tcode)) == if Code4Bits(m.tcode) == 4 then m.code4 else 0
    ensures Low(m.code2, Code2Bits(m.tcode)) ==
            if Code2Bits(m.tcode) == 2 then m.code2 else if Code2Bits(m.tcode) == 1 then m.code2 % 2 else 0
  {
    assert Pow2(4) == 16 && Pow2(2) == 4;
    LowSmall(m.code4, 4);
    LowSmall(m.code2, 2);
  }

  // The fixed part of what m carries.
  function HeadContent(hw: HwCfg, m: Msg): Msg
  {
    CodesFit(m);
    BLANK.(src := m.src, tcode := m.tcode,
           timestamp := if hw.tsBits > 0 then m.timestamp else 0,
           code4 := Low(m.code4, Code4Bits(m.tcode)),
           code2 := Low(m.code2, Code2Bits(m.tcode)))
  }

  // m with every bit its kind does not carry set to zero: two messages say the
  // same when their contents are equal.
  function Content(hw: HwCfg, m: Msg): Msg
  {
    if m.IsIdle() then BLANK
    else if m.HasFields() then CopySlots(VarFields(hw, m), m, HeadContent(hw, m))
    else BLANK.(src := m.src, tcode := m.tcode)
  }
}
