// What a message stream says about the run it traces, independently of how a
// client asks for it: a list of segments, each with the instructions and the
// branch outcomes that lead up to one event.
module TraceSemantics {
  import opened Bits
  import opened Results
  import opened MsgTypes
  import Codec
  import Stream

  const ICNT_MAX: nat := 0x3F_FFFF
  const HREPEAT_MAX: nat := 0x3_FFFF

  // PROCESS, if the message right after an indirect branch carries it.
  datatype Ownership = NoOwner | Owner(fmt: uint2, priv: uint2, v: bool, context: uint64) | Broken(error: Error)

  datatype Close =
    | Direct
    | DirectSync
    | Indirect(btype: uint2, target: uint64, owner: Ownership)
    | IndirectSync(btype: uint2, target: uint64, owner: Ownership)
    | Sync(code: uint4, addr: uint64)
    | Stop(evcode: uint4)
    | Fault(etype: uint4, ecode: uint32)
    | Other

  /** A segment: icnt half-words of instructions, the outcomes of the branches
      among them, the event that follows, the time once it is taken, and the
      rest of the trace. The stream ends inside the last segment. */
  datatype Trace =
    | Seg(icnt: nat, tnts: seq<bool>, close: Close, time: uint64, next: Trace)
    | Open(icnt: nat, tnts: seq<bool>, halt: Error)

  // An element of the queue of branch histories: a history and how often it
  // repeats, or, with history zero, a timestamp alone.
  datatype Elem = Elem(hist: uint32, repeat: uint32, timestamp: uint64)

  // ---- Histories ----

  // The outcomes below the leading bit, most significant first.
  function Tnts(hist: nat): (s: seq<bool>)
  {
    if hist < 2 then [] else Tnts(hist / 2) + [hist % 2 == 1]
  }

  lemma {:induction false} TntsLength(hist: uint32)
    ensures |Tnts(hist)| == HistBits(hist) < 32
  {
    Pow2Words();
    BitLenBound(hist, 32);
    TntsBits(hist);
  }

  lemma {:induction false} TntsBits(hist: nat)
    ensures |Tnts(hist)| == if hist == 0 then 0 else BitLen(hist) - 1
  {
    if hist >= 2 { TntsBits(hist / 2); }
  }

  // The outcome the decoder picks with its mask.
  lemma {:induction false} TntAt(hist: nat, i: nat)
    requires i < |Tnts(hist)|
    ensures Tnts(hist)[i] == Bit(hist, |Tnts(hist)| - 1 - i)
  {
    if i < |Tnts(hist)| - 1 {
      TntAt(hist / 2, i);
    }
  }

  function Rep(s: seq<bool>, n: nat): (r: seq<bool>)
  {
    if n == 0 then [] else s + Rep(s, n - 1)
  }

  function Expand(es: seq<Elem>): seq<bool>
  {
    if es == [] then [] else Rep(Tnts(es[0].hist), es[0].repeat) + Expand(es[1..])
  }

  // ---- Time ----

  // One timestamp folded in: XOR-ed or added.
  function Tick(hw: HwCfg, t: uint64, delta: uint64): uint64
  {
    if hw.quirkSifive then
      Pow2Words();
      XorBound(t, delta, 64);
      Xor(t, delta)
    else (t + delta) % U64
  }

  // The time after an element is used up. An XOR delta counts once however
  // often the element repeats; an added one counts every time.
  function TimeAfter(hw: HwCfg, t: uint64, e: Elem): uint64
  {
    if hw.quirkSifive then Tick(hw, t, e.timestamp) else (t + e.repeat * e.timestamp) % U64
  }

  function TimeOf(hw: HwCfg, t: uint64, es: seq<Elem>): uint64
    decreases es
  {
    if es == [] then t else TimeOf(hw, TimeAfter(hw, t, es[0]), es[1..])
  }

  // ---- Messages ----

  predicate Accepted(m: Msg)
  {
    && m.Known() && m.tcode != DATA_ACQUISITION
    && (m.HasIcnt() ==> m.word <= ICNT_MAX)
    && (m.HasHist() ==> m.hist != 0 && m.hrepeat <= HREPEAT_MAX)
  }

  function Icnt(m: Msg): nat { if m.HasIcnt() then m.word else 0 }

  function Hists(m: Msg): seq<bool> { if m.HasHist() then Tnts(m.hist) else [] }

  // What a ResourceFull message adds to the queue.
  function Resource(hw: HwCfg, m: Msg): Option<Elem>
    requires m.IsRes()
  {
    if m.HasIcnt() then Some(Elem(0, 1, m.timestamp))
    else if m.HasHist() then Some(Elem(m.hist, if m.hrepeat != 0 then m.hrepeat else 1, m.timestamp))
    else if hw.quirkSifive && (m.code4 == 8 || m.code4 == 9) && m.word != 0 then
      Some(Elem(if m.code4 == 8 then 2 else 3, m.word, m.timestamp))
    else None
  }

  // Bits above the address width repeat the top bit of the address.
  function Target(hw: HwCfg, fullAddr: uint64): uint64
  {
    Codec.SignExtend(fullAddr * 2 % U64, hw.addrBits)
  }

  function XorAddr(a: uint64, b: uint64): uint64
  {
    Pow2Words();
    XorBound(a, b, 64);
    Xor(a, b)
  }

  function HaltOf(end: Stream.End): Error
  {
    if end.Failed? then end.error else TraceEof
  }

  // An ownership message right after an indirect branch belongs to it.
  function LookOwner(s: seq<Msg>, end: Stream.End): (Ownership, seq<Msg>)
  {
    if s == [] then (if end.Failed? then Broken(end.error) else NoOwner, s)
    else if s[0].tcode == OWNERSHIP then
      (Owner(s[0].code4 % 4, s[0].code4 / 4, s[0].code2 % 2 == 1, s[0].data), s[1..])
    else (NoOwner, s)
  }

  // A branch message whose delta has been folded in and whose address delta
  // has been applied, for the next time it repeats.
  function Repeated(hw: HwCfg, m: Msg): Msg
    requires m.hrepeat > 0
  {
    m.(hrepeat := m.hrepeat - 1,
       timestamp := if hw.quirkSifive then 0 else m.timestamp,
       data := if m.IsIndirect() then 0 else m.data)
  }

  // ---- Segments ----

  /** The trace from a closing message m on, of which hrepeat repeats are left:
      icnt, tnts, time and addr come from what precedes it. A sync branch is
      followed by a sync event of its own; after a stop or an error everything
      up to the next sync is lost. */
  function Closing(hw: HwCfg, icnt: nat, tnts: seq<bool>, time: uint64, addr: uint64, m: Msg, s: seq<Msg>,
                   end: Stream.End): Trace
    requires !m.IsRes()
    decreases 2 * |s| + 1, m.hrepeat
  {
    var i, b, t := icnt + Icnt(m), tnts + Hists(m), Tick(hw, time, m.timestamp);
    if m.IsSync() then
      var (owner, s1) := if m.IsIndirect() then LookOwner(s, end) else (NoOwner, s);
      var after := SegsFrom(hw, 0, [], m.timestamp, m.data, s1, end);
      var sync := Sync(m.code4, Target(hw, m.data));
      if !m.IsBranch() then Seg(i, b, sync, m.timestamp, after)
      else
        Seg(i, b, if m.IsIndirect() then IndirectSync(m.code2, Target(hw, m.data), owner) else DirectSync,
            m.timestamp, Seg(0, [], sync, m.timestamp, after))
    else if m.IsBranch() then
      var addr1 := if m.IsIndirect() then XorAddr(addr, m.data) else addr;
      var (owner, s1) := if m.IsIndirect() then LookOwner(s, end) else (NoOwner, s);
      Seg(i, b, if m.IsIndirect() then Indirect(m.code2, Target(hw, addr1), owner) else Direct, t,
          if m.hrepeat > 0 then Closing(hw, 0, [], t, addr1, Repeated(hw, m), s1, end)
          else SegsFrom(hw, 0, [], t, addr1, s1, end))
    else if m.IsStop() then Seg(i, b, Stop(m.code4), t, Resync(hw, s, end))
    else if m.IsError() then Seg(i, b, Fault(m.code4, m.word), t, Resync(hw, s, end))
    else Seg(i, b, Other, 0, Open(0, [], TraceEof))
  }

  // The trace of a stream, after some ResourceFull messages.
  function SegsFrom(hw: HwCfg, icnt: nat, tnts: seq<bool>, time: uint64, addr: uint64, s: seq<Msg>,
                    end: Stream.End): Trace
    decreases 2 * |s|, 0
  {
    if s == [] then Open(icnt, tnts, HaltOf(end))
    else if !Accepted(s[0]) then Open(icnt, tnts, Unsupported)
    else if s[0].IsRes() then
      match Resource(hw, s[0])
      case None => Open(icnt, tnts, Unsupported)
      case Some(e) =>
        SegsFrom(hw, icnt + Icnt(s[0]), tnts + Rep(Tnts(e.hist), e.repeat), TimeAfter(hw, time, e), addr, s[1..], end)
    else if s[0].IsBranch() && !s[0].IsSync() then
      if |s| > 1 && s[1].tcode == REPEAT_BRANCH then
        Closing(hw, icnt, tnts, time, addr, s[0].(hrepeat := s[1].hrepeat), s[2..], end)
      else if |s| == 1 && end.Failed? then Open(icnt, tnts, end.error)
      else Closing(hw, icnt, tnts, time, addr, s[0].(hrepeat := 0), s[1..], end)
    else Closing(hw, icnt, tnts, time, addr, s[0], s[1..], end)
  }

  // The trace from the next sync message on, which only says where it is.
  function Resync(hw: HwCfg, s: seq<Msg>, end: Stream.End): Trace
    decreases 2 * |s|, 0
  {
    if s == [] then Open(0, [], HaltOf(end))
    else if !Accepted(s[0]) then Open(0, [], Unsupported)
    else if s[0].IsSync() then
      Seg(0, [], Sync(s[0].code4, Target(hw, s[0].data)), s[0].timestamp,
          SegsFrom(hw, 0, [], s[0].timestamp, s[0].data, s[1..], end))
    else Resync(hw, s[1..], end)
  }

  // ---- Partly consumed segments ----

  // The head segment after i of its instructions and b of its outcomes.
  function Less(t: Trace, i: nat, b: nat): Trace
  {
    if i <= t.icnt && b <= |t.tnts| then t.(icnt := t.icnt - i, tnts := t.tnts[b..]) else t
  }
}
