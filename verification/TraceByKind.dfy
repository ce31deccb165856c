// What each kind of message means for a client, written out per TCODE and by
// bits, without the predicates the trace semantics is built from.
module TraceByKind {
  import opened Bits
  import opened Results
  import opened MsgTypes
  import opened TraceSemantics
  import opened TraceSteps
  import opened TraceRuns
  import Codec
  import Stream
  import WireFormat

  // ---- Words by their bits ----

  lemma BitIs(v: nat, k: nat)
    ensures Bit(v, k) <==> v / Pow2(k) % 2 == 1
  {
    hide High, Pow2;
    WireFormat.LowIs(v, k);
  }

  lemma {:induction false} XorIs(a: nat, b: nat, k: nat)
    ensures Bit(Xor(a, b), k) <==> Bit(a, k) != Bit(b, k)
  {
    XorHalf(a, b);
    if k > 0 {
      XorIs(a / 2, b / 2, k - 1);
    }
  }

  lemma BitLenIs(v: nat)
    requires v > 0
    ensures BitLen(v) > 0 && Pow2(BitLen(v) - 1) <= v < Pow2(BitLen(v))
  {
    BitLenBound(v, BitLen(v));
    BitLenBound(v, BitLen(v) - 1);
  }

  // Sign extension sets the bits above a set top bit, and changes none else.
  lemma SignIs(v: uint64, bits: nat, k: nat)
    requires k < 64
    ensures Bit(Codec.SignExtend(v, bits), k) <==> Bit(v, k) || (0 < bits <= k && Bit(v, bits - 1))
  {
    hide Low, High, Pow2, Bit;
    if 0 < bits < 64 && Bit(v, bits - 1) {
      Pow2Words();
      Pow2Add(bits, 64 - bits);
      var ones := Pow2(64 - bits) - 1;
      MulPlus(Pow2(bits), ones, 1);
      var x := Low(v, bits) + Pow2(bits) * ones;
      assert Codec.SignExtend(v, bits) == x;
      LowHigh(v, bits);
      if k < bits {
        SameLowBit(Low(v, bits), ones, High(v, bits), bits, k);
      } else {
        Split(Low(v, bits), ones, bits);
        HighBit(x, bits, k - bits);
        OnesBit(64 - bits, k - bits);
      }
    } else if 0 < bits <= k {
      assert bits < 64;
    }
  }

  lemma HighBit(v: nat, bits: nat, k: nat)
    ensures Bit(v, bits + k) == Bit(High(v, bits), k)
  {
    HighHigh(v, bits, k);
  }

  lemma {:induction false} OnesBit(n: nat, k: nat)
    requires k < n
    ensures Bit(Pow2(n) - 1, k)
  {
    assert Pow2(n) - 1 == 2 * (Pow2(n - 1) - 1) + 1;
    if k > 0 {
      assert (Pow2(n) - 1) / 2 == Pow2(n - 1) - 1;
      OnesBit(n - 1, k - 1);
    }
  }

  lemma {:induction false} SameLowBit(low: nat, a: nat, b: nat, n: nat, k: nat)
    requires k < n
    ensures Bit(low + Pow2(n) * a, k) == Bit(low + Pow2(n) * b, k)
  {
    var p := Pow2(n - 1);
    MulAssoc(2, p, a);
    MulAssoc(2, p, b);
    assert (low + 2 * (p * a)) / 2 == low / 2 + p * a && (low + 2 * (p * b)) / 2 == low / 2 + p * b;
    if k > 0 {
      SameLowBit(low / 2, a, b, n - 1, k - 1);
    }
  }

  // ---- Histories ----

  // The bits below the top one, from the top down.
  ghost predicate OutcomesOf(hist: nat, s: seq<bool>)
  {
    if hist < 2 then s == []
    else
      && Pow2(|s|) <= hist < Pow2(|s| + 1)
      && forall k :: 0 <= k < |s| ==> (s[k] <==> hist / Pow2(|s| - 1 - k) % 2 == 1)
  }

  lemma HistoryIs(hist: uint32)
    ensures OutcomesOf(hist, Tnts(hist))
  {
    hide Bit, Pow2, BitLen;
    TntsBits(hist);
    if hist >= 2 {
      BitLenIs(hist);
      var s := Tnts(hist);
      forall k | 0 <= k < |s| ensures s[k] <==> hist / Pow2(|s| - 1 - k) % 2 == 1 {
        TntAt(hist, k);
        BitIs(hist, |s| - 1 - k);
      }
    }
  }

  // s over and over, n times.
  ghost predicate Copies(s: seq<bool>, n: nat, all: seq<bool>)
  {
    |all| == |s| * n && forall k :: 0 <= k < |all| && s != [] ==> all[k] == s[k % |s|]
  }

  lemma {:induction false} RepIs(s: seq<bool>, n: nat)
    ensures Copies(s, n, Rep(s, n))
  {
    if n > 0 {
      RepIs(s, n - 1);
      var rest, all := Rep(s, n - 1), Rep(s, n);
      assert all == s + rest;
      assert |s| * n == |s| + |s| * (n - 1);
      forall k | 0 <= k < |all| && s != [] ensures all[k] == s[k % |s|] {
        if k < |s| {
          Within(k, |s|);
        } else {
          assert all[k] == rest[k - |s|];
          OneTurn(k - |s|, |s|);
        }
      }
    }
  }

  lemma Within(k: nat, d: nat)
    requires k < d
    ensures k % d == k
  {
  }

  lemma OneTurn(k: nat, d: nat)
    requires d > 0
    ensures (k + d) % d == k % d
  {
    var q, r := k / d, k % d;
    assert k + d == r + d * (q + 1);
    WireFormat.DivideBy(k + d, d, q + 1, r);
  }

  // ---- The kinds, by TCODE ----

  /** Which TCODE is of which kind, and what the decoder takes: I-CNT in 22 bits
      and a HIST other than zero, of the messages that carry them. */
  lemma KindsAre(m: Msg)
    ensures m.IsBranch() <==> m.tcode in {3, 4, 11, 12, 28, 29}
    ensures m.IsIndirect() <==> m.tcode in {4, 12, 28, 29}
    ensures m.IsSync() <==> m.tcode in {9, 11, 12, 29}
    ensures m.IsCommon() <==> m.tcode in {3, 4, 9, 11, 12, 28, 29}
    ensures (m.IsRes() <==> m.tcode == 27) && (m.IsStop() <==> m.tcode == 33) && (m.IsError() <==> m.tcode == 8)
    ensures m.HasXaddr() <==> m.tcode in {4, 9, 11, 12, 28, 29}
    ensures m.HasIcnt() <==> m.tcode in {3, 4, 9, 11, 12, 28, 29, 33} || (m.tcode == 27 && m.code4 == 0)
    ensures m.HasHist() <==>
              m.tcode in {28, 29} || (m.tcode == 27 && m.code4 in {1, 2}) || (m.tcode == 33 && m.code2 == 1)
    ensures m.Known() <==>
              || m.tcode in {2, 3, 4, 7, 8, 9, 11, 12, 27, 28, 29, 30, 63}
              || (m.tcode == 33 && m.code2 in {0, 1}) || (m.tcode == 34 && m.code4 in {0, 1})
    ensures Accepted(m) <==>
              && m.Known() && m.tcode != 7
              && (m.HasIcnt() ==> m.word < 0x40_0000)
              && (m.HasHist() ==> m.hist != 0 && m.hrepeat < 0x4_0000)
  {
  }

  /** The tables of the wire and the predicates of the trace agree on what a
      message carries. */
  lemma CarriedIs(hw: HwCfg, m: Msg)
    requires m.HasFields()
    ensures Req(Word) in VarFields(hw, m) <==> m.HasIcnt()
    ensures Req(Hist) in VarFields(hw, m) <==> m.HasHist()
    ensures m.IsCommon() ==> (VarField(Data, true, hw.vao) in VarFields(hw, m) <==> m.HasXaddr())
  {
  }

  // ---- The segment a message closes ----

  // The outcomes it adds.
  function OutcomesIn(m: Msg): seq<bool>
  {
    if m.tcode == 28 || m.tcode == 29 || (m.tcode == 33 && m.code2 == 1) then Tnts(m.hist) else []
  }

  // A time and a delta after it.
  function TimeThen(hw: HwCfg, t: uint64, delta: uint64): uint64
  {
    Pow2Words();
    XorBound(t, delta, 64);
    if hw.quirkSifive then Xor(t, delta) else (t + delta) % U64
  }

  /** Its I-CNT and its history count for every kind that has them, TCODE by
      TCODE; a sync brings its own time, the others a difference. */
  lemma ClosesBy(hw: HwCfg, i: nat, b: seq<bool>, t: uint64, a: uint64, m: Msg, s: seq<Msg>, end: Stream.End)
    requires m.tcode != 27
    ensures var g := Closing(hw, i, b, t, a, m, s, end);
            && g.Seg?
            && g.icnt == i + (if m.tcode in {3, 4, 9, 11, 12, 28, 29, 33} then m.word else 0)
            && g.tnts == b + OutcomesIn(m)
            && (m.tcode in {9, 11, 12, 29} ==> g.time == m.timestamp)
            && (m.tcode in {3, 4, 8, 28, 33} ==> g.time == TimeThen(hw, t, m.timestamp))
  {
    hide Xor, Target, XorAddr, LookOwner, SegsFrom, Resync, Repeated, Tnts;
  }

  // The event it is reported as, once its instructions and outcomes are used up.
  function EventBy(m: Msg): Event
  {
    match m.tcode
    case 3 => DirectEvent
    case 11 => DirectSyncEvent
    case 4 | 28 => if m.code2 == 0 then IndirectEvent else TrapEvent
    case 12 | 29 => if m.code2 == 0 then IndirectSyncEvent else TrapEvent
    case 9 => SyncEvent
    case 33 => StopEvent
    case 8 => ErrorEvent
    case _ => NoEvent
  }

  function Spent(g: Trace): State
  {
    State(Less(g, g.icnt, |g.tnts|), true)
  }

  /** What is reported of a message: its event by TCODE and B-TYPE, and while
      outcomes are left a direct branch, unless it is an error. */
  lemma ReportedBy(hw: HwCfg, i: nat, b: seq<bool>, t: uint64, a: uint64, m: Msg, s: seq<Msg>, end: Stream.End,
                   k: nat, n: uint32)
    requires m.tcode != 27
    ensures var g := Closing(hw, i, b, t, a, m, s, end);
            && RetireStep(Spent(g), n) == Move(Retired(0, EventBy(m)), Spent(g), false)
            && (k < |g.tnts| ==>
                  var left := State(Less(g, g.icnt, k), true);
                  RetireStep(left, n)
                  == Move(Retired(0, if m.tcode == 8 then ErrorEvent else DirectEvent), left, false))
  {
    hide Tick, Target, XorAddr, LookOwner, SegsFrom, Resync, Repeated, Tnts;
    var g := Closing(hw, i, b, t, a, m, s, end);
    LessSize(g, g.icnt, |g.tnts|);
    LessNone(Less(g, g.icnt, |g.tnts|));
    if k < |g.tnts| {
      LessSize(g, g.icnt, k);
      LessNone(Less(g, g.icnt, k));
    }
  }

  // However much is asked for, what is retired is that, half the 32-bit range,
  // or what is left of the segment.
  lemma RetiresBy(s: State, n: uint32)
    requires s.synced && RetireStep(s, n).answer.Retired?
    ensures var k := RetireStep(s, n).answer.icnt;
            && k <= n && k <= 0x7FFF_FFFF && k <= s.trace.icnt
            && (k == n || k == 0x7FFF_FFFF || k == s.trace.icnt)
  {
  }

  /** What a client is told when it takes the event. */
  lemma AnsweredBy(hw: HwCfg, i: nat, b: seq<bool>, t: uint64, a: uint64, m: Msg, s: seq<Msg>, end: Stream.End)
    requires m.tcode != 27 && m.tcode !in {4, 12, 28, 29}
    ensures var move := TakeStep(Spent(Closing(hw, i, b, t, a, m, s, end)));
            && move.answer == (if m.tcode == 3 || m.tcode == 11 then Outcome(true)
                               else if m.tcode == 9 then SyncedAt(m.code4, Target(hw, m.data))
                               else if m.tcode == 33 then Stopped(m.code4)
                               else if m.tcode == 8 then Faulted(m.code4, m.word)
                               else Nothing)
            && (m.tcode in {3, 8, 9, 11, 33} ==> move.closed && (move.after.synced <==> m.tcode !in {8, 33}))
  {
    hide Tick, Target, XorAddr, LookOwner, SegsFrom, Resync, Repeated, Tnts;
    var g := Closing(hw, i, b, t, a, m, s, end);
    LessSize(g, g.icnt, |g.tnts|);
    LessNone(Less(g, g.icnt, |g.tnts|));
  }

  // ---- Indirect branches ----

  /** The address of a full X-ADDR: twice it, cut to 64 bits, and with the bits
      from the address width on set if the bit below is. */
  lemma TargetIs(hw: HwCfg, x: uint64, k: nat)
    requires k < 64
    ensures var v := 2 * x % U64;
            Bit(Target(hw, x), k) <==> Bit(v, k) || (hw.addrBits <= k && Bit(v, hw.addrBits - 1))
  {
    hide Bit;
    SignIs(x * 2 % U64, hw.addrBits, k);
  }

  // The bits of PROCESS: format, privilege, V and, above them, CONTEXT.
  function Process(o: Msg): nat
  {
    o.code4 + 16 * (o.code2 % 2 + 2 * o.data)
  }

  function OwnerBy(p: nat): Ownership
  {
    Owner(p % 4, p / 4 % 4, p / 16 % 2 == 1, p / 32 % U64)
  }

  lemma OwnerBits(o: Msg)
    ensures OwnerBy(Process(o)) == Owner(o.code4 % 4, o.code4 / 4, o.code2 % 2 == 1, o.data)
  {
  }

  // The messages behind a branch and its repeat count.
  function BehindBranch(m: Msg, s: seq<Msg>): seq<Msg>
  {
    if m.tcode in {4, 28} && s != [] && s[0].tcode == 30 then s[1..] else s
  }

  // The indirect branch itself.
  lemma IndirectClosed(hw: HwCfg, i: nat, b: seq<bool>, t: uint64, a: uint64, m: Msg, s: seq<Msg>, end: Stream.End)
    requires m.tcode in {4, 12, 28, 29}
    ensures var g := Closing(hw, i, b, t, a, m, s, end);
            var move := TakeStep(Spent(g));
            && g.Seg? && move.closed && move.after == State(g.next, true)
            && if s == [] && end.Failed? then move.answer == Refused(end.error)
               else
                 && move.answer.Went?
                 && var to := move.answer.to;
                    && to.target == Target(hw, if m.tcode in {12, 29} then m.data else XorAddr(a, m.data))
                    && (to.interrupt <==> m.code2 == 1 || m.code2 == 3)
                    && (to.exception <==> m.code2 == 1 || m.code2 == 2)
                    && to.owner == if s != [] && s[0].tcode == 2 then OwnerBy(Process(s[0])) else NoOwner
  {
    hide Tick, Target, XorAddr, SegsFrom, Resync, Repeated, Tnts, OwnerBy, Process;
    if s != [] { OwnerBits(s[0]); }
    var g := Closing(hw, i, b, t, a, m, s, end);
    LessSize(g, g.icnt, |g.tnts|);
    LessNone(Less(g, g.icnt, |g.tnts|));
  }

  /** An indirect branch on the stream, and what the client is told of it: where
      it went, B-TYPE 0 for neither an interrupt nor an exception, 1 for both, 2
      for an exception, 3 for an interrupt, and the process by the bits of the
      ownership message behind it. If the stream breaks there the error is told
      instead, or, without a repeat count, no branch at all. */
  lemma IndirectBy(hw: HwCfg, i: nat, b: seq<bool>, t: uint64, a: uint64, m: Msg, s: seq<Msg>, end: Stream.End)
    requires Accepted(m) && m.tcode in {4, 12, 28, 29}
    ensures var g := SegsFrom(hw, i, b, t, a, [m] + s, end);
            var rest := BehindBranch(m, s);
            if s == [] && end.Failed? && m.tcode in {4, 28} then g == Open(i, b, end.error)
            else
              var move := TakeStep(Spent(g));
              && g.Seg?
              && if rest == [] && end.Failed? then move.answer == Refused(end.error)
                 else
                   && move.answer.Went?
                   && var to := move.answer.to;
                      && to.target == Target(hw, if m.tcode in {12, 29} then m.data else XorAddr(a, m.data))
                      && (to.interrupt <==> m.code2 == 1 || m.code2 == 3)
                      && (to.exception <==> m.code2 == 1 || m.code2 == 2)
                      && to.owner == if rest != [] && rest[0].tcode == 2 then OwnerBy(Process(rest[0])) else NoOwner
  {
    hide Accepted, Closing, Target, XorAddr, TakeStep, OwnerBy, Process, Spent;
    var all := [m] + s;
    assert all[1..] == s;
    if m.tcode in {12, 29} {
      IndirectClosed(hw, i, b, t, a, m, s, end);
    } else if s != [] && s[0].tcode == 30 {
      assert all[2..] == s[1..];
      IndirectClosed(hw, i, b, t, a, m.(hrepeat := s[0].hrepeat), s[1..], end);
    } else {
      IndirectClosed(hw, i, b, t, a, m.(hrepeat := 0), s, end);
    }
  }

  // ---- ResourceFull messages ----

  // The time n deltas later; XOR-ed ones count once.
  function TimeLater(hw: HwCfg, t: uint64, delta: uint64, n: nat): uint64
  {
    if hw.quirkSifive then TimeThen(hw, t, delta) else (t + n * delta) % U64
  }

  /** What a ResourceFull message adds to the segment, by RCODE: instructions, a
      history, a history over and over, or with the quirk so many branches not
      taken or taken. */
  lemma ResourceBy(hw: HwCfg, i: nat, b: seq<bool>, t: uint64, a: uint64, m: Msg, s: seq<Msg>, end: Stream.End)
    requires Accepted(m) && m.tcode == 27
    ensures var g := SegsFrom(hw, i, b, t, a, [m] + s, end);
            var n := if m.hrepeat == 0 then 1 else m.hrepeat;
            var bits := Rep(Tnts(m.hist), n);
            && (m.code4 == 0 ==> g == SegsFrom(hw, i + m.word, b, TimeLater(hw, t, m.timestamp, 1), a, s, end))
            && (m.code4 == 1 || m.code4 == 2 ==>
                  && OutcomesOf(m.hist, Tnts(m.hist)) && Copies(Tnts(m.hist), n, bits)
                  && g == SegsFrom(hw, i, b + bits, TimeLater(hw, t, m.timestamp, n), a, s, end))
            && (hw.quirkSifive && m.code4 == 8 && m.word > 0 ==>
                  g == SegsFrom(hw, i, b + seq(m.word, _ => false), TimeLater(hw, t, m.timestamp, m.word), a, s, end))
            && (hw.quirkSifive && m.code4 == 9 && m.word > 0 ==>
                  g == SegsFrom(hw, i, b + seq(m.word, _ => true), TimeLater(hw, t, m.timestamp, m.word), a, s, end))
            && (m.code4 > 2 && !(hw.quirkSifive && m.code4 in {8, 9} && m.word > 0) ==> g == Open(i, b, Unsupported))
  {
    hide Closing, Tnts, Rep, Copies, OutcomesOf, Xor;
    assert ([m] + s)[1..] == s;
    HistoryIs(m.hist);
    var n := if m.hrepeat == 0 then 1 else m.hrepeat;
    RepIs(Tnts(m.hist), n);
    NoneQueued();
    assert b + [] == b;
    if m.code4 == 8 || m.code4 == 9 {
      AllAlike(m.word, m.code4 == 9);
    }
  }

  lemma NoneQueued()
    ensures Rep(Tnts(0), 1) == []
  {
  }

  lemma {:induction false} AllAlike(n: nat, taken: bool)
    ensures Rep(Tnts(if taken then 3 else 2), n) == seq(n, _ => taken)
  {
    hide Tnts;
    OneBit(taken);
    if n > 0 {
      AllAlike(n - 1, taken);
      assert [taken] + seq(n - 1, _ => taken) == seq(n, _ => taken);
    }
  }

  lemma OneBit(taken: bool)
    ensures Tnts(if taken then 3 else 2) == [taken]
  {
    assert Tnts(1) == [];
  }

  // ---- Where a trace starts and stops ----

  // The decoder's answer when the stream gives nothing more.
  function HaltBy(end: Stream.End): Error
  {
    if end.Failed? then end.error else TraceEof
  }

  /** A lost decoder goes on with the next sync, whatever kind it is, and tells
      its reason, address and time; a message it does not take stops it, lost or
      not, and so does the end of the stream. */
  lemma StartsBy(hw: HwCfg, i: nat, b: seq<bool>, t: uint64, a: uint64, m: Msg, s: seq<Msg>, end: Stream.End)
    ensures Resync(hw, [], end) == Open(0, [], HaltBy(end))
    ensures SegsFrom(hw, i, b, t, a, [], end) == Open(i, b, HaltBy(end))
    ensures var r := Resync(hw, [m] + s, end);
            if !Accepted(m) then
              r == Open(0, [], Unsupported) && SegsFrom(hw, i, b, t, a, [m] + s, end) == Open(i, b, Unsupported)
            else if m.tcode in {9, 11, 12, 29} then
              && r.Seg? && r.icnt == 0 && r.tnts == [] && r.time == m.timestamp
              && TakeStep(State(r, false)) == Move(SyncedAt(m.code4, Target(hw, m.data)), State(r.next, true), true)
            else r == Resync(hw, s, end)
  {
    hide Accepted, Target, Closing;
    assert ([m] + s)[1..] == s;
  }

  /** The next outcome: of the histories first, then not taken while instructions
      are left, and taken for a direct branch. */
  lemma BranchBy(s: State)
    requires s.synced && s.trace.Seg?
    ensures var g, m := s.trace, BranchStep(s);
            && (g.tnts != [] ==>
                  && m.answer == Outcome(g.tnts[0]) && !m.closed && m.after.synced
                  && m.after.trace == Seg(g.icnt, g.tnts[1..], g.close, g.time, g.next))
            && (g.tnts == [] && g.icnt > 0 ==> m == Move(Outcome(false), s, false))
            && (g.tnts == [] && g.icnt == 0 && (g.close.Direct? || g.close.DirectSync?) ==>
                  m == Move(Outcome(true), State(g.next, true), true))
            && (g.tnts == [] && g.icnt == 0 && !g.close.Direct? && !g.close.DirectSync? ==>
                  m == Move(Refused(Mismatch), s, false))
  {
  }
}
