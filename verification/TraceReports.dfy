// Addresses and times across a whole run: a sender gives full addresses and
// absolute times in its sync messages, differences in the others, and the
// client is told the addresses and the times the sender started from.
module TraceReports {
  import opened Bits
  import opened Results
  import opened MsgTypes
  import opened TraceSemantics
  import opened TraceSteps
  import Codec
  import Stream

  // What a sender reports, and when: something without an address, a branch to
  // a target, a sync at an address, or that tracing stopped or lost messages. A
  // branch may be followed by a repeat count, and by the process it went to.
  datatype Report =
    | Quiet(m: Msg, time: uint64, repeat: Option<Msg>)
    | Jump(m: Msg, time: uint64, target: uint64, repeat: Option<Msg>, owner: Option<Msg>)
    | Place(m: Msg, time: uint64, addr: uint64, owner: Option<Msg>)
    | Lost(m: Msg, time: uint64)

  // Half the address and the time last sent.
  datatype Sender = Sender(half: uint64, time: uint64)

  function ListOf(m: Option<Msg>): seq<Msg>
  {
    if m.Some? then [m.value] else []
  }

  function RepeatOf(r: Report): Option<Msg>
  {
    if r.Quiet? || r.Jump? then r.repeat else None
  }

  function OwnerOf(r: Report): Option<Msg>
  {
    if r.Jump? || r.Place? then r.owner else None
  }

  function RepeatsOf(r: Report): uint32
  {
    if RepeatOf(r).Some? then RepeatOf(r).value.hrepeat else 0
  }

  // The difference that leads from one time to another.
  function Delta(hw: HwCfg, from: uint64, to: uint64): uint64
  {
    if hw.quirkSifive then XorAddr(from, to) else (to + U64 - from) % U64
  }

  function Message(hw: HwCfg, p: Sender, r: Report): Msg
  {
    var m := r.m.(timestamp := if r.m.IsSync() then r.time else Delta(hw, p.time, r.time));
    match r
    case Jump(_, _, target, _, _) => m.(data := XorAddr(p.half, target / 2))
    case Place(_, _, addr, _) => m.(data := addr / 2)
    case _ => m
  }

  function Next(p: Sender, r: Report): Sender
  {
    match r
    case Jump(_, time, target, _, _) => Sender(target / 2, time)
    case Place(_, time, addr, _) => Sender(addr / 2, time)
    case _ => p.(time := r.time)
  }

  function Sent(hw: HwCfg, p: Sender, rs: seq<Report>): seq<Msg>
    decreases |rs|
  {
    if rs == [] then []
    else [Message(hw, p, rs[0])] + ListOf(RepeatOf(rs[0]))
         + (ListOf(OwnerOf(rs[0])) + Sent(hw, Next(p, rs[0]), rs[1..]))
  }

  /** Even, and with nothing for sign extension to add: the width takes in all 64
      bits, or its top bit is clear, or every bit above it is set. Sign extension
      clears no bits, so above a clear top bit any are allowed. */
  predicate Canonical(hw: HwCfg, addr: uint64)
  {
    && addr % 2 == 0
    && (hw.addrBits >= 64 || !Bit(addr, hw.addrBits - 1) || forall k :: hw.addrBits <= k < 64 ==> Bit(addr, k))
  }

  predicate IsKind(m: Option<Msg>, tcode: uint8)
  {
    m.Some? ==> m.value.tcode == tcode
  }

  // What a sender may report, while the decoder follows or while it is lost.
  predicate Sendable(hw: HwCfg, r: Report, lost: bool)
  {
    && Accepted(r.m) && IsKind(RepeatOf(r), REPEAT_BRANCH) && IsKind(OwnerOf(r), OWNERSHIP)
    && match r
       case Quiet(m, _, repeat) =>
         if m.IsRes() then Resource(hw, m).Some? && repeat.None? else m.IsBranch() && !m.IsSync() && !m.IsIndirect()
       case Jump(m, _, target, _, _) => m.IsIndirect() && !m.IsSync() && Canonical(hw, target)
       case Place(m, _, addr, owner) =>
         m.IsSync() && Canonical(hw, addr) && (owner.Some? ==> m.IsIndirect() && !lost)
       case Lost(m, _) => m.IsStop() || m.IsError()
  }

  predicate AllSendable(hw: HwCfg, rs: seq<Report>, lost: bool)
    decreases |rs|
  {
    rs == [] || (Sendable(hw, rs[0], lost) && AllSendable(hw, rs[1..], LostAfter(rs[0], lost)))
  }

  predicate LostAfter(r: Report, lost: bool)
  {
    r.Lost? || (lost && !r.Place?)
  }

  // ---- What the client is told ----

  // An event: its address, if it has one and the client gets it, and its time.
  datatype Note = Note(addr: Option<uint64>, time: uint64)

  // A client waiting for the owner of an indirect branch when the stream breaks
  // is told the error and not the target.
  function AddressOf(c: Close): Option<uint64>
  {
    if IsIndirect(c) then if c.owner.Broken? then None else Some(c.target)
    else if c.Sync? then Some(c.addr)
    else None
  }

  function Notes(t: Trace): seq<Note>
  {
    if t.Open? then [] else [Note(AddressOf(t.close), t.time)] + Notes(t.next)
  }

  // The notes of a branch at addr and of its repeats. If the stream breaks right
  // behind it, only what has its owner there is told where it went.
  function BranchNotes(hw: HwCfg, m: Msg, addr: Option<uint64>, t: uint64, owned: bool, breaks: bool): seq<Note>
    decreases m.hrepeat
  {
    var t1 := Tick(hw, t, m.timestamp);
    [Note(if breaks && !owned then None else addr, t1)]
    + if m.hrepeat > 0 then BranchNotes(hw, Repeated(hw, m), addr, t1, false, breaks) else []
  }

  function BranchTime(hw: HwCfg, m: Msg, t: uint64): uint64
    decreases m.hrepeat
  {
    var t1 := Tick(hw, t, m.timestamp);
    if m.hrepeat > 0 then BranchTime(hw, Repeated(hw, m), t1) else t1
  }

  // The message of a report, its repeat count folded in.
  function First(hw: HwCfg, p: Sender, r: Report): Msg
  {
    var m := Message(hw, p, r);
    if m.IsBranch() && !m.IsSync() then m.(hrepeat := RepeatsOf(r)) else m
  }

  // A branch that is lost in the lookahead when the stream breaks behind it.
  predicate Swallowed(r: Report, breaks: bool)
  {
    breaks && r.m.IsBranch() && !r.m.IsSync() && RepeatOf(r).None? && OwnerOf(r).None?
  }

  function Shown(hw: HwCfg, p: Sender, r: Report, t: uint64, lost: bool, breaks: bool): seq<Note>
  {
    var m := First(hw, p, r);
    match r
    case Place(_, time, addr, owner) =>
      (if lost || !m.IsBranch() then []
       else [Note(if m.IsIndirect() && !(breaks && owner.None?) then Some(addr) else None, time)])
      + [Note(Some(addr), time)]
    case Lost(_, _) => if lost then [] else [Note(None, Tick(hw, t, m.timestamp))]
    case Quiet(_, _, _) =>
      if lost || m.IsRes() || Swallowed(r, breaks) then [] else BranchNotes(hw, m, None, t, false, breaks)
    case Jump(_, _, target, _, owner) =>
      if lost || Swallowed(r, breaks) then [] else BranchNotes(hw, m, Some(target), t, owner.Some?, breaks)
  }

  // The decoder's time behind a report.
  function TimeThen(hw: HwCfg, p: Sender, r: Report, t: uint64): uint64
  {
    var m := First(hw, p, r);
    if r.Place? then r.time
    else if m.IsRes() then
      var e := Resource(hw, m);
      if e.Some? then TimeAfter(hw, t, e.value) else t
    else BranchTime(hw, m, t)
  }

  // What each report makes the client see, when the decoder's time is t.
  function Told(hw: HwCfg, p: Sender, rs: seq<Report>, t: uint64, lost: bool, end: Stream.End): (told: seq<seq<Note>>)
    ensures |told| == |rs|
    decreases |rs|
  {
    if rs == [] then []
    else
      [Shown(hw, p, rs[0], t, lost, end.Failed? && rs[1..] == [])]
      + Told(hw, Next(p, rs[0]), rs[1..], TimeThen(hw, p, rs[0], t), LostAfter(rs[0], lost), end)
  }

  function Joined(told: seq<seq<Note>>): seq<Note>
  {
    if told == [] then [] else told[0] + Joined(told[1..])
  }

  // ---- One address, one time ----

  /** What is sent is half the address; it comes back whole exactly if the
      address is canonical. */
  lemma AddressRestored(hw: HwCfg, addr: uint64)
    ensures Target(hw, addr / 2) == addr <==> Canonical(hw, addr)
  {
    hide Low, High, Pow2, Codec.SignExtend, Bit;
    var v := addr / 2 * 2;
    SignKeepsLow(v, hw.addrBits);
    SignAdds(v, hw.addrBits);
  }

  lemma SignKeepsLow(v: uint64, bits: nat)
    requires bits > 0
    ensures Codec.SignExtend(v, bits) % 2 == v % 2
  {
    Pow2Words();
    assert Low(v, bits) % 2 == v % 2;
    assert Pow2(bits) == 2 * Pow2(bits - 1);
  }

  // When sign extension leaves a word as it is.
  lemma SignAdds(v: uint64, bits: nat)
    requires bits > 0
    ensures Codec.SignExtend(v, bits) == v
            <==> bits >= 64 || !Bit(v, bits - 1) || forall k :: bits <= k < 64 ==> Bit(v, k)
  {
    hide Low, High, Pow2, Bit;
    if bits < 64 && Bit(v, bits - 1) {
      var top := High(v, bits);
      Pow2Words();
      LowHigh(v, bits);
      HighBound(v, bits, 64);
      Pow2Add(bits, 64 - bits);
      MulPlus(Pow2(bits), Pow2(64 - bits) - 1, 1);
      if top < Pow2(64 - bits) - 1 {
        MulOrder(Pow2(bits), top, Pow2(64 - bits) - 1);
      }
      AllOnes(top, 64 - bits);
      forall k | bits <= k < 64 ensures Bit(v, k) == Bit(top, k - bits) { BitAbove(v, bits, k - bits); }
      if forall k :: bits <= k < 64 ==> Bit(v, k) {
        forall k | 0 <= k < 64 - bits ensures Bit(top, k) { assert Bit(v, bits + k); }
      }
    }
  }

  lemma BitAbove(v: nat, bits: nat, k: nat)
    ensures Bit(v, bits + k) == Bit(High(v, bits), k)
  {
    hide High;
    HighHigh(v, bits, k);
  }

  // Only the largest number of a width has all its bits set.
  lemma {:induction false} AllOnes(v: nat, n: nat)
    requires v < Pow2(n)
    ensures v == Pow2(n) - 1 <==> forall k :: 0 <= k < n ==> Bit(v, k)
  {
    hide Bit;
    if n > 0 {
      AllOnes(v / 2, n - 1);
      BitZero(v);
      forall k | 0 <= k < n - 1 ensures Bit(v, 1 + k) == Bit(v / 2, k) {
        BitAbove(v, 1, k);
        HighOne(v);
      }
      if forall k :: 0 <= k < n ==> Bit(v, k) {
        forall k | 0 <= k < n - 1 ensures Bit(v / 2, k) { assert Bit(v, 1 + k); }
        assert Bit(v, 0);
      }
      if v == Pow2(n) - 1 {
        forall k | 0 <= k < n ensures Bit(v, k) {
          if k > 0 { assert Bit(v, 1 + (k - 1)) == Bit(v / 2, k - 1); }
        }
      }
    }
  }

  lemma BitZero(v: nat)
    ensures Bit(v, 0) == (v % 2 == 1)
  {
  }

  lemma HighOne(v: nat)
    ensures High(v, 1) == v / 2
  {
  }

  // A difference applied to what it was taken from.
  lemma DifferenceApplied(hw: HwCfg, from: uint64, to: uint64)
    ensures XorAddr(from, XorAddr(from, to)) == to && XorAddr(to, 0) == to
    ensures Tick(hw, from, Delta(hw, from, to)) == to
  {
    hide Xor;
    XorDelta(from, to);
    XorZero(to);
    assert (to + U64 - from) % U64 == if from <= to then to - from else to + U64 - from;
  }

  // ---- A report as the decoder meets it ----

  // What follows a report starts neither with a repeat count nor an owner.
  lemma NextStarts(hw: HwCfg, p: Sender, rs: seq<Report>, lost: bool)
    requires AllSendable(hw, rs, lost)
    ensures var s := Sent(hw, p, rs);
            && (s == [] <==> rs == [])
            && (s != [] ==> s[0].tcode != REPEAT_BRANCH && s[0].tcode != OWNERSHIP)
  {
    hide Accepted, Canonical, Resource, Delta;
  }

  // The address and the time are not part of what is checked.
  lemma MessageKind(hw: HwCfg, p: Sender, r: Report)
    ensures var m := Message(hw, p, r);
            && Accepted(m) == Accepted(r.m) && m.IsBranch() == r.m.IsBranch() && m.IsSync() == r.m.IsSync()
            && m.IsIndirect() == r.m.IsIndirect() && m.IsRes() == r.m.IsRes()
            && m.IsStop() == r.m.IsStop() && m.IsError() == r.m.IsError()
            && (m.IsSync() ==> m.timestamp == r.time)
  {
    hide Delta, XorAddr;
  }

  lemma FetchPlain(m: Msg, tail: seq<Msg>, end: Stream.End)
    requires Accepted(m) && (m.IsBranch() ==> m.IsSync())
    ensures Fetch([m] + tail, end) == Ok((m, tail))
  {
    hide Accepted;
  }

  lemma FetchBranch(m: Msg, repeat: Option<Msg>, tail: seq<Msg>, end: Stream.End)
    requires Accepted(m) && m.IsBranch() && !m.IsSync() && IsKind(repeat, REPEAT_BRANCH)
    requires tail != [] ==> tail[0].tcode != REPEAT_BRANCH
    ensures Fetch([m] + ListOf(repeat) + tail, end)
            == if repeat.None? && tail == [] && end.Failed? then Err(end.error)
               else Ok((m.(hrepeat := if repeat.Some? then repeat.value.hrepeat else 0), tail))
  {
    hide Accepted;
    var s := [m] + ListOf(repeat) + tail;
    assert s[1..] == ListOf(repeat) + tail;
    if repeat.Some? { assert s[2..] == tail; }
  }

  lemma OwnerFirst(owner: Option<Msg>, s: seq<Msg>)
    requires IsKind(owner, OWNERSHIP) && (s != [] ==> s[0].tcode != REPEAT_BRANCH)
    ensures var tail := ListOf(owner) + s;
            (tail == [] <==> owner.None? && s == []) && (tail != [] ==> tail[0].tcode != REPEAT_BRANCH)
  {
  }

  lemma SentFirst(hw: HwCfg, p: Sender, rs: seq<Report>, lost: bool, end: Stream.End)
    requires AllSendable(hw, rs, lost) && rs != []
    ensures var r := rs[0];
            Fetch(Sent(hw, p, rs), end)
            == if Swallowed(r, end.Failed? && rs[1..] == []) then Err(HaltOf(end))
               else Ok((First(hw, p, r), ListOf(OwnerOf(r)) + Sent(hw, Next(p, r), rs[1..])))
  {
    hide Fetch, Accepted, Canonical, Resource, Message, ListOf;
    var r := rs[0];
    var after := Sent(hw, Next(p, r), rs[1..]);
    var tail := ListOf(OwnerOf(r)) + after;
    NextStarts(hw, Next(p, r), rs[1..], LostAfter(r, lost));
    OwnerFirst(OwnerOf(r), after);
    MessageKind(hw, p, r);
    if r.m.IsBranch() && !r.m.IsSync() {
      FetchBranch(Message(hw, p, r), RepeatOf(r), tail, end);
    } else {
      NoneListed();
      assert RepeatOf(r).None?;
      assert [Message(hw, p, r)] + [] == [Message(hw, p, r)];
      FetchPlain(Message(hw, p, r), tail, end);
    }
  }

  lemma NoneListed()
    ensures ListOf(None) == []
  {
  }

  // ---- The notes of one report ----

  // From half an address a and a time t on, the messages give these notes.
  ghost predicate Leads(hw: HwCfg, a: uint64, t: uint64, s: seq<Msg>, end: Stream.End, notes: seq<Note>)
  {
    forall i, b :: Notes(SegsFrom(hw, i, b, t, a, s, end)) == notes
  }

  lemma LeadsTo(hw: HwCfg, i: nat, b: seq<bool>, t: uint64, a: uint64, s: seq<Msg>, end: Stream.End, notes: seq<Note>)
    requires Leads(hw, a, t, s, end, notes)
    ensures Notes(SegsFrom(hw, i, b, t, a, s, end)) == notes
  {
    hide SegsFrom, Notes;
  }

  // The owner behind a branch is taken, and missing only where the stream breaks.
  lemma OwnerTaken(owner: Option<Msg>, s: seq<Msg>, end: Stream.End)
    requires IsKind(owner, OWNERSHIP) && (s != [] ==> s[0].tcode != OWNERSHIP)
    ensures LookOwner(ListOf(owner) + s, end).1 == s
    ensures LookOwner(ListOf(owner) + s, end).0.Broken? <==> owner.None? && s == [] && end.Failed?
    ensures owner.None? ==> ListOf(owner) + s == s
  {
    assert (ListOf(owner) + s)[|ListOf(owner)|..] == s;
  }

  // The note of a branch itself.
  lemma BranchNote(hw: HwCfg, i: nat, b: seq<bool>, t: uint64, a: uint64, m: Msg, s: seq<Msg>, end: Stream.End)
    requires m.IsBranch()
    ensures var g := Closing(hw, i, b, t, a, m, s, end);
            var whole := Closing(hw, 0, [], t, a, m, s, end);
            var addr := if !m.IsIndirect() || LookOwner(s, end).0.Broken? then None
                        else Some(Target(hw, if m.IsSync() then m.data else XorAddr(a, m.data)));
            Notes(g) == [Note(addr, whole.time)] + Notes(whole.next)
  {
    hide Tick, Target, XorAddr, SegsFrom, Resync, Tnts, Closing, LookOwner;
    HeadOnly(hw, i, b, t, a, m, s, end);
    ClosingKind(hw, 0, [], t, a, m, s, end);
    if m.IsIndirect() {
      IndirectClose(hw, t, a, m, s, end);
    }
  }

  lemma NotesFirst(hw: HwCfg, m: Msg, addr: Option<uint64>, t: uint64, owned: bool, breaks: bool, others: seq<Note>)
    ensures var t1 := Tick(hw, t, m.timestamp);
            BranchNotes(hw, m, addr, t, owned, breaks) + others
            == [Note(if breaks && !owned then None else addr, t1)]
               + ((if m.hrepeat > 0 then BranchNotes(hw, Repeated(hw, m), addr, t1, false, breaks) else []) + others)
  {
    hide Tick;
  }

  // A branch gives its own notes as often as it repeats, then those that follow.
  lemma {:induction false} BranchTold(hw: HwCfg, i: nat, b: seq<bool>, t: uint64, a: uint64, a1: uint64, m: Msg,
                                      owner: Option<Msg>, s: seq<Msg>, end: Stream.End, addr: Option<uint64>,
                                      others: seq<Note>)
    requires m.IsBranch() && !m.IsSync() && IsKind(owner, OWNERSHIP) && (owner.Some? ==> m.IsIndirect())
    requires s != [] ==> s[0].tcode != OWNERSHIP
    requires a1 == if m.IsIndirect() then XorAddr(a, m.data) else a
    requires addr == if m.IsIndirect() then Some(Target(hw, a1)) else None
    requires Leads(hw, a1, BranchTime(hw, m, t), s, end, others)
    ensures Notes(Closing(hw, i, b, t, a, m, ListOf(owner) + s, end))
            == BranchNotes(hw, m, addr, t, owner.Some?, end.Failed? && s == []) + others
    decreases m.hrepeat
  {
    hide Tick, Target, XorAddr, SegsFrom, Resync, Tnts, Closing, Leads, Notes, LookOwner, ListOf, BranchNotes;
    var s0, t1 := ListOf(owner) + s, Tick(hw, t, m.timestamp);
    OwnerTaken(owner, s, end);
    BranchNext(hw, t, a, m, s0, end);
    BranchNote(hw, i, b, t, a, m, s0, end);
    if m.hrepeat > 0 {
      DifferenceApplied(hw, a, a1);
      OwnerTaken(None, s, end);
      BranchTold(hw, 0, [], t1, a1, a1, Repeated(hw, m), None, s, end, addr, others);
      NotesFirst(hw, m, addr, t, owner.Some?, end.Failed? && s == [], others);
    } else {
      NotesFirst(hw, m, addr, t, owner.Some?, end.Failed? && s == [], others);
      LeadsTo(hw, 0, [], t1, a1, s, end, others);
    }
  }

  lemma MoveTold(hw: HwCfg, i: nat, b: seq<bool>, t: uint64, p: Sender, r: Report, s: seq<Msg>, end: Stream.End,
                 others: seq<Note>)
    requires Sendable(hw, r, false) && !r.Place? && !r.Lost? && !r.m.IsRes() && !Swallowed(r, end.Failed? && s == [])
    requires s != [] ==> s[0].tcode != OWNERSHIP
    requires Leads(hw, Next(p, r).half, TimeThen(hw, p, r, t), s, end, others)
    ensures Notes(Closing(hw, i, b, t, p.half, First(hw, p, r), ListOf(OwnerOf(r)) + s, end))
            == Shown(hw, p, r, t, false, end.Failed? && s == []) + others
  {
    hide Accepted, Canonical, SegsFrom, Closing, Target, XorAddr, Leads, Notes, BranchTime, BranchNotes, Delta;
    if r.Jump? {
      DifferenceApplied(hw, p.half, r.target / 2);
      AddressRestored(hw, r.target);
    }
    var addr := if r.Jump? then Some(r.target) else None;
    BranchTold(hw, i, b, t, p.half, Next(p, r).half, First(hw, p, r), OwnerOf(r), s, end, addr, others);
  }

  lemma PlaceTold(hw: HwCfg, i: nat, b: seq<bool>, t: uint64, p: Sender, r: Report, s: seq<Msg>, end: Stream.End,
                  others: seq<Note>)
    requires Sendable(hw, r, false) && r.Place?
    requires s != [] ==> s[0].tcode != OWNERSHIP
    requires Leads(hw, Next(p, r).half, r.time, s, end, others)
    ensures Notes(Closing(hw, i, b, t, p.half, First(hw, p, r), ListOf(OwnerOf(r)) + s, end))
            == Shown(hw, p, r, t, false, end.Failed? && s == []) + others
  {
    hide Accepted, Canonical, SegsFrom, Resync, Target, Tick, Tnts, XorAddr, Leads, Closing, LookOwner, ListOf, Delta;
    var m, s0 := First(hw, p, r), ListOf(r.owner) + s;
    AddressRestored(hw, r.addr);
    LeadsTo(hw, 0, [], m.timestamp, r.addr / 2, s, end, others);
    OwnerTaken(r.owner, s, end);
    if m.IsBranch() {
      HeadOnly(hw, i, b, t, p.half, m, s0, end);
      BranchNote(hw, i, b, t, p.half, m, s0, end);
      BranchNext(hw, t, p.half, m, s0, end);
      SyncNext(hw, 0, [], m.timestamp, p.half, Downgraded(m), s, end);
      var whole := Closing(hw, 0, [], t, p.half, m, s0, end);
      var sync := Note(Some(r.addr), r.time);
      assert Notes(whole.next) == [sync] + others;
      var first := Shown(hw, p, r, t, false, end.Failed? && s == [])[0];
      assert [first] + ([sync] + others) == [first] + [sync] + others;
    } else {
      SyncNext(hw, i, b, t, p.half, m, s, end);
    }
  }

  // ---- The theorem ----

  lemma NothingSent(hw: HwCfg, i: nat, b: seq<bool>, t: uint64, p: Sender, end: Stream.End)
    ensures Notes(SegsFrom(hw, i, b, t, p.half, Sent(hw, p, []), end)) == []
    ensures Notes(Resync(hw, Sent(hw, p, []), end)) == []
  {
  }

  lemma NothingTold(hw: HwCfg, p: Sender, t: uint64, lost: bool, end: Stream.End)
    ensures Joined(Told(hw, p, [], t, lost, end)) == []
  {
  }

  lemma ToldStep(hw: HwCfg, p: Sender, rs: seq<Report>, t: uint64, lost: bool, end: Stream.End)
    requires rs != []
    ensures var r := rs[0];
            var rest := Told(hw, Next(p, r), rs[1..], TimeThen(hw, p, r, t), LostAfter(r, lost), end);
            Joined(Told(hw, p, rs, t, lost, end))
            == Shown(hw, p, r, t, lost, end.Failed? && rs[1..] == []) + Joined(rest)
  {
    hide Shown, Next, TimeThen;
  }

  // Reports that make no event, and the one event of a place while lost.
  lemma ShownNone(hw: HwCfg, p: Sender, r: Report, t: uint64, lost: bool, breaks: bool)
    requires Sendable(hw, r, lost)
    ensures var shown := Shown(hw, p, r, t, lost, breaks);
            && (r.m.IsRes() || Swallowed(r, breaks) || (lost && !r.Place?) ==> shown == [])
            && (r.m.IsRes() ==> Next(p, r).half == p.half)
            && (r.Lost? && !lost ==> shown == [Note(None, Tick(hw, t, First(hw, p, r).timestamp))])
            && (lost && r.Place? ==> shown == [Note(Some(r.addr), r.time)] && Next(p, r).half == r.addr / 2)
  {
    hide Accepted, Canonical, Resource, Delta, XorAddr, Tick, BranchNotes;
    MessageKind(hw, p, r);
  }

  lemma OwnerMissed(hw: HwCfg, owner: Option<Msg>, s: seq<Msg>, end: Stream.End)
    requires IsKind(owner, OWNERSHIP)
    ensures Resync(hw, ListOf(owner) + s, end) == Resync(hw, s, end)
  {
    if owner.Some? {
      assert (ListOf(owner) + s)[1..] == s;
    } else {
      assert ListOf(owner) + s == s;
    }
  }

  /** Whatever is reported, in whatever order, with repeats and through lost
      stretches, and however the stream ends, the client is told just what each
      report should make it see: while the decoder follows, and from the next
      sync on while it is lost. */
  lemma {:induction false} Followed(hw: HwCfg, i: nat, b: seq<bool>, t: uint64, p: Sender, rs: seq<Report>,
                                    end: Stream.End)
    requires AllSendable(hw, rs, false)
    ensures Notes(SegsFrom(hw, i, b, t, p.half, Sent(hw, p, rs), end)) == Joined(Told(hw, p, rs, t, false, end))
    decreases |rs|, 1
  {
    hide Accepted, Canonical, Resource, Fetch, Sent, SegsFrom, Closing, Resync, Target, XorAddr, Delta, Tnts, Rep,
         TimeAfter, Tick, BranchNotes, BranchTime, Told, Joined, Shown, Next;
    if rs == [] {
      NothingSent(hw, i, b, t, p, end);
      NothingTold(hw, p, t, false, end);
    } else {
      var r, rest := rs[0], rs[1..];
      var p1, t1, m := Next(p, r), TimeThen(hw, p, r, t), First(hw, p, r);
      var after, others := Sent(hw, p1, rest), Joined(Told(hw, p1, rest, t1, LostAfter(r, false), end));
      var breaks := end.Failed? && rest == [];
      ToldStep(hw, p, rs, t, false, end);
      ShownNone(hw, p, r, t, false, breaks);
      SentFirst(hw, p, rs, false, end);
      MessageKind(hw, p, r);
      NextStarts(hw, p1, rest, LostAfter(r, false));
      FetchSegs(hw, i, b, t, p.half, Sent(hw, p, rs), end);
      if Swallowed(r, breaks) {
        NothingTold(hw, p1, t1, LostAfter(r, false), end);
      } else if m.IsRes() {
        assert ListOf(None) + after == after && [] + others == others;
        SameResource(hw, p, r);
        var e := Resource(hw, m).value;
        Followed(hw, i + Icnt(m), b + Rep(Tnts(e.hist), e.repeat), t1, p1, rest, end);
      } else if r.Lost? {
        assert ListOf(None) + after == after;
        LostNext(hw, i, b, t, p.half, m, after, end);
        Missed(hw, p1, rest, t1, end);
      } else {
        forall i, b ensures Notes(SegsFrom(hw, i, b, t1, p1.half, after, end)) == others {
          Followed(hw, i, b, t1, p1, rest, end);
        }
        assert Leads(hw, p1.half, t1, after, end, others);
        if r.Place? {
          PlaceTold(hw, i, b, t, p, r, after, end, others);
        } else {
          MoveTold(hw, i, b, t, p, r, after, end, others);
        }
      }
    }
  }

  // A ResourceFull message brings the same, whatever its time.
  lemma SameResource(hw: HwCfg, p: Sender, r: Report)
    requires r.m.IsRes()
    ensures First(hw, p, r).IsRes() && Resource(hw, First(hw, p, r)).Some? == Resource(hw, r.m).Some?
  {
    hide Delta;
  }

  lemma {:induction false} Missed(hw: HwCfg, p: Sender, rs: seq<Report>, t: uint64, end: Stream.End)
    requires AllSendable(hw, rs, true)
    ensures Notes(Resync(hw, Sent(hw, p, rs), end)) == Joined(Told(hw, p, rs, t, true, end))
    decreases |rs|, 0
  {
    hide Accepted, Canonical, Resource, Fetch, Sent, SegsFrom, Resync, Target, XorAddr, Delta, Tnts, TimeThen,
         BranchNotes, Told, Joined, Shown, Next;
    if rs == [] {
      NothingSent(hw, 0, [], 0, p, end);
      NothingTold(hw, p, t, true, end);
    } else {
      var r, rest := rs[0], rs[1..];
      var p1, t1, m := Next(p, r), TimeThen(hw, p, r, t), First(hw, p, r);
      var after := Sent(hw, p1, rest);
      var breaks := end.Failed? && rest == [];
      ToldStep(hw, p, rs, t, true, end);
      ShownNone(hw, p, r, t, true, breaks);
      var others := Joined(Told(hw, p1, rest, t1, LostAfter(r, true), end));
      SentFirst(hw, p, rs, true, end);
      MessageKind(hw, p, r);
      FetchResync(hw, Sent(hw, p, rs), end);
      if Swallowed(r, breaks) {
        NothingTold(hw, p1, t1, LostAfter(r, true), end);
      } else if r.Place? {
        assert ListOf(None) + after == after;
        AddressRestored(hw, r.addr);
        PlaceTime(hw, p, r, t);
        Followed(hw, 0, [], r.time, p1, rest, end);
      } else {
        OwnerMissed(hw, OwnerOf(r), after, end);
        Missed(hw, p1, rest, t1, end);
        assert [] + others == others;
      }
    }
  }

  lemma PlaceTime(hw: HwCfg, p: Sender, r: Report, t: uint64)
    requires r.Place?
    ensures TimeThen(hw, p, r, t) == r.time
  {
  }

  // ---- Times ----

  /** An added delta counts once more for every repetition, so a sender must not
      let branches repeat behind one, and histories only if that makes no
      difference. XOR-ed deltas always count once. */
  predicate Steady(hw: HwCfg, p: Sender, r: Report)
  {
    var delta := Delta(hw, p.time, r.time);
    hw.quirkSifive
    || (if r.m.IsRes() then Resource(hw, r.m).Some? ==> (Resource(hw, r.m).value.repeat - 1) * delta % U64 == 0
        else RepeatsOf(r) == 0 || delta == 0)
  }

  predicate AllSteady(hw: HwCfg, p: Sender, rs: seq<Report>, lost: bool)
    decreases |rs|
  {
    rs == [] || ((lost || Steady(hw, p, rs[0])) && AllSteady(hw, Next(p, rs[0]), rs[1..], LostAfter(rs[0], lost)))
  }

  ghost predicate AllAt(notes: seq<Note>, time: uint64)
  {
    forall k :: 0 <= k < |notes| ==> notes[k].time == time
  }

  // The segments of a report have its time, from which the next ones go on.
  ghost predicate ShownOnTime(hw: HwCfg, p: Sender, r: Report, t: uint64, lost: bool, breaks: bool)
  {
    && AllAt(Shown(hw, p, r, t, lost, breaks), r.time)
    && (!LostAfter(r, lost) ==> TimeThen(hw, p, r, t) == r.time)
  }

  ghost predicate AllOnTime(hw: HwCfg, p: Sender, rs: seq<Report>, t: uint64, lost: bool, end: Stream.End)
    decreases |rs|
  {
    rs == []
    || (ShownOnTime(hw, p, rs[0], t, lost, end.Failed? && rs[1..] == [])
        && AllOnTime(hw, Next(p, rs[0]), rs[1..], TimeThen(hw, p, rs[0], t), LostAfter(rs[0], lost), end))
  }

  lemma {:induction false} BranchAt(hw: HwCfg, m: Msg, addr: Option<uint64>, t: uint64, owned: bool, breaks: bool)
    ensures var t1 := Tick(hw, t, m.timestamp);
            (AllAt(BranchNotes(hw, m, addr, t, owned, breaks), t1) && BranchTime(hw, m, t) == t1)
            <==> hw.quirkSifive || m.hrepeat == 0 || m.timestamp == 0
    decreases m.hrepeat
  {
    hide Xor;
    var t1 := Tick(hw, t, m.timestamp);
    var notes := BranchNotes(hw, m, addr, t, owned, breaks);
    if m.hrepeat > 0 {
      var again := Repeated(hw, m);
      XorZero(t1);
      BranchAt(hw, again, addr, t1, false, breaks);
      var more := BranchNotes(hw, again, addr, t1, false, breaks);
      assert notes[1..] == more && more[0].time == Tick(hw, t1, again.timestamp);
      if hw.quirkSifive || m.timestamp == 0 {
        forall k | 0 <= k < |notes| ensures notes[k].time == t1 {
          if k > 0 { assert notes[k] == more[k - 1]; }
        }
      } else {
        assert notes[1].time == (t1 + m.timestamp) % U64 != t1;
      }
    }
  }

  lemma ResourceAt(hw: HwCfg, p: Sender, r: Report)
    requires r.Quiet? && r.m.IsRes() && Resource(hw, r.m).Some?
    ensures TimeThen(hw, p, r, p.time) == r.time <==> Steady(hw, p, r)
  {
    hide Delta;
    var d, n := Delta(hw, p.time, r.time), Resource(hw, r.m).value.repeat;
    DifferenceApplied(hw, p.time, r.time);
    ElemRepeats(hw, r.m);
    if !hw.quirkSifive {
      AddedAt(p.time, r.time, d, n);
    }
  }

  lemma AddedAt(t: uint64, t1: uint64, d: uint64, n: nat)
    requires n > 0 && (t + d) % U64 == t1
    ensures (t + n * d) % U64 == t1 <==> (n - 1) * d % U64 == 0
  {
    assert n * d == d + (n - 1) * d;
    SameSum(t + d, (n - 1) * d);
  }

  lemma ElemRepeats(hw: HwCfg, m: Msg)
    requires m.IsRes() && Resource(hw, m).Some?
    ensures Resource(hw, m).value.repeat > 0
  {
  }

  lemma SameSum(a: nat, b: nat)
    ensures (a + b) % U64 == a % U64 <==> b % U64 == 0
  {
  }

  lemma ShownAt(hw: HwCfg, p: Sender, r: Report, t: uint64, lost: bool, breaks: bool)
    requires Sendable(hw, r, lost) && (!lost ==> t == p.time)
    ensures ShownOnTime(hw, p, r, t, lost, breaks) <==> lost || Steady(hw, p, r)
  {
    hide Accepted, Canonical, XorAddr, Delta, Tick, BranchNotes, BranchTime, Resource;
    MessageKind(hw, p, r);
    DifferenceApplied(hw, p.time, r.time);
    if !lost && !r.Place? {
      var m := First(hw, p, r);
      if m.IsRes() {
        ResourceAt(hw, p, r);
      } else {
        assert m.timestamp == Delta(hw, p.time, r.time);
        assert r.Lost? || m.hrepeat == RepeatsOf(r);
        if !r.Lost? {
          BranchAt(hw, m, if r.Jump? then Some(r.target) else None, t, r.Jump? && r.owner.Some?, breaks);
        }
      }
    }
  }

  /** The segments have the times at which their reports were made exactly while
      deltas are steady. Those are the decoder's own times, except that an error
      drops what is queued before it. */
  lemma {:induction false} ToldOnTime(hw: HwCfg, p: Sender, rs: seq<Report>, t: uint64, lost: bool, end: Stream.End)
    requires AllSendable(hw, rs, lost) && (!lost ==> t == p.time)
    ensures AllOnTime(hw, p, rs, t, lost, end) <==> AllSteady(hw, p, rs, lost)
    decreases |rs|
  {
    hide Sendable, Steady, Shown, TimeThen, AllAt;
    if rs != [] {
      var r := rs[0];
      ShownAt(hw, p, r, t, lost, end.Failed? && rs[1..] == []);
      if ShownOnTime(hw, p, r, t, lost, end.Failed? && rs[1..] == []) {
        ToldOnTime(hw, Next(p, r), rs[1..], TimeThen(hw, p, r, t), LostAfter(r, lost), end);
      }
    }
  }

  // The segments of the k-th report then have its time.
  lemma {:induction false} ToldAtTheirTimes(hw: HwCfg, p: Sender, rs: seq<Report>, t: uint64, lost: bool,
                                            end: Stream.End, k: nat)
    requires AllSendable(hw, rs, lost) && AllSteady(hw, p, rs, lost) && k < |rs| && (!lost ==> t == p.time)
    ensures AllAt(Told(hw, p, rs, t, lost, end)[k], rs[k].time)
    decreases |rs|
  {
    hide Sendable, Steady, AllAt, Shown, TimeThen;
    var r := rs[0];
    ShownAt(hw, p, r, t, lost, end.Failed? && rs[1..] == []);
    if k > 0 {
      assert rs[1..][k - 1] == rs[k];
      ToldAtTheirTimes(hw, Next(p, r), rs[1..], TimeThen(hw, p, r, t), LostAfter(r, lost), end, k - 1);
    }
  }
}
