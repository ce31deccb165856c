// Whole runs of a client. However it splits its requests, what it is given and
// what is left to give always make up the trace of the stream.
module TraceRuns {
  import opened Results
  import opened MsgTypes
  import opened TraceSemantics
  import opened TraceSteps
  import ReturnStack
  import Stream
  import TraceDecoder

  // What a client can ask: to retire instructions, for the outcome of the next
  // branch, or for whatever event is pending (or, once tracing was lost, for
  // the next sync).
  datatype Op = Retire(icnt: uint32) | Branch | Take

  datatype Answer =
    | Retired(icnt: nat, event: Event)
    | Outcome(taken: bool)
    | Went(to: Indirection)
    | SyncedAt(code: uint4, addr: uint64)
    | Stopped(evcode: uint4)
    | Faulted(etype: uint4, ecode: uint32)
    | Nothing
    | Refused(error: Error)

  datatype State = State(trace: Trace, synced: bool)

  datatype Move = Move(answer: Answer, after: State, closed: bool)

  // ---- One request ----

  function Capped(icnt: uint32): uint32
  {
    if icnt > INT32_MAX then INT32_MAX else icnt
  }

  function Stay(s: State, a: Answer): Move
  {
    Move(a, s, false)
  }

  function Close(s: State, a: Answer, synced: bool): Move
    requires s.trace.Seg?
  {
    Move(a, State(s.trace.next, synced), true)
  }

  function RetireStep(s: State, icnt: uint32): Move
  {
    var g, n := s.trace, Capped(icnt);
    if !s.synced then Stay(s, Refused(NotSynced))
    else if n < g.icnt then Move(Retired(n, NoEvent), State(Less(g, n, 0), true), false)
    else if g.Open? then Stay(s, Refused(g.halt))
    else Move(Retired(g.icnt, EventOf(Less(g, g.icnt, 0))), State(Less(g, g.icnt, 0), true), false)
  }

  function BranchStep(s: State): Move
  {
    var g := s.trace;
    if !s.synced then Stay(s, Refused(NotSynced))
    else if g.tnts != [] then Move(Outcome(g.tnts[0]), State(Less(g, 0, 1), true), false)
    else if g.Open? then Stay(s, Refused(g.halt))
    else if g.icnt > 0 then Stay(s, Outcome(false))
    else if IsDirect(g.close) then Close(s, Outcome(true), true)
    else Stay(s, Refused(Mismatch))
  }

  function TakeStep(s: State): Move
  {
    var g := s.trace;
    if !s.synced then
      if g.Open? then Stay(s, Refused(g.halt))
      else if g.icnt == 0 && g.tnts == [] && g.close.Sync? then Close(s, SyncedAt(g.close.code, g.close.addr), true)
      else Stay(s, Refused(NotSynced))
    else if g.icnt > 0 then Stay(s, Nothing)
    else if g.Open? then Stay(s, Refused(g.halt))
    else if g.close.Fault? then Close(s, Faulted(g.close.etype, g.close.ecode), false)
    else if g.tnts != [] || IsDirect(g.close) then BranchStep(s)
    else if IsIndirect(g.close) then
      Close(s, if g.close.owner.Broken? then Refused(g.close.owner.error) else Went(IndirectionOf(g.close)), true)
    else if g.close.Sync? then Close(s, SyncedAt(g.close.code, g.close.addr), true)
    else if g.close.Stop? then Close(s, Stopped(g.close.evcode), false)
    else Stay(s, Nothing)
  }

  function Step(s: State, op: Op): (m: Move)
    ensures m.closed ==> s.trace.Seg?
  {
    match op
    case Retire(icnt) => RetireStep(s, icnt)
    case Branch => BranchStep(s)
    case Take => TakeStep(s)
  }

  // ---- What the client was given ----

  // A finished segment: what was served of it, its event, and what was lost of
  // it when its event was taken.
  datatype Piece = Piece(icnt: nat, tnts: seq<bool>, close: Close, time: uint64, lostIcnt: nat, lostTnts: seq<bool>)

  datatype Ledger = Ledger(done: seq<Piece>, icnt: nat, tnts: seq<bool>)

  const EMPTY: Ledger := Ledger([], 0, [])

  // Book an answer.
  function Booked(l: Ledger, s: State, m: Move): Ledger
    requires m.closed ==> s.trace.Seg?
  {
    if m.closed then
      var g := s.trace;
      Ledger(l.done + [Piece(l.icnt, l.tnts, g.close, g.time, g.icnt, g.tnts)], 0, [])
    else
      match m.answer
      case Retired(n, _) => l.(icnt := l.icnt + n)
      case Outcome(taken) => if s.trace.tnts != [] then l.(tnts := l.tnts + [taken]) else l
      case _ => l
  }

  // The trace with more before its head.
  function More(t: Trace, i: nat, b: seq<bool>): Trace
  {
    t.(icnt := i + t.icnt, tnts := b + t.tnts)
  }

  // The trace with finished segments before it.
  function Before(done: seq<Piece>, t: Trace): Trace
  {
    if done == [] then t
    else Seg(done[0].icnt + done[0].lostIcnt, done[0].tnts + done[0].lostTnts, done[0].close, done[0].time,
             Before(done[1..], t))
  }

  function Whole(l: Ledger, t: Trace): Trace
  {
    Before(l.done, More(t, l.icnt, l.tnts))
  }

  // The answers to a list of requests, up to the first that is refused.
  function Run(s: State, ops: seq<Op>, l: Ledger): (seq<Answer>, State, Ledger)
    decreases |ops|
  {
    if ops == [] then ([], s, l)
    else
      var m := Step(s, ops[0]);
      var l1 := Booked(l, s, m);
      if m.answer.Refused? then ([m.answer], m.after, l1)
      else
        var (answers, after, ledger) := Run(m.after, ops[1..], l1);
        ([m.answer] + answers, after, ledger)
  }

  // An event is reported exactly when no instruction is left before it, unless
  // the message is of a kind that makes no event.
  lemma EventWhenDone(s: State, icnt: uint32)
    requires s.synced && RetireStep(s, icnt).answer.Retired?
    ensures var m := RetireStep(s, icnt);
            && m.answer.icnt + m.after.trace.icnt == s.trace.icnt && m.answer.icnt <= icnt
            && (m.answer.event == NoEvent <==>
                  || m.after.trace.icnt > 0
                  || (m.after.trace.Seg? && m.after.trace.close.Other? && m.after.trace.tnts == []))
  {
  }

  /** A sync branch is taken twice. Its branch event, once due, goes to the
      address of the sync; then, however many instructions are asked for, none is
      retired and a sync is reported, which has the same address and time. */
  lemma SyncBranchTwice(hw: HwCfg, i: nat, b: seq<bool>, t: uint64, a: uint64, m: Msg, s: seq<Msg>, end: Stream.End,
                        icnt: uint32)
    requires m.IsBranch() && m.IsSync()
    ensures var g := Closing(hw, i, b, t, a, m, s, end);
            var at := Target(hw, m.data);
            var due := TakeStep(State(Less(g, g.icnt, |g.tnts|), true));
            && g.Seg? && g.time == m.timestamp && g.next.Seg? && g.next.time == g.time
            && due.closed && due.after == State(g.next, true)
            && (if !m.IsIndirect() then due.answer == Outcome(true)
                else if g.close.owner.Broken? then due.answer == Refused(g.close.owner.error)
                else due.answer.Went? && due.answer.to.target == at)
            && RetireStep(due.after, icnt) == Move(Retired(0, SyncEvent), due.after, false)
            && TakeStep(due.after).answer == SyncedAt(m.code4, at)
  {
    hide Tick, Target, XorAddr, LookOwner, SegsFrom, Resync, Tnts;
    var g := Closing(hw, i, b, t, a, m, s, end);
    LessNone(g.next);
    LessSize(g, g.icnt, |g.tnts|);
    LessClose(g, g.icnt, |g.tnts|);
  }

  // ---- Conservation ----

  lemma {:induction false} BeforeAppend(done: seq<Piece>, p: Piece, t: Trace)
    ensures Before(done + [p], t) == Before(done, Before([p], t))
  {
    if done == [] {
      assert done + [p] == [p];
    } else {
      assert (done + [p])[1..] == done[1..] + [p];
      BeforeAppend(done[1..], p, t);
    }
  }

  // Each answer moves something from the trace to the ledger, and nothing else.
  lemma StepConserves(s: State, op: Op, l: Ledger)
    ensures Whole(Booked(l, s, Step(s, op)), Step(s, op).after.trace) == Whole(l, s.trace)
  {
    hide Before, EventOf;
    var g, m := s.trace, Step(s, op);
    if m.closed {
      var p := Piece(l.icnt, l.tnts, g.close, g.time, g.icnt, g.tnts);
      BeforeAppend(l.done, p, More(g.next, 0, []));
      OnePiece(p, g.next);
    } else if m.answer.Retired? {
      assert g.tnts[0..] == g.tnts;
    } else if m.answer.Outcome? && g.tnts != [] {
      assert l.tnts + [g.tnts[0]] + g.tnts[1..] == l.tnts + g.tnts;
    }
  }

  lemma OnePiece(p: Piece, t: Trace)
    ensures Before([p], More(t, 0, [])) == Seg(p.icnt + p.lostIcnt, p.tnts + p.lostTnts, p.close, p.time, t)
  {
    assert [p][1..] == [];
    assert [] + t.tnts == t.tnts;
  }

  /** Over any run, what was served and what is left make up the trace: every
      instruction and every outcome is given out once and in order, whatever
      sizes are asked for. */
  lemma {:induction false} RunConserves(s: State, ops: seq<Op>, l: Ledger)
    ensures Whole(Run(s, ops, l).2, Run(s, ops, l).1.trace) == Whole(l, s.trace)
    decreases |ops|
  {
    hide Step, Whole, Booked;
    if ops != [] {
      var m := Step(s, ops[0]);
      StepConserves(s, ops[0], l);
      if !m.answer.Refused? {
        RunConserves(m.after, ops[1..], Booked(l, s, m));
      }
    }
  }

  ghost predicate Lossless(p: Piece)
  {
    p.close.Fault? || (p.lostIcnt == 0 && p.lostTnts == [])
  }

  ghost predicate LosslessAll(done: seq<Piece>)
  {
    forall i :: 0 <= i < |done| ==> Lossless(done[i])
  }

  lemma StepLosesOnlyAtFaults(s: State, op: Op, l: Ledger)
    requires LosslessAll(l.done)
    ensures LosslessAll(Booked(l, s, Step(s, op)).done)
  {
    hide Less, EventOf;
  }

  // Only an error makes the client lose part of its segment.
  lemma {:induction false} LosesOnlyAtFaults(s: State, ops: seq<Op>, l: Ledger)
    requires LosslessAll(l.done)
    ensures LosslessAll(Run(s, ops, l).2.done)
    decreases |ops|
  {
    hide Step, LosslessAll, Booked;
    if ops != [] {
      var m := Step(s, ops[0]);
      StepLosesOnlyAtFaults(s, ops[0], l);
      if !m.answer.Refused? {
        LosesOnlyAtFaults(m.after, ops[1..], Booked(l, s, m));
      }
    }
  }

  // The finished segments are those the trace starts with.
  lemma {:induction false} SamePieces(a: seq<Piece>, b: seq<Piece>, t: Trace, u: Trace)
    requires Before(a, t) == Before(b, u) && |a| <= |b|
    requires forall i :: 0 <= i < |a| ==> Lossless(a[i]) && !a[i].close.Fault?
    requires forall i :: 0 <= i < |b| ==> Lossless(b[i]) && !b[i].close.Fault?
    ensures a == b[..|a|]
  {
    if a != [] {
      SamePieces(a[1..], b[1..], t, u);
      assert Lossless(a[0]) && Lossless(b[0]);
      assert !a[0].close.Fault? && !b[0].close.Fault?;
      assert a[0].tnts + [] == a[0].tnts && b[0].tnts + [] == b[0].tnts;
      assert a[0] == b[0];
      assert a == [a[0]] + a[1..];
      assert b[..|a|] == [b[0]] + b[1..][..|a[1..]|];
    }
  }

  /** However two clients split their requests, the segments they finish are the
      same ones, with the same instructions, outcomes, events and times, unless
      one of them is an error. */
  lemma ChoppingInvariance(s: State, ops1: seq<Op>, ops2: seq<Op>)
    requires |Run(s, ops1, EMPTY).2.done| <= |Run(s, ops2, EMPTY).2.done|
    requires forall p :: p in Run(s, ops1, EMPTY).2.done || p in Run(s, ops2, EMPTY).2.done ==> !p.close.Fault?
    ensures Run(s, ops1, EMPTY).2.done <= Run(s, ops2, EMPTY).2.done
  {
    hide Run, Before;
    RunConserves(s, ops1, EMPTY);
    RunConserves(s, ops2, EMPTY);
    LosesOnlyAtFaults(s, ops1, EMPTY);
    LosesOnlyAtFaults(s, ops2, EMPTY);
    var l1, l2 := Run(s, ops1, EMPTY).2, Run(s, ops2, EMPTY).2;
    SamePieces(l1.done, l2.done, More(Run(s, ops1, EMPTY).1.trace, l1.icnt, l1.tnts),
               More(Run(s, ops2, EMPTY).1.trace, l2.icnt, l2.tnts));
  }

  // ---- The decoder ----

  ghost function StateOf(d: TraceDecoder.Decoder): State
    requires d.Inv()
    reads d
  {
    State(d.View(), d.synced)
  }

  // The answer is the one due, and if the trace goes on so does the decoder.
  ghost predicate Answers(d: TraceDecoder.Decoder, s: State, m: Move, a: Answer)
    reads d
  {
    || (a.Refused? && d.Stuck(a.error))
    || (a == m.answer && (!a.Refused? || s.trace.Seg? ==> d.Inv() && StateOf(d) == m.after))
  }

  // Take the event pending, as TryRetire reports it.
  method AskEvent(d: TraceDecoder.Decoder) returns (a: Answer)
    requires d.Linked() && d.Inv() && d.stack.Valid()
    modifies d, d.msgs, d.msgs.buffer, d.stack
    ensures d.Linked() && d.stack.Valid() && d.stack.entries == old(d.stack.entries)
    ensures Answers(d, old(StateOf(d)), TakeStep(old(StateOf(d))), a)
  {
    hide TraceDecoder.Decoder.Linked, TraceDecoder.Decoder.Inv, TraceDecoder.Decoder.View, ReturnStack.RetStack.Valid,
         ReturnStack.RetStack.Contents, Less;
    ghost var g := StateOf(d).trace;
    LessNone(g);
    if !d.synced {
      var r := d.SyncReset();
      return if r.Err? then Refused(r.error)
             else if r.value.None? then Nothing
             else SyncedAt(r.value.value.0, r.value.value.1);
    }
    var retired, event := d.TryRetire(0);
    if retired.Err? {
      return Refused(retired.error);
    }
    match event
    case NoEvent => return Nothing;
    case ErrorEvent =>
      var r := d.NextError();
      return Faulted(r.value.0, r.value.1);
    case DirectEvent | DirectSyncEvent =>
      var r := d.NextTnt();
      return if r.Ok? then Outcome(r.value) else Refused(r.error);
    case TrapEvent | IndirectEvent | IndirectSyncEvent =>
      var r := d.NextIndirect();
      return if r.Ok? then Went(r.value) else Refused(r.error);
    case SyncEvent =>
      var r := d.NextSync();
      return SyncedAt(r.value.0, r.value.1);
    case StopEvent =>
      var r := d.NextStop();
      return Stopped(r.value);
  }

  /** Put one request to the decoder. Unless its queue overflows, it answers as
      the trace of its stream says. */
  method Ask(d: TraceDecoder.Decoder, op: Op) returns (a: Answer)
    requires d.Linked() && d.Inv() && d.stack.Valid()
    modifies d, d.msgs, d.msgs.buffer, d.stack
    ensures d.Linked() && d.stack.Valid() && d.stack.entries == old(d.stack.entries)
    ensures Answers(d, old(StateOf(d)), Step(old(StateOf(d)), op), a)
  {
    hide TraceDecoder.Decoder.Linked, TraceDecoder.Decoder.Inv, TraceDecoder.Decoder.View, ReturnStack.RetStack.Valid,
         ReturnStack.RetStack.Contents, Less, EventOf;
    match op
    case Retire(icnt) =>
      var r, event := d.TryRetire(icnt);
      a := if r.Ok? then Retired(r.value, event) else Refused(r.error);
    case Branch =>
      var r := d.NextTnt();
      a := if r.Ok? then Outcome(r.value) else Refused(r.error);
    case Take =>
      a := AskEvent(d);
  }

  // Run with the first answers already given.
  ghost predicate Due(s: State, ops: seq<Op>, given: seq<Answer>, at: State, rest: seq<Op>, l: Ledger)
  {
    var r := Run(at, rest, l);
    Run(s, ops, EMPTY) == (given + r.0, r.1, r.2)
  }

  lemma DueStep(s: State, ops: seq<Op>, given: seq<Answer>, at: State, rest: seq<Op>, l: Ledger)
    requires Due(s, ops, given, at, rest, l) && rest != []
    ensures var m := Step(at, rest[0]);
            && given + [m.answer] <= Run(s, ops, EMPTY).0
            && if m.answer.Refused? then Run(s, ops, EMPTY) == (given + [m.answer], m.after, Booked(l, at, m))
               else Due(s, ops, given + [m.answer], m.after, rest[1..], Booked(l, at, m))
  {
    hide Step, Booked;
    var m := Step(at, rest[0]);
    if !m.answer.Refused? {
      var r := Run(m.after, rest[1..], Booked(l, at, m)).0;
      assert given + ([m.answer] + r) == given + [m.answer] + r;
    }
  }

  /** Put a list of requests to the decoder, up to the first it refuses: the
      answers are those the trace of its stream makes due. */
  method Play(d: TraceDecoder.Decoder, ops: seq<Op>) returns (answers: seq<Answer>)
    requires d.Linked() && d.Inv() && d.stack.Valid()
    modifies d, d.msgs, d.msgs.buffer, d.stack
    ensures d.Linked() && d.stack.Valid()
    ensures var due := Run(old(StateOf(d)), ops, EMPTY);
            || (answers == due.0
                && ((answers != [] && answers[|answers| - 1].Refused?) || (d.Inv() && StateOf(d) == due.1)))
            || (answers != [] && answers[|answers| - 1].Refused? && d.Stuck(answers[|answers| - 1].error)
                && answers[..|answers| - 1] <= due.0)
  {
    hide TraceDecoder.Decoder.Linked, TraceDecoder.Decoder.Inv, TraceDecoder.Decoder.View, ReturnStack.RetStack.Valid,
         Step, Run, Due, Booked;
    answers := [];
    ghost var s, l := StateOf(d), EMPTY;
    DueAtStart(s, ops);
    var i := 0;
    while i < |ops|
      invariant i <= |ops| && d.Linked() && d.Inv() && d.stack.Valid()
      invariant Due(s, ops, answers, StateOf(d), ops[i..], l)
    {
      ghost var at := StateOf(d);
      DueStep(s, ops, answers, at, ops[i..], l);
      var a := Ask(d, ops[i]);
      answers := answers + [a];
      if a.Refused? {
        return;
      }
      l := Booked(l, at, Step(at, ops[i]));
      i := i + 1;
    }
    assert ops[i..] == [];
    DueAtEnd(s, ops, answers, StateOf(d), l);
  }

  lemma DueAtStart(s: State, ops: seq<Op>)
    ensures Due(s, ops, [], s, ops, EMPTY)
  {
    assert [] + Run(s, ops, EMPTY).0 == Run(s, ops, EMPTY).0;
  }

  lemma DueAtEnd(s: State, ops: seq<Op>, given: seq<Answer>, at: State, l: Ledger)
    requires Due(s, ops, given, at, [], l)
    ensures Run(s, ops, EMPTY) == (given, at, l)
  {
    assert given + [] == given;
  }
}
