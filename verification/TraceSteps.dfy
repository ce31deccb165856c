// The trace decoder's steps as functions of its state: fetching a message,
// queueing a history, retiring what is held.
module TraceSteps {
  import opened Bits
  import opened Results
  import opened MsgTypes
  import opened TraceSemantics
  import opened TraceFacts
  import Stream

  datatype Event =
    | NoEvent | DirectEvent | DirectSyncEvent | TrapEvent | IndirectEvent | IndirectSyncEvent
    | SyncEvent | StopEvent | ErrorEvent

  // The event at the end of a segment whose instructions are all retired.
  function EventOf(t: Trace): Event
    requires t.Seg?
  {
    if t.close.Fault? then ErrorEvent
    else if t.tnts != [] then DirectEvent
    else
      match t.close
      case Direct => DirectEvent
      case DirectSync => DirectSyncEvent
      case Indirect(btype, _, _) => if btype != 0 then TrapEvent else IndirectEvent
      case IndirectSync(btype, _, _) => if btype != 0 then TrapEvent else IndirectSyncEvent
      case Sync(_, _) => SyncEvent
      case Stop(_) => StopEvent
      case Fault(_, _) => ErrorEvent
      case Other => NoEvent
  }

  // Kinds that stay in the decoder until their event is taken.
  predicate Held(m: Msg)
  {
    Accepted(m.(hrepeat := 0)) && !m.IsRes() && (m.IsSync() ==> m.hrepeat == 0)
  }

  // The next message, with a RepeatBranch right behind it folded in, and the
  // messages after it.
  function Fetch(s: seq<Msg>, end: Stream.End): Result<(Msg, seq<Msg>)>
  {
    if s == [] then Err(HaltOf(end))
    else if !Accepted(s[0]) then Err(Unsupported)
    else if s[0].IsBranch() && !s[0].IsSync() then
      if |s| > 1 && s[1].tcode == REPEAT_BRANCH then Ok((s[0].(hrepeat := s[1].hrepeat), s[2..]))
      else if |s| == 1 && end.Failed? then Err(end.error)
      else Ok((s[0].(hrepeat := 0), s[1..]))
    else Ok((s[0], s[1..]))
  }

  const INT32_MAX: uint32 := 0x7FFF_FFFF

  // The sync a sync branch also is.
  function Downgraded(m: Msg): Msg
  {
    m.(tcode := PROG_TRACE_SYNC, word := 0, hist := 0)
  }

  predicate IsIndirect(c: Close)
  {
    c.Indirect? || c.IndirectSync?
  }

  predicate IsDirect(c: Close)
  {
    c.Direct? || c.DirectSync?
  }

  // An indirect branch as the client sees it.
  datatype Indirection = Indirection(target: uint64, interrupt: bool, exception: bool, owner: Ownership)

  function IndirectionOf(c: Close): Indirection
    requires IsIndirect(c)
  {
    Indirection(c.target, c.btype == 1 || c.btype == 3, c.btype == 1 || c.btype == 2, c.owner)
  }

  // What a message fetched means for the trace.
  lemma FetchSegs(hw: HwCfg, i: nat, b: seq<bool>, t: uint64, a: uint64, s: seq<Msg>, end: Stream.End)
    ensures var g := SegsFrom(hw, i, b, t, a, s, end);
            match Fetch(s, end)
            case Err(e) => g == Open(i, b, e)
            case Ok(p) =>
              if !p.0.IsRes() then g == Closing(hw, i, b, t, a, p.0, p.1, end)
              else if Resource(hw, p.0).None? then g == Open(i, b, Unsupported)
              else
                var e := Resource(hw, p.0).value;
                g == SegsFrom(hw, i + Icnt(p.0), b + Rep(Tnts(e.hist), e.repeat), TimeAfter(hw, t, e), a, p.1, end)
  {
    hide Accepted, Closing, Tnts, Rep, TimeAfter;
  }

  lemma FetchSound(hw: HwCfg, s: seq<Msg>, end: Stream.End, queued: nat, tail: Tail)
    requires Sound(hw, s, queued, tail)
    ensures Fetch(s, end).Ok? ==>
              var m, rest := Fetch(s, end).value.0, Fetch(s, end).value.1;
              && |rest| < |s|
              && (!m.IsRes() && (m.IsCommon() && m.IsSync() ==> m.hrepeat == 0) ==> Held(m))
              && (m.IsCommon() || m.IsStop() ==> Retirable(m, tail))
              && (!m.IsRes() ==> if m.IsStop() || m.IsError() then SoundLost(hw, rest) else Sound(hw, rest, 0, Fresh))
              && (!m.IsRes() ==> queued + |Hists(m)| < U32)
              && (m.IsRes() ==> Accepted(m) && SoundQueued(hw, m, rest, queued, tail))
  {
    hide Tnts, Rep, Resource;
  }

  // The queue can take what m adds, and the rest can still be followed.
  predicate SoundQueued(hw: HwCfg, m: Msg, rest: seq<Msg>, queued: nat, tail: Tail)
    requires m.IsRes()
  {
    match Resource(hw, m)
    case None => true
    case Some(e) =>
      var n := queued + |Rep(Tnts(e.hist), e.repeat)|;
      (tail == Stale ==> e.hist < 2) && n < U32 && Sound(hw, rest, n, TailThen(tail, e))
  }

  // What the ResourceFull messages in front of a stream will queue.
  function Leading(hw: HwCfg, s: seq<Msg>): seq<Elem>
  {
    if s != [] && Accepted(s[0]) && s[0].IsRes() && Resource(hw, s[0]).Some? then
      [Resource(hw, s[0]).value] + Leading(hw, s[1..])
    else []
  }

  lemma FetchLeading(hw: HwCfg, s: seq<Msg>, end: Stream.End)
    ensures Fetch(s, end).Err? ==> Leading(hw, s) == []
    ensures Fetch(s, end).Ok? ==>
              var m, rest := Fetch(s, end).value.0, Fetch(s, end).value.1;
              Leading(hw, s)
              == if m.IsRes() && Resource(hw, m).Some? then [Resource(hw, m).value] + Leading(hw, rest) else []
  {
    hide Accepted, Resource;
  }

  lemma NothingQueued()
    ensures Expand([]) == [] && TailOf([]) == Fresh && QueueOk([])
  {
  }

  lemma NoOutcomes(e: Elem)
    requires e.hist == 0
    ensures Tnts(e.hist) == [] && Rep(Tnts(e.hist), e.repeat) == []
  {
    RepLength([], e.repeat);
  }

  lemma SomeOutcomes(e: Elem)
    requires e.hist > 1 && e.repeat > 0
    ensures |Tnts(e.hist)| > 0 && |Rep(Tnts(e.hist), e.repeat)| > 0
  {
  }

  lemma ExpandFront(es: seq<Elem>)
    requires es != []
    ensures Expand(es) == Rep(Tnts(es[0].hist), es[0].repeat) + Expand(es[1..])
  {
  }

  lemma {:induction false} ExpandLast(es: seq<Elem>)
    requires es != []
    ensures var e := es[|es| - 1]; |Expand(es)| >= |Rep(Tnts(e.hist), e.repeat)|
  {
    hide Rep, Tnts;
    var e := es[|es| - 1];
    ExpandAppend(es[..|es| - 1], e);
    assert es[..|es| - 1] + [e] == es;
  }

  lemma LessClose(t: Trace, i: nat, b: nat)
    ensures t.Seg? ==> Less(t, i, b).close == t.close && Less(t, i, b).time == t.time && Less(t, i, b).next == t.next
  {
  }

  lemma LessOpen(t: Trace, i: nat, b: nat)
    ensures t.Open? && i <= t.icnt && b <= |t.tnts| ==> Less(t, i, b) == Open(t.icnt - i, t.tnts[b..], t.halt)
  {
  }

  lemma LessNone(t: Trace)
    ensures Less(t, 0, 0) == t
  {
    assert t.tnts[0..] == t.tnts;
  }

  // The event a closing message makes.
  lemma ClosingKind(hw: HwCfg, i: nat, b: seq<bool>, t: uint64, a: uint64, m: Msg, s: seq<Msg>, end: Stream.End)
    requires !m.IsRes()
    ensures var c := Closing(hw, i, b, t, a, m, s, end).close;
            && (IsDirect(c) <==> m.IsBranch() && !m.IsIndirect())
            && (IsIndirect(c) <==> m.IsIndirect())
            && (c.Sync? <==> m.tcode == PROG_TRACE_SYNC)
            && (c.Stop? <==> m.IsStop()) && (c.Fault? <==> m.IsError())
  {
    hide Tick, Target, XorAddr, LookOwner, SegsFrom, Resync, Repeated, Tnts;
  }

  // What precedes a closing message changes nothing but the head.
  lemma HeadOnly(hw: HwCfg, i: nat, b: seq<bool>, t: uint64, a: uint64, m: Msg, s: seq<Msg>, end: Stream.End)
    requires !m.IsRes()
    ensures var g, h := Closing(hw, i, b, t, a, m, s, end), Closing(hw, 0, [], t, a, m, s, end);
            g.Seg? && h.Seg? && g.close == h.close && g.time == h.time && g.next == h.next
  {
    hide Tick, Target, XorAddr, LookOwner, SegsFrom, Resync, Tnts, Repeated;
  }

  // What a branch leaves: itself again, the sync it also is, or what follows.
  lemma BranchNext(hw: HwCfg, t: uint64, a: uint64, m: Msg, s: seq<Msg>, end: Stream.End)
    requires m.IsBranch()
    ensures var g := Closing(hw, 0, [], t, a, m, s, end);
            var s1 := if m.IsIndirect() then LookOwner(s, end).1 else s;
            var a1 := if m.IsIndirect() then XorAddr(a, m.data) else a;
            if m.IsSync() then
              && g.time == m.timestamp
              && g.next == Closing(hw, 0, [], m.timestamp, a, Downgraded(m), s1, end)
            else
              && g.time == Tick(hw, t, m.timestamp)
              && g.next == BaseOf(hw, m.hrepeat > 0, if m.hrepeat > 0 then Repeated(hw, m) else m,
                                  0, [], g.time, a1, s1, end)
  {
    hide Tick, Target, XorAddr, LookOwner, SegsFrom, Resync, Tnts;
  }

  // A sync stands on its own: neither the time nor the address before it matters.
  lemma SyncAgain(hw: HwCfg, t: uint64, a: uint64, a1: uint64, m: Msg, s: seq<Msg>, end: Stream.End)
    requires m.tcode == PROG_TRACE_SYNC
    ensures Closing(hw, 0, [], t, a, m, s, end) == Closing(hw, 0, [], t, a1, m, s, end)
  {
    hide Tick, Target, XorAddr, LookOwner, SegsFrom, Resync, Tnts;
  }

  lemma IndirectClose(hw: HwCfg, t: uint64, a: uint64, m: Msg, s: seq<Msg>, end: Stream.End)
    requires m.IsIndirect()
    ensures var c := Closing(hw, 0, [], t, a, m, s, end).close;
            && IsIndirect(c) && c.btype == m.code2 && c.owner == LookOwner(s, end).0
            && c.target == Target(hw, if m.IsSync() then m.data else XorAddr(a, m.data))
  {
    hide Tick, Target, XorAddr, LookOwner, SegsFrom, Resync, Repeated, Tnts;
  }

  lemma OwnerSound(hw: HwCfg, s: seq<Msg>)
    requires Sound(hw, s, 0, Fresh)
    ensures s != [] && s[0].tcode == OWNERSHIP ==> Sound(hw, s[1..], 0, Fresh)
  {
  }

  lemma SyncNext(hw: HwCfg, i: nat, b: seq<bool>, t: uint64, a: uint64, m: Msg, s: seq<Msg>, end: Stream.End)
    requires m.tcode == PROG_TRACE_SYNC
    ensures Closing(hw, i, b, t, a, m, s, end)
            == Seg(i + m.word, b, Sync(m.code4, Target(hw, m.data)), m.timestamp,
                   SegsFrom(hw, 0, [], m.timestamp, m.data, s, end))
  {
    hide Tick, Target, XorAddr, LookOwner, SegsFrom, Resync, Repeated, Tnts;
    assert b + [] == b;
  }

  lemma LostNext(hw: HwCfg, i: nat, b: seq<bool>, t: uint64, a: uint64, m: Msg, s: seq<Msg>, end: Stream.End)
    requires m.IsStop() || m.IsError()
    ensures var g := Closing(hw, i, b, t, a, m, s, end);
            && g.Seg? && g.close == (if m.IsStop() then Stop(m.code4) else Fault(m.code4, m.word))
            && g.time == Tick(hw, t, m.timestamp) && g.next == Resync(hw, s, end)
  {
    hide Tick, Target, XorAddr, LookOwner, SegsFrom, Resync, Repeated, Tnts;
  }

  lemma NoneBase(hw: HwCfg, m: Msg, t: uint64, a: uint64, s: seq<Msg>, end: Stream.End)
    ensures BaseOf(hw, false, m, 0, [], t, a, s, end) == SegsFrom(hw, 0, [], t, a, s, end)
  {
  }

  // What a message fetched means while no sync was found.
  lemma FetchResync(hw: HwCfg, s: seq<Msg>, end: Stream.End)
    ensures Fetch(s, end).Err? ==> Resync(hw, s, end) == Open(0, [], Fetch(s, end).error)
    ensures Fetch(s, end).Ok? ==>
              var m, rest := Fetch(s, end).value.0, Fetch(s, end).value.1;
              && |rest| < |s| && Accepted(m.(hrepeat := 0))
              && if m.IsSync() then
                   Resync(hw, s, end) == Seg(0, [], Sync(m.code4, Target(hw, m.data)), m.timestamp,
                                             SegsFrom(hw, 0, [], m.timestamp, m.data, rest, end))
                 else Resync(hw, s, end) == Resync(hw, rest, end)
  {
    hide Target, SegsFrom, Tnts, Rep;
  }

  lemma FetchLost(hw: HwCfg, s: seq<Msg>, end: Stream.End)
    requires SoundLost(hw, s) && Fetch(s, end).Ok?
    ensures var m, rest := Fetch(s, end).value.0, Fetch(s, end).value.1;
            if m.IsSync() then Sound(hw, rest, 0, Fresh) else SoundLost(hw, rest)
  {
    hide Sound, Accepted;
  }

  lemma LessEnd(t: Trace, i: nat, b: nat)
    ensures Less(t, i, b).Open? == t.Open?
    ensures t.Open? ==> Less(t, i, b).halt == t.halt
  {
  }

  // The queue with one more element.
  lemma QueuePushed(hw: HwCfg, t: uint64, es: seq<Elem>, e: Elem)
    requires e.repeat > 0 && (e.hist == 0 ==> e.repeat == 1) && (TailOf(es) == Stale ==> e.hist < 2)
    ensures Expand(es + [e]) == Expand(es) + Rep(Tnts(e.hist), e.repeat)
    ensures TimeOf(hw, t, es + [e]) == TimeAfter(hw, TimeOf(hw, t, es), e)
    ensures |Rep(Tnts(e.hist), e.repeat)| == e.repeat * HistBits(e.hist)
    ensures TailOf(es + [e]) == TailThen(TailOf(es), e)
    ensures QueueOk(es) ==> QueueOk(es + [e])
    ensures es != [] ==> (es + [e])[0] == es[0]
  {
    hide Expand, TimeOf, TimeAfter, Tnts, Rep, TailOf;
    ExpandAppend(es, e);
    TimeAppend(hw, t, es, e);
    TailAppend(es, e);
    if QueueOk(es) { StaleExactly(es); }
    RepLength(Tnts(e.hist), e.repeat);
    TntsLength(e.hist);
  }

  lemma LessSize(t: Trace, i: nat, b: nat)
    requires i <= t.icnt && b <= |t.tnts|
    ensures Less(t, i, b).icnt == t.icnt - i && Less(t, i, b).tnts == t.tnts[b..]
    ensures Less(t, i, b).Seg? == t.Seg?
  {
  }

  // The queue once one repetition of its front element is used up.
  function Requeued(hw: HwCfg, es: seq<Elem>): seq<Elem>
    requires es != [] && es[0].repeat > 0
  {
    if es[0].repeat == 1 then es[1..] else es[0 := UsedOnce(hw, es[0])]
  }

  lemma QueueStep(hw: HwCfg, t: uint64, es: seq<Elem>)
    requires es != [] && es[0].hist > 1 && es[0].repeat > 0
    ensures var n := |Tnts(es[0].hist)|;
            && n <= |Expand(es)| && Expand(es)[..n] == Tnts(es[0].hist)
            && Expand(Requeued(hw, es)) == Expand(es)[n..]
    ensures TimeOf(hw, Tick(hw, t, es[0].timestamp), Requeued(hw, es)) == TimeOf(hw, t, es)
    ensures TailOf(Requeued(hw, es)) == TailOf(es)
    ensures QueueOk(es) ==> QueueOk(Requeued(hw, es))
  {
    hide Tick, Tnts, Rep, Expand, TimeOf, TimeAfter, TailOf;
    RequeuedOutcomes(hw, es);
    RequeuedTime(hw, t, es);
    assert es == [es[0]] + es[1..];
    TailFront(es[0], es[1..]);
    if es[0].repeat > 1 {
      var e := UsedOnce(hw, es[0]);
      assert Requeued(hw, es) == [e] + es[1..];
      TailFront(e, es[1..]);
    }
  }

  lemma RequeuedOutcomes(hw: HwCfg, es: seq<Elem>)
    requires es != [] && es[0].repeat > 0
    ensures Expand(es) == Tnts(es[0].hist) + Expand(Requeued(hw, es))
  {
    hide Tnts, Expand;
    var e, rest := es[0], es[1..];
    ExpandFront(es);
    assert Rep(Tnts(e.hist), e.repeat) == Tnts(e.hist) + Rep(Tnts(e.hist), e.repeat - 1);
    if e.repeat == 1 {
      assert Tnts(e.hist) + [] == Tnts(e.hist);
    } else {
      var es1 := Requeued(hw, es);
      assert es1[1..] == rest;
      ExpandFront(es1);
    }
  }

  lemma RequeuedTime(hw: HwCfg, t: uint64, es: seq<Elem>)
    requires es != [] && es[0].repeat > 0
    ensures TimeOf(hw, Tick(hw, t, es[0].timestamp), Requeued(hw, es)) == TimeOf(hw, t, es)
  {
    hide Tick, TimeAfter, TimeOf;
    TimeUsed(hw, t, es[0]);
    TimeFront(hw, t, es);
    if es[0].repeat > 1 {
      var es1 := Requeued(hw, es);
      assert es1[1..] == es[1..];
      TimeFront(hw, Tick(hw, t, es[0].timestamp), es1);
    }
  }

  lemma TimeFront(hw: HwCfg, t: uint64, es: seq<Elem>)
    requires es != []
    ensures TimeOf(hw, t, es) == TimeOf(hw, TimeAfter(hw, t, es[0]), es[1..])
  {
  }

  lemma QueueRest(es: seq<Elem>)
    requires es != []
    ensures QueueOk(es) ==> QueueOk(es[1..])
  {
  }

  lemma OnceOnly(es: seq<Elem>)
    requires QueueOk(es) && es != [] && es[0].hist == 0
    ensures es[0].repeat == 1
  {
  }

  // Using up a front element that only carries a timestamp.
  lemma DrainStep(hw: HwCfg, t: uint64, es: seq<Elem>)
    requires es != [] && es[0].hist == 0 && es[0].repeat == 1
    ensures Expand(es[1..]) == Expand(es)
    ensures TimeOf(hw, Tick(hw, t, es[0].timestamp), es[1..]) == TimeOf(hw, t, es)
    ensures TailOf(es) == if es[1..] == [] then Timed else TailOf(es[1..])
    ensures Expand(es) != [] ==> es[1..] != []
    ensures QueueOk(es) ==> QueueOk(es[1..])
  {
    hide Tick, Expand, TimeOf, TimeAfter, TailOf, QueueOk;
    assert es == [es[0]] + es[1..];
    TailFront(es[0], es[1..]);
    QueueRest(es);
    NoOutcomes(es[0]);
    ExpandFront(es);
    TimeFront(hw, t, es);
    TimeUsed(hw, t, es[0]);
    NothingQueued();
    assert [] + Expand(es[1..]) == Expand(es[1..]);
  }

  // Behind an empty history nothing is left to give.
  lemma StaleFront(es: seq<Elem>)
    requires QueueOk(es) && es != [] && es[0].hist == 1
    ensures Expand(es) == [] && TailOf(es) == Stale
  {
    hide TailOf, Expand;
    StaleExactly(es);
    NoneExpand(es);
  }

  lemma {:induction false} NoneExpand(es: seq<Elem>)
    requires forall i :: 0 <= i < |es| ==> es[i].hist < 2
    ensures Expand(es) == []
  {
    if es != [] {
      RepLength(Tnts(es[0].hist), es[0].repeat);
      NoneExpand(es[1..]);
    }
  }

  lemma {:induction false} NoneUsable(es: seq<Elem>)
    requires Formed(es) && Expand(es) == []
    ensures QueueOk(es) && forall i :: 0 <= i < |es| ==> es[i].hist < 2
  {
    hide Tnts, Rep;
    if es != [] {
      ExpandFront(es);
      if es[0].hist > 1 { SomeOutcomes(es[0]); }
      NoneUsable(es[1..]);
    }
  }

  // Without outcomes, and with a queue that can be drained, only times are left.
  lemma {:induction false} NoneLeft(es: seq<Elem>)
    requires QueueOk(es) && Expand(es) == [] && es != []
    ensures TailOf(es) != Fresh && es[0].hist < 2
  {
    hide TailOf, Tnts, Rep;
    var last := es[|es| - 1];
    ExpandLast(es);
    if last.hist > 1 { SomeOutcomes(last); }
    TailAppend(es[..|es| - 1], last);
    assert es[..|es| - 1] + [last] == es;
    ExpandFront(es);
    if es[0].hist > 1 { SomeOutcomes(es[0]); }
  }

  // ---- Dropping a queue ----

  // The time once every element is dropped, each delta folded in once.
  function TimeOnce(hw: HwCfg, t: uint64, es: seq<Elem>): uint64
    decreases es
  {
    if es == [] then t else TimeOnce(hw, Tick(hw, t, es[0].timestamp), es[1..])
  }

  function Extra(e: Elem): nat
  {
    if e.repeat > 1 then (e.repeat - 1) * e.timestamp else 0
  }

  // What the deltas of repetitions add up to beyond the first of each element.
  function Shortfall(es: seq<Elem>): nat
  {
    if es == [] then 0 else Extra(es[0]) + Shortfall(es[1..])
  }

  lemma {:induction false} TimeLags(hw: HwCfg, t: uint64, t1: uint64, lag: nat, es: seq<Elem>)
    requires !hw.quirkSifive && t == (t1 + lag) % U64
    requires forall i :: 0 <= i < |es| ==> es[i].repeat > 0
    ensures TimeOf(hw, t, es) == (TimeOnce(hw, t1, es) + lag + Shortfall(es)) % U64
    decreases |es|
  {
    if es != [] {
      var n, d := es[0].repeat, es[0].timestamp;
      var more := (n - 1) * d;
      LagMore(t, t1, lag, n, d);
      TimeLags(hw, TimeAfter(hw, t, es[0]), Tick(hw, t1, d), lag + more, es[1..]);
    }
  }

  lemma LagMore(t: uint64, t1: uint64, lag: nat, n: nat, d: nat)
    requires n > 0 && t == (t1 + lag) % U64
    ensures (t + n * d) % U64 == ((t1 + d) % U64 + (lag + (n - 1) * d)) % U64
  {
    assert n * d == d + (n - 1) * d;
    ModSum(t1 + lag, n * d);
    ModSum(t1 + d, lag + (n - 1) * d);
  }

  /** Dropping a queue leaves the right time exactly if deltas are XOR-ed, or the
      repetitions it leaves out add up to nothing. */
  lemma DroppedExactly(hw: HwCfg, t: uint64, es: seq<Elem>)
    requires QueueOk(es)
    ensures TimeOnce(hw, t, es) == TimeOf(hw, t, es) <==> hw.quirkSifive || Shortfall(es) % U64 == 0
  {
    hide Shortfall;
    if hw.quirkSifive {
      OnceUnderXor(hw, t, es);
    } else {
      TimeLags(hw, t, t, 0, es);
      SameRest(TimeOnce(hw, t, es), Shortfall(es));
    }
  }

  lemma SameRest(a: uint64, b: nat)
    ensures (a + b) % U64 == a <==> b % U64 == 0
  {
  }

  lemma {:induction false} OnceUnderXor(hw: HwCfg, t: uint64, es: seq<Elem>)
    requires hw.quirkSifive
    ensures TimeOnce(hw, t, es) == TimeOf(hw, t, es)
    decreases es
  {
    hide Tick;
    if es != [] {
      OnceUnderXor(hw, TimeAfter(hw, t, es[0]), es[1..]);
    }
  }

  // Such a queue: an outcome that comes twice, each time a tick later.
  lemma DroppedAstray(hw: HwCfg, t: uint64)
    requires !hw.quirkSifive
    ensures var es := [Elem(2, 2, 1)];
            QueueOk(es) && Shortfall(es) == 1 && TimeOnce(hw, t, es) != TimeOf(hw, t, es)
  {
    var es := [Elem(2, 2, 1)];
    assert es[1..] == [];
    DroppedExactly(hw, t, es);
  }

  // A queue without outcomes and empty histories holds timestamps alone.
  lemma {:induction false} TimesAlone(hw: HwCfg, es: seq<Elem>)
    requires QueueOk(es) && Expand(es) == [] && TailOf(es) != Stale
    ensures Shortfall(es) == 0
  {
    hide Expand, TailOf;
    if es != [] {
      NoneLeft(es);
      if es[0].hist == 1 { StaleFront(es); }
      OnceOnly(es);
      NothingQueued();
      DrainStep(hw, 0, es);
      TimesAlone(hw, es[1..]);
    }
  }

  // The timestamp of the message behind the queue makes no difference to that.
  lemma TickSame(hw: HwCfg, t: uint64, t1: uint64, delta: uint64)
    ensures Tick(hw, t, delta) == Tick(hw, t1, delta) <==> t == t1
  {
    if hw.quirkSifive {
      XorAssoc(t, delta, delta);
      XorAssoc(t1, delta, delta);
      XorSelf(delta);
      XorZero(t);
      XorZero(t1);
    }
  }

  // ---- Using a queue up ----

  // The queue once all its outcomes were given out.
  ghost function UsedUp(hw: HwCfg, es: seq<Elem>): seq<Elem>
    requires QueueOk(es)
    decreases |Expand(es)|, |es|
  {
    if Expand(es) == [] then es
    else if es[0].hist == 0 then
      DrainStep(hw, 0, es);
      UsedUp(hw, es[1..])
    else
      FrontOutcomes(es);
      QueueStep(hw, 0, es);
      UsedUp(hw, Requeued(hw, es))
  }

  // Giving out the next outcome does not change what will be left.
  lemma UsedUpOn(hw: HwCfg, es: seq<Elem>)
    requires QueueOk(es) && Expand(es) != [] && es != []
    ensures es[0].hist == 0 ==> QueueOk(es[1..]) && UsedUp(hw, es[1..]) == UsedUp(hw, es)
    ensures es[0].hist != 0 ==> QueueOk(Requeued(hw, es)) && UsedUp(hw, Requeued(hw, es)) == UsedUp(hw, es)
  {
    hide Expand, Requeued, QueueOk;
    if es[0].hist == 0 {
      QueueRest(es);
    } else {
      FrontOutcomes(es);
      QueueStep(hw, 0, es);
    }
  }

  // With outcomes queued and no timestamp before them, the front has some.
  lemma FrontOutcomes(es: seq<Elem>)
    requires QueueOk(es) && Expand(es) != [] && es != [] && es[0].hist != 0
    ensures es[0].hist > 1 && es[0].repeat > 0 && |Tnts(es[0].hist)| > 0
  {
    hide Expand, TailOf;
    if es[0].hist == 1 { StaleFront(es); }
    SomeOutcomes(es[0]);
  }

  // The queue once the timestamps at its front are drained.
  ghost function Drained(es: seq<Elem>): seq<Elem>
  {
    if es == [] || es[0].hist != 0 then es else Drained(es[1..])
  }
}
