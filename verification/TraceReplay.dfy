// What repeats and syncs do to a trace, and which queues can be used up.
module TraceReplay {
  import opened Bits
  import opened Results
  import opened MsgTypes
  import opened TraceSemantics
  import opened TraceFacts
  import opened TraceSteps
  import Stream

  // The trace after k segments.
  function After(t: Trace, k: nat): Trace
    decreases k
  {
    if k == 0 || t.Open? then t else After(t.next, k - 1)
  }

  // ---- One segment ----

  function TotalIcnt(rs: seq<Msg>): nat
  {
    if rs == [] then 0 else Icnt(rs[0]) + TotalIcnt(rs[1..])
  }

  // ResourceFull messages the decoder takes.
  predicate AllResources(hw: HwCfg, rs: seq<Msg>)
  {
    forall i :: 0 <= i < |rs| ==> Accepted(rs[i]) && rs[i].IsRes() && Resource(hw, rs[i]).Some?
  }

  function Elems(hw: HwCfg, rs: seq<Msg>): seq<Elem>
    requires AllResources(hw, rs)
  {
    if rs == [] then [] else [Resource(hw, rs[0]).value] + Elems(hw, rs[1..])
  }

  /** ResourceFull messages add up: to the next segment they contribute the sum
      of their instructions and the outcomes of their histories, each history as
      often as it repeats, in order. */
  lemma {:induction false} ResourcesAddUp(hw: HwCfg, i: nat, b: seq<bool>, t: uint64, a: uint64,
                                          rs: seq<Msg>, s: seq<Msg>, end: Stream.End)
    requires AllResources(hw, rs)
    ensures SegsFrom(hw, i, b, t, a, rs + s, end)
            == SegsFrom(hw, i + TotalIcnt(rs), b + Expand(Elems(hw, rs)), TimeOf(hw, t, Elems(hw, rs)), a, s, end)
    decreases |rs|
  {
    hide Closing, Resource, Accepted, Tnts, Rep, TimeAfter;
    if rs == [] {
      assert rs + s == s && b + [] == b;
    } else {
      var e := Resource(hw, rs[0]).value;
      var bits, more := Rep(Tnts(e.hist), e.repeat), Expand(Elems(hw, rs[1..]));
      assert (rs + s)[0] == rs[0] && (rs + s)[1..] == rs[1..] + s;
      assert Elems(hw, rs)[1..] == Elems(hw, rs[1..]);
      ResourcesAddUp(hw, i + Icnt(rs[0]), b + bits, TimeAfter(hw, t, e), a, rs[1..], s, end);
      assert b + bits + more == b + (bits + more);
    }
  }

  // ---- Repeats ----

  // The same event: the process it belongs to may only be said once.
  predicate SameEvent(a: Close, b: Close)
  {
    if a.Indirect? then b.Indirect? && a.btype == b.btype && a.target == b.target else a == b
  }

  // Messages left once each of n indirect branches took its ownership.
  function Disowned(indirect: bool, s: seq<Msg>, end: Stream.End, n: nat): seq<Msg>
  {
    if n == 0 || !indirect then s else Disowned(indirect, LookOwner(s, end).1, end, n - 1)
  }

  // The time after n repetitions.
  function TimeRepeated(hw: HwCfg, t: uint64, delta: uint64, n: nat): uint64
  {
    if hw.quirkSifive then if n == 0 then t else Tick(hw, t, delta) else (t + n * delta) % U64
  }

  lemma TimeRepeats(hw: HwCfg, t: uint64, delta: uint64, n: nat)
    ensures TimeRepeated(hw, t, delta, 0) == t && TimeRepeated(hw, t, delta, 1) == Tick(hw, t, delta)
    ensures TimeRepeated(hw, Tick(hw, t, delta), if hw.quirkSifive then 0 else delta, n)
            == TimeRepeated(hw, t, delta, n + 1)
  {
    if hw.quirkSifive {
      XorZero(Xor(t, delta));
    } else {
      assert (n + 1) * delta == delta + n * delta;
      ModSum(t + delta, n * delta);
    }
  }

  /** A branch that repeats is delivered once more than it repeats, each time
      with its own instructions and outcomes and the same target; what was queued
      before it is part of the first delivery alone. An XOR delta counts once, an
      added one every time. */
  lemma {:induction false} Replays(hw: HwCfg, i: nat, b: seq<bool>, t: uint64, a: uint64,
                                   m: Msg, s: seq<Msg>, end: Stream.End, k: nat)
    requires m.IsBranch() && !m.IsSync() && k <= m.hrepeat
    ensures var g := Closing(hw, i, b, t, a, m, s, end);
            var h := After(g, k);
            && h.Seg? && SameEvent(g.close, h.close) && h.time == TimeRepeated(hw, t, m.timestamp, k + 1)
            && h.icnt == (if k == 0 then i else 0) + Icnt(m)
            && h.tnts == (if k == 0 then b else []) + Hists(m)
    decreases m.hrepeat
  {
    hide Closing, Tick, Target, LookOwner, SegsFrom, Resync, Tnts, Hists, TimeRepeated;
    TimeRepeats(hw, t, m.timestamp, k);
    ClosingHead(hw, i, b, t, a, m, s, end);
    ClosingHead(hw, 0, [], t, a, m, s, end);
    HeadOnly(hw, i, b, t, a, m, s, end);
    BranchNext(hw, t, a, m, s, end);
    if k > 0 {
      var t1, a1 := Tick(hw, t, m.timestamp), if m.IsIndirect() then XorAddr(a, m.data) else a;
      var s1 := if m.IsIndirect() then LookOwner(s, end).1 else s;
      XorZero(a1);
      RepeatClose(hw, t, a, m, s, end);
      RepeatCarries(hw, m);
      Replays(hw, 0, [], t1, a1, Repeated(hw, m), s1, end, k - 1);
    }
  }

  // The next delivery is the same event and carries the same.
  lemma RepeatClose(hw: HwCfg, t: uint64, a: uint64, m: Msg, s: seq<Msg>, end: Stream.End)
    requires m.IsBranch() && !m.IsSync() && m.hrepeat > 0
    ensures var g := Closing(hw, 0, [], t, a, m, s, end);
            g.next.Seg? && SameEvent(g.close, g.next.close)
  {
    hide Tick, Target, LookOwner, SegsFrom, Resync, Tnts;
    XorZero(if m.IsIndirect() then XorAddr(a, m.data) else a);
  }

  lemma RepeatCarries(hw: HwCfg, m: Msg)
    requires m.IsBranch() && m.hrepeat > 0
    ensures var r := Repeated(hw, m);
            && Icnt(r) == Icnt(m) && Hists(r) == Hists(m) && r.IsBranch() && r.IsSync() == m.IsSync()
            && r.IsIndirect() == m.IsIndirect() && r.hrepeat == m.hrepeat - 1
  {
    hide Tnts;
  }

  // After the last one the stream goes on where the branch led.
  lemma {:induction false} ReplaysEnd(hw: HwCfg, i: nat, b: seq<bool>, t: uint64, a: uint64,
                                      m: Msg, s: seq<Msg>, end: Stream.End)
    requires m.IsBranch() && !m.IsSync()
    ensures var g := Closing(hw, i, b, t, a, m, s, end);
            After(g, m.hrepeat + 1)
            == SegsFrom(hw, 0, [], TimeRepeated(hw, t, m.timestamp, m.hrepeat + 1),
                        if m.IsIndirect() then XorAddr(a, m.data) else a,
                        Disowned(m.IsIndirect(), s, end, m.hrepeat + 1), end)
    decreases m.hrepeat
  {
    hide Tick, Target, LookOwner, SegsFrom, Resync, Tnts, TimeRepeated, Closing;
    TimeRepeats(hw, t, m.timestamp, m.hrepeat);
    HeadOnly(hw, i, b, t, a, m, s, end);
    BranchNext(hw, t, a, m, s, end);
    var t1, a1 := Tick(hw, t, m.timestamp), if m.IsIndirect() then XorAddr(a, m.data) else a;
    var s1 := if m.IsIndirect() then LookOwner(s, end).1 else s;
    if m.hrepeat > 0 {
      XorZero(a1);
      ReplaysEnd(hw, 0, [], t1, a1, Repeated(hw, m), s1, end);
    }
  }

  // The same instructions and outcomes before the event.
  predicate Alike(g: Trace, h: Trace)
  {
    g.icnt == h.icnt && g.tnts == h.tnts
  }

  ghost predicate AllAlike(g: Trace, n: nat)
  {
    forall k :: 0 <= k <= n ==> Alike(g, After(g, k))
  }

  // All deliveries are alike exactly if there is only one or nothing was queued
  // before the branch.
  lemma AlikeExactly(hw: HwCfg, i: nat, b: seq<bool>, t: uint64, a: uint64, m: Msg, s: seq<Msg>, end: Stream.End)
    requires m.IsBranch() && !m.IsSync()
    ensures var g := Closing(hw, i, b, t, a, m, s, end);
            AllAlike(g, m.hrepeat) <==> m.hrepeat == 0 || (i == 0 && b == [])
  {
    hide Closing, After, Hists;
    var g := Closing(hw, i, b, t, a, m, s, end);
    forall k | 0 <= k <= m.hrepeat
      ensures After(g, k).icnt == (if k == 0 then i else 0) + Icnt(m)
      ensures After(g, k).tnts == (if k == 0 then b else []) + Hists(m)
    {
      Replays(hw, i, b, t, a, m, s, end, k);
    }
    AfterNone(g);
    assert g.icnt == i + Icnt(m) && g.tnts == b + Hists(m);
    if m.hrepeat > 0 && (i > 0 || b != []) {
      assert |After(g, 1).tnts| == |Hists(m)| && |g.tnts| == |b| + |Hists(m)|;
      assert !Alike(g, After(g, 1));
    } else {
      forall k | 0 <= k <= m.hrepeat ensures Alike(g, After(g, k)) {
        assert After(g, k).tnts == b + Hists(m);
      }
    }
  }

  lemma AfterNone(g: Trace)
    ensures After(g, 0) == g
  {
  }

  // A branch followed by RepeatBranch is such a repeating branch.
  lemma RepeatBranchFolds(hw: HwCfg, i: nat, b: seq<bool>, t: uint64, a: uint64,
                          m: Msg, repeat: Msg, s: seq<Msg>, end: Stream.End)
    requires Accepted(m) && m.IsBranch() && !m.IsSync() && repeat.tcode == REPEAT_BRANCH
    ensures SegsFrom(hw, i, b, t, a, [m, repeat] + s, end)
            == Closing(hw, i, b, t, a, m.(hrepeat := repeat.hrepeat), s, end)
  {
    hide Accepted, Closing;
    assert ([m, repeat] + s)[2..] == s;
  }

  /** On the stream: ResourceFull messages, a branch and RepeatBranch(n) are
      delivered as n + 1 branches, and not once more. The first one gathers what
      the ResourceFull messages bring, all have the branch's own instructions,
      outcomes and target. */
  lemma RepeatsOnStream(hw: HwCfg, t: uint64, a: uint64, rs: seq<Msg>, m: Msg, repeat: Msg,
                        s: seq<Msg>, end: Stream.End, k: nat)
    requires AllResources(hw, rs) && Accepted(m) && m.IsBranch() && !m.IsSync()
    requires repeat.tcode == REPEAT_BRANCH && k <= repeat.hrepeat
    ensures var n := repeat.hrepeat;
            var t1 := TimeOf(hw, t, Elems(hw, rs));
            var g := SegsFrom(hw, 0, [], t, a, rs + ([m, repeat] + s), end);
            var h := After(g, k);
            && h.Seg? && SameEvent(g.close, h.close)
            && h.icnt == (if k == 0 then TotalIcnt(rs) else 0) + Icnt(m)
            && h.tnts == (if k == 0 then Expand(Elems(hw, rs)) else []) + Hists(m)
            && h.time == TimeRepeated(hw, t1, m.timestamp, k + 1)
            && After(g, n + 1)
               == SegsFrom(hw, 0, [], TimeRepeated(hw, t1, m.timestamp, n + 1),
                           if m.IsIndirect() then XorAddr(a, m.data) else a,
                           Disowned(m.IsIndirect(), s, end, n + 1), end)
  {
    hide Accepted, SegsFrom, Closing, Tnts, TimeRepeated, TimeOf, Expand, Elems, TotalIcnt, AllResources, XorAddr,
         Disowned, After;
    var b, t1, m1 := Expand(Elems(hw, rs)), TimeOf(hw, t, Elems(hw, rs)), m.(hrepeat := repeat.hrepeat);
    ResourcesAddUp(hw, 0, [], t, a, rs, [m, repeat] + s, end);
    assert [] + b == b;
    RepeatBranchFolds(hw, TotalIcnt(rs), b, t1, a, m, repeat, s, end);
    Replays(hw, TotalIcnt(rs), b, t1, a, m1, s, end, k);
    ReplaysEnd(hw, TotalIcnt(rs), b, t1, a, m1, s, end);
  }

  // ---- Syncs ----

  // Whatever is skipped, syncing again starts from the next sync message.
  lemma {:induction false} ResyncSkips(hw: HwCfg, skipped: seq<Msg>, s: seq<Msg>, end: Stream.End)
    requires forall i :: 0 <= i < |skipped| ==> Accepted(skipped[i]) && !skipped[i].IsSync()
    ensures Resync(hw, skipped + s, end) == Resync(hw, s, end)
  {
    hide Accepted, SegsFrom;
    if skipped == [] {
      assert skipped + s == s;
    } else {
      assert (skipped + s)[1..] == skipped[1..] + s;
      ResyncSkips(hw, skipped[1..], s, end);
    }
  }

  /** Syncing again on a message leaves the decoder where it would be had it
      been synced all along. The one exception is an indirect sync with an
      ownership message behind it: syncing does not take that, and the client
      is left with a message that makes no event. */
  lemma ResyncReaches(hw: HwCfg, skipped: seq<Msg>, i: nat, b: seq<bool>, t: uint64, a: uint64, m: Msg, s: seq<Msg>,
                      end: Stream.End)
    requires forall i :: 0 <= i < |skipped| ==> Accepted(skipped[i]) && !skipped[i].IsSync()
    requires Accepted(m) && m.IsSync()
    ensures var g, r := Closing(hw, i, b, t, a, m, s, end), Resync(hw, skipped + ([m] + s), end);
            var sync := if m.IsBranch() then g.next else g;
            && r.Seg? && r.icnt == 0 && r.tnts == [] && r.close == sync.close && r.time == sync.time
            && if m.IsIndirect() && s != [] && s[0].tcode == OWNERSHIP
               then r.next == Seg(0, [], Other, 0, Open(0, [], TraceEof))
               else r.next == sync.next
  {
    hide Accepted, Tick, Target, XorAddr, SegsFrom, Tnts;
    ResyncSkips(hw, skipped, [m] + s, end);
    assert ([m] + s)[1..] == s;
    if s != [] && s[0].tcode == OWNERSHIP {
      StrayOwner(hw, m.timestamp, m.data, s, end);
    }
  }

  lemma StrayOwner(hw: HwCfg, t: uint64, a: uint64, s: seq<Msg>, end: Stream.End)
    requires s != [] && s[0].tcode == OWNERSHIP
    ensures SegsFrom(hw, 0, [], t, a, s, end) == Seg(0, [], Other, 0, Open(0, [], TraceEof))
  {
    hide Tick, Target, XorAddr, Resync;
  }

  // ---- Which queues can be used up ----

  // What using up the outcomes leaves ends as the queue did.
  lemma {:induction false} UsedUpTail(hw: HwCfg, es: seq<Elem>)
    requires QueueOk(es)
    ensures var left := UsedUp(hw, es);
            QueueOk(left) && Expand(left) == [] && TailOf(left) == TailOf(es)
    decreases |Expand(es)|, |es|
  {
    hide Expand, Tnts, Rep, TailOf;
    if Expand(es) != [] {
      NothingQueued();
      if es[0].hist == 0 {
        DrainStep(hw, 0, es);
        UsedUpTail(hw, es[1..]);
      } else {
        FrontOutcomes(es);
        QueueStep(hw, 0, es);
        UsedUpTail(hw, Requeued(hw, es));
      }
    }
  }

  lemma {:induction false} DrainedTail(es: seq<Elem>)
    requires QueueOk(es) && Expand(es) == []
    ensures Drained(es) == [] <==> TailOf(es) != Stale
  {
    hide Expand, TailOf;
    NothingQueued();
    if es != [] {
      NoneLeft(es);
      if es[0].hist == 1 {
        StaleFront(es);
      } else {
        var rest := es[1..];
        assert es == [es[0]] + rest;
        TailFront(es[0], rest);
        NoOutcomes(es[0]);
        ExpandFront(es);
        assert [] + Expand(rest) == Expand(rest);
        DrainedTail(rest);
      }
    }
  }

  // What is left of the queue when a message that follows it is to be retired:
  // an outcome of its own is given out past the timestamps before it.
  ghost function QueueLeft(hw: HwCfg, es: seq<Elem>, m: Msg): seq<Elem>
    requires QueueOk(es)
  {
    if Hists(m) != [] then Drained(UsedUp(hw, es)) else UsedUp(hw, es)
  }

  /** When the outcomes are used up nothing is left of the queue, as the decoder
      asserts before it retires a message that is not an error, exactly if the
      queue ended in outcomes, or in timestamps and the message has some. */
  lemma QueueEmpties(hw: HwCfg, es: seq<Elem>, m: Msg)
    requires QueueOk(es) && !m.IsError()
    ensures QueueLeft(hw, es, m) == [] <==> Retirable(m, TailOf(es))
  {
    hide Expand, TailOf, UsedUp, Drained, Tnts;
    UsedUpTail(hw, es);
    DrainedTail(UsedUp(hw, es));
    NothingQueued();
    if UsedUp(hw, es) != [] { NoneLeft(UsedUp(hw, es)); }
  }

  // The same of the ResourceFull messages of a segment.
  lemma SegmentEmpties(hw: HwCfg, rs: seq<Msg>, m: Msg)
    requires AllResources(hw, rs) && QueueOk(Elems(hw, rs)) && (m.IsCommon() || m.IsStop())
    ensures QueueLeft(hw, Elems(hw, rs), m) == [] <==> Retirable(m, TailOf(Elems(hw, rs)))
  {
    hide QueueLeft, TailOf, Elems, Retirable;
    QueueEmpties(hw, Elems(hw, rs), m);
  }

  // Outcomes are asked for until none is queued, and on the way one is to be
  // taken of an empty history: the decoder's assertion on the front fails.
  ghost predicate MeetsEmpty(hw: HwCfg, es: seq<Elem>)
    requires Formed(es)
    decreases |Expand(es)|, |es|
  {
    NothingQueued();
    if Expand(es) == [] then false
    else if es[0].hist == 1 then true
    else if es[0].hist == 0 then
      DrainStep(hw, 0, es);
      MeetsEmpty(hw, es[1..])
    else
      QueueStep(hw, 0, es);
      SomeOutcomes(es[0]);
      MeetsEmpty(hw, Requeued(hw, es))
  }

  /** That happens exactly if an outcome is queued behind an empty history. */
  lemma {:induction false} MeetsExactly(hw: HwCfg, es: seq<Elem>)
    requires Formed(es)
    ensures MeetsEmpty(hw, es) <==> !QueueOk(es)
    decreases |Expand(es)|, |es|
  {
    hide Expand, Tnts, TailOf, QueueOk, Requeued;
    NothingQueued();
    if Expand(es) == [] {
      NoneUsable(es);
    } else if es[0].hist == 1 {
      if QueueOk(es) { StaleFront(es); }
    } else {
      OkStep(hw, es);
      if es[0].hist == 0 {
        DrainStep(hw, 0, es);
        MeetsExactly(hw, es[1..]);
      } else {
        QueueStep(hw, 0, es);
        SomeOutcomes(es[0]);
        MeetsExactly(hw, Requeued(hw, es));
      }
    }
  }

  lemma OkStep(hw: HwCfg, es: seq<Elem>)
    requires Formed(es) && es != [] && es[0].hist != 1
    ensures es[0].hist == 0 ==> Formed(es[1..]) && (QueueOk(es[1..]) <==> QueueOk(es))
    ensures es[0].hist > 1 ==> Formed(Requeued(hw, es)) && (QueueOk(Requeued(hw, es)) <==> QueueOk(es))
  {
    hide QueueOk;
    var e := es[0];
    assert es == [e] + es[1..];
    FrontApart(e, es[1..]);
    if e.hist > 1 && e.repeat > 1 {
      assert Requeued(hw, es) == [UsedOnce(hw, e)] + es[1..];
      FrontApart(UsedOnce(hw, e), es[1..]);
    }
  }

  lemma FrontApart(e: Elem, es: seq<Elem>)
    requires e.hist != 1 && Formed([e] + es)
    ensures QueueOk([e] + es) <==> QueueOk(es)
  {
    var all := [e] + es;
    if QueueOk(all) {
      forall i | 0 <= i < |es| ensures es[i] == all[i + 1] {}
    }
  }

  lemma {:induction false} ExpandJoin(es: seq<Elem>, fs: seq<Elem>)
    ensures Expand(es + fs) == Expand(es) + Expand(fs)
  {
    hide Tnts, Rep;
    if es == [] {
      assert es + fs == fs && [] + Expand(fs) == Expand(fs);
    } else {
      assert (es + fs)[1..] == es[1..] + fs;
      ExpandJoin(es[1..], fs);
    }
  }

  // ResourceFull messages behind a queue, of what they add to it: whether the
  // rest can be followed, and how many outcomes are queued by then.
  lemma {:induction false} ResourcesSound(hw: HwCfg, before: seq<Elem>, rs: seq<Msg>, s: seq<Msg>)
    requires AllResources(hw, rs) && QueueOk(before) && |Expand(before)| < U32
    ensures var es := before + Elems(hw, rs);
            Sound(hw, rs + s, |Expand(before)|, TailOf(before))
            <==> QueueOk(es) && |Expand(es)| < U32 && Sound(hw, s, |Expand(es)|, TailOf(es))
    decreases |rs|
  {
    hide Expand, Tnts, Rep, TailOf, Accepted, Resource, QueueOk, TailThen;
    if rs == [] {
      assert rs + s == s && before + [] == before;
    } else {
      var e := Resource(hw, rs[0]).value;
      var more := Elems(hw, rs[1..]);
      ElemOnce(hw, rs[0]);
      assert (rs + s)[0] == rs[0] && (rs + s)[1..] == rs[1..] + s;
      assert before + Elems(hw, rs) == (before + [e]) + more;
      ExpandAppend(before, e);
      ExpandJoin(before + [e], more);
      if TailOf(before) == Stale && e.hist > 1 {
        OutcomesBehind(before, e, more);
      } else {
        QueuePushed(hw, 0, before, e);
        if |Expand(before + [e])| < U32 {
          ResourcesSound(hw, before + [e], rs[1..], s);
        }
      }
    }
  }

  lemma ElemOnce(hw: HwCfg, m: Msg)
    requires Accepted(m) && m.IsRes() && Resource(hw, m).Some?
    ensures var e := Resource(hw, m).value; e.repeat > 0 && (e.hist == 0 ==> e.repeat == 1)
  {
  }

  lemma OutcomesBehind(before: seq<Elem>, e: Elem, more: seq<Elem>)
    requires QueueOk(before) && TailOf(before) == Stale && e.hist > 1
    ensures !QueueOk((before + [e]) + more)
  {
    StaleExactly(before);
    var es, j := (before + [e]) + more, |before|;
    var i :| 0 <= i < |before| && before[i].hist == 1;
    assert es[i].hist == 1 && es[j].hist > 1;
  }

  /** What it takes to follow a segment is just what the decoder asserts on the
      way: no outcome is queued behind an empty history, which MeetsExactly ties
      to the assertion on the front history; the 32-bit count of outcomes is
      right; and nothing is left of the queue when the message is retired. */
  lemma SegmentSound(hw: HwCfg, rs: seq<Msg>, m: Msg, s: seq<Msg>)
    requires AllResources(hw, rs) && Accepted(m) && !m.IsRes()
    ensures var es := Elems(hw, rs);
            Sound(hw, rs + ([m] + s), 0, Fresh)
            <==> && QueueOk(es)
                 && |Expand(es)| + |Hists(m)| < U32
                 && (m.IsCommon() || m.IsStop() ==> QueueLeft(hw, es, m) == [])
                 && if m.IsStop() || m.IsError() then SoundLost(hw, s) else Sound(hw, s, 0, Fresh)
  {
    hide Expand, Elems, TailOf, QueueOk, QueueLeft, Tnts, Accepted, AllResources;
    NothingQueued();
    ResourcesSound(hw, [], rs, [m] + s);
    var es := Elems(hw, rs);
    assert [] + es == es && ([m] + s)[1..] == s;
    if QueueOk(es) && (m.IsCommon() || m.IsStop()) {
      SegmentEmpties(hw, rs, m);
    }
  }

  // A history that is not zero has an outcome to give exactly if it is not 1.
  lemma UsableExactly(e: Elem)
    ensures (e.hist != 0 ==> HistBits(e.hist) > 0) <==> Usable(e)
  {
    TntsLength(e.hist);
  }

  // The outcomes an element adds.
  function Adds(e: Elem): nat
  {
    e.repeat * HistBits(e.hist)
  }

  // The decoder's count of outcomes, in 32-bit arithmetic.
  function Counted(es: seq<Elem>): uint32
  {
    if es == [] then 0
    else
      var e := es[|es| - 1];
      (Counted(es[..|es| - 1]) + Adds(e) % U32) % U32
  }

  // It is right exactly while the outcomes queued are fewer than 2^32.
  lemma {:induction false} CountExactly(es: seq<Elem>)
    ensures Counted(es) == |Expand(es)| <==> |Expand(es)| < U32
    ensures Counted(es) == |Expand(es)| % U32
  {
    hide Expand, Adds;
    NothingQueued();
    if es != [] {
      var before, e := es[..|es| - 1], es[|es| - 1];
      CountExactly(before);
      assert before + [e] == es;
      QueueGrows(before, e);
      CountStep(Counted(before), |Expand(before)|, Adds(e), |Expand(es)|);
    }
  }

  lemma CountStep(c: nat, n: nat, more: nat, n1: nat)
    requires c == n % U32 && n1 == n + more
    ensures (c + more % U32) % U32 == n1 % U32
  {
    SumWraps(n, more);
  }

  lemma QueueGrows(es: seq<Elem>, e: Elem)
    ensures |Expand(es + [e])| == |Expand(es)| + Adds(e)
  {
    hide Expand, Tnts, Rep, HistBits;
    ExpandAppend(es, e);
    RepLength(Tnts(e.hist), e.repeat);
    TntsLength(e.hist);
  }

  lemma SumWraps(a: nat, b: nat)
    ensures (a % U32 + b % U32) % U32 == (a + b) % U32
  {
  }

  // ---- The time behind a queue that is dropped ----

  // Wherever a client stops asking for outcomes, dropping what is left of the
  // queue leads to the time that using it up would.
  ghost predicate AlwaysOnTime(hw: HwCfg, t: uint64, es: seq<Elem>)
    requires QueueOk(es)
    decreases |Expand(es)|, |es|
  {
    NothingQueued();
    && TimeOnce(hw, t, es) == TimeOf(hw, t, es)
    && if Expand(es) == [] then true
       else if es[0].hist == 0 then
         DrainStep(hw, t, es);
         AlwaysOnTime(hw, Tick(hw, t, es[0].timestamp), es[1..])
       else
         FrontOutcomes(es);
         QueueStep(hw, t, es);
         AlwaysOnTime(hw, Tick(hw, t, es[0].timestamp), Requeued(hw, es))
  }

  // No history that repeats and has outcomes carries a delta.
  ghost predicate OutcomesUndated(es: seq<Elem>)
  {
    forall i :: 0 <= i < |es| && es[i].hist > 1 && es[i].repeat > 1 ==> es[i].timestamp == 0
  }

  /** That is so exactly if deltas are XOR-ed, or it holds of the whole queue and
      only histories without outcomes both repeat and carry a delta. */
  lemma {:induction false} AlwaysExactly(hw: HwCfg, t: uint64, es: seq<Elem>)
    requires QueueOk(es)
    ensures AlwaysOnTime(hw, t, es) <==> hw.quirkSifive || (Shortfall(es) % U64 == 0 && OutcomesUndated(es))
    decreases |Expand(es)|, |es|
  {
    hide Expand, Tnts, TailOf, Requeued, Shortfall, OutcomesUndated, TimeOnce, TimeOf, Tick;
    NothingQueued();
    DroppedExactly(hw, t, es);
    if Expand(es) == [] {
      NoneUsable(es);
      NoneDated(es);
    } else if es[0].hist == 0 {
      DrainStep(hw, t, es);
      ShortfallStep(hw, es);
      AlwaysExactly(hw, Tick(hw, t, es[0].timestamp), es[1..]);
    } else {
      FrontOutcomes(es);
      QueueStep(hw, t, es);
      ShortfallStep(hw, es);
      AlwaysExactly(hw, Tick(hw, t, es[0].timestamp), Requeued(hw, es));
    }
  }

  lemma NoneDated(es: seq<Elem>)
    requires forall i :: 0 <= i < |es| ==> es[i].hist < 2
    ensures OutcomesUndated(es)
  {
  }

  // What one step leaves of a queue's shortfall.
  lemma ShortfallStep(hw: HwCfg, es: seq<Elem>)
    requires Formed(es) && es != [] && es[0].hist != 1
    ensures es[0].hist == 0 ==>
              Shortfall(es[1..]) == Shortfall(es) && (OutcomesUndated(es[1..]) <==> OutcomesUndated(es))
    ensures es[0].hist > 1 && !hw.quirkSifive ==>
              var es1, d := Requeued(hw, es), if es[0].repeat > 1 then es[0].timestamp else 0;
              && Shortfall(es) == Shortfall(es1) + d
              && (OutcomesUndated(es) <==> OutcomesUndated(es1) && d == 0)
  {
    hide Extra, OutcomesUndated;
    var e, rest := es[0], es[1..];
    assert es == [e] + rest;
    UndatedFront(e, rest);
    ExtraStep(hw, e);
    if e.hist > 1 && e.repeat > 1 {
      var e1 := UsedOnce(hw, e);
      var es1 := Requeued(hw, es);
      assert es1 == [e1] + rest && es1[1..] == rest;
      UndatedFront(e1, rest);
    }
  }

  lemma ExtraStep(hw: HwCfg, e: Elem)
    ensures e.repeat <= 1 ==> Extra(e) == 0
    ensures e.repeat > 1 && !hw.quirkSifive ==> Extra(e) == Extra(UsedOnce(hw, e)) + e.timestamp
  {
    if e.repeat > 1 {
      assert (e.repeat - 1) * e.timestamp == (e.repeat - 2) * e.timestamp + e.timestamp;
    }
  }

  lemma UndatedFront(e: Elem, es: seq<Elem>)
    ensures OutcomesUndated([e] + es)
            <==> OutcomesUndated(es) && (e.hist > 1 && e.repeat > 1 ==> e.timestamp == 0)
  {
    var all := [e] + es;
    assert all[0] == e;
    if OutcomesUndated(all) {
      forall i | 0 <= i < |es| ensures es[i] == all[i + 1] {}
    }
  }

  // What the decoder queues of a segment are the elements of its messages.
  lemma {:induction false} LeadingElems(hw: HwCfg, rs: seq<Msg>, m: Msg, s: seq<Msg>)
    requires AllResources(hw, rs) && !m.IsRes()
    ensures Leading(hw, rs + ([m] + s)) == Elems(hw, rs)
  {
    hide Accepted, Resource;
    if rs == [] {
      assert rs + ([m] + s) == [m] + s;
    } else {
      assert (rs + ([m] + s))[1..] == rs[1..] + ([m] + s);
      LeadingElems(hw, rs[1..], m, s);
    }
  }

  /** A client that asks for no outcome of a segment an error ends leaves the
      decoder at the time of the error exactly if the repeats of its ResourceFull
      messages add up to nothing; whatever it asks for, exactly if none of those
      with outcomes repeats a delta either. */
  lemma ErrorOnTime(hw: HwCfg, t: uint64, a: uint64, rs: seq<Msg>, m: Msg, s: seq<Msg>, end: Stream.End)
    requires AllResources(hw, rs) && QueueOk(Elems(hw, rs)) && Accepted(m) && m.IsError()
    ensures var g := SegsFrom(hw, 0, [], t, a, rs + ([m] + s), end);
            var es := Elems(hw, rs);
            && g.Seg? && g.close.Fault? && Leading(hw, rs + ([m] + s)) == es
            && (Tick(hw, TimeOnce(hw, t, es), m.timestamp) == g.time <==> hw.quirkSifive || Shortfall(es) % U64 == 0)
            && (AlwaysOnTime(hw, t, es) <==> hw.quirkSifive || (Shortfall(es) % U64 == 0 && OutcomesUndated(es)))
  {
    hide Accepted, SegsFrom, Closing, Tnts, TimeOf, TimeOnce, Expand, Elems, TotalIcnt, AllResources, QueueOk, Tick,
         Shortfall, OutcomesUndated, AlwaysOnTime, Leading;
    var es, t1 := Elems(hw, rs), TimeOf(hw, t, Elems(hw, rs));
    var b := [] + Expand(es);
    ResourcesAddUp(hw, 0, [], t, a, rs, [m] + s, end);
    assert ([m] + s)[1..] == s;
    FetchPlain(m, s, end);
    FetchSegs(hw, 0 + TotalIcnt(rs), b, t1, a, [m] + s, end);
    LostNext(hw, 0 + TotalIcnt(rs), b, t1, a, m, s, end);
    DroppedExactly(hw, t, es);
    TickSame(hw, TimeOnce(hw, t, es), t1, m.timestamp);
    AlwaysExactly(hw, t, es);
    LeadingElems(hw, rs, m, s);
  }

  lemma FetchPlain(m: Msg, s: seq<Msg>, end: Stream.End)
    requires Accepted(m) && !m.IsBranch()
    ensures Fetch([m] + s, end) == Ok((m, s))
  {
    hide Accepted;
  }

  // A time that is right if no outcome is asked for, but not after the first.
  lemma OnTimeUntilAsked(hw: HwCfg)
    requires !hw.quirkSifive
    ensures var es := [Elem(2, 3, 0x8000_0000_0000_0000)];
            && QueueOk(es) && Shortfall(es) % U64 == 0 && !OutcomesUndated(es)
            && Shortfall(Requeued(hw, es)) % U64 != 0
  {
    var d := 0x8000_0000_0000_0000;
    var es := [Elem(2, 3, d)];
    var es1 := Requeued(hw, es);
    assert es[0].hist > 1 && es[0].repeat > 1;
    assert es[1..] == [] && es1 == [Elem(2, 2, d)] && es1[1..] == [];
    assert Shortfall([]) == 0;
  }

  // ---- Streams that break an assertion ----

  // A stream that breaks the assertion: instructions in a ResourceFull message,
  // then a branch without any outcome.
  lemma TrailingResource(hw: HwCfg)
    ensures var res, branch := BLANK.(tcode := RESOURCE_FULL, word := 5), BLANK.(tcode := INDIRECT_BRANCH);
            && AllResources(hw, [res]) && Accepted(branch) && Elems(hw, [res]) == [Elem(0, 1, 0)]
            && QueueOk(Elems(hw, [res])) && QueueLeft(hw, Elems(hw, [res]), branch) != []
            && !Sound(hw, [res, branch], 0, Fresh)
  {
    var res, branch := BLANK.(tcode := RESOURCE_FULL, word := 5), BLANK.(tcode := INDIRECT_BRANCH);
    assert [res][1..] == [] && [res, branch][1..] == [branch];
    assert Elems(hw, [res]) == [Elem(0, 1, 0)];
    TailFront(Elem(0, 1, 0), []);
    assert [Elem(0, 1, 0)] + [] == [Elem(0, 1, 0)];
    QueueEmpties(hw, [Elem(0, 1, 0)], branch);
  }

  // A history of 1: nothing uses it up before the branch behind it.
  lemma EmptyHistory(hw: HwCfg)
    ensures var res, branch := BLANK.(tcode := RESOURCE_FULL, code4 := 1, hist := 1), BLANK.(tcode := DIRECT_BRANCH);
            && AllResources(hw, [res]) && Accepted(branch) && Elems(hw, [res]) == [Elem(1, 1, 0)]
            && QueueOk(Elems(hw, [res])) && QueueLeft(hw, Elems(hw, [res]), branch) != []
            && !Sound(hw, [res, branch], 0, Fresh)
  {
    var res, branch := BLANK.(tcode := RESOURCE_FULL, code4 := 1, hist := 1), BLANK.(tcode := DIRECT_BRANCH);
    assert [res][1..] == [] && [res, branch][1..] == [branch];
    var es := [Elem(1, 1, 0)];
    assert Elems(hw, [res]) == es;
    StaleFront(es);
    QueueEmpties(hw, es, branch);
  }

  // With an outcome behind it the next one is to be taken of the history of 1.
  lemma OutcomeBehindEmptyHistory(hw: HwCfg)
    ensures var empty, one := BLANK.(tcode := RESOURCE_FULL, code4 := 1, hist := 1),
                              BLANK.(tcode := RESOURCE_FULL, code4 := 1, hist := 2);
            && AllResources(hw, [empty, one]) && Formed(Elems(hw, [empty, one]))
            && MeetsEmpty(hw, Elems(hw, [empty, one])) && !Sound(hw, [empty, one], 0, Fresh)
  {
    var empty, one := BLANK.(tcode := RESOURCE_FULL, code4 := 1, hist := 1),
                      BLANK.(tcode := RESOURCE_FULL, code4 := 1, hist := 2);
    assert [empty, one][1..] == [one] && [one][1..] == [];
    var es := [Elem(1, 1, 0), Elem(2, 1, 0)];
    assert Elems(hw, [one]) == [Elem(2, 1, 0)];
    assert Elems(hw, [empty, one]) == es;
    assert es[0].hist == 1 && es[1].hist > 1;
    MeetsExactly(hw, es);
  }

  function Copies(m: Msg, n: nat): seq<Msg>
  {
    if n == 0 then [] else [m] + Copies(m, n - 1)
  }

  lemma {:induction false} CopiesQueued(hw: HwCfg, m: Msg, n: nat)
    requires Accepted(m) && m.IsRes() && Resource(hw, m).Some?
    ensures AllResources(hw, Copies(m, n))
    ensures var e := Resource(hw, m).value;
            |Expand(Elems(hw, Copies(m, n)))| == n * (HistBits(e.hist) * e.repeat)
  {
    hide Accepted, Resource, Tnts, Rep, HistBits;
    if n > 0 {
      var e, rest := Resource(hw, m).value, Copies(m, n - 1);
      var bits := HistBits(e.hist) * e.repeat;
      CopiesQueued(hw, m, n - 1);
      assert Copies(m, n)[1..] == rest;
      var es := Elems(hw, Copies(m, n));
      assert es == [e] + Elems(hw, rest) && es[1..] == Elems(hw, rest);
      RepLength(Tnts(e.hist), e.repeat);
      TntsLength(e.hist);
      assert n * bits == bits + (n - 1) * bits;
    }
  }

  // Histories of one outcome each, repeated until the 32-bit count is zero again.
  lemma ManyOutcomes(hw: HwCfg, m: Msg, s: seq<Msg>)
    requires Accepted(m) && !m.IsRes()
    ensures var rs := Copies(BLANK.(tcode := RESOURCE_FULL, code4 := 2, hist := 2, hrepeat := 0x2_0000), 0x8000);
            && AllResources(hw, rs) && |Expand(Elems(hw, rs))| == U32 && Counted(Elems(hw, rs)) == 0
            && !Sound(hw, rs + ([m] + s), 0, Fresh)
  {
    hide Expand, Elems, AllResources, Copies, Sound, QueueOk;
    var res := BLANK.(tcode := RESOURCE_FULL, code4 := 2, hist := 2, hrepeat := 0x2_0000);
    OneOutcome(hw);
    CopiesQueued(hw, res, 0x8000);
    var rs := Copies(res, 0x8000);
    CountExactly(Elems(hw, rs));
    SegmentSound(hw, rs, m, s);
  }

  lemma OneOutcome(hw: HwCfg)
    ensures var res := BLANK.(tcode := RESOURCE_FULL, code4 := 2, hist := 2, hrepeat := 0x2_0000);
            && Accepted(res) && res.IsRes() && Resource(hw, res) == Some(Elem(2, 0x2_0000, 0)) && HistBits(2) == 1
  {
  }
}
