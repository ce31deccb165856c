// How the trace reading of a message stream behaves when part of a segment is
// already consumed, and which streams the decoder can follow.
module TraceFacts {
  import opened Bits
  import opened MsgTypes
  import opened TraceSemantics
  import Stream

  // ---- Consuming the head segment ----

  // What is consumed before the closing message is reached is simply missing
  // from the head segment.
  lemma ClosingLess(hw: HwCfg, i: nat, b: seq<bool>, j: nat, k: nat, t: uint64, a: uint64,
                    m: Msg, s: seq<Msg>, end: Stream.End)
    requires !m.IsRes() && j <= i && k <= |b|
    ensures Closing(hw, i - j, b[k..], t, a, m, s, end) == Less(Closing(hw, i, b, t, a, m, s, end), j, k)
  {
    hide Tick, Target, XorAddr, LookOwner, SegsFrom, Resync, Repeated, Tnts;
    assert b[k..] + Hists(m) == (b + Hists(m))[k..];
  }

  lemma {:induction false} SegsLess(hw: HwCfg, i: nat, b: seq<bool>, j: nat, k: nat, t: uint64, a: uint64,
                                    s: seq<Msg>, end: Stream.End)
    requires j <= i && k <= |b|
    ensures SegsFrom(hw, i - j, b[k..], t, a, s, end) == Less(SegsFrom(hw, i, b, t, a, s, end), j, k)
    decreases |s|
  {
    hide Closing, Tnts, Rep, TimeAfter, Resource, Accepted;
    if s != [] && Accepted(s[0]) {
      if s[0].IsRes() {
        if Resource(hw, s[0]).Some? {
          var e := Resource(hw, s[0]).value;
          var more := Rep(Tnts(e.hist), e.repeat);
          assert b[k..] + more == (b + more)[k..];
          SegsLess(hw, i + Icnt(s[0]), b + more, j, k, TimeAfter(hw, t, e), a, s[1..], end);
          SegsHead(hw, i + Icnt(s[0]), b + more, TimeAfter(hw, t, e), a, s[1..], end);
        }
      } else if s[0].IsBranch() && !s[0].IsSync() {
        if |s| > 1 && s[1].tcode == REPEAT_BRANCH {
          ClosingLess(hw, i, b, j, k, t, a, s[0].(hrepeat := s[1].hrepeat), s[2..], end);
        } else {
          ClosingLess(hw, i, b, j, k, t, a, s[0].(hrepeat := 0), s[1..], end);
        }
      } else {
        ClosingLess(hw, i, b, j, k, t, a, s[0], s[1..], end);
      }
    }
  }

  // The head segment holds at least what precedes its messages.
  lemma {:induction false} SegsHead(hw: HwCfg, i: nat, b: seq<bool>, t: uint64, a: uint64, s: seq<Msg>, end: Stream.End)
    ensures var g := SegsFrom(hw, i, b, t, a, s, end);
            i <= g.icnt && |b| <= |g.tnts| && g.tnts[..|b|] == b
    decreases |s|
  {
    hide Closing, Tnts, Rep, TimeAfter, Resource, Accepted;
    if s != [] && Accepted(s[0]) {
      if s[0].IsRes() {
        if Resource(hw, s[0]).Some? {
          var e := Resource(hw, s[0]).value;
          var more := Rep(Tnts(e.hist), e.repeat);
          SegsHead(hw, i + Icnt(s[0]), b + more, TimeAfter(hw, t, e), a, s[1..], end);
          var g := SegsFrom(hw, i, b, t, a, s, end);
          assert g.tnts[..|b|] == g.tnts[..|b + more|][..|b|];
        }
      } else if s[0].IsBranch() && !s[0].IsSync() {
        if |s| > 1 && s[1].tcode == REPEAT_BRANCH {
          ClosingHead(hw, i, b, t, a, s[0].(hrepeat := s[1].hrepeat), s[2..], end);
        } else {
          ClosingHead(hw, i, b, t, a, s[0].(hrepeat := 0), s[1..], end);
        }
      } else {
        ClosingHead(hw, i, b, t, a, s[0], s[1..], end);
      }
    }
  }

  lemma ClosingHead(hw: HwCfg, i: nat, b: seq<bool>, t: uint64, a: uint64, m: Msg, s: seq<Msg>, end: Stream.End)
    requires !m.IsRes()
    ensures var g := Closing(hw, i, b, t, a, m, s, end);
            g.Seg? && g.icnt == i + Icnt(m) && g.tnts == b + Hists(m)
  {
    hide Tick, Target, XorAddr, LookOwner, SegsFrom, Resync, Repeated, Tnts;
  }

  // What is left once a segment's head was consumed in two steps.
  lemma LessLess(t: Trace, i: nat, b: nat, j: nat, c: nat)
    requires i + j <= t.icnt && b + c <= |t.tnts|
    ensures Less(Less(t, i, b), j, c) == Less(t, i + j, b + c)
  {
    assert t.tnts[b..][c..] == t.tnts[b + c..];
  }

  // The trace from a message held, or from the stream if none is.
  function BaseOf(hw: HwCfg, present: bool, m: Msg, i: nat, b: seq<bool>, t: uint64, a: uint64,
                  s: seq<Msg>, end: Stream.End): Trace
    requires present ==> !m.IsRes()
  {
    if present then Closing(hw, i, b, t, a, m, s, end) else SegsFrom(hw, i, b, t, a, s, end)
  }

  lemma BaseLess(hw: HwCfg, present: bool, m: Msg, i: nat, b: seq<bool>, j: nat, k: nat, t: uint64, a: uint64,
                 s: seq<Msg>, end: Stream.End)
    requires present ==> !m.IsRes()
    requires j <= i && k <= |b|
    ensures BaseOf(hw, present, m, i - j, b[k..], t, a, s, end)
            == Less(BaseOf(hw, present, m, i, b, t, a, s, end), j, k)
  {
    hide Closing, SegsFrom, Less;
    if present {
      ClosingLess(hw, i, b, j, k, t, a, m, s, end);
    } else {
      SegsLess(hw, i, b, j, k, t, a, s, end);
    }
  }

  lemma BaseHead(hw: HwCfg, present: bool, m: Msg, i: nat, b: seq<bool>, t: uint64, a: uint64,
                 s: seq<Msg>, end: Stream.End)
    requires present ==> !m.IsRes()
    ensures var g := BaseOf(hw, present, m, i, b, t, a, s, end);
            && i <= g.icnt && |b| <= |g.tnts| && g.tnts[..|b|] == b
            && (present ==> g.Seg? && g.icnt == i + Icnt(m) && g.tnts == b + Hists(m))
  {
    hide Closing, SegsFrom, Tnts;
    if present {
      ClosingHead(hw, i, b, t, a, m, s, end);
    } else {
      SegsHead(hw, i, b, t, a, s, end);
    }
  }

  // ---- The queue of histories ----

  lemma {:induction false} RepLength(s: seq<bool>, n: nat)
    ensures |Rep(s, n)| == |s| * n
  {
    if n > 0 { RepLength(s, n - 1); }
  }

  lemma {:induction false} ExpandAppend(es: seq<Elem>, e: Elem)
    ensures Expand(es + [e]) == Expand(es) + Rep(Tnts(e.hist), e.repeat)
  {
    hide Tnts, Rep;
    if es == [] {
      assert es + [e] == [e] && [e][1..] == [];
      assert Expand([e]) == Rep(Tnts(e.hist), e.repeat) + [];
    } else {
      assert (es + [e])[1..] == es[1..] + [e];
      ExpandAppend(es[1..], e);
    }
  }

  lemma {:induction false} TimeAppend(hw: HwCfg, t: uint64, es: seq<Elem>, e: Elem)
    ensures TimeOf(hw, t, es + [e]) == TimeAfter(hw, TimeOf(hw, t, es), e)
    decreases es
  {
    hide TimeAfter;
    if es == [] {
      assert es + [e] == [e] && [e][1..] == [];
    } else {
      assert (es + [e])[1..] == es[1..] + [e];
      TimeAppend(hw, TimeAfter(hw, t, es[0]), es[1..], e);
    }
  }

  // One repetition of the front element used up: its delta is folded in, and
  // under XOR cleared so that it counts once.
  function UsedOnce(hw: HwCfg, e: Elem): Elem
    requires e.repeat > 0
  {
    e.(repeat := e.repeat - 1, timestamp := if hw.quirkSifive then 0 else e.timestamp)
  }

  lemma TimeUsed(hw: HwCfg, t: uint64, e: Elem)
    requires e.repeat > 0
    ensures TimeAfter(hw, Tick(hw, t, e.timestamp), UsedOnce(hw, e)) == TimeAfter(hw, t, e)
    ensures e.repeat == 1 ==> TimeAfter(hw, t, e) == Tick(hw, t, e.timestamp)
  {
    if hw.quirkSifive {
      XorZero(Xor(t, e.timestamp));
    } else {
      var d, n := e.timestamp, e.repeat;
      assert n * d == d + (n - 1) * d;
      ModSum(t + d, (n - 1) * d);
    }
  }

  lemma ModSum(a: nat, b: nat)
    ensures (a % U64 + b) % U64 == (a + b) % U64
  {
  }

  // ---- Streams the decoder can follow ----

  // How a queue ends: in a history with outcomes, or empty; in timestamps alone;
  // or with a history behind its last outcome that has none, which nothing uses up.
  datatype Tail = Fresh | Timed | Stale

  function TailThen(tail: Tail, e: Elem): Tail
  {
    if e.hist > 1 then Fresh else if e.hist == 1 || tail == Stale then Stale else Timed
  }

  function TailOf(es: seq<Elem>): Tail
  {
    if es == [] then Fresh else TailThen(TailOf(es[..|es| - 1]), es[|es| - 1])
  }

  /** A closing message can be retired once everything before it is consumed:
      nothing is left in the queue, because it ended in outcomes, or because the
      message has outcomes of its own and only timestamps were in their way. */
  predicate Retirable(m: Msg, tail: Tail)
  {
    m.IsError() || tail == Fresh || (tail == Timed && Hists(m) != [])
  }

  // An element holds outcomes or only a time, not an empty history.
  predicate Usable(e: Elem)
  {
    e.hist != 1
  }

  /** The stream keeps to what the decoder asserts, given how many outcomes are
      queued and how the queue ends: the outcomes of a segment are counted in 32
      bits, none follows an empty history, and the message that closes the
      segment can be retired. */
  predicate Sound(hw: HwCfg, s: seq<Msg>, queued: nat, tail: Tail)
    decreases |s|
  {
    if s == [] || !Accepted(s[0]) then true
    else if s[0].IsRes() then
      match Resource(hw, s[0])
      case None => true
      case Some(e) =>
        var n := queued + |Rep(Tnts(e.hist), e.repeat)|;
        (tail == Stale ==> e.hist < 2) && n < U32 && Sound(hw, s[1..], n, TailThen(tail, e))
    else
      && queued + |Hists(s[0])| < U32
      && (s[0].IsCommon() || s[0].IsStop() ==> Retirable(s[0], tail))
      && if s[0].IsStop() || s[0].IsError() then SoundLost(hw, s[1..]) else Sound(hw, s[1..], 0, Fresh)
  }

  // The same from the next sync on.
  predicate SoundLost(hw: HwCfg, s: seq<Msg>)
    decreases |s|
  {
    if s == [] then true
    else if s[0].IsSync() then Sound(hw, s[1..], 0, Fresh)
    else SoundLost(hw, s[1..])
  }

  // A queue that ends no worse.
  predicate NoWorse(tail1: Tail, tail: Tail)
  {
    tail1 == Fresh || tail == Stale || tail1 == tail
  }

  lemma {:induction false} SoundLess(hw: HwCfg, s: seq<Msg>, queued: nat, tail: Tail, less: nat, tail1: Tail)
    requires Sound(hw, s, queued, tail) && less <= queued && NoWorse(tail1, tail)
    ensures Sound(hw, s, less, tail1)
    decreases |s|
  {
    hide Tnts, Rep, Resource, Accepted;
    if s != [] && Accepted(s[0]) && s[0].IsRes() && Resource(hw, s[0]).Some? {
      var e := Resource(hw, s[0]).value;
      var n := |Rep(Tnts(e.hist), e.repeat)|;
      SoundLess(hw, s[1..], queued + n, TailThen(tail, e), less + n, TailThen(tail1, e));
    }
  }

  // ---- Queues ----

  // Elements as ResourceFull messages make them.
  ghost predicate Formed(es: seq<Elem>)
  {
    forall i :: 0 <= i < |es| ==> es[i].repeat > 0 && (es[i].hist == 0 ==> es[i].repeat == 1)
  }

  // No outcome is queued behind an empty history.
  ghost predicate QueueOk(es: seq<Elem>)
  {
    && Formed(es)
    && forall i, j :: 0 <= i < j < |es| && es[i].hist == 1 ==> es[j].hist < 2
  }

  // A queue ends stale exactly if it holds an empty history.
  lemma {:induction false} StaleExactly(es: seq<Elem>)
    requires QueueOk(es)
    ensures TailOf(es) == Stale <==> exists i :: 0 <= i < |es| && es[i].hist == 1
  {
    if es != [] {
      var before, e := es[..|es| - 1], es[|es| - 1];
      StaleExactly(before);
      if i :| 0 <= i < |before| && before[i].hist == 1 {
        assert es[i].hist == 1;
      }
    }
  }

  lemma TailAppend(es: seq<Elem>, e: Elem)
    ensures TailOf(es + [e]) == TailThen(TailOf(es), e)
  {
    assert (es + [e])[..|es|] == es;
  }

  // The front of a queue says nothing about how it ends, unless it is all of it.
  lemma {:induction false} TailFront(e: Elem, es: seq<Elem>)
    requires e.hist != 1
    ensures TailOf([e] + es) == if es == [] && e.hist == 0 then Timed else TailOf(es)
  {
    var all := [e] + es;
    if es == [] {
      assert all[..0] == [];
    } else {
      TailFront(e, es[..|es| - 1]);
      assert all[..|all| - 1] == [e] + es[..|es| - 1];
    }
  }
}
