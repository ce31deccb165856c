// The trace decoder: it pulls messages as a client asks for instructions and
// events, queues what ResourceFull messages bring, and retires each event once
// all that precedes it is consumed.
module TraceDecoder {
  import opened Bits
  import opened Results
  import opened MsgTypes
  import opened TraceSemantics
  import opened TraceFacts
  import opened TraceSteps
  import CodecContent
  import Stream
  import StreamDecoder
  import ReturnStack

  class Decoder {
    const msgs: StreamDecoder.MsgDecoder
    const stack: ReturnStack.RetStack
    var resHists: seq<Elem>      // histories in ResourceFull messages
    var resIcnt: uint32          // instructions in ResourceFull messages
    var resTnts: uint32          // outcomes in resHists
    var consumedIcnt: uint32     // consumed so far of the message held
    var consumedTnts: uint8      // consumed so far of the front history
    var synced: bool
    var msgPresent: bool
    var msg: Msg
    var fullAddr: uint64
    var timestamp: uint64
    ghost var left: seq<Msg>     // messages still to come
    ghost const end: Stream.End  // and how they end

    constructor (msgs: StreamDecoder.MsgDecoder)
      requires msgs.Valid() && msgs.Position() <= |msgs.file| && msgs.hw.maxStack <= 0x8000_0000
      requires Stream.Deliveries(msgs.hw, msgs.file, msgs.Position(), msgs.buffer.Length, msgs.srcFilter).1
               != Stream.Unsaid
      requires SoundLost(msgs.hw,
                         Stream.Deliveries(msgs.hw, msgs.file, msgs.Position(), msgs.buffer.Length, msgs.srcFilter).0)
      ensures this.msgs == msgs && Linked() && Inv() && !synced && View() == Resync(msgs.hw, left, end)
      ensures fresh(stack) && fresh(stack.entries) && stack.Valid() && stack.Contents() == []
              && stack.max == msgs.hw.maxStack
      ensures (left, end) == Stream.Deliveries(msgs.hw, msgs.file, msgs.Position(), msgs.buffer.Length, msgs.srcFilter)
    {
      hide Stream.Deliveries, StreamDecoder.MsgDecoder.Valid, StreamDecoder.MsgDecoder.Position, SoundLost, Resync,
           Tnts;
      this.msgs := msgs;
      resHists := [];
      resIcnt, resTnts, consumedIcnt, consumedTnts := 0, 0, 0, 0;
      synced, msgPresent, fullAddr, timestamp := false, false, 0, 0;
      stack := new ReturnStack.RetStack(msgs.hw.maxStack);
      var d := Stream.Deliveries(msgs.hw, msgs.file, msgs.Position(), msgs.buffer.Length, msgs.srcFilter);
      left, end := d.0, d.1;
    }

    // ---- The message source ----

    // What the message decoder delivers from an offset of its file on.
    ghost function From(at: nat): (seq<Msg>, Stream.End)
      requires at <= |msgs.file|
    {
      Stream.Deliveries(msgs.hw, msgs.file, at, msgs.buffer.Length, msgs.srcFilter)
    }

    // The messages to come are what the message decoder delivers.
    ghost predicate Linked()
      reads `left, msgs, msgs.buffer
    {
      && msgs.Valid() && msgs.Position() <= |msgs.file|
      && end != Stream.Unsaid
      && From(msgs.Position()) == (left, end)
    }

    // The last message can be given back.
    ghost predicate Returnable(m: Msg)
      reads this, msgs, msgs.buffer
    {
      && msgs.Valid() && 0 < msgs.lastLen <= msgs.Position() <= |msgs.file|
      && From(msgs.Position() - msgs.lastLen) == ([m] + left, end)
    }

    // The next message; false at the end of the file. Slots its kind does not
    // carry are never read, and are taken as zero.
    method NextMsg(prev: Msg) returns (r: Result<bool>, m: Msg)
      requires Linked()
      modifies msgs, msgs.buffer, `left
      ensures Linked()
      ensures if old(left) == [] then
                && left == [] && msgs.lastLen == 0
                && r == if end.Failed? then Err(end.error) else Ok(false)
              else r == Ok(true) && m == old(left)[0] && left == old(left)[1..] && Returnable(m)
      ensures m.IsCommon() ==> m.hrepeat == 0
    {
      hide Stream.BufferedNext, Content, Stream.Deliveries, StreamDecoder.MsgDecoder.Valid,
           StreamDecoder.MsgDecoder.Position;
      ghost var g := msgs.Outcome();
      msgs.OutcomeIs();
      DeliveriesStep();
      var rc, raw := msgs.Next(prev);
      m := Content(msgs.hw, raw);
      CodecContent.NoRepeatInCommon(msgs.hw, raw);
      if rc.Err? {
        return Err(rc.error), m;
      }
      if rc.value == 0 {
        return Ok(false), m;
      }
      assert [m] + left[1..] == left;
      left := left[1..];
      r := Ok(true);
    }

    lemma DeliveriesStep()
      requires msgs.Valid() && msgs.Position() <= |msgs.file|
      ensures match Stream.BufferedNext(msgs.hw, msgs.file, msgs.Position(), msgs.buffer.Length, msgs.srcFilter)
              case Got(content, start, next) =>
                && start < next <= |msgs.file|
                && From(msgs.Position()).0 != [] && From(msgs.Position()).0[0] == content
                && From(start) == From(msgs.Position())
                && From(next) == (From(msgs.Position()).0[1..], From(msgs.Position()).1)
              case Eof(at) =>
                at <= |msgs.file| && From(msgs.Position()) == From(at) == ([], Stream.AtEof)
              case Fail(at, e) =>
                at <= |msgs.file| && From(msgs.Position()) == From(at) == ([], Stream.Failed(e))
              case Unspecified => From(msgs.Position()) == ([], Stream.Unsaid)
    {
      hide Stream.BufferedNext;
      var g := Stream.BufferedNext(msgs.hw, msgs.file, msgs.Position(), msgs.buffer.Length, msgs.srcFilter);
      if g.Got? {
        Stream.DeliveredAgain(msgs.hw, msgs.file, msgs.Position(), msgs.buffer.Length, msgs.srcFilter);
      } else if g.Eof? || g.Fail? {
        Stream.HaltsAgain(msgs.hw, msgs.file, msgs.Position(), msgs.buffer.Length, msgs.srcFilter);
      }
    }

    lemma RewoundBounds()
      requires msgs.Valid()
      ensures msgs.lastLen <= msgs.Position()
    {
    }

    // Give the last message back, if there is one.
    method Unread(ghost m: Msg)
      requires Linked() && (msgs.lastLen > 0 ==> Returnable(m))
      modifies msgs, `left
      ensures Linked() && left == if old(msgs.lastLen) > 0 then [m] + old(left) else old(left)
    {
      hide Stream.Deliveries, StreamDecoder.MsgDecoder.Valid;
      if msgs.lastLen > 0 {
        left := [m] + left;
      }
      RewoundBounds();
      msgs.RewindLast();
    }

    // ---- State ----

    /** The decoder's assertions, as an invariant: the outcomes queued are
        counted, instructions are pending in the queue or consumed of the
        message held but not both, what is consumed of a history stays inside
        the front one, and no sum exceeds 32 bits. */
    ghost predicate Inv()
      reads this
    {
      && QueueOk(resHists) && |Expand(resHists)| == resTnts
      && resIcnt <= U32 - 1 - ICNT_MAX
      && (resIcnt == 0 || consumedIcnt == 0)
      && (if msgPresent then Held(msg) && consumedIcnt <= Icnt(msg) else consumedIcnt == 0)
      && (consumedTnts > 0 ==>
            if resTnts > 0 then resHists != [] && consumedTnts < |Tnts(resHists[0].hist)|
            else resHists == [] && msgPresent && consumedTnts <= |Hists(msg)|)
      && (if msgPresent then HeldSound() else if synced then Sound(msgs.hw, left, resTnts, TailOf(resHists))
          else SoundLost(msgs.hw, left))
      && (!synced ==> !msgPresent && resHists == [] && resIcnt == 0 && consumedTnts == 0)
    }

    // The message held can be retired, and what follows it can be followed.
    ghost predicate HeldSound()
      reads this
    {
      && resTnts + |Hists(msg)| < U32
      && (msg.IsCommon() || msg.IsStop() ==> Retirable(msg, TailOf(resHists)))
      && if msg.IsStop() || msg.IsError() then SoundLost(msgs.hw, left) else Sound(msgs.hw, left, 0, Fresh)
    }

    ghost function Base(): Trace
      reads this
      requires msgPresent ==> !msg.IsRes()
    {
      BaseOf(msgs.hw, msgPresent, msg, resIcnt, Expand(resHists), TimeOf(msgs.hw, timestamp, resHists),
             fullAddr, left, end)
    }

    // What is still to come of the trace.
    ghost function View(): Trace
      reads this
      requires msgPresent ==> !msg.IsRes()
    {
      if synced then Less(Base(), consumedIcnt, consumedTnts) else Resync(msgs.hw, left, end)
    }

    // The queue once all that precedes the closing message is in it.
    ghost function Queue(): seq<Elem>
      reads this
    {
      resHists + if msgPresent then [] else Leading(msgs.hw, left)
    }

    // The segment at hand, as far as its messages are here.
    lemma ViewHead()
      requires Inv() && synced
      ensures AvailableTnts() <= |View().tnts| && AvailableIcnt() <= View().icnt
      ensures var queue := Expand(resHists) + if msgPresent then Hists(msg) else [];
              consumedTnts <= |queue| && View().tnts[..AvailableTnts()] == queue[consumedTnts..]
      ensures Base().icnt >= consumedIcnt && |Base().tnts| >= consumedTnts
      ensures msgPresent ==> View().Seg? && View().icnt == AvailableIcnt() && |View().tnts| == AvailableTnts()
    {
      hide BaseOf, Tnts, TimeOf, Expand, Sound, SoundLost, QueueOk, Accepted;
      BaseHead(msgs.hw, msgPresent, msg, resIcnt, Expand(resHists), TimeOf(msgs.hw, timestamp, resHists), fullAddr,
               left, end);
      if msgPresent { TntsLength(msg.hist); }
    }

    function AvailableTnts(): (n: nat)
      reads this
      requires Inv()
      ensures n < U32
    {
      TntsLength(msg.hist);
      var tnts := resTnts + if msgPresent && msg.HasHist() then HistBits(msg.hist) else 0;
      assert consumedTnts <= tnts by { FrontFits(); }
      tnts - consumedTnts
    }

    lemma FrontFits()
      requires Inv()
      ensures resTnts > 0 ==> consumedTnts < resTnts
    {
      hide Sound, SoundLost, Accepted, Tnts, Rep;
      if consumedTnts > 0 && resTnts > 0 {
        RequeuedOutcomes(msgs.hw, resHists);
      }
    }

    function AvailableIcnt(): (n: nat)
      reads this
      requires Inv()
      ensures n < U32
    {
      var icnt := resIcnt + if msgPresent && msg.HasIcnt() then msg.word else 0;
      assert icnt >= consumedIcnt;
      icnt - consumedIcnt
    }

    // ---- Consuming ----

    // A front element that only carries a timestamp is used up.
    method DrainFront()
      requires Inv() && synced && AvailableTnts() > 0 && resHists != [] && resHists[0].hist == 0
      modifies `resHists, `timestamp
      ensures Inv() && AvailableTnts() == old(AvailableTnts()) && |resHists| < |old(resHists)|
      ensures Expand(resHists) == old(Expand(resHists))
      ensures TimeOf(msgs.hw, timestamp, resHists) == TimeOf(msgs.hw, old(timestamp), old(resHists))
      ensures resTnts > 0 ==> UsedUp(msgs.hw, resHists) == UsedUp(msgs.hw, old(resHists))
    {
      hide BaseOf, Tnts, Tick, TimeOf, Expand, Sound, SoundLost, Accepted, TailOf, UsedUp, QueueOk, HistBits, Held;
      var element := resHists[0];
      OnceOnly(resHists);
      assert element.repeat == 1;
      NoOutcomes(element);
      assert consumedTnts == 0;
      DrainStep(msgs.hw, timestamp, resHists);
      NothingQueued();
      if resTnts > 0 {
        UsedUpOn(msgs.hw, resHists);
      }
      if !msgPresent {
        SoundLess(msgs.hw, left, resTnts, TailOf(resHists), resTnts, TailOf(resHists[1..]));
      }
      timestamp := Tick(msgs.hw, timestamp, element.timestamp);
      resHists := resHists[1..];
    }

    // Elements that only carry a timestamp are used up on the way to an outcome.
    method DrainTimes()
      requires Inv() && synced && AvailableTnts() > 0
      modifies `resHists, `timestamp
      ensures Inv() && View() == old(View()) && AvailableTnts() == old(AvailableTnts())
      ensures resTnts > 0 ==> UsedUp(msgs.hw, resHists) == UsedUp(msgs.hw, old(resHists))
      ensures resHists != [] ==> resHists[0].hist > 1
      ensures resTnts == 0 ==> resHists == []
      ensures resTnts > 0 ==> resHists != []
    {
      hide BaseOf, Tnts, TimeOf, Expand, Sound, SoundLost, Accepted, Less, TailOf, UsedUp, QueueOk;
      while resHists != [] && resHists[0].hist == 0
        invariant Inv() && AvailableTnts() == old(AvailableTnts())
        invariant Expand(resHists) == old(Expand(resHists))
        invariant TimeOf(msgs.hw, timestamp, resHists) == TimeOf(msgs.hw, old(timestamp), old(resHists))
        invariant resTnts > 0 ==> UsedUp(msgs.hw, resHists) == UsedUp(msgs.hw, old(resHists))
        decreases |resHists|
      {
        DrainFront();
      }
      NothingQueued();
      if resHists != [] {
        if resTnts == 0 {
          NoneLeft(resHists);
          StaleFront(resHists);
        } else {
          FrontOutcomes(resHists);
        }
      }
    }

    // The next outcome: of the queue, or of the message held once that is empty.
    method ConsumeTnt() returns (tnt: bool)
      requires Inv() && synced && AvailableTnts() > 0
      modifies `resHists, `resTnts, `consumedTnts, `timestamp
      ensures Inv()
      ensures old(View()).tnts != [] && tnt == old(View()).tnts[0] && View() == Less(old(View()), 0, 1)
      ensures if old(resTnts) > 0 then QueueOk(resHists) && UsedUp(msgs.hw, resHists) == UsedUp(msgs.hw, old(resHists))
              else resHists == []
    {
      hide BaseOf, Less, View, AvailableTnts, UsedUp, QueueOk, Sound, SoundLost, Accepted, Expand, TailOf;
      DrainTimes();
      if resTnts == 0 {
        tnt := TakeHeldTnt();
      } else {
        tnt := TakeQueuedTnt();
      }
    }

    method TakeHeldTnt() returns (tnt: bool)
      requires Inv() && synced && AvailableTnts() > 0 && resTnts == 0 && resHists == []
      modifies `consumedTnts
      ensures Inv()
      ensures old(View()).tnts != [] && tnt == old(View()).tnts[0] && View() == Less(old(View()), 0, 1)
    {
      hide BaseOf, Tnts, Tick, TimeOf, Sound, SoundLost, Accepted, Less, Bit;
      ViewHead();
      assert msgPresent && msg.HasHist();
      TntsLength(msg.hist);
      var histBits := HistBits(msg.hist);
      assert histBits > consumedTnts;
      TntAt(msg.hist, consumedTnts);
      LessSize(Base(), consumedIcnt, consumedTnts);
      LessLess(Base(), consumedIcnt, consumedTnts, 0, 1);
      assert View().tnts[0] == View().tnts[..AvailableTnts()][0];
      consumedTnts := consumedTnts + 1;
      tnt := Bit(msg.hist, histBits - consumedTnts);
    }

    // With outcomes queued the next one is of the front element.
    lemma FrontTnt()
      requires Inv() && synced && AvailableTnts() > 0 && resTnts > 0
      requires resHists != [] && resHists[0].hist > 1
      ensures var bits := Tnts(resHists[0].hist);
              && consumedTnts < |bits| && View().tnts != [] && View().tnts[0] == bits[consumedTnts]
    {
      hide BaseOf, Tnts, Rep, TimeOf, Expand, Sound, SoundLost, Accepted, Less, TailOf, UsedOnce, Requeued;
      ViewHead();
      SomeOutcomes(resHists[0]);
      QueueStep(msgs.hw, timestamp, resHists);
      var bits, queue := Tnts(resHists[0].hist), Expand(resHists);
      assert queue[..|bits|][consumedTnts] == bits[consumedTnts];
      assert View().tnts[0] == View().tnts[..AvailableTnts()][0];
    }

    method TakeQueuedTnt() returns (tnt: bool)
      requires Inv() && synced && AvailableTnts() > 0 && resTnts > 0
      requires resHists != [] && resHists[0].hist > 1
      modifies `resHists, `resTnts, `consumedTnts, `timestamp
      ensures Inv() && UsedUp(msgs.hw, resHists) == UsedUp(msgs.hw, old(resHists))
      ensures old(View()).tnts != [] && tnt == old(View()).tnts[0] && View() == Less(old(View()), 0, 1)
    {
      hide UsedUp, BaseOf, Tnts, Rep, Tick, TimeOf, Expand, Sound, SoundLost, Accepted, Less, Bit, TailOf, Requeued;
      var element := resHists[0];
      ghost var queue, bits := Expand(resHists), Tnts(element.hist);
      ViewHead();
      FrontTnt();
      TntsLength(element.hist);
      QueueStep(msgs.hw, timestamp, resHists);
      LessSize(Base(), consumedIcnt, consumedTnts);
      LessLess(Base(), consumedIcnt, consumedTnts, 0, 1);
      SoundAfter(resTnts - |bits|);
      BaseLess(msgs.hw, msgPresent, msg, resIcnt, queue, 0, |bits|, TimeOf(msgs.hw, timestamp, resHists), fullAddr,
               left, end);
      LessLess(Base(), 0, consumedTnts + 1, consumedIcnt, 0);
      var histBits := HistBits(element.hist);
      assert histBits > consumedTnts;
      TntAt(element.hist, consumedTnts);
      consumedTnts := consumedTnts + 1;
      tnt := Bit(element.hist, histBits - consumedTnts);
      if histBits != consumedTnts {
        return;
      }
      UsedUpOn(msgs.hw, resHists);
      UseFront();
      assert Base() == Less(old(Base()), 0, |bits|);
    }

    // One repetition of the front element is used up.
    method UseFront()
      requires resHists != [] && 0 < resHists[0].repeat && HistBits(resHists[0].hist) <= resTnts
      modifies `resHists, `resTnts, `consumedTnts, `timestamp
      ensures resHists == Requeued(msgs.hw, old(resHists)) && consumedTnts == 0
      ensures resTnts == old(resTnts) - HistBits(old(resHists)[0].hist)
      ensures timestamp == Tick(msgs.hw, old(timestamp), old(resHists)[0].timestamp)
    {
      var element := resHists[0];
      consumedTnts := 0;
      timestamp := Tick(msgs.hw, timestamp, element.timestamp);
      assert resTnts >= HistBits(element.hist);
      resTnts := resTnts - HistBits(element.hist);
      assert element.repeat > 0;
      element := UsedOnce(msgs.hw, element);
      if element.repeat == 0 {
        resHists := resHists[1..];
      } else {
        resHists := resHists[0 := element];
      }
    }

    // A shorter queue is no harder to follow.
    lemma SoundAfter(fewer: nat)
      requires Inv() && synced && fewer <= resTnts
      ensures !msgPresent ==> Sound(msgs.hw, left, fewer, TailOf(resHists))
    {
      hide Sound, SoundLost, Accepted, TailOf;
      if !msgPresent {
        SoundLess(msgs.hw, left, resTnts, TailOf(resHists), fewer, TailOf(resHists));
      }
    }

    method ConsumeIcnt(icnt: uint32)
      requires Inv() && synced && icnt <= AvailableIcnt()
      modifies `resIcnt, `consumedIcnt
      ensures Inv() && View() == Less(old(View()), icnt, 0)
      ensures AvailableIcnt() == old(AvailableIcnt()) - icnt && AvailableTnts() == old(AvailableTnts())
    {
      hide BaseOf, Tnts, TimeOf, Expand, Sound, SoundLost, QueueOk, Accepted, Less;
      ViewHead();
      assert resIcnt == 0 || consumedIcnt == 0;
      ghost var b, t := Expand(resHists), TimeOf(msgs.hw, timestamp, resHists);
      LessSize(Base(), consumedIcnt, consumedTnts);
      LessLess(Base(), consumedIcnt, consumedTnts, icnt, 0);
      if resIcnt >= icnt {
        BaseLess(msgs.hw, msgPresent, msg, resIcnt, b, icnt, 0, t, fullAddr, left, end);
        LessLess(Base(), icnt, 0, 0, consumedTnts);
        resIcnt := resIcnt - icnt;
        return;
      }
      BaseLess(msgs.hw, msgPresent, msg, resIcnt, b, resIcnt, 0, t, fullAddr, left, end);
      LessLess(Base(), resIcnt, 0, icnt - resIcnt, consumedTnts);
      assert msgPresent;
      consumedIcnt := consumedIcnt + icnt - resIcnt;
      resIcnt := 0;
    }

    // ---- Fetching ----

    /** Make sure a message is held. A branch also takes in the RepeatBranch
        behind it. */
    method FetchMsg() returns (r: Result<bool>)
      requires Linked()
      modifies `msg, `msgPresent, `left, msgs, msgs.buffer
      ensures Linked()
      ensures old(msgPresent) ==> r == Ok(false) && unchanged(`msg, `msgPresent, `left)
      ensures !old(msgPresent) ==>
                match Fetch(old(left), end)
                case Ok(p) =>
                  && r == Ok(true) && msgPresent && (msg, left) == p
                  && (msg.IsCommon() && msg.IsSync() ==> msg.hrepeat == 0)
                case Err(e) =>
                  && r == Err(e)
                  && (!msgPresent ==> left == old(left))
                  && (msgPresent ==> left == [] && |old(left)| == 1 && !msg.IsSync() && !msg.IsRes())
    {
      hide Stream.Deliveries, StreamDecoder.MsgDecoder.Valid, StreamDecoder.MsgDecoder.Position, Accepted;
      if msgPresent {
        return Ok(false);
      }
      var rc;
      rc, msg := NextMsg(msg);
      if rc.Err? {
        return Err(rc.error);
      }
      if !rc.value {
        return Err(TraceEof);
      }
      if !Accepted(msg) {
        Unread(msg);
        return Err(Unsupported);
      }
      msgPresent := true;
      if !msg.IsBranch() || msg.IsSync() {
        return Ok(true);
      }
      msg := msg.(hrepeat := 0);
      var msg2;
      rc, msg2 := NextMsg(BLANK);
      if rc.Err? {
        return Err(rc.error);
      }
      if !rc.value || msg2.tcode != REPEAT_BRANCH {
        Unread(msg2);
        assert left == old(left)[1..];
        return Ok(true);
      }
      assert old(left)[1..][1..] == old(left)[2..];
      msg := msg.(hrepeat := msg2.hrepeat);
      return Ok(true);
    }

    // A closing message is held or comes next, or nothing does.
    ghost predicate Ready()
      reads this
    {
      msgPresent || Fetch(left, end).Err? || !Fetch(left, end).value.0.IsRes()
    }

    // The message an event of which was reported, or the next one.
    method HoldMsg() returns (r: Result<bool>)
      requires Linked() && Inv() && synced && Ready()
      modifies `msg, `msgPresent, `left, msgs, msgs.buffer
      ensures Linked()
      ensures r.Ok? ==> Inv() && msgPresent && View() == old(View())
      ensures r.Err? ==> old(View()).Open? && old(View()).halt == r.error
      ensures r.Err? && !msgPresent ==> Inv() && View() == old(View())
    {
      hide Linked, Accepted, Fetch, Less, Closing, SegsFrom, TimeOf, Expand, QueueOk, Sound, SoundLost, TailOf, Tnts;
      ghost var t := TimeOf(msgs.hw, timestamp, resHists);
      FetchSegs(msgs.hw, resIcnt, Expand(resHists), t, fullAddr, left, end);
      if !msgPresent {
        FetchSound(msgs.hw, left, end, resTnts, TailOf(resHists));
      }
      LessEnd(Base(), consumedIcnt, consumedTnts);
      r := FetchMsg();
    }

    // Move a ResourceFull message into the queue; false if the message is of
    // another kind, which stays held.
    method PullMsg() returns (r: Result<bool>)
      requires Linked() && Inv() && synced
      modifies `msg, `msgPresent, `left, `resHists, `resIcnt, `resTnts, msgs, msgs.buffer
      ensures Linked()
      ensures r.Ok? ==> Inv() && View() == old(View()) && Queue() == old(Queue())
      ensures r.Ok? ==> r.value == !msgPresent && |left| <= |old(left)| && (r.value ==> |left| < |old(left)|)
      ensures r.Err? && !msgPresent ==> Inv() && View() == old(View())
      ensures r.Err? ==> Stuck(r.error) || (old(View()).Open? && old(View()).halt == r.error
                                            && old(View()).icnt == old(AvailableIcnt())
                                            && |old(View()).tnts| == old(AvailableTnts()))
    {
      hide Linked, Accepted, Fetch, Less, Closing, SegsFrom, TimeOf, Expand, QueueOk, Sound, SoundLost, TailOf, Tnts,
           Leading;
      ghost var b, t := Expand(resHists), TimeOf(msgs.hw, timestamp, resHists);
      FetchLeading(msgs.hw, left, end);
      FetchSegs(msgs.hw, resIcnt, b, t, fullAddr, left, end);
      if !msgPresent {
        FetchSound(msgs.hw, left, end, resTnts, TailOf(resHists));
        FrontFits();
        LessOpen(Base(), consumedIcnt, consumedTnts);
      }
      var rc := FetchMsg();
      if rc.Err? {
        return rc;
      }
      if !msg.IsRes() {
        return Ok(false);
      }
      r := QueueRes();
    }

    method QueueRes() returns (r: Result<bool>)
      requires msgPresent && msg.IsRes() && Accepted(msg) && SoundQueued(msgs.hw, msg, left, resTnts, TailOf(resHists))
      requires QueueOk(resHists) && resTnts == |Expand(resHists)| && resIcnt <= U32 - 1 - ICNT_MAX
      modifies `msgPresent, `resHists, `resIcnt, `resTnts
      ensures r.Ok? ==> r.value && !msgPresent && Resource(msgs.hw, msg).Some?
      ensures r.Ok? ==> var e := Resource(msgs.hw, msg).value;
                        && resHists == old(resHists) + [e] && QueueOk(resHists)
                        && Expand(resHists) == old(Expand(resHists)) + Rep(Tnts(e.hist), e.repeat)
                        && resIcnt == old(resIcnt) + Icnt(msg) <= U32 - 1 - ICNT_MAX
                        && resTnts == |Expand(resHists)|
                        && TimeOf(msgs.hw, timestamp, resHists)
                           == TimeAfter(msgs.hw, old(TimeOf(msgs.hw, timestamp, resHists)), e)
                        && TailOf(resHists) == TailThen(old(TailOf(resHists)), e)
      ensures r.Err? ==> msgPresent && (Stuck(r.error) || (r.error == Unsupported && Resource(msgs.hw, msg).None?))
    {
      hide Tnts, Rep, TimeOf, TimeAfter, Expand, QueueOk, Sound, TailOf;
      if |resHists| >= ICNT_MAX {
        return Err(HistOverflow);
      }
      var element := Elem(0, 1, msg.timestamp);
      if msg.HasIcnt() {
        resIcnt := resIcnt + msg.word;
        if resIcnt > U32 - 1 - ICNT_MAX {
          return Err(IcntOverflow);
        }
      } else if msg.HasHist() {
        element := element.(hist := msg.hist);
        if msg.hrepeat != 0 {
          element := element.(repeat := msg.hrepeat);
        }
      } else if msgs.hw.quirkSifive {
        if msg.code4 == 8 {
          element := element.(hist := 2, repeat := msg.word);
        } else if msg.code4 == 9 {
          element := element.(hist := 3, repeat := msg.word);
        } else {
          return Err(Unsupported);
        }
        if element.repeat == 0 {
          return Err(Unsupported);
        }
      } else {
        return Err(Unsupported);
      }
      assert Resource(msgs.hw, msg) == Some(element);
      QueuePushed(msgs.hw, timestamp, resHists, element);
      resHists := resHists + [element];
      resTnts := resTnts + element.repeat * HistBits(element.hist);
      msgPresent := false;
      return Ok(true);
    }

    // The queue, or the count of instructions in it, is at its limit.
    ghost predicate Stuck(e: Error)
      reads this
    {
      || (e == HistOverflow && |resHists| >= ICNT_MAX)
      || (e == IcntOverflow && resIcnt > U32 - 1 - ICNT_MAX)
    }

    // ---- The message held ----

    // The event of the message held.
    lemma HeldKind()
      requires Inv() && synced && msgPresent
      ensures var c := View().close;
              && View().Seg?
              && (IsDirect(c) <==> msg.IsBranch() && !msg.IsIndirect())
              && (IsIndirect(c) <==> msg.IsIndirect())
              && (c.Sync? <==> msg.tcode == PROG_TRACE_SYNC)
              && (c.Stop? <==> msg.IsStop()) && (c.Fault? <==> msg.IsError())
    {
      hide Closing, TimeOf, Expand, QueueOk, Sound, SoundLost, Tnts, Accepted;
      ViewHead();
      ClosingKind(msgs.hw, resIcnt, Expand(resHists), TimeOf(msgs.hw, timestamp, resHists), fullAddr, msg, left, end);
    }

    // With nothing queued before it, the rest of the trace is what follows it.
    lemma HeldNext()
      requires Inv() && synced && msgPresent && resIcnt == 0 && resHists == []
      ensures var g, c := View(), Closing(msgs.hw, 0, [], timestamp, fullAddr, msg, left, end);
              g.Seg? && c.Seg? && g.close == c.close && g.time == c.time && g.next == c.next
    {
      hide Closing, QueueOk, Sound, SoundLost, Tnts, Accepted;
      ViewHead();
      NothingQueued();
      LessClose(Base(), consumedIcnt, consumedTnts);
    }

    // The event of the message held.
    method HeldEvent() returns (event: Event)
      requires Inv() && synced && msgPresent && AvailableIcnt() == 0
      ensures View().Seg? && event == EventOf(View())
    {
      hide Less, SegsFrom, Resync, TimeOf, Expand, QueueOk, Sound, SoundLost, TailOf, Tnts, Accepted, Target, XorAddr,
           LookOwner, Tick, Repeated;
      ViewHead();
      LessClose(Base(), consumedIcnt, consumedTnts);
      if msg.IsError() {
        return ErrorEvent;
      }
      if AvailableTnts() > 0 {
        return DirectEvent;
      }
      RetireReady();
      TntsLength(msg.hist);
      assert msg.HasHist() ==> consumedTnts == HistBits(msg.hist);
      if msg.IsBranch() {
        if msg.IsIndirect() {
          event := if msg.code2 != 0 then TrapEvent else if msg.IsSync() then IndirectSyncEvent else IndirectEvent;
        } else {
          event := if msg.IsSync() then DirectSyncEvent else DirectEvent;
        }
      } else if msg.IsSync() {
        event := SyncEvent;
      } else if msg.IsStop() {
        event := StopEvent;
      } else {
        event := NoEvent;
      }
    }

    // Nothing that precedes the event of the message held is left.
    lemma RetireReady()
      requires Inv() && synced && msgPresent && AvailableTnts() == 0
      ensures resTnts == 0 && consumedTnts == |Hists(msg)|
      ensures AvailableIcnt() == 0 ==> resIcnt == 0 && consumedIcnt == Icnt(msg)
      ensures msg.IsCommon() || msg.IsStop() ==> resHists == []
    {
      hide BaseOf, Tnts, Rep, TimeOf, Sound, SoundLost, Accepted;
      TntsLength(msg.hist);
      FrontFits();
      if resHists != [] { NoneLeft(resHists); }
    }

    /** Retire the message held, everything before it being consumed. A sync
        branch stays as the sync it also is; another branch stays while it
        repeats. */
    method RetireMsg()
      requires msgPresent && Held(msg) && stack.Valid()
      requires resIcnt == 0 && resHists == [] && consumedIcnt == Icnt(msg) && consumedTnts == |Hists(msg)|
      modifies `consumedIcnt, `consumedTnts, `timestamp, `msg, `msgPresent, `fullAddr, stack
      ensures stack.Valid() && stack.entries == old(stack.entries)
      ensures stack.Contents() == if old(msg).tcode == PROG_TRACE_SYNC then [] else old(stack.Contents())
      ensures consumedIcnt == 0 && consumedTnts == 0
      ensures fullAddr == if old(msg).tcode == PROG_TRACE_SYNC then old(msg).data else old(fullAddr)
      ensures timestamp == if old(msg).IsSync() then old(msg).timestamp
                           else Tick(msgs.hw, old(timestamp), old(msg).timestamp)
      ensures if old(msg).IsBranch() && old(msg).IsSync() then msgPresent && msg == Downgraded(old(msg))
              else if old(msg).IsBranch() && old(msg).hrepeat > 0 then
                msgPresent && msg == old(msg).(hrepeat := old(msg).hrepeat - 1,
                                               timestamp := if msgs.hw.quirkSifive then 0 else old(msg).timestamp)
              else !msgPresent
    {
      hide Tick, Tnts, Accepted;
      TntsLength(msg.hist);
      assert msg.tcode != RESOURCE_FULL;
      assert if msg.HasIcnt() then consumedIcnt == msg.word else consumedIcnt == 0;
      assert if msg.HasHist() then consumedTnts == HistBits(msg.hist) else consumedTnts == 0;
      consumedIcnt := 0;
      consumedTnts := 0;
      if msg.IsBranch() {
        if msg.IsSync() {
          assert msg.hrepeat == 0;
          timestamp := msg.timestamp;
          msg := msg.(tcode := PROG_TRACE_SYNC, word := 0, hist := 0);
        } else {
          timestamp := Tick(msgs.hw, timestamp, msg.timestamp);
          if msgs.hw.quirkSifive {
            msg := msg.(timestamp := 0);
          }
          if msg.hrepeat > 0 {
            msg := msg.(hrepeat := msg.hrepeat - 1);
          } else {
            msgPresent := false;
          }
        }
        return;
      }
      if msg.IsSync() {
        timestamp := msg.timestamp;
        fullAddr := msg.data;
        stack.Clear();
      } else {
        timestamp := Tick(msgs.hw, timestamp, msg.timestamp);
      }
      msgPresent := false;
    }

    lemma ViewFresh()
      requires synced && resIcnt == 0 && resHists == [] && consumedIcnt == 0 && consumedTnts == 0
      requires msgPresent ==> !msg.IsRes()
      ensures View() == BaseOf(msgs.hw, msgPresent, msg, 0, [], timestamp, fullAddr, left, end)
    {
      hide BaseOf;
      NothingQueued();
      LessNone(Base());
    }

    /** Retire the branch m, with a the address before it. What follows is the
        rest of the trace once the ownership of an indirect branch is taken. */
    method RetireBranch(ghost m: Msg, ghost a: uint64)
      requires synced && msgPresent && Held(m) && m.IsBranch() && Sound(msgs.hw, left, 0, Fresh) && stack.Valid()
      requires resIcnt == 0 && resHists == [] && resTnts == 0 && consumedIcnt == Icnt(m) && consumedTnts == |Hists(m)|
      requires msg == if m.IsIndirect() && !m.IsSync() then m.(data := 0) else m
      requires !m.IsSync() ==> fullAddr == if m.IsIndirect() then XorAddr(a, m.data) else a
      modifies `consumedIcnt, `consumedTnts, `timestamp, `msg, `msgPresent, `fullAddr, stack
      ensures stack.Valid() && stack.entries == old(stack.entries) && stack.Contents() == old(stack.Contents())
      ensures Inv() && consumedIcnt == 0 && consumedTnts == 0 && (msgPresent ==> msg.IsCommon())
      ensures var g := Closing(msgs.hw, 0, [], old(timestamp), a, m, left, end);
              var rest := if m.IsIndirect() then LookOwner(left, end).1 else left;
              && timestamp == g.time
              && BaseOf(msgs.hw, msgPresent, msg, 0, [], timestamp, fullAddr, rest, end) == g.next
    {
      hide Linked, Less, SegsFrom, TimeOf, Sound, SoundLost, Tnts, Tick, Target, XorAddr, LookOwner, BitLen, Closing,
           Expand, QueueOk, TailOf;
      NothingQueued();
      BranchNext(msgs.hw, timestamp, a, m, left, end);
      RetireMsg();
      if m.IsSync() {
        SyncAgain(msgs.hw, timestamp, fullAddr, a, msg, if m.IsIndirect() then LookOwner(left, end).1 else left, end);
      }
    }

    // ---- Requests ----

    /** Retire up to icnt half-words of instructions. All that precede the next
        event are retired if that is no more, and the event is reported. */
    method TryRetire(icnt: uint32) returns (r: Result<nat>, event: Event)
      requires Linked() && Inv()
      modifies `msg, `msgPresent, `left, `resHists, `resIcnt, `resTnts, `consumedIcnt, msgs, msgs.buffer
      ensures Linked()
      ensures !old(synced) ==> r == Err(NotSynced) && event == NoEvent && !synced && Inv() && View() == old(View())
      ensures old(synced) && r.Ok? ==>
                var g, n := old(View()), if icnt > INT32_MAX then INT32_MAX else icnt;
                && Inv() && View() == Less(g, r.value, 0) && Queue() == old(Queue())
                && if n < g.icnt then r.value == n && event == NoEvent
                   else g.Seg? && r.value == g.icnt && event == EventOf(View()) && msgPresent
      ensures old(synced) && r.Err? ==>
                var g, n := old(View()), if icnt > INT32_MAX then INT32_MAX else icnt;
                && event == NoEvent && (!msgPresent ==> Inv() && View() == g)
                && (Stuck(r.error) || (g.Open? && g.icnt <= n && r.error == g.halt))
    {
      hide Linked, Less, Closing, SegsFrom, Resync, BaseOf, TimeOf, Expand, QueueOk, Sound, SoundLost, TailOf, Tnts,
           Accepted, EventOf, Leading;
      event := NoEvent;
      if !synced {
        return Err(NotSynced), event;
      }
      var n := if icnt > INT32_MAX then INT32_MAX else icnt;
      var pulled := true;
      while true
        invariant Linked() && Inv() && View() == old(View()) && Queue() == old(Queue())
        invariant !pulled ==> msgPresent
        decreases |left|, pulled
      {
        ViewHead();
        if n < AvailableIcnt() {
          ConsumeIcnt(n);
          return Ok(n), event;
        }
        if !pulled {
          break;
        }
        var rc := PullMsg();
        if rc.Err? {
          return Err(rc.error), event;
        }
        pulled := rc.value;
      }
      assert msgPresent;
      n := AvailableIcnt();
      ConsumeIcnt(n);
      event := HeldEvent();
      r := Ok(n);
    }

    /** The outcome of the next branch: one of the histories, or a branch not
        taken while instructions are left, or a direct branch that is retired. */
    method NextTnt() returns (r: Result<bool>)
      requires Linked() && Inv() && stack.Valid()
      modifies this, msgs, msgs.buffer, stack
      ensures Linked() && stack.Valid() && stack.entries == old(stack.entries)
              && stack.Contents() == old(stack.Contents())
      ensures !old(synced) ==> r == Err(NotSynced) && !synced && Inv() && View() == old(View())
      ensures old(synced) && r.Ok? ==>
                var g := old(View());
                && Inv() && synced
                && if g.tnts != [] then r.value == g.tnts[0] && View() == Less(g, 0, 1)
                   else if g.icnt > 0 then g.Seg? && !r.value && View() == g
                   else g.Seg? && IsDirect(g.close) && r.value && View() == g.next && timestamp == g.time
      ensures old(synced) && r.Err? ==>
                var g := old(View());
                && (!msgPresent || (g.Seg? && r.error == Mismatch) ==> Inv() && synced && View() == g)
                && (Stuck(r.error)
                    || (g.tnts == [] && if g.Open? then r.error == g.halt
                                        else r.error == Mismatch && g.icnt == 0 && !IsDirect(g.close)))
    {
      hide Linked, Less, Closing, SegsFrom, Resync, BaseOf, TimeOf, Expand, QueueOk, Sound, SoundLost, TailOf, Tnts,
           Accepted, AvailableTnts, AvailableIcnt, Tick;
      if !synced {
        return Err(NotSynced);
      }
      var pulled := true;
      while true
        invariant Linked() && Inv() && View() == old(View()) && synced
        invariant unchanged(stack)
        invariant !pulled ==> msgPresent
        decreases |left|, pulled
      {
        ViewHead();
        if AvailableTnts() > 0 {
          var tnt := ConsumeTnt();
          return Ok(tnt);
        }
        if !pulled {
          break;
        }
        var rc := PullMsg();
        if rc.Err? {
          return Err(rc.error);
        }
        pulled := rc.value;
      }
      assert msgPresent;
      if AvailableIcnt() > 0 {
        return Ok(false);
      }
      HeldKind();
      if !msg.IsBranch() || msg.IsIndirect() {
        return Err(Mismatch);
      }
      RetireReady();
      HeldNext();
      RetireBranch(msg, fullAddr);
      ViewFresh();
      return Ok(true);
    }

    // Apply the address of the indirect branch held, and retire it.
    method RetireIndirect() returns (target: uint64)
      requires synced && msgPresent && Held(msg) && msg.IsIndirect() && Sound(msgs.hw, left, 0, Fresh) && stack.Valid()
      requires resIcnt == 0 && resHists == [] && resTnts == 0 && consumedIcnt == Icnt(msg)
               && consumedTnts == |Hists(msg)|
      modifies `consumedIcnt, `consumedTnts, `timestamp, `msg, `msgPresent, `fullAddr, stack
      ensures stack.Valid() && stack.entries == old(stack.entries) && stack.Contents() == old(stack.Contents())
      ensures Inv() && consumedIcnt == 0 && consumedTnts == 0 && (msgPresent ==> msg.IsCommon())
      ensures var g := Closing(msgs.hw, 0, [], old(timestamp), old(fullAddr), old(msg), left, end);
              && IsIndirect(g.close) && g.close.btype == old(msg.code2) && g.close.target == target
              && g.close.owner == LookOwner(left, end).0 && timestamp == g.time
              && BaseOf(msgs.hw, msgPresent, msg, 0, [], timestamp, fullAddr, LookOwner(left, end).1, end) == g.next
    {
      hide Closing, BaseOf, Sound, SoundLost, Tnts, Accepted, Tick, Target, XorAddr, LookOwner, Inv;
      IndirectClose(msgs.hw, timestamp, fullAddr, msg, left, end);
      ghost var a, m := fullAddr, msg;
      if msg.IsSync() {
        fullAddr := msg.data;
      } else {
        fullAddr := XorAddr(fullAddr, msg.data);
        msg := msg.(data := 0);
      }
      target := Target(msgs.hw, fullAddr);
      RetireBranch(m, a);
    }

    // The ownership message behind an indirect branch, if there is one.
    method TakeOwner() returns (owner: Ownership)
      requires Linked() && Inv() && synced
      requires Sound(msgs.hw, left, 0, Fresh) && resHists == [] && resTnts == 0
      requires msgPresent ==> !msg.IsStop() && !msg.IsError()
      modifies `left, msgs, msgs.buffer
      ensures Linked() && Inv()
      ensures (owner, left) == LookOwner(old(left), end)
    {
      hide Linked, Sound, SoundLost, QueueOk, Accepted, Tnts, Expand, Stream.Deliveries, StreamDecoder.MsgDecoder.Valid,
           StreamDecoder.MsgDecoder.Position;
      OwnerSound(msgs.hw, left);
      var rc, msg2 := NextMsg(BLANK);
      if rc.Err? {
        return Broken(rc.error);
      }
      if !rc.value || msg2.tcode != OWNERSHIP {
        Unread(msg2);
        assert left == old(left);
        return NoOwner;
      }
      return Owner(msg2.code4 % 4, msg2.code4 / 4, msg2.code2 % 2 == 1, msg2.data);
    }

    /** Take the indirect branch reported: where it went, and the process it
        belongs to if the next message says so. */
    method NextIndirect() returns (r: Result<Indirection>)
      requires Linked() && Inv() && stack.Valid() && Ready()
      modifies this, msgs, msgs.buffer, stack
      ensures Linked() && stack.Valid() && stack.entries == old(stack.entries)
              && stack.Contents() == old(stack.Contents())
      ensures !old(synced) ==> r == Err(NotSynced) && !synced && Inv() && View() == old(View())
      ensures old(synced) ==>
                var g := old(View());
                if g.Open? then r == Err(g.halt) && (!msgPresent ==> Inv() && View() == g)
                else if g.icnt == 0 && g.tnts == [] && IsIndirect(g.close) then
                  && Inv() && synced && View() == g.next && timestamp == g.time
                  && r == if g.close.owner.Broken? then Err(g.close.owner.error) else Ok(IndirectionOf(g.close))
                else r == Err(Mismatch) && Inv() && synced && View() == g
    {
      hide Linked, Less, Closing, SegsFrom, Resync, BaseOf, TimeOf, Expand, QueueOk, Sound, SoundLost, TailOf, Tnts,
           Accepted, Tick, Target, XorAddr, LookOwner, AvailableTnts, AvailableIcnt, Fetch;
      if !synced {
        return Err(NotSynced);
      }
      var rc := HoldMsg();
      if rc.Err? {
        return Err(rc.error);
      }
      ViewHead();
      if AvailableIcnt() > 0 || AvailableTnts() > 0 {
        return Err(Mismatch);
      }
      HeldKind();
      if !msg.IsBranch() || !msg.IsIndirect() {
        return Err(Mismatch);
      }
      RetireReady();
      HeldNext();
      var btype := msg.code2;
      var target := RetireIndirect();
      var owner := TakeOwner();
      ViewFresh();
      if owner.Broken? {
        return Err(owner.error);
      }
      r := Ok(Indirection(target, btype == 1 || btype == 3, btype == 1 || btype == 2, owner));
    }

    /** Take the sync reported: its reason and its address. The return stack is
        emptied, as the sender's is. */
    method NextSync() returns (r: Result<(uint4, uint64)>)
      requires Linked() && Inv() && stack.Valid() && Ready()
      modifies this, msgs, msgs.buffer, stack
      ensures Linked() && stack.Valid() && stack.entries == old(stack.entries)
      ensures r.Err? ==> stack.Contents() == old(stack.Contents())
      ensures !old(synced) ==> r == Err(NotSynced) && !synced && Inv() && View() == old(View())
      ensures old(synced) ==>
                var g := old(View());
                if g.Open? then r == Err(g.halt) && (!msgPresent ==> Inv() && View() == g)
                else if g.icnt == 0 && g.tnts == [] && g.close.Sync? then
                  && Inv() && synced && View() == g.next && timestamp == g.time
                  && stack.Contents() == [] && r == Ok((g.close.code, g.close.addr))
                else r == Err(Mismatch) && Inv() && synced && View() == g
    {
      hide Linked, Less, Closing, SegsFrom, Resync, BaseOf, TimeOf, Expand, QueueOk, Sound, SoundLost, TailOf, Tnts,
           Accepted, Tick, Target, AvailableTnts, AvailableIcnt, Fetch;
      if !synced {
        return Err(NotSynced);
      }
      var rc := HoldMsg();
      if rc.Err? {
        return Err(rc.error);
      }
      ViewHead();
      if AvailableIcnt() > 0 || AvailableTnts() > 0 {
        return Err(Mismatch);
      }
      HeldKind();
      if !msg.IsSync() || msg.IsBranch() {
        return Err(Mismatch);
      }
      r := Ok((msg.code4, Target(msgs.hw, msg.data)));
      RetireReady();
      HeldNext();
      SyncNext(msgs.hw, 0, [], timestamp, fullAddr, msg, left, end);
      NothingQueued();
      RetireMsg();
      assert !msgPresent;
      NoneBase(msgs.hw, msg, timestamp, fullAddr, left, end);
      ViewFresh();
    }

    /** Take the stop reported: why tracing stopped. The decoder has to be
        synced again. */
    method NextStop() returns (r: Result<uint4>)
      requires Linked() && Inv() && stack.Valid() && Ready()
      modifies this, msgs, msgs.buffer, stack
      ensures Linked() && stack.Valid() && stack.entries == old(stack.entries)
              && stack.Contents() == old(stack.Contents())
      ensures !old(synced) ==> r == Err(NotSynced) && !synced && Inv() && View() == old(View())
      ensures old(synced) ==>
                var g := old(View());
                if g.Open? then r == Err(g.halt) && (!msgPresent ==> Inv() && View() == g)
                else if g.icnt == 0 && g.tnts == [] && g.close.Stop? then
                  && Inv() && !synced && View() == g.next && timestamp == g.time && r == Ok(g.close.evcode)
                else r == Err(Mismatch) && Inv() && synced && View() == g
    {
      hide Linked, Less, Closing, SegsFrom, Resync, BaseOf, TimeOf, Expand, QueueOk, Sound, SoundLost, TailOf, Tnts,
           Accepted, Tick, Target, AvailableTnts, AvailableIcnt, Fetch;
      if !synced {
        return Err(NotSynced);
      }
      var rc := HoldMsg();
      if rc.Err? {
        return Err(rc.error);
      }
      ViewHead();
      if AvailableIcnt() > 0 || AvailableTnts() > 0 {
        return Err(Mismatch);
      }
      HeldKind();
      if msg.tcode != PROG_TRACE_CORRELATION {
        return Err(Mismatch);
      }
      r := Ok(msg.code4);
      RetireReady();
      HeldNext();
      LostNext(msgs.hw, 0, [], timestamp, fullAddr, msg, left, end);
      NothingQueued();
      RetireMsg();
      assert !msgPresent;
      synced := false;
    }

    /** Take the error reported, dropping whatever of the segment was not asked
        for. The decoder has to be synced again. */
    method NextError() returns (r: Result<(uint4, uint32)>)
      requires Linked() && Inv() && stack.Valid() && Ready()
      modifies this, msgs, msgs.buffer, stack
      ensures Linked() && stack.Valid() && stack.entries == old(stack.entries)
              && stack.Contents() == old(stack.Contents())
      ensures !old(synced) ==> r == Err(NotSynced) && !synced && Inv() && View() == old(View())
      ensures old(synced) ==>
                var g := old(View());
                if g.Open? then r == Err(g.halt) && (!msgPresent ==> Inv() && View() == g)
                else if g.close.Fault? then
                  && Inv() && !synced && View() == g.next && r == Ok((g.close.etype, g.close.ecode))
                  && (timestamp == g.time <==> msgs.hw.quirkSifive || Shortfall(old(Queue())) % U64 == 0)
                  && (msgs.hw.quirkSifive || (g.tnts == [] && old(TailOf(Queue())) != Stale) ==> timestamp == g.time)
                else r == Err(Mismatch) && Inv() && synced && View() == g
    {
      hide Inv, View, Queue, Ready, Linked, AvailableTnts, AvailableIcnt, Shortfall, TailOf, Accepted;
      if !synced {
        return Err(NotSynced);
      }
      ReadyQueue();
      ViewHead();
      DroppedTime();
      var rc := HoldMsg();
      if rc.Err? {
        return Err(rc.error);
      }
      HeldKind();
      if msg.tcode != ERROR {
        return Err(Mismatch);
      }
      r := Ok((msg.code4, msg.word));
      DropSegment();
    }

    // Drop everything queued, and the error message behind it.
    method DropSegment()
      requires Inv() && synced && msgPresent && msg.IsError() && stack.Valid()
      modifies this, stack
      ensures Inv() && !synced && unchanged(`left)
      ensures stack.Valid() && stack.entries == old(stack.entries) && stack.Contents() == old(stack.Contents())
      ensures var g := old(View());
              && g.Seg? && g.close == old(Fault(msg.code4, msg.word)) && View() == g.next
              && (timestamp == g.time <==> msgs.hw.quirkSifive || Shortfall(old(resHists)) % U64 == 0)
    {
      hide Linked, Less, Closing, SegsFrom, Resync, BaseOf, TimeOf, Expand, QueueOk, Sound, SoundLost, TailOf, Tnts,
           Accepted, Tick, Target, AvailableTnts, AvailableIcnt, Fetch, TimeOnce, Shortfall, Held;
      HeldError();
      ghost var dropped, all := TimeOnce(msgs.hw, timestamp, resHists), TimeOf(msgs.hw, timestamp, resHists);
      TickSame(msgs.hw, dropped, all, msg.timestamp);
      DroppedExactly(msgs.hw, timestamp, resHists);
      resIcnt := 0;
      resTnts := 0;
      consumedIcnt := 0;
      consumedTnts := 0;
      DrainAll();
      NothingQueued();
      RetireMsg();
      assert !msgPresent;
      synced := false;
    }

    // With a closing message at hand the queue is complete.
    lemma ReadyQueue()
      requires Ready()
      ensures Queue() == resHists
    {
      hide Fetch, Leading;
      FetchLeading(msgs.hw, left, end);
    }

    // With nothing but timestamps queued nothing is left out of the time.
    lemma DroppedTime()
      requires Inv() && synced
      ensures AvailableTnts() == 0 && TailOf(resHists) != Stale ==> Shortfall(resHists) == 0
    {
      hide Expand, QueueOk, Sound, SoundLost, Tnts, Accepted, TailOf, Held, Shortfall;
      if AvailableTnts() == 0 && TailOf(resHists) != Stale {
        FrontFits();
        TimesAlone(msgs.hw, resHists);
      }
    }

    lemma HeldError()
      requires Inv() && synced && msgPresent && msg.IsError()
      ensures var g := View();
              && g.Seg? && g.close == Fault(msg.code4, msg.word) && g.next == Resync(msgs.hw, left, end)
              && g.time == Tick(msgs.hw, TimeOf(msgs.hw, timestamp, resHists), msg.timestamp)
    {
      hide Less, Closing, Resync, TimeOf, Expand, QueueOk, Sound, SoundLost, Tnts, Accepted, Tick;
      ViewHead();
      LostNext(msgs.hw, resIcnt, Expand(resHists), TimeOf(msgs.hw, timestamp, resHists), fullAddr, msg, left, end);
      LessClose(Base(), consumedIcnt, consumedTnts);
      LessEnd(Base(), consumedIcnt, consumedTnts);
    }

    // Drop the queue, folding in each element's time once.
    method DrainAll()
      modifies `resHists, `timestamp
      ensures resHists == []
      ensures timestamp == TimeOnce(msgs.hw, old(timestamp), old(resHists))
    {
      hide Tick;
      while resHists != []
        invariant TimeOnce(msgs.hw, timestamp, resHists) == TimeOnce(msgs.hw, old(timestamp), old(resHists))
      {
        timestamp := Tick(msgs.hw, timestamp, resHists[0].timestamp);
        resHists := resHists[1..];
      }
    }

    // Start from the sync message held, which retires no instructions.
    method Downgrade()
      requires !synced && msgPresent && msg.IsSync() && msg.hrepeat == 0 && Sound(msgs.hw, left, 0, Fresh)
      modifies this
      ensures Inv() && synced && msgPresent && unchanged(`left)
      ensures View() == Seg(0, [], Sync(old(msg).code4, Target(msgs.hw, old(msg).data)), old(msg).timestamp,
                            SegsFrom(msgs.hw, 0, [], old(msg).timestamp, old(msg).data, left, end))
    {
      hide Closing, SegsFrom, Resync, TimeOf, Expand, QueueOk, Sound, SoundLost, TailOf, Tnts, Target, Less, BitLen;
      resHists, resTnts, resIcnt, consumedTnts, consumedIcnt := [], 0, 0, 0, 0;
      synced := true;
      msg := msg.(tcode := PROG_TRACE_SYNC, word := 0);
      NothingQueued();
      ViewFresh();
      SyncNext(msgs.hw, 0, [], timestamp, fullAddr, msg, left, end);
    }

    /** Skip to the next sync message, whatever it is, and take it as a sync. */
    method SyncReset() returns (r: Result<Option<(uint4, uint64)>>)
      requires Linked() && Inv() && stack.Valid()
      modifies this, msgs, msgs.buffer, stack
      ensures Linked() && stack.Valid() && stack.entries == old(stack.entries)
      ensures old(synced) ==>
                && r == Ok(None) && synced && Inv() && View() == old(View())
                && stack.Contents() == old(stack.Contents())
      ensures !old(synced) ==>
                var g := old(View());
                if g.Open? then r == Err(g.halt) && (!msgPresent ==> Inv() && !synced && View() == g)
                else
                  && g.icnt == 0 && g.tnts == [] && g.close.Sync?
                  && Inv() && synced && View() == g.next && timestamp == g.time
                  && stack.Contents() == [] && r == Ok(Some((g.close.code, g.close.addr)))
    {
      hide Linked, Less, Closing, SegsFrom, Resync, BaseOf, TimeOf, Expand, QueueOk, Sound, SoundLost, TailOf, Tnts,
           Accepted, Tick, Target, AvailableTnts, AvailableIcnt, Fetch;
      if synced {
        return Ok(None);
      }
      while true
        invariant Linked() && Inv() && !synced && View() == old(View()) && unchanged(stack)
        decreases |left|
      {
        FetchResync(msgs.hw, left, end);
        if Fetch(left, end).Ok? {
          FetchLost(msgs.hw, left, end);
        }
        var rc := FetchMsg();
        if rc.Err? {
          return Err(rc.error);
        }
        if msg.IsSync() {
          break;
        }
        msgPresent := false;
      }
      Downgrade();
      var sync := NextSync();
      r := Ok(Some(sync.value));
    }

    // ---- Calls ----

    method PushCall(callsite: uint64)
      requires stack.Valid()
      modifies stack, stack.entries
      ensures stack.Valid() && stack.Contents() == ReturnStack.Pushed(old(stack.Contents()), callsite, stack.max)
      ensures stack.entries == old(stack.entries) || fresh(stack.entries)
    {
      stack.Push(callsite);
    }

    method PopRet() returns (r: Result<uint64>)
      requires stack.Valid()
      modifies stack
      ensures stack.Valid() && stack.entries == old(stack.entries)
      ensures if old(stack.Contents()) == [] then r == Err(StackEmpty) && stack.Contents() == []
              else r == Ok(old(stack.Contents()[|stack.Contents()| - 1]))
                   && stack.Contents() == old(stack.Contents()[..|stack.Contents()| - 1])
    {
      r := stack.Pop();
    }
  }
}
