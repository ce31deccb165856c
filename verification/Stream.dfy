// The messages of a trace file: what reading it through a buffer of a given
// size delivers, and what decoding the whole file in memory would.
module Stream {
  import opened Results
  import opened Protocol
  import opened MsgTypes
  import opened Codec
  import opened CodecContent
  import CodecFraming

  /** What asking for the next message comes to: the end of the file, an error
      at some offset, or a message with the offsets where it starts and ends.
      A source filter looks at the SRC of an Idle message, which has none, so
      nothing is promised once it meets one. */
  datatype Outcome =
    | Eof(at: nat)
    | Fail(at: nat, error: Error)
    | Got(content: Msg, start: nat, next: nat)
    | Unspecified

  // The part of the file a buffer of the given size can hold from off on.
  function Window(file: seq<byte>, off: nat, bufsz: nat): seq<byte>
    requires off <= |file|
  {
    if off + bufsz <= |file| then file[off..off + bufsz] else file[off..]
  }

  predicate Filtered(filter: int, src: nat)
  {
    filter >= 0 && filter != src
  }

  // The next message, with room for bufsz bytes.
  function BufferedNext(hw: HwCfg, file: seq<byte>, off: nat, bufsz: nat, filter: int): Outcome
    requires off <= |file|
    decreases |file| - off
  {
    if bufsz == 0 || off == |file| then Eof(off)
    else
      match Decode(hw, Window(file, off, bufsz), BLANK)
      case Err(e) =>
        Fail(off, if e == Truncated && off + bufsz <= |file| then BufferTooSmall else e)
      case Ok(p) =>
        Room(hw, Window(file, off, bufsz), BLANK);
        if filter >= 0 && p.0.IsIdle() then Unspecified
        else if Filtered(filter, p.0.src) then BufferedNext(hw, file, off + p.1, bufsz, filter)
        else Got(Content(hw, p.0), off, off + p.1)
  }

  // The next message, with the rest of the file in memory.
  function FileNext(hw: HwCfg, file: seq<byte>, off: nat, filter: int): Outcome
    requires off <= |file|
    decreases |file| - off
  {
    if off == |file| then Eof(off)
    else
      match Decode(hw, file[off..], BLANK)
      case Err(e) => Fail(off, e)
      case Ok(p) =>
        Room(hw, file[off..], BLANK);
        if filter >= 0 && p.0.IsIdle() then Unspecified
        else if Filtered(filter, p.0.src) then FileNext(hw, file, off + p.1, filter)
        else Got(Content(hw, p.0), off, off + p.1)
  }

  lemma Room(hw: HwCfg, b: seq<byte>, prev: Msg)
    ensures Decode(hw, b, prev).Ok? ==> 0 < Decode(hw, b, prev).value.1 <= |b|
  {
    hide Decode;
    CodecFraming.DecodeEndsAtSync(hw, b, prev);
  }

  /** A buffer changes nothing but the messages that do not fit it: reading
      through one of any size delivers what the whole file would, up to the
      first message whose end is not in the buffer when it is full. */
  lemma {:induction false} BufferTransparent(hw: HwCfg, file: seq<byte>, off: nat, bufsz: nat, filter: int)
    requires off <= |file| && bufsz > 0
    ensures var b := BufferedNext(hw, file, off, bufsz, filter);
            || b == FileNext(hw, file, off, filter)
            || (b.Fail? && b.error == BufferTooSmall && off <= b.at && b.at + bufsz <= |file|
                && CodecFraming.NoEnd(Window(file, b.at, bufsz)))
    decreases |file| - off
  {
    hide Decode, Content;
    if off < |file| {
      var w := Window(file, off, bufsz);
      Room(hw, w, BLANK);
      Room(hw, file[off..], BLANK);
      if off + bufsz <= |file| {
        assert file[off..] == w + file[off + bufsz..];
        if Decode(hw, w, BLANK) == Err(Truncated) {
          CodecFraming.TailFrame(hw, w, BLANK);
          TruncatedTail(hw, w, BLANK);
        } else {
          CodecFraming.DecodeStable(hw, w, BLANK, file[off + bufsz..]);
        }
      }
      if Decode(hw, w, BLANK) != Err(Truncated) || off + bufsz > |file| {
        assert Decode(hw, w, BLANK) == Decode(hw, file[off..], BLANK);
        if Decode(hw, w, BLANK).Ok? {
          BufferTransparent(hw, file, off + Decode(hw, w, BLANK).value.1, bufsz, filter);
        }
      }
    }
  }

  // A partial message that fills the buffer exactly is taken for one that does
  // not fit it.
  lemma ExactlyFilled(hw: HwCfg)
    ensures BufferedNext(hw, [0], 0, 1, -1) == Fail(0, BufferTooSmall)
    ensures FileNext(hw, [0], 0, -1) == Fail(0, Truncated)
  {
    var b: seq<byte> := [0];
    assert Window(b, 0, 1) == b && b[0..] == b;
    assert b[1..] == [];
    assert ConsumeGroup(b) == Err(Truncated);
  }

  lemma TruncatedTail(hw: HwCfg, b: seq<byte>, prev: Msg)
    requires Decode(hw, b, prev) == Err(Truncated)
    ensures DecodeTail(hw, b, prev) == Err(Truncated)
  {
    hide DecodeTail;
  }

  // Every run of bufsz bytes of the file holds the end of a message.
  ghost predicate FitsFrames(file: seq<byte>, bufsz: nat)
  {
    forall o: nat :: o + bufsz <= |file| ==> !CodecFraming.NoEnd(Window(file, o, bufsz))
  }

  // With such a buffer the file is read as if it were in memory, whatever the size.
  lemma BufferIndependent(hw: HwCfg, file: seq<byte>, off: nat, bufsz: nat, filter: int)
    requires off <= |file| && bufsz > 0 && FitsFrames(file, bufsz)
    ensures BufferedNext(hw, file, off, bufsz, filter) == FileNext(hw, file, off, filter)
  {
    hide BufferedNext, FileNext, CodecFraming.NoEnd;
    BufferTransparent(hw, file, off, bufsz, filter);
  }

  // A message that was delivered is delivered again from where it starts.
  lemma {:induction false} DeliveredAgain(hw: HwCfg, file: seq<byte>, off: nat, bufsz: nat, filter: int)
    requires off <= |file|
    requires BufferedNext(hw, file, off, bufsz, filter).Got?
    ensures var g := BufferedNext(hw, file, off, bufsz, filter);
            && off <= g.start < g.next <= |file|
            && BufferedNext(hw, file, g.start, bufsz, filter) == g
    decreases |file| - off
  {
    hide Decode, Content;
    var w := Window(file, off, bufsz);
    Room(hw, w, BLANK);
    var p := Decode(hw, w, BLANK).value;
    if Filtered(filter, p.0.src) {
      DeliveredAgain(hw, file, off + p.1, bufsz, filter);
    }
  }

  // Any outcome comes at or after the offset asked from, and within the file.
  lemma {:induction false} OutcomeAfter(hw: HwCfg, file: seq<byte>, off: nat, bufsz: nat, filter: int)
    requires off <= |file|
    ensures var g := BufferedNext(hw, file, off, bufsz, filter);
            && (g.Eof? ==> off <= g.at <= |file| && (bufsz > 0 ==> g.at == |file|))
            && (g.Fail? ==> off <= g.at < |file|)
    decreases |file| - off
  {
    hide Decode, Content;
    if bufsz > 0 && off < |file| {
      var w := Window(file, off, bufsz);
      Room(hw, w, BLANK);
      if Decode(hw, w, BLANK).Ok? {
        var p := Decode(hw, w, BLANK).value;
        if Filtered(filter, p.0.src) && !(filter >= 0 && p.0.IsIdle()) {
          OutcomeAfter(hw, file, off + p.1, bufsz, filter);
        }
      }
    }
  }

  /** One step, seen through the part of the window that is in the buffer and
      whatever the structure held before: unless it is truncated, the decode is
      the reference's; a truncated one is, at the end of the file, and says the
      buffer is too small once it is full. */
  lemma StepSeen(hw: HwCfg, file: seq<byte>, off: nat, bufsz: nat, filter: int, prev: Msg, seen: nat)
    requires 0 < seen <= bufsz && off + seen <= |file|
    ensures var d := Decode(hw, file[off..off + seen], prev);
            var g := BufferedNext(hw, file, off, bufsz, filter);
            && (d.Err? && d.error != Truncated ==> g == Fail(off, d.error))
            && (d == Err(Truncated) && off + seen == |file| && seen < bufsz ==> g == Fail(off, Truncated))
            && (d == Err(Truncated) && seen == bufsz ==> g == Fail(off, BufferTooSmall))
            && (d.Ok? ==>
                  && 0 < d.value.1 <= seen
                  && (filter >= 0 && d.value.0.IsIdle() ==> g == Unspecified)
                  && (filter < 0 ==> g == Got(Content(hw, d.value.0), off, off + d.value.1))
                  && (filter >= 0 && !d.value.0.IsIdle() ==>
                        g == if Filtered(filter, d.value.0.src)
                             then BufferedNext(hw, file, off + d.value.1, bufsz, filter)
                             else Got(Content(hw, d.value.0), off, off + d.value.1)))
  {
    hide Decode, Content;
    var part, w := file[off..off + seen], Window(file, off, bufsz);
    DecodeIndependent(hw, part, prev, BLANK);
    DecodeIndependent(hw, part, BLANK, prev);
    Room(hw, part, prev);
    if seen == |w| {
      assert part == w;
    } else {
      assert w == part + w[seen..];
      if Decode(hw, part, BLANK) != Err(Truncated) {
        CodecFraming.DecodeStable(hw, part, BLANK, w[seen..]);
      }
    }
  }

  // Where the stream stopped it stops again.
  lemma {:induction false} HaltsAgain(hw: HwCfg, file: seq<byte>, off: nat, bufsz: nat, filter: int)
    requires off <= |file|
    requires var g := BufferedNext(hw, file, off, bufsz, filter); g.Eof? || g.Fail?
    ensures var g := BufferedNext(hw, file, off, bufsz, filter);
            && off <= g.at <= |file|
            && BufferedNext(hw, file, g.at, bufsz, filter) == g
    decreases |file| - off
  {
    hide Decode, Content;
    OutcomeAfter(hw, file, off, bufsz, filter);
    if bufsz > 0 && off < |file| {
      var w := Window(file, off, bufsz);
      Room(hw, w, BLANK);
      if Decode(hw, w, BLANK).Ok? {
        HaltsAgain(hw, file, off + Decode(hw, w, BLANK).value.1, bufsz, filter);
      }
    }
  }

  // ---- All the messages of a file ----

  datatype End = AtEof | Failed(error: Error) | Unsaid

  // The contents delivered from b, and how it ends.
  function Messages(hw: HwCfg, b: seq<byte>, filter: int): (seq<Msg>, End)
    decreases |b|
  {
    if b == [] then ([], AtEof)
    else
      match Decode(hw, b, BLANK)
      case Err(e) => ([], Failed(e))
      case Ok(p) =>
        Room(hw, b, BLANK);
        if filter >= 0 && p.0.IsIdle() then ([], Unsaid)
        else
          var (ms, end) := Messages(hw, b[p.1..], filter);
          (if Filtered(filter, p.0.src) then ms else [Content(hw, p.0)] + ms, end)
  }

  // Asking for one message after the other delivers them all.
  lemma {:induction false} NextOfMessages(hw: HwCfg, file: seq<byte>, off: nat, filter: int)
    requires off <= |file|
    ensures match FileNext(hw, file, off, filter)
            case Eof(_) => Messages(hw, file[off..], filter) == ([], AtEof)
            case Fail(_, e) => Messages(hw, file[off..], filter) == ([], Failed(e))
            case Unspecified => Messages(hw, file[off..], filter) == ([], Unsaid)
            case Got(content, start, next) =>
              && off <= start < next <= |file|
              && var (ms, end) := Messages(hw, file[next..], filter);
                 Messages(hw, file[off..], filter) == ([content] + ms, end)
    decreases |file| - off
  {
    hide Decode, Content;
    if off < |file| {
      Room(hw, file[off..], BLANK);
      if Decode(hw, file[off..], BLANK).Ok? {
        var p := Decode(hw, file[off..], BLANK).value;
        assert file[off..][p.1..] == file[off + p.1..];
        if Filtered(filter, p.0.src) {
          NextOfMessages(hw, file, off + p.1, filter);
        }
      }
    }
  }

  // The same through a buffer.
  function Deliveries(hw: HwCfg, file: seq<byte>, off: nat, bufsz: nat, filter: int): (seq<Msg>, End)
    requires off <= |file|
    decreases |file| - off
  {
    match BufferedNext(hw, file, off, bufsz, filter)
    case Eof(_) => ([], AtEof)
    case Fail(_, e) => ([], Failed(e))
    case Unspecified => ([], Unsaid)
    case Got(content, start, next) =>
      DeliveredAgain(hw, file, off, bufsz, filter);
      var (ms, end) := Deliveries(hw, file, next, bufsz, filter);
      ([content] + ms, end)
  }

  // Where the next message is the same, so is all that follows.
  lemma SameDeliveries(hw: HwCfg, file: seq<byte>, off: nat, next: nat, bufsz: nat, filter: int)
    requires off <= |file| && next <= |file|
    requires BufferedNext(hw, file, off, bufsz, filter) == BufferedNext(hw, file, next, bufsz, filter)
    ensures Deliveries(hw, file, off, bufsz, filter) == Deliveries(hw, file, next, bufsz, filter)
  {
    hide BufferedNext;
  }

  // A buffer that fits every frame delivers the messages of the file.
  lemma {:induction false} DeliversMessages(hw: HwCfg, file: seq<byte>, off: nat, bufsz: nat, filter: int)
    requires off <= |file| && bufsz > 0 && FitsFrames(file, bufsz)
    ensures Deliveries(hw, file, off, bufsz, filter) == Messages(hw, file[off..], filter)
    decreases |file| - off
  {
    hide Messages, BufferedNext, FileNext, FitsFrames;
    BufferIndependent(hw, file, off, bufsz, filter);
    NextOfMessages(hw, file, off, filter);
    var g := FileNext(hw, file, off, filter);
    if g.Got? {
      DeliversMessages(hw, file, g.next, bufsz, filter);
    }
  }

  // ---- Files of whole messages ----

  // A buffer that holds each message of the file fits every frame.
  lemma {:induction false} FramesFit(frames: seq<seq<byte>>, bufsz: nat)
    requires bufsz > 0
    requires forall i :: 0 <= i < |frames| ==> CodecFraming.IsFrame(frames[i]) && |frames[i]| <= bufsz
    ensures FitsFrames(CodecFraming.Concat(frames), bufsz)
  {
    hide Mseo;
    var file := CodecFraming.Concat(frames);
    forall o: nat | o + bufsz <= |file| ensures !CodecFraming.NoEnd(Window(file, o, bufsz)) {
      EndWithin(frames, o, bufsz);
    }
  }

  lemma {:induction false} EndWithin(frames: seq<seq<byte>>, o: nat, bufsz: nat)
    requires bufsz > 0 && o + bufsz <= |CodecFraming.Concat(frames)|
    requires forall i :: 0 <= i < |frames| ==> CodecFraming.IsFrame(frames[i]) && |frames[i]| <= bufsz
    ensures !CodecFraming.NoEnd(Window(CodecFraming.Concat(frames), o, bufsz))
  {
    hide Mseo;
    var file, f := CodecFraming.Concat(frames), frames[0];
    var rest := CodecFraming.Concat(frames[1..]);
    assert file == f + rest;
    var w := Window(file, o, bufsz);
    if o < |f| {
      assert w[|f| - 1 - o] == f[|f| - 1];
    } else {
      EndWithin(frames[1..], o - |f|, bufsz);
      assert w == Window(rest, o - |f|, bufsz);
    }
  }
}
