// Files a producer writes with the encoder: what the library reads back.
module WrittenFile {
  import opened Protocol
  import opened MsgTypes
  import opened Codec
  import CodecContent
  import CodecFraming
  import CodecRoundTrip
  import CodecSize
  import opened Stream

  // Messages that survive the encoder.
  predicate Writable(hw: HwCfg, m: Msg)
  {
    m.Encodable() && CodecRoundTrip.SrcFits(hw, m) && !CodecRoundTrip.TakenForTime(hw, m)
  }

  function Written(hw: HwCfg, ms: seq<Msg>): (frames: seq<seq<byte>>)
    requires forall i :: 0 <= i < |ms| ==> Writable(hw, ms[i])
    ensures |frames| == |ms|
  {
    if ms == [] then []
    else
      assert Writable(hw, ms[0]);
      [Encode(hw, ms[0])] + Written(hw, ms[1..])
  }

  // What the messages say, without those the filter drops.
  function Kept(hw: HwCfg, ms: seq<Msg>, filter: int): seq<Msg>
  {
    if ms == [] then []
    else (if Filtered(filter, ms[0].src) then [] else [Content(hw, ms[0])]) + Kept(hw, ms[1..], filter)
  }

  lemma {:induction false} WrittenFrames(hw: HwCfg, ms: seq<Msg>)
    requires forall i :: 0 <= i < |ms| ==> Writable(hw, ms[i])
    ensures forall i :: 0 <= i < |ms| ==>
            CodecFraming.IsFrame(Written(hw, ms)[i]) && |Written(hw, ms)[i]| <= CodecSize.MAX_BYTES
  {
    hide Encode, CodecFraming.IsFrame, Writable;
    if ms != [] {
      assert Writable(hw, ms[0]);
      WrittenFrame(hw, ms[0]);
      WrittenFrames(hw, ms[1..]);
      forall i | 0 <= i < |ms|
        ensures CodecFraming.IsFrame(Written(hw, ms)[i]) && |Written(hw, ms)[i]| <= CodecSize.MAX_BYTES
      {
        if i > 0 { assert Written(hw, ms)[i] == Written(hw, ms[1..])[i - 1]; }
      }
    }
  }

  lemma WrittenFrame(hw: HwCfg, m: Msg)
    requires Writable(hw, m)
    ensures m.Encodable() && CodecFraming.IsFrame(Encode(hw, m)) && |Encode(hw, m)| <= CodecSize.MAX_BYTES
  {
    hide Encode, CodecFraming.IsFrame;
    CodecRoundTrip.EncodeFrames(hw, m);
    CodecFraming.SyncedFrame(Encode(hw, m));
    CodecSize.SizeBound(hw, m);
  }

  // Decoding what was written gives back every message, in order.
  lemma {:induction false} MessagesWritten(hw: HwCfg, ms: seq<Msg>, filter: int)
    requires forall i :: 0 <= i < |ms| ==> Writable(hw, ms[i]) && (filter >= 0 ==> !ms[i].IsIdle())
    ensures Messages(hw, CodecFraming.Concat(Written(hw, ms)), filter) == (Kept(hw, ms, filter), AtEof)
  {
    hide Encode, Decode, Content, CodecRoundTrip.SrcFits, CodecRoundTrip.TakenForTime;
    if ms != [] {
      var m, frames := ms[0], Written(hw, ms);
      assert Writable(hw, m) && (filter >= 0 ==> !m.IsIdle());
      assert frames[1..] == Written(hw, ms[1..]);
      var rest := CodecFraming.Concat(frames[1..]);
      var b := Encode(hw, m) + rest;
      assert CodecFraming.Concat(frames) == b;
      CodecRoundTrip.RoundTrip(hw, m, BLANK, rest);
      Room(hw, b, BLANK);
      var p := Decode(hw, b, BLANK).value;
      CodecContent.ContentKind(hw, m);
      CodecContent.ContentKind(hw, p.0);
      assert b[p.1..] == rest;
      MessagesWritten(hw, ms[1..], filter);
      assert Messages(hw, b, filter).0
             == (if Filtered(filter, p.0.src) then [] else [Content(hw, p.0)]) + Messages(hw, rest, filter).0;
    }
  }

  /** A file of encoded messages, read through any buffer of at least 38 bytes,
      delivers exactly those messages, then the end of the file. */
  lemma ReadsBack(hw: HwCfg, ms: seq<Msg>, bufsz: nat, filter: int)
    requires forall i :: 0 <= i < |ms| ==> Writable(hw, ms[i]) && (filter >= 0 ==> !ms[i].IsIdle())
    requires bufsz >= CodecSize.MAX_BYTES
    ensures Deliveries(hw, CodecFraming.Concat(Written(hw, ms)), 0, bufsz, filter) == (Kept(hw, ms, filter), AtEof)
  {
    hide Encode, Decode, Messages, Deliveries, Written, Kept, CodecFraming.IsFrame;
    var file := CodecFraming.Concat(Written(hw, ms));
    WrittenFrames(hw, ms);
    var frames := Written(hw, ms);
    FramesFit(frames, bufsz);
    DeliversMessages(hw, file, 0, bufsz, filter);
    assert file[0..] == file;
    MessagesWritten(hw, ms, filter);
  }
}
