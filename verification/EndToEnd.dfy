// The whole library at once: messages are encoded into a file, the file is
// read through a buffer, and a client plays its requests on the trace decoder.
module EndToEnd {
  import opened Results
  import opened Protocol
  import opened MsgTypes
  import opened TraceSemantics
  import opened ClientTold
  import opened TraceFacts
  import opened TraceReports
  import opened TraceRuns
  import opened WrittenFile
  import Codec
  import CodecFraming
  import CodecSize
  import MsgEncoder
  import ReturnStack
  import Stream
  import StreamDecoder
  import TraceDecoder

  // Encode the messages one by one and write them out. Encoding never fails
  // for lack of room.
  method Assemble(hw: HwCfg, ms: seq<Msg>) returns (file: seq<byte>)
    requires forall i :: 0 <= i < |ms| ==> Writable(hw, ms[i])
    ensures file == CodecFraming.Concat(Written(hw, ms))
  {
    hide Codec.Encode, Writable, CodecFraming.IsFrame;
    var buffer := new byte[CodecSize.MAX_BYTES](_ => 0);
    file := [];
    var i := 0;
    assert ms[0..] == ms;
    while i < |ms|
      invariant i <= |ms|
      invariant CodecFraming.Concat(Written(hw, ms)) == file + CodecFraming.Concat(Written(hw, ms[i..]))
    {
      assert Writable(hw, ms[i]);
      WrittenFrame(hw, ms[i]);
      WrittenNext(hw, ms, i);
      var bytes := MsgEncoder.Encode(hw, buffer, CodecSize.MAX_BYTES, ms[i]);
      file := file + buffer[..bytes.value];
      i := i + 1;
    }
    assert ms[i..] == [];
  }

  lemma WrittenNext(hw: HwCfg, ms: seq<Msg>, i: nat)
    requires i < |ms| && forall i :: 0 <= i < |ms| ==> Writable(hw, ms[i])
    ensures ms[i].Encodable()
    ensures CodecFraming.Concat(Written(hw, ms[i..]))
            == Codec.Encode(hw, ms[i]) + CodecFraming.Concat(Written(hw, ms[i + 1..]))
  {
    hide Codec.Encode;
    assert Writable(hw, ms[i]);
    assert ms[i..][1..] == ms[i + 1..];
    assert Written(hw, ms[i..])[1..] == Written(hw, ms[i + 1..]);
  }

  /** What a client is told about a file of encoded messages is what the
      messages say, whatever the buffer size and however it asks. */
  method PlayWritten(hw: HwCfg, ms: seq<Msg>, bufsz: nat, filter: int, ops: seq<Op>) returns (answers: seq<Answer>)
    requires forall i :: 0 <= i < |ms| ==> Writable(hw, ms[i]) && (filter >= 0 ==> !ms[i].IsIdle())
    requires bufsz >= CodecSize.MAX_BYTES && hw.maxStack <= 0x8000_0000
    requires SoundLost(hw, Kept(hw, ms, filter))
    ensures var due := Run(State(Resync(hw, Kept(hw, ms, filter), Stream.AtEof), false), ops, EMPTY).0;
            || answers == due
            || (answers != [] && answers[|answers| - 1] in {Refused(HistOverflow), Refused(IcntOverflow)}
                && answers[..|answers| - 1] <= due)
  {
    hide Writable, Stream.Deliveries, Kept, Written, Run, Resync, SoundLost, TraceDecoder.Decoder.Linked,
         TraceDecoder.Decoder.Inv, TraceDecoder.Decoder.View, StreamDecoder.MsgDecoder.Valid,
         ReturnStack.RetStack.Valid, ReturnStack.RetStack.Contents;
    var file := Assemble(hw, ms);
    ReadsBack(hw, ms, bufsz, filter);
    var buffer := new byte[bufsz](_ => 0);
    var msgs := new StreamDecoder.MsgDecoder(hw, file, filter, buffer);
    var d := new TraceDecoder.Decoder(msgs);
    answers := Play(d, ops);
  }

  /** If, of the messages written, those of the source followed are what a sender
      makes of its reports, the addresses the client is answered are the first of
      those that the reports call for. */
  method PlayReported(hw: HwCfg, p: Sender, rs: seq<Report>, ms: seq<Msg>, bufsz: nat, filter: int, ops: seq<Op>)
    returns (answers: seq<Answer>)
    requires forall i :: 0 <= i < |ms| ==> Writable(hw, ms[i]) && (filter >= 0 ==> !ms[i].IsIdle())
    requires bufsz >= CodecSize.MAX_BYTES && hw.maxStack <= 0x8000_0000
    requires Kept(hw, ms, filter) == Sent(hw, p, rs) && SoundLost(hw, Sent(hw, p, rs)) && AllSendable(hw, rs, true)
    ensures Given(answers) <= Addresses(Joined(Told(hw, p, rs, 0, true, Stream.AtEof)))
  {
    hide Writable, Kept, Sent, Run, Resync, SoundLost, AllSendable, Joined, Told, Given, Addresses;
    answers := PlayWritten(hw, ms, bufsz, filter, ops);
    AddressesTold(hw, p, rs, 0, Stream.AtEof, ops);
    ghost var due := Run(State(Resync(hw, Sent(hw, p, rs), Stream.AtEof), false), ops, EMPTY).0;
    if answers != due {
      ghost var last := answers[|answers| - 1];
      GivenPrefix(answers[..|answers| - 1], due);
      GivenRefused(answers[..|answers| - 1], last.error);
      assert answers == answers[..|answers| - 1] + [last];
    }
  }
}
