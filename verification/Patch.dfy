// Patching a message in place: the message is encoded again over its own bytes,
// and what it no longer needs is filled with ones.
module Patch {
  import opened Bits
  import opened Results
  import opened Protocol
  import opened MsgTypes
  import opened Codec
  import opened Stream
  import opened WrittenFile
  import CodecRoundTrip
  import MsgEncoder

  function Fill(n: nat): (b: seq<byte>)
    ensures |b| == n
  {
    if n == 0 then [] else [255] + Fill(n - 1)
  }

  function Idles(n: nat): seq<Msg>
  {
    if n == 0 then [] else [BLANK] + Idles(n - 1)
  }

  // A byte of ones is an Idle message.
  lemma OnesAreIdle(hw: HwCfg, rest: seq<byte>)
    ensures Decode(hw, [255] + rest, BLANK) == Ok((BLANK, 1))
  {
    hide Low, High, Pow2, Pack, Width, Open, TakeFixed, DecodeKnown, DecodeTail;
    IdleByte(hw);
    CodecRoundTrip.IdleRoundTrip(hw, BLANK, BLANK, rest);
  }

  lemma IdleByte(hw: HwCfg)
    ensures Encode(hw, BLANK) == [255]
  {
    hide Pack, Width, Low, Pow2;
    var f := Field(IDLE, 6);
    SixBitWord();
    CodecRoundTrip.PackOne(f);
    CodecRoundTrip.OneWidth(f);
    assert Wire(hw, BLANK) == [[f]];
    assert GroupBytes([f], 3) == [255];
  }

  lemma SixBitWord()
    ensures Pow2(6) == 64
  {
    Pow2Add(3, 3);
    assert Pow2(3) == 8;
  }

  lemma {:induction false} FillDecodes(hw: HwCfg, n: nat, rest: seq<byte>)
    ensures var (ms, end) := Messages(hw, rest, -1);
            Messages(hw, Fill(n) + rest, -1) == (Idles(n) + ms, end)
  {
    hide Decode, Content;
    var (ms, end) := Messages(hw, rest, -1);
    if n == 0 {
      assert Fill(0) + rest == rest && Idles(0) + ms == ms;
    } else {
      var b := Fill(n) + rest;
      assert b == [255] + (Fill(n - 1) + rest);
      OnesAreIdle(hw, Fill(n - 1) + rest);
      assert b[1..] == Fill(n - 1) + rest;
      FillDecodes(hw, n - 1, rest);
      IdleContent(hw);
      assert [BLANK] + (Idles(n - 1) + ms) == Idles(n) + ms;
    }
  }

  lemma IdleContent(hw: HwCfg)
    ensures Content(hw, BLANK) == BLANK
  {
  }

  /** After the patch the stream says what the new message says, then nothing
      for as long as the old one was longer, then what it said before. */
  lemma PatchedReads(hw: HwCfg, m: Msg, n: nat, rest: seq<byte>)
    requires Writable(hw, m) && |Encode(hw, m)| <= n
    ensures var (ms, end) := Messages(hw, rest, -1);
            Messages(hw, Encode(hw, m) + Fill(n - |Encode(hw, m)|) + rest, -1)
            == ([Content(hw, m)] + Idles(n - |Encode(hw, m)|) + ms, end)
  {
    hide Encode, Decode, Content, CodecRoundTrip.SrcFits, CodecRoundTrip.TakenForTime;
    var k := n - |Encode(hw, m)|;
    var after := Fill(k) + rest;
    var b := Encode(hw, m) + after;
    assert Encode(hw, m) + Fill(k) + rest == b;
    CodecRoundTrip.RoundTrip(hw, m, BLANK, after);
    Room(hw, b, BLANK);
    assert b[Decode(hw, b, BLANK).value.1..] == after;
    FillDecodes(hw, k, rest);
    var ms := Messages(hw, rest, -1).0;
    assert [Content(hw, m)] + (Idles(k) + ms) == [Content(hw, m)] + Idles(k) + ms;
  }

  // Encode a message over n bytes of ones, if it fits them.
  method PatchBytes(hw: HwCfg, m: Msg, n: nat) returns (r: Result<seq<byte>>)
    ensures r.Ok? <==> m.Encodable() && |Encode(hw, m)| <= n
    ensures r.Ok? ==> r.value == Encode(hw, m) + Fill(n - |Encode(hw, m)|)
  {
    hide Encode;
    var bytes := new byte[n](_ => 255);
    FillAt(n);
    var rc :- MsgEncoder.Encode(hw, bytes, n, m);
    FillAt(n - rc);
    assert bytes[..] == bytes[..rc] + bytes[rc..];
    assert bytes[rc..] == Fill(n - rc);
    r := Ok(bytes[..]);
  }

  lemma {:induction false} FillAt(n: nat)
    ensures forall i :: 0 <= i < n ==> Fill(n)[i] == 255
  {
    if n > 0 { FillAt(n - 1); }
  }
}
