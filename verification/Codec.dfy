// What a message means on the wire: the reference encoding and decoding. The
// methods of MsgEncoder and MsgDecode are proved to compute these functions.
module Codec {
  import opened Bits
  import opened Results
  import opened Protocol
  import opened MsgTypes

  // ---- Decoding ----

  // Bit bits-1 of a 64-bit word copied to every bit above it.
  function SignExtend(v: uint64, bits: nat): (x: uint64)
  {
    if 0 < bits < 64 && Bit(v, bits - 1) then
      Pow2Mono(bits, 64);
      Pow2Words();
      Low(v, bits) + (U64 - Pow2(bits))
    else v
  }

  // The rest of the group is one field.
  function TakeVar(c: Cursor, f: VarField): (r: Result<(uint64, Cursor)>)
    ensures r.Ok? ==> r.value.1 == Cursor(0, 0, c.eom, c.tail)
  {
    if f.required && c.left == 0 then Err(MissingField)
    else
      var v: uint64 := c.rest % U64;
      Ok((if f.vao then SignExtend(v, c.left) else v, Cursor(0, 0, c.eom, c.tail)))
  }

  function DecodeFields(fs: seq<VarField>, m: Msg, c: Cursor): Result<(Msg, Cursor)>
  {
    if fs == [] then Ok((m, c))
    else
      var (v, c1) :- TakeVar(c, fs[0]);
      var m1 := Set(m, fs[0].slot, v);
      if |fs| == 1 then Ok((m1, c1))
      else
        var c2 :- Next(c1);
        DecodeFields(fs[1..], m1, c2)
  }

  // Fixed fields after SRC; slots the kind does not use keep their bits.
  function SetCodes(m: Msg, v4: nat, v2: nat): Msg
  {
    m.(code4 := if Code4Bits(m.tcode) == 0 then m.code4 else v4 % 16,
       code2 := if Code2Bits(m.tcode) == 0 then m.code2
                else if Code2Bits(m.tcode) == 1 then m.code2 / 2 * 2 + v2 % 2
                else v2 % 4)
  }

  function DecodeCodes(m: Msg, c: Cursor): Result<(Msg, Cursor)>
  {
    var (v4, c1) :- TakeFixed(c, Code4Bits(m.tcode));
    var (v2, c2) :- TakeFixed(c1, Code2Bits(m.tcode));
    Ok((SetCodes(m, v4, v2), c2))
  }

  // The timestamp, which ends the message if there is one.
  function Finish(hw: HwCfg, m: Msg, c: Cursor): (r: Result<(Msg, seq<byte>)>)
  {
    if hw.tsBits > 0 && c.eom then
      if m.IsSync() then Err(MissingField) else Ok((m, c.tail))
    else
      var c1 :- SkipToEnd(c);
      if hw.tsBits == 0 then Ok((m, c1.tail))
      else
        var (v, _) :- TakeVar(c1, Req(Data));
        Ok((m.(timestamp := v), c1.tail))
  }

  function DecodeKnown(hw: HwCfg, m: Msg, c: Cursor): Result<(Msg, seq<byte>)>
    requires m.HasFields()
  {
    var (m1, c1) :- DecodeCodes(m, c);
    var (m2, c2) :- DecodeFields(VarFields(hw, m1), Cleared(m1), c1);
    Finish(hw, m2, c2)
  }

  function DecodeAfterTcode(hw: HwCfg, m: Msg, c: Cursor): Result<(Msg, seq<byte>)>
  {
    if m.IsIdle() then
      if c.eom then Ok((m, c.tail)) else Err(Invalid)
    else
      var (src, c1) :- TakeFixed(c, hw.srcBits);
      var m1 := m.(src := src % 0x1_0000);
      if m1.HasFields() then DecodeKnown(hw, m1, c1)
      else
        var c2 :- SkipToEnd(c1);
        Ok((m1, c2.tail))
  }

  function DecodeTail(hw: HwCfg, b: seq<byte>, prev: Msg): Result<(Msg, seq<byte>)>
  {
    var c :- Open(b);
    var (tcode, c1) :- TakeFixed(c, 6);
    DecodeAfterTcode(hw, prev.(timestamp := 0, tcode := tcode % 256), c1)
  }

  // Decode the message at the start of b into the structure that held prev;
  // the second result is the number of bytes it took.
  function Decode(hw: HwCfg, b: seq<byte>, prev: Msg): (r: Result<(Msg, int)>)
  {
    var (m, tail) :- DecodeTail(hw, b, prev);
    Ok((m, |b| - |tail|))
  }

  // ---- Encoding ----

  // A number stored in a fixed number of bits.
  datatype Field = Field(value: nat, width: nat)

  function Width(fs: seq<Field>): nat
  {
    if fs == [] then 0 else fs[0].width + Width(fs[1..])
  }

  // Fields side by side, the first one in the lowest bits.
  function Pack(fs: seq<Field>): nat
  {
    if fs == [] then 0 else Low(fs[0].value, fs[0].width) + Pow2(fs[0].width) * Pack(fs[1..])
  }

  // Bits of the shortest two's complement form of a 64-bit word.
  function SignedBits(x: uint64): (n: nat)
    ensures n > 0
  {
    1 + BitLen(if BitLen(x) < 64 then x else U64 - 1 - x)
  }

  // The same, rounded up to whole lanes but never past 64.
  function VaoBits(x: uint64): (n: nat)
    ensures n > 0
  {
    var bits := 6 * LaneCount(SignedBits(x));
    if bits > 64 then 64 else bits
  }

  function ReqBits(v: nat): (n: nat)
    ensures n > 0
  {
    if v == 0 then 1 else BitLen(v)
  }

  function FieldBits(f: VarField, v: uint64): nat
  {
    if f.vao then VaoBits(v) else if f.required then ReqBits(v) else BitLen(v)
  }

  lemma GetBound(m: Msg, slot: Slot)
    ensures Get(m, slot) < Pow2(SlotBits(slot)) <= U64
  {
    Pow2Words();
    assert Pow2(3) == 8;
  }

  function FieldOf(f: VarField, m: Msg): Field
  {
    GetBound(m, f.slot);
    Field(Get(m, f.slot), FieldBits(f, Get(m, f.slot)))
  }

  function Groups(fs: seq<VarField>, m: Msg): (gs: seq<seq<Field>>)
    ensures |gs| == |fs|
  {
    if fs == [] then [] else [[FieldOf(fs[0], m)]] + Groups(fs[1..], m)
  }

  function HeadFields(hw: HwCfg, m: Msg): seq<Field>
  {
    [Field(m.tcode, 6), Field(m.src, hw.srcBits),
     Field(m.code4, Code4Bits(m.tcode)), Field(m.code2, Code2Bits(m.tcode))]
  }

  // A zero timestamp is left out unless the message is a sync.
  function TimeGroup(hw: HwCfg, m: Msg): seq<seq<Field>>
  {
    if hw.tsBits > 0 && (m.IsSync() || m.timestamp != 0) then
      [[Field(m.timestamp, ReqBits(m.timestamp))]]
    else []
  }

  // The groups of a message.
  function Wire(hw: HwCfg, m: Msg): (gs: seq<seq<Field>>)
    requires m.IsIdle() || m.HasFields()
    ensures gs != []
  {
    if m.IsIdle() then [[Field(m.tcode, 6)]]
    else
      var fs := EncodedFields(hw, m);
      [HeadFields(hw, m) + [FieldOf(fs[0], m)]] + (Groups(fs[1..], m) + TimeGroup(hw, m))
  }

  function GroupBytes(g: seq<Field>, mseo: nat): seq<byte>
    requires mseo < 4
  {
    Lanes(Pack(g), LaneCount(Width(g)), mseo)
  }

  function Frame(gs: seq<seq<Field>>): seq<byte>
    requires gs != []
  {
    if |gs| == 1 then GroupBytes(gs[0], 3) else GroupBytes(gs[0], 1) + Frame(gs[1..])
  }

  function Encode(hw: HwCfg, m: Msg): seq<byte>
    requires m.Encodable()
  {
    Frame(Wire(hw, m))
  }
}
