// The message decoder: fields are read from the buffer into the structure one
// after the other, in the order of the source.
module MsgDecode {
  import opened Bits
  import opened Results
  import opened Protocol
  import opened MsgTypes
  import opened Codec
  import CodecFraming
  import opened MsgUnpack

  // The fields still to be read once the current group is used up.
  function Rest(fs: seq<VarField>, m: Msg, c: Cursor): Result<(Msg, Cursor)>
  {
    if fs == [] then Ok((m, c))
    else
      var c1 :- Next(c);
      DecodeFields(fs, m, c1)
  }

  lemma FieldStep(fs: seq<VarField>, m: Msg, c: Cursor)
    requires fs != []
    ensures TakeVar(c, fs[0]).Err? ==> DecodeFields(fs, m, c) == Err(TakeVar(c, fs[0]).error)
    ensures TakeVar(c, fs[0]).Ok? ==>
              DecodeFields(fs, m, c) ==
              Rest(fs[1..], Set(m, fs[0].slot, TakeVar(c, fs[0]).value.0), TakeVar(c, fs[0]).value.1)
  {
    hide TakeVar, Next, Set;
    if TakeVar(c, fs[0]).Ok? {
      var (v, c1) := TakeVar(c, fs[0]).value;
      assert |fs| == 1 <==> fs[1..] == [];
    }
  }

  ghost predicate AgreesFields(
    buffer: array<byte>, hi: nat, r: Result<(Msg, Reader)>, hw: HwCfg, m: Msg, rd: Reader)
    requires Reading(buffer, hi, rd)
    reads buffer
  {
    Agrees(buffer, hi, r, DecodeFields(VarFields(hw, m), Cleared(m), At(buffer, hi, rd)))
  }

  /** One field was read into its slot of m: what the reference makes of the
      rest of the message is what it makes of the fields still left. */
  ghost predicate Reads(
    buffer: array<byte>, hi: nat, r: Result<(Msg, Reader)>, spec: Result<(Msg, Cursor)>,
    m: Msg, slot: Slot, left: seq<VarField>)
    reads buffer
  {
    match r
    case Err(e) => spec == Err(e)
    case Ok(p) =>
      && Reading(buffer, hi, p.1)
      && p.0.tcode == m.tcode && p.0.code2 == m.code2 && (slot != IdTag ==> p.0.code4 == m.code4)
      && spec == Rest(left, p.0, At(buffer, hi, p.1))
  }

  // A required field on the current group, into its slot.
  method ReadReq(buffer: array<byte>, hi: nat, rd: Reader, m: Msg, slot: Slot, ghost fs: seq<VarField>)
    returns (r: Result<(Msg, Reader)>)
    requires Reading(buffer, hi, rd) && fs != [] && fs[0] == Req(slot)
    ensures Reads(buffer, hi, r, DecodeFields(fs, m, At(buffer, hi, rd)), m, slot, fs[1..])
  {
    hide TakeVar, At, Rest, DecodeFields;
    FieldStep(fs, m, At(buffer, hi, rd));
    var t :- UnpackVarReq(buffer, hi, rd, slot);
    r := Ok((Set(m, slot, t.0), t.1));
  }

  // A required field that starts the next group.
  method ReadNext(buffer: array<byte>, hi: nat, rd: Reader, m: Msg, slot: Slot, ghost fs: seq<VarField>)
    returns (r: Result<(Msg, Reader)>)
    requires Reading(buffer, hi, rd) && fs != [] && fs[0] == Req(slot)
    ensures Reads(buffer, hi, r, Rest(fs, m, At(buffer, hi, rd)), m, slot, fs[1..])
  {
    hide TakeVar, At, DecodeFields, Next;
    var rd1 :- NextGroup(buffer, hi, rd);
    r := ReadReq(buffer, hi, rd1, m, slot, fs);
  }

  // An address in the next group, widened when the hardware shortens it.
  method ReadXaddr(hw: HwCfg, buffer: array<byte>, hi: nat, rd: Reader, m: Msg, ghost fs: seq<VarField>)
    returns (r: Result<(Msg, Reader)>)
    requires Reading(buffer, hi, rd) && fs != [] && fs[0] == VarField(Data, true, hw.vao)
    ensures Reads(buffer, hi, r, Rest(fs, m, At(buffer, hi, rd)), m, Data, fs[1..])
  {
    hide TakeVar, At, DecodeFields, Next;
    var rd1 :- NextGroup(buffer, hi, rd);
    FieldStep(fs, m, At(buffer, hi, rd1));
    var t;
    if hw.vao {
      t :- UnpackXaddrVao(buffer, hi, rd1, Data);
    } else {
      t :- UnpackVarReq(buffer, hi, rd1, Data);
    }
    r := Ok((m.(data := t.0), t.1));
  }

  // A field that may be absent; it is alone on its group.
  method ReadOpt(buffer: array<byte>, hi: nat, rd: Reader, m: Msg, slot: Slot) returns (r: Result<(Msg, Reader)>)
    requires Reading(buffer, hi, rd)
    ensures r.Ok? && Agrees(buffer, hi, r, DecodeFields([Opt(slot)], m, At(buffer, hi, rd)))
  {
    hide TakeVar, At, DecodeFields;
    FieldStep([Opt(slot)], m, At(buffer, hi, rd));
    var t := UnpackVarOpt(buffer, hi, rd, slot);
    r := Ok((Set(m, slot, t.0), t.1));
    assert [Opt(slot)][1..] == [];
  }

  // The variable-length fields of the branch messages and ProgTraceSync.
  method ReadCommon(hw: HwCfg, buffer: array<byte>, hi: nat, rd: Reader, msg: Msg)
    returns (r: Result<(Msg, Reader)>)
    requires Reading(buffer, hi, rd) && msg.IsCommon()
    ensures AgreesFields(buffer, hi, r, hw, msg, rd)
  {
    hide DecodeFields, At, Next, Rest, TakeVar;
    ghost var fs := VarFields(hw, msg);
    var m := msg.(hrepeat := 0);
    var t :- ReadReq(buffer, hi, rd, m, Word, fs);
    ghost var left := fs[1..];
    if msg.HasXaddr() {
      t :- ReadXaddr(hw, buffer, hi, t.1, t.0, left);
      left := left[1..];
    }
    if msg.HasHist() {
      t :- ReadNext(buffer, hi, t.1, t.0, Hist, left);
      left := left[1..];
    }
    NoRest(t.0, At(buffer, hi, t.1));
    assert left == [];
    r := Ok(t);
  }

  lemma NoRest(m: Msg, c: Cursor)
    ensures Rest([], m, c) == Ok((m, c))
  {
  }

  // ResourceFull, once its code is known.
  method ReadResource(hw: HwCfg, buffer: array<byte>, hi: nat, rd: Reader, msg: Msg)
    returns (r: Result<(Msg, Reader)>)
    requires Reading(buffer, hi, rd) && msg.IsRes()
    ensures AgreesFields(buffer, hi, r, hw, msg, rd)
  {
    hide DecodeFields, At, Next, Rest, TakeVar;
    ghost var fs := VarFields(hw, msg);
    if msg.code4 > 2 {
      r := ReadOpt(buffer, hi, rd, msg, Word);
      return;
    }
    var m := msg.(word := 0, hist := 0, hrepeat := 0);
    var t;
    if msg.code4 == 0 {
      t :- ReadReq(buffer, hi, rd, m, Word, fs);
    } else if msg.code4 == 1 {
      t :- ReadReq(buffer, hi, rd, m, Hist, fs);
    } else {
      t :- ReadReq(buffer, hi, rd, m, Hist, fs);
      t :- ReadNext(buffer, hi, t.1, t.0, Repeat, fs[1..]);
    }
    assert if msg.code4 < 2 then fs[1..] == [] else fs[1..][1..] == [];
    NoRest(t.0, At(buffer, hi, t.1));
    r := Ok(t);
  }

  // The remaining kinds.
  method ReadOther(hw: HwCfg, buffer: array<byte>, hi: nat, rd: Reader, msg: Msg)
    returns (r: Result<(Msg, Reader)>)
    requires Reading(buffer, hi, rd) && msg.HasFields() && !msg.IsCommon() && !msg.IsRes()
    ensures AgreesFields(buffer, hi, r, hw, msg, rd)
  {
    hide DecodeFields, At, Next, Rest, TakeVar;
    ghost var fs := VarFields(hw, msg);
    if msg.tcode == OWNERSHIP {
      r := ReadOpt(buffer, hi, rd, msg, Data);
      return;
    }
    if msg.tcode == ERROR {
      r := ReadOpt(buffer, hi, rd, msg, Word);
      return;
    }
    var t;
    if msg.tcode == DATA_ACQUISITION {
      t :- ReadReq(buffer, hi, rd, msg, IdTag, fs);
      t :- ReadNext(buffer, hi, t.1, t.0, Data, fs[1..]);
    } else if msg.tcode == REPEAT_BRANCH {
      t :- ReadReq(buffer, hi, rd, msg, Repeat, fs);
    } else if msg.tcode == PROG_TRACE_CORRELATION {
      t :- ReadReq(buffer, hi, rd, msg.(word := 0, hist := 0, hrepeat := 0), Word, fs);
      if msg.code2 == 1 {
        t :- ReadNext(buffer, hi, t.1, t.0, Hist, fs[1..]);
      }
    } else {
      t :- ReadReq(buffer, hi, rd, msg, Check0, fs);
      if msg.code2 > 0 {
        t :- ReadNext(buffer, hi, t.1, t.0, Data, fs[1..]);
      }
    }
    assert if |fs| == 1 then fs[1..] == [] else fs[1..][1..] == [];
    NoRest(t.0, At(buffer, hi, t.1));
    r := Ok(t);
  }

  // ---- The header ----

  // PROCESS: two two-bit fields and one bit, where the reference takes four.
  method ReadProcess(buffer: array<byte>, hi: nat, rd: Reader, msg: Msg) returns (r: Result<(Msg, Reader)>)
    requires Reading(buffer, hi, rd) && msg.tcode == OWNERSHIP
    ensures Agrees(buffer, hi, r, DecodeCodes(msg, At(buffer, hi, rd)))
  {
    hide At, Low, High;
    ghost var c := At(buffer, hi, rd);
    FourTwice(c);
    var fmt :- UnpackFixed(buffer, hi, rd, 2);
    var priv :- UnpackFixed(buffer, hi, fmt.1, 2);
    var v :- UnpackFixed(buffer, hi, priv.1, 1);
    LowSize(fmt.0, priv.0, v.0, c);
    var m := msg.(code4 := msg.code4 / 4 * 4 + fmt.0);
    m := m.(code4 := m.code4 % 4 + 4 * priv.0);
    m := m.(code2 := m.code2 / 2 * 2 + v.0);
    r := Ok((m, v.1));
  }

  // Two fields of two bits are one of four.
  lemma FourTwice(c: Cursor)
    ensures c.left < 2 ==> TakeFixed(c, 2).Err?
    ensures c.left < 4 ==> TakeFixed(c, 4) == Err(MissingField)
    ensures c.left >= 4 ==>
              && TakeFixed(c, 2).Ok?
              && TakeFixed(TakeFixed(c, 2).value.1, 2).Ok?
              && TakeFixed(c, 4) ==
                 Ok((TakeFixed(c, 2).value.0 + 4 * TakeFixed(TakeFixed(c, 2).value.1, 2).value.0,
                     TakeFixed(TakeFixed(c, 2).value.1, 2).value.1))
  {
    hide Low, High;
    LowSplit(c.rest, 2, 2);
    HighHigh(c.rest, 2, 2);
    assert Pow2(2) == 4;
  }

  lemma LowSize(a: nat, b: nat, v: nat, c: Cursor)
    requires exists x, y, z :: a == Low(x, 2) && b == Low(y, 2) && v == Low(z, 1)
    ensures a < 4 && b < 4 && v < 2
  {
    assert Pow2(2) == 4 && Pow2(1) == 2;
  }

  method ReadCodes(buffer: array<byte>, hi: nat, rd: Reader, msg: Msg) returns (r: Result<(Msg, Reader)>)
    requires Reading(buffer, hi, rd) && msg.HasFields()
    ensures Agrees(buffer, hi, r, DecodeCodes(msg, At(buffer, hi, rd)))
  {
    hide At, Low, High;
    if msg.tcode == OWNERSHIP {
      r := ReadProcess(buffer, hi, rd, msg);
      return;
    }
    var m, rd1 := msg, rd;
    NoCode(At(buffer, hi, rd));
    if msg.IsSync() || msg.tcode == ERROR || msg.tcode == RESOURCE_FULL
       || msg.tcode == PROG_TRACE_CORRELATION || msg.tcode == ICT {
      var t :- UnpackFixed(buffer, hi, rd1, 4);
      m, rd1 := m.(code4 := t.0 % 16), t.1;
    }
    NoCode(At(buffer, hi, rd1));
    if msg.IsIndirect() || msg.tcode == PROG_TRACE_CORRELATION || msg.tcode == ICT {
      var t :- UnpackFixed(buffer, hi, rd1, 2);
      m, rd1 := m.(code2 := t.0 % 4), t.1;
    }
    r := Ok((m, rd1));
  }

  lemma NoCode(c: Cursor)
    ensures TakeFixed(c, 0) == Ok((0, c))
  {
  }

  // ---- Whole messages ----

  method SkipGroups(buffer: array<byte>, hi: nat, rd: Reader) returns (r: Result<Reader>)
    requires Reading(buffer, hi, rd)
    ensures r.Ok? ==> Reading(buffer, hi, r.value) && rd.pos <= r.value.pos
    ensures SkipToEnd(At(buffer, hi, rd)) == if r.Ok? then Ok(At(buffer, hi, r.value)) else Err(r.error)
  {
    hide Open, At, LaneValue;
    var rd1 := rd;
    while !rd1.eom
      invariant Reading(buffer, hi, rd1) && rd.pos <= rd1.pos
      invariant SkipToEnd(At(buffer, hi, rd1)) == SkipToEnd(At(buffer, hi, rd))
      decreases |At(buffer, hi, rd1).tail|
    {
      SameEnd(buffer, hi, rd1);
      rd1 :- NextGroup(buffer, hi, rd1);
    }
    SameEnd(buffer, hi, rd1);
    r := Ok(rd1);
  }

  lemma SameEnd(buffer: array<byte>, hi: nat, rd: Reader)
    requires Reading(buffer, hi, rd)
    ensures At(buffer, hi, rd).eom == rd.eom && At(buffer, hi, rd).tail == buffer[rd.pos..hi]
  {
  }

  // The timestamp, and with it the end of the message.
  method ReadTimestamp(hw: HwCfg, buffer: array<byte>, hi: nat, rd: Reader, msg: Msg)
    returns (r: Result<(Msg, nat)>)
    requires Reading(buffer, hi, rd)
    ensures r.Ok? ==> rd.pos <= r.value.1 <= hi
                      && Finish(hw, msg, At(buffer, hi, rd)) == Ok((r.value.0, buffer[r.value.1..hi]))
    ensures r.Err? ==> Finish(hw, msg, At(buffer, hi, rd)) == Err(r.error)
  {
    hide At, SkipToEnd, TakeVar;
    SameEnd(buffer, hi, rd);
    if hw.tsBits != 0 && rd.eom {
      if msg.IsSync() {
        return Err(MissingField);
      }
      return Ok((msg, rd.pos));
    }
    var rd1 :- SkipGroups(buffer, hi, rd);
    SameEnd(buffer, hi, rd1);
    var m := msg;
    if hw.tsBits != 0 {
      var t :- UnpackVarReq(buffer, hi, rd1, Data);
      m := m.(timestamp := t.0);
    }
    r := Ok((m, rd1.pos));
  }

  // Everything after SRC of a kind with fields.
  method ReadBody(hw: HwCfg, buffer: array<byte>, hi: nat, rd: Reader, msg: Msg)
    returns (r: Result<(Msg, nat)>)
    requires Reading(buffer, hi, rd) && msg.HasFields()
    ensures r.Ok? ==> r.value.1 <= hi
                      && DecodeKnown(hw, msg, At(buffer, hi, rd)) == Ok((r.value.0, buffer[r.value.1..hi]))
    ensures r.Err? ==> DecodeKnown(hw, msg, At(buffer, hi, rd)) == Err(r.error)
  {
    hide At, DecodeFields, DecodeCodes, Finish, VarFields, Cleared;
    CodesKeepKind(msg, At(buffer, hi, rd));
    var t :- ReadCodes(buffer, hi, rd, msg);
    if msg.IsCommon() {
      t :- ReadCommon(hw, buffer, hi, t.1, t.0);
    } else if msg.IsRes() {
      t :- ReadResource(hw, buffer, hi, t.1, t.0);
    } else {
      t :- ReadOther(hw, buffer, hi, t.1, t.0);
    }
    r := ReadTimestamp(hw, buffer, hi, t.1, t.0);
  }

  lemma CodesKeepKind(m: Msg, c: Cursor)
    ensures DecodeCodes(m, c).Ok? ==> DecodeCodes(m, c).value.0.tcode == m.tcode
  {
    hide Low, High;
  }

  /** Decode the message in buffer[lo..hi] over the structure that held prev,
      and return its length. On an error the structure is left in any state. */
  method Decode(hw: HwCfg, buffer: array<byte>, lo: nat, hi: nat, prev: Msg)
    returns (r: Result<nat>, msg: Msg)
    requires lo <= hi <= buffer.Length
    ensures r.Ok? ==> Codec.Decode(hw, buffer[lo..hi], prev) == Ok((msg, r.value)) && 0 < r.value <= hi - lo
    ensures r.Err? ==> Codec.Decode(hw, buffer[lo..hi], prev) == Err(r.error)
  {
    hide At, Open, TakeFixed, DecodeKnown, Low, High, SkipToEnd;
    CodecFraming.DecodeEndsAtSync(hw, buffer[lo..hi], prev);
    msg := prev.(timestamp := 0);
    var rd :- OpenGroup(buffer, lo, hi);
    var t :- UnpackFixed(buffer, hi, rd, 6);
    msg := msg.(tcode := t.0 % 256);
    rd := t.1;
    if msg.IsIdle() {
      SameEnd(buffer, hi, rd);
      if !rd.eom {
        return Err(Invalid), msg;
      }
      return Ok(rd.pos - lo), msg;
    }
    NoCode(At(buffer, hi, rd));
    if hw.srcBits != 0 {
      t :- UnpackFixed(buffer, hi, rd, hw.srcBits);
    } else {
      t := (0, rd);
    }
    msg := msg.(src := t.0 % 0x1_0000);
    rd := t.1;
    if !msg.HasFields() {
      var rd1 :- SkipGroups(buffer, hi, rd);
      SameEnd(buffer, hi, rd1);
      return Ok(rd1.pos - lo), msg;
    }
    var p :- ReadBody(hw, buffer, hi, rd, msg);
    msg := p.0;
    r := Ok(p.1 - lo);
  }
}
