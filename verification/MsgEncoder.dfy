// The message encoder: fields are packed into the caller's buffer in place.
module MsgEncoder {
  import opened Bits
  import opened Results
  import opened Protocol
  import opened MsgTypes
  import opened Codec
  import opened CodecRoundTrip
  import opened CodecNormal
  import opened EncoderState

  // ---- Packing bits ----

  // The data bits of a byte after v is OR-ed in above bit shift.
  function MergedMdo(mdo: nat, shift: nat, v: nat): nat
  {
    Or(if shift == 0 then Low(v, 6) else mdo, Low(v * Pow2(shift), 6))
  }

  lemma MergedSum(mdo: nat, shift: nat, v: nat, n: nat, t: nat)
    requires shift < 6 && mdo < Pow2(shift) && v < Pow2(n)
    requires t == if n <= 6 - shift then n else 6 - shift
    ensures MergedMdo(mdo, shift, v) == (if shift == 0 then 0 else mdo) + Pow2(shift) * Low(v, t) < 64
  {
    hide Low, Pow2, Or;
    ShiftedLow(v, shift);
    if n <= 6 - shift {
      Pow2Mono(n, 6 - shift);
      LowSmall(v, 6 - shift);
      LowSmall(v, n);
    }
    Pow2Words();
    Pow2Zero();
    if shift == 0 {
      OrSelf(Low(v, 6));
    } else {
      OrDisjoint(mdo, Low(v, 6 - shift), shift);
      AccBound(mdo, shift, v, 6 - shift);
    }
  }

  // Packing k bits and then t more is packing k + t.
  lemma AccSplit(val: nat, width: nat, x: nat, k: nat, t: nat)
    ensures Acc(Acc(val, width, x, k), width + k, High(x, k), t) == Acc(val, width, x, k + t)
  {
    hide Low, High, Pow2;
    Pow2Add(width, k);
    LowSplit(x, k, t);
    MulAssoc(Pow2(width), Pow2(k), Low(High(x, k), t));
    MulPlus(Pow2(width), Low(x, k), Pow2(k) * Low(High(x, k), t));
  }

  lemma AccNothing(val: nat, width: nat, x: nat)
    ensures Acc(val, width, x, 0) == val
  {
  }

  method PackByte(buffer: array<byte>, off: nat, v: nat, n: nat, ghost base: nat, ghost val: nat)
    returns (ghost t: nat)
    requires off / 6 < buffer.Length && 0 < n && v < Pow2(n)
    requires Partial(buffer[..], base, off, val)
    modifies buffer
    ensures t == if n <= 6 - off % 6 then n else 6 - off % 6
    ensures Partial(buffer[..], base, off + t, Acc(val, off - 6 * base, v, t))
    ensures forall i :: 0 <= i < buffer.Length && i != off / 6 ==> buffer[i] == old(buffer[i])
  {
    hide Low, Pow2, Or, Acc, Partial, Mseo, Mdo;
    var byte, shift := off / 6, off % 6;
    var mseo, mdo := Mseo(buffer[byte]), Mdo(buffer[byte]);
    t := if n <= 6 - shift then n else 6 - shift;
    ghost var before := buffer[..];
    RunStart(before, base, off, val);
    if shift != 0 {
      ClearAbove(before, base, off, val);
      MergedSum(mdo, shift, v, n, t);
    } else {
      Pow2Zero();
      MergedSum(0, shift, v, n, t);
    }
    if shift == 0 {
      mseo, mdo := 0, Low(v, 6);
    }
    mdo := Or(mdo, Low(v * Pow2(shift), 6));
    ByteStep(before, base, byte - base, shift, val, v, t, mdo);
    buffer[byte] := MakeByte(mdo, mseo);
    assert buffer[..] == before[byte := MakeByte(mdo, mseo)];
  }

  lemma RunStart(b: seq<byte>, base: nat, off: nat, val: nat)
    requires Partial(b, base, off, val)
    ensures 6 * base <= off && base <= off / 6
  {
  }

  // Put the low bits of value into the buffer from bitOffset on.
  method PackBits(buffer: array<byte>, bitOffset: nat, value: uint64, bits: nat, ghost base: nat, ghost val: nat)
    requires bitOffset + bits <= 6 * buffer.Length
    requires Partial(buffer[..], base, bitOffset, val)
    modifies buffer
    ensures Partial(buffer[..], base, bitOffset + bits, Acc(val, bitOffset - 6 * base, value, bits))
    ensures forall i :: 0 <= i < bitOffset / 6 || LaneCount(bitOffset + bits) <= i < buffer.Length
                        ==> buffer[i] == old(buffer[i])
  {
    hide Low, High, Pow2, Acc, Partial;
    RunStart(buffer[..], base, bitOffset, val);
    ghost var width := bitOffset - 6 * base;
    if bits == 0 {
      AccNothing(val, width, value);
      return;
    }
    var v, n, off := Low(value, bits), bits, bitOffset;
    AccNothing(val, width, v);
    HighNothing(v);
    while true
      invariant 0 < n <= bits && off + n == bitOffset + bits
      invariant v == High(Low(value, bits), bits - n) && v < Pow2(n)
      invariant Partial(buffer[..], base, off, Acc(val, width, Low(value, bits), bits - n))
      invariant forall i :: 0 <= i < bitOffset / 6 || LaneCount(bitOffset + bits) <= i < buffer.Length
                            ==> buffer[i] == old(buffer[i])
      decreases n
    {
      ghost var t := PackByte(buffer, off, v, n, base, Acc(val, width, Low(value, bits), bits - n));
      AccSplit(val, width, Low(value, bits), bits - n, t);
      var available := 6 - off % 6;
      if available >= n {
        break;
      }
      HighHigh(Low(value, bits), bits - n, available);
      HighBound(v, available, n);
      v := High(v, available);
      n := n - available;
      off := off + available;
    }
    AccLow(val, width, value, bits);
  }

  lemma AccLow(val: nat, width: nat, value: nat, bits: nat)
    ensures Acc(val, width, Low(value, bits), bits) == Acc(val, width, value, bits)
  {
    LowLow(value, bits, bits);
  }

  lemma HighNothing(v: nat)
    ensures High(v, 0) == v
  {
  }

  // ---- Fields ----

  // The buffer after width bits of group k, holding val.
  ghost predicate Packed(
    buffer: array<byte>, orig: seq<byte>, plan: seq<seq<Field>>, k: nat, off: nat, val: nat, width: nat)
    reads buffer
  {
    Written(buffer[..], orig, plan, k, off, val, width)
  }

  // The plan does not fit in limit bytes, and no byte past them was touched.
  ghost predicate Overflowed(buffer: array<byte>, orig: seq<byte>, plan: seq<seq<Field>>, limit: nat)
    reads buffer
  {
    LaneSum(plan) > limit && KeptFrom(buffer, orig, limit)
  }

  ghost predicate KeptFrom(buffer: array<byte>, orig: seq<byte>, n: nat)
    reads buffer
  {
    n <= buffer.Length == |orig| && buffer[n..] == orig[n..]
  }

  lemma TailKept(
    buffer: array<byte>, orig: seq<byte>, plan: seq<seq<Field>>, k: nat, off: nat, val: nat, width: nat, limit: nat)
    requires Packed(buffer, orig, plan, k, off, val, width) && LaneCount(off) <= limit <= buffer.Length
    ensures KeptFrom(buffer, orig, limit)
  {
    hide Partial, LaneSum, Marked, LaneCount;
    var n := LaneCount(off);
    forall i | limit <= i < buffer.Length ensures buffer[i] == orig[i] {
      assert buffer[..][n..][i - n] == orig[n..][i - n];
    }
  }

  method PackField(
    buffer: array<byte>, limit: nat, bitOffset: nat, width: nat, value: uint64,
    ghost orig: seq<byte>, ghost plan: seq<seq<Field>>, ghost k: nat, ghost val: nat, ghost done: nat)
    returns (r: Result<nat>)
    requires limit <= buffer.Length && bitOffset <= 6 * limit
    requires Packed(buffer, orig, plan, k, bitOffset, val, done)
    requires bitOffset + width > 6 * limit ==> k < |plan| && done + width <= Width(plan[k])
    modifies buffer
    ensures r.Ok? ==> r.value == bitOffset + width <= 6 * limit
                      && Packed(buffer, orig, plan, k, r.value, Acc(val, done, value, width), done + width)
    ensures r.Err? ==> r.error == Truncated && Overflowed(buffer, orig, plan, limit)
    ensures r.Err? ==> bitOffset + width > 6 * limit
  {
    hide Acc, Partial, Pow2, LaneSum, Marked, Low, Width;
    if bitOffset + width > limit * 6 {
      TooLong(plan, k, done + width, limit);
      TailKept(buffer, orig, plan, k, bitOffset, val, done, limit);
      return Err(Truncated);
    }
    ghost var before := buffer[..];
    ghost var base := LaneSum(plan[..k]);
    PackBits(buffer, bitOffset, value, width, base, val);
    KeepsAround(before, buffer[..], base, bitOffset, bitOffset + width, orig);
    r := Ok(bitOffset + width);
  }

  lemma KeepsAround(before: seq<byte>, after: seq<byte>, base: nat, off: nat, off1: nat, orig: seq<byte>)
    requires |before| == |after| == |orig| && 6 * base <= off <= off1 <= 6 * |before|
    requires before[LaneCount(off)..] == orig[LaneCount(off)..]
    requires forall i :: 0 <= i < off / 6 || LaneCount(off1) <= i < |before| ==> after[i] == before[i]
    ensures after[..base] == before[..base] && after[LaneCount(off1)..] == orig[LaneCount(off1)..]
  {
    var n, n1 := LaneCount(off), LaneCount(off1);
    forall i | n1 <= i < |before| ensures after[i] == orig[i] {
      assert before[i] == before[n..][i - n] == orig[n..][i - n];
    }
  }

  // Mark the last byte written; the next field starts on a fresh byte.
  method EndField(buffer: array<byte>, bitOffset: nat, mseo: nat) returns (next: nat)
    requires 0 < bitOffset <= 6 * buffer.Length && mseo < 4
    modifies buffer
    ensures next == 6 * LaneCount(bitOffset)
    ensures var i := LaneCount(bitOffset) - 1;
            buffer[..] == old(buffer[..])[i := MakeByte(Mdo(old(buffer[i])), mseo)]
  {
    hide MakeByte;
    next := bitOffset + 5;
    var byte := next / 6;
    next := byte * 6;
    byte := byte - 1;
    buffer[byte] := MakeByte(Mdo(buffer[byte]), mseo);
  }

  lemma EmptyRun(b: seq<byte>, base: nat)
    requires base <= |b|
    ensures Partial(b, base, 6 * base, 0)
  {
    assert b[base..base] == [];
    Pow2Zero();
  }

  // Marking a full group leaves the buffer ready for the next.
  lemma GroupClosed(b: seq<byte>, b1: seq<byte>, orig: seq<byte>, plan: seq<seq<Field>>, k: nat, off: nat)
    requires k < |plan| && Width(plan[k]) > 0 && off <= 6 * |b|
    requires Written(b, orig, plan, k, off, Pack(plan[k]), Width(plan[k]))
    requires var i := LaneCount(off) - 1; b1 == b[i := MakeByte(Mdo(b[i]), 1)]
    ensures Written(b1, orig, plan, k + 1, 6 * LaneCount(off), 0, 0)
  {
    hide Partial, Pack, Width, Low, Pow2, MakeByte, Mdo, Lanes;
    var base, g := LaneSum(plan[..k]), plan[k];
    var n := LaneCount(Width(g));
    assert LaneCount(off) == base + n;
    CloseRun(b, base, off, g, 1, b1);
    assert plan[..k + 1] == plan[..k] + [g];
    MarkedAppend(plan[..k], g);
    assert b1[..base] == b[..base];
    assert b1[..base + n] == b1[..base] + b1[base..base + n];
    EmptyRun(b1, base + n);
    assert b1[base + n..] == b[base + n..];
  }

  // Marking again after a field that took no bits changes nothing.
  lemma NothingClosed(b: seq<byte>, b1: seq<byte>, orig: seq<byte>, plan: seq<seq<Field>>, k: nat, off: nat)
    requires 0 < k <= |plan| && Width(plan[k - 1]) > 0 && 0 < off <= 6 * |b|
    requires Written(b, orig, plan, k, off, 0, 0)
    requires var i := LaneCount(off) - 1; b1 == b[i := MakeByte(Mdo(b[i]), 1)]
    ensures b1 == b && off == 6 * LaneCount(off)
  {
    hide Partial, Pack, Width, Low, Pow2, MakeByte, Mdo, Lanes;
    var base, g := LaneSum(plan[..k]), plan[k - 1];
    assert off == 6 * base && LaneCount(off) == base;
    assert plan[..k] == plan[..k - 1] + [g];
    MarkedAppend(plan[..k - 1], g);
    MarkedLength(plan[..k - 1]);
    LaneCountPositive(Width(g));
    LanesMseo(Pack(g), LaneCount(Width(g)), 1, LaneCount(Width(g)) - 1);
    assert b[base - 1] == b[..base][base - 1] == Marked(plan[..k])[base - 1];
    ByteParts(b[base - 1]);
  }

  lemma LanesReach(off: nat, limit: nat)
    requires off <= 6 * limit
    ensures off <= 6 * LaneCount(off) <= 6 * limit
  {
  }

  // A field that ends its group.
  method PackLast(
    buffer: array<byte>, limit: nat, bitOffset: nat, width: nat, value: uint64,
    ghost orig: seq<byte>, ghost plan: seq<seq<Field>>, ghost k: nat, ghost val: nat, ghost done: nat)
    returns (r: Result<nat>)
    requires limit <= buffer.Length && 0 < bitOffset <= 6 * limit
    requires Packed(buffer, orig, plan, k, bitOffset, val, done)
    requires k < |plan| && done + width == Width(plan[k]) > 0
    requires Acc(val, done, value, width) == Pack(plan[k])
    modifies buffer
    ensures r.Ok? ==> bitOffset <= r.value <= 6 * limit && Packed(buffer, orig, plan, k + 1, r.value, 0, 0)
    ensures r.Err? ==> r.error == Truncated && Overflowed(buffer, orig, plan, limit)
  {
    hide Acc, Partial, Pow2, LaneSum, Marked, Low, Width, Written;
    var off :- PackField(buffer, limit, bitOffset, width, value, orig, plan, k, val, done);
    ghost var before := buffer[..];
    var next := EndField(buffer, off, 1);
    GroupClosed(before, buffer[..], orig, plan, k, off);
    r := Ok(next);
  }

  // ---- The field macros ----

  method PackVarReq(
    buffer: array<byte>, limit: nat, bitOffset: nat, value: uint64,
    ghost orig: seq<byte>, ghost plan: seq<seq<Field>>, ghost k: nat, ghost val: nat, ghost done: nat)
    returns (r: Result<nat>)
    requires limit <= buffer.Length && 0 < bitOffset <= 6 * limit
    requires Packed(buffer, orig, plan, k, bitOffset, val, done)
    requires k < |plan| && done + ReqBits(value) == Width(plan[k])
    requires Acc(val, done, value, ReqBits(value)) == Pack(plan[k])
    modifies buffer
    ensures r.Ok? ==> bitOffset <= r.value <= 6 * limit && Packed(buffer, orig, plan, k + 1, r.value, 0, 0)
    ensures r.Err? ==> r.error == Truncated && Overflowed(buffer, orig, plan, limit)
  {
    // 64 minus the leading zeros, counting 63 of them in zero.
    var zeros: int := if value == 0 then 63 else 64 - BitLen(value);
    var bits := 64 - zeros;
    r := PackLast(buffer, limit, bitOffset, bits, value, orig, plan, k, val, done);
  }

  // As above, but zero takes no bits; after a finished group it adds nothing.
  method PackVar(
    buffer: array<byte>, limit: nat, bitOffset: nat, value: uint64,
    ghost orig: seq<byte>, ghost plan: seq<seq<Field>>, ghost k: nat, ghost val: nat, ghost done: nat)
    returns (r: Result<nat>)
    requires limit <= buffer.Length && 0 < bitOffset <= 6 * limit
    requires Packed(buffer, orig, plan, k, bitOffset, val, done)
    requires if done + BitLen(value) > 0
             then k < |plan| && done + BitLen(value) == Width(plan[k])
                  && Acc(val, done, value, BitLen(value)) == Pack(plan[k])
             else val == 0 && 0 < k <= |plan| && Width(plan[k - 1]) > 0
    modifies buffer
    ensures r.Ok? ==> bitOffset <= r.value <= 6 * limit
                      && Packed(buffer, orig, plan, if done + BitLen(value) > 0 then k + 1 else k, r.value, 0, 0)
    ensures r.Err? ==> r.error == Truncated && Overflowed(buffer, orig, plan, limit)
  {
    hide Acc, Partial, Pow2, LaneSum, Marked, Low, Width, Written, BitLen, MakeByte, Mdo, Pack, LaneCount, Overflowed;
    AccNothing(val, done, value);
    var off :- PackField(buffer, limit, bitOffset, BitLen(value), value, orig, plan, k, val, done);
    ghost var before := buffer[..];
    var next := EndField(buffer, off, 1);
    if done + BitLen(value) > 0 {
      GroupClosed(before, buffer[..], orig, plan, k, off);
    } else {
      NothingClosed(before, buffer[..], orig, plan, k, off);
    }
    LanesReach(off, limit);
    r := Ok(next);
  }

  // An address on a byte boundary, as the shortest two's complement number.
  method PackXaddrVao(
    buffer: array<byte>, limit: nat, bitOffset: nat, xaddr: uint64,
    ghost orig: seq<byte>, ghost plan: seq<seq<Field>>, ghost k: nat)
    returns (r: Result<nat>)
    requires limit <= buffer.Length && 0 < bitOffset <= 6 * limit && bitOffset % 6 == 0
    requires Packed(buffer, orig, plan, k, bitOffset, 0, 0)
    requires k < |plan| && VaoBits(xaddr) == Width(plan[k])
    requires Acc(0, 0, xaddr, VaoBits(xaddr)) == Pack(plan[k])
    modifies buffer
    ensures r.Ok? ==> bitOffset <= r.value <= 6 * limit && Packed(buffer, orig, plan, k + 1, r.value, 0, 0)
    ensures r.Err? ==> r.error == Truncated && Overflowed(buffer, orig, plan, limit)
  {
    var bits := BitLen(xaddr);
    if bits < 64 {
      bits := bits + 1;
    } else {
      bits := 65 - (64 - BitLen(U64 - 1 - xaddr));
    }
    var bytes := (bitOffset + bits + 5) / 6;
    bits := bytes * 6 - bitOffset;
    if bits > 64 {
      bits := 64;
    }
    assert bits == VaoBits(xaddr) by { AlignedLanes(bitOffset, SignedBits(xaddr)); }
    r := PackLast(buffer, limit, bitOffset, bits, xaddr, orig, plan, k, 0, 0);
  }

  lemma AlignedLanes(off: nat, bits: nat)
    requires off % 6 == 0
    ensures (off + bits + 5) / 6 * 6 - off == 6 * LaneCount(bits)
  {
  }

  // ---- Whole messages ----

  function HeadWidth(hw: HwCfg, m: Msg): nat
  {
    6 + hw.srcBits + Code4Bits(m.tcode) + Code2Bits(m.tcode)
  }

  // TCODE and SRC, then the codes as well.
  function SrcVal(hw: HwCfg, m: Msg): nat
  {
    Acc(Acc(0, 0, m.tcode, 6), 6, m.src, hw.srcBits)
  }

  function HeadVal(hw: HwCfg, m: Msg): nat
  {
    Acc(Acc(SrcVal(hw, m), 6 + hw.srcBits, m.code4, Code4Bits(m.tcode)),
        6 + hw.srcBits + Code4Bits(m.tcode), m.code2, Code2Bits(m.tcode))
  }

  // What the groups of the plan hold.
  lemma PlanShape(hw: HwCfg, m: Msg)
    requires m.HasFields()
    ensures var plan, fs := Wire(hw, m), EncodedFields(hw, m);
            && 0 < |fs| <= |plan| == |fs| + |TimeGroup(hw, m)|
            && Pack(plan[0]) == Acc(HeadVal(hw, m), HeadWidth(hw, m), Get(m, fs[0].slot), FieldOf(fs[0], m).width)
            && Width(plan[0]) == HeadWidth(hw, m) + FieldOf(fs[0], m).width
            && (forall i :: 0 < i < |fs| ==> plan[i] == [FieldOf(fs[i], m)])
            && (TimeGroup(hw, m) != [] ==> plan[|fs|] == TimeGroup(hw, m)[0])
  {
    hide Acc, Pack, Width, Low, Pow2, FieldOf, TimeGroup, HeadWidth;
    var plan, fs := Wire(hw, m), EncodedFields(hw, m);
    HeadPack(hw, m, FieldOf(fs[0], m));
    forall i | 0 < i < |fs| ensures plan[i] == [FieldOf(fs[i], m)] {
      GroupAt(fs[1..], m, i - 1);
      assert plan[i] == Groups(fs[1..], m)[i - 1];
    }
    FieldValue(fs[0], m);
  }

  lemma FieldValue(f: VarField, m: Msg)
    ensures FieldOf(f, m).value == Get(m, f.slot)
  {
  }

  lemma {:induction false} GroupAt(fs: seq<VarField>, m: Msg, i: nat)
    requires i < |fs|
    ensures Groups(fs, m)[i] == [FieldOf(fs[i], m)]
  {
    if i > 0 { GroupAt(fs[1..], m, i - 1); }
  }

  lemma HeadPack(hw: HwCfg, m: Msg, f: Field)
    ensures Pack(HeadFields(hw, m) + [f]) == Acc(HeadVal(hw, m), HeadWidth(hw, m), f.value, f.width)
    ensures Width(HeadFields(hw, m) + [f]) == HeadWidth(hw, m) + f.width
  {
    hide Acc, Pack, Width;
    var h := HeadFields(hw, m);
    PackNothing();
    PackAppend([], h[0]);
    PackAppend([h[0]], h[1]);
    PackAppend([h[0], h[1]], h[2]);
    PackAppend([h[0], h[1], h[2]], h[3]);
    PackAppend(h, f);
    assert [] + [h[0]] == [h[0]];
    assert [h[0]] + [h[1]] == [h[0], h[1]];
    assert [h[0], h[1]] + [h[2]] == [h[0], h[1], h[2]];
    assert [h[0], h[1], h[2]] + [h[3]] == h;
  }

  lemma PackNothing()
    ensures Pack([]) == 0 && Width([]) == 0
  {
  }

  // The one group of a field that starts on a fresh byte.
  lemma FieldGroup(f: Field)
    ensures Pack([f]) == Acc(0, 0, f.value, f.width) && Width([f]) == f.width
  {
    hide Acc, Pack, Width;
    PackNothing();
    PackAppend([], f);
    assert [] + [f] == [f];
  }

  // The buffer is unchanged past the limit, and says why nothing was encoded.
  ghost predicate Refused(buffer: array<byte>, orig: seq<byte>, hw: HwCfg, m: Msg, limit: nat, e: Error)
    requires m.HasFields()
    reads buffer
  {
    && KeptFrom(buffer, orig, limit)
    && (if e == Truncated then LaneSum(Wire(hw, m)) > limit else e == Unsupported && !m.Encodable())
  }

  // The branch messages and ProgTraceSync, after SRC.
  method EncodeCommon(
    hw: HwCfg, buffer: array<byte>, limit: nat, msg: Msg, bitOffset: nat, ghost orig: seq<byte>)
    returns (r: Result<nat>)
    requires limit <= buffer.Length && 0 < bitOffset <= 6 * limit
    requires msg.IsCommon()
    requires Packed(buffer, orig, Wire(hw, msg), 0, bitOffset, SrcVal(hw, msg), 6 + hw.srcBits)
    modifies buffer
    ensures r.Ok? ==> 0 < r.value <= 6 * limit
                      && Packed(buffer, orig, Wire(hw, msg), |EncodedFields(hw, msg)|, r.value, 0, 0)
    ensures r.Err? ==> r.error == Truncated && Overflowed(buffer, orig, Wire(hw, msg), limit)
  {
    hide Acc, Pack, Width, Packed, Wire, Overflowed, BitLen, SignedBits, TimeGroup, LaneCount;
    ghost var plan, fs := Wire(hw, msg), EncodedFields(hw, msg);
    PlanShape(hw, msg);
    var off := bitOffset;
    ghost var val, width := SrcVal(hw, msg), 6 + hw.srcBits;
    AccNothing(val, width, msg.code4);
    if msg.IsSync() {
      off :- PackField(buffer, limit, off, 4, msg.code4, orig, plan, 0, val, width);
    }
    val, width := Acc(val, width, msg.code4, Code4Bits(msg.tcode)), width + Code4Bits(msg.tcode);
    AccNothing(val, width, msg.code2);
    if msg.IsIndirect() {
      off :- PackField(buffer, limit, off, 2, msg.code2, orig, plan, 0, val, width);
    }
    off :- PackVarReq(buffer, limit, off, msg.word, orig, plan, 0, HeadVal(hw, msg), HeadWidth(hw, msg));
    ghost var k := 1;
    if msg.HasXaddr() {
      FieldGroup(FieldOf(fs[1], msg));
      if hw.vao {
        Aligned(buffer, orig, plan, 1, off);
        off :- PackXaddrVao(buffer, limit, off, msg.data, orig, plan, 1);
      } else {
        off :- PackVarReq(buffer, limit, off, msg.data, orig, plan, 1, 0, 0);
      }
      k := 2;
    }
    if msg.HasHist() {
      FieldGroup(FieldOf(fs[k], msg));
      off :- PackVarReq(buffer, limit, off, msg.hist, orig, plan, k, 0, 0);
    }
    r := Ok(off);
  }

  lemma Aligned(buffer: array<byte>, orig: seq<byte>, plan: seq<seq<Field>>, k: nat, off: nat)
    requires Packed(buffer, orig, plan, k, off, 0, 0)
    ensures off % 6 == 0
  {
  }

  // PROCESS is three fields in the source: the first two together are code4.
  lemma TwoInFour(val: nat, width: nat, code4: uint4)
    ensures Acc(Acc(val, width, code4 % 4, 2), width + 2, code4 / 4, 2) == Acc(val, width, code4, 4)
  {
    hide Low, High, Acc, Pow2;
    AccSplit(val, width, code4, 2, 2);
    QuarterCodes(code4);
    AccLow(val, width, code4, 2);
  }

  lemma QuarterCodes(code4: uint4)
    ensures High(code4, 2) == code4 / 4 && Low(code4, 2) == code4 % 4
  {
    assert Pow2(2) == 4;
    LowDivMod(code4, 2, 4);
  }

  lemma OneInTwo(val: nat, width: nat, code2: uint2)
    ensures Acc(val, width, code2 % 2, 1) == Acc(val, width, code2, 1)
  {
    assert Low(code2 % 2, 1) == Low(code2, 1);
  }

  method EncodeOwnership(
    hw: HwCfg, buffer: array<byte>, limit: nat, msg: Msg, bitOffset: nat, ghost orig: seq<byte>)
    returns (r: Result<nat>)
    requires limit <= buffer.Length && 0 < bitOffset <= 6 * limit && msg.tcode == OWNERSHIP
    requires Packed(buffer, orig, Wire(hw, msg), 0, bitOffset, SrcVal(hw, msg), 6 + hw.srcBits)
    modifies buffer
    ensures r.Ok? ==> 0 < r.value <= 6 * limit
                      && Packed(buffer, orig, Wire(hw, msg), |EncodedFields(hw, msg)|, r.value, 0, 0)
    ensures r.Err? ==> r.error == Truncated && Overflowed(buffer, orig, Wire(hw, msg), limit)
  {
    hide Acc, Pack, Width, Packed, Wire, Overflowed, BitLen, TimeGroup, LaneCount;
    ghost var plan := Wire(hw, msg);
    PlanShape(hw, msg);
    ghost var val, width := SrcVal(hw, msg), 6 + hw.srcBits;
    TwoInFour(val, width, msg.code4);
    var off :- PackField(buffer, limit, bitOffset, 2, msg.code4 % 4, orig, plan, 0, val, width);
    off :- PackField(buffer, limit, off, 2, msg.code4 / 4, orig, plan, 0, Acc(val, width, msg.code4 % 4, 2), width + 2);
    val, width := Acc(val, width, msg.code4, 4), width + 4;
    OneInTwo(val, width, msg.code2);
    off :- PackField(buffer, limit, off, 1, msg.code2 % 2, orig, plan, 0, val, width);
    r := PackVar(buffer, limit, off, msg.data, orig, plan, 0, HeadVal(hw, msg), HeadWidth(hw, msg));
  }

  // The other kinds, after SRC.
  method EncodeRest(
    hw: HwCfg, buffer: array<byte>, limit: nat, msg: Msg, bitOffset: nat, ghost orig: seq<byte>)
    returns (r: Result<nat>)
    requires limit <= buffer.Length && 0 < bitOffset <= 6 * limit
    requires msg.HasFields() && !msg.IsCommon() && msg.Known()
    requires Packed(buffer, orig, Wire(hw, msg), 0, bitOffset, SrcVal(hw, msg), 6 + hw.srcBits)
    modifies buffer
    ensures r.Ok? ==> 0 < r.value <= 6 * limit && msg.Encodable()
                      && Packed(buffer, orig, Wire(hw, msg), |EncodedFields(hw, msg)|, r.value, 0, 0)
    ensures r.Err? ==> Refused(buffer, orig, hw, msg, limit, r.error)
  {
    hide Acc, Pack, Width, Packed, Wire, BitLen, TimeGroup, LaneCount, KeptFrom;
    ghost var plan, fs := Wire(hw, msg), EncodedFields(hw, msg);
    PlanShape(hw, msg);
    if msg.tcode == OWNERSHIP {
      r := EncodeOwnership(hw, buffer, limit, msg, bitOffset, orig);
    } else if msg.tcode == ERROR || msg.tcode == RESOURCE_FULL || msg.tcode == REPEAT_BRANCH {
      r := EncodeResource(hw, buffer, limit, msg, bitOffset, orig);
    } else if msg.tcode == PROG_TRACE_CORRELATION || msg.tcode == ICT {
      r := EncodeTwoCodes(hw, buffer, limit, msg, bitOffset, orig);
    } else {
      TailKept(buffer, orig, plan, 0, bitOffset, SrcVal(hw, msg), 6 + hw.srcBits, limit) by {
        OffsetLanes(bitOffset, limit);
      }
      r := Err(Unsupported);
    }
  }

  lemma OffsetLanes(off: nat, limit: nat)
    requires off <= 6 * limit
    ensures LaneCount(off) <= limit
  {
  }

  // Error, ResourceFull and RepeatBranch: at most one code.
  method EncodeResource(
    hw: HwCfg, buffer: array<byte>, limit: nat, msg: Msg, bitOffset: nat, ghost orig: seq<byte>)
    returns (r: Result<nat>)
    requires limit <= buffer.Length && 0 < bitOffset <= 6 * limit
    requires msg.tcode == ERROR || msg.tcode == RESOURCE_FULL || msg.tcode == REPEAT_BRANCH
    requires Packed(buffer, orig, Wire(hw, msg), 0, bitOffset, SrcVal(hw, msg), 6 + hw.srcBits)
    modifies buffer
    ensures r.Ok? ==> 0 < r.value <= 6 * limit
                      && Packed(buffer, orig, Wire(hw, msg), |EncodedFields(hw, msg)|, r.value, 0, 0)
    ensures r.Err? ==> r.error == Truncated && Overflowed(buffer, orig, Wire(hw, msg), limit)
  {
    hide Acc, Pack, Width, Packed, Wire, Overflowed, BitLen, TimeGroup, LaneCount;
    ghost var plan, fs := Wire(hw, msg), EncodedFields(hw, msg);
    PlanShape(hw, msg);
    ghost var head, width := HeadVal(hw, msg), HeadWidth(hw, msg);
    AccNothing(SrcVal(hw, msg), 6 + hw.srcBits, msg.code4);
    AccNothing(Acc(SrcVal(hw, msg), 6 + hw.srcBits, msg.code4, Code4Bits(msg.tcode)), width, msg.code2);
    var off := bitOffset;
    if msg.tcode == REPEAT_BRANCH {
      r := PackVarReq(buffer, limit, off, msg.hrepeat, orig, plan, 0, head, width);
      return;
    }
    off :- PackField(buffer, limit, off, 4, msg.code4, orig, plan, 0, SrcVal(hw, msg), 6 + hw.srcBits);
    if msg.tcode == ERROR || msg.code4 > 2 {
      r := PackVar(buffer, limit, off, msg.word, orig, plan, 0, head, width);
      return;
    }
    if msg.code4 == 0 {
      r := PackVarReq(buffer, limit, off, msg.word, orig, plan, 0, head, width);
    } else if msg.code4 == 1 {
      r := PackVarReq(buffer, limit, off, msg.hist, orig, plan, 0, head, width);
    } else {
      off :- PackVarReq(buffer, limit, off, msg.hist, orig, plan, 0, head, width);
      FieldGroup(FieldOf(fs[1], msg));
      r := PackVarReq(buffer, limit, off, msg.hrepeat, orig, plan, 1, 0, 0);
    }
  }

  // ProgTraceCorrelation and ICT: two codes.
  method EncodeTwoCodes(
    hw: HwCfg, buffer: array<byte>, limit: nat, msg: Msg, bitOffset: nat, ghost orig: seq<byte>)
    returns (r: Result<nat>)
    requires limit <= buffer.Length && 0 < bitOffset <= 6 * limit && msg.Known()
    requires msg.tcode == PROG_TRACE_CORRELATION || msg.tcode == ICT
    requires Packed(buffer, orig, Wire(hw, msg), 0, bitOffset, SrcVal(hw, msg), 6 + hw.srcBits)
    modifies buffer
    ensures r.Ok? ==> 0 < r.value <= 6 * limit && msg.Encodable()
                      && Packed(buffer, orig, Wire(hw, msg), |EncodedFields(hw, msg)|, r.value, 0, 0)
    ensures r.Err? ==> Refused(buffer, orig, hw, msg, limit, r.error)
  {
    hide Acc, Pack, Width, Packed, Wire, BitLen, TimeGroup, LaneCount, KeptFrom;
    ghost var plan, fs := Wire(hw, msg), EncodedFields(hw, msg);
    PlanShape(hw, msg);
    ghost var val, width := SrcVal(hw, msg), 6 + hw.srcBits;
    ghost var head, headWidth := HeadVal(hw, msg), HeadWidth(hw, msg);
    var off :- PackField(buffer, limit, bitOffset, 4, msg.code4, orig, plan, 0, val, width);
    off :- PackField(buffer, limit, off, 2, msg.code2, orig, plan, 0, Acc(val, width, msg.code4, 4), width + 4);
    if msg.tcode == ICT {
      var check0: uint64 := msg.hist + U32 * msg.hrepeat;
      off :- PackVarReq(buffer, limit, off, check0, orig, plan, 0, head, headWidth);
      if msg.code2 > 1 {
        TailKept(buffer, orig, plan, 1, off, 0, 0, limit) by { OffsetLanes(off, limit); }
        return Err(Unsupported);
      }
      FieldGroup(FieldOf(fs[1], msg));
      off :- PackVarReq(buffer, limit, off, msg.data, orig, plan, 1, 0, 0);
    } else {
      off :- PackVarReq(buffer, limit, off, msg.word, orig, plan, 0, head, headWidth);
      if msg.code2 == 1 {
        FieldGroup(FieldOf(fs[1], msg));
        off :- PackVarReq(buffer, limit, off, msg.hist, orig, plan, 1, 0, 0);
      }
    }
    r := Ok(off);
  }

  // Every group of a message takes some bits.
  lemma PlanWidths(hw: HwCfg, m: Msg)
    requires m.HasFields()
    ensures forall i :: 0 <= i < |Wire(hw, m)| ==> Width(Wire(hw, m)[i]) > 0
  {
    hide Pack, Width, FieldOf, BitLen, SignedBits;
    var plan, fs := Wire(hw, m), EncodedFields(hw, m);
    PlanShape(hw, m);
    forall i | 0 <= i < |plan| ensures Width(plan[i]) > 0 {
      if 0 < i < |fs| {
        assert fs[i].required;
        FieldWidths(fs[i], m);
        OneWidth(FieldOf(fs[i], m));
      } else if i > 0 {
        OneWidth(Field(m.timestamp, ReqBits(m.timestamp)));
      }
    }
  }

  lemma NothingWritten(buffer: array<byte>, plan: seq<seq<Field>>)
    ensures Packed(buffer, buffer[..], plan, 0, 0, 0, 0)
  {
    EmptyRun(buffer[..], 0);
    assert plan[..0] == [];
    assert buffer[..][..0] == [];
  }

  // A message with fields, up to its last group.
  method EncodeBody(hw: HwCfg, buffer: array<byte>, limit: nat, msg: Msg, ghost orig: seq<byte>)
    returns (r: Result<nat>)
    requires limit <= buffer.Length && msg.HasFields() && msg.Known()
    requires Packed(buffer, orig, Wire(hw, msg), 0, 0, 0, 0)
    modifies buffer
    ensures r.Ok? ==> 0 < r.value <= 6 * limit && msg.Encodable()
                      && Packed(buffer, orig, Wire(hw, msg), |Wire(hw, msg)|, r.value, 0, 0)
    ensures r.Err? ==> Refused(buffer, orig, hw, msg, limit, r.error)
  {
    hide Acc, Pack, Width, Packed, Wire, BitLen, LaneCount, KeptFrom, EncodedFields, FieldOf;
    ghost var plan, fs := Wire(hw, msg), EncodedFields(hw, msg);
    PlanShape(hw, msg);
    PlanWidths(hw, msg);
    var off :- PackField(buffer, limit, 0, 6, msg.tcode, orig, plan, 0, 0, 0);
    AccNothing(Acc(0, 0, msg.tcode, 6), 6, msg.src);
    if hw.srcBits != 0 {
      off :- PackField(buffer, limit, off, hw.srcBits, msg.src, orig, plan, 0, Acc(0, 0, msg.tcode, 6), 6);
    }
    if msg.IsCommon() {
      off :- EncodeCommon(hw, buffer, limit, msg, off, orig);
    } else {
      off :- EncodeRest(hw, buffer, limit, msg, off, orig);
    }
    if hw.tsBits != 0 {
      FieldGroup(Field(msg.timestamp, ReqBits(msg.timestamp)));
      ZeroLength(msg.timestamp);
      if msg.IsSync() {
        off :- PackVarReq(buffer, limit, off, msg.timestamp, orig, plan, |fs|, 0, 0);
      } else {
        off :- PackVar(buffer, limit, off, msg.timestamp, orig, plan, |fs|, 0, 0);
      }
    }
    r := Ok(off);
  }

  lemma ZeroLength(v: nat)
    ensures BitLen(v) == 0 <==> v == 0
  {
  }

  method EncodeIdle(hw: HwCfg, buffer: array<byte>, limit: nat, msg: Msg, ghost orig: seq<byte>)
    returns (r: Result<nat>)
    requires limit <= buffer.Length && msg.IsIdle()
    requires Packed(buffer, orig, Wire(hw, msg), 0, 0, 0, 0)
    modifies buffer
    ensures r.Ok? ==> r.value == 1 <= limit && buffer[..1] == Codec.Encode(hw, msg) && buffer[1..] == orig[1..]
    ensures r.Err? ==> r.error == Truncated && Overflowed(buffer, orig, Wire(hw, msg), limit)
  {
    hide Acc, Pack, Width, LaneCount, Lanes, Partial;
    ghost var g := [Field(msg.tcode, 6)];
    ghost var plan := [g];
    assert plan == Wire(hw, msg);
    FieldGroup(Field(msg.tcode, 6));
    var off :- PackField(buffer, limit, 0, 6, msg.tcode, orig, plan, 0, 0, 0);
    ghost var before := buffer[..];
    SixBits();
    off := EndField(buffer, off, 3);
    assert plan[..0] == [];
    CloseRun(before, 0, 6, g, 3, buffer[..]);
    assert buffer[..][0..1] == buffer[..1];
    assert before[1..] == orig[1..];
    r := Ok(off / 6);
  }

  lemma SixBits()
    ensures LaneCount(6) == 1
  {
  }

  // The last byte becomes the end of the message.
  method EndMessage(hw: HwCfg, buffer: array<byte>, msg: Msg, bitOffset: nat, ghost orig: seq<byte>)
    returns (off: nat)
    requires msg.Encodable() && !msg.IsIdle() && msg.HasFields() && 0 < bitOffset <= 6 * buffer.Length
    requires Packed(buffer, orig, Wire(hw, msg), |Wire(hw, msg)|, bitOffset, 0, 0)
    modifies buffer
    ensures off == bitOffset == 6 * |Codec.Encode(hw, msg)|
    ensures buffer[..off / 6] == Codec.Encode(hw, msg) && buffer[off / 6..] == orig[off / 6..]
  {
    hide Pack, Width, Wire, MakeByte, Mdo, Lanes, Partial, Frame;
    ghost var plan := Wire(hw, msg);
    assert plan[..|plan|] == plan;
    ghost var before := buffer[..];
    FrameLength(plan);
    PlanWidths(hw, msg);
    off := EndField(buffer, bitOffset, 3);
    ghost var n := LaneSum(plan);
    MarkedLength(plan);
    assert buffer[..n] == before[..n][n - 1 := MakeByte(Mdo(before[..n][n - 1]), 3)];
    MarkedFrame(plan, buffer[..n]);
    assert buffer[n..] == before[n..];
  }

  /** Encode msg into the first limit bytes of the buffer. An encodable message
      is written exactly when it fits, whatever the buffer held; bytes after it,
      or after the limit when nothing is written, keep their values. */
  method Encode(hw: HwCfg, buffer: array<byte>, limit: nat, msg: Msg) returns (r: Result<nat>)
    requires limit <= buffer.Length
    modifies buffer
    ensures r.Ok? <==> msg.Encodable() && |Codec.Encode(hw, msg)| <= limit
    ensures r.Ok? ==> r.value == |Codec.Encode(hw, msg)| && buffer[..r.value] == Codec.Encode(hw, msg)
                      && buffer[r.value..] == old(buffer[r.value..])
    ensures r.Err? ==> buffer[limit..] == old(buffer[limit..])
    ensures r.Err? ==> r.error == Truncated || r.error == Unsupported
    ensures r.Err? && msg.Encodable() ==> r.error == Truncated
    ensures !msg.Known() ==> r == Err(Unsupported)
  {
    hide Acc, Pack, Width, Packed, Wire, BitLen, TimeGroup, LaneCount, Frame, LaneSum;
    ghost var orig := buffer[..];
    if !msg.Known() {
      return Err(Unsupported);
    }
    ghost var plan := Wire(hw, msg);
    NothingWritten(buffer, plan);
    if msg.IsIdle() {
      FrameLength(plan);
      IdleLength(hw, msg);
      r := EncodeIdle(hw, buffer, limit, msg, orig);
      return;
    }
    r := EncodeBody(hw, buffer, limit, msg, orig);
    if r.Ok? {
      var off := r.value;
      off := EndMessage(hw, buffer, msg, off, orig);
      r := Ok(off / 6);
    } else if msg.Encodable() {
      FrameLength(plan);
    }
  }
}
