// The decoder's reading primitives: loops over the bytes of a buffer, proved
// to compute the groups and fields of the reference decoding.
module MsgUnpack {
  import opened Bits
  import opened Results
  import opened Protocol
  import opened MsgTypes
  import opened Codec
  import CodecFraming

  // ---- Resynchronisation ----

  method SyncForward(buffer: array<byte>, limit: nat) returns (r: Result<nat>)
    requires limit <= buffer.Length
    ensures r == Protocol.SyncForward(buffer[..limit])
  {
    hide Mseo;
    var consumed := 0;
    while consumed < limit
      invariant consumed <= limit
      invariant forall i :: 0 <= i < consumed ==> Mseo(buffer[i]) != 3
    {
      var msgByte := buffer[consumed];
      consumed := consumed + 1;
      if Mseo(msgByte) == 3 {
        CodecFraming.FirstEnd(buffer[..limit], consumed);
        return Ok(consumed);
      }
    }
    CodecFraming.NoEndSync(buffer[..limit]);
    r := Err(Truncated);
  }

  method SyncBackward(buffer: array<byte>, pos: nat) returns (r: Result<nat>)
    requires pos <= buffer.Length
    ensures r == Protocol.SyncBackward(buffer[..], pos)
  {
    hide Mseo;
    var consumed: nat := pos;
    while consumed > 0
      invariant consumed <= pos
      invariant Protocol.SyncBackward(buffer[..], consumed) == Protocol.SyncBackward(buffer[..], pos)
    {
      consumed := consumed - 1;
      var msgByte := buffer[consumed];
      if Mseo(msgByte) == 3 {
        return Ok(consumed + 1);
      }
    }
    r := Err(Truncated);
  }

  // ---- Groups ----

  method ConsumeBytes(buffer: array<byte>, lo: nat, hi: nat) returns (r: Result<(nat, bool)>)
    requires lo <= hi <= buffer.Length
    ensures r == ConsumeGroup(buffer[lo..hi])
  {
    hide Mseo;
    var consumed := 0;
    while consumed < hi - lo
      invariant consumed <= hi - lo
      invariant ConsumeGroup(buffer[lo..hi]) ==
                match ConsumeGroup(buffer[lo + consumed..hi])
                case Ok(p) => Ok((p.0 + consumed, p.1))
                case Err(e) => Err(e)
    {
      var msgByte := buffer[lo + consumed];
      assert buffer[lo + consumed..hi][1..] == buffer[lo + consumed + 1..hi];
      consumed := consumed + 1;
      if Mseo(msgByte) == 2 {
        return Err(BadMseo);
      }
      if Mseo(msgByte) == 0 {
        continue;
      }
      return Ok((consumed, Mseo(msgByte) == 3));
    }
    r := Err(Truncated);
  }

  // ---- Bits ----

  lemma LowScaled(v: nat, n: nat, m: nat)
    requires n <= m
    ensures Low(Pow2(n) * v, m) == Pow2(n) * Low(v, m - n)
  {
    hide Low, High, Pow2;
    assert 0 + Pow2(n) * v == Pow2(n) * v;
    Split(0, v, n);
    LowSplit(Pow2(n) * v, n, m - n);
  }

  function ShiftLeft(v: nat, n: nat): nat
  {
    Pow2(n) * v
  }

  // Shifting a word left and OR-ing in the bits that enter from below.
  lemma ShiftIn(value: nat, rest: nat, low: nat, n: nat)
    requires low < Pow2(n) && n <= 64 && value == Low(rest, 64)
    ensures Or(low, Low(ShiftLeft(value, n), 64)) == Low(low + Pow2(n) * rest, 64)
  {
    hide Low, High, Pow2, Or;
    LowScaled(value, n, 64);
    LowLow(rest, 64 - n, 64);
    OrDisjoint(low, Low(rest, 64 - n), n);
    Split(low, rest, n);
    LowSplit(low + Pow2(n) * rest, n, 64 - n);
  }

  // The bits above shift of a run of lanes.
  lemma RunHigh(mdo: nat, rest: nat, shift: nat)
    requires shift <= 6 && mdo < 64
    ensures High(mdo, shift) < Pow2(6 - shift)
    ensures High(mdo + 64 * rest, shift) == High(mdo, shift) + Pow2(6 - shift) * rest
  {
    hide Low, High, Pow2;
    Pow2Words();
    Pow2Add(shift, 6 - shift);
    MulAssoc(Pow2(shift), Pow2(6 - shift), rest);
    LowAdd(mdo, Pow2(6 - shift) * rest, shift);
    HighBound(mdo, shift, 6);
  }

  // Bits taken from the lanes that hold them are bits of the whole group.
  lemma FieldInRun(group: seq<byte>, first: nat, last: nat, shift: nat, k: nat)
    requires first <= last < |group| && shift < 6
    requires shift + k <= 6 * (last + 1 - first)
    ensures Low(High(LaneValue(group[first..last + 1]), shift), k)
            == Low(High(LaneValue(group), 6 * first + shift), k)
  {
    hide Low, High, Pow2, LaneValue;
    var before, run, after := group[..first], group[first..last + 1], group[last + 1..];
    assert group == before + (run + after);
    LaneValueAppend(before, run + after);
    LaneValueBound(before);
    Split(LaneValue(before), LaneValue(run + after), 6 * first);
    HighHigh(LaneValue(group), 6 * first, shift);
    LaneValueAppend(run, after);
    var w := 6 * |run|;
    LowOfSlice(LaneValue(run), LaneValue(run + after), w, shift, k) by {
      LowAdd(LaneValue(run), LaneValue(after), w);
    }
  }

  // Numbers that agree in their w low bits agree in any slice of them.
  lemma LowOfSlice(a: nat, b: nat, w: nat, shift: nat, k: nat)
    requires Low(a, w) == Low(b, w) && shift + k <= w
    ensures Low(High(a, shift), k) == Low(High(b, shift), k)
  {
    hide Low, High;
    LowLow(a, shift + k, w);
    LowLow(b, shift + k, w);
    HighOfLow(a, shift, k);
    HighOfLow(b, shift, k);
  }

  function Min(a: nat, b: nat): nat { if a <= b then a else b }

  lemma SubSlice(b: seq<byte>, base: nat, end: nat, i: nat, j: nat)
    requires base <= end <= |b| && i <= j <= end - base
    ensures b[base..end][i..j] == b[base + i..base + j]
  {
    assert |b[base..end][i..j]| == |b[base + i..base + j]|;
    forall k | 0 <= k < j - i ensures b[base..end][i..j][k] == b[base + i..base + j][k] {
      assert b[base..end][i..j][k] == b[base..end][i + k] == b[base + (i + k)];
      assert b[base + i..base + j][k] == b[base + i + k];
    }
  }

  // The lanes startByte..lastByte of the group at base, without the shift
  // lowest bits, as a word.
  method GatherLanes(buffer: array<byte>, base: nat, startByte: nat, lastByte: nat, shift: nat)
    returns (value: uint64)
    requires startByte <= lastByte && base + lastByte < buffer.Length && shift < 6
    ensures value == Low(High(LaneValue(buffer[base + startByte..base + lastByte + 1]), shift), 64)
  {
    hide Low, High, Pow2, LaneValue, Or, Mdo;
    value := 0;
    var byte := lastByte;
    ghost var end := base + lastByte + 1;
    Pow2Words();
    LowSmall(0, 64);
    assert buffer[base + lastByte + 1..end] == [];
    NoLanes();
    while true
      invariant startByte <= byte <= lastByte
      invariant value == Low(LaneValue(buffer[base + byte + 1..end]), 64)
      decreases byte
    {
      var mdo := Mdo(buffer[base + byte]);
      ghost var rest := LaneValue(buffer[base + byte + 1..end]);
      LaneBefore(buffer[base + byte..end]);
      assert buffer[base + byte..end][1..] == buffer[base + byte + 1..end];
      if startByte != byte {
        ShiftIn(value, rest, mdo, 6);
        value := Or(mdo, Low(ShiftLeft(value, 6), 64));
        byte := byte - 1;
        continue;
      }
      RunHigh(mdo, rest, shift);
      ShiftIn(value, rest, High(mdo, shift), 6 - shift);
      value := Or(High(mdo, shift), Low(ShiftLeft(value, 6 - shift), 64));
      break;
    }
  }

  // bits bits from bitOffset on of the group that starts at base, as a word.
  method UnpackBits(buffer: array<byte>, base: nat, bitOffset: nat, bits: nat, ghost end: nat)
    returns (value: uint64)
    requires base <= end <= buffer.Length && 0 < bits && bitOffset + bits <= 6 * (end - base)
    ensures value == Low(High(LaneValue(buffer[base..end]), bitOffset), Min(bits, 64))
  {
    hide Low, High, Pow2, LaneValue;
    var startByte, lastByte := bitOffset / 6, (bitOffset + bits - 1) / 6;
    var shift := bitOffset % 6;
    value := GatherLanes(buffer, base, startByte, lastByte, shift);
    ghost var group := buffer[base..end];
    assert lastByte < |group|;
    SubSlice(buffer[..], base, end, startByte, lastByte + 1);
    LowLow(High(LaneValue(group[startByte..lastByte + 1]), shift), Min(bits, 64), 64);
    FieldInRun(group, startByte, lastByte, shift, Min(bits, 64));
    if bits < 64 {
      LowBelow(value, bits);
      value := Low(value, bits);
    }
  }

  lemma NoLanes()
    ensures LaneValue([]) == 0
  {
  }

  lemma LaneBefore(b: seq<byte>)
    requires b != []
    ensures LaneValue(b) == Mdo(b[0]) + 64 * LaneValue(b[1..])
  {
  }

  // ---- The reader ----

  /** The local variables of the decoder: where the bytes after the current
      group start, the length of that group, the bits of it taken so far, and
      whether it ends the message. */
  datatype Reader = Reader(pos: nat, consumed: nat, bitOffset: nat, eom: bool)

  predicate Reading(buffer: array<byte>, hi: nat, rd: Reader)
  {
    rd.consumed <= rd.pos <= hi <= buffer.Length && rd.bitOffset <= 6 * rd.consumed
  }

  ghost function At(buffer: array<byte>, hi: nat, rd: Reader): (c: Cursor)
    requires Reading(buffer, hi, rd)
    reads buffer
  {
    Cursor(High(LaneValue(buffer[rd.pos - rd.consumed..rd.pos]), rd.bitOffset),
           6 * rd.consumed - rd.bitOffset, rd.eom, buffer[rd.pos..hi])
  }

  lemma AtBounded(buffer: array<byte>, hi: nat, rd: Reader)
    requires Reading(buffer, hi, rd)
    ensures Bounded(At(buffer, hi, rd))
  {
    hide Low, High, Pow2, LaneValue;
    LaneValueBound(buffer[rd.pos - rd.consumed..rd.pos]);
    HighBound(LaneValue(buffer[rd.pos - rd.consumed..rd.pos]), rd.bitOffset, 6 * rd.consumed);
  }

  // A result of the reference decoding, at the reader the method stopped at.
  ghost predicate Agrees<T>(buffer: array<byte>, hi: nat, r: Result<(T, Reader)>, spec: Result<(T, Cursor)>)
    reads buffer
  {
    match r
    case Err(e) => spec == Err(e)
    case Ok(p) => Reading(buffer, hi, p.1) && spec == Ok((p.0, At(buffer, hi, p.1)))
  }

  // Start reading at lo.
  method OpenGroup(buffer: array<byte>, lo: nat, hi: nat) returns (r: Result<Reader>)
    requires lo <= hi <= buffer.Length
    ensures match r
            case Err(e) => Open(buffer[lo..hi]) == Err(e)
            case Ok(rd) => Reading(buffer, hi, rd) && lo <= rd.pos && Open(buffer[lo..hi]) == Ok(At(buffer, hi, rd))
  {
    hide LaneValue, ConsumeGroup;
    var t :- ConsumeBytes(buffer, lo, hi);
    var n := t.0;
    assert buffer[lo..hi][..n] == buffer[lo..lo + n];
    assert buffer[lo..hi][n..] == buffer[lo + n..hi];
    HighAll(LaneValue(buffer[lo..lo + n]));
    r := Ok(Reader(lo + n, n, 0, t.1));
  }

  lemma HighAll(v: nat)
    ensures High(v, 0) == v
  {
  }

  // Go on to the next group of the message.
  method NextGroup(buffer: array<byte>, hi: nat, rd: Reader) returns (r: Result<Reader>)
    requires Reading(buffer, hi, rd)
    ensures match r
            case Err(e) => Next(At(buffer, hi, rd)) == Err(e)
            case Ok(rd1) => Reading(buffer, hi, rd1) && rd.pos <= rd1.pos && !rd.eom
                            && Next(At(buffer, hi, rd)) == Ok(At(buffer, hi, rd1))
  {
    hide Open, LaneValue;
    if rd.eom {
      return Err(MissingField);
    }
    r := OpenGroup(buffer, rd.pos, hi);
  }

  method UnpackFixed(buffer: array<byte>, hi: nat, rd: Reader, width: nat) returns (r: Result<(nat, Reader)>)
    requires Reading(buffer, hi, rd) && 0 < width <= 64
    ensures Agrees(buffer, hi, r, TakeFixed(At(buffer, hi, rd), width))
    ensures r.Ok? ==> r.value.0 < U64 && r.value.1 == rd.(bitOffset := rd.bitOffset + width)
  {
    hide Low, High, Pow2, LaneValue;
    var bitsLeft := rd.consumed * 6 - rd.bitOffset;
    if bitsLeft < width {
      return Err(MissingField);
    }
    var value := UnpackBits(buffer, rd.pos - rd.consumed, rd.bitOffset, width, rd.pos);
    HighHigh(LaneValue(buffer[rd.pos - rd.consumed..rd.pos]), rd.bitOffset, width);
    r := Ok((value, rd.(bitOffset := rd.bitOffset + width)));
  }

  // The rest of the group as one value, zero if there is nothing left.
  method UnpackVar(buffer: array<byte>, hi: nat, rd: Reader) returns (value: uint64, bits: nat, rd1: Reader)
    requires Reading(buffer, hi, rd)
    ensures Reading(buffer, hi, rd1) && rd1 == rd.(bitOffset := 6 * rd.consumed)
    ensures var c := At(buffer, hi, rd);
            value == c.rest % U64 && bits == c.left && At(buffer, hi, rd1) == Cursor(0, 0, c.eom, c.tail)
  {
    hide Low, High, Pow2, LaneValue;
    bits := rd.consumed * 6 - rd.bitOffset;
    ghost var c := At(buffer, hi, rd);
    AtBounded(buffer, hi, rd);
    if bits == 0 {
      value := 0;
      Pow2Zero();
    } else {
      value := UnpackBits(buffer, rd.pos - rd.consumed, rd.bitOffset, bits, rd.pos);
      LowWords(c.rest);
      if bits <= 64 {
        LowSmall(c.rest, bits);
        Pow2Mono(bits, 64);
        LowSmall(c.rest, 64);
      }
    }
    rd1 := rd.(bitOffset := rd.bitOffset + bits);
    LaneValueBound(buffer[rd.pos - rd.consumed..rd.pos]);
    LowSmall(LaneValue(buffer[rd.pos - rd.consumed..rd.pos]), 6 * rd.consumed);
  }

  method UnpackVarOpt(buffer: array<byte>, hi: nat, rd: Reader, slot: Slot) returns (r: (uint64, Reader))
    requires Reading(buffer, hi, rd)
    ensures Agrees(buffer, hi, Ok(r), TakeVar(At(buffer, hi, rd), Opt(slot)))
  {
    hide Low, High, LaneValue;
    var value, bits, rd1 := UnpackVar(buffer, hi, rd);
    r := (value, rd1);
  }

  method UnpackVarReq(buffer: array<byte>, hi: nat, rd: Reader, slot: Slot) returns (r: Result<(uint64, Reader)>)
    requires Reading(buffer, hi, rd)
    ensures Agrees(buffer, hi, r, TakeVar(At(buffer, hi, rd), Req(slot)))
  {
    hide Low, High, LaneValue;
    var value, bits, rd1 := UnpackVar(buffer, hi, rd);
    if bits == 0 {
      return Err(MissingField);
    }
    r := Ok((value, rd1));
  }

  method UnpackXaddrVao(buffer: array<byte>, hi: nat, rd: Reader, slot: Slot) returns (r: Result<(uint64, Reader)>)
    requires Reading(buffer, hi, rd)
    ensures Agrees(buffer, hi, r, TakeVar(At(buffer, hi, rd), VarField(slot, true, true)))
  {
    hide Low, High, LaneValue, Pow2, Or;
    var value, bits, rd1 := UnpackVar(buffer, hi, rd);
    if bits == 0 {
      return Err(MissingField);
    }
    if bits >= 64 {
      return Ok((value, rd1));
    }
    if Bit(value, bits - 1) {
      WidenByOr(value, bits);
      value := Or(value, U64 - Pow2(bits));
    }
    r := Ok((value, rd1));
  }

  // OR-ing in the sign bits is the reference sign extension.
  lemma WidenByOr(v: uint64, bits: nat)
    requires 0 < bits < 64 && Bit(v, bits - 1)
    ensures Pow2(bits) <= U64 && Or(v, U64 - Pow2(bits)) == SignExtend(v, bits)
  {
    hide Low, High, Bit, Or;
    Pow2Words();
    Pow2Mono(bits, 64);
    OrFill(v, bits, 64);
  }
}
