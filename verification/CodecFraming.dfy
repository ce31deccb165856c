// Messages delimit themselves: a decode depends on no byte past the message,
// ends exactly where resynchronisation would, and reports truncation only when
// no end of message is in sight.
module CodecFraming {
  import opened Bits
  import opened Results
  import opened Protocol
  import opened MsgTypes
  import opened Codec

  // ---- Later bytes do not matter ----

  lemma {:induction false} FieldsStable(fs: seq<VarField>, m: Msg, c: Cursor, more: seq<byte>)
    requires DecodeFields(fs, m, c) != Err(Truncated)
    ensures DecodeFields(fs, m, Extend(c, more)) ==
            match DecodeFields(fs, m, c)
            case Ok(p) => Ok((p.0, Extend(p.1, more)))
            case Err(e) => Err(e)
  {
    if fs != [] && TakeVar(c, fs[0]).Ok? && |fs| > 1 {
      var (v, c1) := TakeVar(c, fs[0]).value;
      if !c1.eom { OpenStable(c1.tail, more); }
      if Next(c1).Ok? {
        FieldsStable(fs[1..], Set(m, fs[0].slot, v), Next(c1).value, more);
      }
    }
  }

  function ExtendTail(r: Result<(Msg, seq<byte>)>, more: seq<byte>): Result<(Msg, seq<byte>)>
  {
    match r
    case Ok(p) => Ok((p.0, p.1 + more))
    case Err(e) => Err(e)
  }

  lemma FinishStable(hw: HwCfg, m: Msg, c: Cursor, more: seq<byte>)
    requires Finish(hw, m, c) != Err(Truncated)
    ensures Finish(hw, m, Extend(c, more)) == ExtendTail(Finish(hw, m, c), more)
  {
    if !(hw.tsBits > 0 && c.eom) { SkipStable(c, more); }
  }

  lemma TailStable(hw: HwCfg, b: seq<byte>, prev: Msg, more: seq<byte>)
    requires DecodeTail(hw, b, prev) != Err(Truncated)
    ensures DecodeTail(hw, b + more, prev) == ExtendTail(DecodeTail(hw, b, prev), more)
  {
    hide DecodeAfterTcode, Open, Low, High;
    OpenStable(b, more);
    if Open(b).Ok? && TakeFixed(Open(b).value, 6).Ok? {
      var (tcode, c) := TakeFixed(Open(b).value, 6).value;
      AfterTcodeStable(hw, prev.(timestamp := 0, tcode := tcode % 256), c, more);
    }
  }

  lemma AfterTcodeStable(hw: HwCfg, m: Msg, c: Cursor, more: seq<byte>)
    requires DecodeAfterTcode(hw, m, c) != Err(Truncated)
    ensures DecodeAfterTcode(hw, m, Extend(c, more)) == ExtendTail(DecodeAfterTcode(hw, m, c), more)
  {
    hide DecodeKnown, SkipToEnd, Low, High;
    if !m.IsIdle() && TakeFixed(c, hw.srcBits).Ok? {
      var (src, c1) := TakeFixed(c, hw.srcBits).value;
      var m1 := m.(src := src % 0x1_0000);
      if m1.HasFields() { KnownStable(hw, m1, c1, more); } else { SkipStable(c1, more); }
    }
  }

  lemma CodesStable(m: Msg, c: Cursor, more: seq<byte>)
    ensures DecodeCodes(m, Extend(c, more)) ==
            match DecodeCodes(m, c)
            case Ok(p) => Ok((p.0, Extend(p.1, more)))
            case Err(e) => Err(e)
    ensures DecodeCodes(m, c) != Err(Truncated)
  {
    hide Low, High;
  }

  lemma KnownStable(hw: HwCfg, m: Msg, c: Cursor, more: seq<byte>)
    requires m.HasFields() && DecodeKnown(hw, m, c) != Err(Truncated)
    ensures DecodeKnown(hw, m, Extend(c, more)) == ExtendTail(DecodeKnown(hw, m, c), more)
  {
    hide DecodeCodes, DecodeFields, Finish, VarFields, Cleared;
    CodesStable(m, c, more);
    if DecodeCodes(m, c).Ok? {
      var (m1, c1) := DecodeCodes(m, c).value;
      var fs := VarFields(hw, m1);
      FieldsStable(fs, Cleared(m1), c1, more);
      if DecodeFields(fs, Cleared(m1), c1).Ok? {
        var (m2, c2) := DecodeFields(fs, Cleared(m1), c1).value;
        FinishStable(hw, m2, c2, more);
      }
    }
  }

  // Anything but truncation stands whatever bytes follow.
  lemma DecodeStable(hw: HwCfg, b: seq<byte>, prev: Msg, more: seq<byte>)
    requires Decode(hw, b, prev) != Err(Truncated)
    ensures Decode(hw, b + more, prev) == Decode(hw, b, prev)
  {
    hide DecodeTail;
    TailStable(hw, b, prev, more);
  }

  // ---- The frame ends at the first MSEO 3 ----

  /** c is the cursor after some whole groups of b: its tail is the rest of b,
      and MSEO 3 occurs in the groups read at most as their very last byte,
      exactly when c has reached the end of the message. */
  ghost predicate ReadFrom(b: seq<byte>, c: Cursor)
  {
    && |c.tail| < |b|
    && c.tail == b[|b| - |c.tail|..]
    && (forall i :: 0 <= i < |b| - |c.tail| - 1 ==> Mseo(b[i]) != 3)
    && (Mseo(b[|b| - |c.tail| - 1]) == 3 <==> c.eom)
  }

  ghost predicate NoEnd(b: seq<byte>) { forall i :: 0 <= i < |b| ==> Mseo(b[i]) != 3 }

  lemma {:induction false} TruncatedGroup(b: seq<byte>)
    requires ConsumeGroup(b) == Err(Truncated)
    ensures NoEnd(b)
  {
    if b != [] {
      TruncatedGroup(b[1..]);
      forall i | 0 <= i < |b| ensures Mseo(b[i]) != 3 {
        if i > 0 { assert b[i] == b[1..][i - 1]; }
      }
    }
  }

  // What opening the next group does to a cursor that has been reading b.
  lemma OpenReads(b: seq<byte>, k: nat)
    requires k <= |b| && NoEnd(b[..k])
    ensures Open(b[k..]).Ok? ==> ReadFrom(b, Open(b[k..]).value)
    ensures Open(b[k..]) == Err(Truncated) ==> NoEnd(b)
  {
    if ConsumeGroup(b[k..]).Ok? {
      GroupMarks(b[k..]);
      var n := ConsumeGroup(b[k..]).value.0;
      assert b[k..][n..] == b[k + n..];
      forall i | 0 <= i < k + n - 1 ensures Mseo(b[i]) != 3 {
        if i < k { assert b[..k][i] == b[i]; } else { assert b[i] == b[k..][i - k]; }
      }
      assert b[k + n - 1] == b[k..][n - 1];
    } else if ConsumeGroup(b[k..]) == Err(Truncated) {
      TruncatedGroup(b[k..]);
      forall i | 0 <= i < |b| ensures Mseo(b[i]) != 3 {
        if i < k { assert b[..k][i] == b[i]; } else { assert b[i] == b[k..][i - k]; }
      }
    }
  }

  lemma NextReads(b: seq<byte>, c: Cursor)
    requires ReadFrom(b, c) && !c.eom
    ensures Open(c.tail).Ok? ==> ReadFrom(b, Open(c.tail).value)
    ensures Open(c.tail) == Err(Truncated) ==> NoEnd(b)
  {
    var k := |b| - |c.tail|;
    forall i | 0 <= i < k ensures Mseo(b[..k][i]) != 3 {
      assert b[..k][i] == b[i];
    }
    OpenReads(b, k);
  }

  lemma {:induction false} SkipReads(b: seq<byte>, c: Cursor)
    requires ReadFrom(b, c)
    ensures SkipToEnd(c).Ok? ==> ReadFrom(b, SkipToEnd(c).value) && SkipToEnd(c).value.eom
    ensures SkipToEnd(c) == Err(Truncated) ==> NoEnd(b)
    decreases |c.tail|
  {
    if !c.eom {
      NextReads(b, c);
      if Open(c.tail).Ok? { SkipReads(b, Open(c.tail).value); }
    }
  }

  lemma {:induction false} FieldsRead(b: seq<byte>, fs: seq<VarField>, m: Msg, c: Cursor)
    requires ReadFrom(b, c)
    ensures DecodeFields(fs, m, c).Ok? ==> ReadFrom(b, DecodeFields(fs, m, c).value.1)
    ensures DecodeFields(fs, m, c) == Err(Truncated) ==> NoEnd(b)
  {
    hide SignExtend, Open, Set;
    if fs != [] && TakeVar(c, fs[0]).Ok? && |fs| > 1 {
      var (v, c1) := TakeVar(c, fs[0]).value;
      if !c1.eom { NextReads(b, c1); }
      if Next(c1).Ok? { FieldsRead(b, fs[1..], Set(m, fs[0].slot, v), Next(c1).value); }
    }
  }

  // The tail is what follows the first MSEO 3 of b.
  ghost predicate EndsFrame(b: seq<byte>, tail: seq<byte>)
  {
    && |tail| < |b|
    && tail == b[|b| - |tail|..]
    && Mseo(b[|b| - |tail| - 1]) == 3
    && forall i :: 0 <= i < |b| - |tail| - 1 ==> Mseo(b[i]) != 3
  }

  ghost predicate FrameResult(b: seq<byte>, r: Result<(Msg, seq<byte>)>)
  {
    match r
    case Ok(p) => EndsFrame(b, p.1)
    case Err(e) => e == Truncated ==> NoEnd(b)
  }

  lemma FinishFrame(b: seq<byte>, hw: HwCfg, m: Msg, c: Cursor)
    requires ReadFrom(b, c)
    ensures FrameResult(b, Finish(hw, m, c))
  {
    if hw.tsBits > 0 && c.eom {
    } else {
      SkipReads(b, c);
      if SkipToEnd(c).Ok? { FrameDone(b, SkipToEnd(c).value); }
    }
  }

  lemma FrameDone(b: seq<byte>, c: Cursor)
    requires ReadFrom(b, c) && c.eom
    ensures EndsFrame(b, c.tail)
  {
  }

  lemma FixedReads(b: seq<byte>, c: Cursor, width: nat)
    requires ReadFrom(b, c) && TakeFixed(c, width).Ok?
    ensures ReadFrom(b, TakeFixed(c, width).value.1)
  {
  }

  lemma KnownFrame(b: seq<byte>, hw: HwCfg, m: Msg, c: Cursor)
    requires m.HasFields() && ReadFrom(b, c)
    ensures FrameResult(b, DecodeKnown(hw, m, c))
  {
    if DecodeCodes(m, c).Ok? {
      var (m1, c1) := DecodeCodes(m, c).value;
      assert ReadFrom(b, c1);
      var fs := VarFields(hw, m1);
      FieldsRead(b, fs, Cleared(m1), c1);
      if DecodeFields(fs, Cleared(m1), c1).Ok? {
        var (m2, c2) := DecodeFields(fs, Cleared(m1), c1).value;
        FinishFrame(b, hw, m2, c2);
      }
    }
  }

  lemma AfterTcodeFrame(b: seq<byte>, hw: HwCfg, m: Msg, c: Cursor)
    requires ReadFrom(b, c)
    ensures FrameResult(b, DecodeAfterTcode(hw, m, c))
  {
    if !m.IsIdle() && TakeFixed(c, hw.srcBits).Ok? {
      var (src, c1) := TakeFixed(c, hw.srcBits).value;
      FixedReads(b, c, hw.srcBits);
      var m1 := m.(src := src % 0x1_0000);
      if m1.HasFields() {
        KnownFrame(b, hw, m1, c1);
      } else {
        SkipReads(b, c1);
        if SkipToEnd(c1).Ok? { FrameDone(b, SkipToEnd(c1).value); }
      }
    }
  }

  lemma TailFrame(hw: HwCfg, b: seq<byte>, prev: Msg)
    ensures FrameResult(b, DecodeTail(hw, b, prev))
  {
    assert b[0..] == b;
    OpenReads(b, 0);
    if Open(b).Ok? && TakeFixed(Open(b).value, 6).Ok? {
      var (tcode, c) := TakeFixed(Open(b).value, 6).value;
      AfterTcodeFrame(b, hw, prev.(timestamp := 0, tcode := tcode % 256), c);
    }
  }

  lemma {:induction false} FirstEnd(b: seq<byte>, n: nat)
    requires 0 < n <= |b| && Mseo(b[n - 1]) == 3
    requires forall i :: 0 <= i < n - 1 ==> Mseo(b[i]) != 3
    ensures SyncForward(b) == Ok(n)
  {
    if n > 1 {
      assert b[1..][n - 2] == b[n - 1];
      FirstEnd(b[1..], n - 1);
    }
  }

  lemma {:induction false} NoEndSync(b: seq<byte>)
    requires NoEnd(b)
    ensures SyncForward(b) == Err(Truncated)
  {
    if b != [] { NoEndSync(b[1..]); }
  }

  // A decode takes exactly the bytes up to the first MSEO 3, and is truncated
  // only when there is none.
  lemma DecodeEndsAtSync(hw: HwCfg, b: seq<byte>, prev: Msg)
    ensures Decode(hw, b, prev).Ok? ==> SyncForward(b) == Ok(Decode(hw, b, prev).value.1)
    ensures Decode(hw, b, prev) == Err(Truncated) ==> SyncForward(b) == Err(Truncated)
  {
    TailFrame(hw, b, prev);
    if Decode(hw, b, prev).Ok? {
      FirstEnd(b, Decode(hw, b, prev).value.1);
    } else if Decode(hw, b, prev) == Err(Truncated) {
      NoEndSync(b);
    }
  }

  // The bytes of a message decode to it whatever follows them.
  lemma SelfDelimiting(hw: HwCfg, b: seq<byte>, prev: Msg, more: seq<byte>)
    requires Decode(hw, b, prev).Ok?
    ensures var n := Decode(hw, b, prev).value.1;
            0 < n <= |b| && Decode(hw, b[..n] + more, prev) == Decode(hw, b, prev)
  {
    hide Decode;
    var n := Decode(hw, b, prev).value.1;
    DecodeEndsAtSync(hw, b, prev);
    DecodeEndsAtSync(hw, b[..n], prev);
    FirstEnd(b[..n], n);
    assert b == b[..n] + b[n..];
    DecodeStable(hw, b[..n], prev, b[n..]);
    DecodeStable(hw, b[..n], prev, more);
  }

  // ---- Resynchronising inside a stream ----

  // A byte run with exactly one MSEO 3, at its end.
  ghost predicate IsFrame(b: seq<byte>)
  {
    b != [] && Mseo(b[|b| - 1]) == 3 && forall i :: 0 <= i < |b| - 1 ==> Mseo(b[i]) != 3
  }

  // One that ends where SyncForward stops is such a run.
  lemma SyncedFrame(b: seq<byte>)
    requires SyncForward(b) == Ok(|b|)
    ensures IsFrame(b)
  {
  }

  function Concat(frames: seq<seq<byte>>): seq<byte>
  {
    if frames == [] then [] else frames[0] + Concat(frames[1..])
  }

  lemma {:induction false} ConcatSplit(frames: seq<seq<byte>>, k: nat)
    requires k <= |frames|
    ensures Concat(frames) == Concat(frames[..k]) + Concat(frames[k..])
  {
    if k > 0 {
      ConcatSplit(frames[1..], k - 1);
      assert frames[..k][1..] == frames[1..][..k - 1];
      assert frames[k..] == frames[1..][k - 1..];
    } else {
      assert frames[..0] == [] && frames[0..] == frames;
    }
  }

  // From inside a message, forward resynchronisation finds the start of the next.
  lemma ForwardToBoundary(frames: seq<seq<byte>>, k: nat, pos: nat)
    requires forall i :: 0 <= i < |frames| ==> IsFrame(frames[i])
    requires k < |frames|
    requires |Concat(frames[..k])| <= pos < |Concat(frames[..k])| + |frames[k]|
    ensures pos <= |Concat(frames)|
    ensures SyncForward(Concat(frames)[pos..]) == Ok(|Concat(frames[..k + 1])| - pos)
  {
    var all, start := Concat(frames), |Concat(frames[..k])|;
    FrameAt(frames, k);
    var n := start + |frames[k]| - pos;
    forall i | 0 <= i < n ensures all[pos..][i] == frames[k][pos - start + i] {
      assert all[pos..][i] == all[pos + i] == all[start..start + |frames[k]|][pos - start + i];
    }
    FirstEnd(all[pos..], n);
  }

  // From any position past the first message, backward resynchronisation finds
  // the end of the last message that ends at or before it.
  lemma BackwardToBoundary(frames: seq<seq<byte>>, k: nat, pos: nat)
    requires forall i :: 0 <= i < |frames| ==> IsFrame(frames[i])
    requires 0 < k <= |frames|
    requires |Concat(frames[..k])| <= pos <= |Concat(frames)|
    requires k < |frames| ==> pos < |Concat(frames[..k + 1])|
    ensures SyncBackward(Concat(frames), pos) == Ok(|Concat(frames[..k])|)
  {
    var all, end := Concat(frames), |Concat(frames[..k])|;
    FrameAt(frames, k - 1);
    assert all[end - 1] == all[end - |frames[k - 1]|..end][|frames[k - 1]| - 1];
    if k < |frames| {
      FrameAt(frames, k);
      forall i | end <= i < pos ensures Mseo(all[i]) != 3 {
        assert all[i] == all[end..end + |frames[k]|][i - end];
      }
    } else {
      assert frames[..k] == frames;
    }
    LastEnd(all, pos, end);
  }

  lemma {:induction false} LastEnd(b: seq<byte>, pos: nat, end: nat)
    requires 0 < end <= pos <= |b| && Mseo(b[end - 1]) == 3
    requires forall i :: end <= i < pos ==> Mseo(b[i]) != 3
    ensures SyncBackward(b, pos) == Ok(end)
  {
    if pos > end { LastEnd(b, pos - 1, end); }
  }

  lemma FrameAt(frames: seq<seq<byte>>, k: nat)
    requires k < |frames|
    ensures var start := |Concat(frames[..k])|;
            && |Concat(frames[..k + 1])| == start + |frames[k]| <= |Concat(frames)|
            && Concat(frames)[start..start + |frames[k]|] == frames[k]
  {
    ConcatSplit(frames, k);
    ConcatSplit(frames[..k + 1], k);
    assert frames[..k + 1][..k] == frames[..k];
    assert frames[..k + 1][k..] == [frames[k]];
    assert Concat([frames[k]]) == frames[k];
    assert Concat(frames[k..]) == frames[k] + Concat(frames[k..][1..]);
  }
}
