// Which buffers read a file as if it were in memory: exactly those that have
// room for what decoding needs to see of each message it reaches.
module StreamExact {
  import opened Bits
  import opened Results
  import opened Protocol
  import opened MsgTypes
  import opened Codec
  import opened Stream
  import CodecFraming

  // ---- How much of a message decoding needs ----

  function NeededFrom(hw: HwCfg, b: seq<byte>, k: nat): (n: nat)
    requires k <= |b| + 1
    ensures k <= n <= |b| + 1
    decreases |b| - k
  {
    if k == |b| + 1 || Decode(hw, b[..k], BLANK) != Err(Truncated) then k else NeededFrom(hw, b, k + 1)
  }

  // The fewest bytes of b from which decoding tells a message or an error, or
  // one more than there are if b is truncated.
  function Needed(hw: HwCfg, b: seq<byte>): (n: nat)
    ensures n <= |b| + 1
  {
    NeededFrom(hw, b, 0)
  }

  lemma {:induction false} NeededFromLeast(hw: HwCfg, b: seq<byte>, k: nat, j: nat)
    requires k <= j <= |b|
    ensures Decode(hw, b[..j], BLANK) == Err(Truncated) <==> j < NeededFrom(hw, b, k)
    decreases |b| - k
  {
    hide Decode;
    if Decode(hw, b[..k], BLANK) != Err(Truncated) {
      assert b[..j] == b[..k] + b[k..j];
      CodecFraming.DecodeStable(hw, b[..k], BLANK, b[k..j]);
    } else if k < j {
      NeededFromLeast(hw, b, k + 1, j);
    }
  }

  /** Fewer bytes than needed are truncated, as many or more decode alike. For a
      message that is the number of bytes it takes; for a truncated one there are
      never enough. */
  lemma NeededIs(hw: HwCfg, b: seq<byte>)
    ensures forall j :: 0 <= j <= |b| ==> (Decode(hw, b[..j], BLANK) == Err(Truncated) <==> j < Needed(hw, b))
    ensures Needed(hw, b) > 0
    ensures match Decode(hw, b, BLANK)
            case Ok(p) => Needed(hw, b) == p.1
            case Err(e) => (e == Truncated <==> Needed(hw, b) == |b| + 1)
  {
    hide Decode, NeededFrom;
    forall j | 0 <= j <= |b|
      ensures Decode(hw, b[..j], BLANK) == Err(Truncated) <==> j < Needed(hw, b)
    {
      NeededFromLeast(hw, b, 0, j);
    }
    assert b[..|b|] == b && b[..0] == [];
    NothingDecodes(hw);
    if Decode(hw, b, BLANK).Ok? {
      var n := Decode(hw, b, BLANK).value.1;
      Room(hw, b, BLANK);
      CodecFraming.SelfDelimiting(hw, b, BLANK, []);
      assert b[..n] + [] == b[..n];
      var j := n - 1;
      assert b == b[..j] + b[j..];
      if Decode(hw, b[..j], BLANK) != Err(Truncated) {
        CodecFraming.DecodeStable(hw, b[..j], BLANK, b[j..]);
        Room(hw, b[..j], BLANK);
      }
      assert Decode(hw, b[..n], BLANK) != Err(Truncated);
    }
  }

  lemma NothingDecodes(hw: HwCfg)
    ensures Decode(hw, [], BLANK) == Err(Truncated)
  {
  }

  // What a buffer of the given size decodes, next to the file in memory.
  lemma WindowDecodes(hw: HwCfg, file: seq<byte>, off: nat, bufsz: nat)
    requires off <= |file|
    ensures var w, b := Window(file, off, bufsz), file[off..];
            if Needed(hw, b) <= bufsz then
              && Decode(hw, w, BLANK) == Decode(hw, b, BLANK)
              && (Decode(hw, w, BLANK) == Err(Truncated) ==> off + bufsz > |file|)
            else Decode(hw, w, BLANK) == Err(Truncated) && off + bufsz <= |file|
  {
    hide Decode, Needed;
    var b := file[off..];
    NeededIs(hw, b);
    if off + bufsz <= |file| {
      var w := Window(file, off, bufsz);
      assert w == b[..bufsz] && b == w + b[bufsz..];
      if Needed(hw, b) <= bufsz {
        CodecFraming.DecodeStable(hw, w, BLANK, b[bufsz..]);
      }
    }
  }

  // ---- The errors of the decoder ----

  predicate DecodeError(e: Error)
  {
    e == BadMseo || e == Truncated || e == Invalid || e == MissingField
  }

  lemma {:induction false} GroupErrors(b: seq<byte>)
    ensures ConsumeGroup(b).Err? ==> DecodeError(ConsumeGroup(b).error)
  {
    if b != [] { GroupErrors(b[1..]); }
  }

  lemma {:induction false} SkipErrors(c: Cursor)
    ensures SkipToEnd(c).Err? ==> DecodeError(SkipToEnd(c).error)
    decreases |c.tail|
  {
    if !c.eom {
      GroupErrors(c.tail);
      if Open(c.tail).Ok? { SkipErrors(Open(c.tail).value); }
    }
  }

  lemma {:induction false} FieldsErrors(fs: seq<VarField>, m: Msg, c: Cursor)
    ensures DecodeFields(fs, m, c).Err? ==> DecodeError(DecodeFields(fs, m, c).error)
  {
    if fs != [] && TakeVar(c, fs[0]).Ok? {
      var (v, c1) := TakeVar(c, fs[0]).value;
      GroupErrors(c1.tail);
      if Next(c1).Ok? { FieldsErrors(fs[1..], Set(m, fs[0].slot, v), Next(c1).value); }
    }
  }

  lemma KnownErrors(hw: HwCfg, m: Msg, c: Cursor)
    requires m.HasFields()
    ensures DecodeKnown(hw, m, c).Err? ==> DecodeError(DecodeKnown(hw, m, c).error)
  {
    hide SkipToEnd, DecodeFields, VarFields, Open, Low, High;
    if DecodeCodes(m, c).Ok? {
      var (m1, c1) := DecodeCodes(m, c).value;
      FieldsErrors(VarFields(hw, m1), Cleared(m1), c1);
      if DecodeFields(VarFields(hw, m1), Cleared(m1), c1).Ok? {
        SkipErrors(DecodeFields(VarFields(hw, m1), Cleared(m1), c1).value.1);
      }
    }
  }

  // Decoding itself never calls the buffer too small.
  lemma DecodeErrors(hw: HwCfg, b: seq<byte>, prev: Msg)
    ensures Decode(hw, b, prev).Err? ==> DecodeError(Decode(hw, b, prev).error)
  {
    hide SkipToEnd, DecodeKnown, ConsumeGroup, Low, High;
    GroupErrors(b);
    if Open(b).Ok? && TakeFixed(Open(b).value, 6).Ok? {
      var (tcode, c1) := TakeFixed(Open(b).value, 6).value;
      var m := prev.(timestamp := 0, tcode := tcode % 256);
      if TakeFixed(c1, hw.srcBits).Ok? {
        var (src, c2) := TakeFixed(c1, hw.srcBits).value;
        var m1 := m.(src := src % 0x1_0000);
        SkipErrors(c2);
        if m1.HasFields() { KnownErrors(hw, m1, c2); }
      }
    }
  }

  // ---- One message ----

  /** The buffer has room for what decoding needs of the next message, and of
      those the filter drops before it. */
  predicate FitsNext(hw: HwCfg, file: seq<byte>, off: nat, bufsz: nat, filter: int)
    requires off <= |file|
    decreases |file| - off
  {
    off == |file|
    || (Needed(hw, file[off..]) <= bufsz
        && match Decode(hw, file[off..], BLANK)
           case Err(_) => true
           case Ok(p) =>
             Room(hw, file[off..], BLANK);
             (filter >= 0 && p.0.IsIdle()) || !Filtered(filter, p.0.src)
             || FitsNext(hw, file, off + p.1, bufsz, filter))
  }

  /** The next message is that of the file in memory if and only if the buffer
      has that room; otherwise the buffer is reported as too small. */
  lemma {:induction false} NextExactly(hw: HwCfg, file: seq<byte>, off: nat, bufsz: nat, filter: int)
    requires off <= |file| && (bufsz > 0 || filter < 0)
    ensures var g := BufferedNext(hw, file, off, bufsz, filter);
            && (g == FileNext(hw, file, off, filter) <==> FitsNext(hw, file, off, bufsz, filter))
            && (bufsz > 0 && !FitsNext(hw, file, off, bufsz, filter) ==> g.Fail? && g.error == BufferTooSmall)
    ensures var f := FileNext(hw, file, off, filter); f.Fail? ==> f.error != BufferTooSmall
    decreases |file| - off
  {
    hide Decode, Content, Needed;
    if off < |file| {
      var b := file[off..];
      WindowDecodes(hw, file, off, bufsz);
      NeededIs(hw, b);
      DecodeErrors(hw, b, BLANK);
      Room(hw, b, BLANK);
      if Decode(hw, b, BLANK).Ok? {
        NextExactly(hw, file, off + Decode(hw, b, BLANK).value.1, bufsz, filter);
      }
    }
  }

  /** Without a filter: a message is delivered if and only if it is no longer
      than the buffer, and a partial one at the end of the file is reported as
      truncated if and only if it is shorter than the buffer. */
  lemma MessageFits(hw: HwCfg, file: seq<byte>, off: nat, bufsz: nat)
    requires off < |file|
    ensures var same := BufferedNext(hw, file, off, bufsz, -1) == FileNext(hw, file, off, -1);
            match Decode(hw, file[off..], BLANK)
            case Ok(p) => same <==> p.1 <= bufsz
            case Err(e) =>
              if e == Truncated then same <==> |file| - off < bufsz
              else same <==> Needed(hw, file[off..]) <= bufsz
  {
    hide Decode, BufferedNext, FileNext, Needed;
    NextExactly(hw, file, off, bufsz, -1);
    NeededIs(hw, file[off..]);
  }

  /** What an unfiltered request gives, in terms of the file from where it
      stands: its next message if that is no longer than the buffer, the end, the
      error in its bytes if the buffer shows it, or else that the buffer is too
      small. */
  lemma NextBy(hw: HwCfg, file: seq<byte>, off: nat, bufsz: nat)
    requires off <= |file| && bufsz > 0
    ensures var b, g := file[off..], BufferedNext(hw, file, off, bufsz, -1);
            if b == [] then g == Eof(off)
            else if Decode(hw, b, BLANK).Ok? then
              var (m, n) := Decode(hw, b, BLANK).value;
              && 0 < n <= |b|
              && g == if n <= bufsz then Got(Content(hw, m), off, off + n) else Fail(off, BufferTooSmall)
            else
              var e := Decode(hw, b, BLANK).error;
              g == Fail(off, if e == Truncated && |b| >= bufsz then BufferTooSmall
                             else if e != Truncated && Needed(hw, b) > bufsz then BufferTooSmall
                             else e)
  {
    hide Decode, Content, Needed;
    if off < |file| {
      var b := file[off..];
      WindowDecodes(hw, file, off, bufsz);
      NeededIs(hw, b);
      Room(hw, b, BLANK);
    }
  }

  // ---- The whole file ----

  // The buffer has that room at every message boundary the decoder reaches.
  predicate FitsAll(hw: HwCfg, file: seq<byte>, off: nat, bufsz: nat, filter: int)
    requires off <= |file|
    decreases |file| - off
  {
    off == |file|
    || (Needed(hw, file[off..]) <= bufsz
        && match Decode(hw, file[off..], BLANK)
           case Err(_) => true
           case Ok(p) =>
             Room(hw, file[off..], BLANK);
             (filter >= 0 && p.0.IsIdle()) || FitsAll(hw, file, off + p.1, bufsz, filter))
  }

  /** All that is delivered, and how it ends, is what the file in memory holds if
      and only if the buffer has that room all along. */
  lemma {:induction false} DeliversExactly(hw: HwCfg, file: seq<byte>, off: nat, bufsz: nat, filter: int)
    requires off <= |file| && (bufsz > 0 || filter < 0)
    ensures Deliveries(hw, file, off, bufsz, filter) == Messages(hw, file[off..], filter)
            <==> FitsAll(hw, file, off, bufsz, filter)
    ensures bufsz > 0 && !FitsAll(hw, file, off, bufsz, filter) ==>
              Deliveries(hw, file, off, bufsz, filter).1 == Failed(BufferTooSmall)
    ensures Messages(hw, file[off..], filter).1 != Failed(BufferTooSmall)
    decreases |file| - off
  {
    hide Decode, Content, Needed;
    if off < |file| {
      var b := file[off..];
      WindowDecodes(hw, file, off, bufsz);
      NeededIs(hw, b);
      DecodeErrors(hw, b, BLANK);
      Room(hw, b, BLANK);
      if Decode(hw, b, BLANK).Ok? {
        var n := Decode(hw, b, BLANK).value.1;
        assert b[n..] == file[off + n..];
        DeliversExactly(hw, file, off + n, bufsz, filter);
        if Needed(hw, b) <= bufsz && Filtered(filter, Decode(hw, b, BLANK).value.0.src)
           && !(filter >= 0 && Decode(hw, b, BLANK).value.0.IsIdle()) {
          SameDeliveries(hw, file, off, off + n, bufsz, filter);
        }
      }
    }
  }
}
