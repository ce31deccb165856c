// The buffered message decoder: a window onto the file that slides as messages
// are consumed, keeps an unfinished message across a refill, and can give the
// last message back.
module StreamDecoder {
  import opened Results
  import opened Protocol
  import opened MsgTypes
  import opened Stream
  import MsgDecode
  import opened MsgUnpack

  // A message: its length, zero at the end of the file.
  ghost predicate Delivers(hw: HwCfg, g: Outcome, r: Result<nat>, msg: Msg)
  {
    match g
    case Unspecified => true
    case Eof(_) => r == Ok(0)
    case Fail(_, e) => r == Err(e)
    case Got(content, start, next) => start < next && r == Ok(next - start) && Content(hw, msg) == content
  }

  // Where the decoder stands afterwards, and what it can give back.
  ghost predicate Leaves(g: Outcome, position: nat, lastLen: nat)
  {
    match g
    case Unspecified => true
    case Eof(at) => position == at && lastLen == 0
    case Fail(at, _) => position == at && lastLen == 0
    case Got(_, start, next) => position == next && start < next && lastLen == next - start
  }

  class MsgDecoder {
    const hw: HwCfg
    const file: seq<byte>
    const srcFilter: int
    const buffer: array<byte>
    var fileOff: nat     // bytes taken from the file descriptor
    var nread: nat       // file offset of the start of the buffer
    var filled: nat      // bytes of the buffer in use
    var pos: nat         // bytes of the buffer consumed
    var lastLen: nat     // length of the message just delivered

    constructor (hw: HwCfg, file: seq<byte>, srcFilter: int, buffer: array<byte>)
      ensures Valid() && Position() == 0 && lastLen == 0
      ensures this.hw == hw && this.file == file && this.srcFilter == srcFilter && this.buffer == buffer
    {
      this.hw, this.file, this.srcFilter, this.buffer := hw, file, srcFilter, buffer;
      fileOff, nread, filled, pos, lastLen := 0, 0, 0, 0, 0;
    }

    // The end of the file was met with nothing left in the buffer.
    predicate AtSentinel()
      reads this
    {
      pos == buffer.Length
    }

    // File offset of the next message.
    function Position(): nat
      reads this
    {
      nread + if AtSentinel() then 0 else pos
    }

    // The filled part of the buffer is the file from nread on, and ends short
    // of the buffer only at the end of the file.
    ghost predicate Windowed()
      reads this, buffer
    {
      && pos <= filled <= buffer.Length
      && nread + filled == fileOff <= |file|
      && buffer[..filled] == file[nread..fileOff]
      && (0 < filled < buffer.Length ==> fileOff == |file|)
    }

    /** Either the sentinel, or a window. When consuming reached the end of a
        full buffer the window is empty, and the bytes of the buffer stay until
        the next refill. */
    ghost predicate Valid()
      reads this, buffer
    {
      if AtSentinel() then
        && filled == pos && nread == fileOff <= |file|
        && lastLen == 0 && (buffer.Length > 0 ==> fileOff == |file|)
      else
        && Windowed()
        && (lastLen > 0 ==> pos >= lastLen || (pos == 0 && Kept()))
    }

    // The whole of a consumed buffer can still be read.
    ghost predicate Kept()
      reads this, buffer
    {
      && filled == 0 && lastLen <= buffer.Length <= nread <= |file|
      && buffer[..] == file[nread - buffer.Length..nread]
    }

    // What the next call comes to.
    ghost function Outcome(): Stream.Outcome
      requires Valid()
      reads this, buffer
    {
      BufferedNext(hw, file, Position(), buffer.Length, srcFilter)
    }

    lemma OutcomeIs()
      requires Valid()
      ensures Position() <= |file| && Outcome() == BufferedNext(hw, file, Position(), buffer.Length, srcFilter)
    {
      hide BufferedNext;
    }

    // Fill the buffer from the given index on; a short read is the end of the file.
    method ReadAll(from: nat) returns (count: nat)
      requires from <= buffer.Length && fileOff <= |file|
      modifies buffer, `fileOff
      ensures count == if buffer.Length - from <= |file| - old(fileOff) then buffer.Length - from
                       else |file| - old(fileOff)
      ensures fileOff == old(fileOff) + count
      ensures buffer[..from] == old(buffer[..from])
      ensures buffer[from..from + count] == file[old(fileOff)..fileOff]
    {
      count := if buffer.Length - from <= |file| - fileOff then buffer.Length - from else |file| - fileOff;
      forall i | 0 <= i < count {
        buffer[from + i] := file[fileOff + i];
      }
      fileOff := fileOff + count;
    }

    // Move what is left of the window to the front and read on. False if there
    // is nothing left and nothing to read.
    method Refill() returns (more: bool)
      requires Windowed() && (pos == filled == 0 || (0 < pos && filled == buffer.Length))
      modifies this, buffer
      ensures fileOff >= old(fileOff) && lastLen == old(lastLen)
      ensures more ==> Windowed() && pos == 0 < filled && nread == old(nread + pos)
      ensures more ==> pos < buffer.Length
      ensures !more ==> AtSentinel() && filled == pos && nread == fileOff == old(nread + pos) <= |file|
                        && (buffer.Length > 0 ==> fileOff == |file|)
    {
      ghost var from, mid := nread + pos, fileOff;
      Slide();
      ghost var carry := filled;
      var count := ReadAll(filled);
      filled := filled + count;
      Joined(buffer[..], file, from, mid, fileOff, carry);
      if filled > 0 {
        return true;
      }
      pos, filled := buffer.Length, buffer.Length;
      more := false;
    }

    // What is left of the window goes to the front of the buffer.
    method Slide()
      requires Windowed() && (pos == filled == 0 || (0 < pos && filled == buffer.Length))
      modifies `nread, `pos, `filled, buffer
      ensures nread == old(nread + pos) && pos == 0 && filled == old(filled - pos)
      ensures nread + filled == fileOff <= |file| && filled <= buffer.Length
      ensures buffer[..filled] == file[nread..fileOff]
    {
      Carried(buffer[..filled], file, nread, pos);
      var carry := filled - pos;
      forall i | 0 <= i < carry {
        buffer[i] := buffer[buffer.Length - carry + i];
      }
      nread := nread + pos;
      pos := 0;
      filled := carry;
    }

    // Decode what is in the buffer, and step over it if that succeeds.
    method Consume(prev: Msg) returns (r: Result<nat>, msg: Msg)
      requires Valid() && pos < filled && lastLen == 0
      modifies `pos, `filled, `nread, `lastLen
      ensures Valid()
      ensures r.Ok? ==> lastLen == r.value > 0 && Position() == old(Position()) + r.value <= |file|
      ensures r.Err? ==> unchanged(this)
      ensures r.Ok? ==> Stepped(old(Outcome()), old(Position()), msg)
      ensures r.Err? && r.error != Truncated ==> old(Outcome()) == Fail(old(Position()), r.error)
      ensures r == Err(Truncated) && filled < buffer.Length ==> old(Outcome()) == Fail(old(Position()), Truncated)
      ensures r == Err(Truncated) && filled == buffer.Length && pos == 0
              ==> old(Outcome()) == Fail(old(Position()), BufferTooSmall)
    {
      hide Codec.Decode, Content, BufferedNext;
      WindowIs();
      ghost var off, seen := Position(), filled - pos;
      StepSeen(hw, file, off, buffer.Length, srcFilter, prev, seen);
      r, msg := MsgDecode.Decode(hw, buffer, pos, filled, prev);
      if r.Ok? {
        pos := pos + r.value;
        if pos == buffer.Length {
          nread := nread + pos;
          pos, filled := 0, 0;
        }
        lastLen := r.value;
      }
    }

    // A message was consumed: it is what the outcome said, or the filter drops
    // it and the outcome is that of what follows.
    ghost predicate Stepped(g: Stream.Outcome, start: nat, msg: Msg)
      reads this, buffer
    {
      && Valid()
      && if srcFilter >= 0 && msg.IsIdle() then g == Unspecified
         else if Filtered(srcFilter, msg.src) then g == Outcome()
         else g == Got(Content(hw, msg), start, Position())
    }

    /** Deliver the next message, or zero at the end of the file. */
    method Next(prev: Msg) returns (r: Result<nat>, msg: Msg)
      requires Valid()
      modifies this, buffer
      ensures Valid()
      ensures Delivers(hw, old(Outcome()), r, msg)
      ensures Leaves(old(Outcome()), Position(), lastLen)
    {
      hide Codec.Decode, Content, BufferedNext;
      msg := prev;
      ghost var g := Outcome();
      while true
        invariant Valid()
        invariant Outcome() == g || g == Unspecified
        decreases |file| - Position(), if pos == 0 && filled > 0 then 0 else 1
      {
        Bounds();
        lastLen := 0;
        if pos == filled {
          if pos != 0 {
            AtEnd();
            return Ok(0), msg;
          }
        } else {
          ghost var off := Position();
          r, msg := Consume(msg);
          if r.Ok? {
            if srcFilter >= 0 && srcFilter != msg.src {
              continue;
            }
            return;
          }
          if filled != buffer.Length || r.error != Truncated {
            return;
          }
          if pos == 0 {
            return Err(BufferTooSmall), msg;
          }
        }
        var more := Refill();
        if !more {
          AtEnd();
          return Ok(0), msg;
        }
      }
    }

    // The bytes of the message just delivered, if there is one.
    method LastMsg() returns (bytes: Option<seq<byte>>)
      requires Valid()
      ensures bytes == if lastLen == 0 then None
                       else Some(file[Position() - lastLen..Position()])
    {
      if lastLen == 0 {
        return None;
      }
      if pos != 0 {
        assert pos >= lastLen;
        SubSlice(file, nread, fileOff, pos - lastLen, pos);
        SubSlice(buffer[..], 0, filled, pos - lastLen, pos);
        return Some(buffer[pos - lastLen..pos]);
      }
      SubSlice(file, nread - buffer.Length, nread, buffer.Length - lastLen, buffer.Length);
      bytes := Some(buffer[buffer.Length - lastLen..buffer.Length]);
    }

    // Give the last message back.
    method RewindLast()
      requires Valid()
      modifies this
      ensures Valid() && lastLen == 0 && Position() == old(Position() - lastLen)
    {
      if lastLen == 0 {
        return;
      }
      assert pos == 0 || pos >= lastLen;
      if pos == 0 {
        assert filled == 0;
        assert nread >= buffer.Length;
        pos, filled := buffer.Length, buffer.Length;
        nread := nread - buffer.Length;
      }
      pos := pos - lastLen;
      lastLen := 0;
    }

    // File offset of the message just delivered, or of the next one.
    method Offset() returns (offset: nat)
      requires Valid()
      ensures offset == Position() - lastLen
    {
      offset := nread;
      if pos != buffer.Length {
        offset := offset + pos;
      }
      offset := offset - lastLen;
    }

    lemma Bounds()
      requires Valid()
      ensures Position() <= |file|
    {
    }

    // With nothing left to consume the outcome is the end of the file.
    lemma AtEnd()
      requires Valid() && pos == filled && (pos > 0 || AtSentinel())
      ensures Outcome() == Eof(Position())
    {
      hide Codec.Decode, Content;
    }

    // What the decoder looks at is the file from its position on.
    lemma WindowIs()
      requires Valid() && pos < filled
      ensures Position() + (filled - pos) == fileOff <= |file|
      ensures buffer[pos..filled] == file[Position()..Position() + (filled - pos)]
      ensures filled < buffer.Length ==> fileOff == |file|
    {
      Carried(buffer[..filled], file, nread, pos);
      assert buffer[..filled][pos..] == buffer[pos..filled];
    }
  }

  // A message given back is delivered again, and leaves the decoder where it
  // was; meanwhile its offset and its bytes can be asked for.
  method NextTwice(d: MsgDecoder, prev: Msg)
    returns (r1: Result<nat>, m1: Msg, offset: nat, bytes: Option<seq<byte>>, r2: Result<nat>, m2: Msg)
    requires d.Valid()
    modifies d, d.buffer
    ensures d.Valid()
    ensures var g := old(d.Outcome());
            g.Got? ==>
              && g.start < g.next <= |d.file|
              && offset == g.start && bytes == Some(d.file[g.start..g.next])
              && r1 == r2 == Ok(g.next - g.start)
              && Content(d.hw, m1) == Content(d.hw, m2) == g.content
              && d.Position() == g.next && d.lastLen == g.next - g.start
  {
    hide Content, BufferedNext, MsgDecoder.Valid, MsgDecoder.Position, MsgDecoder.Outcome;
    ghost var g := d.Outcome();
    d.OutcomeIs();
    if g.Got? {
      DeliveredAgain(d.hw, d.file, d.Position(), d.buffer.Length, d.srcFilter);
    }
    r1, m1 := d.Next(prev);
    offset := d.Offset();
    bytes := d.LastMsg();
    d.RewindLast();
    d.OutcomeIs();
    r2, m2 := d.Next(m1);
  }

  lemma Carried(b: seq<byte>, file: seq<byte>, lo: nat, pos: nat)
    requires pos <= |b| && lo + |b| <= |file| && b == file[lo..lo + |b|]
    ensures b[pos..] == file[lo + pos..lo + |b|]
  {
  }

  lemma Joined(b: seq<byte>, file: seq<byte>, lo: nat, mid: nat, hi: nat, carry: nat)
    requires lo <= mid <= hi <= |file| && carry == mid - lo && hi - lo <= |b|
    requires b[..carry] == file[lo..mid] && b[carry..hi - lo] == file[mid..hi]
    ensures b[..hi - lo] == file[lo..hi]
  {
    assert b[..hi - lo] == b[..carry] + b[carry..hi - lo];
    assert file[lo..hi] == file[lo..mid] + file[mid..hi];
  }
}
