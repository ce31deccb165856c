// The byte protocol: each byte holds two MSEO bits and six data bits. A group
// is a run of bytes up to the first with a non-zero MSEO, and is read as one
// number, least significant lane first; a frame is a run of groups up to MSEO 3.
module Protocol {
  import opened Bits
  import opened Results

  type byte = n: nat | n < 256

  function Mseo(b: byte): (r: nat)
    ensures r < 4
  {
    b % 4
  }

  function Mdo(b: byte): (r: nat)
    ensures r < 64
  {
    b / 4
  }

  function MakeByte(mdo: nat, mseo: nat): (b: byte)
    requires mdo < 64 && mseo < 4
    ensures Mdo(b) == mdo && Mseo(b) == mseo
  {
    mdo * 4 + mseo
  }

  // The number a run of bytes carries in its data bits.
  function LaneValue(b: seq<byte>): (v: nat)
  {
    if b == [] then 0 else Mdo(b[0]) + 64 * LaneValue(b[1..])
  }

  // n lanes holding v, the last one marked with the given MSEO.
  function Lanes(v: nat, n: nat, mseo: nat): (b: seq<byte>)
    requires mseo < 4
    ensures |b| == n
  {
    if n == 0 then []
    else [MakeByte(v % 64, if n == 1 then mseo else 0)] + Lanes(v / 64, n - 1, mseo)
  }

  function LaneCount(bits: nat): (n: nat)
    ensures 6 * n - 6 < bits <= 6 * n
  {
    (bits + 5) / 6
  }

  lemma {:induction false} LaneValueBound(b: seq<byte>)
    ensures LaneValue(b) < Pow2(6 * |b|)
  {
    if b != [] {
      LaneValueBound(b[1..]);
      LaneStep(|b| - 1);
    }
  }

  lemma LaneStep(n: nat)
    ensures Pow2(6 * (n + 1)) == 64 * Pow2(6 * n)
  {
    Pow2Words();
    Pow2Add(6, 6 * n);
  }

  lemma {:induction false} LaneValueAppend(a: seq<byte>, b: seq<byte>)
    ensures LaneValue(a + b) == LaneValue(a) + Pow2(6 * |a|) * LaneValue(b)
  {
    if a == [] {
      assert a + b == b;
    } else {
      assert (a + b)[1..] == a[1..] + b;
      LaneValueAppend(a[1..], b);
      LaneStep(|a| - 1);
      MulAssoc(64, Pow2(6 * (|a| - 1)), LaneValue(b));
    }
  }

  lemma {:induction false} LaneValueOfLanes(v: nat, n: nat, mseo: nat)
    requires mseo < 4
    ensures LaneValue(Lanes(v, n, mseo)) == Low(v, 6 * n)
  {
    if n > 0 {
      LaneValueOfLanes(v / 64, n - 1, mseo);
      assert Lanes(v, n, mseo)[1..] == Lanes(v / 64, n - 1, mseo);
      hide Low, High;
      LowWords(v);
      Pow2Words();
      LowSplit(v, 6, 6 * (n - 1));
      assert 6 + 6 * (n - 1) == 6 * n;
    }
  }

  // Bytes are determined by the number they carry and their MSEO marks.
  lemma {:induction false} LanesUnique(b: seq<byte>, mseo: nat)
    requires mseo < 4
    requires forall i :: 0 <= i < |b| ==> Mseo(b[i]) == if i == |b| - 1 then mseo else 0
    ensures b == Lanes(LaneValue(b), |b|, mseo)
  {
    hide Mseo, Mdo, MakeByte;
    if b != [] {
      var v := LaneValue(b);
      assert v % 64 == Mdo(b[0]) && v / 64 == LaneValue(b[1..]);
      ByteParts(b[0]);
      assert Mseo(b[0]) == if |b| == 1 then mseo else 0;
      LanesUnique(b[1..], mseo);
      assert b == [b[0]] + b[1..];
    }
  }

  lemma ByteParts(b: byte)
    ensures MakeByte(Mdo(b), Mseo(b)) == b
  {
  }

  lemma {:induction false} LanesMseo(v: nat, n: nat, mseo: nat, i: nat)
    requires mseo < 4 && i < n
    ensures Mseo(Lanes(v, n, mseo)[i]) == if i == n - 1 then mseo else 0
  {
    if i > 0 { LanesMseo(v / 64, n - 1, mseo, i - 1); }
  }

  // ---- Groups ----

  // Length of the group that starts b, and whether it ends the message.
  function ConsumeGroup(b: seq<byte>): (r: Result<(nat, bool)>)
    ensures r.Ok? ==> 0 < r.value.0 <= |b|
  {
    if b == [] then Err(Truncated)
    else if Mseo(b[0]) == 2 then Err(BadMseo)
    else if Mseo(b[0]) == 0 then
      var (n, eom) :- ConsumeGroup(b[1..]);
      Ok((n + 1, eom))
    else Ok((1, Mseo(b[0]) == 3))
  }

  lemma {:induction false} ConsumeLanes(v: nat, n: nat, mseo: nat, rest: seq<byte>)
    requires n > 0 && (mseo == 1 || mseo == 3)
    ensures ConsumeGroup(Lanes(v, n, mseo) + rest) == Ok((n, mseo == 3))
  {
    hide MakeByte, Mseo, Mdo;
    var b := Lanes(v, n, mseo) + rest;
    assert b[1..] == Lanes(v / 64, n - 1, mseo) + rest;
    if n > 1 { ConsumeLanes(v / 64, n - 1, mseo, rest); }
  }

  // Later bytes do not change a group that is complete or already broken.
  lemma {:induction false} ConsumeStable(b: seq<byte>, rest: seq<byte>)
    requires ConsumeGroup(b) != Err(Truncated)
    ensures ConsumeGroup(b + rest) == ConsumeGroup(b)
  {
    assert (b + rest)[1..] == b[1..] + rest;
    if Mseo(b[0]) == 0 { ConsumeStable(b[1..], rest); }
  }

  // ---- Cursors ----

  /** Where the decoder stands: the bits of the current group not yet taken, as
      a number and a count, whether the group ends the message, and the bytes
      after the group. */
  datatype Cursor = Cursor(rest: nat, left: nat, eom: bool, tail: seq<byte>)

  ghost predicate Bounded(c: Cursor) { c.rest < Pow2(c.left) }

  // Read the next group.
  function Open(b: seq<byte>): (r: Result<Cursor>)
    ensures r.Ok? ==> |r.value.tail| < |b| && r.value.left == 6 * (|b| - |r.value.tail|)
  {
    var (n, eom) :- ConsumeGroup(b);
    Ok(Cursor(LaneValue(b[..n]), 6 * n, eom, b[n..]))
  }

  // Go on to the next group of the same message.
  function Next(c: Cursor): (r: Result<Cursor>)
    ensures r.Ok? ==> |r.value.tail| < |c.tail| && r.value.left == 6 * (|c.tail| - |r.value.tail|)
  {
    if c.eom then Err(MissingField) else Open(c.tail)
  }

  function SkipToEnd(c: Cursor): (r: Result<Cursor>)
    decreases |c.tail|
  {
    if c.eom then Ok(c)
    else
      var c1 :- Open(c.tail);
      SkipToEnd(c1)
  }

  function TakeFixed(c: Cursor, width: nat): Result<(nat, Cursor)>
  {
    if c.left < width then Err(MissingField)
    else Ok((Low(c.rest, width), c.(rest := High(c.rest, width), left := c.left - width)))
  }

  lemma OpenBounded(b: seq<byte>)
    requires Open(b).Ok?
    ensures Bounded(Open(b).value)
  {
    LaneValueBound(b[..ConsumeGroup(b).value.0]);
  }

  lemma OpenLanes(v: nat, n: nat, mseo: nat, rest: seq<byte>)
    requires n > 0 && (mseo == 1 || mseo == 3) && v < Pow2(6 * n)
    ensures Open(Lanes(v, n, mseo) + rest) == Ok(Cursor(v, 6 * n, mseo == 3, rest))
  {
    ConsumeLanes(v, n, mseo, rest);
    LaneValueOfLanes(v, n, mseo);
    var b := Lanes(v, n, mseo) + rest;
    assert b[..n] == Lanes(v, n, mseo) && b[n..] == rest;
    LowSmall(v, 6 * n);
  }

  // The cursor after more bytes were appended to the buffer.
  function Extend(c: Cursor, rest: seq<byte>): Cursor
  {
    c.(tail := c.tail + rest)
  }

  lemma OpenStable(b: seq<byte>, rest: seq<byte>)
    requires Open(b) != Err(Truncated)
    ensures Open(b + rest) == if Open(b).Ok? then Ok(Extend(Open(b).value, rest)) else Open(b)
  {
    ConsumeStable(b, rest);
    if ConsumeGroup(b).Ok? {
      var n := ConsumeGroup(b).value.0;
      assert (b + rest)[..n] == b[..n];
      assert (b + rest)[n..] == b[n..] + rest;
    }
  }

  lemma {:induction false} SkipStable(c: Cursor, rest: seq<byte>)
    requires SkipToEnd(c) != Err(Truncated)
    ensures SkipToEnd(Extend(c, rest)) ==
            if SkipToEnd(c).Ok? then Ok(Extend(SkipToEnd(c).value, rest)) else SkipToEnd(c)
    decreases |c.tail|
  {
    if !c.eom {
      OpenStable(c.tail, rest);
      if Open(c.tail).Ok? { SkipStable(Open(c.tail).value, rest); }
    }
  }

  lemma {:induction false} SkipBounded(c: Cursor)
    requires Bounded(c) && SkipToEnd(c).Ok?
    ensures Bounded(SkipToEnd(c).value) && SkipToEnd(c).value.eom
    ensures |SkipToEnd(c).value.tail| <= |c.tail|
    ensures !c.eom ==> SkipToEnd(c).value.left <= 6 * (|c.tail| - |SkipToEnd(c).value.tail|)
    ensures !c.eom ==> 0 < SkipToEnd(c).value.left
    decreases |c.tail|
  {
    if !c.eom {
      OpenBounded(c.tail);
      SkipBounded(Open(c.tail).value);
    }
  }

  // ---- Resynchronisation ----

  // Distance just past the first byte with MSEO 3.
  function SyncForward(b: seq<byte>): (r: Result<nat>)
    ensures r.Ok? ==> 0 < r.value <= |b| && Mseo(b[r.value - 1]) == 3
    ensures r.Ok? ==> forall i :: 0 <= i < r.value - 1 ==> Mseo(b[i]) != 3
    ensures r.Err? ==> r == Err(Truncated) && forall i :: 0 <= i < |b| ==> Mseo(b[i]) != 3
  {
    if b == [] then Err(Truncated)
    else if Mseo(b[0]) == 3 then Ok(1)
    else
      var n :- SyncForward(b[1..]);
      Ok(n + 1)
  }

  // Distance just past the last byte before pos with MSEO 3.
  function SyncBackward(b: seq<byte>, pos: nat): (r: Result<nat>)
    requires pos <= |b|
    ensures r.Ok? ==> 0 < r.value <= pos && Mseo(b[r.value - 1]) == 3
    ensures r.Ok? ==> forall i :: r.value <= i < pos ==> Mseo(b[i]) != 3
    ensures r.Err? ==> r == Err(Truncated) && forall i :: 0 <= i < pos ==> Mseo(b[i]) != 3
  {
    if pos == 0 then Err(Truncated)
    else if Mseo(b[pos - 1]) == 3 then Ok(pos)
    else SyncBackward(b, pos - 1)
  }

  // The bytes of a group: no MSEO but zero before the last byte.
  lemma {:induction false} GroupMarks(b: seq<byte>)
    requires ConsumeGroup(b).Ok?
    ensures var (n, eom) := ConsumeGroup(b).value;
            && (forall i :: 0 <= i < n - 1 ==> Mseo(b[i]) == 0)
            && Mseo(b[n - 1]) == if eom then 3 else 1
  {
    if Mseo(b[0]) == 0 {
      GroupMarks(b[1..]);
      var (n, eom) := ConsumeGroup(b[1..]).value;
      forall i | 0 <= i < n ensures Mseo(b[i]) == 0 {
        if i > 0 { assert b[i] == b[1..][i - 1]; }
      }
      assert b[n] == b[1..][n - 1];
    }
  }
}
