// What the encoder's buffer holds part-way through a message: the groups that
// are complete, and the bits packed so far of the one being written.
module EncoderState {
  import opened Bits
  import opened Protocol
  import opened Codec
  import opened CodecRoundTrip
  import opened CodecNormal

  // A field packed above the width bits of val.
  function Acc(val: nat, width: nat, v: nat, w: nat): nat
  {
    val + Pow2(width) * Low(v, w)
  }

  // Finished groups, each marked as not the last.
  function Marked(gs: seq<seq<Field>>): seq<byte>
  {
    if gs == [] then [] else GroupBytes(gs[0], 1) + Marked(gs[1..])
  }

  // The bytes from base on hold the number val in the bits before off.
  ghost predicate Partial(b: seq<byte>, base: nat, off: nat, val: nat)
  {
    && 6 * base <= off
    && var n := LaneCount(off - 6 * base);
       && base + n <= |b|
       && (forall i :: base <= i < base + n ==> Mseo(b[i]) == 0)
       && LaneValue(b[base..base + n]) == val
       && val < Pow2(off - 6 * base)
  }

  /** The first k groups of the plan are in the buffer, then width bits holding
      val; off is the bit offset reached, and no byte after it has changed. */
  ghost predicate Written(
    b: seq<byte>, orig: seq<byte>, plan: seq<seq<Field>>, k: nat, off: nat, val: nat, width: nat)
  {
    && k <= |plan|
    && var base := LaneSum(plan[..k]);
       && off == 6 * base + width
       && Partial(b, base, off, val)
       && b[..base] == Marked(plan[..k])
       && |b| == |orig| && b[LaneCount(off)..] == orig[LaneCount(off)..]
  }

  lemma {:induction false} MarkedLength(gs: seq<seq<Field>>)
    ensures |Marked(gs)| == LaneSum(gs)
  {
    if gs != [] { MarkedLength(gs[1..]); }
  }

  lemma {:induction false} MarkedAppend(gs: seq<seq<Field>>, g: seq<Field>)
    ensures Marked(gs + [g]) == Marked(gs) + GroupBytes(g, 1)
    ensures LaneSum(gs + [g]) == LaneSum(gs) + LaneCount(Width(g))
  {
    hide LaneCount, Lanes, Width, Pack;
    if gs == [] {
      assert gs + [g] == [g] && [g][1..] == [];
      assert Marked([g]) == GroupBytes(g, 1) + Marked([]);
      assert GroupBytes(g, 1) + [] == [] + GroupBytes(g, 1);
      assert LaneSum([g]) == LaneCount(Width(g)) + LaneSum([]);
    } else {
      assert (gs + [g])[1..] == gs[1..] + [g];
      assert (gs + [g])[0] == gs[0];
      MarkedAppend(gs[1..], g);
    }
  }

  // ---- One byte ----

  lemma ShiftedLow(v: nat, shift: nat)
    requires shift <= 6
    ensures Low(v * Pow2(shift), 6) == Pow2(shift) * Low(v, 6 - shift)
  {
    hide Low, High;
    Split(0, v, shift);
    assert v * Pow2(shift) == 0 + Pow2(shift) * v;
    LowSplit(v * Pow2(shift), shift, 6 - shift);
  }

  // Replacing the last byte of a run changes the number it holds by the change
  // in that byte.
  lemma RunByte(run: seq<byte>, b: byte)
    requires run != []
    ensures LaneValue(run[..|run| - 1] + [b]) ==
            LaneValue(run[..|run| - 1]) + Pow2(6 * (|run| - 1)) * Mdo(b)
  {
    hide Mdo, Pow2;
    LaneValueAppend(run[..|run| - 1], [b]);
    OneByte(b);
  }

  lemma OneByte(b: byte)
    ensures LaneValue([b]) == Mdo(b)
  {
    assert [b][1..] == [];
  }

  // The bits above off in the byte being filled are clear.
  lemma ClearAbove(b: seq<byte>, base: nat, off: nat, val: nat)
    requires Partial(b, base, off, val) && off % 6 != 0
    ensures off / 6 < |b| && Mdo(b[off / 6]) < Pow2(off % 6)
    ensures Mseo(b[off / 6]) == 0
  {
    hide Low, High, Mdo, Mseo, Pow2;
    var n, shift := LaneCount(off - 6 * base), off % 6;
    var run := b[base..base + n];
    assert base + n - 1 == off / 6;
    assert run == run[..n - 1] + [run[n - 1]];
    RunByte(run, run[n - 1]);
    Pow2Add(6 * (n - 1), shift);
    assert 6 * (n - 1) + shift == off - 6 * base;
    var d := Mdo(b[off / 6]);
    if d >= Pow2(shift) {
      MulOrder(Pow2(6 * (n - 1)), Pow2(shift), d);
      assert false;
    }
  }

  lemma AccBound(val: nat, width: nat, v: nat, w: nat)
    requires val < Pow2(width)
    ensures Acc(val, width, v, w) < Pow2(width + w)
  {
    hide Low, Pow2;
    Pow2Add(width, w);
    MulOrder(Pow2(width), Low(v, w), Pow2(w) - 1);
    assert Pow2(width) * (Pow2(w) - 1) == Pow2(width) * Pow2(w) - Pow2(width);
  }

  // Filling a byte, or the rest of one, with t more bits: q bytes of the run
  // are full, and shift bits of the next one.
  lemma ByteStep(b: seq<byte>, base: nat, q: nat, shift: nat, val: nat, v: nat, t: nat, mdo: nat)
    requires shift < 6 && 0 < t <= 6 - shift && mdo < 64
    requires Partial(b, base, 6 * (base + q) + shift, val) && base + q < |b|
    requires mdo == (if shift == 0 then 0 else Mdo(b[base + q])) + Pow2(shift) * Low(v, t)
    ensures Partial(b[base + q := MakeByte(mdo, 0)], base, 6 * (base + q) + shift + t,
                    Acc(val, 6 * q + shift, v, t))
  {
    hide Low, High, Mdo, Mseo, MakeByte, Pow2, LaneValue, Acc;
    var b1 := b[base + q := MakeByte(mdo, 0)];
    assert LaneCount(6 * q + shift + t) == q + 1;
    assert LaneCount(6 * q + shift) == if shift == 0 then q else q + 1;
    AccBound(val, 6 * q + shift, v, t);
    var run, run1 := b[base..base + q], b1[base..base + q + 1];
    assert run1[..q] == run && run1 == run + [b1[base + q]];
    RunByte(run1, b1[base + q]);
    if shift == 0 {
      FreshByte(val, q, v, t, mdo);
    } else {
      var old0 := b[base..base + q + 1];
      assert old0[..q] == run && old0 == run + [b[base + q]];
      RunByte(old0, b[base + q]);
      FilledByte(LaneValue(run), Mdo(b[base + q]), q, shift, v, t, mdo);
    }
  }

  lemma FreshByte(val: nat, lanes: nat, v: nat, t: nat, mdo: nat)
    requires mdo == Pow2(0) * Low(v, t)
    ensures val + Pow2(6 * lanes) * mdo == Acc(val, 6 * lanes, v, t)
  {
    hide Low;
  }

  lemma FilledByte(before: nat, d: nat, lanes: nat, shift: nat, v: nat, t: nat, mdo: nat)
    requires mdo == d + Pow2(shift) * Low(v, t)
    ensures before + Pow2(6 * lanes) * mdo == Acc(before + Pow2(6 * lanes) * d, 6 * lanes + shift, v, t)
  {
    hide Low, Pow2;
    Pow2Add(6 * lanes, shift);
    MulAssoc(Pow2(6 * lanes), Pow2(shift), Low(v, t));
    MulPlus(Pow2(6 * lanes), d, Pow2(shift) * Low(v, t));
  }

  // ---- Groups ----

  lemma {:induction false} PackAppend(fs: seq<Field>, f: Field)
    ensures Pack(fs + [f]) == Acc(Pack(fs), Width(fs), f.value, f.width)
    ensures Width(fs + [f]) == Width(fs) + f.width
  {
    hide Low, Pow2;
    WidthAppend(fs, [f]);
    OneWidth(f);
    if fs == [] {
      assert fs + [f] == [f] && [f][1..] == [];
      assert Pack([f]) == Low(f.value, f.width) + Pow2(f.width) * Pack([]);
      Pow2Zero();
    } else {
      assert (fs + [f])[1..] == fs[1..] + [f];
      PackAppend(fs[1..], f);
      var w := fs[0].width;
      Pow2Add(w, Width(fs[1..]));
      MulAssoc(Pow2(w), Pow2(Width(fs[1..])), Low(f.value, f.width));
      var rest, x := Pack(fs[1..]), Pow2(Width(fs[1..])) * Low(f.value, f.width);
      assert Pow2(w) * (rest + x) == Pow2(w) * rest + Pow2(w) * x;
    }
  }

  // A complete group, once its last byte is marked.
  lemma CloseRun(b: seq<byte>, base: nat, off: nat, g: seq<Field>, mseo: nat, b1: seq<byte>)
    requires Partial(b, base, off, Pack(g)) && off - 6 * base == Width(g) > 0
    requires mseo < 4
    requires var i := (off + 5) / 6 - 1;
             i < |b| && b1 == b[i := MakeByte(Mdo(b[i]), mseo)]
    ensures var n := LaneCount(Width(g));
            b1[base..base + n] == GroupBytes(g, mseo)
  {
    hide Low, Pow2, Pack, Width, Mdo, MakeByte, Mseo;
    var n := LaneCount(Width(g));
    var i := base + n - 1;
    assert i == (off + 5) / 6 - 1;
    var run, run1 := b[base..base + n], b1[base..base + n];
    assert run == run[..n - 1] + [b[i]];
    assert run1 == run[..n - 1] + [b1[i]];
    RunByte(run, b[i]);
    RunByte(run1, b1[i]);
    assert run1[..n - 1] == run[..n - 1];
    assert LaneValue(run1) == Pack(g);
    LanesUnique(run1, mseo);
  }

  // Marking the last byte of the last group as the end gives the frame.
  lemma {:induction false} MarkedFrame(gs: seq<seq<Field>>, b1: seq<byte>)
    requires gs != [] && forall i :: 0 <= i < |gs| ==> Width(gs[i]) > 0
    requires |Marked(gs)| > 0
    requires var last := |Marked(gs)| - 1;
             b1 == Marked(gs)[last := MakeByte(Mdo(Marked(gs)[last]), 3)]
    ensures b1 == Frame(gs)
  {
    hide Pack, Width, LaneCount, Lanes, Mdo, MakeByte;
    var g := gs[0];
    if |gs| == 1 {
      assert gs[1..] == [];
      assert Marked(gs) == GroupBytes(g, 1) + [] == GroupBytes(g, 1);
      RemarkLanes(g, 1);
    } else {
      var rest := Marked(gs[1..]);
      assert Width(gs[1]) > 0;
      MarkedLength(gs[1..]);
      LanesPositive(gs[1..]);
      var last := |rest| - 1;
      MarkedFrame(gs[1..], rest[last := MakeByte(Mdo(rest[last]), 3)]);
    }
  }

  lemma LanesPositive(gs: seq<seq<Field>>)
    requires gs != [] && Width(gs[0]) > 0
    ensures LaneSum(gs) > 0
  {
  }

  // Changing the mark of a group's last byte changes nothing else.
  lemma RemarkLanes(g: seq<Field>, mseo: nat)
    requires Width(g) > 0 && mseo < 4
    ensures var b := GroupBytes(g, mseo);
            && |b| > 0
            && b[|b| - 1 := MakeByte(Mdo(b[|b| - 1]), 3)] == GroupBytes(g, 3)
  {
    hide Pack, Width, LaneCount;
    LaneCountPositive(Width(g));
    RelabelLanes(Pack(g), LaneCount(Width(g)), mseo);
  }

  lemma LaneCountPositive(w: nat)
    requires w > 0
    ensures LaneCount(w) > 0
  {
  }

  lemma {:induction false} RelabelLanes(v: nat, n: nat, mseo: nat)
    requires n > 0 && mseo < 4
    ensures var b := Lanes(v, n, mseo);
            b[n - 1 := MakeByte(Mdo(b[n - 1]), 3)] == Lanes(v, n, 3)
  {
    hide Mdo, MakeByte;
    if n > 1 { RelabelLanes(v / 64, n - 1, mseo); }
  }

  // Once the groups up to and including part of group k need more than the
  // limit, so does the whole plan.
  lemma TooLong(plan: seq<seq<Field>>, k: nat, width: nat, limit: nat)
    requires k < |plan| && width <= Width(plan[k])
    requires 6 * LaneSum(plan[..k]) + width > 6 * limit
    ensures LaneSum(plan) > limit
  {
    hide Width;
    assert plan == plan[..k] + plan[k..];
    LaneSumAppend(plan[..k], plan[k..]);
    assert LaneSum(plan[k..]) >= LaneCount(Width(plan[k]));
  }
}
