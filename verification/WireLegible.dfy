// Which bytes decode at all: exactly those up to a first end mark without a
// reserved one, whose numbers are as many and as long as their TCODE needs.
module WireLegible {
  import opened Bits
  import opened Protocol
  import opened MsgTypes
  import opened Codec
  import opened WireFormat
  import opened WireReading
  import CodecFraming

  // Bits of the fixed codes.
  function CodeBits(tcode: nat): nat
  {
    match tcode
    case 4 | 28 => 2
    case 8 | 9 | 11 | 27 => 4
    case 2 => 5
    case 12 | 29 | 33 | 34 => 6
    case _ => 0
  }

  // The kinds whose first variable field may be empty, of which r holds the codes.
  predicate MayBeEmpty(tcode: nat, r: nat)
  {
    tcode == 2 || tcode == 8 || (tcode == 27 && r % 16 > 2)
  }

  /** There are as many numbers as the TCODE takes, a timestamp among them if it
      is a sync and the hardware has any, and the first is long enough. */
  predicate Legible(hw: HwCfg, ns: seq<Num>)
  {
    && ns != []
    && var tcode, r, bits := ns[0].value % 64, Behind(hw, ns[0].value), ns[0].bits;
       if tcode == 63 then |ns| == 1
       else
         && bits >= 6 + hw.srcBits
         && (Stamped(tcode) ==>
               && bits >= 6 + hw.srcBits + CodeBits(tcode) + (if MayBeEmpty(tcode, r) then 0 else 1)
               && |ns| >= Count(tcode, r) + (if hw.tsBits > 0 && tcode in {9, 11, 12, 29} then 1 else 0))
  }

  // A cursor inside such bytes.
  ghost predicate Inside(c: Cursor)
  {
    if c.eom then c.tail == [] else Framed(c.tail)
  }

  lemma {:induction false} GroupFramed(b: seq<byte>)
    requires Framed(b)
    ensures ConsumeGroup(b).Ok?
    ensures var (n, eom) := ConsumeGroup(b).value; if eom then n == |b| else n < |b| && Framed(b[n..])
  {
    if b[0] % 4 == 0 {
      assert |b| > 1;
      FramedRest(b, 1);
      GroupFramed(b[1..]);
      var n := ConsumeGroup(b[1..]).value.0;
      assert b[1..][n..] == b[n + 1..];
    } else if b[0] % 4 == 1 {
      FramedRest(b, 1);
    }
  }

  lemma FramedRest(b: seq<byte>, n: nat)
    requires Framed(b) && n < |b|
    ensures Framed(b[n..])
  {
    var rest := b[n..];
    forall i | 0 <= i < |rest| - 1 ensures rest[i] % 4 == 0 || rest[i] % 4 == 1 { assert rest[i] == b[n + i]; }
  }

  lemma OpenFramed(b: seq<byte>)
    requires Framed(b)
    ensures Open(b).Ok? && Inside(Open(b).value) && Open(b).value.left >= 6
    ensures var c := Open(b).value; Numbers(b) == [Num(c.rest, c.left)] + Numbers(c.tail)
  {
    GroupFramed(b);
    OpenNumbers(b);
  }

  lemma NumbersInside(c: Cursor)
    requires Inside(c)
    ensures c.eom <==> Numbers(c.tail) == []
  {
    if !c.eom { OpenFramed(c.tail); }
  }

  lemma {:induction false} SkipFramed(c: Cursor)
    requires Inside(c)
    ensures SkipToEnd(c).Ok? && SkipToEnd(c).value.tail == []
    ensures !c.eom ==> SkipToEnd(c).value.left > 0
    decreases |c.tail|
  {
    if !c.eom {
      OpenFramed(c.tail);
      SkipFramed(Open(c.tail).value);
    }
  }

  lemma {:induction false} FieldsFramed(fs: seq<VarField>, m: Msg, c: Cursor)
    requires Inside(c) && fs != [] && forall i :: 0 < i < |fs| ==> fs[i].required
    ensures DecodeFields(fs, m, c).Ok? <==> (fs[0].required ==> c.left > 0) && |fs| <= 1 + |Numbers(c.tail)|
    ensures DecodeFields(fs, m, c).Ok? ==> Inside(DecodeFields(fs, m, c).value.1)
  {
    hide SignExtend, Set, Numbers, Framed;
    NumbersInside(c);
    if TakeVar(c, fs[0]).Ok? && |fs| > 1 {
      var (v, c1) := TakeVar(c, fs[0]).value;
      if !c1.eom {
        OpenFramed(c1.tail);
        FieldsFramed(fs[1..], Set(m, fs[0].slot, v), Next(c1).value);
      }
    }
  }

  lemma FinishFramed(hw: HwCfg, m: Msg, c: Cursor)
    requires Inside(c)
    ensures Finish(hw, m, c).Ok? <==> !(hw.tsBits > 0 && m.IsSync() && Numbers(c.tail) == [])
    ensures Finish(hw, m, c).Ok? ==> Finish(hw, m, c).value.1 == []
  {
    hide Numbers, SkipToEnd, Framed;
    NumbersInside(c);
    SkipFramed(c);
  }

  // The tables of the decoder, by TCODE.
  lemma FieldCount(hw: HwCfg, m: Msg, r: nat, v4: nat, v2: nat, n: nat)
    requires m.HasFields() && v4 < 16 && v2 < 4 && CutAs(m.tcode, r, v4, v2, n)
    ensures Code4Bits(m.tcode) + Code2Bits(m.tcode) == CodeBits(m.tcode)
    ensures var fs := VarFields(hw, SetCodes(m, v4, v2));
            |fs| == Count(m.tcode, r) >= 1 && (fs[0].required <==> !MayBeEmpty(m.tcode, r))
  {
  }

  lemma CodesFramed(m: Msg, c: Cursor)
    ensures DecodeCodes(m, c).Ok? <==> c.left >= Code4Bits(m.tcode) + Code2Bits(m.tcode)
  {
    hide Low, High;
  }

  lemma KnownFramed(hw: HwCfg, m: Msg, c: Cursor)
    requires Inside(c) && m.HasFields()
    ensures DecodeKnown(hw, m, c).Ok?
            <==> && c.left >= CodeBits(m.tcode) + (if MayBeEmpty(m.tcode, c.rest) then 0 else 1)
                 && 1 + |Numbers(c.tail)| >= Count(m.tcode, c.rest) + if hw.tsBits > 0 && m.IsSync() then 1 else 0
    ensures DecodeKnown(hw, m, c).Ok? ==> DecodeKnown(hw, m, c).value.1 == []
  {
    hide DecodeCodes, DecodeFields, VarFields, Cleared, SetCodes, CutAs, Count, MayBeEmpty, CodeBits, Pow2, Numbers,
         Finish, Framed;
    var w4, w2 := Code4Bits(m.tcode), Code2Bits(m.tcode);
    CodesFramed(m, c);
    CodesCut(m, c.rest);
    var v4, v2 := c.rest % Pow2(w4), c.rest / Pow2(w4) % Pow2(w2);
    FieldCount(hw, m, c.rest, v4, v2, c.rest / Pow2(w4) / Pow2(w2));
    if DecodeCodes(m, c).Ok? {
      CodesTold(m, c);
      var (m1, c1) := DecodeCodes(m, c).value;
      var fs := VarFields(hw, m1);
      AllRequired(hw, m1);
      FieldsFramed(fs, Cleared(m1), c1);
      if DecodeFields(fs, Cleared(m1), c1).Ok? {
        var (m2, c2) := DecodeFields(fs, Cleared(m1), c1).value;
        FieldsTold(fs, Cleared(m1), c1);
        NoTime(fs, Cleared(m1), c1);
        CodesKind(m, c);
        ClearedKind(m1);
        FinishFramed(hw, m2, c2);
      }
    }
  }

  lemma AllRequired(hw: HwCfg, m: Msg)
    ensures var fs := VarFields(hw, m); forall i :: 0 < i < |fs| ==> fs[i].required
  {
  }

  lemma ClearedKind(m: Msg)
    ensures Cleared(m).tcode == m.tcode
  {
  }

  lemma WholeFramed(hw: HwCfg, b: seq<byte>, prev: Msg)
    requires Framed(b)
    ensures DecodeTail(hw, b, prev).Ok? <==> Legible(hw, Numbers(b))
    ensures DecodeTail(hw, b, prev).Ok? ==> DecodeTail(hw, b, prev).value.1 == []
  {
    hide Open, Low, High, Pow2, DecodeKnown, Numbers, SkipToEnd, Count, MayBeEmpty, CodeBits, Framed;
    OpenFramed(b);
    var c := Open(b).value;
    NumbersInside(c);
    var n := c.rest;
    LowWords(n);
    LowIs(n / 64, hw.srcBits);
    var m := prev.(timestamp := 0, tcode := n % 64);
    if !m.IsIdle() && c.left >= 6 + hw.srcBits {
      var c2 := Cursor(n / 64 / Pow2(hw.srcBits), c.left - 6 - hw.srcBits, c.eom, c.tail);
      var m1 := m.(src := n / 64 % Pow2(hw.srcBits) % 0x1_0000);
      if m1.HasFields() {
        KnownFramed(hw, m1, c2);
      } else {
        SkipFramed(c2);
      }
    }
  }

  // ---- What decodes is framed ----

  // The rest of the message is there.
  predicate Ends(c: Cursor)
  {
    SkipToEnd(c).Ok? && SkipToEnd(c).value.tail == []
  }

  lemma {:induction false} EndsInside(c: Cursor)
    requires Ends(c)
    ensures Inside(c)
    decreases |c.tail|
  {
    if !c.eom {
      EndsInside(Open(c.tail).value);
      GroupInside(c.tail);
    }
  }

  lemma GroupInside(b: seq<byte>)
    requires Open(b).Ok? && Inside(Open(b).value)
    ensures Framed(b)
  {
    GroupMarks(b);
    var n := ConsumeGroup(b).value.0;
    forall i | 0 <= i < |b| - 1 ensures b[i] % 4 == 0 || b[i] % 4 == 1 {
      if i < n - 1 {
        assert Mseo(b[i]) == 0;
      } else if i >= n {
        assert b[i] == b[n..][i - n];
      }
    }
  }

  lemma {:induction false} FieldsEnds(fs: seq<VarField>, m: Msg, c: Cursor)
    requires DecodeFields(fs, m, c).Ok? && Ends(DecodeFields(fs, m, c).value.1)
    ensures Ends(c)
  {
    hide SignExtend, Set, Open;
    if |fs| > 1 {
      var (v, c1) := TakeVar(c, fs[0]).value;
      FieldsEnds(fs[1..], Set(m, fs[0].slot, v), Next(c1).value);
    }
  }

  lemma KnownEnds(hw: HwCfg, m: Msg, c: Cursor)
    requires m.HasFields() && DecodeKnown(hw, m, c).Ok? && DecodeKnown(hw, m, c).value.1 == []
    ensures Ends(c)
  {
    hide VarFields, Low, High, Cleared, DecodeFields;
    var (m1, c1) := DecodeCodes(m, c).value;
    FieldsEnds(VarFields(hw, m1), Cleared(m1), c1);
  }

  lemma TailEnds(hw: HwCfg, b: seq<byte>, prev: Msg)
    requires DecodeTail(hw, b, prev).Ok? && DecodeTail(hw, b, prev).value.1 == []
    ensures Framed(b)
  {
    hide Open, Low, High, Pow2, DecodeKnown, Framed;
    var c := Open(b).value;
    var (tcode, c1) := TakeFixed(c, 6).value;
    var m := prev.(timestamp := 0, tcode := tcode % 256);
    if !m.IsIdle() {
      var (src, c2) := TakeFixed(c1, hw.srcBits).value;
      var m1 := m.(src := src % 0x1_0000);
      if m1.HasFields() { KnownEnds(hw, m1, c2); }
    }
    assert Ends(c);
    EndsInside(c);
    GroupInside(b);
  }

  /** Bytes decode to a message of length n if and only if their first n are
      framed and hold legible numbers; nothing that follows, and nothing the
      structure held, has a say in it. */
  lemma DecodesExactly(hw: HwCfg, b: seq<byte>, prev: Msg, n: nat)
    requires n <= |b|
    ensures Decode(hw, b, prev).Ok? && Decode(hw, b, prev).value.1 == n
            <==> Framed(b[..n]) && Legible(hw, Numbers(b[..n]))
  {
    hide DecodeTail, Numbers, Legible, Framed;
    var w := b[..n];
    assert b == w + b[n..];
    if Decode(hw, b, prev).Ok? && Decode(hw, b, prev).value.1 == n {
      CodecFraming.DecodeEndsAtSync(hw, b, prev);
      CodecFraming.SelfDelimiting(hw, b, prev, []);
      assert w + [] == w;
      assert |w| - |DecodeTail(hw, w, prev).value.1| == n;
      TailEnds(hw, w, prev);
      WholeFramed(hw, w, prev);
    } else if Framed(w) && Legible(hw, Numbers(w)) {
      WholeFramed(hw, w, prev);
      CodecFraming.DecodeStable(hw, w, prev, b[n..]);
    }
  }
}
