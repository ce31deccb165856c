// Which bits of a decoded message come from the wire: the rest of the
// structure keeps what it held before, and nothing that a message says
// depends on it.
module CodecContent {
  import opened Bits
  import opened Results
  import opened Protocol
  import opened MsgTypes
  import opened Codec

  // Slots that share no storage.
  predicate Apart(s: Slot, t: Slot)
  {
    s != t && (s == Check0 ==> t !in {Hist, Repeat}) && (t == Check0 ==> s !in {Hist, Repeat})
  }

  ghost predicate ApartFields(fs: seq<VarField>)
  {
    forall i, j :: 0 <= i < j < |fs| ==> Apart(fs[i].slot, fs[j].slot)
  }

  lemma GetSet(m: Msg, s: Slot, v: uint64, t: Slot)
    ensures Get(Set(m, s, v), s) == Low(v, SlotBits(s))
    ensures Apart(s, t) ==> Get(Set(m, s, v), t) == Get(m, t)
  {
    hide Low, Pow2;
    LowWords(v);
  }

  lemma SetKeeps(m: Msg, s: Slot, v: uint64)
    ensures var r := Set(m, s, v);
            && r.tcode == m.tcode && r.src == m.src && r.timestamp == m.timestamp && r.code2 == m.code2
            && (s != IdTag ==> r.code4 == m.code4)
  {
  }

  lemma SlotFits(m: Msg, s: Slot)
    ensures Get(m, s) < U64 && Low(Get(m, s), SlotBits(s)) == Get(m, s)
  {
    GetBound(m, s);
    LowSmall(Get(m, s), SlotBits(s));
  }

  lemma VarFieldsApart(hw: HwCfg, m: Msg)
    ensures ApartFields(VarFields(hw, m))
  {
  }

  // ---- Copying slots ----

  ghost predicate SameSlots(fs: seq<VarField>, a: Msg, b: Msg)
  {
    forall i :: 0 <= i < |fs| ==> Get(a, fs[i].slot) == Get(b, fs[i].slot)
  }

  lemma {:induction false} CopyGets(fs: seq<VarField>, m: Msg, into: Msg)
    requires ApartFields(fs)
    ensures SameSlots(fs, CopySlots(fs, m, into), m)
    ensures forall t :: (forall i :: 0 <= i < |fs| ==> Apart(fs[i].slot, t))
                        ==> Get(CopySlots(fs, m, into), t) == Get(into, t)
  {
    if fs != [] {
      var s, rest := fs[0].slot, fs[1..];
      var v := Get(m, s);
      SlotFits(m, s);
      var next := Set(into, s, v);
      CopyGets(rest, m, next);
      forall t ensures Get(next, s) == v && (Apart(s, t) ==> Get(next, t) == Get(into, t)) {
        GetSet(into, s, v, t);
      }
      forall i | 0 <= i < |rest| ensures Apart(rest[i].slot, s) {
        assert Apart(fs[0].slot, fs[i + 1].slot);
      }
      forall i | 0 <= i < |fs|
        ensures Get(CopySlots(fs, m, into), fs[i].slot) == Get(m, fs[i].slot)
      {
        if i > 0 { assert fs[i] == rest[i - 1]; }
      }
      forall t | forall i :: 0 <= i < |fs| ==> Apart(fs[i].slot, t)
        ensures Get(CopySlots(fs, m, into), t) == Get(into, t)
      {
        forall i | 0 <= i < |rest| ensures Apart(rest[i].slot, t) { assert rest[i] == fs[i + 1]; }
        assert Apart(fs[0].slot, t);
      }
    }
  }

  lemma {:induction false} CopyKeeps(fs: seq<VarField>, m: Msg, into: Msg)
    ensures var r := CopySlots(fs, m, into);
            && r.tcode == into.tcode && r.src == into.src && r.timestamp == into.timestamp
            && r.code2 == into.code2
            && ((forall i :: 0 <= i < |fs| ==> fs[i].slot != IdTag) ==> r.code4 == into.code4)
  {
    if fs != [] {
      GetBound(m, fs[0].slot);
      SetKeeps(into, fs[0].slot, Get(m, fs[0].slot));
      CopyKeeps(fs[1..], m, Set(into, fs[0].slot, Get(m, fs[0].slot)));
    }
  }

  lemma {:induction false} CopySame(fs: seq<VarField>, a: Msg, b: Msg, into: Msg)
    requires SameSlots(fs, a, b)
    ensures CopySlots(fs, a, into) == CopySlots(fs, b, into)
  {
    if fs != [] {
      assert Get(a, fs[0].slot) == Get(b, fs[0].slot);
      GetBound(a, fs[0].slot);
      forall i | 0 <= i < |fs[1..]|
        ensures Get(a, fs[1..][i].slot) == Get(b, fs[1..][i].slot)
      {
        assert fs[1..][i] == fs[i + 1];
      }
      CopySame(fs[1..], a, b, Set(into, fs[0].slot, Get(a, fs[0].slot)));
    }
  }

  // ---- Equal content ----

  ghost predicate SameHead(a: Msg, b: Msg)
  {
    && a.tcode == b.tcode && a.src == b.src
    && Low(a.code4, Code4Bits(a.tcode)) == Low(b.code4, Code4Bits(a.tcode))
    && Low(a.code2, Code2Bits(a.tcode)) == Low(b.code2, Code2Bits(a.tcode))
  }

  lemma HeadFixesFields(hw: HwCfg, a: Msg, b: Msg)
    requires SameHead(a, b)
    ensures VarFields(hw, a) == VarFields(hw, b)
    ensures a.HasFields() == b.HasFields() && a.IsSync() == b.IsSync() && a.IsIdle() == b.IsIdle()
    ensures a.Encodable() == b.Encodable()
    ensures a.tcode == ICT ==> a.code2 == b.code2
  {
    CodesFit(a);
    CodesFit(b);
  }

  // Two messages have equal content when they agree on every field they carry,
  lemma SameContent(hw: HwCfg, a: Msg, b: Msg)
    requires SameHead(a, b) && a.HasFields()
    requires hw.tsBits > 0 ==> a.timestamp == b.timestamp
    requires SameSlots(VarFields(hw, a), a, b)
    ensures Content(hw, a) == Content(hw, b)
  {
    HeadFixesFields(hw, a, b);
    CopySame(VarFields(hw, a), a, b, HeadContent(hw, a));
  }

  // and only then.
  lemma ContentTells(hw: HwCfg, a: Msg, b: Msg)
    requires Content(hw, a) == Content(hw, b) && a.HasFields() && b.HasFields()
    ensures SameHead(a, b) && SameSlots(VarFields(hw, a), a, b)
    ensures hw.tsBits > 0 ==> a.timestamp == b.timestamp
  {
    ContentHead(hw, a);
    ContentHead(hw, b);
    HeadFixesFields(hw, a, b);
    ContentSlots(hw, a);
    ContentSlots(hw, b);
    var fs, c := VarFields(hw, a), Content(hw, a);
    forall i | 0 <= i < |fs| ensures Get(a, fs[i].slot) == Get(b, fs[i].slot) {
      assert Get(c, fs[i].slot) == Get(a, fs[i].slot);
      assert Get(c, fs[i].slot) == Get(b, fs[i].slot);
    }
  }

  lemma ContentSlots(hw: HwCfg, m: Msg)
    requires m.HasFields()
    ensures SameSlots(VarFields(hw, m), Content(hw, m), m)
  {
    VarFieldsApart(hw, m);
    CopyGets(VarFields(hw, m), m, HeadContent(hw, m));
  }

  lemma ContentHead(hw: HwCfg, m: Msg)
    requires m.HasFields()
    ensures var c := Content(hw, m);
            && SameHead(c, m) && (hw.tsBits > 0 ==> c.timestamp == m.timestamp)
  {
    CopyKeeps(VarFields(hw, m), m, HeadContent(hw, m));
    LowLow(m.code4, Code4Bits(m.tcode), Code4Bits(m.tcode));
    LowLow(m.code2, Code2Bits(m.tcode), Code2Bits(m.tcode));
  }

  lemma ContentKind(hw: HwCfg, m: Msg)
    ensures Content(hw, m).tcode == m.tcode
    ensures !m.IsIdle() ==> Content(hw, m).src == m.src
  {
    hide Low, Pow2, CopySlots;
    if m.HasFields() { ContentHead(hw, m); }
  }

  // Branches and syncs have no repeat count of their own.
  lemma NoRepeatInCommon(hw: HwCfg, m: Msg)
    ensures Content(hw, m).IsCommon() ==> m.HasFields() && Content(hw, m).hrepeat == 0
  {
    hide Low, Pow2, CopySlots;
    if m.HasFields() {
      ContentHead(hw, m);
      if m.IsCommon() {
        VarFieldsApart(hw, m);
        CopyGets(VarFields(hw, m), m, HeadContent(hw, m));
        assert forall i :: 0 <= i < |VarFields(hw, m)| ==> Apart(VarFields(hw, m)[i].slot, Repeat);
        assert Get(Content(hw, m), Repeat) == 0;
      }
    }
  }

  // ---- The structure decoded into ----

  // Reading fields writes their slots and nothing else, with values that do
  // not depend on what was there.
  lemma {:induction false} FieldsCopy(fs: seq<VarField>, p: Msg, q: Msg, c: Cursor)
    requires ApartFields(fs)
    ensures match DecodeFields(fs, p, c)
            case Err(e) => DecodeFields(fs, q, c) == Err(e)
            case Ok(r) => DecodeFields(fs, q, c) == Ok((CopySlots(fs, r.0, q), r.1))
    ensures DecodeFields(fs, p, c).Ok? ==>
              CopySlots(fs, DecodeFields(fs, p, c).value.0, p) == DecodeFields(fs, p, c).value.0
  {
    if fs != [] && TakeVar(c, fs[0]).Ok? {
      var (v, c1) := TakeVar(c, fs[0]).value;
      var s := fs[0].slot;
      var p1, q1 := Set(p, s, v), Set(q, s, v);
      GetSet(p, s, v, s);
      GetBound(p1, s);
      SetAgain(p, s, v);
      SetAgain(q, s, v);
      if |fs| == 1 {
        assert CopySlots(fs[1..], p1, q1) == q1;
      } else if Next(c1).Ok? {
        var c2 := Next(c1).value;
        var rest := fs[1..];
        FieldsCopy(rest, p1, q1, c2);
        if DecodeFields(rest, p1, c2).Ok? {
          var r := DecodeFields(rest, p1, c2).value.0;
          KeepsFirst(fs, r, p1);
        }
      }
    }
  }

  lemma SetAgain(m: Msg, s: Slot, v: uint64)
    ensures Low(v, SlotBits(s)) < U64 && Set(m, s, Low(v, SlotBits(s))) == Set(m, s, v)
  {
    hide Low, Pow2;
    LowWords(v);
    hide Get;
    match s
    case Word | Hist | Repeat => assert Low(v, 32) == v % U32;
    case Data | Check0 => assert Low(v, 64) == v;
    case IdTag => assert Low(v, 3) == v % 8;
  }

  lemma KeepsFirst(fs: seq<VarField>, r: Msg, start: Msg)
    requires ApartFields(fs) && fs != []
    requires CopySlots(fs[1..], r, start) == r
    ensures Get(r, fs[0].slot) == Get(start, fs[0].slot)
  {
    var rest := fs[1..];
    forall i | 0 <= i < |rest| ensures Apart(rest[i].slot, fs[0].slot) {
      assert Apart(fs[0].slot, fs[i + 1].slot);
    }
    forall i, j | 0 <= i < j < |rest| ensures Apart(rest[i].slot, rest[j].slot) {
      assert Apart(fs[i + 1].slot, fs[j + 1].slot);
    }
    CopyGets(rest, r, start);
  }

  lemma CodesSame(p: Msg, q: Msg, c: Cursor)
    requires p.tcode == q.tcode && p.src == q.src && p.timestamp == q.timestamp
    ensures match DecodeCodes(p, c)
            case Err(e) => DecodeCodes(q, c) == Err(e)
            case Ok(r) =>
              && DecodeCodes(q, c).Ok? && DecodeCodes(q, c).value.1 == r.1
              && SameHead(r.0, DecodeCodes(q, c).value.0)
              && r.0.tcode == p.tcode && r.0.timestamp == p.timestamp
                 && DecodeCodes(q, c).value.0.timestamp == p.timestamp
  {
    hide Low, High, Pow2;
    if DecodeCodes(p, c).Ok? {
      CodesFit(DecodeCodes(p, c).value.0);
      CodesFit(DecodeCodes(q, c).value.0);
    }
  }

  ghost predicate SameResult(hw: HwCfg, r: Result<(Msg, seq<byte>)>, s: Result<(Msg, seq<byte>)>)
  {
    match r
    case Err(e) => s == Err(e)
    case Ok(p) => s.Ok? && s.value.1 == p.1 && Content(hw, s.value.0) == Content(hw, p.0)
                  && s.value.0.tcode == p.0.tcode && (!p.0.IsIdle() ==> s.value.0.src == p.0.src)
  }

  lemma KnownSame(hw: HwCfg, p: Msg, q: Msg, c: Cursor)
    requires p.HasFields() && p.tcode == q.tcode && p.src == q.src && p.timestamp == q.timestamp
    ensures SameResult(hw, DecodeKnown(hw, p, c), DecodeKnown(hw, q, c))
  {
    hide DecodeCodes, DecodeFields, Finish, Low, High, Content;
    CodesSame(p, q, c);
    if DecodeCodes(p, c).Ok? {
      var (p1, c1) := DecodeCodes(p, c).value;
      var (q1, _) := DecodeCodes(q, c).value;
      HeadFixesFields(hw, p1, q1);
      var fs := VarFields(hw, p1);
      VarFieldsApart(hw, p1);
      FieldsCopy(fs, Cleared(p1), Cleared(q1), c1);
      if DecodeFields(fs, Cleared(p1), c1).Ok? {
        var (p2, c2) := DecodeFields(fs, Cleared(p1), c1).value;
        var q2 := CopySlots(fs, p2, Cleared(q1));
        CopyKeeps(fs, p2, Cleared(p1));
        CopyKeeps(fs, p2, Cleared(q1));
        CopyGets(fs, p2, Cleared(q1));
        HeadKept(hw, p1, p2);
        HeadKept(hw, q1, q2);
        HeadFixesFields(hw, p1, p2);
        FinishSame(hw, p2, q2, c2);
      }
    }
  }

  // The fixed fields survive the reading of the variable-length ones.
  lemma HeadKept(hw: HwCfg, m: Msg, r: Msg)
    requires r.tcode == m.tcode && r.src == m.src && r.code2 == m.code2
    requires (forall i :: 0 <= i < |VarFields(hw, m)| ==> VarFields(hw, m)[i].slot != IdTag)
             ==> r.code4 == m.code4
    ensures SameHead(m, r)
  {
    if m.tcode == DATA_ACQUISITION { assert Pow2(0) == 1; }
  }

  lemma FinishSame(hw: HwCfg, p: Msg, q: Msg, c: Cursor)
    requires SameHead(p, q) && p.HasFields() && p.timestamp == q.timestamp
    requires SameSlots(VarFields(hw, p), p, q)
    ensures SameResult(hw, Finish(hw, p, c), Finish(hw, q, c))
  {
    hide SkipToEnd, TakeVar, CopySlots, Content, VarFields, Low, High;
    HeadFixesFields(hw, p, q);
    SameContent(hw, p, q);
    if Finish(hw, p, c).Ok? {
      var p1, q1 := Finish(hw, p, c).value.0, Finish(hw, q, c).value.0;
      HeadFixesFields(hw, p, p1);
      SameContent(hw, p1, q1);
    }
  }

  // What a decoded message says, and where it ends, do not depend on what the
  // structure held before.
  lemma DecodeIndependent(hw: HwCfg, b: seq<byte>, p: Msg, q: Msg)
    ensures match Decode(hw, b, p)
            case Err(e) => Decode(hw, b, q) == Err(e)
            case Ok(r) =>
              && Decode(hw, b, q).Ok? && Decode(hw, b, q).value.1 == r.1
              && Content(hw, Decode(hw, b, q).value.0) == Content(hw, r.0)
              && Decode(hw, b, q).value.0.tcode == r.0.tcode
              && (!r.0.IsIdle() ==> Decode(hw, b, q).value.0.src == r.0.src)
  {
    if Open(b).Ok? && TakeFixed(Open(b).value, 6).Ok? {
      var (tcode, c) := TakeFixed(Open(b).value, 6).value;
      var p1 := p.(timestamp := 0, tcode := tcode % 256);
      var q1 := q.(timestamp := 0, tcode := tcode % 256);
      if !p1.IsIdle() && TakeFixed(c, hw.srcBits).Ok? {
        var (src, c1) := TakeFixed(c, hw.srcBits).value;
        var p2, q2 := p1.(src := src % 0x1_0000), q1.(src := src % 0x1_0000);
        if p2.HasFields() { KnownSame(hw, p2, q2, c1); }
      }
      assert SameResult(hw, DecodeAfterTcode(hw, p1, c), DecodeAfterTcode(hw, q1, c));
    }
  }

  // ---- Sources ----

  lemma {:induction false} FieldsKeepSrc(fs: seq<VarField>, m: Msg, c: Cursor)
    requires DecodeFields(fs, m, c).Ok?
    ensures DecodeFields(fs, m, c).value.0.src == m.src
  {
    if |fs| > 1 {
      var (v, c1) := TakeVar(c, fs[0]).value;
      FieldsKeepSrc(fs[1..], Set(m, fs[0].slot, v), Next(c1).value);
    }
  }

  // SRC fits the width the hardware gives it, so it can index a table of sources.
  lemma DecodedSrc(hw: HwCfg, b: seq<byte>, prev: Msg)
    requires Decode(hw, b, prev).Ok?
    ensures var m := Decode(hw, b, prev).value.0; !m.IsIdle() ==> m.src < Pow2(hw.srcBits)
  {
    hide Open, Low, High, Pow2, SkipToEnd, TakeVar;
    var (tcode, c1) := TakeFixed(Open(b).value, 6).value;
    var m0 := prev.(timestamp := 0, tcode := tcode % 256);
    if !m0.IsIdle() {
      var (src, c2) := TakeFixed(c1, hw.srcBits).value;
      var m1 := m0.(src := src % 0x1_0000);
      if m1.HasFields() {
        var (m2, c3) := DecodeCodes(m1, c2).value;
        FieldsKeepSrc(VarFields(hw, m2), Cleared(m2), c3);
      }
    }
  }
}
