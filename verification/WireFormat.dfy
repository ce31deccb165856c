// The wire by its numbers: what every encoded message looks like, byte for byte,
// written out per TCODE without the tables the codec is built from.
module WireFormat {
  import opened Bits
  import opened Protocol
  import opened MsgTypes
  import opened Codec
  import CodecRoundTrip
  import MsgEncoder

  // A number and the bits it is given.
  datatype Num = Num(value: nat, bits: nat)

  // ---- Numbers in bytes ----

  // A number in bytes, low six bits first, each in the upper six bits of its
  // byte; the lower two are zero but in the last byte.
  function Spelled(v: nat, n: nat, last: nat): seq<nat>
  {
    if n == 0 then []
    else if n == 1 then [v % 64 * 4 + last]
    else [v % 64 * 4] + Spelled(v / 64, n - 1, last)
  }

  // Groups end in 1, the last one in 3.
  function Laid(ns: seq<Num>): seq<nat>
  {
    if ns == [] then []
    else Spelled(ns[0].value, (ns[0].bits + 5) / 6, if |ns| == 1 then 3 else 1) + Laid(ns[1..])
  }

  // The numbers a run of bytes holds, each with six bits for every byte.
  function Numbers(b: seq<nat>): seq<Num>
  {
    if b == [] then [] else Ahead(b[0], Numbers(b[1..]))
  }

  // A byte in front of numbers: part of the first one if its mark is zero.
  function Ahead(x: nat, rest: seq<Num>): seq<Num>
  {
    if x % 4 == 0 && rest != [] then [Num(x / 4 + 64 * rest[0].value, 6 + rest[0].bits)] + rest[1..]
    else [Num(x / 4, 6)] + rest
  }

  // ---- What a message is written as ----

  // As many bits as it needs, but one at least.
  function Needed(v: nat): Num
  {
    Num(v, if v == 0 then 1 else BitLen(v))
  }

  // The same, but none for zero.
  function Spare(v: nat): Num
  {
    Num(v, BitLen(v))
  }

  // The shortest lanes that sign extension takes back to the address.
  function Address(hw: HwCfg, v: uint64): Num
  {
    if hw.vao then Num(v % Pow2(VaoBits(v)), VaoBits(v)) else Needed(v)
  }

  // A field of fixed width before another number.
  function Then(v: nat, width: nat, n: Num): Num
  {
    Num(v + Pow2(width) * n.value, width + n.bits)
  }

  // The fields behind SRC, per TCODE: Ownership, Error, ResourceFull,
  // RepeatBranch, ProgTraceCorrelation, ICT, and the branches and syncs.
  function Fields(hw: HwCfg, m: Msg): (ns: seq<Num>)
    ensures ns != []
  {
    match m.tcode
    case 2 => [Then(m.code4, 4, Then(m.code2 % 2, 1, Spare(m.data)))]
    case 8 => [Then(m.code4, 4, Spare(m.word))]
    case 27 =>
      (match m.code4
       case 0 => [Then(0, 4, Needed(m.word))]
       case 1 => [Then(1, 4, Needed(m.hist))]
       case 2 => [Then(2, 4, Needed(m.hist)), Needed(m.hrepeat)]
       case _ => [Then(m.code4, 4, Spare(m.word))])
    case 30 => [Needed(m.hrepeat)]
    case 33 =>
      [Then(m.code4, 4, Then(m.code2, 2, Needed(m.word)))] + if m.code2 == 1 then [Needed(m.hist)] else []
    case 34 =>
      [Then(m.code4, 4, Then(m.code2, 2, Needed(m.hist + 0x1_0000_0000 * m.hrepeat))), Needed(m.data)]
    case 3 => [Needed(m.word)]
    case 4 => [Then(m.code2, 2, Needed(m.word)), Address(hw, m.data)]
    case 28 => [Then(m.code2, 2, Needed(m.word)), Address(hw, m.data), Needed(m.hist)]
    case 12 => [Then(m.code4, 4, Then(m.code2, 2, Needed(m.word))), Address(hw, m.data)]
    case 29 => [Then(m.code4, 4, Then(m.code2, 2, Needed(m.word))), Address(hw, m.data), Needed(m.hist)]
    case _ => [Then(m.code4, 4, Needed(m.word)), Address(hw, m.data)]
  }

  // Those that carry SYNC and always a timestamp.
  predicate Timed(m: Msg)
  {
    m.tcode == 9 || m.tcode == 11 || m.tcode == 12 || m.tcode == 29
  }

  function Layout(hw: HwCfg, m: Msg): (ns: seq<Num>)
    ensures ns != []
  {
    if m.tcode == 63 then [Num(63, 6)]
    else
      var fs := Fields(hw, m);
      [Then(m.tcode, 6, Then(m.src % Pow2(hw.srcBits), hw.srcBits, fs[0]))] + fs[1..]
      + if hw.tsBits > 0 && (Timed(m) || m.timestamp != 0) then [Needed(m.timestamp)] else []
  }

  // ---- Groups as numbers ----

  function NumOf(g: seq<Field>): Num
  {
    Num(Pack(g), Width(g))
  }

  function NumsOf(gs: seq<seq<Field>>): (ns: seq<Num>)
    ensures |ns| == |gs|
  {
    if gs == [] then [] else [NumOf(gs[0])] + NumsOf(gs[1..])
  }

  lemma {:induction false} NumsAppend(a: seq<seq<Field>>, b: seq<seq<Field>>)
    ensures NumsOf(a + b) == NumsOf(a) + NumsOf(b)
  {
    hide NumOf;
    if a == [] {
      assert a + b == b && [] + NumsOf(b) == NumsOf(b);
    } else {
      assert (a + b)[1..] == a[1..] + b;
      NumsAppend(a[1..], b);
      assert [NumOf(a[0])] + (NumsOf(a[1..]) + NumsOf(b)) == [NumOf(a[0])] + NumsOf(a[1..]) + NumsOf(b);
    }
  }

  lemma {:induction false} LanesSpelled(v: nat, n: nat, mseo: nat)
    requires mseo < 4
    ensures Lanes(v, n, mseo) == Spelled(v, n, mseo)
  {
    if n > 1 {
      LanesSpelled(v / 64, n - 1, mseo);
    }
  }

  lemma {:induction false} FrameLaid(gs: seq<seq<Field>>)
    requires gs != []
    ensures Frame(gs) == Laid(NumsOf(gs))
  {
    hide Pack, Width, Lanes, Spelled;
    var ns := NumsOf(gs);
    var n := LaneCount(Width(gs[0]));
    assert n == (ns[0].bits + 5) / 6;
    LanesSpelled(Pack(gs[0]), n, if |gs| == 1 then 3 else 1);
    assert ns[1..] == NumsOf(gs[1..]);
    if |gs| == 1 {
      assert Laid(ns[1..]) == [];
      assert Spelled(Pack(gs[0]), n, 3) + [] == Spelled(Pack(gs[0]), n, 3);
    } else {
      FrameLaid(gs[1..]);
    }
  }

  lemma PackedThen(f: Field, fs: seq<Field>)
    ensures NumOf([f] + fs) == Then(Low(f.value, f.width), f.width, NumOf(fs))
  {
    assert ([f] + fs)[1..] == fs;
  }

  lemma ThenNone(n: Num)
    ensures Then(0, 0, n) == n
  {
    Pow2Zero();
  }

  lemma HeadPacked(hw: HwCfg, m: Msg, f: Field)
    ensures NumOf(HeadFields(hw, m) + [f])
            == Then(Low(m.tcode, 6), 6, Then(Low(m.src, hw.srcBits), hw.srcBits,
                 Then(Low(m.code4, Code4Bits(m.tcode)), Code4Bits(m.tcode),
                   Then(Low(m.code2, Code2Bits(m.tcode)), Code2Bits(m.tcode), NumOf([f])))))
  {
    hide Low, NumOf, Then, Code4Bits, Code2Bits;
    var h := HeadFields(hw, m);
    PackedThen(h[3], [f]);
    PackedThen(h[2], [h[3]] + [f]);
    PackedThen(h[1], [h[2]] + ([h[3]] + [f]));
    PackedThen(h[0], [h[1]] + ([h[2]] + ([h[3]] + [f])));
    assert h + [f] == [h[0]] + ([h[1]] + ([h[2]] + ([h[3]] + [f])));
  }

  lemma LowIs(v: nat, n: nat)
    ensures Low(v, n) == v % Pow2(n) && High(v, n) == v / Pow2(n)
  {
    hide Low, High, Pow2;
    LowHigh(v, n);
    DivideBy(v, Pow2(n), High(v, n), Low(v, n));
  }

  lemma DivideBy(v: nat, d: nat, q: nat, r: nat)
    requires d > 0 && r < d && v == r + d * q
    ensures v / d == q && v % d == r
  {
    var q1, r1 := v / d, v % d;
    assert v == d * q1 + r1;
    if q1 < q {
      MulPlus(d, q1, 1);
      MulOrder(d, q1 + 1, q);
      assert false;
    } else if q1 > q {
      MulPlus(d, q, 1);
      MulOrder(d, q + 1, q1);
      assert false;
    }
  }

  // A variable-length field alone.
  lemma OneField(f: VarField, m: Msg)
    ensures NumOf([FieldOf(f, m)])
            == if f.vao then Num(Get(m, f.slot) % Pow2(VaoBits(Get(m, f.slot))), VaoBits(Get(m, f.slot)))
               else if f.required then Needed(Get(m, f.slot)) else Spare(Get(m, f.slot))
  {
    hide Pack, Low, Pow2, VaoBits;
    var g := FieldOf(f, m);
    GetBound(m, f.slot);
    CodecRoundTrip.OneWidth(g);
    CodecRoundTrip.FieldWidths(f, m);
    if f.vao {
      PackedVao(g);
      LowIs(g.value, g.width);
    } else {
      CodecRoundTrip.PackOne(g);
    }
  }

  lemma PackedVao(f: Field)
    ensures Pack([f]) == Low(f.value, f.width)
  {
    assert [f][1..] == [];
  }

  // ---- The wire ----

  lemma HeadNumber(hw: HwCfg, m: Msg, f: Field)
    requires m.tcode < 64
    ensures NumOf(HeadFields(hw, m) + [f])
            == Then(m.tcode, 6, Then(m.src % Pow2(hw.srcBits), hw.srcBits, CodesThen(m, NumOf([f]))))
  {
    hide NumOf, Then, Pow2, Low;
    HeadPacked(hw, m, f);
    LowIs(m.src, hw.srcBits);
    LowWords(m.tcode);
    CodesFit(m);
    var n := NumOf([f]);
    ThenNone(n);
    ThenNone(Then(Low(m.code2, Code2Bits(m.tcode)), Code2Bits(m.tcode), n));
  }

  // The fixed codes in front of a number.
  function CodesThen(m: Msg, n: Num): Num
  {
    var n2 := if Code2Bits(m.tcode) == 0 then n
              else Then(if Code2Bits(m.tcode) == 1 then m.code2 % 2 else m.code2, Code2Bits(m.tcode), n);
    if Code4Bits(m.tcode) == 0 then n2 else Then(m.code4, Code4Bits(m.tcode), n2)
  }

  // The first number of a message and the others before the timestamp.
  lemma GroupNumbers(hw: HwCfg, m: Msg, fs: seq<VarField>)
    requires m.tcode < 64 && fs != [] && |fs| <= 3
    ensures var first := CodesThen(m, NumOf([FieldOf(fs[0], m)]));
            NumsOf([HeadFields(hw, m) + [FieldOf(fs[0], m)]] + (Groups(fs[1..], m) + TimeGroup(hw, m)))
            == [Then(m.tcode, 6, Then(m.src % Pow2(hw.srcBits), hw.srcBits, first))]
               + ((if |fs| == 1 then [] else if |fs| == 2 then [NumOf([FieldOf(fs[1], m)])]
                   else [NumOf([FieldOf(fs[1], m)]), NumOf([FieldOf(fs[2], m)])])
                  + NumsOf(TimeGroup(hw, m)))
  {
    hide NumOf, Then, Pow2, CodesThen, HeadFields, TimeGroup, FieldOf;
    var head := HeadFields(hw, m) + [FieldOf(fs[0], m)];
    var rest := Groups(fs[1..], m);
    HeadNumber(hw, m, FieldOf(fs[0], m));
    assert ([head] + (rest + TimeGroup(hw, m)))[1..] == rest + TimeGroup(hw, m);
    NumsAppend(rest, TimeGroup(hw, m));
    if |fs| == 1 {
      assert rest == [];
    } else {
      assert fs[1..][0] == fs[1];
      if |fs| == 2 {
        assert rest == [[FieldOf(fs[1], m)]] && rest[1..] == [];
      } else {
        assert fs[1..][1..] == [fs[2]] && [fs[2]][1..] == [];
        assert Groups([fs[2]], m) == [[FieldOf(fs[2], m)]];
        assert rest == [[FieldOf(fs[1], m)], [FieldOf(fs[2], m)]];
        assert rest[1..] == [[FieldOf(fs[2], m)]] && rest[1..][1..] == [];
      }
    }
  }

  lemma TimeNumber(hw: HwCfg, m: Msg)
    ensures NumsOf(TimeGroup(hw, m))
            == if hw.tsBits > 0 && (Timed(m) || m.timestamp != 0) then [Needed(m.timestamp)] else []
  {
    hide Pack, Low, Pow2;
    var f := Field(m.timestamp, ReqBits(m.timestamp));
    CodecRoundTrip.TimeWidth(m.timestamp);
    CodecRoundTrip.OneWidth(f);
    CodecRoundTrip.PackOne(f);
    assert [[f]][1..] == [];
  }

  // The fields of a message, as the tables of the codec list them.
  lemma FieldNumbers(hw: HwCfg, m: Msg)
    requires m.Encodable() && !m.IsIdle()
    ensures var fs := EncodedFields(hw, m);
            && 1 <= |fs| <= 3
            && Fields(hw, m)
               == [CodesThen(m, NumOf([FieldOf(fs[0], m)]))]
                  + if |fs| == 1 then [] else if |fs| == 2 then [NumOf([FieldOf(fs[1], m)])]
                    else [NumOf([FieldOf(fs[1], m)]), NumOf([FieldOf(fs[2], m)])]
  {
    hide NumOf, Then, Pow2, FieldOf, Needed, Spare, VaoBits;
    var fs := EncodedFields(hw, m);
    OneField(fs[0], m);
    if |fs| > 1 { OneField(fs[1], m); }
    if |fs| > 2 { OneField(fs[2], m); }
  }

  lemma LayoutIs(hw: HwCfg, m: Msg)
    requires m.Encodable()
    ensures NumsOf(Wire(hw, m)) == Layout(hw, m)
  {
    hide NumOf, Then, Pow2, CodesThen, HeadFields, TimeGroup, FieldOf, Fields, Needed;
    if m.IsIdle() {
      IdleNumber();
      assert [[Field(63, 6)]][1..] == [];
    } else {
      var fs := EncodedFields(hw, m);
      FieldNumbers(hw, m);
      GroupNumbers(hw, m, fs);
      TimeNumber(hw, m);
    }
  }

  lemma IdleNumber()
    ensures NumOf([Field(63, 6)]) == Num(63, 6)
  {
    hide Pack, Pow2;
    Pow2Words();
    CodecRoundTrip.OneWidth(Field(63, 6));
    CodecRoundTrip.PackOne(Field(63, 6));
  }

  /** Every byte of an encoding: the numbers of its TCODE in order, each in as
      many lanes as its bits need, low lane first. */
  lemma EncodeLaid(hw: HwCfg, m: Msg)
    requires m.Encodable()
    ensures Encode(hw, m) == Laid(Layout(hw, m))
  {
    hide NumsOf, Layout, Wire, Frame, Laid;
    LayoutIs(hw, m);
    FrameLaid(Wire(hw, m));
  }

  // ---- Reading the numbers back ----

  lemma {:induction false} SpelledNumbers(v: nat, n: nat, last: nat, rest: seq<nat>)
    requires n > 0 && (last == 1 || last == 3)
    ensures Numbers(Spelled(v, n, last) + rest) == [Num(v % Pow2(6 * n), 6 * n)] + Numbers(rest)
  {
    hide Pow2, Numbers;
    var b := Spelled(v, n, last) + rest;
    Pow2Words();
    NumbersStep(b);
    if n == 1 {
      assert b[1..] == rest;
      LastLane(v, last);
    } else {
      assert b[1..] == Spelled(v / 64, n - 1, last) + rest;
      SpelledNumbers(v / 64, n - 1, last, rest);
      RestOfLanes(v, n - 1);
      LastLane(v, 0);
      var more := [Num(v / 64 % Pow2(6 * (n - 1)), 6 * (n - 1))] + Numbers(rest);
      assert more[1..] == Numbers(rest);
    }
  }

  lemma NumbersStep(b: seq<nat>)
    requires b != []
    ensures Numbers(b) == Ahead(b[0], Numbers(b[1..]))
  {
    hide Ahead;
  }

  lemma LastLane(v: nat, last: nat)
    requires last < 4
    ensures (v % 64 * 4 + last) / 4 == v % 64 && (v % 64 * 4 + last) % 4 == last
  {
  }

  lemma RestOfLanes(v: nat, n: nat)
    ensures v % Pow2(6 * (n + 1)) == v % 64 + 64 * (v / 64 % Pow2(6 * n))
  {
    hide Low, High, Pow2;
    LowIs(v, 6 * (n + 1));
    LowIs(v / 64, 6 * n);
    LowWords(v);
    Pow2Words();
    assert 6 * (n + 1) == 6 + 6 * n;
    LowSplit(v, 6, 6 * n);
  }

  // The numbers in whole lanes.
  function Rounded(ns: seq<Num>): (r: seq<Num>)
    ensures |r| == |ns|
  {
    if ns == [] then [] else [Num(ns[0].value, (ns[0].bits + 5) / 6 * 6)] + Rounded(ns[1..])
  }

  // Each number has the room it needs.
  ghost predicate Fitting(ns: seq<Num>)
  {
    forall i :: 0 <= i < |ns| ==> ns[i].bits > 0 && ns[i].value < Pow2(ns[i].bits)
  }

  lemma {:induction false} LaidNumbers(ns: seq<Num>)
    requires Fitting(ns)
    ensures Numbers(Laid(ns)) == Rounded(ns)
  {
    hide Spelled, Pow2, Numbers;
    NoNumbers();
    if ns != [] {
      var n, rest := (ns[0].bits + 5) / 6, Laid(ns[1..]);
      assert ns[0].bits > 0;
      Pow2Mono(ns[0].bits, 6 * n);
      SpelledNumbers(ns[0].value, n, if |ns| == 1 then 3 else 1, rest);
      SmallRemainder(ns[0].value, Pow2(6 * n));
      LaidNumbers(ns[1..]);
    }
  }

  lemma NoNumbers()
    ensures Numbers([]) == []
  {
  }

  lemma SmallRemainder(v: nat, d: nat)
    requires v < d
    ensures v % d == v
  {
  }

  lemma {:induction false} NumsFit(gs: seq<seq<Field>>)
    requires forall i :: 0 <= i < |gs| ==> Width(gs[i]) > 0
    ensures Fitting(NumsOf(gs))
  {
    hide Pack, Width, Pow2;
    if gs != [] {
      CodecRoundTrip.PackBound(gs[0]);
      NumsFit(gs[1..]);
      var ns := NumsOf(gs);
      forall i | 0 <= i < |ns| ensures ns[i].bits > 0 && ns[i].value < Pow2(ns[i].bits) {
        if i > 0 { assert ns[i] == NumsOf(gs[1..])[i - 1]; }
      }
    }
  }

  lemma LayoutFits(hw: HwCfg, m: Msg)
    requires m.Encodable()
    ensures Fitting(Layout(hw, m))
  {
    hide NumsOf, Layout, Pow2, Width;
    LayoutIs(hw, m);
    if m.IsIdle() {
      CodecRoundTrip.OneWidth(Field(m.tcode, 6));
    } else {
      MsgEncoder.PlanWidths(hw, m);
    }
    NumsFit(Wire(hw, m));
  }

  /** Read without any table, an encoding holds the numbers of its TCODE. */
  lemma EncodedNumbers(hw: HwCfg, m: Msg)
    requires m.Encodable()
    ensures Numbers(Encode(hw, m)) == Rounded(Layout(hw, m))
  {
    hide Layout, Laid, Encode, Numbers, Fitting;
    EncodeLaid(hw, m);
    LayoutFits(hw, m);
    LaidNumbers(Layout(hw, m));
  }

  // The bytes of one message: only the last one ends in 3, the others in 0 or 1.
  ghost predicate Framed(b: seq<nat>)
  {
    b != [] && b[|b| - 1] % 4 == 3 && forall i :: 0 <= i < |b| - 1 ==> b[i] % 4 == 0 || b[i] % 4 == 1
  }

  lemma {:induction false} SpelledMarks(v: nat, n: nat, last: nat)
    requires n > 0 && last < 4
    ensures var b := Spelled(v, n, last);
            |b| == n && b[n - 1] % 4 == last && forall i :: 0 <= i < n - 1 ==> b[i] % 4 == 0
  {
    if n > 1 {
      SpelledMarks(v / 64, n - 1, last);
      var b, rest := Spelled(v, n, last), Spelled(v / 64, n - 1, last);
      forall i | 0 <= i < n - 1 ensures b[i] % 4 == 0 {
        if i > 0 { assert b[i] == rest[i - 1]; }
      }
    }
  }

  lemma {:induction false} LaidMarks(ns: seq<Num>)
    requires ns != [] && forall i :: 0 <= i < |ns| ==> ns[i].bits > 0
    ensures Framed(Laid(ns))
  {
    hide Spelled;
    var n, last := (ns[0].bits + 5) / 6, if |ns| == 1 then 3 else 1;
    assert ns[0].bits > 0;
    SpelledMarks(ns[0].value, n, last);
    var head := Spelled(ns[0].value, n, last);
    if |ns| == 1 {
      assert Laid(ns[1..]) == [] && head + [] == head;
    } else {
      LaidMarks(ns[1..]);
      var rest := Laid(ns[1..]);
      var b := Laid(ns);
      assert b == head + rest;
      forall i | 0 <= i < |b| - 1 ensures b[i] % 4 == 0 || b[i] % 4 == 1 {
        if i >= n { assert b[i] == rest[i - n]; }
      }
    }
  }

  /** The first byte of an encoding holds its TCODE above two bits, the last byte
      ends in 3, the others in 0 or 1. */
  lemma EncodedMarks(hw: HwCfg, m: Msg)
    requires m.Encodable()
    ensures var b := Encode(hw, m); Framed(b) && b[0] / 4 == m.tcode
  {
    hide Laid, Encode, Pow2;
    EncodeLaid(hw, m);
    LayoutFits(hw, m);
    LaidMarks(Layout(hw, m));
    FirstLane(Layout(hw, m));
    if !m.IsIdle() {
      LowTcode(m, Then(m.src % Pow2(hw.srcBits), hw.srcBits, Fields(hw, m)[0]));
    }
  }

  lemma FirstLane(ns: seq<Num>)
    requires ns != [] && ns[0].bits > 0
    ensures Laid(ns) != [] && Laid(ns)[0] / 4 == ns[0].value % 64
  {
  }

  lemma LowTcode(m: Msg, n: Num)
    requires m.tcode < 64
    ensures Then(m.tcode, 6, n).value % 64 == m.tcode
  {
    Pow2Words();
  }
}
