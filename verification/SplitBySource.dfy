// Splitting a trace file by source: each message's bytes are appended to the
// file of its SRC, and decoding that file is the same as filtering the original.
module SplitBySource {
  import opened Bits
  import opened Results
  import opened Protocol
  import opened MsgTypes
  import opened Codec
  import opened Stream
  import CodecContent
  import CodecFraming
  import StreamDecoder

  // ---- The messages of a file with their bytes ----

  datatype Item = Item(content: Msg, bytes: seq<byte>)

  function Items(hw: HwCfg, file: seq<byte>, off: nat, bufsz: nat): (seq<Item>, End)
    requires off <= |file|
    decreases |file| - off
  {
    match BufferedNext(hw, file, off, bufsz, -1)
    case Eof(_) => ([], AtEof)
    case Fail(_, e) => ([], Failed(e))
    case Unspecified => ([], Unsaid)
    case Got(content, start, next) =>
      DeliveredAgain(hw, file, off, bufsz, -1);
      var (items, end) := Items(hw, file, next, bufsz);
      ([Item(content, file[start..next])] + items, end)
  }

  // Messages that go to an output.
  predicate Routed(m: Msg)
  {
    m.Known() && !m.IsIdle()
  }

  predicate Belongs(m: Msg, src: nat)
  {
    Routed(m) && m.src == src
  }

  // What goes to the output of a source.
  function Own(x: Item, src: nat): seq<Item>
  {
    if Belongs(x.content, src) then [x] else []
  }

  function Part(items: seq<Item>, src: nat): seq<Item>
  {
    if items == [] then [] else Own(items[0], src) + Part(items[1..], src)
  }

  function BytesOf(items: seq<Item>): seq<byte>
  {
    if items == [] then [] else items[0].bytes + BytesOf(items[1..])
  }

  function Contents(items: seq<Item>): seq<Msg>
  {
    if items == [] then [] else [items[0].content] + Contents(items[1..])
  }

  // ---- Decoding what was split ----

  // The bytes decode to the content, whatever follows.
  ghost predicate Decodes(hw: HwCfg, item: Item)
  {
    && item.bytes != []
    && forall more :: var r := Decode(hw, item.bytes + more, BLANK);
                      r.Ok? && r.value.1 == |item.bytes| && Content(hw, r.value.0) == item.content
  }

  ghost predicate AllDecode(hw: HwCfg, items: seq<Item>)
  {
    forall i :: 0 <= i < |items| ==> Decodes(hw, items[i])
  }

  lemma GotDecodes(hw: HwCfg, file: seq<byte>, off: nat, bufsz: nat)
    requires off <= |file| && BufferedNext(hw, file, off, bufsz, -1).Got?
    ensures var g := BufferedNext(hw, file, off, bufsz, -1);
            && off == g.start < g.next <= |file| && Decodes(hw, Item(g.content, file[g.start..g.next]))
            && (!g.content.IsIdle() ==> g.content.src < Pow2(hw.srcBits))
  {
    hide Decode, Content, Pow2;
    var w := Window(file, off, bufsz);
    Room(hw, w, BLANK);
    var (m, n) := Decode(hw, w, BLANK).value;
    assert file[off..off + n] == w[..n];
    forall more ensures Decode(hw, w[..n] + more, BLANK) == Decode(hw, w, BLANK) {
      CodecFraming.SelfDelimiting(hw, w, BLANK, more);
    }
    CodecContent.DecodedSrc(hw, w, BLANK);
    CodecContent.ContentKind(hw, m);
  }

  lemma {:induction false} ItemsDecode(hw: HwCfg, file: seq<byte>, off: nat, bufsz: nat)
    requires off <= |file|
    ensures AllDecode(hw, Items(hw, file, off, bufsz).0)
    decreases |file| - off
  {
    hide Decodes, BufferedNext;
    var g := BufferedNext(hw, file, off, bufsz, -1);
    if g.Got? {
      GotDecodes(hw, file, off, bufsz);
      ItemsDecode(hw, file, g.next, bufsz);
    }
  }

  lemma {:induction false} PartDecodes(hw: HwCfg, items: seq<Item>, src: nat)
    requires AllDecode(hw, items)
    ensures AllDecode(hw, Part(items, src))
  {
    hide Decodes;
    if items != [] {
      assert AllDecode(hw, items[1..]) by {
        forall i | 0 <= i < |items[1..]| ensures Decodes(hw, items[1..][i]) { assert Decodes(hw, items[i + 1]); }
      }
      PartDecodes(hw, items[1..], src);
    }
  }

  // Bytes of whole messages in a row decode to just those messages.
  lemma {:induction false} BytesDecode(hw: HwCfg, items: seq<Item>)
    requires AllDecode(hw, items)
    ensures Messages(hw, BytesOf(items), -1) == (Contents(items), AtEof)
  {
    hide Decode, Content;
    if items != [] {
      var rest := BytesOf(items[1..]);
      var b := items[0].bytes + rest;
      assert Decodes(hw, items[0]);
      var p := Decode(hw, b, BLANK).value;
      Room(hw, b, BLANK);
      assert b[p.1..] == rest;
      assert AllDecode(hw, items[1..]) by {
        forall i | 0 <= i < |items[1..]| ensures Decodes(hw, items[1..][i]) { assert Decodes(hw, items[i + 1]); }
      }
      BytesDecode(hw, items[1..]);
    }
  }

  // ---- Splitting and filtering ----

  ghost predicate AllRouted(items: seq<Item>)
  {
    forall i :: 0 <= i < |items| ==> Routed(items[i].content)
  }

  ghost predicate NoIdle(items: seq<Item>)
  {
    forall i :: 0 <= i < |items| ==> !items[i].content.IsIdle()
  }

  // No message of the source is of an unknown kind.
  ghost predicate AllKnown(items: seq<Item>, src: nat)
  {
    forall i :: 0 <= i < |items| && items[i].content.src == src ==> items[i].content.Known()
  }

  // What a filter lets through: all of the source, of known kinds or not.
  function Mine(items: seq<Item>, src: nat): seq<Item>
  {
    if items == [] then [] else Named(items[0], src) + Mine(items[1..], src)
  }

  function Named(x: Item, src: nat): seq<Item>
  {
    if x.content.src == src then [x] else []
  }

  // That is what goes to the output exactly if all of it is known.
  lemma {:induction false} MineExactly(items: seq<Item>, src: nat)
    requires NoIdle(items)
    ensures |Contents(Part(items, src))| <= |Contents(Mine(items, src))|
    ensures Contents(Part(items, src)) == Contents(Mine(items, src)) <==> AllKnown(items, src)
  {
    if items != [] {
      var x, rest := items[0], items[1..];
      assert items == [x] + rest;
      assert NoIdle(rest) by {
        forall i | 0 <= i < |rest| ensures !rest[i].content.IsIdle() { assert !items[i + 1].content.IsIdle(); }
      }
      MineExactly(rest, src);
      KnownFront(x, rest, src);
      assert !items[0].content.IsIdle();
      var p, m := Part(rest, src), Mine(rest, src);
      assert items[1..] == rest;
      assert Part(items, src) == Own(x, src) + p && Mine(items, src) == Named(x, src) + m;
      FirstContent(Own(x, src), p);
      FirstContent(Named(x, src), m);
      var c := [x.content];
      assert (c + Contents(p))[1..] == Contents(p) && (c + Contents(m))[1..] == Contents(m);
    }
  }

  lemma KnownFront(x: Item, rest: seq<Item>, src: nat)
    ensures AllKnown([x] + rest, src) <==> (x.content.src == src ==> x.content.Known()) && AllKnown(rest, src)
  {
    var items := [x] + rest;
    assert items[0] == x;
    if AllKnown(items, src) {
      forall i | 0 <= i < |rest| && rest[i].content.src == src ensures rest[i].content.Known() {
        assert items[i + 1] == rest[i];
      }
    }
  }

  lemma FirstContent(own: seq<Item>, rest: seq<Item>)
    requires |own| <= 1
    ensures Contents(own + rest) == if own == [] then Contents(rest) else [own[0].content] + Contents(rest)
  {
    if own == [] {
      assert own + rest == rest;
    } else {
      assert (own + rest)[1..] == rest;
    }
  }

  // One step with a filter, next to the step without.
  lemma FilteredNext(hw: HwCfg, file: seq<byte>, off: nat, bufsz: nat, src: nat)
    requires off <= |file|
    ensures var g, f := BufferedNext(hw, file, off, bufsz, -1), BufferedNext(hw, file, off, bufsz, src);
            if g.Got? then
              && off == g.start < g.next <= |file|
              && (!g.content.IsIdle() ==>
                    f == if g.content.src == src then g else BufferedNext(hw, file, g.next, bufsz, src))
            else f == g
  {
    hide Decode, Content;
    if bufsz > 0 && off < |file| {
      var w := Window(file, off, bufsz);
      Room(hw, w, BLANK);
      if Decode(hw, w, BLANK).Ok? {
        CodecContent.ContentKind(hw, Decode(hw, w, BLANK).value.0);
      }
    }
  }

  // Filtering drops what belongs to other sources.
  lemma {:induction false} FilterIsMine(hw: HwCfg, file: seq<byte>, off: nat, bufsz: nat, src: nat)
    requires off <= |file| && NoIdle(Items(hw, file, off, bufsz).0)
    ensures Deliveries(hw, file, off, bufsz, src)
            == (Contents(Mine(Items(hw, file, off, bufsz).0, src)), Items(hw, file, off, bufsz).1)
    decreases |file| - off
  {
    hide BufferedNext;
    FilteredNext(hw, file, off, bufsz, src);
    var g := BufferedNext(hw, file, off, bufsz, -1);
    if g.Got? {
      var items := Items(hw, file, off, bufsz).0;
      var rest := Items(hw, file, g.next, bufsz).0;
      assert items == [Item(g.content, file[g.start..g.next])] + rest;
      assert !items[0].content.IsIdle();
      assert NoIdle(rest) by {
        forall i | 0 <= i < |rest| ensures !rest[i].content.IsIdle() { assert !items[i + 1].content.IsIdle(); }
      }
      FilterIsMine(hw, file, g.next, bufsz, src);
      assert items[1..] == rest;
      assert Mine(items, src) == Named(items[0], src) + Mine(rest, src);
      FirstContent(Named(items[0], src), Mine(rest, src));
      if g.content.src != src {
        SameDeliveries(hw, file, off, g.next, bufsz, src);
      }
    }
  }

  // On a file without Idle messages a source filter ends as the unfiltered
  // stream does, and delivers the part of the source exactly if none of its
  // messages is of an unknown kind.
  lemma FilterIsPart(hw: HwCfg, file: seq<byte>, off: nat, bufsz: nat, src: nat)
    requires off <= |file| && NoIdle(Items(hw, file, off, bufsz).0)
    ensures var items, d := Items(hw, file, off, bufsz), Deliveries(hw, file, off, bufsz, src);
            && d.1 == items.1
            && (d.0 == Contents(Part(items.0, src)) <==> AllKnown(items.0, src))
  {
    hide Deliveries, Items, NoIdle, AllKnown;
    FilterIsMine(hw, file, off, bufsz, src);
    MineExactly(Items(hw, file, off, bufsz).0, src);
  }

  lemma RoutedKind(m: Msg)
    ensures Routed(m) ==> !m.IsIdle()
  {
  }

  /** Decoding the output of a source gives the messages of that source, in
      order. On a file without Idle messages that is what decoding the original
      with a filter gives, if and only if no unknown message carries the source. */
  lemma SplitCommutes(hw: HwCfg, file: seq<byte>, bufsz: nat, src: nat)
    ensures var items := Items(hw, file, 0, bufsz).0;
            && Messages(hw, BytesOf(Part(items, src)), -1) == (Contents(Part(items, src)), AtEof)
            && (NoIdle(items) ==>
                (Messages(hw, BytesOf(Part(items, src)), -1).0 == Deliveries(hw, file, 0, bufsz, src).0
                 <==> AllKnown(items, src)))
  {
    hide Decodes, Messages, Deliveries, BufferedNext, Items, NoIdle, AllKnown;
    var items := Items(hw, file, 0, bufsz).0;
    ItemsDecode(hw, file, 0, bufsz);
    PartDecodes(hw, items, src);
    BytesDecode(hw, Part(items, src));
    if NoIdle(items) {
      FilterIsPart(hw, file, 0, bufsz, src);
    }
  }

  // ---- Byte counts ----

  // Bytes in the outputs of the first n sources.
  function PartBytes(items: seq<Item>, n: nat): nat
  {
    if n == 0 then 0 else PartBytes(items, n - 1) + |BytesOf(Part(items, n - 1))|
  }

  lemma {:induction false} OneMore(x: Item, rest: seq<Item>, n: nat)
    ensures PartBytes([x] + rest, n)
            == PartBytes(rest, n) + if Routed(x.content) && x.content.src < n then |x.bytes| else 0
  {
    hide Routed;
    if n > 0 {
      OneMore(x, rest, n - 1);
      assert ([x] + rest)[1..] == rest;
      var kept := Part(rest, n - 1);
      assert ([x] + kept)[1..] == kept && [] + kept == kept;
    } else {
      Nothing([x] + rest);
      Nothing(rest);
    }
  }

  lemma Nothing(items: seq<Item>)
    ensures PartBytes(items, 0) == 0
  {
  }

  ghost predicate SourcesFit(items: seq<Item>, n: nat)
  {
    forall i :: 0 <= i < |items| && !items[i].content.IsIdle() ==> items[i].content.src < n
  }

  lemma {:induction false} SourcesDecoded(hw: HwCfg, file: seq<byte>, off: nat, bufsz: nat)
    requires off <= |file|
    ensures SourcesFit(Items(hw, file, off, bufsz).0, Pow2(hw.srcBits))
    decreases |file| - off
  {
    hide BufferedNext, Decodes, Pow2;
    var g := BufferedNext(hw, file, off, bufsz, -1);
    if g.Got? {
      GotDecodes(hw, file, off, bufsz);
      SourcesDecoded(hw, file, g.next, bufsz);
    }
  }

  // The outputs hold no more bytes than were decoded, and all of them exactly if
  // every message is known and not Idle.
  lemma {:induction false} PartsCover(items: seq<Item>, n: nat)
    requires SourcesFit(items, n) && forall i :: 0 <= i < |items| ==> items[i].bytes != []
    ensures PartBytes(items, n) <= |BytesOf(items)|
    ensures PartBytes(items, n) == |BytesOf(items)| <==> AllRouted(items)
  {
    hide Routed;
    if items == [] {
      NothingSplit(n);
    } else {
      var x, rest := items[0], items[1..];
      assert items == [x] + rest;
      RoutedKind(x.content);
      OneMore(x, rest, n);
      forall i | 0 <= i < |rest|
        ensures rest[i].bytes != [] && (!rest[i].content.IsIdle() ==> rest[i].content.src < n)
      {
        assert items[i + 1].bytes != [];
      }
      PartsCover(rest, n);
      RoutedFront(x, rest);
    }
  }

  lemma RoutedFront(x: Item, rest: seq<Item>)
    ensures AllRouted([x] + rest) <==> Routed(x.content) && AllRouted(rest)
  {
    var items := [x] + rest;
    assert items[0] == x;
    if AllRouted(items) {
      forall i | 0 <= i < |rest| ensures Routed(rest[i].content) { assert Routed(items[i + 1].content); }
    }
  }

  /** Splitting a file leaves nothing out and writes nothing twice exactly if
      every message is known and not Idle: then the outputs of all the sources the
      SRC field can name hold as many bytes as were decoded. */
  lemma SplitCovers(hw: HwCfg, file: seq<byte>, bufsz: nat)
    ensures var items := Items(hw, file, 0, bufsz).0;
            PartBytes(items, Pow2(hw.srcBits)) == |BytesOf(items)| <==> AllRouted(items)
  {
    hide Items, Pow2, PartBytes, BytesOf, AllRouted, SourcesFit;
    var items := Items(hw, file, 0, bufsz).0;
    SourcesDecoded(hw, file, 0, bufsz);
    ItemsDecode(hw, file, 0, bufsz);
    assert forall i :: 0 <= i < |items| ==> Decodes(hw, items[i]);
    PartsCover(items, Pow2(hw.srcBits));
  }

  lemma {:induction false} NothingSplit(n: nat)
    ensures PartBytes([], n) == 0
  {
    if n > 0 { NothingSplit(n - 1); }
  }

  // ---- The splitting loop ----

  lemma PartStep(items: seq<Item>, src: nat)
    ensures Part(items, src) == if items == [] then [] else Own(items[0], src) + Part(items[1..], src)
  {
    hide Belongs;
  }

  lemma {:induction false} PartAppend(items: seq<Item>, x: Item, src: nat)
    ensures Part(items + [x], src) == Part(items, src) + Own(x, src)
  {
    hide Belongs, Part;
    PartStep(items, src);
    PartStep(items + [x], src);
    if items == [] {
      assert items + [x] == [x] && [x][1..] == [];
      PartStep([], src);
    } else {
      assert (items + [x])[1..] == items[1..] + [x];
      PartAppend(items[1..], x, src);
      assert Own(items[0], src) + (Part(items[1..], src) + Own(x, src))
             == Own(items[0], src) + Part(items[1..], src) + Own(x, src);
    }
  }

  lemma {:induction false} BytesAppend(items: seq<Item>, x: Item)
    ensures BytesOf(items + [x]) == BytesOf(items) + x.bytes
  {
    if items == [] {
      assert items + [x] == [x] && [x][1..] == [];
    } else {
      assert (items + [x])[1..] == items[1..] + [x];
      BytesAppend(items[1..], x);
    }
  }

  // What is routed can be told from the structure decoded into.
  lemma RoutedContent(hw: HwCfg, m: Msg)
    ensures Routed(Content(hw, m)) == Routed(m)
    ensures !m.IsIdle() ==> Content(hw, m).src == m.src
  {
    hide Low, Pow2, CopySlots;
    CodecContent.ContentKind(hw, m);
    if m.HasFields() {
      CodesFit(m);
      CodecContent.CopyKeeps(VarFields(hw, m), m, HeadContent(hw, m));
    }
  }

  // The outputs so far.
  ghost predicate Routing(outputs: array<seq<byte>>, decodedSrc: array<nat>, msgidSrc: array<nat>, done: seq<Item>)
    reads outputs, decodedSrc, msgidSrc
  {
    && outputs.Length == decodedSrc.Length == msgidSrc.Length
    && forall s :: 0 <= s < outputs.Length ==>
         && outputs[s] == BytesOf(Part(done, s))
         && decodedSrc[s] == |BytesOf(Part(done, s))| && msgidSrc[s] == |Part(done, s)|
  }

  /** Read all the messages, and append the bytes of each to the output of its
      source. */
  method Split(d: StreamDecoder.MsgDecoder)
    returns (r: Result<(nat, nat)>, outputs: array<seq<byte>>, decodedSrc: array<nat>, msgidSrc: array<nat>)
    requires d.Valid() && d.srcFilter == -1 && d.Position() <= |d.file|
    modifies d, d.buffer
    ensures d.Valid() && fresh(outputs) && outputs.Length == Pow2(d.hw.srcBits)
    ensures var (items, end) := old(Items(d.hw, d.file, d.Position(), d.buffer.Length));
            && Routing(outputs, decodedSrc, msgidSrc, items)
            && match r
               case Ok(counts) => end == AtEof && counts == (|items|, |BytesOf(items)|)
               case Err(e) => end == Failed(e)
  {
    hide StreamDecoder.MsgDecoder.Valid, StreamDecoder.MsgDecoder.Position, BufferedNext, Content, Pow2, Items, Routing,
         BytesOf;
    var n := Pow2(d.hw.srcBits);
    outputs := new seq<byte>[n](_ => []);
    decodedSrc := new nat[n](_ => 0);
    msgidSrc := new nat[n](_ => 0);
    NoneRouted(outputs, decodedSrc, msgidSrc);
    var msgid, decodedBytes := 0, 0;
    var msg := BLANK;
    ghost var done: seq<Item> := [];
    ghost var items := Items(d.hw, d.file, d.Position(), d.buffer.Length);
    assert done + items.0 == items.0;
    while true
      invariant d.Valid() && d.Position() <= |d.file|
      invariant fresh(outputs) && fresh(decodedSrc) && fresh(msgidSrc) && outputs.Length == n
      invariant Routing(outputs, decodedSrc, msgidSrc, done)
      invariant msgid == |done| && decodedBytes == |BytesOf(done)|
      invariant var rest := Items(d.hw, d.file, d.Position(), d.buffer.Length); items == (done + rest.0, rest.1)
      decreases |d.file| - d.Position()
    {
      ghost var at := d.Position();
      d.OutcomeIs();
      ItemsStep(d.hw, d.file, at, d.buffer.Length);
      var rc;
      rc, msg := d.Next(msg);
      if rc.Err? {
        assert done + [] == done;
        return Err(rc.error), outputs, decodedSrc, msgidSrc;
      }
      if rc.value == 0 {
        assert done + [] == done;
        return Ok((msgid, decodedBytes)), outputs, decodedSrc, msgidSrc;
      }
      ghost var item := Item(Content(d.hw, msg), d.file[at..d.Position()]);
      RoutedContent(d.hw, msg);
      BytesAppend(done, item);
      if msg.Known() && !msg.IsIdle() {
        var bytes := d.LastMsg();
        Route(outputs, decodedSrc, msgidSrc, msg.src, bytes.value, done, item);
      } else {
        Unrouted(outputs, decodedSrc, msgidSrc, done, item);
      }
      ghost var rest := Items(d.hw, d.file, d.Position(), d.buffer.Length).0;
      assert done + ([item] + rest) == done + [item] + rest;
      done := done + [item];
      msgid := msgid + 1;
      decodedBytes := decodedBytes + rc.value;
    }
  }

  // Append a message to the output of its source.
  method Route(outputs: array<seq<byte>>, decodedSrc: array<nat>, msgidSrc: array<nat>, src: nat, bytes: seq<byte>,
               ghost done: seq<Item>, ghost item: Item)
    requires Routing(outputs, decodedSrc, msgidSrc, done) && decodedSrc != msgidSrc
    requires Routed(item.content) && item.content.src == src < outputs.Length && item.bytes == bytes
    modifies outputs, decodedSrc, msgidSrc
    ensures Routing(outputs, decodedSrc, msgidSrc, done + [item])
  {
    hide Routed, Part, BytesOf;
    forall s: nat ensures Part(done + [item], s) == Part(done, s) + if s == src then [item] else [] {
      PartAppend(done, item, s);
    }
    BytesAppend(Part(done, src), item);
    decodedSrc[src] := decodedSrc[src] + |bytes|;
    msgidSrc[src] := msgidSrc[src] + 1;
    outputs[src] := outputs[src] + bytes;
    forall s | 0 <= s < outputs.Length && s != src ensures Part(done + [item], s) == Part(done, s) {
      assert Part(done, s) + [] == Part(done, s);
    }
  }

  lemma NoneRouted(outputs: array<seq<byte>>, decodedSrc: array<nat>, msgidSrc: array<nat>)
    requires outputs.Length == decodedSrc.Length == msgidSrc.Length
    requires forall s :: 0 <= s < outputs.Length ==> outputs[s] == [] && decodedSrc[s] == msgidSrc[s] == 0
    ensures Routing(outputs, decodedSrc, msgidSrc, []) && BytesOf([]) == []
  {
  }

  // A message of no source leaves the outputs as they are.
  lemma Unrouted(outputs: array<seq<byte>>, decodedSrc: array<nat>, msgidSrc: array<nat>, done: seq<Item>, item: Item)
    requires Routing(outputs, decodedSrc, msgidSrc, done) && !Routed(item.content)
    ensures Routing(outputs, decodedSrc, msgidSrc, done + [item])
  {
    hide Routed, Part, BytesOf;
    forall s: nat ensures Part(done + [item], s) == Part(done, s) {
      PartAppend(done, item, s);
    }
  }

  lemma ItemsStep(hw: HwCfg, file: seq<byte>, off: nat, bufsz: nat)
    requires off <= |file|
    ensures var g, items := BufferedNext(hw, file, off, bufsz, -1), Items(hw, file, off, bufsz);
            && g != Unspecified
            && (g.Eof? ==> items == ([], AtEof) && off <= g.at <= |file|)
            && (g.Fail? ==> items == ([], Failed(g.error)) && off <= g.at <= |file|)
            && (g.Got? ==>
                  && off == g.start < g.next <= |file|
                  && (!g.content.IsIdle() ==> g.content.src < Pow2(hw.srcBits))
                  && var rest := Items(hw, file, g.next, bufsz);
                     items == ([Item(g.content, file[off..g.next])] + rest.0, rest.1))
  {
    hide Decode, Content, Decodes, Pow2;
    OutcomeAfter(hw, file, off, bufsz, -1);
    if BufferedNext(hw, file, off, bufsz, -1).Got? {
      GotDecodes(hw, file, off, bufsz);
    }
  }
}
