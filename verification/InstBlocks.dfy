// Blocks of instructions that end in a jump: retiring one against the trace
// says where the program went, and keeps the return stack up to date.
module InstBlocks {
  import opened Bits
  import opened Results
  import opened MsgTypes
  import opened TraceSemantics
  import opened TraceSteps
  import opened TraceRuns
  import opened CallStack
  import ReturnStack
  import TraceDecoder
  import TraceFacts

  // How a block ends; a return from an interrupt is an indirect jump.
  datatype Kind = Straight | DirJump | CondBranch | DirCall | IndirJump | IndirCall | Ret | CoSwap | Trapping

  // Where the program went, or an event inside or right behind the block, or
  // an error.
  datatype Exit = At(target: uint64) | Raised(addr: uint64, event: Event) | Failed(error: Error)

  // A block, and the trace and the return stack it is retired against.
  datatype Code = Code(kind: Kind, addr: uint64, icnt: uint32, size: nat, off: int)

  datatype World = World(state: State, stack: seq<uint64>)

  datatype Effect = Effect(exit: Exit, after: World)

  // A block is at most 2 GiB long, and holds its last instruction.
  type Block = c: Code | c.icnt <= 0x4000_0000 && c.size / 2 <= c.icnt
    witness Code(Straight, 0, 0, 0, 0)

  function AddrAt(b: Block, icnt: nat): uint64
  {
    (b.addr + icnt * 2) % U64
  }

  function Behind(b: Block): uint64
  {
    AddrAt(b, b.icnt)
  }

  function JumpTarget(b: Block): uint64
  {
    (b.addr + b.icnt * 2 - b.size + b.off) % U64
  }

  // ---- What retiring a block should do ----

  // Events that may come at any instruction.
  predicate Asynchronous(e: Event)
  {
    e.TrapEvent? || e.DirectSyncEvent? || e.IndirectSyncEvent? || e.SyncEvent? || e.ErrorEvent?
  }

  datatype Check = Passed(event: Event) | Thrown(exit: Exit)

  // The instructions of the block are retired unless something comes first.
  function Checked(b: Block, a: Answer): Check
  {
    match a
    case Retired(n, event) =>
      if n >= b.icnt then Passed(event)
      else if Asynchronous(event) then Thrown(Raised(AddrAt(b, n), event))
      else Thrown(Failed(Mismatch))
    case Refused(e) => Thrown(Failed(e))
    case _ => Thrown(Failed(Mismatch))
  }

  // Take the indirect branch that was reported.
  function Indirectly(w: World): Effect
    requires w.state.trace.Seg? && IsIndirect(w.state.trace.close)
  {
    var g := w.state.trace;
    Effect(if g.close.owner.Broken? then Failed(g.close.owner.error) else At(g.close.target),
           World(State(g.next, true), w.stack))
  }

  // The end of the block, once its instructions are retired.
  function Ended(b: Block, w: World, event: Event, sifive: bool, max: nat): Effect
    requires event == IndirectEvent ==> w.state.trace.Seg? && IsIndirect(w.state.trace.close)
  {
    match b.kind
    case Straight => Effect(At(Behind(b)), w)
    case DirJump => Effect(At(JumpTarget(b)), w)
    case DirCall => Effect(At(JumpTarget(b)), w.(stack := ReturnStack.Pushed(w.stack, Behind(b), max)))
    case CondBranch =>
      if event == ErrorEvent then Effect(Raised(Behind(b), event), w)
      else
        var m := BranchStep(w.state);
        Effect(if m.answer.Outcome? then At(if m.answer.taken then JumpTarget(b) else Behind(b))
               else if m.answer.Refused? then Failed(m.answer.error) else Failed(Mismatch), w.(state := m.after))
    case Ret => Returned(b, w, event)
    case CoSwap => if sifive then Called(b, w, event, max) else Swapped(b, Returned(b, w, event), max)
    case IndirCall => Called(b, w, event, max)
    case _ => Jumped(w, event)
  }

  function Jumped(w: World, event: Event): Effect
    requires event == IndirectEvent ==> w.state.trace.Seg? && IsIndirect(w.state.trace.close)
  {
    if event == IndirectEvent then Indirectly(w) else Effect(Failed(Mismatch), w)
  }

  function Called(b: Block, w: World, event: Event, max: nat): Effect
    requires event == IndirectEvent ==> w.state.trace.Seg? && IsIndirect(w.state.trace.close)
  {
    Swapped(b, Jumped(w, event), max)
  }

  // Push the address behind the block, if control got somewhere.
  function Swapped(b: Block, e: Effect, max: nat): Effect
  {
    if e.exit.At? then e.(after := e.after.(stack := ReturnStack.Pushed(e.after.stack, Behind(b), max))) else e
  }

  // A return is explicit if an indirect branch was reported for it; otherwise
  // the top of the return stack says where it went.
  function Returned(b: Block, w: World, event: Event): Effect
    requires event == IndirectEvent ==> w.state.trace.Seg? && IsIndirect(w.state.trace.close)
  {
    if event == ErrorEvent then Effect(Raised(Behind(b), event), w)
    else if event == IndirectEvent then Indirectly(w.(stack := Popped(w.stack)))
    else if w.stack == [] then Effect(Failed(StackEmpty), w)
    else Effect(At(Top(w.stack)), w.(stack := Popped(w.stack)))
  }

  // An event reported as indirect is one.
  lemma ReportedIndirect(s: State, icnt: uint32)
    requires RetireStep(s, icnt).answer.Retired?
    ensures var m := RetireStep(s, icnt);
            var e := m.answer.event;
            e == IndirectEvent || e == TrapEvent ==> AtIndirect(m.after)
  {
  }

  function Retirement(b: Block, w: World, sifive: bool, max: nat): Effect
  {
    if b.kind.Trapping? then Trapped(b, w)
    else
      var m := RetireStep(w.state, b.icnt);
      match Checked(b, m.answer)
      case Thrown(exit) => Effect(exit, w.(state := m.after))
      case Passed(event) =>
        ReportedIndirect(w.state, b.icnt);
        Ended(b, w.(state := m.after), event, sifive, max)
  }

  // An instruction that traps retires all that precedes it.
  function Trapped(b: Block, w: World): Effect
  {
    var n := b.icnt - b.size / 2;
    var m := RetireStep(w.state, n);
    var w1 := w.(state := m.after);
    match m.answer
    case Retired(k, event) =>
      ReportedIndirect(w.state, n);
      if k < n then Effect(Raised(AddrAt(b, k), event), w1)
      else if event != TrapEvent then Effect(Failed(Mismatch), w1)
      else Indirectly(w1)
    case Refused(e) => Effect(Failed(e), w1)
    case _ => Effect(Failed(Mismatch), w1)
  }

  // The two stages of retiring a block.
  lemma Stages(b: Block, w: World, sifive: bool, max: nat)
    requires !b.kind.Trapping?
    ensures var m := RetireStep(w.state, b.icnt);
            && m.after.trace.Seg? == w.state.trace.Seg?
            && (Checked(b, m.answer).Thrown? ==>
                  Retirement(b, w, sifive, max) == Effect(Checked(b, m.answer).exit, w.(state := m.after)))
            && (Checked(b, m.answer).Passed? ==>
                  && (Checked(b, m.answer).event == IndirectEvent ==> AtIndirect(m.after))
                  && Retirement(b, w, sifive, max)
                     == Ended(b, w.(state := m.after), Checked(b, m.answer).event, sifive, max))
  {
    hide Ended, EventOf;
    if RetireStep(w.state, b.icnt).answer.Retired? { ReportedIndirect(w.state, b.icnt); }
  }

  // The trace stands at an indirect branch.
  predicate AtIndirect(s: State)
  {
    s.synced && s.trace.Seg? && IsIndirect(s.trace.close) && s.trace.icnt == 0 && s.trace.tnts == []
  }

  // The block, taken as one that ends in another way.
  function As(b: Block, kind: Kind): Block
  {
    b.(kind := kind)
  }

  // The trace has an indirect branch for the end of the block.
  predicate Explicit(b: Block, s: State)
  {
    var a := RetireStep(s, b.icnt).answer;
    a.Retired? && a.event == IndirectEvent
  }

  lemma CallsJump(b: Block, w: World, sifive: bool, max: nat)
    ensures Retirement(As(b, IndirCall), w, sifive, max)
            == Swapped(b, Retirement(As(b, IndirJump), w, sifive, max), max)
    ensures Retirement(As(b, IndirJump), w, sifive, max).after.stack == w.stack
  {
    hide RetireStep;
    Stages(As(b, IndirCall), w, sifive, max);
    Stages(As(b, IndirJump), w, sifive, max);
  }

  lemma SwapsReturn(b: Block, w: World, sifive: bool, max: nat)
    ensures Retirement(As(b, CoSwap), w, sifive, max)
            == if sifive then Retirement(As(b, IndirCall), w, sifive, max)
               else Swapped(b, Retirement(As(b, Ret), w, sifive, max), max)
  {
    hide RetireStep, BranchStep, JumpTarget, ReturnStack.Pushed, Popped;
    Stages(As(b, CoSwap), w, sifive, max);
    Stages(As(b, IndirCall), w, sifive, max);
    Stages(As(b, Ret), w, sifive, max);
  }

  lemma TrapStages(b: Block, w: World)
    ensures var n := b.icnt - b.size / 2;
            var m := RetireStep(w.state, n);
            && m.after.trace.Seg? == w.state.trace.Seg?
            && (m.answer.Retired? && m.answer.event == TrapEvent ==> AtIndirect(m.after))
  {
    hide EventOf;
    var n := b.icnt - b.size / 2;
    if RetireStep(w.state, n).answer.Retired? { ReportedIndirect(w.state, n); }
  }

  // ---- Where a block ends ----

  /** Addresses count two bytes for each unit of icnt, from the address of the
      block on, and go on in a block that starts behind it. */
  lemma AddressesRun(b: Block, next: Block, k: nat)
    ensures AddrAt(b, 0) == b.addr && AddrAt(b, k + 1) == (AddrAt(b, k) + 2) % U64
    ensures next.addr == Behind(b) ==> AddrAt(next, k) == AddrAt(b, b.icnt + k)
  {
    TraceFacts.ModSum(b.addr + k * 2, 2);
    TraceFacts.ModSum(b.addr + b.icnt * 2, k * 2);
    assert b.addr + k * 2 + 2 == b.addr + (k + 1) * 2;
    assert b.addr + b.icnt * 2 + k * 2 == b.addr + (b.icnt + k) * 2;
  }

  /** A jump counts from its own address, where a trap on it would be taken. */
  lemma JumpsFromItself(b: Block)
    requires b.size % 2 == 0
    ensures JumpTarget(b) == (AddrAt(b, b.icnt - b.size / 2) + b.off) % U64
  {
    var x := b.addr + (b.icnt - b.size / 2) * 2;
    assert x == b.addr + b.icnt * 2 - b.size;
    var q, r := x / U64, x % U64;
    assert x + b.off == r + b.off + U64 * q;
  }

  /** Once its instructions are retired a block goes on behind itself, or where
      its jump points from its last instruction; a branch by its next outcome, and
      a call leaves the address behind it on the stack. */
  lemma GoesBy(b: Block, w: World, sifive: bool, max: nat)
    requires var a := RetireStep(w.state, b.icnt).answer; a.Retired? && a.icnt == b.icnt
    requires b.size % 2 == 0
    ensures var e, m := Retirement(b, w, sifive, max), RetireStep(w.state, b.icnt);
            var behind, jump := AddrAt(b, b.icnt), (AddrAt(b, b.icnt - b.size / 2) + b.off) % U64;
            && (b.kind.Straight? ==> e == Effect(At(behind), World(m.after, w.stack)))
            && (b.kind.DirJump? ==> e == Effect(At(jump), World(m.after, w.stack)))
            && (b.kind.DirCall? ==>
                  e == Effect(At(jump), World(m.after, if |w.stack| == max then w.stack else w.stack + [behind])))
            && (b.kind.CondBranch? && m.answer.event == ErrorEvent ==>
                  e == Effect(Raised(behind, ErrorEvent), World(m.after, w.stack)))
            && (b.kind.CondBranch? && m.answer.event != ErrorEvent && m.after.trace.tnts != [] ==>
                  e.exit == At(if m.after.trace.tnts[0] then jump else behind))
            && (b.kind.IndirJump? && m.answer.event == IndirectEvent && !m.after.trace.close.owner.Broken? ==>
                  e == Effect(At(m.after.trace.close.target), World(State(m.after.trace.next, true), w.stack)))
  {
    hide RetireStep, AddrAt, JumpTarget;
    JumpsFromItself(b);
    if !b.kind.Trapping? { Stages(b, w, sifive, max); }
    RetiresSynced(w.state, b.icnt);
  }

  lemma RetiresSynced(s: State, n: uint32)
    requires RetireStep(s, n).answer.Retired?
    ensures RetireStep(s, n).after.synced
    ensures RetireStep(s, n).answer.event == IndirectEvent ==> AtIndirect(RetireStep(s, n).after)
  {
  }

  /** If something comes before the end of a block, a trap, a sync of any kind or
      an error is raised at the address it came at, and anything else is not
      expected there. */
  lemma StopsBy(b: Block, w: World, sifive: bool, max: nat)
    requires !b.kind.Trapping?
    requires var a := RetireStep(w.state, b.icnt).answer; a.Retired? && a.icnt < b.icnt
    ensures var m := RetireStep(w.state, b.icnt);
            var event := m.answer.event;
            Retirement(b, w, sifive, max).exit
            == if event in {TrapEvent, DirectSyncEvent, IndirectSyncEvent, SyncEvent, ErrorEvent}
               then Raised(AddrAt(b, m.answer.icnt), event) else Failed(Mismatch)
  {
    hide RetireStep;
    Stages(b, w, sifive, max);
  }

  /** A return goes where the trace says or else to the top of the stack, which is
      taken off either way. */
  lemma ReturnsBy(b: Block, w: World, sifive: bool, max: nat)
    requires b.kind.Ret?
    requires var a := RetireStep(w.state, b.icnt).answer; a.Retired? && a.icnt == b.icnt
    ensures var e, m := Retirement(b, w, sifive, max), RetireStep(w.state, b.icnt);
            var s := w.stack;
            && (m.answer.event == ErrorEvent ==> e == Effect(Raised(AddrAt(b, b.icnt), ErrorEvent), World(m.after, s)))
            && (m.answer.event == IndirectEvent && !m.after.trace.close.owner.Broken? ==>
                  e == Effect(At(m.after.trace.close.target),
                              World(State(m.after.trace.next, true), if s == [] then [] else s[..|s| - 1])))
            && (m.answer.event != ErrorEvent && m.answer.event != IndirectEvent ==>
                  e == if s == [] then Effect(Failed(StackEmpty), World(m.after, s))
                       else Effect(At(s[|s| - 1]), World(m.after, s[..|s| - 1])))
  {
    hide RetireStep, AddrAt;
    Stages(b, w, sifive, max);
    RetiresSynced(w.state, b.icnt);
  }

  /** A block that traps retires all but its last instruction and goes where the
      trap does; whatever comes before that is raised. */
  lemma TrapsBy(b: Block, w: World, sifive: bool, max: nat)
    requires b.kind.Trapping? && b.size % 2 == 0
    ensures var n := b.icnt - b.size / 2;
            var e, m := Retirement(b, w, sifive, max), RetireStep(w.state, n);
            && (m.answer.Refused? ==> e == Effect(Failed(m.answer.error), World(m.after, w.stack)))
            && (m.answer.Retired? && m.answer.icnt < n ==>
                  e == Effect(Raised(AddrAt(b, m.answer.icnt), m.answer.event), World(m.after, w.stack)))
            && (m.answer.Retired? && m.answer.icnt == n && m.answer.event != TrapEvent ==>
                  e == Effect(Failed(Mismatch), World(m.after, w.stack)))
            && (m.answer.Retired? && m.answer.icnt == n && m.answer.event == TrapEvent ==>
                  && AtIndirect(m.after)
                  && (!m.after.trace.close.owner.Broken? ==>
                        e == Effect(At(m.after.trace.close.target), World(State(m.after.trace.next, true), w.stack))))
  {
    hide RetireStep, AddrAt;
    TrapStages(b, w);
    RetiresNoMore(w.state, b.icnt - b.size / 2);
  }

  lemma RetiresNoMore(s: State, n: uint32)
    ensures var a := RetireStep(s, n).answer; a.Refused? || (a.Retired? && a.icnt <= n)
  {
  }

  // ---- Calls and returns ----

  // What retiring the block does to the return stack.
  function ActOf(b: Block, sifive: bool): Act
  {
    match b.kind
    case DirCall | IndirCall => Push(Behind(b))
    case Ret => Pop
    case CoSwap => if sifive then Push(Behind(b)) else Swap(Behind(b))
    case _ => Keep
  }

  function ActsOf(bs: seq<Block>, sifive: bool): seq<Act>
  {
    if bs == [] then [] else [ActOf(bs[0], sifive)] + ActsOf(bs[1..], sifive)
  }

  // The stack moves the same way whether a return is explicit or not; if it is
  // not, control goes to the top of the stack.
  lemma StackFollows(b: Block, w: World, sifive: bool, max: nat)
    requires Retirement(b, w, sifive, max).exit.At?
    ensures var e, act := Retirement(b, w, sifive, max), ActOf(b, sifive);
            && e.after.stack == Applied(w.stack, act, max)
            && ((act.Pop? || act.Swap?) && !Explicit(b, w.state) ==> w.stack != [] && e.exit.target == Top(w.stack))
  {
    hide RetireStep, BranchStep;
    if !b.kind.Trapping? { Stages(b, w, sifive, max); }
  }

  // A block that returns: whether the trace said where, and where.
  datatype Landing = Landing(explicit: bool, target: uint64)

  /** Retire blocks in a row, up to the first that does not just go on: where
      each went, where the returns went, and what is left. */
  function Path(w: World, bs: seq<Block>, sifive: bool, max: nat): (seq<Exit>, seq<Landing>, World)
    decreases |bs|
  {
    if bs == [] then ([], [], w)
    else
      var e := Retirement(bs[0], w, sifive, max);
      if !e.exit.At? then ([e.exit], [], e.after)
      else
        var (exits, gone, after) := Path(e.after, bs[1..], sifive, max);
        var act := ActOf(bs[0], sifive);
        ([e.exit] + exits,
         (if act.Pop? || act.Swap? then [Landing(Explicit(bs[0], w.state), e.exit.target)] else []) + gone, after)
  }

  predicate GoesOn(exits: seq<Exit>)
  {
    forall i :: 0 <= i < |exits| ==> exits[i].At?
  }

  // An implicit return goes where the stack says.
  ghost predicate Guided(gone: seq<Landing>, tops: seq<seq<uint64>>)
  {
    |gone| == |tops| && forall i :: 0 <= i < |gone| && !gone[i].explicit ==> tops[i] == [gone[i].target]
  }

  lemma {:induction false} PathFollowsStack(w: World, bs: seq<Block>, sifive: bool, max: nat)
    requires GoesOn(Path(w, bs, sifive, max).0)
    ensures Path(w, bs, sifive, max).2.stack == AllApplied(w.stack, ActsOf(bs, sifive), max)
    ensures Guided(Path(w, bs, sifive, max).1, Tops(w.stack, ActsOf(bs, sifive), max))
    decreases |bs|
  {
    hide Retirement, Applied, Explicit, GoesOn, Guided, Tops, AllApplied;
    var acts := ActsOf(bs, sifive);
    StackSteps(w.stack, acts, max);
    if bs == [] {
      GuidedNone();
    } else {
      var e := Retirement(bs[0], w, sifive, max);
      var (exits, gone, _) := Path(e.after, bs[1..], sifive, max);
      GoesOnTail(e.exit, if e.exit.At? then exits else []);
      assert [e.exit] + [] == [e.exit];
      StackFollows(bs[0], w, sifive, max);
      PathFollowsStack(e.after, bs[1..], sifive, max);
      assert acts[1..] == ActsOf(bs[1..], sifive);
      if acts[0].Pop? || acts[0].Swap? {
        GuidedFirst(Landing(Explicit(bs[0], w.state), e.exit.target), if w.stack == [] then [] else [Top(w.stack)],
                    gone, Tops(e.after.stack, acts[1..], max));
      } else {
        assert [] + gone == gone;
        assert [] + Tops(e.after.stack, acts[1..], max) == Tops(e.after.stack, acts[1..], max);
      }
    }
  }

  lemma GoesOnTail(x: Exit, exits: seq<Exit>)
    ensures GoesOn([x] + exits) ==> x.At? && GoesOn(exits)
  {
    if GoesOn([x] + exits) {
      assert ([x] + exits)[0].At?;
      forall i | 0 <= i < |exits| ensures exits[i].At? { assert ([x] + exits)[i + 1].At?; }
    }
  }

  lemma GuidedNone()
    ensures Guided([], [])
  {
  }

  lemma GuidedFirst(h: Landing, top: seq<uint64>, gone: seq<Landing>, tops: seq<seq<uint64>>)
    requires Guided(gone, tops) && (!h.explicit ==> top == [h.target])
    ensures Guided([h] + gone, [top] + tops)
  {
  }

  /** Whatever the trace says of some returns and not of others, a properly
      nested run that is no deeper than the stack leaves it as it was, and every
      return the trace does not mention goes behind its own call. */
  lemma CallsAndReturnsMatch(w: World, bs: seq<Block>, walk: Walk, sifive: bool, max: nat)
    requires ActsOf(bs, sifive) == Acts(walk) && |w.stack| + Depth(walk) <= max
    requires GoesOn(Path(w, bs, sifive, max).0)
    ensures Path(w, bs, sifive, max).2.stack == w.stack
    ensures Guided(Path(w, bs, sifive, max).1, Matches(walk))
  {
    hide Path, ActsOf, Acts, Guided;
    PathFollowsStack(w, bs, sifive, max);
    ReturnsMatch(w.stack, walk, max);
  }

  // ---- Retiring a block ----

  ghost function WorldOf(d: TraceDecoder.Decoder): World
    requires d.Inv() && d.stack.Valid()
    reads d, d.stack, d.stack.entries
  {
    World(StateOf(d), d.stack.Contents())
  }

  // The exit is the one due, and if the trace goes on so does the decoder.
  ghost predicate Does(d: TraceDecoder.Decoder, seg: bool, e: Effect, x: Exit)
    reads d, d.stack, d.stack.entries
  {
    && d.stack.Valid()
    && ((x.Failed? && d.Stuck(x.error))
        || (x == e.exit && d.stack.Contents() == e.after.stack
            && (!x.Failed? || seg ==> d.Inv() && StateOf(d) == e.after.state)))
  }

  class InstBlock {
    const code: Block
    var taken: bool       // the conditional branch was taken
    var stack0: nat       // return stack before and after a call
    var stack1: nat
    var stackSize: nat    // return stack before a return
    var iro: bool         // the return was implicit
    var coswap: bool

    constructor (code: Block)
      ensures this.code == code
    {
      this.code := code;
      taken, stack0, stack1, stackSize, iro, coswap := false, 0, 0, 0, false, false;
    }

    // Retire the instructions of the block, up to whatever comes first.
    method CheckExc(d: TraceDecoder.Decoder) returns (c: Check, ghost a: Answer)
      requires d.Linked() && d.Inv()
      modifies d`msg, d`msgPresent, d`left, d`resHists, d`resIcnt, d`resTnts, d`consumedIcnt, d.msgs, d.msgs.buffer
      ensures d.Linked() && c == Checked(code, a)
      ensures Answers(d, old(StateOf(d)), RetireStep(old(StateOf(d)), code.icnt), a)
      ensures c.Passed? && c.event != NoEvent ==> d.msgPresent
    {
      hide TraceDecoder.Decoder.Linked, TraceDecoder.Decoder.Inv, TraceDecoder.Decoder.View, Less, EventOf;
      var retired, event := d.TryRetire(code.icnt);
      a := if retired.Ok? then Retired(retired.value, event) else Refused(retired.error);
      if retired.Err? {
        return Thrown(Failed(retired.error)), a;
      }
      if retired.value < code.icnt {
        match event
        case TrapEvent | DirectSyncEvent | IndirectSyncEvent | SyncEvent | ErrorEvent =>
          return Thrown(Raised(AddrAt(code, retired.value), event)), a;
        case _ =>
          return Thrown(Failed(Mismatch)), a;
      }
      return Passed(event), a;
    }

    // Nothing but the next instruction follows.
    method RetireStraight(d: TraceDecoder.Decoder) returns (x: Exit)
      requires d.Linked() && d.Inv() && d.stack.Valid() && code.kind.Straight?
      modifies this, d, d.msgs, d.msgs.buffer, d.stack, d.stack.entries
      ensures d.Linked()
              && Does(d, old(StateOf(d)).trace.Seg?,
                      Retirement(code, old(WorldOf(d)), d.msgs.hw.quirkSifive, d.stack.max), x)
      ensures d.stack.entries == old(d.stack.entries) || fresh(d.stack.entries)
    {
      hide TraceDecoder.Decoder.Linked, TraceDecoder.Decoder.Inv, TraceDecoder.Decoder.View, TraceDecoder.Decoder.Stuck,
           ReturnStack.RetStack.Valid, ReturnStack.RetStack.Contents, Less, EventOf, RetireStep, Retirement;
      ghost var w := WorldOf(d);
      Stages(code, w, d.msgs.hw.quirkSifive, d.stack.max);
      var c, a := CheckExc(d);
      if c.Thrown? {
        return c.exit;
      }
      return At(Behind(code));
    }

    // The jump goes where the code says.
    method RetireDirJump(d: TraceDecoder.Decoder) returns (x: Exit)
      requires d.Linked() && d.Inv() && d.stack.Valid() && code.kind.DirJump?
      modifies this, d, d.msgs, d.msgs.buffer, d.stack, d.stack.entries
      ensures d.Linked()
              && Does(d, old(StateOf(d)).trace.Seg?,
                      Retirement(code, old(WorldOf(d)), d.msgs.hw.quirkSifive, d.stack.max), x)
      ensures d.stack.entries == old(d.stack.entries) || fresh(d.stack.entries)
    {
      hide TraceDecoder.Decoder.Linked, TraceDecoder.Decoder.Inv, TraceDecoder.Decoder.View, TraceDecoder.Decoder.Stuck,
           ReturnStack.RetStack.Valid, ReturnStack.RetStack.Contents, Less, EventOf, RetireStep, Retirement;
      ghost var w := WorldOf(d);
      Stages(code, w, d.msgs.hw.quirkSifive, d.stack.max);
      var c, a := CheckExc(d);
      if c.Thrown? {
        return c.exit;
      }
      return At(JumpTarget(code));
    }

    // A call pushes the address behind it.
    method RetireDirCall(d: TraceDecoder.Decoder) returns (x: Exit)
      requires d.Linked() && d.Inv() && d.stack.Valid() && code.kind.DirCall?
      modifies this, d, d.msgs, d.msgs.buffer, d.stack, d.stack.entries
      ensures d.Linked()
              && Does(d, old(StateOf(d)).trace.Seg?,
                      Retirement(code, old(WorldOf(d)), d.msgs.hw.quirkSifive, d.stack.max), x)
      ensures d.stack.entries == old(d.stack.entries) || fresh(d.stack.entries)
      ensures x.At? ==> stack0 == |old(d.stack.Contents())| && stack1 == |d.stack.Contents()|
    {
      hide TraceDecoder.Decoder.Linked, TraceDecoder.Decoder.Inv, TraceDecoder.Decoder.View, TraceDecoder.Decoder.Stuck,
           ReturnStack.RetStack.Valid, ReturnStack.RetStack.Contents, Less, EventOf, RetireStep, Retirement;
      ghost var w := WorldOf(d);
      Stages(code, w, d.msgs.hw.quirkSifive, d.stack.max);
      var c, a := CheckExc(d);
      if c.Thrown? {
        return c.exit;
      }
      stack0 := d.stack.used;
      d.PushCall(Behind(code));
      stack1 := d.stack.used;
      return At(JumpTarget(code));
    }

    // A conditional branch goes where the next outcome says.
    method RetireCondBranch(d: TraceDecoder.Decoder) returns (x: Exit)
      requires d.Linked() && d.Inv() && d.stack.Valid() && code.kind.CondBranch?
      modifies this, d, d.msgs, d.msgs.buffer, d.stack, d.stack.entries
      ensures d.Linked()
              && Does(d, old(StateOf(d)).trace.Seg?,
                      Retirement(code, old(WorldOf(d)), d.msgs.hw.quirkSifive, d.stack.max), x)
      ensures d.stack.entries == old(d.stack.entries) || fresh(d.stack.entries)
      ensures x.At? ==> x.target == if taken then JumpTarget(code) else Behind(code)
    {
      hide TraceDecoder.Decoder.Linked, TraceDecoder.Decoder.Inv, TraceDecoder.Decoder.View, TraceDecoder.Decoder.Stuck,
           ReturnStack.RetStack.Valid, ReturnStack.RetStack.Contents, Less, EventOf, RetireStep, Retirement;
      ghost var w := WorldOf(d);
      Stages(code, w, d.msgs.hw.quirkSifive, d.stack.max);
      var c, a := CheckExc(d);
      if c.Thrown? {
        return c.exit;
      }
      if c.event == ErrorEvent {
        return Raised(Behind(code), c.event);
      }
      var tnt := d.NextTnt();
      if tnt.Err? {
        return Failed(tnt.error);
      }
      taken := tnt.value;
      return At(if taken then JumpTarget(code) else Behind(code));
    }

    // Take the indirect branch reported.
    method TakeIndirect(d: TraceDecoder.Decoder) returns (x: Exit)
      requires d.Linked() && d.Inv() && d.stack.Valid() && d.msgPresent && AtIndirect(StateOf(d))
      modifies d, d.msgs, d.msgs.buffer, d.stack
      ensures d.Linked() && Does(d, true, Indirectly(old(WorldOf(d))), x)
      ensures d.stack.entries == old(d.stack.entries)
    {
      hide TraceDecoder.Decoder.Linked, TraceDecoder.Decoder.Inv, TraceDecoder.Decoder.View, TraceDecoder.Decoder.Stuck,
           ReturnStack.RetStack.Valid, ReturnStack.RetStack.Contents;
      var indir := d.NextIndirect();
      if indir.Err? {
        return Failed(indir.error);
      }
      return At(indir.value.target);
    }

    // An indirect jump goes where the trace says.
    method RetireIndirJump(d: TraceDecoder.Decoder) returns (x: Exit)
      requires d.Linked() && d.Inv() && d.stack.Valid()
      modifies d, d.msgs, d.msgs.buffer, d.stack, d.stack.entries
      ensures d.Linked()
              && Does(d, old(StateOf(d)).trace.Seg?,
                      Retirement(As(code, IndirJump), old(WorldOf(d)), d.msgs.hw.quirkSifive, d.stack.max), x)
      ensures d.stack.entries == old(d.stack.entries) || fresh(d.stack.entries)
    {
      hide TraceDecoder.Decoder.Linked, TraceDecoder.Decoder.Inv, TraceDecoder.Decoder.View, TraceDecoder.Decoder.Stuck,
           ReturnStack.RetStack.Valid, ReturnStack.RetStack.Contents, Less, EventOf, RetireStep, Retirement;
      Stages(As(code, IndirJump), WorldOf(d), d.msgs.hw.quirkSifive, d.stack.max);
      var c, a := CheckExc(d);
      if c.Thrown? {
        return c.exit;
      }
      if c.event != IndirectEvent {
        return Failed(Mismatch);
      }
      x := TakeIndirect(d);
    }

    // An indirect call also pushes the address behind it.
    method RetireIndirCall(d: TraceDecoder.Decoder) returns (x: Exit)
      requires d.Linked() && d.Inv() && d.stack.Valid()
      modifies this, d, d.msgs, d.msgs.buffer, d.stack, d.stack.entries
      ensures d.Linked()
              && Does(d, old(StateOf(d)).trace.Seg?,
                      Retirement(As(code, IndirCall), old(WorldOf(d)), d.msgs.hw.quirkSifive, d.stack.max), x)
      ensures d.stack.entries == old(d.stack.entries) || fresh(d.stack.entries)
      ensures x.At? ==> stack0 == |old(d.stack.Contents())| && stack1 == |d.stack.Contents()|
      ensures iro == old(iro) && coswap == old(coswap)
    {
      hide TraceDecoder.Decoder.Linked, TraceDecoder.Decoder.Inv, TraceDecoder.Decoder.View, TraceDecoder.Decoder.Stuck,
           ReturnStack.RetStack.Valid, ReturnStack.RetStack.Contents, Less, EventOf, RetireStep, Retirement;
      CallsJump(code, WorldOf(d), d.msgs.hw.quirkSifive, d.stack.max);
      x := RetireIndirJump(d);
      if !x.At? {
        return;
      }
      stack0 := d.stack.used;
      d.PushCall(Behind(code));
      stack1 := d.stack.used;
    }

    method TakeTop(d: TraceDecoder.Decoder) returns (r: Result<uint64>)
      requires d.Inv() && d.stack.Valid()
      modifies d.stack
      ensures d.stack.Valid() && d.stack.entries == old(d.stack.entries)
      ensures d.stack.Contents() == Popped(old(d.stack.Contents()))
      ensures r == if old(d.stack.Contents()) == [] then Err(StackEmpty) else Ok(Top(old(d.stack.Contents())))
      ensures d.Inv() && StateOf(d) == old(StateOf(d))
    {
      hide TraceDecoder.Decoder.Inv, TraceDecoder.Decoder.View, ReturnStack.RetStack.Valid,
           ReturnStack.RetStack.Contents;
      r := d.PopRet();
    }

    // Leave by what the event says, or else by the return stack.
    method ReturnBy(d: TraceDecoder.Decoder, event: Event) returns (x: Exit)
      requires d.Linked() && d.Inv() && d.stack.Valid()
      requires event == IndirectEvent ==> d.msgPresent && AtIndirect(StateOf(d))
      modifies this, d, d.msgs, d.msgs.buffer, d.stack
      ensures d.Linked() && Does(d, old(StateOf(d)).trace.Seg?, Returned(code, old(WorldOf(d)), event), x)
      ensures d.stack.entries == old(d.stack.entries)
      ensures x.At? ==> stackSize == |old(d.stack.Contents())| && iro == (event != IndirectEvent)
      ensures stack0 == old(stack0) && coswap == old(coswap)
    {
      hide TraceDecoder.Decoder.Linked, TraceDecoder.Decoder.Inv, TraceDecoder.Decoder.View, TraceDecoder.Decoder.Stuck,
           ReturnStack.RetStack.Valid, ReturnStack.RetStack.Contents, Indirectly, Top;
      if event == ErrorEvent {
        return Raised(Behind(code), event);
      }
      stackSize := d.stack.used;
      iro := false;
      if event == IndirectEvent {
        var _ := TakeTop(d);
        x := TakeIndirect(d);
        return;
      }
      var rc := TakeTop(d);
      if rc.Err? {
        return Failed(rc.error);
      }
      iro := true;
      return At(rc.value);
    }

    /** A return takes the top off the return stack, and goes there unless the
        trace says where. */
    method RetireRet(d: TraceDecoder.Decoder) returns (x: Exit)
      requires d.Linked() && d.Inv() && d.stack.Valid()
      modifies this, d, d.msgs, d.msgs.buffer, d.stack, d.stack.entries
      ensures d.Linked()
              && Does(d, old(StateOf(d)).trace.Seg?,
                      Retirement(As(code, Ret), old(WorldOf(d)), d.msgs.hw.quirkSifive, d.stack.max), x)
      ensures d.stack.entries == old(d.stack.entries) || fresh(d.stack.entries)
      ensures x.At? ==> stackSize == |old(d.stack.Contents())|
      ensures x.At? ==> iro == !Explicit(code, old(StateOf(d)))
      ensures stack0 == old(stack0) && coswap == old(coswap)
    {
      hide TraceDecoder.Decoder.Linked, TraceDecoder.Decoder.Inv, TraceDecoder.Decoder.View, TraceDecoder.Decoder.Stuck,
           ReturnStack.RetStack.Valid, ReturnStack.RetStack.Contents, Less, EventOf, RetireStep, Retirement;
      Stages(As(code, Ret), WorldOf(d), d.msgs.hw.quirkSifive, d.stack.max);
      var c, a := CheckExc(d);
      if c.Thrown? {
        return c.exit;
      }
      x := ReturnBy(d, c.event);
    }

    // A coroutine swap is a return and a call at once; the quirk skips the return.
    method RetireCoSwap(d: TraceDecoder.Decoder) returns (x: Exit)
      requires d.Linked() && d.Inv() && d.stack.Valid()
      modifies this, d, d.msgs, d.msgs.buffer, d.stack, d.stack.entries
      ensures d.Linked()
              && Does(d, old(StateOf(d)).trace.Seg?,
                      Retirement(As(code, CoSwap), old(WorldOf(d)), d.msgs.hw.quirkSifive, d.stack.max), x)
      ensures d.stack.entries == old(d.stack.entries) || fresh(d.stack.entries)
      ensures x.At? ==> stack0 == |old(d.stack.Contents())| && stack1 == |d.stack.Contents()|
      ensures x.At? ==> coswap == !d.msgs.hw.quirkSifive
    {
      hide TraceDecoder.Decoder.Linked, TraceDecoder.Decoder.Inv, TraceDecoder.Decoder.View, TraceDecoder.Decoder.Stuck,
           ReturnStack.RetStack.Valid, ReturnStack.RetStack.Contents, Less, EventOf, RetireStep, Retirement;
      SwapsReturn(code, WorldOf(d), d.msgs.hw.quirkSifive, d.stack.max);
      stack0 := d.stack.used;
      iro := false;
      coswap := false;
      if d.msgs.hw.quirkSifive {
        x := RetireIndirCall(d);
        if !x.At? {
          return;
        }
      } else {
        coswap := true;
        x := RetireRet(d);
        if !x.At? {
          return;
        }
        d.PushCall(Behind(code));
      }
      stack1 := d.stack.used;
    }

    // A trap is taken at the start of the last instruction.
    method RetireInt(d: TraceDecoder.Decoder) returns (x: Exit)
      requires d.Linked() && d.Inv() && d.stack.Valid()
      modifies this, d, d.msgs, d.msgs.buffer, d.stack, d.stack.entries
      ensures d.Linked()
              && Does(d, old(StateOf(d)).trace.Seg?,
                      Retirement(As(code, Trapping), old(WorldOf(d)), d.msgs.hw.quirkSifive, d.stack.max), x)
      ensures d.stack.entries == old(d.stack.entries) || fresh(d.stack.entries)
    {
      hide TraceDecoder.Decoder.Linked, TraceDecoder.Decoder.Inv, TraceDecoder.Decoder.View, TraceDecoder.Decoder.Stuck,
           ReturnStack.RetStack.Valid, ReturnStack.RetStack.Contents, Less, EventOf;
      var n := code.icnt - code.size / 2;
      TrapStages(code, WorldOf(d));
      var retired, event := d.TryRetire(n);
      if retired.Err? {
        return Failed(retired.error);
      }
      if retired.value < n {
        return Raised(AddrAt(code, retired.value), event);
      }
      if event != TrapEvent {
        return Failed(Mismatch);
      }
      x := TakeIndirect(d);
    }

    method Retire(d: TraceDecoder.Decoder) returns (x: Exit)
      requires d.Linked() && d.Inv() && d.stack.Valid()
      modifies this, d, d.msgs, d.msgs.buffer, d.stack, d.stack.entries
      ensures d.Linked()
              && Does(d, old(StateOf(d)).trace.Seg?,
                      Retirement(code, old(WorldOf(d)), d.msgs.hw.quirkSifive, d.stack.max), x)
      ensures d.stack.entries == old(d.stack.entries) || fresh(d.stack.entries)
    {
      hide Retirement, Does, TraceDecoder.Decoder.Linked, TraceDecoder.Decoder.Inv, TraceDecoder.Decoder.View,
           ReturnStack.RetStack.Valid;
      match code.kind
      case Straight => x := RetireStraight(d);
      case DirJump => x := RetireDirJump(d);
      case CondBranch => x := RetireCondBranch(d);
      case DirCall => x := RetireDirCall(d);
      case IndirJump => x := RetireIndirJump(d);
      case IndirCall => x := RetireIndirCall(d);
      case Ret => x := RetireRet(d);
      case CoSwap => x := RetireCoSwap(d);
      case Trapping => x := RetireInt(d);
    }
  }

  // ---- A run of blocks ----

  function Codes(blocks: seq<InstBlock>): (codes: seq<Block>)
    ensures |codes| == |blocks| && forall i :: 0 <= i < |blocks| ==> codes[i] == blocks[i].code
  {
    if blocks == [] then [] else [blocks[0].code] + Codes(blocks[1..])
  }

  // Path with the first blocks already retired.
  ghost predicate OnPath(w: World, bs: seq<Block>, sifive: bool, max: nat, exits: seq<Exit>, at: World,
                         rest: seq<Block>)
  {
    var p := Path(at, rest, sifive, max);
    Path(w, bs, sifive, max).0 == exits + p.0 && Path(w, bs, sifive, max).2 == p.2
  }

  lemma OnPathStep(w: World, bs: seq<Block>, sifive: bool, max: nat, exits: seq<Exit>, at: World, rest: seq<Block>)
    requires OnPath(w, bs, sifive, max, exits, at, rest)
    ensures rest == [] ==> Path(w, bs, sifive, max).0 == exits && Path(w, bs, sifive, max).2 == at
    ensures rest != [] ==>
              var e := Retirement(rest[0], at, sifive, max);
              && exits + [e.exit] <= Path(w, bs, sifive, max).0
              && if e.exit.At? then OnPath(w, bs, sifive, max, exits + [e.exit], e.after, rest[1..])
                 else Path(w, bs, sifive, max).0 == exits + [e.exit] && Path(w, bs, sifive, max).2 == e.after
  {
    hide Retirement;
    if rest != [] {
      var e := Retirement(rest[0], at, sifive, max);
      if e.exit.At? {
        var more := Path(e.after, rest[1..], sifive, max).0;
        assert exits + ([e.exit] + more) == exits + [e.exit] + more;
      }
    } else {
      assert exits + [] == exits;
    }
  }

  lemma OnPathStart(w: World, bs: seq<Block>, sifive: bool, max: nat)
    ensures OnPath(w, bs, sifive, max, [], w, bs)
  {
    assert [] + Path(w, bs, sifive, max).0 == Path(w, bs, sifive, max).0;
  }

  /** Retire blocks in a row, up to the first that does not just go on. */
  method RetireAll(d: TraceDecoder.Decoder, blocks: seq<InstBlock>) returns (exits: seq<Exit>)
    requires d.Linked() && d.Inv() && d.stack.Valid()
    modifies blocks, d, d.msgs, d.msgs.buffer, d.stack, d.stack.entries
    ensures d.Linked() && d.stack.Valid()
    ensures var p := Path(old(WorldOf(d)), Codes(blocks), d.msgs.hw.quirkSifive, d.stack.max);
            || (exits == p.0 && (GoesOn(exits) ==> d.Inv() && WorldOf(d) == p.2))
            || (exits != [] && exits[|exits| - 1].Failed? && d.Stuck(exits[|exits| - 1].error)
                && exits[..|exits| - 1] <= p.0)
  {
    hide TraceDecoder.Decoder.Linked, TraceDecoder.Decoder.Inv, TraceDecoder.Decoder.View, TraceDecoder.Decoder.Stuck,
         ReturnStack.RetStack.Valid, ReturnStack.RetStack.Contents, Retirement, OnPath, Path;
    ghost var w, bs, sifive, max := WorldOf(d), Codes(blocks), d.msgs.hw.quirkSifive, d.stack.max;
    exits := [];
    OnPathStart(w, bs, sifive, max);
    var i := 0;
    while i < |blocks|
      invariant i <= |blocks| && d.Linked() && d.Inv() && d.stack.Valid()
      invariant d.stack.entries == old(d.stack.entries) || fresh(d.stack.entries)
      invariant OnPath(w, bs, sifive, max, exits, WorldOf(d), bs[i..])
    {
      OnPathStep(w, bs, sifive, max, exits, WorldOf(d), bs[i..]);
      var x := blocks[i].Retire(d);
      exits := exits + [x];
      if !x.At? {
        assert !exits[|exits| - 1].At?;
        return;
      }
      i := i + 1;
    }
    assert bs[i..] == [];
    OnPathStep(w, bs, sifive, max, exits, WorldOf(d), []);
  }
}
