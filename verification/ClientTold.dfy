// What a client is given of a sender's reports: the events of the segments it
// finishes, with their addresses and times.
module ClientTold {
  import opened Results
  import opened MsgTypes
  import opened TraceSemantics
  import opened TraceReports
  import opened TraceRuns
  import Stream

  // The notes of finished segments.
  function Noted(done: seq<Piece>): seq<Note>
  {
    if done == [] then [] else [Note(AddressOf(done[0].close), done[0].time)] + Noted(done[1..])
  }

  lemma {:induction false} NotesBefore(done: seq<Piece>, t: Trace)
    ensures Notes(Before(done, t)) == Noted(done) + Notes(t)
  {
    hide AddressOf;
    if done == [] {
      assert [] + Notes(t) == Notes(t);
    } else {
      NotesBefore(done[1..], t);
      var first := [Note(AddressOf(done[0].close), done[0].time)];
      assert first + (Noted(done[1..]) + Notes(t)) == first + Noted(done[1..]) + Notes(t);
    }
  }

  lemma NotedEmpty(t: Trace)
    ensures Whole(EMPTY, t) == t
  {
    assert [] + t.tnts == t.tnts;
  }

  /** However a client asks, the events of the segments it finishes have the
      addresses and the times that the first of the sender's reports call for. */
  lemma FinishedTold(hw: HwCfg, p: Sender, rs: seq<Report>, t: uint64, end: Stream.End, ops: seq<Op>)
    requires AllSendable(hw, rs, true)
    ensures var start := State(Resync(hw, Sent(hw, p, rs), end), false);
            Noted(Run(start, ops, EMPTY).2.done) <= Joined(Told(hw, p, rs, t, true, end))
  {
    hide Run, Resync, Sent, AllSendable, Joined, Told, Before, Notes, Noted;
    var trace := Resync(hw, Sent(hw, p, rs), end);
    var r := Run(State(trace, false), ops, EMPTY);
    Missed(hw, p, rs, t, end);
    RunConserves(State(trace, false), ops, EMPTY);
    NotedEmpty(trace);
    NotesBefore(r.2.done, More(r.1.trace, r.2.icnt, r.2.tnts));
  }

  // ---- The answers ----

  // The addresses a client is answered.
  function Given(answers: seq<Answer>): seq<uint64>
  {
    if answers == [] then []
    else GivenBy(answers[0]) + Given(answers[1..])
  }

  function GivenBy(a: Answer): seq<uint64>
  {
    match a
    case Went(to) => [to.target]
    case SyncedAt(_, addr) => [addr]
    case _ => []
  }

  function Addresses(notes: seq<Note>): seq<uint64>
  {
    if notes == [] then [] else AddressIn(notes[0]) + Addresses(notes[1..])
  }

  function AddressIn(n: Note): seq<uint64>
  {
    if n.addr.Some? then [n.addr.value] else []
  }

  lemma {:induction false} AddressesAppend(a: seq<Note>, b: seq<Note>)
    ensures Addresses(a + b) == Addresses(a) + Addresses(b)
  {
    hide AddressIn;
    if a == [] {
      assert a + b == b && [] + Addresses(b) == Addresses(b);
    } else {
      assert (a + b)[1..] == a[1..] + b;
      AddressesAppend(a[1..], b);
      assert AddressIn(a[0]) + (Addresses(a[1..]) + Addresses(b)) == AddressIn(a[0]) + Addresses(a[1..]) + Addresses(b);
    }
  }

  lemma {:induction false} NotedAppend(done: seq<Piece>, p: Piece)
    ensures Noted(done + [p]) == Noted(done) + [Note(AddressOf(p.close), p.time)]
  {
    hide AddressOf;
    if done == [] {
      assert done + [p] == [p] && [p][1..] == [];
    } else {
      assert (done + [p])[1..] == done[1..] + [p];
      NotedAppend(done[1..], p);
    }
  }

  // An answer gives the address of the segment it finishes, if that has one.
  lemma StepGives(s: State, op: Op, l: Ledger)
    ensures var m := Step(s, op);
            Addresses(Noted(Booked(l, s, m).done)) == Addresses(Noted(l.done)) + GivenBy(m.answer)
  {
    hide Noted, Addresses, Less;
    var m := Step(s, op);
    if m.closed {
      var p := Piece(l.icnt, l.tnts, s.trace.close, s.trace.time, s.trace.icnt, s.trace.tnts);
      var note := Note(AddressOf(p.close), p.time);
      NotedAppend(l.done, p);
      AddressesAppend(Noted(l.done), [note]);
      OneAddress(note);
    } else {
      assert Addresses(Noted(l.done)) + [] == Addresses(Noted(l.done));
    }
  }

  lemma OneAddress(n: Note)
    ensures Addresses([n]) == AddressIn(n)
  {
    assert [n][1..] == [] && AddressIn(n) + [] == AddressIn(n);
  }

  lemma {:induction false} RunGives(s: State, ops: seq<Op>, l: Ledger)
    ensures var r := Run(s, ops, l);
            Addresses(Noted(r.2.done)) == Addresses(Noted(l.done)) + Given(r.0)
    decreases |ops|
  {
    hide Noted, Addresses, Step, Booked, GivenBy;
    var before := Addresses(Noted(l.done));
    if ops == [] {
      assert before + [] == before;
    } else {
      var m := Step(s, ops[0]);
      StepGives(s, ops[0], l);
      if m.answer.Refused? {
        assert [m.answer][1..] == [] && GivenBy(m.answer) + [] == GivenBy(m.answer);
      } else {
        var l1 := Booked(l, s, m);
        var more := Run(m.after, ops[1..], l1).0;
        RunGives(m.after, ops[1..], l1);
        assert ([m.answer] + more)[1..] == more;
        assert before + (GivenBy(m.answer) + Given(more)) == before + GivenBy(m.answer) + Given(more);
      }
    }
  }

  /** The addresses a client is answered are the first of those that the sender's
      reports call for. */
  lemma AddressesTold(hw: HwCfg, p: Sender, rs: seq<Report>, t: uint64, end: Stream.End, ops: seq<Op>)
    requires AllSendable(hw, rs, true)
    ensures var start := State(Resync(hw, Sent(hw, p, rs), end), false);
            Given(Run(start, ops, EMPTY).0) <= Addresses(Joined(Told(hw, p, rs, t, true, end)))
  {
    hide Run, Resync, Sent, AllSendable, Joined, Told, Given;
    var start := State(Resync(hw, Sent(hw, p, rs), end), false);
    var r, all := Run(start, ops, EMPTY), Joined(Told(hw, p, rs, t, true, end));
    FinishedTold(hw, p, rs, t, end, ops);
    RunGives(start, ops, EMPTY);
    NothingNoted(Given(r.0));
    AddressesAppend(Noted(r.2.done), all[|Noted(r.2.done)|..]);
    assert Noted(r.2.done) + all[|Noted(r.2.done)|..] == all;
  }

  lemma NothingNoted(given: seq<uint64>)
    ensures Addresses(Noted([])) + given == given
  {
  }

  // Fewer answers give fewer addresses, and a refusal none.
  lemma {:induction false} GivenPrefix(a: seq<Answer>, b: seq<Answer>)
    requires a <= b
    ensures Given(a) <= Given(b)
  {
    hide GivenBy;
    if a != [] {
      assert a[1..] <= b[1..];
      GivenPrefix(a[1..], b[1..]);
    }
  }

  lemma {:induction false} GivenRefused(a: seq<Answer>, e: Error)
    ensures Given(a + [Refused(e)]) == Given(a)
  {
    if a == [] {
      assert a + [Refused(e)] == [Refused(e)] && [Refused(e)][1..] == [];
    } else {
      assert (a + [Refused(e)])[1..] == a[1..] + [Refused(e)];
      GivenRefused(a[1..], e);
    }
  }
}
