// Calls and returns as they move a bounded return stack.
module CallStack {
  import opened MsgTypes
  import ReturnStack

  // What one block of instructions does to the return stack.
  datatype Act = Keep | Push(ret: uint64) | Pop | Swap(ret: uint64)

  function Top(s: seq<uint64>): uint64
    requires s != []
  {
    s[|s| - 1]
  }

  function Popped(s: seq<uint64>): seq<uint64>
  {
    if s == [] then [] else s[..|s| - 1]
  }

  function Applied(s: seq<uint64>, a: Act, max: nat): seq<uint64>
  {
    match a
    case Keep => s
    case Push(ret) => ReturnStack.Pushed(s, ret, max)
    case Pop => Popped(s)
    case Swap(ret) => ReturnStack.Pushed(Popped(s), ret, max)
  }

  function AllApplied(s: seq<uint64>, acts: seq<Act>, max: nat): seq<uint64>
    decreases |acts|
  {
    if acts == [] then s else AllApplied(Applied(s, acts[0], max), acts[1..], max)
  }

  // Where each return goes by the stack: nowhere if it is empty.
  function Tops(s: seq<uint64>, acts: seq<Act>, max: nat): seq<seq<uint64>>
    decreases |acts|
  {
    if acts == [] then []
    else
      (if acts[0].Pop? || acts[0].Swap? then [if s == [] then [] else [Top(s)]] else [])
      + Tops(Applied(s, acts[0], max), acts[1..], max)
  }

  // ---- Properly nested runs ----

  /** A run in which every call returns: a visit to a function with the address
      its call returns to, what happens inside, how it is left, and what comes
      after. A coroutine is left by swapping to it, and swapped back from. */
  datatype Walk = End | Step(rest: Walk) | Visit(ret: uint64, inner: Walk, exit: Leave, rest: Walk)

  datatype Leave = Return | Swapping(ret: uint64, inner: Walk, exit: Leave)

  function Acts(w: Walk): seq<Act>
  {
    match w
    case End => []
    case Step(rest) => [Keep] + Acts(rest)
    case Visit(ret, inner, exit, rest) => [Push(ret)] + Acts(inner) + LeaveActs(exit) + Acts(rest)
  }

  function LeaveActs(e: Leave): seq<Act>
  {
    match e
    case Return => [Pop]
    case Swapping(ret, inner, exit) => [Swap(ret)] + Acts(inner) + LeaveActs(exit)
  }

  function Depth(w: Walk): nat
  {
    match w
    case End => 0
    case Step(rest) => Depth(rest)
    case Visit(_, inner, exit, rest) =>
      var inside := 1 + if Depth(inner) > LeaveDepth(exit) then Depth(inner) else LeaveDepth(exit);
      if inside > Depth(rest) then inside else Depth(rest)
  }

  function LeaveDepth(e: Leave): nat
  {
    match e
    case Return => 0
    case Swapping(_, inner, exit) => if Depth(inner) > LeaveDepth(exit) then Depth(inner) else LeaveDepth(exit)
  }

  // The addresses the returns should go to, in order.
  function Matches(w: Walk): seq<seq<uint64>>
    decreases w
  {
    match w
    case End => []
    case Step(rest) => Matches(rest)
    case Visit(ret, inner, exit, rest) => Matches(inner) + LeaveMatches(ret, exit) + Matches(rest)
  }

  function LeaveMatches(ret: uint64, e: Leave): seq<seq<uint64>>
    decreases e
  {
    match e
    case Return => [[ret]]
    case Swapping(next, inner, exit) => [[ret]] + Matches(inner) + LeaveMatches(next, exit)
  }

  lemma StackSteps(s: seq<uint64>, acts: seq<Act>, max: nat)
    ensures AllApplied(s, acts, max) == if acts == [] then s else AllApplied(Applied(s, acts[0], max), acts[1..], max)
    ensures Tops(s, acts, max)
            == if acts == [] then []
               else (if acts[0].Pop? || acts[0].Swap? then [if s == [] then [] else [Top(s)]] else [])
                    + Tops(Applied(s, acts[0], max), acts[1..], max)
  {
  }

  lemma {:induction false} AppliedAppend(s: seq<uint64>, a: seq<Act>, b: seq<Act>, max: nat)
    ensures AllApplied(s, a + b, max) == AllApplied(AllApplied(s, a, max), b, max)
    ensures Tops(s, a + b, max) == Tops(s, a, max) + Tops(AllApplied(s, a, max), b, max)
    decreases |a|
  {
    hide Applied, Tops, AllApplied, Top;
    StackSteps(s, a, max);
    StackSteps(s, a + b, max);
    if a == [] {
      assert a + b == b;
      assert [] + Tops(s, b, max) == Tops(s, b, max);
    } else {
      assert (a + b)[1..] == a[1..] + b;
      var s1 := Applied(s, a[0], max);
      AppliedAppend(s1, a[1..], b, max);
      var first := if a[0].Pop? || a[0].Swap? then [if s == [] then [] else [Top(s)]] else [];
      assert first + (Tops(s1, a[1..], max) + Tops(AllApplied(s1, a[1..], max), b, max))
             == first + Tops(s1, a[1..], max) + Tops(AllApplied(s1, a[1..], max), b, max);
    }
  }

  lemma OneApplied(s: seq<uint64>, a: Act, max: nat)
    ensures AllApplied(s, [a], max) == Applied(s, a, max)
    ensures Tops(s, [a], max) == if a.Pop? || a.Swap? then [if s == [] then [] else [Top(s)]] else []
  {
    hide Applied;
    assert [a][1..] == [];
  }

  /** In a properly nested run no deeper than the stack allows, every return
      finds the address of its own call on top, and the run leaves the stack as
      it found it. */
  lemma {:induction false} ReturnsMatch(s: seq<uint64>, w: Walk, max: nat)
    requires |s| + Depth(w) <= max
    ensures AllApplied(s, Acts(w), max) == s && Tops(s, Acts(w), max) == Matches(w)
    decreases w
  {
    hide AllApplied, Tops;
    NoneApplied(s, max);
    match w
    case End =>
    case Step(rest) =>
      OneApplied(s, Keep, max);
      AppliedAppend(s, [Keep], Acts(rest), max);
      ReturnsMatch(s, rest, max);
      assert [] + Matches(rest) == Matches(rest);
    case Visit(ret, inner, exit, rest) =>
      var s1 := s + [ret];
      var p1, p2, p3, p4 := [Push(ret)], Acts(inner), LeaveActs(exit), Acts(rest);
      OneApplied(s, Push(ret), max);
      ReturnsMatch(s1, inner, max);
      LeavesMatch(s, ret, exit, max);
      ReturnsMatch(s, rest, max);
      AppliedAppend(s, p1, p2, max);
      AppliedAppend(s, p1 + p2, p3, max);
      AppliedAppend(s, p1 + p2 + p3, p4, max);
      assert [] + Matches(inner) == Matches(inner);
  }

  lemma {:induction false} LeavesMatch(s: seq<uint64>, ret: uint64, e: Leave, max: nat)
    requires |s| + 1 + LeaveDepth(e) <= max
    ensures AllApplied(s + [ret], LeaveActs(e), max) == s && Tops(s + [ret], LeaveActs(e), max) == LeaveMatches(ret, e)
    decreases e
  {
    hide AllApplied, Tops;
    var s1 := s + [ret];
    assert Popped(s1) == s && Top(s1) == ret;
    match e
    case Return =>
      OneApplied(s1, Pop, max);
    case Swapping(next, inner, exit) =>
      var p1, p2, p3 := [Swap(next)], Acts(inner), LeaveActs(exit);
      OneApplied(s1, Swap(next), max);
      ReturnsMatch(s + [next], inner, max);
      LeavesMatch(s, next, exit, max);
      AppliedAppend(s1, p1, p2, max);
      AppliedAppend(s1, p1 + p2, p3, max);
  }

  lemma NoneApplied(s: seq<uint64>, max: nat)
    ensures AllApplied(s, [], max) == s && Tops(s, [], max) == []
  {
  }

  // ---- Runs too deep ----

  // Every return found some address.
  predicate AllFound(tops: seq<seq<uint64>>)
  {
    forall i :: 0 <= i < |tops| ==> tops[i] != []
  }

  lemma FoundParts(a: seq<seq<uint64>>, b: seq<seq<uint64>>)
    ensures AllFound(a + b) <==> AllFound(a) && AllFound(b)
  {
    if AllFound(a + b) {
      forall i | 0 <= i < |a| ensures a[i] != [] { assert (a + b)[i] != []; }
      forall i | 0 <= i < |b| ensures b[i] != [] { assert (a + b)[|a| + i] != []; }
    }
  }

  lemma {:induction false} MatchesFound(w: Walk)
    ensures AllFound(Matches(w))
    decreases w
  {
    match w
    case End =>
    case Step(rest) =>
      MatchesFound(rest);
    case Visit(ret, inner, exit, rest) =>
      MatchesFound(inner);
      LeaveMatchesFound(ret, exit);
      MatchesFound(rest);
      FoundParts(Matches(inner), LeaveMatches(ret, exit));
      FoundParts(Matches(inner) + LeaveMatches(ret, exit), Matches(rest));
  }

  lemma {:induction false} LeaveMatchesFound(ret: uint64, e: Leave)
    ensures AllFound(LeaveMatches(ret, e))
    decreases e
  {
    match e
    case Return =>
    case Swapping(next, inner, exit) =>
      MatchesFound(inner);
      LeaveMatchesFound(next, exit);
      FoundParts([[ret]], Matches(inner));
      FoundParts([[ret]] + Matches(inner), LeaveMatches(next, exit));
  }

  // A run whose returns all find something never lengthens the stack, and
  // shortens it if it goes deeper than the stack allows.
  lemma {:induction false} Shrinks(s: seq<uint64>, w: Walk, max: nat)
    requires |s| <= max && AllFound(Tops(s, Acts(w), max))
    ensures var s1 := AllApplied(s, Acts(w), max);
            |s1| <= |s| && (|s| + Depth(w) > max ==> |s1| < |s|)
    decreases w
  {
    hide AllApplied, Tops, AllFound;
    NoneApplied(s, max);
    match w
    case End =>
    case Step(rest) =>
      OneApplied(s, Keep, max);
      AppliedAppend(s, [Keep], Acts(rest), max);
      FoundParts(Tops(s, [Keep], max), Tops(s, Acts(rest), max));
      Shrinks(s, rest, max);
    case Visit(ret, inner, exit, rest) =>
      var p1, p2, p3, p4 := [Push(ret)], Acts(inner), LeaveActs(exit), Acts(rest);
      OneApplied(s, Push(ret), max);
      AppliedAppend(s, p1, p2, max);
      AppliedAppend(s, p1 + p2, p3, max);
      AppliedAppend(s, p1 + p2 + p3, p4, max);
      var s1 := AllApplied(s, p1, max);
      var s2 := AllApplied(s1, p2, max);
      var s3 := AllApplied(s2, p3, max);
      FoundParts(Tops(s, p1, max), Tops(s1, p2, max));
      FoundParts(Tops(s, p1 + p2, max), Tops(s2, p3, max));
      FoundParts(Tops(s, p1 + p2 + p3, max), Tops(s3, p4, max));
      Shrinks(s1, inner, max);
      LeaveShrinks(s2, exit, max);
      Shrinks(s3, rest, max);
  }

  lemma {:induction false} LeaveShrinks(s: seq<uint64>, e: Leave, max: nat)
    requires |s| <= max && AllFound(Tops(s, LeaveActs(e), max))
    ensures var s1 := AllApplied(s, LeaveActs(e), max);
            |s1| < |s| && (|s| + LeaveDepth(e) > max ==> |s1| + 1 < |s|)
    decreases e
  {
    hide AllApplied, Tops, AllFound;
    match e
    case Return =>
      OneApplied(s, Pop, max);
      SomeFound(s);
    case Swapping(next, inner, exit) =>
      var p1, p2, p3 := [Swap(next)], Acts(inner), LeaveActs(exit);
      OneApplied(s, Swap(next), max);
      AppliedAppend(s, p1, p2, max);
      AppliedAppend(s, p1 + p2, p3, max);
      var s1 := AllApplied(s, p1, max);
      var s2 := AllApplied(s1, p2, max);
      FoundParts(Tops(s, p1, max), Tops(s1, p2, max));
      FoundParts(Tops(s, p1 + p2, max), Tops(s2, p3, max));
      SomeFound(s);
      Shrinks(s1, inner, max);
      LeaveShrinks(s2, exit, max);
  }

  lemma SomeFound(s: seq<uint64>)
    ensures AllFound([if s == [] then [] else [Top(s)]]) ==> s != []
  {
    var found: seq<seq<uint64>> := [if s == [] then [] else [Top(s)]];
    assert s == [] ==> found[0] == [];
  }

  /** Every return of a nested run finds its own call, and the stack ends as it
      began, exactly if the run goes no deeper than the stack allows. */
  lemma MatchExactly(s: seq<uint64>, w: Walk, max: nat)
    requires |s| <= max
    ensures AllApplied(s, Acts(w), max) == s && Tops(s, Acts(w), max) == Matches(w) <==> |s| + Depth(w) <= max
  {
    hide AllApplied, Tops, AllFound, Matches, Acts, Depth;
    if |s| + Depth(w) <= max {
      ReturnsMatch(s, w, max);
    } else if Tops(s, Acts(w), max) == Matches(w) {
      MatchesFound(w);
      Shrinks(s, w, max);
    }
  }

  // One call too deep loses the address its return needs.
  lemma TooDeep(s: seq<uint64>, ret: uint64, max: nat)
    requires |s| == max
    ensures AllApplied(s, [Push(ret), Pop], max) == Popped(s)
    ensures Tops(s, [Push(ret), Pop], max) == [if s == [] then [] else [Top(s)]]
  {
    assert [Push(ret), Pop][1..] == [Pop] && [Pop][1..] == [];
  }
}
