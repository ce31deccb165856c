// The return stack: a growing array that behaves as a bounded LIFO.
module ReturnStack {
  import opened Bits
  import opened Results
  import opened MsgTypes

  const DEFAULT_SIZE: uint32 := 32

  // Size after the next enlargement, in 32-bit arithmetic.
  function NewSize(size: uint32, max: uint32): uint32
  {
    var doubled := size * 2 % U32;
    if doubled > max then max else doubled
  }

  // A push on a full stack is dropped.
  function Pushed(s: seq<uint64>, addr: uint64, max: nat): seq<uint64>
  {
    if |s| == max then s else s + [addr]
  }

  class RetStack {
    const max: uint32
    var entries: array<uint64>
    var size: uint32
    var used: uint32
    var end: uint32

    constructor (max: uint32)
      requires max <= 0x8000_0000
      ensures Valid() && Contents() == [] && this.max == max && fresh(entries)
      ensures entries.Length == if max > 32 then 32 else max
    {
      this.max := max;
      end, used := 0, 0;
      var n: uint32 := if max > DEFAULT_SIZE then DEFAULT_SIZE else max;
      size := n;
      entries := new uint64[n](_ => 0);
    }

    // Nothing ever wraps around: the next free entry is the one above the top.
    ghost predicate Valid()
      reads this
    {
      && max <= 0x8000_0000
      && end == used <= size <= max && entries.Length == size
      && (size < max ==> size >= DEFAULT_SIZE)
    }

    ghost function Contents(): (s: seq<uint64>)
      requires Valid()
      reads this, entries
      ensures |s| == used
    {
      entries[..used]
    }

    method Clear()
      requires Valid()
      modifies this
      ensures Valid() && Contents() == [] && entries == old(entries)
    {
      used, end := 0, 0;
    }

    method MayEnlarge()
      requires Valid() && used < max
      modifies this
      ensures Valid() && Contents() == old(Contents()) && used < size
      ensures entries == old(entries) || fresh(entries)
      ensures entries != old(entries) ==> old(used) == old(size) && size == if 2 * used > max then max else 2 * used
    {
      if size == max {
        return;
      }
      assert used == end;
      if used != size {
        return;
      }
      var newSize := NewSize(size, max);
      var old0 := entries;
      var n := size;
      var grown := new uint64[newSize](_ => 0);
      forall i | 0 <= i < n {
        grown[i] := old0[i];
      }
      size := newSize;
      entries := grown;
      assert entries[..used] == old0[..used];
    }

    method Push(addr: uint64)
      requires Valid()
      modifies this, entries
      ensures Valid() && Contents() == Pushed(old(Contents()), addr, max)
      ensures entries == old(entries) || fresh(entries)
    {
      if used == max {
        return;
      }
      MayEnlarge();
      // The source would start again at the bottom here.
      if end == size {
        assert false;
      }
      entries[end] := addr;
      end := end + 1;
      if used < size {
        used := used + 1;
      }
    }

    method Pop() returns (r: Result<uint64>)
      requires Valid()
      modifies this
      ensures Valid() && entries == old(entries)
      ensures if old(Contents()) == [] then r == Err(StackEmpty) && Contents() == []
              else r == Ok(old(Contents()[|Contents()| - 1])) && Contents() == old(Contents()[..|Contents()| - 1])
    {
      if used == 0 {
        return Err(StackEmpty);
      }
      assert end != 0;
      end := end - 1;
      r := Ok(entries[end]);
      used := used - 1;
      // The source would go on from the top here.
      if end == 0 && used != 0 {
        assert false;
      }
    }
  }

  // ---- Growth ----

  // The size after k enlargements.
  function SizeAt(k: nat, max: uint32): uint32
  {
    if k == 0 then if max > DEFAULT_SIZE then DEFAULT_SIZE else max
    else if SizeAt(k - 1, max) < max then NewSize(SizeAt(k - 1, max), max)
    else SizeAt(k - 1, max)
  }

  ghost predicate GrowsAt(k: nat, max: uint32)
  {
    SizeAt(k, max) < max ==> SizeAt(k, max) < NewSize(SizeAt(k, max), max)
  }

  lemma {:induction false} SizesDouble(k: nat, max: uint32)
    requires max > 0x8000_0000 && k <= 26
    ensures SizeAt(k, max) == 32 * Pow2(k)
  {
    if k == 0 {
      Pow2Zero();
    } else {
      SizesDouble(k - 1, max);
      Pow2Mono(k, 26);
      TwentySix();
    }
  }

  lemma TwentySix()
    ensures Pow2(26) == 0x400_0000
  {
    assert Pow2(13) == 0x2000;
    Pow2Add(13, 13);
  }

  // Every enlargement makes room, exactly when the bound fits 31 bits: past
  // that, doubling wraps to an empty stack.
  lemma GrowthSafe(max: uint32)
    ensures (forall k: nat :: GrowsAt(k, max)) <==> max <= 0x8000_0000
  {
    if max <= 0x8000_0000 {
      forall k: nat ensures GrowsAt(k, max) { GrowthStep(k, max); }
    } else {
      SizesDouble(26, max);
      TwentySix();
      assert NewSize(0x8000_0000, max) == 0;
      assert !GrowsAt(26, max);
    }
  }

  lemma {:induction false} GrowthStep(k: nat, max: uint32)
    requires max <= 0x8000_0000
    ensures GrowsAt(k, max) && SizeAt(k, max) <= max && (SizeAt(k, max) < max ==> SizeAt(k, max) >= 32)
  {
    if k > 0 { GrowthStep(k - 1, max); }
  }
}
