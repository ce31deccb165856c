// Virtual address optimisation: an address is sent as the shortest two's
// complement number, in whole lanes, that the decoder widens back to it.
module CodecVao {
  import opened Bits
  import opened Protocol
  import opened MsgTypes
  import opened Codec

  // What the decoder makes of n lanes holding v.
  function Widen(v: nat, n: nat): uint64
  {
    SignExtend(v % U64, 6 * n)
  }

  // The word, or its complement when its top bit is set.
  function Magnitude(x: uint64): (y: uint64)
    ensures y < Pow2(63)
  {
    Pow2Words();
    assert Pow2(64) == 2 * Pow2(63);
    if x < Pow2(63) then x else U64 - 1 - x
  }

  lemma SignedBitsMagnitude(x: uint64)
    ensures SignedBits(x) == 1 + BitLen(Magnitude(x)) <= 64
  {
    Pow2Words();
    BitLenBound(x, 63);
    BitLenBound(Magnitude(x), 63);
  }

  // Both halves of an n-bit two's complement range, as widened words.
  lemma WidenedMagnitude(v: nat, bits: nat)
    requires 0 < bits < 64 && v < Pow2(bits)
    ensures v < U64
    ensures Magnitude(SignExtend(v, bits)) < Pow2(bits - 1)
  {
    hide Low, High, Bit;
    Pow2Words();
    Pow2Mono(bits, 64);
    Pow2Mono(bits, 63);
    Pow2Mono(bits - 1, 62);
    TopBit(v, bits - 1);
    LowSmall(v, bits);
    assert Pow2(64) == 2 * Pow2(63) == 4 * Pow2(62);
    assert Pow2(bits) == 2 * Pow2(bits - 1);
  }

  lemma LaneTarget(x: uint64)
    ensures LaneCount(VaoBits(x)) == LaneCount(SignedBits(x)) <= 11
  {
    SignedBitsMagnitude(x);
  }

  // The encoder never uses more lanes than any lane count that works.
  lemma VaoShortest(x: uint64, v: nat, n: nat)
    requires 0 < n && v < Pow2(6 * n) && Widen(v, n) == x
    ensures LaneCount(VaoBits(x)) <= n
  {
    hide Low, High, Bit, BitLen, SignedBits, SignExtend;
    LaneTarget(x);
    if n < 11 {
      Pow2Words();
      Pow2Mono(6 * n, 64);
      SmallWidens(v, n);
      WidenedMagnitude(v, 6 * n);
      SignedBitsMagnitude(x);
      BitLenBound(Magnitude(x), 6 * n - 1);
    }
  }

  // The lanes the encoder writes widen back to the address.
  lemma VaoLossless(x: uint64)
    ensures var v, n := Low(x, VaoBits(x)), LaneCount(VaoBits(x));
            v < Pow2(6 * n) && Widen(v, n) == x
  {
    hide Low, High, Pow2, BitLen, Widen, SignedBits;
    var bits, n := VaoBits(x), LaneCount(VaoBits(x));
    LaneTarget(x);
    Pow2Mono(bits, 6 * n);
    if bits == 64 {
      WideWidens(x, n);
    } else {
      assert bits == 6 * n;
      SignedBitsMagnitude(x);
      BitLenBound(Magnitude(x), bits - 1);
      NarrowWidens(x, bits);
      SmallWidens(Low(x, bits), n);
    }
  }

  lemma WideWidens(x: uint64, n: nat)
    requires 6 * n >= 64
    ensures Widen(Low(x, 64), n) == x
  {
    hide Low, High, Pow2;
    LowWords(x);
  }

  lemma SmallWidens(v: uint64, n: nat)
    ensures Widen(v, n) == SignExtend(v, 6 * n)
  {
  }

  lemma NarrowWidens(x: uint64, bits: nat)
    requires 0 < bits < 64 && Magnitude(x) < Pow2(bits - 1)
    ensures Low(x, bits) < U64 && SignExtend(Low(x, bits), bits) == x
  {
    hide Low, High, Bit;
    Pow2Words();
    Pow2Mono(bits, 64);
    assert Pow2(bits) == 2 * Pow2(bits - 1);
    var low := Low(x, bits);
    if x < Pow2(63) {
      LowSmall(x, bits);
    } else {
      LowOfNegative(x, Magnitude(x), bits);
      LowSmall(low, bits);
    }
    TopBit(low, bits - 1);
  }

  lemma LowOfNegative(x: uint64, y: nat, bits: nat)
    requires bits < 64 && x == U64 - 1 - y && y < Pow2(bits)
    ensures Low(x, bits) == Pow2(bits) - 1 - y
  {
    Pow2Words();
    Pow2Add(bits, 64 - bits);
    var q: nat := Pow2(64 - bits) - 1;
    assert Pow2(bits) * (q + 1) == Pow2(bits) * q + Pow2(bits);
    Split(Pow2(bits) - 1 - y, q, bits);
  }
}
