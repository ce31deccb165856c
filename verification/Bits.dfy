// Unsigned machine words as natural numbers: powers of two, bit lengths and
// the bitwise operations the codec and the trace decoder use.
module Bits {

  const U32: nat := 0x1_0000_0000
  const U64: nat := 0x1_0000_0000_0000_0000

  function Pow2(n: nat): (p: nat)
    ensures 0 < p
  {
    if n == 0 then 1 else 2 * Pow2(n - 1)
  }

  lemma Pow2Zero()
    ensures Pow2(0) == 1
  {
  }

  lemma {:induction false} Pow2Add(a: nat, b: nat)
    ensures Pow2(a + b) == Pow2(a) * Pow2(b)
  {
    if a > 0 {
      Pow2Add(a - 1, b);
      assert Pow2(a + b) == 2 * Pow2((a - 1) + b);
    }
  }

  lemma {:induction false} Pow2Mono(a: nat, b: nat)
    requires a <= b
    ensures Pow2(a) <= Pow2(b)
  {
    if a < b { Pow2Mono(a, b - 1); }
  }

  lemma Pow2Words()
    ensures Pow2(6) == 64 && Pow2(32) == U32 && Pow2(64) == U64
  {
    assert Pow2(8) == 256;
    Pow2Add(8, 8);
    Pow2Add(16, 16);
    Pow2Add(32, 32);
  }

  lemma MulOrder(d: nat, i: int, j: int)
    requires i <= j
    ensures d * i <= d * j
  {
    var gap: nat := j - i;
    assert d * gap >= 0;
    assert d * j == d * i + d * gap;
  }

  lemma MulAssoc(a: int, b: int, c: int)
    ensures a * (b * c) == a * b * c
  {
  }

  lemma MulPlus(a: int, b: int, c: int)
    ensures a * (b + c) == a * b + a * c
  {
  }

  // ---- The low bits of a number and those above them ----

  function Low(v: nat, n: nat): (r: nat)
    ensures r < Pow2(n)
  {
    if n == 0 then 0 else v % 2 + 2 * Low(v / 2, n - 1)
  }

  function High(v: nat, n: nat): (r: nat)
  {
    if n == 0 then v else High(v / 2, n - 1)
  }

  lemma {:induction false} LowHigh(v: nat, n: nat)
    ensures v == Low(v, n) + Pow2(n) * High(v, n)
  {
    if n > 0 {
      LowHigh(v / 2, n - 1);
      MulAssoc(2, Pow2(n - 1), High(v, n));
    }
  }

  lemma {:induction false} Split(low: nat, high: nat, n: nat)
    requires low < Pow2(n)
    ensures Low(low + Pow2(n) * high, n) == low
    ensures High(low + Pow2(n) * high, n) == high
  {
    if n > 0 {
      var v := low + Pow2(n) * high;
      MulAssoc(2, Pow2(n - 1), high);
      assert v == low + 2 * (Pow2(n - 1) * high);
      assert v / 2 == low / 2 + Pow2(n - 1) * high;
      Split(low / 2, high, n - 1);
    }
  }

  lemma LowSmall(v: nat, n: nat)
    requires v < Pow2(n)
    ensures Low(v, n) == v && High(v, n) == 0
  {
    Split(v, 0, n);
  }

  lemma LowBelow(v: nat, n: nat)
    ensures Low(v, n) <= v
  {
    hide Low, High, Pow2;
    LowHigh(v, n);
    assert Pow2(n) * High(v, n) >= 0;
  }

  lemma {:induction false} HighHigh(v: nat, a: nat, b: nat)
    ensures High(High(v, a), b) == High(v, a + b)
  {
    if a > 0 { HighHigh(v / 2, a - 1, b); }
  }

  // Truncation to fewer bits forgets any earlier truncation to more.
  lemma {:induction false} LowLow(v: nat, n: nat, m: nat)
    requires n <= m
    ensures Low(Low(v, m), n) == Low(v, n)
  {
    hide Pow2;
    if n > 0 { LowLow(v / 2, n - 1, m - 1); }
  }

  // Bits n..n+m of v, whichever end is cut first.
  lemma {:induction false} HighOfLow(v: nat, n: nat, m: nat)
    ensures High(Low(v, n + m), n) == Low(High(v, n), m)
  {
    if n > 0 {
      var t := Low(v / 2, n - 1 + m);
      assert Low(v, n + m) == v % 2 + 2 * t;
      HighOfLow(v / 2, n - 1, m);
    }
  }

  lemma LowSplit(v: nat, n: nat, m: nat)
    ensures Low(v, n + m) == Low(v, n) + Pow2(n) * Low(High(v, n), m)
  {
    hide Low, High;
    LowHigh(Low(v, n + m), n);
    HighOfLow(v, n, m);
    LowLow(v, n, n + m);
  }

  // Truncation adds up.
  lemma LowAdd(a: nat, b: nat, n: nat)
    ensures Low(a + Pow2(n) * b, n) == Low(a, n)
    ensures High(a + Pow2(n) * b, n) == High(a, n) + b
  {
    LowHigh(a, n);
    assert Pow2(n) * (High(a, n) + b) == Pow2(n) * High(a, n) + Pow2(n) * b;
    Split(Low(a, n), High(a, n) + b, n);
  }

  lemma HighBound(v: nat, k: nat, n: nat)
    requires k <= n && v < Pow2(n)
    ensures High(v, k) < Pow2(n - k)
  {
    hide Low, High, Pow2;
    LowHigh(v, k);
    Pow2Add(k, n - k);
    if High(v, k) >= Pow2(n - k) {
      MulOrder(Pow2(k), Pow2(n - k), High(v, k));
      assert false;
    }
  }

  lemma LowDivMod(v: nat, n: nat, p: nat)
    requires p == Pow2(n)
    ensures Low(v, n) == v % p && High(v, n) == v / p
  {
    hide Low, High, Pow2;
    Split(v % p, v / p, n);
  }

  lemma LowWords(v: nat)
    ensures Low(v, 3) == v % 8 && Low(v, 6) == v % 64 && High(v, 6) == v / 64
    ensures Low(v, 32) == v % U32 && Low(v, 64) == v % U64
  {
    hide Low, High;
    Pow2Words();
    assert Pow2(3) == 8;
    LowDivMod(v, 3, 8);
    LowDivMod(v, 6, 64);
    LowDivMod(v, 32, U32);
    LowDivMod(v, 64, U64);
  }

  // 64 minus the number of leading zeros of a 64-bit word.
  function BitLen(v: nat): (n: nat)
  {
    if v == 0 then 0 else 1 + BitLen(v / 2)
  }

  lemma {:induction false} BitLenBound(v: nat, n: nat)
    ensures v < Pow2(n) <==> BitLen(v) <= n
  {
    if v != 0 && n != 0 {
      BitLenBound(v / 2, n - 1);
    }
  }

  predicate Bit(v: nat, k: nat)
  {
    High(v, k) % 2 == 1
  }

  // The top bit of an n-bit number says in which half it lies.
  lemma TopBit(v: nat, n: nat)
    requires v < Pow2(n + 1)
    ensures Bit(v, n) <==> v >= Pow2(n)
  {
    var p := Pow2(n);
    if v >= p {
      Split(v - p, 1, n);
    } else {
      Split(v, 0, n);
    }
  }

  // Bitwise OR.
  function Or(a: nat, b: nat): (r: nat)
    decreases a + b
  {
    if a == 0 && b == 0 then 0
    else 2 * Or(a / 2, b / 2) + (if a % 2 == 1 || b % 2 == 1 then 1 else 0)
  }

  // OR into clear bits is addition.
  lemma {:induction false} OrDisjoint(a: nat, b: nat, n: nat)
    requires a < Pow2(n)
    ensures Or(a, Pow2(n) * b) == a + Pow2(n) * b
    decreases n, a + b
  {
    if n == 0 {
      OrZero(b);
    } else {
      MulAssoc(2, Pow2(n - 1), b);
      OrDisjoint(a / 2, b, n - 1);
      OrEven(a, Pow2(n - 1) * b);
    }
  }

  lemma {:induction false} OrZero(b: nat)
    ensures Or(0, b) == b && Or(b, 0) == b
  {
    if b != 0 { OrZero(b / 2); }
  }

  lemma {:induction false} OrSelf(a: nat)
    ensures Or(a, a) == a
  {
    if a != 0 { OrSelf(a / 2); }
  }

  // OR with the ones from bit n up to bit m fills those bits.
  lemma {:induction false} OrFill(a: nat, n: nat, m: nat)
    requires n <= m && a < Pow2(m)
    ensures Pow2(n) <= Pow2(m)
    ensures Or(a, Pow2(m) - Pow2(n)) == Low(a, n) + (Pow2(m) - Pow2(n))
    decreases n
  {
    hide Or;
    if n == 0 {
      OrOnes(a, m);
    } else {
      OrFill(a / 2, n - 1, m - 1);
      OrEven(a, Pow2(m - 1) - Pow2(n - 1));
    }
  }

  lemma OrEven(a: nat, b: nat)
    ensures Or(a, 2 * b) == 2 * Or(a / 2, b) + a % 2
  {
    assert 2 * b / 2 == b && 2 * b % 2 == 0;
  }

  lemma {:induction false} OrOnes(a: nat, m: nat)
    requires a < Pow2(m)
    ensures Or(a, Pow2(m) - 1) == Pow2(m) - 1
  {
    if m > 0 {
      OrOnes(a / 2, m - 1);
      var ones: nat := Pow2(m) - 1;
      assert ones / 2 == Pow2(m - 1) - 1 && ones % 2 == 1;
    }
  }

  // Bitwise exclusive OR.
  function Xor(a: nat, b: nat): (r: nat)
    decreases a + b
  {
    if a == 0 && b == 0 then 0
    else 2 * Xor(a / 2, b / 2) + (a + b) % 2
  }

  lemma XorHalf(a: nat, b: nat)
    ensures Xor(a, b) / 2 == Xor(a / 2, b / 2) && Xor(a, b) % 2 == (a + b) % 2
  {
  }

  lemma ParityAdd(x: nat, y: nat, c: nat)
    requires x % 2 == y % 2
    ensures (x + c) % 2 == (y + c) % 2
  {
  }

  lemma {:induction false} XorAssoc(a: nat, b: nat, c: nat)
    ensures Xor(Xor(a, b), c) == Xor(a, Xor(b, c))
    decreases a + b + c
  {
    if a + b + c != 0 {
      hide Xor;
      XorAssoc(a / 2, b / 2, c / 2);
      var x, y := Xor(Xor(a, b), c), Xor(a, Xor(b, c));
      assert x / 2 == y / 2 by {
        XorHalf(a, b);
        XorHalf(b, c);
        XorHalf(Xor(a, b), c);
        XorHalf(a, Xor(b, c));
      }
      assert x % 2 == (a + b + c) % 2 by {
        XorHalf(a, b);
        XorHalf(Xor(a, b), c);
        ParityAdd(Xor(a, b), a + b, c);
      }
      assert y % 2 == (b + c + a) % 2 by {
        XorHalf(b, c);
        XorHalf(a, Xor(b, c));
        ParityAdd(Xor(b, c), b + c, a);
      }
    }
  }

  lemma {:induction false} XorSelf(a: nat)
    ensures Xor(a, a) == 0
  {
    if a != 0 { XorSelf(a / 2); }
  }

  lemma {:induction false} XorZero(a: nat)
    ensures Xor(a, 0) == a && Xor(0, a) == a
  {
    if a != 0 { XorZero(a / 2); }
  }

  lemma {:induction false} XorBound(a: nat, b: nat, n: nat)
    requires a < Pow2(n) && b < Pow2(n)
    ensures Xor(a, b) < Pow2(n)
    decreases n
  {
    if n > 0 {
      XorBound(a / 2, b / 2, n - 1);
    }
  }

  // A delta applied to the value it was taken from gives the other value.
  lemma XorDelta(a: nat, b: nat)
    ensures Xor(a, Xor(a, b)) == b
  {
    XorAssoc(a, a, b);
    XorSelf(a);
    XorZero(b);
  }
}
