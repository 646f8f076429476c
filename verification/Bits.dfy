/** Bitwise operators of unsigned machine words, over `nat`. Each is defined one binary digit at a time,
    and its effect is stated on the digits (`Bit`). */
module Bits {
  import opened Basics

  predicate Bit(b: nat, d: nat)
    decreases d
  {
    if d == 0 then b % 2 == 1 else Bit(b / 2, d - 1)
  }

  function Or(a: nat, b: nat): nat {
    if a == 0 && b == 0 then 0
    else 2 * Or(a / 2, b / 2) + if a % 2 == 1 || b % 2 == 1 then 1 else 0
  }

  function And(a: nat, b: nat): nat {
    if a == 0 || b == 0 then 0
    else 2 * And(a / 2, b / 2) + if a % 2 == 1 && b % 2 == 1 then 1 else 0
  }

  function AndNot(a: nat, b: nat): nat {
    if a == 0 then 0
    else 2 * AndNot(a / 2, b / 2) + if a % 2 == 1 && b % 2 == 0 then 1 else 0
  }

  /** `b` times two to the power `s`. */
  function Doubled(b: nat, s: nat): nat {
    if s == 0 then b else 2 * Doubled(b, s - 1)
  }

  function Pow2(s: nat): nat {
    Doubled(1, s)
  }

  /** `b << s` in a 64-bit word: digits pushed past the top are lost. */
  function Shl(b: nat, s: nat): nat {
    Doubled(b, s) % U64
  }

  lemma {:induction false} ZeroBit(d: nat)
    ensures !Bit(0, d)
  {
    if d > 0 {
      ZeroBit(d - 1);
    }
  }

  lemma {:induction false} OrBit(a: nat, b: nat, d: nat)
    ensures Bit(Or(a, b), d) <==> Bit(a, d) || Bit(b, d)
    decreases d
  {
    if a == 0 && b == 0 {
      ZeroBit(d);
    } else if d > 0 {
      OrBit(a / 2, b / 2, d - 1);
    }
  }

  lemma {:induction false} AndNotBit(a: nat, b: nat, d: nat)
    ensures Bit(AndNot(a, b), d) <==> Bit(a, d) && !Bit(b, d)
    decreases d
  {
    if a == 0 {
      ZeroBit(d);
    } else if d > 0 {
      AndNotBit(a / 2, b / 2, d - 1);
    }
  }

  lemma {:induction false} PositivePow2(d: nat)
    ensures Pow2(d) > 0
  {
    if d > 0 {
      PositivePow2(d - 1);
    }
  }

  lemma {:induction false} AndPow2(a: nat, d: nat)
    ensures And(a, Pow2(d)) != 0 <==> Bit(a, d)
    decreases d
  {
    PositivePow2(d);
    if a == 0 {
      ZeroBit(d);
    } else if d > 0 {
      AndPow2(a / 2, d - 1);
    } else {
      assert And(a / 2, 0) == 0;
    }
  }

  lemma {:induction false} AddPow2Bit(b: nat, k: nat, d: nat)
    requires d < k
    ensures Bit(b + Pow2(k), d) <==> Bit(b, d)
    decreases d
  {
    if d > 0 {
      AddPow2Bit(b / 2, k - 1, d - 1);
    }
  }

  lemma {:induction false} Pow2Sum(a: nat, b: nat)
    ensures Pow2(a + b) == Pow2(a) * Pow2(b)
  {
    if a > 0 {
      Pow2Sum(a - 1, b);
      assert a + b - 1 == a - 1 + b;
    }
  }

  lemma HalfWordSize()
    ensures Pow2(32) == U32
  {
    Pow2Sum(2, 2);
    assert Pow2(4) == 16;
    Pow2Sum(4, 4);
    assert Pow2(8) == 0x100;
    Pow2Sum(8, 8);
    assert Pow2(16) == 0x1_0000;
    Pow2Sum(16, 16);
  }

  lemma WordSize()
    ensures Pow2(64) == U64
  {
    HalfWordSize();
    Pow2Sum(32, 32);
  }

  lemma {:induction false} AddWordsBit(b: nat, q: nat, d: nat)
    requires d < 64
    ensures Bit(b + q * U64, d) <==> Bit(b, d)
    decreases q
  {
    if q > 0 {
      AddWordsBit(b, q - 1, d);
      WordSize();
      AddPow2Bit(b + (q - 1) * U64, 64, d);
    }
  }

  lemma {:induction false} DoubledBit(b: nat, s: nat, d: nat)
    ensures Bit(Doubled(b, s), d) <==> d >= s && Bit(b, d - s)
    decreases d
  {
    if s > 0 && d > 0 {
      DoubledBit(b, s - 1, d - 1);
    }
  }

  lemma Pow2Bit(s: nat, d: nat)
    ensures Bit(Pow2(s), d) <==> d == s
  {
    DoubledBit(1, s, d);
    if d > s {
      ZeroBit(d - s - 1);
    }
  }

  lemma ShlBit(b: nat, s: nat, d: nat)
    requires d < 64
    ensures Bit(Shl(b, s), d) <==> d >= s && Bit(b, d - s)
  {
    AddWordsBit(Shl(b, s), Doubled(b, s) / U64, d);
    DoubledBit(b, s, d);
  }

  lemma {:induction false} Pow2Increasing(a: nat, b: nat)
    requires a < b
    ensures Pow2(a) < Pow2(b)
  {
    PositivePow2(a);
    if a + 1 < b {
      Pow2Increasing(a, b - 1);
    }
  }

  lemma ShlOne(s: nat)
    requires s < 64
    ensures Shl(1, s) == Pow2(s)
  {
    WordSize();
    Pow2Increasing(s, 64);
  }
}
