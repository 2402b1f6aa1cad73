/** 64-bit words as numbers, with the bit operators of C. */
module Bits {
  type Word = w: nat | w < WORD_SPAN

  const WORD_SPAN := 0x1_0000_0000_0000_0000

  function Pow2(k: nat): (p: nat)
    ensures p > 0
  {
    if k == 0 then 1 else 2 * Pow2(k - 1)
  }

  predicate BitAt(n: nat, k: nat) {
    if k == 0 then n % 2 == 1 else BitAt(n / 2, k - 1)
  }

  function Shr(n: nat, d: nat): nat {
    if d == 0 then n else Shr(n / 2, d - 1)
  }

  function Join(bit: bool, n: nat): nat { 2 * n + if bit then 1 else 0 }

  function Or(a: nat, b: nat): nat {
    if a == 0 && b == 0 then 0 else Join(a % 2 == 1 || b % 2 == 1, Or(a / 2, b / 2))
  }

  function And(a: nat, b: nat): nat {
    if a == 0 || b == 0 then 0 else Join(a % 2 == 1 && b % 2 == 1, And(a / 2, b / 2))
  }

  function Not(a: Word): Word { WORD_SPAN - 1 - a }

  function PopCount(n: nat): nat {
    if n == 0 then 0 else n % 2 + PopCount(n / 2)
  }

  // ---------- bits of the results ----------

  lemma {:induction false} ZeroBits(k: nat)
    ensures !BitAt(0, k)
  {
    if k > 0 { ZeroBits(k - 1); }
  }

  lemma {:induction false} OrBits(a: nat, b: nat, k: nat)
    ensures BitAt(Or(a, b), k) <==> BitAt(a, k) || BitAt(b, k)
  {
    if a == 0 && b == 0 {
      ZeroBits(k);
    } else {
      var r := Or(a / 2, b / 2);
      assert Or(a, b) / 2 == r;
      if k > 0 { OrBits(a / 2, b / 2, k - 1); }
    }
  }

  lemma {:induction false} ShrBits(n: nat, d: nat, k: nat)
    ensures BitAt(Shr(n, d), k) <==> BitAt(n, k + d)
  {
    if d > 0 { ShrBits(n / 2, d - 1, k); }
  }

  lemma {:induction false} PowBits(h: nat, k: nat)
    ensures BitAt(Pow2(h), k) <==> h == k
  {
    if h == 0 {
      if k > 0 { ZeroBits(k - 1); }
    } else if k > 0 {
      assert Pow2(h) / 2 == Pow2(h - 1);
      PowBits(h - 1, k - 1);
    }
  }

  lemma {:induction false} OnesBits(h: nat, k: nat)
    ensures BitAt(Pow2(h) - 1, k) <==> k < h
  {
    if h == 0 {
      ZeroBits(k);
    } else {
      assert (Pow2(h) - 1) / 2 == Pow2(h - 1) - 1;
      if k > 0 { OnesBits(h - 1, k - 1); }
    }
  }

  lemma {:induction false} HighBits(n: nat, h: nat, k: nat)
    requires n < Pow2(h) && h <= k
    ensures !BitAt(n, k)
  {
    if h == 0 {
      ZeroBits(k);
    } else {
      HighBits(n / 2, h - 1, k - 1);
    }
  }

  /** Numbers with the same bits are the same. */
  lemma {:induction false} BitsDecide(a: nat, b: nat)
    requires forall k: nat :: BitAt(a, k) <==> BitAt(b, k)
    ensures a == b
    decreases a + b
  {
    assert BitAt(a, 0) <==> BitAt(b, 0);
    if a + b > 0 {
      forall k: nat
        ensures BitAt(a / 2, k) <==> BitAt(b / 2, k)
      {
        assert BitAt(a, k + 1) <==> BitAt(b, k + 1);
      }
      BitsDecide(a / 2, b / 2);
    }
  }

  /** The leading bit of a number. */
  lemma {:induction false} LeadingBit(n: nat) returns (h: nat)
    requires n > 0
    ensures Pow2(h) <= n < Pow2(h + 1) && BitAt(n, h) && forall k :: k > h ==> !BitAt(n, k)
  {
    if n == 1 {
      h := 0;
    } else {
      h := LeadingBit(n / 2);
      h := h + 1;
    }
    forall k | k > h
      ensures !BitAt(n, k)
    {
      HighBits(n, h + 1, k);
    }
  }

  /** The bits of a byte, as arithmetic. */
  lemma ByteBit(x: nat, k: nat)
    requires x < 256 && k < 8
    ensures BitAt(x, k) <==> x / Pow2(k) % 2 == 1
  {
    var y := x / 2 / 2;
    assert y == x / 4 && y / 2 == x / 8 && y / 2 / 2 == x / 16;
    assert y / 2 / 2 / 2 == x / 32 && y / 2 / 2 / 2 / 2 == x / 64 && y / 2 / 2 / 2 / 2 / 2 == x / 128;
    Powers(k);
    Halved(x, k);
  }

  lemma Powers(k: nat)
    requires k < 8
    ensures Pow2(k) == [1, 2, 4, 8, 16, 32, 64, 128][k]
  {
    assert Pow2(2) == 4 && Pow2(4) == 16 && Pow2(6) == 64;
  }

  lemma Halved(x: nat, k: nat)
    requires k < 8
    ensures var y := x / 2 / 2;
      BitAt(x, k) <==> [x, x / 2, y, y / 2, y / 2 / 2, y / 2 / 2 / 2, y / 2 / 2 / 2 / 2, y / 2 / 2 / 2 / 2 / 2][k] % 2 == 1
  {
    var y := x / 2 / 2;
    var z := y / 2 / 2;
    var u := z / 2 / 2;
    assert k >= 2 ==> (BitAt(x, k) <==> BitAt(y, k - 2));
    assert k >= 4 ==> (BitAt(y, k - 2) <==> BitAt(z, k - 4));
    assert k >= 6 ==> (BitAt(z, k - 4) <==> BitAt(u, k - 6));
  }

  /** The lower h bits and the ones above them. */
  lemma {:induction false} BitsJoined(x: nat, r: nat, h: nat, k: nat)
    requires x < Pow2(h)
    ensures BitAt(x + Pow2(h) * r, k) <==> if k < h then BitAt(x, k) else BitAt(r, k - h)
  {
    if h > 0 {
      var y := Pow2(h - 1) * r;
      assert x + Pow2(h) * r == x + 2 * y;
      assert (x + 2 * y) / 2 == x / 2 + y && (x + 2 * y) % 2 == x % 2;
      if k > 0 { BitsJoined(x / 2, r, h - 1, k - 1); }
    }
  }

  lemma {:induction false} PowMonotone(j: nat, k: nat)
    requires j <= k
    ensures Pow2(j) <= Pow2(k)
  {
    if j < k { PowMonotone(j, k - 1); }
  }

  lemma {:induction false} ShrShrinks(n: nat, d: nat)
    ensures Shr(n, d) <= n
  {
    if d > 0 { ShrShrinks(n / 2, d - 1); }
  }

  lemma {:induction false} PowAdd(j: nat, k: nat)
    ensures Pow2(j + k) == Pow2(j) * Pow2(k)
  {
    if j > 0 { PowAdd(j - 1, k); }
  }

  lemma Pow16()
    ensures Pow2(16) == 0x10000
  {
    assert Pow2(2) == 4 && Pow2(4) == 16 && Pow2(6) == 64 && Pow2(8) == 256;
    PowAdd(8, 8);
  }

  lemma Pow32()
    ensures Pow2(32) == 0x1_0000_0000
  {
    hide Pow2;
    Pow16();
    PowAdd(16, 16);
  }

  lemma Pow64()
    ensures Pow2(64) == WORD_SPAN && Pow2(63) * 2 == WORD_SPAN
  {
    assert Pow2(64) == 2 * Pow2(63);
    hide Pow2;
    Pow32();
    PowAdd(32, 32);
  }

  lemma {:induction false} PopOnes(h: nat)
    ensures PopCount(Pow2(h) - 1) == h
  {
    if h > 0 {
      assert (Pow2(h) - 1) / 2 == Pow2(h - 1) - 1;
      PopOnes(h - 1);
    }
  }
}
