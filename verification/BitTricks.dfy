/** bitmap.h: counting the ones of a 64-bit word, and finding its highest zero. */
module BitTricks {
  import opened Bits

  // NEXT_POW2_64; the increment wraps around
  function NextPow2(n: Word): Word {
    var i := Smear(n);
    (i + 1) % WORD_SPAN
  }

  // the six or-shift steps of NEXT_POW2_64
  function Smear(n: Word): (i: Word)
  {
    SmearFits(n);
    Or32(Or16(Or8(Or4(Or2(Or1(n))))))
  }

  function Or1(i: nat): nat { Or(i, Shr(i, 1)) }

  function Or2(i: nat): nat { Or(i, Shr(i, 2)) }

  function Or4(i: nat): nat { Or(i, Shr(i, 4)) }

  function Or8(i: nat): nat { Or(i, Shr(i, 8)) }

  function Or16(i: nat): nat { Or(i, Shr(i, 16)) }

  function Or32(i: nat): nat { Or(i, Shr(i, 32)) }

  // ---------- smearing ----------

  // Some bit of n is set in the d places from k on.
  ghost predicate Window(n: nat, k: nat, d: nat) {
    exists j :: k <= j < k + d && BitAt(n, j)
  }

  ghost predicate Smeared(n: nat, x: nat, d: nat) {
    forall k: nat :: BitAt(x, k) <==> Window(n, k, d)
  }

  // A step by d doubles the width of the smear.
  lemma SmearStep(n: nat, x: nat, d: nat)
    requires Smeared(n, x, d)
    ensures Smeared(n, Or(x, Shr(x, d)), 2 * d)
  {
    forall k: nat
      ensures BitAt(Or(x, Shr(x, d)), k) <==> Window(n, k, 2 * d)
    {
      OrBits(x, Shr(x, d), k);
      ShrBits(x, d, k);
      assert BitAt(x, k) <==> Window(n, k, d);
      assert BitAt(x, k + d) <==> Window(n, k + d, d);
    }
  }

  lemma SmearWidth(n: nat)
    ensures Smeared(n, Or32(Or16(Or8(Or4(Or2(Or1(n)))))), 64)
  {
    hide Smeared;
    assert Smeared(n, n, 1) by { SmearedOnce(n); }
    SmearStep(n, n, 1);
    SmearStep(n, Or1(n), 2);
    SmearStep(n, Or2(Or1(n)), 4);
    SmearStep(n, Or4(Or2(Or1(n))), 8);
    SmearStep(n, Or8(Or4(Or2(Or1(n)))), 16);
    SmearStep(n, Or16(Or8(Or4(Or2(Or1(n))))), 32);
  }

  lemma SmearedOnce(n: nat)
    ensures Smeared(n, n, 1)
  {
    forall k: nat
      ensures BitAt(n, k) <==> Window(n, k, 1)
    {
      assert BitAt(n, k) ==> Window(n, k, 1);
    }
  }

  lemma SmearedBit(n: Word, x: nat, h: nat, k: nat)
    requires Smeared(n, x, 64) && BitAt(n, h) && h < 64 && forall j :: j > h ==> !BitAt(n, j)
    ensures BitAt(x, k) <==> k <= h
  {
    hide BitAt;
    assert BitAt(x, k) <==> Window(n, k, 64);
    if k <= h {
      assert k <= h < k + 64 && BitAt(n, h);
    } else {
      assert !Window(n, k, 64);
    }
  }

  // A word smeared over 64 places is a mask of ones up to its leading bit.
  lemma SmearedIsMask(n: Word, x: nat, h: nat)
    requires Smeared(n, x, 64) && BitAt(n, h) && h < 64 && forall k :: k > h ==> !BitAt(n, k)
    ensures x == Pow2(h + 1) - 1
  {
    hide BitAt, Pow2, Smeared;
    forall k: nat
      ensures BitAt(x, k) <==> BitAt(Pow2(h + 1) - 1, k)
    {
      OnesBits(h + 1, k);
      SmearedBit(n, x, h, k);
    }
    BitsDecide(x, Pow2(h + 1) - 1);
  }

  lemma WordLead(n: Word) returns (h: nat)
    requires n > 0
    ensures h < 64 && Pow2(h) <= n < Pow2(h + 1) && BitAt(n, h) && forall k :: k > h ==> !BitAt(n, k)
  {
    h := LeadingBit(n);
    Pow64();
    if h >= 64 { PowMonotone(64, h); }
  }

  lemma SmearFits(n: Word)
    ensures Or32(Or16(Or8(Or4(Or2(Or1(n)))))) < WORD_SPAN
  {
    hide Or1, Or2, Or4, Or8, Or16, Or32, Smeared;
    var x := Or32(Or16(Or8(Or4(Or2(Or1(n))))));
    SmearWidth(n);
    Pow64();
    if n == 0 {
      SmearedZero(x);
    } else {
      var h := WordLead(n);
      SmearedIsMask(n, x, h);
      PowMonotone(h + 1, 64);
    }
  }

  lemma SmearedZero(x: nat)
    requires Smeared(0, x, 64)
    ensures x == 0
  {
    forall k: nat
      ensures BitAt(x, k) <==> BitAt(0, k)
    {
      assert BitAt(x, k) <==> Window(0, k, 64);
      ZeroBits(k);
      forall j | k <= j < k + 64
        ensures !BitAt(0, j)
      {
        ZeroBits(j);
      }
    }
    BitsDecide(x, 0);
  }

  // The power of two above the leading bit.
  lemma NextPow2Is(n: Word, h: nat)
    requires Pow2(h) <= n < Pow2(h + 1) && h < 63
    ensures NextPow2(n) == Pow2(h + 1)
  {
    hide Or1, Or2, Or4, Or8, Or16, Or32, Smeared;
    var g := WordLead(n);
    if g < h { PowMonotone(g + 1, h); }
    if h < g { PowMonotone(h + 1, g); }
    SmearWidth(n);
    SmearedIsMask(n, Smear(n), h);
    Pow64();
    PowMonotone(h + 1, 63);
  }

  lemma NextPow2Zero()
    ensures NextPow2(0) == 1
  {
    hide Or1, Or2, Or4, Or8, Or16, Or32, Smeared;
    SmearWidth(0);
    SmearedZero(Smear(0));
  }

  // With the highest bit set, all bits are smeared to ones and the increment wraps around.
  lemma NextPow2Wraps(n: Word)
    requires Pow2(63) <= n
    ensures NextPow2(n) == 0
  {
    hide Or1, Or2, Or4, Or8, Or16, Or32, Smeared;
    var h := WordLead(n);
    if h < 63 { PowMonotone(h + 1, 63); }
    SmearWidth(n);
    SmearedIsMask(n, Smear(n), 63);
    Pow64();
  }

  /** NEXT_POW2_64 is the least power of two above the word, or 0 if no such power is a word. */
  lemma NextPow2Least(n: Word) returns (k: nat)
    ensures if n < Pow2(63) then k <= 63 && NextPow2(n) == Pow2(k) > n && (k > 0 ==> Pow2(k - 1) <= n) else NextPow2(n) == 0
  {
    hide NextPow2;
    if n >= Pow2(63) {
      k := 64;
      NextPow2Wraps(n);
    } else if n == 0 {
      k := 0;
      NextPow2Zero();
    } else {
      var h := WordLead(n);
      NextPow2Is(n, h);
      k := h + 1;
    }
  }

  // ---------- counting ones ----------

  const SEVENS := 0x7777777777777777
  const THREES := 0x3333333333333333
  const ONES := 0x1111111111111111
  const LOWS := 0x0f0f0f0f0f0f0f0f

  // The three subtractions of BITCOUNT64, with masks of c hexadecimal digits
  function Digits(n: nat, sevens: nat, threes: nat, ones: nat): int {
    n - And(Shr(n, 1), sevens) - And(Shr(n, 2), threes) - And(Shr(n, 3), ones)
  }

  // BITCOUNT64
  function BitCount(n: Word): (r: nat)
    ensures r == PopCount(n)
  {
    DigitsCount(n);
    var u: nat := Digits(n, SEVENS, THREES, ONES);
    And(u + Shr(u, 4), LOWS) % 255
  }

  // c digits x in base b
  function Rep(b: nat, x: nat, c: nat): nat {
    if c == 0 then 0 else b * Rep(b, x, c - 1) + x
  }

  function Power(b: nat, d: nat): nat { if d == 0 then 1 else b * Power(b, d - 1) }

  lemma {:induction false} RepClosed(b: nat, c: nat)
    requires b == 16 || b == 256
    ensures (b - 1) * Rep(b, 1, c) == Power(b, c) - 1
  {
    if c > 0 { RepClosed(b, c - 1); }
  }

  lemma {:induction false} RepTimes(b: nat, x: nat, c: nat)
    requires (b == 16 && (x == 7 || x == 3)) || (b == 256 && x == 15)
    ensures Rep(b, x, c) == x * Rep(b, 1, c)
  {
    if c > 0 { RepTimes(b, x, c - 1); }
  }

  lemma Masks()
    ensures Rep(16, 7, 16) == SEVENS && Rep(16, 3, 16) == THREES && Rep(16, 1, 16) == ONES && Rep(256, 15, 8) == LOWS
  {
    hide Rep, Power;
    Spans();
    RepClosed(16, 16);
    RepClosed(256, 8);
    RepTimes(16, 7, 16);
    RepTimes(16, 3, 16);
    RepTimes(256, 15, 8);
  }

  lemma Associate(x: nat, y: nat, z: nat)
    ensures x * (y * z) == x * y * z
  {
  }

  lemma {:induction false} PowerAdd(b: nat, c: nat, d: nat)
    ensures Power(b, c + d) == Power(b, c) * Power(b, d)
  {
    if c > 0 {
      PowerAdd(b, c - 1, d);
      Associate(b, Power(b, c - 1), Power(b, d));
    }
  }

  // ---------- masking digit by digit ----------

  lemma AndBit(a: nat, b: nat, i: nat, j: nat)
    requires i < 2 && j < 2
    ensures And(2 * a + i, 2 * b + j) == 2 * And(a, b) + if i == 1 && j == 1 then 1 else 0
  {
    var x, y := 2 * a + i, 2 * b + j;
    assert x / 2 == a && y / 2 == b && x % 2 == i && y % 2 == j;
  }

  lemma AndTwo(a: nat, b: nat, x: nat, y: nat)
    requires x < 4 && y < 4
    ensures And(4 * a + x, 4 * b + y) == 4 * And(a, b) + And(x, y)
  {
    hide And;
    assert 4 * a + x == 2 * (2 * a + x / 2) + x % 2 && 4 * b + y == 2 * (2 * b + y / 2) + y % 2;
    AndBit(2 * a + x / 2, 2 * b + y / 2, x % 2, y % 2);
    AndBit(a, b, x / 2, y / 2);
    assert x == 2 * (x / 2) + x % 2 && y == 2 * (y / 2) + y % 2;
    AndBit(x / 2, y / 2, x % 2, y % 2);
    AndBit(0, 0, x / 2, y / 2);
    assert And(0, 0) == 0 by { AndNothing(0); }
  }

  // The low digits of the operands give the low digit of the result.
  lemma AndDigit(a: nat, b: nat, x: nat, y: nat)
    requires x < 16 && y < 16
    ensures And(16 * a + x, 16 * b + y) == 16 * And(a, b) + And(x, y)
  {
    hide And;
    assert 16 * a + x == 4 * (4 * a + x / 4) + x % 4 && 16 * b + y == 4 * (4 * b + y / 4) + y % 4;
    AndTwo(4 * a + x / 4, 4 * b + y / 4, x % 4, y % 4);
    AndTwo(a, b, x / 4, y / 4);
    AndTwo(x / 4, y / 4, x % 4, y % 4);
  }

  lemma AndOdd(x: nat, r: nat)
    ensures And(x, 2 * r + 1) == 2 * And(x / 2, r) + x % 2
  {
  }

  lemma AndNothing(n: nat)
    ensures And(n, 0) == 0
  {
  }

  lemma AndLow1(x: nat)
    ensures And(x, 1) == x % 2
  {
  }

  // One digit more of a remainder.
  lemma LowDigits2(x: nat)
    ensures x % 4 == 2 * (x / 2 % 2) + x % 2
  {
    var k, r := x / 4, x % 4;
    assert x == 4 * k + r && x / 2 == 2 * k + r / 2;
  }

  lemma LowDigits3(x: nat)
    ensures x % 8 == 2 * (x / 2 % 4) + x % 2
  {
    var k, r := x / 8, x % 8;
    assert x == 8 * k + r && x / 2 == 4 * k + r / 2;
  }

  lemma AndLow3(x: nat)
    ensures And(x, 3) == x % 4
  {
    hide And;
    AndOdd(x, 1);
    AndLow1(x / 2);
    LowDigits2(x);
  }

  lemma AndLow7(x: nat)
    ensures And(x, 7) == x % 8
  {
    hide And;
    AndOdd(x, 3);
    AndLow3(x / 2);
    LowDigits3(x);
  }

  lemma LowMasks(x: nat)
    requires x < 16
    ensures And(x, 7) == x % 8 && And(x, 3) == x % 4 && And(x, 1) == x % 2 && And(x, 15) == x && And(x, 0) == 0
  {
    hide And;
    AndNothing(x);
    AndLow1(x);
    AndLow3(x);
    AndLow7(x);
    AndOdd(x, 7);
    AndLow7(x / 2);
  }

  // ---------- the digits of the three subtractions ----------

  lemma PopTwo(m: nat, x: nat)
    requires x < 4
    ensures PopCount(4 * m + x) == PopCount(m) + PopCount(x) && PopCount(x) == x - x / 2
  {
    hide PopCount;
    assert 4 * m + x == 2 * (2 * m + x / 2) + x % 2;
    PopBit(2 * m + x / 2, x % 2);
    PopBit(m, x / 2);
    PopBit(x / 2, x % 2);
    PopBit(0, x / 2);
    PopZero();
  }

  lemma PopZero()
    ensures PopCount(0) == 0
  {
  }

  lemma PopDigit(m: nat, x: nat)
    requires x < 16
    ensures PopCount(16 * m + x) == PopCount(m) + PopCount(x) && PopCount(x) <= 4
    ensures PopCount(x) == x - x / 2 - x / 4 - x / 8
  {
    hide PopCount;
    assert 16 * m + x == 4 * (4 * m + x / 4) + x % 4;
    PopTwo(4 * m + x / 4, x % 4);
    PopTwo(m, x / 4);
    PopTwo(x / 4, x % 4);
    DigitArithmetic(x);
  }

  lemma DigitArithmetic(x: nat)
    requires x < 16
    ensures (x / 4 - x / 4 / 2) + (x % 4 - x % 4 / 2) == x - x / 2 - x / 4 - x / 8 <= 4
  {
  }

  lemma PopBit(m: nat, i: nat)
    requires i < 2
    ensures PopCount(2 * m + i) == PopCount(m) + i
  {
  }

  lemma Shifts(n: nat)
    ensures Shr(n, 1) == n / 2 && Shr(n, 2) == n / 4 && Shr(n, 3) == n / 8 && Shr(n, 4) == n / 16
  {
    assert Shr(n, 1) == Shr(n / 2, 0);
    assert Shr(n, 2) == Shr(n / 2, 1) == Shr(n / 2 / 2, 0);
    assert Shr(n, 3) == Shr(n / 2, 2) == Shr(n / 2 / 2, 1) == Shr(n / 2 / 2 / 2, 0);
    assert Shr(n, 4) == Shr(n / 2, 3) == Shr(n / 2 / 2, 2) == Shr(n / 2 / 2 / 2, 1) == Shr(n / 2 / 2 / 2 / 2, 0);
  }

  lemma ShiftOne(m: nat, x: nat)
    requires x < 16
    ensures (16 * m + x) / 2 == 16 * (m / 2) + (8 * (m % 2) + x / 2) && (8 * (m % 2) + x / 2) % 8 == x / 2
  {
    var q, r := m / 2, m % 2;
    assert m == 2 * q + r;
  }

  lemma ShiftTwo(m: nat, x: nat)
    requires x < 16
    ensures (16 * m + x) / 4 == 16 * (m / 4) + (4 * (m % 4) + x / 4) && (4 * (m % 4) + x / 4) % 4 == x / 4
  {
    var q, r := m / 4, m % 4;
    assert m == 4 * q + r;
  }

  lemma ShiftThree(m: nat, x: nat)
    requires x < 16
    ensures (16 * m + x) / 8 == 16 * (m / 8) + (2 * (m % 8) + x / 8) && (2 * (m % 8) + x / 8) % 2 == x / 8
  {
    var q, r := m / 8, m % 8;
    assert m == 8 * q + r;
  }

  // A shifted number, its low digit masked.
  lemma ShiftedDigit(m: nat, x: nat, r: nat)
    requires x < 16
    ensures And(Shr(16 * m + x, 1), 16 * r + 7) == 16 * And(Shr(m, 1), r) + x / 2
    ensures And(Shr(16 * m + x, 2), 16 * r + 3) == 16 * And(Shr(m, 2), r) + x / 4
    ensures And(Shr(16 * m + x, 3), 16 * r + 1) == 16 * And(Shr(m, 3), r) + x / 8
  {
    hide And, Shr;
    Shifts(m);
    Shifts(16 * m + x);
    ShiftOne(m, x);
    ShiftTwo(m, x);
    ShiftThree(m, x);
    AndDigit(m / 2, r, 8 * (m % 2) + x / 2, 7);
    LowMasks(8 * (m % 2) + x / 2);
    AndDigit(m / 4, r, 4 * (m % 4) + x / 4, 3);
    LowMasks(4 * (m % 4) + x / 4);
    AndDigit(m / 8, r, 2 * (m % 8) + x / 8, 1);
    LowMasks(2 * (m % 8) + x / 8);
  }

  // The number whose hexadecimal digits count the ones in the digits of n.
  function PopDigits(n: nat, c: nat): nat {
    if c == 0 then 0 else 16 * PopDigits(n / 16, c - 1) + PopCount(n % 16)
  }

  // One more digit, with one more digit in each mask.
  lemma DigitsStep(m: nat, x: nat, r7: nat, r3: nat, r1: nat)
    requires x < 16
    ensures Digits(16 * m + x, 16 * r7 + 7, 16 * r3 + 3, 16 * r1 + 1) == 16 * Digits(m, r7, r3, r1) + PopCount(x)
  {
    hide And, Shr, PopCount;
    ShiftedDigit(m, x, r7);
    ShiftedDigit(m, x, r3);
    ShiftedDigit(m, x, r1);
    PopDigit(m, x);
  }

  lemma {:induction false} DigitsArePop(n: nat, c: nat)
    requires n < Power(16, c)
    ensures Digits(n, Rep(16, 7, c), Rep(16, 3, c), Rep(16, 1, c)) == PopDigits(n, c)
  {
    hide And, Shr, PopCount;
    if c == 0 {
      AndZero(n);
    } else {
      hide Digits;
      var m, x := n / 16, n % 16;
      assert n == 16 * m + x;
      DigitsArePop(m, c - 1);
      DigitsStep(m, x, Rep(16, 7, c - 1), Rep(16, 3, c - 1), Rep(16, 1, c - 1));
    }
  }

  lemma AndZero(n: nat)
    ensures And(Shr(n, 1), 0) == 0 && And(Shr(n, 2), 0) == 0 && And(Shr(n, 3), 0) == 0
  {
  }

  // ---------- the sums of neighbouring digits ----------

  // The number whose bytes count the ones in the bytes of n.
  function PopBytes(n: nat, c: nat): nat {
    if c == 0 then 0 else 256 * PopBytes(n / 256, c - 1) + PopCount(n % 256)
  }

  lemma SumDigits(w: nat, p: nat, q: nat, r: nat)
    requires w % 16 <= 4 && p <= 4 && q <= 4
    ensures var u := 256 * w + 16 * p + q;
      And(u + Shr(u, 4), 256 * r + 15) == 256 * And(w + Shr(w, 4), r) + p + q
  {
    hide And, Shr;
    var u := 256 * w + 16 * p + q;
    Shifts(u);
    Shifts(w);
    var a := 16 * (w + w / 16) + (p + w % 16);
    assert u + u / 16 == 16 * a + (p + q);
    AndDigit(a, 16 * r, p + q, 15);
    LowMasks(p + q);
    AndDigit(w + w / 16, r, p + w % 16, 0);
    LowMasks(p + w % 16);
  }

  lemma {:induction false} BytesArePop(n: nat, c: nat)
    ensures var u := PopDigits(n, 2 * c);
      And(u + Shr(u, 4), Rep(256, 15, c)) == PopBytes(n, c)
  {
    hide And, Shr, PopCount;
    var u := PopDigits(n, 2 * c);
    if c == 0 {
      AndNothing(u + Shr(u, 4));
    } else {
      var m := n / 256;
      BytesArePop(m, c - 1);
      var w := PopDigits(m, 2 * (c - 1));
      var p, q := PopCount(n / 16 % 16), PopCount(n % 16);
      assert n / 16 / 16 == m;
      assert PopDigits(n / 16, 2 * c - 1) == 16 * w + p;
      assert u == 256 * w + 16 * p + q;
      PopDigit(0, n % 16);
      PopDigit(0, n / 16 % 16);
      LowDigit(m, 2 * (c - 1));
      SumDigits(w, p, q, Rep(256, 15, c - 1));
      assert n % 256 == 16 * (n / 16 % 16) + n % 16;
      PopDigit(n / 16 % 16, n % 16);
    }
  }

  lemma LowDigit(n: nat, c: nat)
    ensures PopDigits(n, c) % 16 <= 4
  {
    hide PopCount;
    PopDigit(0, n % 16);
  }

  // ---------- the sum of the bytes ----------

  // 256 leaves 1 modulo 255, so a number is congruent to the sum of its bytes.
  lemma {:induction false} BytesModulo(n: nat, c: nat) returns (k: nat)
    requires n < Power(256, c)
    ensures PopBytes(n, c) == 255 * k + PopCount(n)
  {
    hide PopCount;
    if c == 0 {
      k := 0;
      assert PopCount(0) == 0 by { PopDigit(0, 0); }
    } else {
      k := BytesModulo(n / 256, c - 1);
      var m := n / 256;
      k := PopBytes(m, c - 1) + k;
      PopByte(m, n % 256);
    }
  }

  lemma PopByte(m: nat, x: nat)
    requires x < 256
    ensures PopCount(256 * m + x) == PopCount(m) + PopCount(x)
  {
    hide PopCount;
    PopDigit(16 * m + x / 16, x % 16);
    PopDigit(m, x / 16);
    PopDigit(x / 16, x % 16);
    PopDigit(0, x / 16);
  }

  lemma {:induction false} PopBound(n: nat, k: nat)
    requires n < Pow2(k)
    ensures PopCount(n) <= k
  {
    if k > 0 { PopBound(n / 2, k - 1); }
  }

  lemma Spans()
    ensures Power(16, 16) == WORD_SPAN && Power(256, 8) == WORD_SPAN && Pow2(64) == WORD_SPAN
  {
    Pow64();
    assert Power(16, 2) == 256;
    PowerAdd(16, 2, 2);
    PowerAdd(16, 4, 4);
    PowerAdd(16, 8, 8);
    assert Power(256, 2) == 65536;
    PowerAdd(256, 2, 2);
    PowerAdd(256, 4, 4);
  }

  /** BITCOUNT64: what the masks, the shifts and the division by 255 leave is the number of
      ones, for every word. */
  lemma DigitsCount(n: Word)
    ensures var u := Digits(n, SEVENS, THREES, ONES); u >= 0 && And(u + Shr(u, 4), LOWS) % 255 == PopCount(n)
  {
    hide And, Shr, PopCount, Rep, PopDigits, PopBytes, Digits, Power, Pow2;
    Masks();
    Spans();
    DigitsArePop(n, 16);
    BytesArePop(n, 8);
    var k := BytesModulo(n, 8);
    PopBound(n, 64);
  }

  // ---------- the highest zero ----------

  // LEFTMOST_SET_BIT_64
  function LeftmostSetBit(n: Word): nat {
    BitCount((Shr(NextPow2(n), 1) - 1) % WORD_SPAN)
  }

  // BITMAP_FIRST_EMPTY_64
  function FirstEmpty(n: Word): int {
    if Not(n) == 0 then -1
    else if Not(n) >= Pow2(63) then 63
    else LeftmostSetBit(Not(n))
  }

  lemma HalfPower(h: nat)
    requires h < 63
    ensures Shr(Pow2(h + 1), 1) == Pow2(h) && 0 < Pow2(h) < WORD_SPAN
  {
    Shifts(Pow2(h + 1));
    Pow64();
    PowMonotone(h, 63);
  }

  lemma LeftmostIs(n: Word, h: nat)
    requires Pow2(h) <= n < Pow2(h + 1) && h < 63
    ensures LeftmostSetBit(n) == h
  {
    hide NextPow2, Shr, PopCount, Pow2, BitCount;
    NextPow2Is(n, h);
    HalfPower(h);
    PopOnes(h);
  }

  lemma {:induction false} NotBits(n: nat, w: nat, k: nat)
    requires n < Pow2(w) && k < w
    ensures BitAt(Pow2(w) - 1 - n, k) <==> !BitAt(n, k)
  {
    var m := Pow2(w) - 1 - n;
    assert m / 2 == Pow2(w - 1) - 1 - n / 2 && m % 2 == 1 - n % 2;
    if k > 0 { NotBits(n / 2, w - 1, k - 1); }
  }

  // Every bit of the word from k on is set.
  ghost predicate OnesFrom(n: Word, k: nat) {
    forall j :: k <= j < 64 ==> BitAt(n, j)
  }

  lemma NotFull(n: Word, h: nat)
    requires h < 64 && BitAt(Not(n), h) && forall k :: k > h ==> !BitAt(Not(n), k)
    ensures !BitAt(n, h) && !OnesFrom(n, 0) && OnesFrom(n, h + 1)
  {
    hide Pow2;
    Pow64();
    NotBits(n, 64, h);
    assert OnesFrom(n, 0) ==> BitAt(n, h);
    forall j | h + 1 <= j < 64
      ensures BitAt(n, j)
    {
      NotBits(n, 64, j);
    }
  }

  lemma AllOnes(n: Word)
    requires Not(n) == 0
    ensures OnesFrom(n, 0)
  {
    hide Pow2;
    Pow64();
    forall j | 0 <= j < 64
      ensures BitAt(n, j)
    {
      NotBits(n, 64, j);
      ZeroBits(j);
    }
  }

  // And the other way round.
  lemma OnlyOnes(n: Word)
    requires OnesFrom(n, 0)
    ensures Not(n) == 0
  {
    hide Pow2, BitAt;
    Pow64();
    forall k: nat
      ensures BitAt(n, k) <==> BitAt(Pow2(64) - 1, k)
    {
      OnesBits(64, k);
      if k >= 64 { HighBits(n, 64, k); }
    }
    BitsDecide(n, Pow2(64) - 1);
  }

  /** BITMAP_FIRST_EMPTY_64 is -1 exactly for the word of ones, and the position of the highest
      zero of any other word. */
  lemma FirstEmptyIs(n: Word)
    ensures FirstEmpty(n) == -1 <==> OnesFrom(n, 0)
    ensures FirstEmpty(n) != -1 ==>
      0 <= FirstEmpty(n) < 64 && !BitAt(n, FirstEmpty(n)) && OnesFrom(n, FirstEmpty(n) + 1)
  {
    hide BitAt, Pow2, LeftmostSetBit, OnesFrom;
    if Not(n) == 0 {
      AllOnes(n);
    } else {
      var h := WordLead(Not(n));
      if h < 63 {
        PowMonotone(h + 1, 63);
        LeftmostIs(Not(n), h);
      }
      NotFull(n, h);
    }
  }
}
