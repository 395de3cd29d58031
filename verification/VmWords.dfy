/** Arithmetic on 256-bit words (libaleth-interpreter/VMOpt.cpp:185-197, VM.cpp:139-149, 605-630, 764-829;
  libdevcore/Common.h:150-168).

  A word is a number below 2^256. Bitwise operations are defined bit by bit. */
module VmWords {
  import opened VmCode

  const HALF := 0x8000_0000_0000_0000_0000_0000_0000_0000_0000_0000_0000_0000_0000_0000_0000_0000

  function Power(base: nat, exponent: nat): nat {
    if exponent == 0 then 1 else base * Power(base, exponent - 1)
  }

  // ---------------------------------------------------------------- exponentiation

  lemma {:induction false} PowerSquare(base: nat, exponent: nat)
    ensures Power(base * base, exponent) == Power(base, 2 * exponent)
  {
    if exponent > 0 {
      PowerSquare(base, exponent - 1);
      assert Power(base, 2 * exponent) == base * (base * Power(base, 2 * exponent - 2));
      assert base * (base * Power(base, 2 * exponent - 2)) == (base * base) * Power(base, 2 * exponent - 2);
    }
  }

  lemma MultipleAway(m: int, d: int)
    requires m > 0
    ensures d >= 1 ==> m * d >= m
    ensures d <= -1 ==> m * d <= -m
  {
    assert m * d == m + m * (d - 1);
    assert m * d == -m + m * (d + 1);
  }

  /** Quotient and remainder are determined by the sum they make. */
  lemma ModUnique(x: nat, m: nat, q: nat, r: nat)
    requires m > 0 && r < m && x == m * q + r
    ensures x % m == r && x / m == q
  {
    var p := x / m;
    assert x == m * p + x % m;
    assert m * (q - p) == m * q - m * p;
    MultipleAway(m, q - p);
  }

  lemma ModPlus(x: nat, k: nat, m: nat)
    requires m > 0
    ensures (x + m * k) % m == x % m
  {
    var q := x / m;
    assert x == m * q + x % m;
    assert m * (q + k) == m * q + m * k;
    ModUnique(x + m * k, m, q + k, x % m);
  }

  lemma ModTimes(a: nat, b: nat, m: nat)
    requires m > 0
    ensures (a % m) * b % m == a * b % m
  {
    var q, r := a / m, a % m;
    assert a == m * q + r;
    Distributes(m, q, r, b);
    ModPlus(r * b, q * b, m);
  }

  lemma Distributes(m: int, q: int, r: int, b: int)
    ensures (m * q + r) * b == r * b + m * (q * b)
  {
    assert (m * q) * b == m * (q * b);
  }

  lemma {:induction false} PowerMod(base: nat, exponent: nat, m: nat)
    requires m > 0
    ensures Power(base % m, exponent) % m == Power(base, exponent) % m
  {
    if exponent > 0 {
      var p, q := Power(base % m, exponent - 1), Power(base, exponent - 1);
      PowerMod(base, exponent - 1, m);
      ModTimes(base, p, m);
      ModTimes(p, base, m);
      ModTimes(q, base, m);
      assert base * p == p * base && base * q == q * base;
    }
  }

  /** exp256: squaring, modulo 2^256. */
  method Exp256(base: Word, exponent: Word) returns (result: Word)
    ensures result == Power(base, exponent) % WORD_LIMIT
  {
    hide Power;
    result := 1;
    var b: Word, e: nat := base, exponent;
    while e != 0
      invariant result * Power(b, e) % WORD_LIMIT == Power(base, exponent) % WORD_LIMIT
      decreases e
    {
      ExpStep(result, b, e, WORD_LIMIT);
      if e % 2 == 1 {
        result := result * b % WORD_LIMIT;
      }
      b := b * b % WORD_LIMIT;
      e := e / 2;
    }
    PowerZero(b);
  }

  lemma PowerZero(b: nat)
    ensures Power(b, 0) == 1
  {
  }

  lemma ExpStep(result: nat, b: nat, e: nat, m: nat)
    requires e > 0 && m > 0
    ensures (if e % 2 == 1 then result * b % m else result) * Power(b * b % m, e / 2) % m == result * Power(b, e) % m
  {
    hide Power;
    var h := e / 2;
    var squared, reduced := Power(b * b, h), Power(b * b % m, h);
    PowerSquare(b, h);
    PowerMod(b * b, h, m);
    PowerOdd(b, e);
    if e % 2 == 1 {
      ModTimes(result * b, reduced, m);
      SameFactor(result * b, reduced, squared, m);
      assert result * b * squared == result * (b * squared);
    } else {
      SameFactor(result, reduced, squared, m);
    }
  }

  lemma SameFactor(x: nat, p: nat, q: nat, m: nat)
    requires m > 0 && p % m == q % m
    ensures x * p % m == x * q % m
  {
    ModTimes(p, x, m);
    ModTimes(q, x, m);
    assert x * p == p * x && x * q == q * x;
  }

  lemma PowerOdd(b: nat, e: nat)
    requires e > 0
    ensures Power(b, e) == (if e % 2 == 1 then b else 1) * Power(b, 2 * (e / 2))
  {
  }

  // ---------------------------------------------------------------- two's complement

  /** u2s. */
  function Signed(u: Word): (s: int)
    ensures -HALF <= s < HALF
  {
    if u >= HALF then -(WORD_LIMIT - u) else u
  }

  /** s2u. */
  function Unsigned(s: int): Word
    requires -HALF <= s <= HALF
  {
    if s >= 0 then s else WORD_LIMIT + s
  }

  lemma SignedUnsigned(u: Word, s: int)
    ensures Unsigned(Signed(u)) == u
    ensures -HALF <= s < HALF ==> Signed(Unsigned(s)) == s
    ensures 2 * HALF == WORD_LIMIT && -HALF <= Signed(u) < HALF && (Signed(u) == u || Signed(u) == u - WORD_LIMIT)
  {
  }

  /** Division and remainder of C++, which cut towards zero. */
  function Quotient(a: int, b: int): int
    requires b != 0
  {
    var q := Abs(a) / Abs(b);
    if (a < 0) == (b < 0) then q else -q
  }

  function Remainder(a: int, b: int): int
    requires b != 0
  {
    var r := Abs(a) % Abs(b);
    if a < 0 then -r else r
  }

  function Abs(a: int): nat {
    if a < 0 then -a else a
  }

  lemma QuotientBound(a: nat, b: nat)
    requires b > 0
    ensures a / b <= a && a == b * (a / b) + a % b
  {
    Multiple(b, a / b);
  }

  lemma Multiple(b: nat, q: nat)
    requires b > 0
    ensures b * q >= q
  {
    assert b * q == q + (b - 1) * q;
  }

  function Sdiv(a: Word, b: Word): Word {
    if b == 0 then 0
    else
      QuotientBound(Abs(Signed(a)), Abs(Signed(b)));
      Unsigned(Quotient(Signed(a), Signed(b)))
  }

  function Smod(a: Word, b: Word): Word {
    if b == 0 then 0 else Unsigned(Remainder(Signed(a), Signed(b)))
  }

  /** Quotient and remainder belong together: the remainder has the sign of the dividend and is less than the divisor.
    Only the least number divided by minus one does not fit and wraps around to itself. By zero, both are zero. */
  lemma SignedDivision(a: Word, b: Word)
    ensures b == 0 ==> Sdiv(a, b) == 0 && Smod(a, b) == 0
    ensures b != 0 ==> var x, y, q, r := Signed(a), Signed(b), Signed(Sdiv(a, b)), Signed(Smod(a, b));
      && Abs(r) < Abs(y) && (r != 0 ==> (r < 0 <==> x < 0))
      && (x == q * y + r <==> !(x == -HALF && y == -1))
      && (x == -HALF && y == -1 ==> q == -HALF && r == 0)
  {
    if b != 0 {
      var x, y := Signed(a), Signed(b);
      QuotientBound(Abs(x), Abs(y));
      QuotientTimes(x, y);
      QuotientFits(x, y);
      QuotientFitsNot();
    }
  }

  lemma QuotientTimes(x: int, y: int)
    requires y != 0
    ensures x == Quotient(x, y) * y + Remainder(x, y)
    ensures Abs(Remainder(x, y)) < Abs(y)
  {
    var m: int, n: int := Abs(x), Abs(y);
    var q: int := m / n;
    assert m == n * q + m % n;
    assert n * q == q * n && q * -n == -(q * n) && -q * n == -(q * n) && -q * -n == q * n;
  }

  lemma QuotientFits(x: int, y: int)
    requires -HALF <= x < HALF && -HALF <= y < HALF && y != 0
    ensures -HALF <= Quotient(x, y) <= HALF
    ensures Quotient(x, y) == HALF <==> x == -HALF && y == -1
  {
    var m, n := Abs(x), Abs(y);
    QuotientBound(m, n);
    if n > 1 {
      HalfAtMost(m, n);
    } else {
      assert m / n == m;
    }
  }

  lemma HalfAtMost(m: nat, n: nat)
    requires n > 1
    ensures 2 * (m / n) <= m
  {
    var q := m / n;
    assert m == n * q + m % n;
    assert n * q == 2 * q + (n - 2) * q;
    MulNatural(n - 2, q);
  }

  lemma MulNatural(a: nat, b: nat)
    ensures a * b >= 0
  {
  }

  lemma QuotientFitsNot()
    ensures Quotient(-HALF, -1) == HALF && Remainder(-HALF, -1) == 0
    ensures Signed(Unsigned(HALF)) == -HALF && -HALF != -HALF * -1 + 0
  {
  }

  // ---------------------------------------------------------------- bits

  /** Bitwise or. */
  function Or(a: nat, b: nat): nat {
    if a == 0 && b == 0 then 0 else (if a % 2 == 1 || b % 2 == 1 then 1 else 0) + 2 * Or(a / 2, b / 2)
  }

  /** Bitwise and. */
  function And(a: nat, b: nat): nat {
    if a == 0 || b == 0 then 0 else (if a % 2 == 1 && b % 2 == 1 then 1 else 0) + 2 * And(a / 2, b / 2)
  }

  function Two(k: nat): (power: nat)
    ensures power > 0
  {
    if k == 0 then 1 else 2 * Two(k - 1)
  }

  /** A mask of the low bits cuts a number off. */
  lemma {:induction false} AndMask(a: nat, k: nat)
    ensures And(a, Two(k) - 1) == a % Two(k)
  {
    if k > 0 && a > 0 {
      AndMask(a / 2, k - 1);
      HalvedMod(a, k);
      OddMask(k);
      assert And(a, Two(k) - 1) == a % 2 + 2 * And(a / 2, Two(k - 1) - 1);
    } else if a == 0 {
      SmallMod(0, Two(k));
    }
  }

  lemma OddMask(k: nat)
    requires k > 0
    ensures (Two(k) - 1) / 2 == Two(k - 1) - 1 && (Two(k) - 1) % 2 == 1
  {
    var low := Two(k - 1) - 1;
    assert Two(k) - 1 == 2 * low + 1;
  }

  lemma HalvedMod(a: nat, k: nat)
    requires k > 0
    ensures a % Two(k) == a % 2 + 2 * (a / 2 % Two(k - 1))
  {
    var m := Two(k - 1);
    var q := a / 2 / m;
    assert a == a % 2 + 2 * (a / 2 % m) + (2 * m) * q by {
      assert a / 2 == m * q + a / 2 % m;
      assert 2 * (m * q) == (2 * m) * q;
    }
    ModPlus(a % 2 + 2 * (a / 2 % m), q, 2 * m);
    SmallMod(a % 2 + 2 * (a / 2 % m), 2 * m);
  }

  lemma SmallMod(x: nat, m: nat)
    requires x < m
    ensures x % m == x
  {
  }

  /** Setting all bits from k up to n leaves the low bits. */
  lemma {:induction false} OrMask(a: nat, k: nat, n: nat)
    requires k <= n
    ensures Two(k) <= Two(n)
    ensures a < Two(n) ==> Or(a, Two(n) - Two(k)) == Two(n) - Two(k) + a % Two(k)
    decreases n
  {
    if k == 0 {
      OrAll(a, n);
    } else {
      OrMask(a / 2, k - 1, n - 1);
      HalvedMod(a, k);
      assert (Two(n) - Two(k)) / 2 == Two(n - 1) - Two(k - 1) && (Two(n) - Two(k)) % 2 == 0;
    }
  }

  lemma {:induction false} OrAll(a: nat, n: nat)
    ensures a < Two(n) ==> Or(a, Two(n) - 1) == Two(n) - 1
  {
    if n > 0 {
      OrAll(a / 2, n - 1);
      OddMask(n);
      assert a < Two(n) ==> a / 2 < Two(n - 1);
      assert Or(a, Two(n) - 1) == 1 + 2 * Or(a / 2, Two(n - 1) - 1);
    }
  }

  lemma {:induction false} TwoPlus(a: nat, b: nat)
    ensures Two(a + b) == Two(a) * Two(b)
  {
    if a > 0 {
      TwoPlus(a - 1, b);
    }
  }

  lemma TwoWord()
    ensures Two(256) == WORD_LIMIT && Two(255) == HALF
  {
    assert Two(8) == 0x100;
    TwoPlus(8, 8);
    assert Two(16) == 0x1_0000;
    TwoPlus(16, 16);
    assert Two(32) == 0x1_0000_0000;
    TwoPlus(32, 32);
    assert Two(64) == 0x1_0000_0000_0000_0000;
    TwoPlus(64, 64);
    assert Two(128) == 0x1_0000_0000_0000_0000_0000_0000_0000_0000;
    TwoPlus(128, 128);
  }

  lemma {:induction false} TwoGrows(a: nat, b: nat)
    requires a <= b
    ensures Two(a) <= Two(b)
  {
    if a < b {
      TwoGrows(a, b - 1);
    }
  }

  /** bit_test. */
  function Bit(a: nat, k: nat): bool {
    a / Two(k) % 2 == 1
  }

  /** One more bit of a number's low part. */
  lemma LowBits(a: nat, k: nat)
    ensures a % Two(k + 1) == a % Two(k) + if Bit(a, k) then Two(k) else 0
  {
    var m := Two(k);
    var q := a / m;
    var top := q % 2;
    assert a == (2 * m) * (q / 2) + (a % m + m * top) by {
      assert q == 2 * (q / 2) + top;
      assert m * q == m * (2 * (q / 2)) + m * top;
      assert m * (2 * (q / 2)) == (2 * m) * (q / 2);
    }
    assert m * top == if Bit(a, k) then m else 0;
    ModUnique(a, 2 * m, q / 2, a % m + m * top);
  }

  lemma {:induction false} AndBit(a: nat, k: nat)
    ensures And(a, Two(k)) == if Bit(a, k) then Two(k) else 0
  {
    if k == 0 {
      assert And(a, 1) == a % 2 + 2 * And(a / 2, 0) || a == 0;
    } else if a > 0 {
      AndBit(a / 2, k - 1);
      HalvedDiv(a, k);
      assert Two(k) / 2 == Two(k - 1) && Two(k) % 2 == 0;
    } else {
      ModUnique(0, Two(k), 0, 0);
    }
  }

  lemma HalvedDiv(a: nat, k: nat)
    requires k > 0
    ensures a / Two(k) == a / 2 / Two(k - 1)
  {
    var m := Two(k - 1);
    var q := a / 2 / m;
    assert a == (2 * m) * q + (a % 2 + 2 * (a / 2 % m)) by {
      assert a / 2 == m * q + a / 2 % m;
      assert 2 * (m * q) == (2 * m) * q;
    }
    ModUnique(a, 2 * m, q, a % 2 + 2 * (a / 2 % m));
  }

  // ---------------------------------------------------------------- shifting right with the sign

  /** Shifts of 256-bit words; what goes over the top is lost. */
  function ShiftLeft(w: Word, n: nat): Word {
    w * Two(n) % WORD_LIMIT
  }

  function ShiftRight(w: Word, n: nat): Word {
    Down(w, Two(n))
  }

  function Down(w: nat, m: nat): (q: nat)
    requires m > 0
    ensures q <= w
  {
    QuotientBound(w, m);
    w / m
  }

  /** SAR: the shift, then all bits above it if the number is negative. */
  function Sar(amount: Word, shiftee: Word): Word {
    if amount >= 256 then
      if And(shiftee, HALF) != 0 then WORD_LIMIT - 1 else 0
    else
      var low := ShiftRight(shiftee, amount);
      if And(shiftee, HALF) != 0 then
        ShiftedDown(shiftee, amount);
        FilledAbove(low, 256 - amount);
        Or(low, ShiftLeft(WORD_LIMIT - 1, 256 - amount))
      else low
  }

  lemma FilledAbove(low: nat, k: nat)
    requires k <= 256 && low < Two(k)
    ensures Or(low, ShiftLeft(WORD_LIMIT - 1, k)) == WORD_LIMIT - Two(k) + low < WORD_LIMIT
  {
    hide Or;
    TwoWord();
    TwoGrows(k, 256);
    AllBitsUp(k);
    OrMask(low, k, 256);
    SmallMod(low, Two(k));
  }

  lemma ShiftedDown(v: Word, n: nat)
    requires n <= 256
    ensures ShiftRight(v, n) < Two(256 - n)
  {
    TwoWord();
    TwoPlus(n, 256 - n);
    TwoGrows(256 - n, 256);
    BelowProduct(v, Two(n), Two(256 - n));
  }

  lemma BelowProduct(v: nat, m: nat, n: nat)
    requires m > 0 && v < m * n
    ensures v / m < n
  {
    var q := v / m;
    assert v == m * q + v % m;
    assert m * (q - n) == m * q - m * n;
    MultipleAway(m, q - n);
    assert q - n == 0 ==> m * (q - n) == 0;
  }

  lemma AllBitsUp(n: nat)
    requires n <= 256
    ensures Two(n) <= WORD_LIMIT && (WORD_LIMIT - 1) * Two(n) % WORD_LIMIT == Two(256) - Two(n)
  {
    TwoWord();
    TwoGrows(n, 256);
    var t := Two(n);
    assert (WORD_LIMIT - 1) * t == WORD_LIMIT * (t - 1) + (WORD_LIMIT - t);
    ModUnique((WORD_LIMIT - 1) * t, WORD_LIMIT, t - 1, WORD_LIMIT - t);
  }

  /** SAR is division by the power of two, rounded down. */
  lemma SarFloors(amount: Word, v: Word)
    ensures Signed(Sar(amount, v)) == Signed(v) / Two(amount)
  {
    SignBit(v);
    if amount >= 256 {
      TwoWord();
      TwoGrows(256, amount);
      FloorSmall(Signed(v), Two(amount));
    } else {
      SarSmall(amount, v);
    }
  }

  lemma SignBit(v: Word)
    ensures And(v, HALF) != 0 <==> v >= HALF
  {
    TwoWord();
    AndBit(v, 255);
    if v >= HALF {
      ModUnique(v, HALF, 1, v - HALF);
    } else {
      ModUnique(v, HALF, 0, v);
    }
  }

  lemma FloorSmall(x: int, m: int)
    requires -m <= x < m
    ensures x / m == if x < 0 then -1 else 0
  {
    var d := if x < 0 then -1 else 0;
    FloorUnique(x, m, d, x - m * d);
  }

  lemma FloorUnique(x: int, m: int, q: int, r: int)
    requires m > 0 && 0 <= r < m && x == m * q + r
    ensures x / m == q
  {
    var p := x / m;
    assert x == m * p + x % m;
    assert m * (q - p) == m * q - m * p;
    MultipleAway(m, q - p);
  }

  lemma SarSmall(n: nat, v: Word)
    requires n < 256
    ensures Signed(Sar(n, v)) == Signed(v) / Two(n)
  {
    hide Or, And, Two, ShiftLeft, ShiftRight;
    SignBit(v);
    if v >= HALF {
      ShiftedDown(v, n);
      FilledAbove(ShiftRight(v, n), 256 - n);
      FloorNegative(v, n);
    } else {
      FloorPositive(v, n);
    }
  }

  lemma FloorPositive(v: Word, n: nat)
    requires n < 256 && v < HALF
    ensures ShiftRight(v, n) == v / Two(n) < HALF
  {
    QuotientBound(v, Two(n));
  }

  lemma FloorNegative(v: Word, n: nat)
    requires n < 256 && v >= HALF
    ensures (v - WORD_LIMIT) / Two(n) == ShiftRight(v, n) - Two(256 - n) >= -HALF
  {
    hide Two;
    TwoWord();
    TwoPlus(n, 256 - n);
    AtLeastHalf(v, n);
    FloorShifted(v, WORD_LIMIT, Two(n), Two(256 - n));
  }

  lemma FloorShifted(v: int, limit: int, m: int, room: int)
    requires m > 0 && limit == m * room
    ensures (v - limit) / m == v / m - room
  {
    var low := v / m;
    assert v == m * low + v % m;
    assert m * (low - room) == m * low - m * room;
    FloorUnique(v - limit, m, low - room, v % m);
  }

  lemma AtLeastHalf(v: Word, n: nat)
    requires n < 256 && v >= HALF
    ensures v / Two(n) >= Two(255 - n) && Two(256 - n) == 2 * Two(255 - n) <= 2 * HALF
  {
    TwoWord();
    TwoPlus(n, 255 - n);
    TwoGrows(255 - n, 255);
    var m, half := Two(n), Two(255 - n);
    var q := v / m;
    assert v == m * q + v % m;
    assert m * (q - half) == m * q - m * half;
    MultipleAway(m, q - half);
  }

  // ---------------------------------------------------------------- sign extension

  function SignExtend(k: Word, number: Word): (extended: Word) {
    if k >= 31 then number
    else
      var testBit := k * 8 + 7;
      TwoWord();
      TwoGrows(testBit, 256);
      var mask := Two(testBit) - 1;
      OrMask(number, testBit, 256);
      AndMask(number, testBit);
      ModBelow(number, Two(testBit));
      if Bit(number, testBit) then Or(number, WORD_LIMIT - 1 - mask) else And(number, mask)
  }

  lemma ModBelow(a: nat, m: nat)
    requires m > 0
    ensures a % m < m && a % m <= a
  {
    QuotientBound(a, m);
    MulNatural(m, a / m);
  }

  /** The low k + 1 bytes, read as a signed number of that width. */
  function SignedBytes(k: nat, number: Word): int {
    var low := number % Two(8 * k + 8);
    if low >= Two(8 * k + 7) then low - Two(8 * k + 8) else low
  }

  /** The low k + 1 bytes stay, and the number is the one of that width that is read from them. */
  lemma SignExtendsExactly(k: Word, number: Word)
    requires k <= 31
    ensures var m: int, extended := Power(2, 8 * (k + 1)), Signed(SignExtend(k, number));
      m > 0 && (extended - number) % m == 0 && -m <= 2 * extended < m
  {
    hide SignExtend, Power, Signed;
    SignExtends(k, number);
    TwoIsPower(8 * k + 8);
    TwoIsPower(8 * k + 7);
    LowSigned(number, Two(8 * k + 8), Two(8 * k + 7));
    if k == 31 {
      assert Signed(SignExtend(k, number)) == SignedBytes(k, number);
    }
  }

  lemma {:induction false} TwoIsPower(k: nat)
    ensures Two(k) == Power(2, k) && Two(k + 1) == 2 * Two(k)
  {
    if k > 0 {
      TwoIsPower(k - 1);
    }
  }

  lemma LowSigned(number: nat, m: nat, half: nat)
    requires m == 2 * half && half > 0
    ensures var low := number % m;
      var s, width: int := if low >= half then low - m else low, m;
      (s - number) % width == 0 && -width <= 2 * s < width
  {
    var q := number / m;
    assert number == m * q + number % m;
    ModBelow(number, m);
    MultipleMod(m, -q);
    MultipleMod(m, -q - 1);
    assert -(m * q) == m * -q && -(m * q) - m == m * (-q - 1);
  }

  lemma MultipleMod(m: nat, q: int)
    requires m > 0
    ensures m * q % m == 0
  {
    var r, d := m * q % m, m * q / m;
    assert m * q == m * d + r;
    assert m * (q - d) == m * q - m * d == r;
    MultipleAway(m, q - d);
  }

  lemma SignExtends(k: Word, number: Word)
    ensures Signed(SignExtend(k, number)) == if k >= 31 then Signed(number) else SignedBytes(k, number)
    ensures k == 31 ==> Signed(number) == SignedBytes(k, number)
  {
    hide Or, And;
    TwoWord();
    if k < 31 {
      var t := 8 * k + 7;
      OrMask(number, t, 256);
      AndMask(number, t);
      LowBits(number, t);
      ModBelow(number, Two(t));
      TwoGrows(t, 255);
    } else if k == 31 {
      SmallMod(number, WORD_LIMIT);
    }
  }
}
