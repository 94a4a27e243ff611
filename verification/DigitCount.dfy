/** count_digits of format.h: the branchless form, the loop, and the true decimal length. */
module DigitCount {
  import opened Decimal
  import opened Powers

  // ----- The tables of format.cc -----

  const POWERS_OF_10_32: seq<nat> := [0, 10, 100, 1000, 10000, 100000, 1000000, 10000000, 100000000, 1000000000]

  const POWERS_OF_10_64: seq<nat> := [
    0, 10, 100, 1000, 10000, 100000, 1000000, 10000000, 100000000, 1000000000,
    10000000000, 100000000000, 1000000000000, 10000000000000, 100000000000000,
    1000000000000000, 10000000000000000, 100000000000000000, 1000000000000000000,
    10000000000000000000
  ]

  lemma Pow10To10()
    ensures Pow10(0) == 1 && Pow10(1) == 10 && Pow10(2) == 100 && Pow10(3) == 1000 && Pow10(4) == 10000
    ensures Pow10(5) == 100000 && Pow10(6) == 1000000 && Pow10(7) == 10000000 && Pow10(8) == 100000000
    ensures Pow10(9) == 1000000000
    ensures Pow10(10) == 10000000000
  {
  }

  lemma Pow10To20()
    ensures Pow10(10) == 10000000000 && Pow10(11) == 100000000000 && Pow10(12) == 1000000000000
    ensures Pow10(13) == 10000000000000 && Pow10(14) == 100000000000000 && Pow10(15) == 1000000000000000
    ensures Pow10(16) == 10000000000000000 && Pow10(17) == 100000000000000000 && Pow10(18) == 1000000000000000000
    ensures Pow10(19) == 10000000000000000000 && Pow10(20) == 100000000000000000000
  {
    Pow10To10();
    assert Pow10(12) == 10 * (10 * Pow10(10)) && Pow10(14) == 10 * (10 * Pow10(12));
    assert Pow10(16) == 10 * (10 * Pow10(14)) && Pow10(18) == 10 * (10 * Pow10(16));
    assert Pow10(20) == 10 * (10 * Pow10(18));
  }

  /** The tables hold the powers of ten, but 0 at index 0. */
  lemma TableEntry(t: nat)
    ensures t < 10 ==> POWERS_OF_10_32[t] == if t == 0 then 0 else Pow10(t)
    ensures t < 20 ==> POWERS_OF_10_64[t] == if t == 0 then 0 else Pow10(t)
  {
    Pow10To10();
    Pow10To20();
  }

  // ----- Bits -----

  /** The position of the highest one bit, counted from 1: the width less the leading zeros. */
  function BitLength(n: nat): nat {
    if n == 0 then 0 else 1 + BitLength(n / 2)
  }

  /** n | 1 */
  function Odd(n: nat): nat {
    if n % 2 == 0 then n + 1 else n
  }

  lemma {:induction false} BitLengthBounds(n: nat)
    requires n >= 1
    ensures BitLength(n) >= 1 && Pow2(BitLength(n) - 1) <= n < Pow2(BitLength(n))
  {
    if n > 1 {
      BitLengthBounds(n / 2);
    }
  }

  lemma {:induction false} Pow2Monotone(a: nat, b: nat)
    requires a <= b
    ensures Pow2(a) <= Pow2(b)
    decreases b
  {
    if a < b {
      Pow2Monotone(a, b - 1);
    }
  }

  lemma {:induction false} BitLengthAtMost(n: nat, width: nat)
    requires n < Pow2(width)
    ensures BitLength(n) <= width
  {
    if n > 0 {
      BitLengthAtMost(n / 2, width - 1);
    }
  }

  lemma Pow2Add3(k: nat)
    ensures Pow2(k + 3) == 8 * Pow2(k)
  {
    assert Pow2(k + 1) == 2 * Pow2(k) && Pow2(k + 2) == 2 * Pow2(k + 1);
  }

  lemma Pow2Add4(k: nat)
    ensures Pow2(k + 4) == 16 * Pow2(k)
  {
    Pow2Add3(k);
    assert Pow2(k + 4) == 2 * Pow2(k + 3);
  }

  /** Two to the largest bit length of each estimate. */
  lemma Pow2Values()
    ensures Pow2(3) == 0x8 && Pow2(6) == 0x40 && Pow2(9) == 0x200 && Pow2(13) == 0x2000
    ensures Pow2(16) == 0x10000 && Pow2(19) == 0x80000 && Pow2(23) == 0x800000 && Pow2(26) == 0x4000000
    ensures Pow2(29) == 0x20000000 && Pow2(33) == 0x200000000 && Pow2(36) == 0x1000000000 && Pow2(39) == 0x8000000000
    ensures Pow2(43) == 0x80000000000 && Pow2(46) == 0x400000000000
    ensures Pow2(49) == 0x2000000000000 && Pow2(53) == 0x20000000000000
    ensures Pow2(56) == 0x100000000000000 && Pow2(59) == 0x800000000000000
    ensures Pow2(63) == 0x8000000000000000 && Pow2(66) == 0x40000000000000000
  {
    Pow2Add3(0); Pow2Add3(3); Pow2Add3(6); Pow2Add4(9); Pow2Add3(13);
    Pow2Add3(16); Pow2Add4(19); Pow2Add3(23); Pow2Add3(26); Pow2Add4(29);
    Pow2Add3(33); Pow2Add3(36); Pow2Add4(39); Pow2Add3(43); Pow2Add3(46);
    Pow2Add4(49); Pow2Add3(53); Pow2Add3(56); Pow2Add4(59); Pow2Add3(63);
  }

  lemma Limits()
    ensures Pow2(32) == LIMIT_32 && Pow2(64) == LIMIT_64
  {
    Pow2Values();
    assert Pow2(32) == 2 * (2 * (2 * Pow2(29)));
    assert Pow2(64) == 2 * Pow2(63);
  }

  lemma OddBelow(n: nat, width: nat)
    requires n < Pow2(width) && width >= 1
    ensures BitLength(Odd(n)) <= width
  {
    assert Pow2(width) == 2 * Pow2(width - 1);
    BitLengthAtMost(Odd(n), width);
  }

  /** A number keeps its width when its last bit is set. */
  lemma OddBits(n: nat)
    requires n < LIMIT_64
    ensures 1 <= BitLength(Odd(n)) <= 64 && (n < LIMIT_32 ==> BitLength(Odd(n)) <= 32)
    ensures Pow2(BitLength(Odd(n)) - 1) <= Odd(n) < Pow2(BitLength(Odd(n)))
  {
    Limits();
    BitLengthBounds(Odd(n));
    OddBelow(n, 64);
    if n < LIMIT_32 {
      OddBelow(n, 32);
    }
  }

  // ----- The branchless forms -----

  /** Multiplying by 1233 and shifting right by 12 approximates the decimal logarithm of two. */
  function Estimate(bits: nat): nat {
    bits * 1233 / 4096
  }

  function CountDigits32(n: nat): int
    requires n < LIMIT_32
  {
    OddBits(n);
    var t := Estimate(BitLength(Odd(n)));
    t - (if n < POWERS_OF_10_32[t] then 1 else 0) + 1
  }

  function CountDigits64(n: nat): int
    requires n < LIMIT_64
  {
    OddBits(n);
    var t := Estimate(BitLength(Odd(n)));
    t - (if n < POWERS_OF_10_64[t] then 1 else 0) + 1
  }

  /** The largest bit length whose estimate is `t`. */
  function LastBits(t: nat): nat {
    ((t + 1) * 4096 - 1) / 1233
  }

  lemma EstimateBracket(bits: nat)
    requires bits >= 1
    ensures var t := Estimate(bits); bits <= LastBits(t) && (t >= 1 ==> LastBits(t - 1) < bits)
  {
  }

  lemma PowersBracketLow(t: nat)
    requires t < 10
    ensures Pow10(t) <= Pow2(LastBits(t)) <= Pow10(t + 1)
  {
    Pow10To10();
    Pow2Values();
    match t {
      case 0 => assert LastBits(0) == 3;
      case 1 => assert LastBits(1) == 6;
      case 2 => assert LastBits(2) == 9;
      case 3 => assert LastBits(3) == 13;
      case 4 => assert LastBits(4) == 16;
      case 5 => assert LastBits(5) == 19;
      case 6 => assert LastBits(6) == 23;
      case 7 => assert LastBits(7) == 26;
      case 8 => assert LastBits(8) == 29;
      case _ => assert t == 9 && LastBits(9) == 33;
    }
  }

  lemma PowersBracketHigh(t: nat)
    requires 10 <= t < 20
    ensures Pow10(t) <= Pow2(LastBits(t)) <= Pow10(t + 1)
  {
    Pow10To20();
    Pow2Values();
    match t {
      case 10 => assert LastBits(10) == 36;
      case 11 => assert LastBits(11) == 39;
      case 12 => assert LastBits(12) == 43;
      case 13 => assert LastBits(13) == 46;
      case 14 => assert LastBits(14) == 49;
      case 15 => assert LastBits(15) == 53;
      case 16 => assert LastBits(16) == 56;
      case 17 => assert LastBits(17) == 59;
      case 18 => assert LastBits(18) == 63;
      case _ => assert t == 19 && LastBits(19) == 66;
    }
  }

  /** Every power of two that ends the range of an estimate lies between the powers of ten around it. */
  lemma PowersBracket(t: nat)
    requires t < 20
    ensures Pow10(t) <= Pow2(LastBits(t)) <= Pow10(t + 1)
  {
    if t < 10 {
      PowersBracketLow(t);
    } else {
      PowersBracketHigh(t);
    }
  }

  lemma BitsAbove(bits: nat, last: nat, p: nat)
    requires last < bits && p <= Pow2(last)
    ensures p <= Pow2(bits - 1)
  {
    Pow2Monotone(last, bits - 1);
  }

  lemma BitsBelow(bits: nat, last: nat, p: nat)
    requires bits <= last && Pow2(last) <= p
    ensures Pow2(bits) <= p
  {
    Pow2Monotone(bits, last);
  }

  /** A number of `bits` bits has as many digits as the estimate says, or one more. */
  lemma EstimateHolds(bits: nat, t: nat)
    requires 1 <= bits <= 64 && t == Estimate(bits)
    ensures t < 20 && (t >= 1 ==> Pow10(t - 1) <= Pow2(bits - 1)) && Pow2(bits) <= Pow10(t + 1)
  {
    EstimateBracket(bits);
    PowersBracket(t);
    BitsBelow(bits, LastBits(t), Pow10(t + 1));
    if t >= 1 {
      PowersBracket(t - 1);
      BitsAbove(bits, LastBits(t - 1), Pow10(t - 1));
    }
  }

  lemma Pow10Even(k: nat)
    requires k >= 1
    ensures Pow10(k) % 2 == 0
  {
    assert Pow10(k) == 2 * (5 * Pow10(k - 1));
  }

  lemma EvenBound(n: nat, m: nat, p: nat)
    requires n <= m <= n + 1 && (m == n + 1 ==> n % 2 == 0) && p % 2 == 0 && p <= m
    ensures p <= n
  {
  }

  /** Between which powers of ten n lies, by the length of `m`, which is `n | 1`. */
  lemma EstimateBounds(n: nat, m: nat, bits: nat, t: nat)
    requires n <= m <= n + 1 && (m == n + 1 ==> n % 2 == 0)
    requires 1 <= bits <= 64 && t == Estimate(bits) && Pow2(bits - 1) <= m < Pow2(bits)
    ensures t < 20 && (t >= 2 ==> Pow10(t - 1) <= n) && n < Pow10(t + 1)
  {
    EstimateHolds(bits, t);
    if t >= 2 {
      Pow10Even(t - 1);
      EvenBound(n, m, Pow10(t - 1));
    }
  }

  /** The estimate, corrected by one comparison with a power of ten, is the number of digits. */
  lemma CorrectedEstimate(n: nat, m: nat, bits: nat, t: nat)
    requires n <= m <= n + 1 && (m == n + 1 ==> n % 2 == 0)
    requires 1 <= bits <= 64 && t == Estimate(bits) && Pow2(bits - 1) <= m < Pow2(bits)
    ensures t < 20 && |Numeral(n)| == t - (if t >= 1 && n < Pow10(t) then 1 else 0) + 1
  {
    EstimateBounds(n, m, bits, t);
    NumeralLength(n, if t >= 1 && n < Pow10(t) then t else t + 1);
  }

  /** The branchless form counts the decimal digits of every 64-bit number. */
  lemma CountDigits64IsLength(n: nat)
    requires n < LIMIT_64
    ensures CountDigits64(n) == |Numeral(n)|
  {
    OddBits(n);
    var bits := BitLength(Odd(n));
    var t := Estimate(bits);
    CorrectedEstimate(n, Odd(n), bits, t);
    TableEntry(t);
  }

  /** And of every 32-bit number. */
  lemma CountDigits32IsLength(n: nat)
    requires n < LIMIT_32
    ensures CountDigits32(n) == |Numeral(n)|
  {
    OddBits(n);
    var bits := BitLength(Odd(n));
    var t := Estimate(bits);
    CorrectedEstimate(n, Odd(n), bits, t);
    TableEntry(t);
  }

  // ----- The loop used where no count of leading zeros is available -----

  lemma OneDigitMore(n: nat)
    requires n >= 10
    ensures |Numeral(n)| == 1 + |Numeral(n / 10)|
  {
  }

  lemma FourDigits(n: nat)
    requires n >= 10000
    ensures |Numeral(n)| == 4 + |Numeral(n / 10000)|
  {
    OneDigitMore(n);
    OneDigitMore(n / 10);
    OneDigitMore(n / 10 / 10);
    OneDigitMore(n / 10 / 10 / 10);
    assert n / 10 / 10 / 10 / 10 == n / 10000;
  }

  lemma UpToFourDigits(n: nat)
    requires n < 10000
    ensures |Numeral(n)| == if n < 10 then 1 else if n < 100 then 2 else if n < 1000 then 3 else 4
  {
    assert Pow10(1) == 10 && Pow10(2) == 100 && Pow10(3) == 1000 && Pow10(4) == 10000;
    NumeralLength(n, if n < 10 then 1 else if n < 100 then 2 else if n < 1000 then 3 else 4);
  }

  method CountDigitsLoop(n: nat) returns (count: nat)
    ensures count == |Numeral(n)|
  {
    var rest := n;
    count := 1;
    while rest >= 10000
      invariant |Numeral(n)| == count - 1 + |Numeral(rest)|
    {
      FourDigits(rest);
      rest := rest / 10000;
      count := count + 4;
    }
    UpToFourDigits(rest);
    if rest < 10 {
      return count;
    }
    if rest < 100 {
      return count + 1;
    }
    if rest < 1000 {
      return count + 2;
    }
    return count + 3;
  }
}
