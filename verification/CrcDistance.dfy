/**
 * The errors the 16-bit cyclic redundancy check sees however they are spread: every odd number of flipped
 * bits, and two flipped bits unless their distance is a multiple of 32767, the period of the register.
 */
module CrcDistance {
  import opened Crc16

  const PERIOD := 32767

  function SetBits(bits: seq<bool>): nat
    decreases |bits|
  {
    if bits == [] then 0 else (if bits[0] then 1 else 0) + SetBits(bits[1..])
  }

  // ---------------------------------------------------------------- parity

  function Bit(register: bv16, mask: bv16): (bit: nat)
    ensures bit <= 1
  {
    if register & mask == 0 then 0 else 1
  }

  /** The number of set bits in the register. */
  function Weight(register: bv16): nat {
    Bit(register, 0x0001) + Bit(register, 0x0002) + Bit(register, 0x0004) + Bit(register, 0x0008)
    + Bit(register, 0x0010) + Bit(register, 0x0020) + Bit(register, 0x0040) + Bit(register, 0x0080)
    + Bit(register, 0x0100) + Bit(register, 0x0200) + Bit(register, 0x0400) + Bit(register, 0x0800)
    + Bit(register, 0x1000) + Bit(register, 0x2000) + Bit(register, 0x4000) + Bit(register, 0x8000)
  }

  /** A clock moves every bit up; the top bit comes back in at the bottom and turns two bits over. */
  lemma ShiftMovesBits(register: bv16, next: bv16)
    requires next == Shift(register)
    ensures Bit(next, 0x0001) == Bit(register, 0x8000) && Bit(next, 0x0002) == Bit(register, 0x0001)
    ensures Bit(next, 0x0004) == Bit(register, 0x0002) && Bit(next, 0x0008) == Bit(register, 0x0004)
    ensures Bit(next, 0x0010) == Bit(register, 0x0008) && Bit(next, 0x0040) == Bit(register, 0x0020)
    ensures Bit(next, 0x0080) == Bit(register, 0x0040) && Bit(next, 0x0100) == Bit(register, 0x0080)
    ensures Bit(next, 0x0200) == Bit(register, 0x0100) && Bit(next, 0x0400) == Bit(register, 0x0200)
    ensures Bit(next, 0x0800) == Bit(register, 0x0400) && Bit(next, 0x2000) == Bit(register, 0x1000)
    ensures Bit(next, 0x4000) == Bit(register, 0x2000) && Bit(next, 0x8000) == Bit(register, 0x4000)
    ensures Bit(next, 0x0020) == if Bit(register, 0x8000) == 1 then 1 - Bit(register, 0x0010) else Bit(register, 0x0010)
    ensures Bit(next, 0x1000) == if Bit(register, 0x8000) == 1 then 1 - Bit(register, 0x0800) else Bit(register, 0x0800)
  {
  }

  lemma ShiftKeepsParity(register: bv16)
    ensures Weight(Shift(register)) % 2 == Weight(register) % 2
  {
    hide Bit, Shift;
    ShiftMovesBits(register, Shift(register));
    if Bit(register, 0x8000) == 1 {
      assert Weight(Shift(register))
          == Weight(register) + 2 * (1 - Bit(register, 0x0010) - Bit(register, 0x0800));
    }
  }

  lemma InputTurnsTopBit(register: bv16, turned: bv16)
    requires turned == Plus(register, 0x8000)
    ensures Bit(turned, 0x0001) == Bit(register, 0x0001) && Bit(turned, 0x0002) == Bit(register, 0x0002)
    ensures Bit(turned, 0x0004) == Bit(register, 0x0004) && Bit(turned, 0x0008) == Bit(register, 0x0008)
    ensures Bit(turned, 0x0010) == Bit(register, 0x0010) && Bit(turned, 0x0020) == Bit(register, 0x0020)
    ensures Bit(turned, 0x0040) == Bit(register, 0x0040) && Bit(turned, 0x0080) == Bit(register, 0x0080)
    ensures Bit(turned, 0x0100) == Bit(register, 0x0100) && Bit(turned, 0x0200) == Bit(register, 0x0200)
    ensures Bit(turned, 0x0400) == Bit(register, 0x0400) && Bit(turned, 0x0800) == Bit(register, 0x0800)
    ensures Bit(turned, 0x1000) == Bit(register, 0x1000) && Bit(turned, 0x2000) == Bit(register, 0x2000)
    ensures Bit(turned, 0x4000) == Bit(register, 0x4000) && Bit(turned, 0x8000) == 1 - Bit(register, 0x8000)
  {
  }

  lemma InputWeight(register: bv16)
    ensures Weight(Plus(register, 0x8000)) == Weight(register) + 1 - 2 * Bit(register, 0x8000)
  {
    hide Bit, Plus;
    InputTurnsTopBit(register, Plus(register, 0x8000));
  }

  lemma InputParity(register: bv16, bit: bool)
    ensures Weight(ShiftBit(register, bit)) % 2 == (Weight(register) + if bit then 1 else 0) % 2
  {
    hide Bit, Shift, Plus;
    hide Weight;
    if bit {
      InputWeight(register);
      ShiftKeepsParity(Plus(register, 0x8000));
    } else {
      ShiftKeepsParity(register);
    }
  }

  /** The parity of the register counts the set bits of the input. */
  lemma {:induction false} ParityCountsBits(register: bv16, bits: seq<bool>)
    ensures Weight(ShiftBits(register, bits)) % 2 == (Weight(register) + SetBits(bits)) % 2
    decreases |bits|
  {
    hide ShiftBit, Weight;
    if bits != [] {
      InputParity(register, bits[0]);
      ParityCountsBits(ShiftBit(register, bits[0]), bits[1..]);
    }
  }

  lemma WeightOfZero()
    ensures Weight(0) == 0
  {
  }

  // ---------------------------------------------------------------- squaring

  /** The eight low bits moved to the even positions. */
  function Spread(b: bv16): bv16 {
    (b & 0x01) | ((b & 0x02) << 1) | ((b & 0x04) << 2) | ((b & 0x08) << 3)
    | ((b & 0x10) << 4) | ((b & 0x20) << 5) | ((b & 0x40) << 6) | ((b & 0x80) << 7)
  }

  function Halves(register: bv16): (halves: (bv16, bv16)) {
    (Spread(register & 0xFF), Spread(register >> 8))
  }

  /** The register as a polynomial, squared: bits move to twice their position, those above 15 by sixteen clocks. */
  function Square(register: bv16): bv16 {
    Plus(Halves(register).0, Clock8(Clock8(Halves(register).1)))
  }

  lemma HalvesAreLinear(a: bv16, b: bv16)
    ensures Halves(Plus(a, b)).0 == Plus(Halves(a).0, Halves(b).0)
    ensures Halves(Plus(a, b)).1 == Plus(Halves(a).1, Halves(b).1)
  {
  }

  lemma SquareIsLinear(a: bv16, b: bv16)
    ensures Square(Plus(a, b)) == Plus(Square(a), Square(b))
  {
    hide Halves, Plus, Clock8;
    HalvesAreLinear(a, b);
    Clock8IsLinear(Halves(a).1, Halves(b).1);
    Clock8IsLinear(Clock8(Halves(a).1), Clock8(Halves(b).1));
    PlusExchange(Halves(a).0, Halves(b).0, Clock8(Clock8(Halves(a).1)), Clock8(Clock8(Halves(b).1)));
  }

  /** Squaring the next power of x gives the next but one power of x squared. */
  predicate SquareFollows(register: bv16) {
    Square(Shift(register)) == Shift(Shift(Square(register)))
  }

  lemma SquareFollowsSum(a: bv16, b: bv16)
    requires SquareFollows(a) && SquareFollows(b)
    ensures SquareFollows(Plus(a, b))
  {
    hide Plus, Shift, Square;
    ShiftIsLinear(a, b);
    SquareIsLinear(Shift(a), Shift(b));
    SquareIsLinear(a, b);
    ShiftIsLinear(Square(a), Square(b));
    ShiftIsLinear(Shift(Square(a)), Shift(Square(b)));
  }

  lemma SquareFollowsLowPowers()
    ensures SquareFollows(0x0001) && SquareFollows(0x0002) && SquareFollows(0x0004) && SquareFollows(0x0008)
    ensures SquareFollows(0x0010) && SquareFollows(0x0020) && SquareFollows(0x0040) && SquareFollows(0x0080)
    ensures SquareFollows(0)
  {
  }

  lemma SquareFollowsHighPowers()
    ensures SquareFollows(0x0100) && SquareFollows(0x0200) && SquareFollows(0x0400) && SquareFollows(0x0800)
    ensures SquareFollows(0x1000) && SquareFollows(0x2000) && SquareFollows(0x4000) && SquareFollows(0x8000)
  {
  }

  function Four(a: bv16, b: bv16, c: bv16, d: bv16): bv16 {
    Plus(Plus(a, b), Plus(c, d))
  }

  lemma SquareFollowsFour(a: bv16, b: bv16, c: bv16, d: bv16)
    requires SquareFollows(a) && SquareFollows(b) && SquareFollows(c) && SquareFollows(d)
    ensures SquareFollows(Four(a, b, c, d))
  {
    hide Plus, SquareFollows;
    SquareFollowsSum(a, b);
    SquareFollowsSum(c, d);
    SquareFollowsSum(Plus(a, b), Plus(c, d));
  }

  function Part(register: bv16, mask: bv16): bv16 {
    register & mask
  }

  function LowParts(register: bv16): bv16 {
    Plus(Four(Part(register, 0x0001), Part(register, 0x0002), Part(register, 0x0004), Part(register, 0x0008)),
         Four(Part(register, 0x0010), Part(register, 0x0020), Part(register, 0x0040), Part(register, 0x0080)))
  }

  function HighParts(register: bv16): bv16 {
    Plus(Four(Part(register, 0x0100), Part(register, 0x0200), Part(register, 0x0400), Part(register, 0x0800)),
         Four(Part(register, 0x1000), Part(register, 0x2000), Part(register, 0x4000), Part(register, 0x8000)))
  }

  lemma PartsMakeRegister(register: bv16)
    ensures Plus(LowParts(register), HighParts(register)) == register
  {
  }

  /** A value with at most one bit set. */
  predicate IsPower(power: bv16) {
    power & (power - 1) == 0
  }

  lemma PowersArePowers()
    ensures IsPower(0x0001) && IsPower(0x0002) && IsPower(0x0004) && IsPower(0x0008)
    ensures IsPower(0x0010) && IsPower(0x0020) && IsPower(0x0040) && IsPower(0x0080)
    ensures IsPower(0x0100) && IsPower(0x0200) && IsPower(0x0400) && IsPower(0x0800)
    ensures IsPower(0x1000) && IsPower(0x2000) && IsPower(0x4000) && IsPower(0x8000)
  {
  }

  lemma PartOfPower(register: bv16, power: bv16)
    requires IsPower(power)
    ensures Part(register, power) == 0 || Part(register, power) == power
  {
  }

  lemma SquareFollowsPart(register: bv16, power: bv16)
    requires IsPower(power) && SquareFollows(power) && SquareFollows(0)
    ensures SquareFollows(Part(register, power))
  {
    hide Part, IsPower, SquareFollows;
    PartOfPower(register, power);
  }

  lemma SquareFollowsLowParts(register: bv16)
    ensures SquareFollows(LowParts(register))
  {
    hide Plus, Part, Four, SquareFollows, IsPower;
    SquareFollowsLowPowers();
    PowersArePowers();
    var a, b, c, d := Part(register, 0x0001), Part(register, 0x0002), Part(register, 0x0004), Part(register, 0x0008);
    var e, f, g, h := Part(register, 0x0010), Part(register, 0x0020), Part(register, 0x0040), Part(register, 0x0080);
    SquareFollowsPart(register, 0x0001);
    SquareFollowsPart(register, 0x0002);
    SquareFollowsPart(register, 0x0004);
    SquareFollowsPart(register, 0x0008);
    SquareFollowsPart(register, 0x0010);
    SquareFollowsPart(register, 0x0020);
    SquareFollowsPart(register, 0x0040);
    SquareFollowsPart(register, 0x0080);
    SquareFollowsFour(a, b, c, d);
    SquareFollowsFour(e, f, g, h);
    SquareFollowsSum(Four(a, b, c, d), Four(e, f, g, h));
  }

  lemma SquareFollowsHighParts(register: bv16)
    ensures SquareFollows(HighParts(register))
  {
    hide Plus, Part, Four, SquareFollows, IsPower;
    SquareFollowsLowPowers();
    SquareFollowsHighPowers();
    PowersArePowers();
    var a, b, c, d := Part(register, 0x0100), Part(register, 0x0200), Part(register, 0x0400), Part(register, 0x0800);
    var e, f, g, h := Part(register, 0x1000), Part(register, 0x2000), Part(register, 0x4000), Part(register, 0x8000);
    SquareFollowsPart(register, 0x0100);
    SquareFollowsPart(register, 0x0200);
    SquareFollowsPart(register, 0x0400);
    SquareFollowsPart(register, 0x0800);
    SquareFollowsPart(register, 0x1000);
    SquareFollowsPart(register, 0x2000);
    SquareFollowsPart(register, 0x4000);
    SquareFollowsPart(register, 0x8000);
    SquareFollowsFour(a, b, c, d);
    SquareFollowsFour(e, f, g, h);
    SquareFollowsSum(Four(a, b, c, d), Four(e, f, g, h));
  }

  lemma SquareFollowsAlways(register: bv16)
    ensures Square(Shift(register)) == Shift(Shift(Square(register)))
  {
    hide Plus, LowParts, HighParts, Square, Shift;
    SquareFollowsLowParts(register);
    SquareFollowsHighParts(register);
    SquareFollowsSum(LowParts(register), HighParts(register));
    PartsMakeRegister(register);
  }

  // ---------------------------------------------------------------- powers of x

  lemma {:induction false} ClockAppend(register: bv16, m: nat, n: nat)
    ensures Clock(register, m + n) == Clock(Clock(register, m), n)
    decreases m
  {
    hide Shift;
    if m != 0 {
      ClockAppend(Shift(register), m - 1, n);
    }
  }

  lemma ClockOnce(register: bv16, n: nat)
    ensures Clock(register, n + 1) == Shift(Clock(register, n))
  {
    hide Shift;
    ClockAppend(register, n, 1);
  }

  lemma SquareOfOne()
    ensures Square(1) == 1
  {
  }

  /** Twice as many clocks from the register value 1 give the square of what the clocks give. */
  lemma {:induction false} TwiceTheClocks(n: nat)
    ensures Clock(1, 2 * n) == Square(Clock(1, n))
    decreases n
  {
    hide Shift, Square;
    if n == 0 {
      SquareOfOne();
    } else {
      TwiceTheClocks(n - 1);
      ClockOnce(1, n - 1);
      ClockOnce(1, 2 * (n - 1));
      ClockOnce(1, 2 * (n - 1) + 1);
      SquareFollowsAlways(Clock(1, n - 1));
    }
  }

  /** A number of clocks in binary, most significant digit first: squaring for each digit, one clock more for a one. */
  function Climb(register: bv16, digits: seq<bool>): bv16
    decreases |digits|
  {
    if digits == [] then register
    else Climb(if digits[0] then Shift(Square(register)) else Square(register), digits[1..])
  }

  function Number(n: nat, digits: seq<bool>): nat
    decreases |digits|
  {
    if digits == [] then n else Number(2 * n + if digits[0] then 1 else 0, digits[1..])
  }

  lemma {:induction false} ClimbClocks(n: nat, digits: seq<bool>)
    ensures Climb(Clock(1, n), digits) == Clock(1, Number(n, digits))
    decreases |digits|
  {
    hide Shift, Square, Clock;
    if digits != [] {
      TwiceTheClocks(n);
      ClockOnce(1, 2 * n);
      ClimbClocks(2 * n + if digits[0] then 1 else 0, digits[1..]);
    }
  }

  // ---------------------------------------------------------------- the period of the register

  predicate IsPeriod(n: nat) {
    Clock(1, n) == 1
  }

  const DIGITS_217 := [true, true, false, true, true, false, false, true]
  const DIGITS_1057 := [true, false, false, false, false, true, false, false, false, false, true]
  const DIGITS_73 := [true, false, false, true, false, false, true]
  const DIGITS_9 := [false, false, true, false, false, true]
  const FOUR_ONES := [true, true, true, true]
  const SEVEN_ONES := [true, true, true, true, true, true, true]
  const EIGHT_ONES := [true, true, true, true, true, true, true, true]

  lemma ClimbTo217()
    ensures Number(0, DIGITS_217) == 217 && Climb(1, DIGITS_217) == 0x48E3
  {
  }

  lemma ClimbTo1057()
    ensures Number(0, DIGITS_1057) == 1057 && Climb(1, DIGITS_1057) == 0xF2AF
  {
  }

  lemma ClimbTo73()
    ensures Number(0, DIGITS_73) == 73 && Climb(1, DIGITS_73) == 0x8FA6
  {
  }

  lemma ClimbFrom73()
    ensures Number(73, DIGITS_9) == 4681 && Climb(0x8FA6, DIGITS_9) == 0x2C42
  {
  }

  lemma ClimbTo127()
    ensures Number(0, SEVEN_ONES) == 127 && Climb(1, SEVEN_ONES) == 0x577E
  {
  }

  lemma ClimbFrom127()
    ensures Number(127, EIGHT_ONES) == PERIOD && Climb(0x577E, EIGHT_ONES) == 1
  {
  }

  /** 32767 is a period; its quotients by its prime factors 151, 31 and 7 are not. */
  lemma KnownPeriods()
    ensures IsPeriod(PERIOD) && !IsPeriod(217) && !IsPeriod(1057) && !IsPeriod(4681)
  {
    hide Climb, Number, Shift, DIGITS_217, DIGITS_1057, DIGITS_73, DIGITS_9, SEVEN_ONES, EIGHT_ONES;
    ClimbTo217();
    ClimbTo1057();
    ClimbTo73();
    ClimbFrom73();
    ClimbTo127();
    ClimbFrom127();
    ClimbClocks(0, DIGITS_217);
    ClimbClocks(0, DIGITS_1057);
    ClimbClocks(0, DIGITS_73);
    ClimbClocks(73, DIGITS_9);
    ClimbClocks(0, SEVEN_ONES);
    ClimbClocks(127, EIGHT_ONES);
  }

  lemma PeriodDifference(m: nat, n: nat)
    requires IsPeriod(m)
    ensures IsPeriod(m + n) <==> IsPeriod(n)
  {
    hide Shift;
    ClockAppend(1, m, n);
  }

  lemma {:induction false} PeriodMultiple(m: nat, k: nat)
    requires IsPeriod(m)
    ensures IsPeriod(k * m)
    decreases k
  {
    hide Shift, Clock;
    if k == 0 {
      NoClock();
    } else {
      PeriodMultiple(m, k - 1);
      assert k * m == m + (k - 1) * m;
      PeriodDifference(m, (k - 1) * m);
    }
  }

  lemma NoClock()
    ensures Clock(1, 0) == 1
  {
  }

  /** Taking multiples of a period away leaves a period. */
  lemma PeriodRemainder(m: nat, k: nat, n: nat)
    requires IsPeriod(m) && IsPeriod(k * m + n)
    ensures IsPeriod(n)
  {
    hide IsPeriod;
    PeriodMultiple(m, k);
    PeriodDifference(k * m, n);
  }

  predicate IsPrime(p: nat) {
    p > 1 && forall c :: 1 < c < p ==> p % c != 0
  }

  /** Two multiples of a unit are periods, the first by a prime: then Euclid's algorithm makes the unit a period. */
  lemma {:induction false} UnitIsPeriod(unit: nat, p: nat, e: nat)
    requires IsPrime(p) && 1 <= e < p
    requires IsPeriod(p * unit) && IsPeriod(e * unit)
    ensures IsPeriod(unit)
    decreases e
  {
    hide IsPeriod;
    if e == 1 {
      assert e * unit == unit;
    } else {
      var q, r := p / e, p % e;
      assert p == q * e + r;
      Distribute(q, e, r, unit);
      PeriodRemainder(e * unit, q, r * unit);
      UnitIsPeriod(unit, p, r);
    }
  }

  lemma Distribute(q: nat, e: nat, r: nat, unit: nat)
    ensures (q * e + r) * unit == q * (e * unit) + r * unit
  {
  }

  /** A period that a prime factor of PERIOD does not divide makes the quotient by that factor a period. */
  lemma QuotientIsPeriod(unit: nat, p: nat, n: nat)
    requires IsPrime(p) && IsPeriod(p * unit) && IsPeriod(n) && n % p != 0
    ensures IsPeriod(unit)
  {
    hide IsPeriod;
    var q, r := n / p, n % p;
    PeriodMultiple(n, unit);
    assert n == q * p + r;
    Distribute(q, p, r, unit);
    assert unit * n == q * (p * unit) + r * unit;
    PeriodRemainder(p * unit, q, r * unit);
    UnitIsPeriod(unit, p, r);
  }

  lemma SmallPrimes()
    ensures IsPrime(7) && IsPrime(31) && IsPrime(151)
  {
    forall c | 1 < c < 31 ensures 31 % c != 0 { NoDivisor(31, c, 31 / c, 31 % c); }
    forall c | 1 < c < 151 ensures 151 % c != 0 { NoDivisor(151, c, 151 / c, 151 % c); }
  }

  /** One of two factors of a number below 169 is at most 12; none of those divides 31 or 151. */
  lemma NoDivisor(p: nat, c: nat, q: nat, r: nat)
    requires (p == 31 || p == 151) && 1 < c < p && p == q * c + r
    ensures r != 0
  {
    if c <= 12 {
      assert c == 2 || c == 3 || c == 4 || c == 5 || c == 6 || c == 7 || c == 8 || c == 9 || c == 10 || c == 11
          || c == 12;
    } else if q <= 12 {
      assert q == 0 || q == 1 || q == 2 || q == 3 || q == 4 || q == 5 || q == 6 || q == 7 || q == 8 || q == 9
          || q == 10 || q == 11 || q == 12;
    }
  }

  /** The register returns to where it was after the multiples of 32767 clocks, and never in between. */
  lemma PeriodIs32767(n: nat)
    ensures IsPeriod(n) <==> n % PERIOD == 0
  {
    hide IsPeriod, IsPrime;
    KnownPeriods();
    SmallPrimes();
    if n % PERIOD == 0 {
      PeriodMultiple(PERIOD, n / PERIOD);
      assert n / PERIOD * PERIOD == n;
    } else if n % 7 != 0 {
      if IsPeriod(n) { QuotientIsPeriod(4681, 7, n); }
    } else if n % 31 != 0 {
      if IsPeriod(n) { QuotientIsPeriod(1057, 31, n); }
    } else if n % 151 != 0 {
      if IsPeriod(n) { QuotientIsPeriod(217, 151, n); }
    } else {
      CommonMultiple(n);
    }
  }

  lemma CommonMultiple(n: nat)
    requires n % 7 == 0 && n % 31 == 0 && n % 151 == 0
    ensures n % PERIOD == 0
  {
    var a, b, c := n / 7, n / 31, n / 151;
    MultipleOf217(n, a, b);
    MultipleOfPeriod(n, 9 * b - 2 * a, c);
  }

  lemma MultipleOf217(n: nat, a: nat, b: nat)
    requires n == 7 * a && n == 31 * b
    ensures n == 217 * (9 * b - 2 * a)
  {
  }

  lemma MultipleOfPeriod(n: nat, a: int, b: nat)
    requires n == 217 * a && n == 151 * b
    ensures n % PERIOD == 0
  {
    assert n == PERIOD * (23 * a - 16 * b);
  }

  // ---------------------------------------------------------------- two flipped bits

  lemma ShiftIsInjective(a: bv16, b: bv16)
    requires Shift(a) == Shift(b)
    ensures a == b
  {
  }

  lemma {:induction false} ClockIsInjective(a: bv16, b: bv16, n: nat)
    ensures Clock(a, n) == Clock(b, n) <==> a == b
    decreases n
  {
    hide Shift;
    if n != 0 {
      ClockIsInjective(Shift(a), Shift(b), n - 1);
      if Shift(a) == Shift(b) { ShiftIsInjective(a, b); }
    }
  }

  lemma {:induction false} ZeroBitsClock(register: bv16, bits: seq<bool>)
    requires true !in bits
    ensures ShiftBits(register, bits) == Clock(register, |bits|)
    decreases |bits|
  {
    hide Shift;
    if bits != [] {
      assert !bits[0];
      ZeroBitsClock(Shift(register), bits[1..]);
    }
  }

  lemma ClimbTo15()
    ensures Number(0, FOUR_ONES) == 15 && Climb(1, FOUR_ONES) == 0x8000
  {
  }

  lemma TopBitIsPower()
    ensures Clock(1, 15) == 0x8000
  {
    hide Climb, Number, Shift, FOUR_ONES;
    ClimbTo15();
    ClimbClocks(0, FOUR_ONES);
  }

  lemma InputBit(register: bv16)
    ensures ShiftBit(0, true) == Shift(0x8000)
    ensures ShiftBit(register, true) == 0 <==> register == 0x8000
  {
  }

  /** Two set bits cancel in the register exactly when their distance is a multiple of the period. */
  lemma TwoBits(head: seq<bool>, middle: seq<bool>, tail: seq<bool>)
    requires true !in head && true !in middle && true !in tail
    ensures ShiftBits(0, head + ([true] + (middle + ([true] + tail)))) == 0 <==> (|middle| + 1) % PERIOD == 0
  {
    hide Shift, ShiftBit, ShiftBits;
    var rest, distance := [true] + tail, |middle| + 1;
    var one := ShiftBit(0, true);
    ShiftBitsAppend(0, head, [true] + (middle + rest));
    ZeroBits(0, head);
    ShiftFirstBit(0, true, middle + rest);
    ShiftBitsAppend(one, middle, rest);
    var met := ShiftBits(one, middle);
    ZeroBitsClock(one, middle);
    ShiftFirstBit(met, true, tail);
    ZeroBits(ShiftBit(met, true), tail);
    InputBit(met);
    assert met == Clock(0x8000, distance);
    TopBitIsPower();
    ClockAppend(1, 15, distance);
    ClockAppend(1, distance, 15);
    ClockIsInjective(Clock(1, distance), 1, 15);
    PeriodIs32767(distance);
  }

  // ---------------------------------------------------------------- few flipped bits

  lemma {:induction false} SetBitsAppend(a: seq<bool>, b: seq<bool>)
    ensures SetBits(a + b) == SetBits(a) + SetBits(b)
    decreases |a|
  {
    if a == [] {
      assert a + b == b;
    } else {
      assert (a + b)[1..] == a[1..] + b;
      SetBitsAppend(a[1..], b);
    }
  }

  lemma {:induction false} NoSetBits(bits: seq<bool>)
    ensures SetBits(bits) == 0 <==> true !in bits
    decreases |bits|
  {
    if bits != [] {
      NoSetBits(bits[1..]);
    }
  }

  /** The first set bit, with what stands before and after it. */
  lemma FirstSetBit(bits: seq<bool>) returns (head: seq<bool>, rest: seq<bool>)
    requires SetBits(bits) > 0
    ensures bits == head + ([true] + rest) && true !in head && SetBits(rest) == SetBits(bits) - 1
  {
    NoSetBits(bits);
    var t := FirstSet(bits);
    head, rest := bits[..t], bits[t + 1..];
    assert bits == head + ([true] + rest);
    NoSetBits(head);
    SetBitsAppend(head, [true] + rest);
    assert ([true] + rest)[1..] == rest;
  }

  /** Any odd number of set bits leaves the register non-zero. */
  lemma OddBitsAreSeen(bits: seq<bool>)
    requires SetBits(bits) % 2 == 1
    ensures ShiftBits(0, bits) != 0
  {
    hide Weight, ShiftBits;
    ParityCountsBits(0, bits);
    WeightOfZero();
  }

  /** One, two or three set bits in at most 32767 leave the register non-zero, wherever they are. */
  lemma FewBitsAreSeen(bits: seq<bool>)
    requires 1 <= SetBits(bits) <= 3 && |bits| <= PERIOD
    ensures ShiftBits(0, bits) != 0
  {
    hide ShiftBits, SetBits;
    if SetBits(bits) == 2 {
      var head, rest := FirstSetBit(bits);
      var middle, tail := FirstSetBit(rest);
      NoSetBits(tail);
      TwoBits(head, middle, tail);
    } else {
      OddBitsAreSeen(bits);
    }
  }
}
