/** Baud rate setting: the divisor both setters compute, and the register writes that load it
    through the divisor latch window. */
module BaudRate {

  const U32: nat := 0x1_0000_0000
  /** Rates below this one do not make `8UL * baud` wrap. */
  const RATE_LIMIT: nat := 0x2000_0000

  function Abs(x: int): nat { if x < 0 then -x else x }

  /** `(xtal / step + 1) / 2` in 32-bit unsigned arithmetic. */
  function HalfUp(xtal: nat, step: nat): nat
    requires step > 0
  {
    ((xtal / step + 1) % U32) / 2
  }

  /** The divisor both setters compute; `step` is `8UL * baud`. */
  function Divisor(xtal: nat, baud: nat): nat
    requires 0 < baud < RATE_LIMIT
  {
    HalfUp(xtal, (8 * baud) % U32)
  }

  lemma DivBounds(x: nat, a: nat)
    requires a > 0
    ensures a * (x / a) <= x < a * (x / a) + a
  {
  }

  lemma MulMonotone(a: nat, x: int, y: int)
    requires x <= y
    ensures a * x <= a * y
  {
  }

  lemma CancelFactor(a: nat, x: int, y: int)
    requires a * x < a * y
    ensures x < y
  {
    if x >= y {
      MulMonotone(a, y, x);
    }
  }

  /** A quotient is determined by its bounds. */
  lemma QuotientIs(x: int, a: nat, q: int)
    requires a > 0 && a * q <= x < a * q + a
    ensures x / a == q
  {
    var r := x / a;
    assert a * r <= x < a * r + a;
    assert a * r + a == a * (r + 1) && a * q + a == a * (q + 1);
    CancelFactor(a, q, r + 1);
    CancelFactor(a, r, q + 1);
  }

  /** Rounding in two steps is rounding once, and does not wrap. */
  lemma HalfRounds(x: nat, a: nat)
    requires a >= 2 && x < U32
    ensures a * (2 * HalfUp(x, a)) <= x + a < a * (2 * HalfUp(x, a)) + 2 * a
  {
    var q := x / a;
    DivBounds(x, a);
    MulMonotone(q, 2, a);
    assert q + 1 < U32;
    var d := HalfUp(x, a);
    assert 2 * d <= q + 1 <= 2 * d + 1;
    MulMonotone(a, 2 * d, q + 1);
    MulMonotone(a, q + 1, 2 * d + 1);
    assert a * (q + 1) == a * q + a && a * (2 * d + 1) == a * (2 * d) + a;
  }

  /** The divisor times sixteen times the rate brackets the clock. */
  lemma DivisorBrackets(xtal: nat, baud: nat)
    requires xtal < U32 && 0 < baud < RATE_LIMIT
    ensures var c, d := 16 * baud, Divisor(xtal, baud); c * d <= xtal + 8 * baud < c * d + c
  {
    var a := 8 * baud;
    var d := Divisor(xtal, baud);
    assert a % U32 == a;
    HalfRounds(xtal, a);
    assert a * (2 * d) == (2 * a) * d;
  }

  /** Both setters compute the floor of (xtal + 8 baud) / (16 baud): the clock over sixteen times
      the rate, rounded to the nearest integer, so no integer comes closer. */
  lemma DivisorIsNearest(xtal: nat, baud: nat, k: int)
    requires xtal < U32 && 0 < baud < RATE_LIMIT
    ensures var d := Divisor(xtal, baud);
      && d == (xtal + 8 * baud) / (16 * baud)
      && Abs(16 * baud * d - xtal) <= 8 * baud
      && Abs(16 * baud * d - xtal) <= Abs(16 * baud * k - xtal)
      && (d >= 1 <==> 8 * baud <= xtal)
  {
    var c, d := 16 * baud, Divisor(xtal, baud);
    DivisorBrackets(xtal, baud);
    QuotientIs(xtal + 8 * baud, c, d);
    NearestMultiple(c, d, k, xtal);
    if d >= 1 {
      MulMonotone(c, 1, d);
    }
  }

  lemma NearestMultiple(c: nat, d: int, k: int, x: int)
    requires c > 0 && x <= c * d + c / 2 && c * d <= x + c / 2 && c % 2 == 0
    ensures Abs(c * d - x) <= Abs(c * k - x)
  {
    if k < d {
      MulMonotone(c, k, d - 1);
      assert c * (d - 1) == c * d - c;
    } else if k > d {
      MulMonotone(c, d + 1, k);
      assert c * (d + 1) == c * d + c;
    }
  }

  function Lo(d: nat): nat { d % 256 }

  function Hi(d: nat): nat { (d / 256) % 256 }

  /** The two latch bytes give the divisor back exactly when it fits sixteen bits. */
  lemma LatchBytesRecombine(d: nat)
    ensures Lo(d) + 256 * Hi(d) == d <==> d < 0x1_0000
  {
    assert d == 256 * (d / 256) + d % 256;
  }

  /** 50 baud from a 100 MHz clock: the latch gets what is left of 125000. */
  lemma LatchCanCutDivisor()
    ensures var d := Divisor(100_000_000, 50); d == 125_000 && Lo(d) + 256 * Hi(d) == 59_464
  {
    ExactDivisor(50, 125_000);
  }

  /** Register offsets; offsets 0 and 1 reach the divisor latch while LCR bit 7 is set. */
  const DLL: nat := 0
  const DLM: nat := 1
  const LCR: nat := 3

  predicate Dlab(lcr: nat) { lcr >= 128 }

  function WithDlab(lcr: nat): nat { if Dlab(lcr) then lcr else lcr + 128 }

  /** The M/N clock divider word of the HSUART, and its fields. */
  function ClockWord(m: nat, n: nat): nat { m * 2 + n * 0x1_0000 }

  function ClockM(w: nat): nat { (w / 2) % 0x8000 }

  function ClockN(w: nat): nat { (w / 0x1_0000) % 0x8000 }

  const CLOCK_ENABLE: nat := 1
  const CLOCK_UPDATE: nat := 0x8000_0000

  /** Bit 3 of the general register is set, whatever it was. */
  function WithRtsOverride(x: nat): nat { if x / 8 % 2 == 1 then x else x + 8 }

  const TX_OVF_INT_MASK: nat := 2

  datatype Clock = Clock(m: nat, n: nat, xtal: nat)

  /** The divider and the input clock the HSUART uses for a rate. */
  function HsuartClock(baud: nat): Clock {
    if baud == 1000000 || baud == 2000000 || baud == 4000000 then Clock(64, 100, 64000000)
    else if baud == 3000000 then Clock(48, 100, 48000000)
    else Clock(6912, 15625, 44236800)
  }

  /** Divider and input clock always describe the same 100 MHz source, and the four rates with a
      clock of their own are met exactly. */
  lemma HsuartClockIsRight(baud: nat)
    requires 0 < baud < RATE_LIMIT
    ensures var c := HsuartClock(baud);
      && c.xtal * c.n == 100_000_000 * c.m
      && (baud in {1000000, 2000000, 3000000, 4000000} ==> 16 * baud * Divisor(c.xtal, baud) == c.xtal)
  {
    ExactDivisor(1000000, 4);
    ExactDivisor(2000000, 2);
    ExactDivisor(3000000, 1);
    ExactDivisor(4000000, 1);
  }

  /** The clock of all other rates meets 115200 baud, and every rate that divides it, exactly. */
  lemma UsualRatesExact(baud: nat, n: nat)
    requires baud * n == 115200
    ensures 0 < baud <= 115200
    ensures var c := HsuartClock(baud); 16 * baud * Divisor(c.xtal, baud) == c.xtal
  {
    RateDivides(baud, n);
    ExactDivisor(baud, 24 * n);
  }

  lemma RateDivides(baud: nat, n: nat)
    requires baud * n == 115200
    ensures 0 < baud <= 115200 && 16 * baud * (24 * n) == 44236800
  {
    assert baud != 0 && n != 0;
    MulMonotone(baud, 1, n);
    assert 16 * baud * (24 * n) == 384 * (baud * n);
  }

  /** The divider words, bit for bit. */
  lemma ClockWordsAre()
    ensures ClockWord(6912, 15625) + CLOCK_ENABLE + CLOCK_UPDATE == 0xbd09_3601
    ensures ClockWord(64, 100) + CLOCK_ENABLE + CLOCK_UPDATE == 0x8064_0081
    ensures ClockWord(48, 100) + CLOCK_ENABLE + CLOCK_UPDATE == 0x8064_0061
  {
  }

  /** Bit 3 gets set and no other bit changes. */
  lemma RtsOverrideBit(x: nat)
    ensures var y := WithRtsOverride(x); y / 8 % 2 == 1 && y % 8 == x % 8 && y / 16 == x / 16
  {
  }

  /** A clock that is a multiple of sixteen times the rate is met exactly. */
  lemma ExactDivisor(baud: nat, k: nat)
    requires 0 < baud < RATE_LIMIT && 16 * baud * k < U32
    ensures Divisor(16 * baud * k, baud) == k
  {
    var c, x := 16 * baud, 16 * baud * k;
    DivisorBrackets(x, baud);
    QuotientIs(x + 8 * baud, c, k);
    QuotientIs(x + 8 * baud, c, Divisor(x, baud));
  }

  lemma ClockFields(m: nat, n: nat)
    requires m < 0x8000 && n < 0x8000
    ensures var w := ClockWord(m, n) + CLOCK_ENABLE + CLOCK_UPDATE; ClockM(w) == m && ClockN(w) == n
  {
    var w := ClockWord(m, n) + CLOCK_ENABLE + CLOCK_UPDATE;
    assert w / 2 == m + 0x8000 * (n + 0x8000);
    assert w / 0x1_0000 == n + 0x8000;
  }

  class BaudChannel {
    // The driver's record
    var lcr: nat
    var xtal: nat
    var baudRate: nat

    // The chip
    var lcrReg: nat
    var dll: nat
    var dlm: nat
    var ierReg: nat
    var thr: seq<nat>
    var clock: nat
    var general: nat
    var txOverflow: nat

    /** REG_SET: what a write does depends on the latch access bit. */
    method RegSet(offset: nat, value: nat)
      requires offset == DLL || offset == DLM || offset == LCR
      modifies this`lcrReg, this`dll, this`dlm, this`ierReg, this`thr
      ensures lcrReg == if offset == LCR then value else old(lcrReg)
      ensures dll == if offset == DLL && Dlab(old(lcrReg)) then value else old(dll)
      ensures dlm == if offset == DLM && Dlab(old(lcrReg)) then value else old(dlm)
      ensures thr == if offset == DLL && !Dlab(old(lcrReg)) then old(thr) + [value] else old(thr)
      ensures ierReg == if offset == DLM && !Dlab(old(lcrReg)) then value else old(ierReg)
    {
      if offset == LCR {
        lcrReg := value;
      } else if offset == DLL {
        if Dlab(lcrReg) { dll := value; } else { thr := thr + [value]; }
      } else {
        if Dlab(lcrReg) { dlm := value; } else { ierReg := value; }
      }
    }

    /** The latch loading both setters share: nothing is transmitted and the interrupt enables
        are untouched although the latch sits at their addresses. */
    method LoadLatch(divisor: nat)
      modifies this`lcrReg, this`dll, this`dlm, this`ierReg, this`thr
      ensures dll == Lo(divisor) && dlm == Hi(divisor) && lcrReg == lcr
      ensures thr == old(thr) && ierReg == old(ierReg)
    {
      RegSet(LCR, WithDlab(lcr));
      RegSet(DLL, divisor % 256);
      RegSet(DLM, (divisor / 256) % 256);
      RegSet(LCR, lcr);
    }

    /** ns16550vxbBaudSet without a BSP divisor hook. */
    method BaudSet(baud: nat)
      requires xtal < U32 && 0 < baud < RATE_LIMIT
      modifies this`lcrReg, this`dll, this`dlm, this`ierReg, this`thr, this`baudRate
      ensures Loaded(Divisor(xtal, baud))
      ensures lcrReg == lcr && thr == old(thr) && ierReg == old(ierReg) && baudRate == baud
    {
      var divisor := Divisor(xtal, baud);
      LatchBytesRecombine(divisor);
      LoadLatch(divisor);
      baudRate := baud;
    }

    /** The latch holds the divisor, up to sixteen bits. */
    predicate Loaded(d: nat)
      reads this
    {
      dll == Lo(d) && dlm == Hi(d) && (d < 0x1_0000 ==> dll + 256 * dlm == d)
    }

    /** The clock selection of the HSUART setter, by the rate asked for. */
    method SelectClock(baud: nat)
      modifies this`xtal, this`clock
      ensures xtal == HsuartClock(baud).xtal
      ensures ClockM(clock) == HsuartClock(baud).m && ClockN(clock) == HsuartClock(baud).n
      ensures clock == ClockWord(HsuartClock(baud).m, HsuartClock(baud).n) + CLOCK_ENABLE + CLOCK_UPDATE
    {
      var m, n;
      if baud == 1000000 || baud == 2000000 || baud == 4000000 {
        m, n := 64, 100;
        xtal := 64000000;
      } else if baud == 3000000 {
        m, n := 48, 100;
        xtal := 48000000;
      } else {
        m, n := 6912, 15625;
        xtal := 44236800;
      }
      clock := ClockWord(m, n);
      clock := ClockWord(m, n) + CLOCK_ENABLE + CLOCK_UPDATE;
      ClockFields(m, n);
    }

    /** ns16550vxbHsuartBaudSet.  `present` is false when the line status reads 0xff. */
    method HsuartBaudSet(baud: nat, present: bool)
      requires 0 < baud < RATE_LIMIT
      modifies this`lcrReg, this`dll, this`dlm, this`ierReg, this`thr, this`baudRate, this`xtal, this`clock,
        this`general, this`txOverflow
      ensures xtal == HsuartClock(baud).xtal
      ensures ClockM(clock) == HsuartClock(baud).m && ClockN(clock) == HsuartClock(baud).n
      ensures clock == ClockWord(HsuartClock(baud).m, HsuartClock(baud).n) + CLOCK_ENABLE + CLOCK_UPDATE
      ensures present ==> Loaded(Divisor(xtal, baud)) && lcrReg == lcr && baudRate == baud
      ensures !present ==> lcrReg == old(lcrReg) && dll == old(dll) && dlm == old(dlm) && baudRate == old(baudRate)
      ensures thr == old(thr) && ierReg == old(ierReg)
      ensures general == WithRtsOverride(old(general)) && txOverflow == TX_OVF_INT_MASK
    {
      SelectClock(baud);
      var divisor := Divisor(xtal, baud);
      general := WithRtsOverride(general);
      txOverflow := TX_OVF_INT_MASK;
      if present {
        LatchBytesRecombine(divisor);
        LoadLatch(divisor);
        baudRate := baud;
      }
    }
  }
}
