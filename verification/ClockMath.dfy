/** The integer arithmetic of the PTP clock: a 64-by-32 division done in two halves, the
    frequency addend, and the conversion between nanoseconds and clock units.  Machine widths
    are subset types; every truncation the C types perform is written out. */
module ClockMath {

  import opened MachineInts

  const NS_PER_SEC := 1_000_000_000

  // ---- Division ----

  lemma QuotientUnique(a: nat, b: nat, q: nat, r: nat)
    requires b > 0 && r < b && a == q * b + r
    ensures a / b == q && a % b == r
  {
    var q', r' := a / b, a % b;
    assert a == q' * b + r';
    assert (q' - q) * b == r - r';
    if q' - q >= 1 {
      MulMono(1, q' - q, b);
    }
    if q' - q <= -1 {
      MulMono(q' - q, -1, b);
    }
  }

  /** The processor's 64-by-32 divide.  It traps when the quotient does not fit 32 bits, so the
      upper half must be below the divisor. */
  method Divl(upper: u32, lower: u32, divisor: u32) returns (quotient: u32, remainder: u32)
    requires upper < divisor
    ensures upper * W32 + lower == quotient * divisor + remainder && remainder < divisor
  {
    var value := upper * W32 + lower;
    assert value < divisor * W32;
    DivBelow(value, divisor, W32);
    quotient, remainder := value / divisor, value % divisor;
  }

  /** The assembled 64-bit quotient and the remainder of the two-step long division are exact,
      and the second step cannot trap. */
  method LongDivide(dividend: u64, divisor: u32) returns (v64: u64, remainder: u32)
    requires divisor != 0
    ensures v64 == dividend / divisor && remainder == dividend % divisor
  {
    var low: u32, high: u32 := dividend % W32, dividend / W32;
    var upper: u32 := high;
    high := 0;
    if upper >= divisor {
      high := upper / divisor;
      upper := upper % divisor;
    }
    assert high * divisor + upper == dividend / W32;
    ghost var low0 := low;
    low, remainder := Divl(upper, low, divisor);
    v64 := high * W32 + low;
    calc {
      dividend;
      (high * divisor + upper) * W32 + low0;
      high * divisor * W32 + (upper * W32 + low0);
      { assert high * divisor * W32 == high * W32 * divisor; }
      high * W32 * divisor + low * divisor + remainder;
      v64 * divisor + remainder;
    }
    QuotientUnique(dividend, divisor, v64, remainder);
  }

  /** div_u64_rem: its 32-bit result keeps the low half of the quotient only. */
  method DivU64Rem(dividend: u64, divisor: u32) returns (quotient: u32, remainder: u32)
    requires divisor != 0
    ensures quotient == dividend / divisor % W32 && remainder == dividend % divisor
    ensures dividend < divisor * W32 ==> quotient == dividend / divisor
  {
    var v64: u64;
    v64, remainder := LongDivide(dividend, divisor);
    quotient := v64 % W32;
    DivBelow(dividend, divisor, W32);
  }

  /** Comparing a quotient is comparing a product. */
  lemma DivBelow(a: nat, b: nat, m: int)
    requires b > 0
    ensures a / b < m <==> a < m * b
  {
    var q, r := a / b, a % b;
    assert a == q * b + r;
    if q < m {
      assert (q + 1) * b <= m * b;
    } else {
      assert m * b <= q * b;
    }
  }

  // ---- Frequency addend ----

  /** The addend of an unadjusted clock: 2^32 - 1 scaled by half the clock over the clock. */
  function DefAddend(clock: u32): nat
    requires clock != 0
  {
    0xFFFF_FFFF * (clock / 2) / clock
  }

  function Scaled(addend: nat, ppb: nat): nat
    requires ppb < NS_PER_SEC
  {
    addend * NS_PER_SEC / (NS_PER_SEC - ppb)
  }

  /** The mathematical addend for an adjustment of `ppb` parts per billion, before any truncation. */
  function Addend(clock: u32, ppb: nat): nat
    requires clock != 0 && ppb < NS_PER_SEC
  {
    Scaled(DefAddend(clock), ppb)
  }

  lemma DefAddendBound(clock: u32)
    requires clock != 0
    ensures DefAddend(clock) <= 0x7FFF_FFFF
    ensures clock % 2 == 0 ==> DefAddend(clock) == 0x7FFF_FFFF
  {
    var product := 0xFFFF_FFFF * (clock / 2);
    assert 2 * product <= 0xFFFF_FFFF * clock;
    assert product < 0x8000_0000 * clock;
    DivBelow(product, clock, 0x8000_0000);
    if clock % 2 == 0 {
      assert clock == 2 * (clock / 2);
      assert !(product < 0x7FFF_FFFF * clock);
      DivBelow(product, clock, 0x7FFF_FFFF);
    }
  }

  /** Both divisions round down: the two bounds say which addend it is. */
  lemma AddendExact(clock: u32, ppb: nat)
    requires clock != 0 && ppb < NS_PER_SEC
    ensures var d, a := DefAddend(clock), Addend(clock, ppb);
            && d * clock <= 0xFFFF_FFFF * (clock / 2) < (d + 1) * clock
            && a * (NS_PER_SEC - ppb) <= d * NS_PER_SEC < (a + 1) * (NS_PER_SEC - ppb)
  {
    RoundedDown(0xFFFF_FFFF * (clock / 2), clock);
    RoundedDown(DefAddend(clock) * NS_PER_SEC, NS_PER_SEC - ppb);
  }

  lemma RoundedDown(a: nat, b: nat)
    requires b > 0
    ensures a / b * b <= a < (a / b + 1) * b
  {
    DivBelow(a, b, a / b);
    DivBelow(a, b, a / b + 1);
  }

  /** The addend fits its 32-bit register exactly below a threshold that depends on the clock only. */
  lemma AddendFits(clock: u32, ppb: nat)
    requires clock != 0 && ppb < NS_PER_SEC
    ensures Addend(clock, ppb) < W32 <==> ppb < NS_PER_SEC - DefAddend(clock) * NS_PER_SEC / W32
  {
    var a := DefAddend(clock) * NS_PER_SEC;
    DivBelow(a, NS_PER_SEC - ppb, W32);
    DivBelow(a, W32, NS_PER_SEC - ppb);
  }

  /** Half a billion parts per billion is always safe, and for an even clock it is the limit. */
  lemma AddendLimit(clock: u32, ppb: nat)
    requires clock != 0 && ppb < NS_PER_SEC
    ensures ppb <= 500_000_000 ==> Addend(clock, ppb) < W32
    ensures clock % 2 == 0 ==> (Addend(clock, ppb) < W32 <==> ppb <= 500_000_000)
  {
    DefAddendBound(clock);
    AddendFits(clock, ppb);
  }

  lemma DivMono(a: nat, b: nat, b': nat)
    requires 0 < b' <= b
    ensures a / b <= a / b'
  {
    var m := a / b;
    DivBelow(a, b, m);
    DivBelow(a, b', m);
    MulMono(b', b, m);
  }

  lemma AddendMonotone(clock: u32, p: nat, q: nat)
    requires clock != 0 && p <= q < NS_PER_SEC
    ensures Addend(clock, p) <= Addend(clock, q)
  {
    DivMono(DefAddend(clock) * NS_PER_SEC, NS_PER_SEC - p, NS_PER_SEC - q);
  }

  /** The addend against the linear adjustment: never below def * (1 + ppb/1e9) rounded down, and
      above it by less than def * ppb^2 / (1e9 * (1e9 - ppb)) + 1. */
  lemma AddendAccuracy(clock: u32, ppb: nat)
    requires clock != 0 && ppb < NS_PER_SEC
    ensures var linear := DefAddend(clock) * (NS_PER_SEC + ppb) / NS_PER_SEC;
            && linear <= Addend(clock, ppb)
            && (Addend(clock, ppb) - linear - 1) * (NS_PER_SEC * (NS_PER_SEC - ppb)) < DefAddend(clock) * (ppb * ppb)
  {
    ScaledAccuracy(DefAddend(clock), ppb);
  }

  lemma ScaledAccuracy(d: nat, ppb: nat)
    requires ppb < NS_PER_SEC
    ensures var linear := d * (NS_PER_SEC + ppb) / NS_PER_SEC;
            && linear <= Scaled(d, ppb)
            && (Scaled(d, ppb) - linear - 1) * (NS_PER_SEC * (NS_PER_SEC - ppb)) < d * (ppb * ppb)
  {
    var g := NS_PER_SEC;
    var linear, q := d * (g + ppb) / g, Scaled(d, ppb);
    DivBelow(d * (g + ppb), g, linear);
    DivBelow(d * (g + ppb), g, linear + 1);
    DivBelow(d * g, g - ppb, q);
    DivBelow(d * g, g - ppb, q + 1);
    LinearBelow(d, g, ppb, linear, q);
    LinearClose(d, g, ppb, linear, q);
  }

  lemma LinearBelow(d: nat, g: nat, p: nat, linear: nat, q: nat)
    requires p < g && linear * g <= d * (g + p) && d * g < (q + 1) * (g - p)
    ensures linear <= q
  {
    var e := g - p;
    MulMono(linear * g, d * (g + p), e);
    MulStrict(d * g, (q + 1) * e, g);
    Squares(d, g, p);
    MulMono(0, p * p, d);
    if linear >= q + 1 {
      MulMono(q + 1, linear, e);
      MulMono((q + 1) * e, linear * e, g);
      Swap(linear, e, g);
      assert false;
    }
  }

  lemma LinearClose(d: nat, g: nat, p: nat, linear: nat, q: nat)
    requires p < g && d * (g + p) < (linear + 1) * g && q * (g - p) <= d * g
    ensures (q - linear - 1) * (g * (g - p)) < d * (p * p)
  {
    var e := g - p;
    MulMono(q * e, d * g, g);
    MulStrict(d * (g + p), (linear + 1) * g, e);
    Squares(d, g, p);
    Spread(q, linear + 1, g, e);
  }

  lemma Squares(d: int, g: int, p: int)
    ensures d * g * g - d * (g + p) * (g - p) == d * (p * p)
  {}

  lemma Spread(q: int, l: int, g: int, e: int)
    ensures (q - l) * (g * e) == q * e * g - l * g * e
  {}

  lemma Swap(a: int, b: int, c: int)
    ensures a * b * c == a * c * b
  {}

  lemma MulMono(a: int, b: int, c: nat)
    requires a <= b
    ensures a * c <= b * c && c * a <= c * b
  {}

  lemma MulStrict(a: int, b: int, c: nat)
    requires a < b && c > 0
    ensures a * c < b * c
  {}

  // ---- Nanoseconds and clock units ----

  /** Whole clock units in `ns` nanoseconds. */
  function Units(ns: nat, clock: nat): nat {
    ns * clock / NS_PER_SEC
  }

  /** The nanoseconds reported for a unit count. */
  function Nanoseconds(units: nat, clock: nat): nat
    requires clock != 0
  {
    units * NS_PER_SEC / clock
  }

  /** Both conversions round down: the bounds say which count and which time it is. */
  lemma ConversionsExact(ns: nat, units: nat, clock: nat)
    requires clock != 0
    ensures Units(ns, clock) * NS_PER_SEC <= ns * clock < (Units(ns, clock) + 1) * NS_PER_SEC
    ensures Nanoseconds(units, clock) * clock <= units * NS_PER_SEC < (Nanoseconds(units, clock) + 1) * clock
  {
    RoundedDown(ns * clock, NS_PER_SEC);
    RoundedDown(units * NS_PER_SEC, clock);
  }

  /** Programming an interval and reading it back loses less than one unit plus one nanosecond. */
  lemma QuantisationLoss(ns: nat, clock: nat)
    requires clock != 0
    ensures var back := Nanoseconds(Units(ns, clock), clock);
            back <= ns && (ns - back) * clock < NS_PER_SEC + clock
  {
    var units := Units(ns, clock);
    var back := Nanoseconds(units, clock);
    assert units * NS_PER_SEC <= ns * clock < units * NS_PER_SEC + NS_PER_SEC;
    assert back * clock <= units * NS_PER_SEC < back * clock + clock;
    assert (ns - back) * clock == ns * clock - back * clock;
    DivBelow(units * NS_PER_SEC, clock, ns + 1);
  }

  /** Programming the read-back interval moves the unit count down by at most the rounded-up
      number of nanoseconds a unit falls short of: one unit for every clock up to 1 GHz. */
  lemma Reprogramming(ns: nat, clock: nat)
    requires clock != 0
    ensures var units := Units(ns, clock);
            var again := Units(Nanoseconds(units, clock), clock);
            again <= units && units - again <= (clock + NS_PER_SEC - 2) / NS_PER_SEC
    ensures clock <= NS_PER_SEC ==> Units(ns, clock) - Units(Nanoseconds(Units(ns, clock), clock), clock) <= 1
  {
    var units := Units(ns, clock);
    var back := Nanoseconds(units, clock);
    assert back * clock <= units * NS_PER_SEC < back * clock + clock;
  }

  /** No intermediate value of the interval arithmetic overflows its C type. */
  lemma UnitsRange(ns: nat, clock: u32)
    requires ns < NS_PER_SEC
    ensures ns * clock < W64 && Units(ns, clock) < W32
    ensures Units(ns, clock) * NS_PER_SEC < W64
    ensures clock != 0 ==> Nanoseconds(Units(ns, clock), clock) <= ns
  {
    MulMono(ns, NS_PER_SEC - 1, clock);
    assert ns * clock <= (NS_PER_SEC - 1) * (W32 - 1);
    if clock != 0 {
      QuantisationLoss(ns, clock);
    }
  }

  /** A unit count is zero exactly for intervals shorter than one clock unit. */
  lemma ZeroUnits(ns: nat, clock: nat)
    ensures Units(ns, clock) == 0 <==> ns * clock < NS_PER_SEC
  {}

  /** A one-unit interval survives a read and a write back exactly when the clock divides 1 GHz. */
  lemma OneUnitReprogrammed(clock: nat)
    requires clock != 0
    ensures Units(Nanoseconds(1, clock), clock) == 0 <==> NS_PER_SEC % clock != 0
  {
    var back := Nanoseconds(1, clock);
    assert back * clock + NS_PER_SEC % clock == NS_PER_SEC;
  }

  // ---- Sub-second increment ----

  /** Whole nanoseconds a clock tick lasts, as the 8-bit register holds them. */
  function SubSec(clock: nat): nat
    requires clock != 0
  {
    NS_PER_SEC / clock % 256
  }

  /** Thousandths of a nanosecond left over in a tick, rounded up by one. */
  function Thousandths(clock: nat): nat
    requires clock != 0
  {
    NS_PER_SEC % clock * 1000 / clock + 1
  }

  /** The left-over in 256ths of a nanosecond, as the 8-bit register holds it. */
  function SubNsec(clock: nat): nat
    requires clock != 0
  {
    Thousandths(clock) * 256 / 1000 % 256
  }

  lemma ThousandthsOf(r: nat, clock: nat, thousandths: nat)
    requires r < clock && thousandths == r * 1000 / clock + 1
    ensures (thousandths - 1) * clock <= r * 1000 < thousandths * clock && 0 < thousandths <= 1000
  {
    DivBelow(r * 1000, clock, thousandths);
    DivBelow(r * 1000, clock, thousandths - 1);
    DivBelow(r * 1000, clock, 1000);
  }

  lemma FractionOf(thousandths: nat, f: nat)
    requires 0 < thousandths <= 1000 && f == thousandths * 256 / 1000
    ensures 1000 * f <= 256 * thousandths < 1000 * f + 1000 && f <= 256 && (f < 256 <==> thousandths < 1000)
  {}

  lemma FractionBounds(r: int, clock: nat, thousandths: int, f: int)
    requires clock > 0 && (thousandths - 1) * clock <= r * 1000 < thousandths * clock
    requires 1000 * f <= 256 * thousandths < 1000 * f + 1000
    ensures 0 - clock < f * clock - 256 * r <= clock
  {
    MulMono(1000 * f, 256 * thousandths, clock);
    MulStrict(256 * thousandths, 1000 * f + 1000, clock);
    Thousandfold(r, clock, thousandths, f);
  }

  lemma Thousandfold(r: int, clock: int, thousandths: int, f: int)
    ensures 256 * thousandths * clock == 256 * ((thousandths - 1) * clock) + 256 * clock
    ensures 1000 * f * clock == 1000 * (f * clock)
    ensures (1000 * f + 1000) * clock == 1000 * (f * clock) + 1000 * clock
  {}

  lemma FractionError(r: nat, clock: nat, thousandths: nat, f: nat)
    requires r < clock && thousandths == r * 1000 / clock + 1 && f == thousandths * 256 / 1000
    ensures 0 - clock < f * clock - 256 * r <= clock
    ensures 0 < thousandths <= 1000 && (f < 256 <==> thousandths < 1000) && f <= 256
    ensures thousandths == 1000 ==> 256 * r >= 255 * clock
  {
    ThousandthsOf(r, clock, thousandths);
    FractionOf(thousandths, f);
    FractionBounds(r, clock, thousandths, f);
  }

  /** The programmed tick is within one 256th of a nanosecond of the real one exactly when the tick
      is shorter than 256 ns and its fraction is below 0.999 ns; otherwise an 8-bit field wraps. */
  lemma IncrementAccuracy(clock: nat)
    requires clock != 0
    ensures AccurateTick(SubSec(clock) * 256 + SubNsec(clock), clock)
       <==> NS_PER_SEC / clock < 256 && Thousandths(clock) < 1000
  {
    var k, r, t := NS_PER_SEC / clock, NS_PER_SEC % clock, Thousandths(clock);
    var f := t * 256 / 1000;
    TickParts(NS_PER_SEC, clock);
    FractionError(r, clock, t, f);
    TickAccuracy(k, r, t, f, clock);
  }

  lemma TickParts(a: nat, b: nat)
    requires b != 0
    ensures a / b * b + a % b == a && 0 <= a % b < b && a / b >= 0
  {}

  /** `tick`, in 256ths of a nanosecond, is within one of a 256 * 1e9 / clock tick. */
  predicate AccurateTick(tick: int, clock: nat) {
    0 - clock <= tick * clock - 256 * NS_PER_SEC <= clock
  }

  lemma TickAccuracy(k: nat, r: nat, t: nat, f: nat, clock: nat)
    requires r < clock && k * clock + r == NS_PER_SEC
    requires 0 - clock < f * clock - 256 * r <= clock
    requires f <= 256 && (f < 256 <==> t < 1000) && t <= 1000 && (t == 1000 ==> 256 * r >= 255 * clock)
    ensures AccurateTick(k % 256 * 256 + f % 256, clock) <==> k < 256 && t < 1000
  {
    if k >= 256 {
      WrappedTick(k, r, f % 256, clock);
    } else {
      TickError(k, r, f % 256, clock);
    }
  }

  lemma TickError(k: int, r: int, f: int, clock: int)
    ensures (k * 256 + f) * clock - 256 * (k * clock + r) == f * clock - 256 * r
  {}

  lemma WrappedTick(k: nat, r: nat, f: nat, clock: nat)
    requires k >= 256 && r < clock && f < 256
    ensures (k % 256 * 256 + f) * clock - 256 * (k * clock + r) < 0 - clock
  {
    var low := k % 256 * 256 + f;
    assert low + 2 <= 256 * k;
    MulMono(low + 2, 256 * k, clock);
  }
}
