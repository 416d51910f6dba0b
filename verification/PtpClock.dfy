/** The PTP clock functions of the chip driver over a register file of 16-bit halves: the signed
    time adjustment, the frequency adjustment, the PPS generator, the one-step correction time. */
module PtpClock {
  import opened ClockMath
  import opened MachineInts

  const MAX_NSEC_IN_SEC := 0x3B9A_C9FF
  const MAX_NANOSEC_IN_DAY := 86_399_999_999_999
  const MAX_RW_RETRY := 100

  // Register offsets from the GMAC base address, and bit weights within the control register.
  const TIMESTAMP_CONTROL_L := 0x1600
  const SUB_SECOND_INCREMENT_L := 0x1608
  const SUB_SECOND_INCREMENT_H := 0x160C
  const SECONDS_UPDATE_L := 0x1620
  const SECONDS_UPDATE_H := 0x1624
  const NANOSECONDS_UPDATE_L := 0x1628
  const NANOSECONDS_UPDATE_H := 0x162C
  const TIMESTAMP_ADDEND_L := 0x1630
  const TIMESTAMP_ADDEND_H := 0x1634
  const PPS_CONTROL_L := 0x16E0
  const PPS0_SECONDS_L := 0x1700
  const PPS0_SECONDS_H := 0x1704
  const PPS0_NANOSECONDS_L := 0x1708
  const PPS0_NANOSECONDS_H := 0x170C
  const PPS0_INTERVAL_L := 0x1710
  const PPS0_INTERVAL_H := 0x1714
  const PPS0_WIDTH_L := 0x1718
  const PPS0_WIDTH_H := 0x171C
  const TSCFUPDT := 2
  const TSUPDT := 8
  const TSADDREG := 32

  type Regs = map<int, u16>

  function Peek(regs: Regs, addr: int): u16 {
    if addr in regs then regs[addr] else 0
  }

  /** The 32-bit value held by a low and a high register. */
  function Pair(regs: Regs, low: int, high: int): u32 {
    Peek(regs, high) * W16 + Peek(regs, low)
  }

  /** Which half is which. */
  lemma PairHalves(regs: Regs, low: int, high: int)
    ensures Pair(regs, low, high) % W16 == Peek(regs, low) && Pair(regs, low, high) / W16 == Peek(regs, high)
  {}

  predicate HasBit(v: u16, weight: nat)
    requires weight in {TSCFUPDT, TSUPDT, TSADDREG}
  {
    v / weight % 2 == 1
  }

  function WithBit(v: u16, weight: nat): u16
    requires weight in {TSCFUPDT, TSUPDT, TSADDREG}
  {
    if HasBit(v, weight) then v else v + weight
  }

  /** Registers `a` and `b` agree outside the addresses `changed`. */
  ghost predicate SameBut(a: Regs, b: Regs, changed: set<int>) {
    forall addr: int :: addr !in changed ==> Peek(a, addr) == Peek(b, addr)
  }

  /** The GMAC registers.  Every access may fail; a failed write has changed nothing. */
  class ClockPort {
    var regs: Regs
    /** How many accesses have failed. */
    ghost var refused: nat

    /** Returns the value, or a negative error. */
    method Read(addr: int) returns (ret: int)
      modifies this`refused
      ensures ret < 0 || ret == Peek(regs, addr)
      ensures refused == if ret < 0 then old(refused) + 1 else old(refused)
    {
      ret := *;
      if ret >= 0 {
        ret := Peek(regs, addr);
      } else {
        refused := refused + 1;
      }
    }

    method Write(addr: int, val: u16) returns (ret: int)
      modifies this
      ensures ret <= 0
      ensures regs == if ret == 0 then old(regs)[addr := val] else old(regs)
      ensures refused == if ret < 0 then old(refused) + 1 else old(refused)
    {
      ret := *;
      if ret >= 0 {
        ret := 0;
        regs := regs[addr := val];
      } else {
        refused := refused + 1;
      }
    }

    method SetBit(addr: int, weight: nat) returns (ret: int)
      requires weight in {TSCFUPDT, TSUPDT, TSADDREG}
      modifies this
      ensures ret <= 0
      ensures regs == if ret == 0 then old(regs)[addr := WithBit(Peek(old(regs), addr), weight)] else old(regs)
      ensures refused >= old(refused) && (ret < 0 ==> refused > old(refused))
    {
      ret := Read(addr);
      if ret >= 0 {
        ret := Write(addr, WithBit(ret, weight));
      }
    }

    /** Two halves of a 32-bit value, low first. */
    method WritePair(low: int, high: int, val: u32) returns (ret: int)
      requires low != high
      modifies this
      ensures ret <= 0
      ensures SameBut(regs, old(regs), {low, high})
      ensures ret == 0 ==> Pair(regs, low, high) == val
      ensures ret == 0 ==> Peek(regs, low) == val % W16 && Peek(regs, high) == val / W16
      ensures refused >= old(refused) && (ret < 0 ==> refused > old(refused))
    {
      ret := Write(low, val % W16);
      if ret == 0 {
        ret := Write(high, val / W16);
      }
    }

    method ReadPair(low: int, high: int) returns (ret: int, val: u32)
      modifies this`refused
      ensures ret >= 0 ==> val == Pair(regs, low, high)
      ensures ret >= 0 ==> val % W16 == Peek(regs, low) && val / W16 == Peek(regs, high)
      ensures refused >= old(refused) && (ret < 0 ==> refused > old(refused))
    {
      val := 0;
      ret := Read(low);
      if ret >= 0 {
        val := ret;
        ret := Read(high);
        if ret >= 0 {
          val := ret * W16 + val;
        }
      }
    }

    /** __is_rw_done: polls a busy bit, whatever the bus answers.  Running out of retries is never
        reported, nor is a failing read: the test after the loop needs a clear bit together with an
        exhausted count, and the loop leaves with one or the other. */
    method IsRwDone(addr: int) returns (ret: int)
      modifies this`refused
      ensures ret == 0 && refused >= old(refused)
    {
      ret := 0;
      var busyRetry: nat := MAX_RW_RETRY;
      var value := 1;
      while true
        invariant busyRetry > 0 && refused >= old(refused)
        decreases busyRetry
      {
        var word := Read(addr);
        value := *;
        if value != 0 {
          busyRetry := busyRetry - 1;
        }
        if value == 0 || busyRetry == 0 {
          break;
        }
      }
      if value == 0 && busyRetry == 0 {
        ret := -1;
      }
    }
  }

  // ---- adjtime ----

  /** The addresses an adjustment writes. */
  function UpdateAddrs(base: int): set<int> {
    {base + SECONDS_UPDATE_L, base + SECONDS_UPDATE_H, base + NANOSECONDS_UPDATE_L, base + NANOSECONDS_UPDATE_H,
     base + TIMESTAMP_CONTROL_L}
  }

  /** The signed number of nanoseconds the hardware is asked to add, by its register description:
      bit 15 of the upper nanosecond half selects subtraction, in which case the seconds hold a
      complement to 2^32 and the nanoseconds a complement to 10^9. */
  function RequestedDelta(regs: Regs, base: int): int {
    DecodeDelta(Pair(regs, base + SECONDS_UPDATE_L, base + SECONDS_UPDATE_H),
                Peek(regs, base + NANOSECONDS_UPDATE_L), Peek(regs, base + NANOSECONDS_UPDATE_H))
  }

  function DecodeDelta(sec: u32, nsecLow: u16, nsecHigh: u16): int {
    var nsec := nsecHigh % 0x8000 * W16 + nsecLow;
    if nsecHigh / 0x8000 == 1 then -((W32 - sec) % W32 * NS_PER_SEC + (NS_PER_SEC - nsec))
    else sec * NS_PER_SEC + nsec
  }

  /** The upper nanosecond half with the ADDSUB field replaced. */
  function WithAddSub(high: u16, addSub: int): u16
    requires 0 <= addSub <= 1
  {
    high % 0x8000 + addSub * 0x8000
  }

  /** No nanosecond value that can be programmed reaches the ADDSUB bit. */
  lemma AddSubIsFree(addSub: int, nsec: u32)
    requires 0 <= addSub <= 1 && nsec <= NS_PER_SEC
    ensures nsec / W16 < 0x8000
    ensures WithAddSub(nsec / W16, addSub) % 0x8000 == nsec / W16
    ensures WithAddSub(nsec / W16, addSub) / 0x8000 == addSub
  {}

  /** Undoing the two complements recovers what was encoded: a zero magnitude, and seconds whose
      complement wraps to zero, included. */
  lemma UpdateDecodes(addSub: int, sec: u32, nsec: u32)
    requires 0 <= addSub <= 1 && nsec <= MAX_NSEC_IN_SEC
    ensures DecodeDelta(SecField(addSub, sec), NsecField(addSub, nsec) % W16,
                        WithAddSub(NsecField(addSub, nsec) / W16, addSub))
         == (1 - 2 * addSub) * (sec * NS_PER_SEC + nsec)
  {
    var field := NsecField(addSub, nsec);
    AddSubIsFree(addSub, field);
    assert field / W16 * W16 + field % W16 == field;
    if addSub == 1 {
      ComplementTwice(sec);
    }
  }

  lemma ComplementTwice(sec: u32)
    ensures (W32 - (W32 - sec) % W32) % W32 == sec
  {}

  /** The seconds to program: a difference of 2^32 is cut to 32 bits. */
  function SecField(addSub: int, sec: u32): u32 {
    if addSub != 0 then (W32 - sec) % W32 else sec
  }

  function NsecField(addSub: int, nsec: u32): u32
    requires nsec <= MAX_NSEC_IN_SEC
  {
    if addSub != 0 then NS_PER_SEC - nsec else nsec
  }

  /** The four update registers hold these seconds and nanoseconds, low half in the low register, and the
      sign in the highest bit. */
  predicate HalvesAre(regs: Regs, base: int, sec: u32, nsec: u32, subtract: bool) {
    && Peek(regs, base + SECONDS_UPDATE_L) == sec % W16
    && Peek(regs, base + SECONDS_UPDATE_H) == sec / W16
    && Peek(regs, base + NANOSECONDS_UPDATE_L) == nsec % W16
    && Peek(regs, base + NANOSECONDS_UPDATE_H) == nsec / W16 + if subtract then 0x8000 else 0
  }

  /** _gpy2xx_ptp_updt_systime: programs the magnitude `sec`, `nsec` with the given sign. */
  method UpdateSystime(port: ClockPort, base: int, addSub: int, sec: u32, nsec: u32) returns (ret: int)
    requires 0 <= addSub <= 1
    modifies port
    ensures ret <= 0
    ensures nsec > MAX_NSEC_IN_SEC ==> ret == -EINVAL && port.regs == old(port.regs)
    ensures SameBut(port.regs, old(port.regs), UpdateAddrs(base))
    ensures ret == 0 ==> RequestedDelta(port.regs, base) == (1 - 2 * addSub) * (sec * NS_PER_SEC + nsec)
    ensures ret == 0 ==> HalvesAre(port.regs, base, if addSub == 1 then (W32 - sec) % W32 else sec,
                                   if addSub == 1 then NS_PER_SEC - nsec else nsec, addSub == 1)
    ensures port.refused >= old(port.refused)
    ensures nsec <= MAX_NSEC_IN_SEC && port.refused == old(port.refused) ==> ret == 0
    ensures var control := Peek(old(port.regs), base + TIMESTAMP_CONTROL_L);
            Peek(port.regs, base + TIMESTAMP_CONTROL_L) == if ret == 0 then WithBit(control, TSUPDT) else control
  {
    if nsec > MAX_NSEC_IN_SEC {
      return -EINVAL;
    }
    ret := port.IsRwDone(base + TIMESTAMP_CONTROL_L);
    if ret < 0 {
      return;
    }
    var secUpdate, nsecUpdate := SecField(addSub, sec), NsecField(addSub, nsec);
    AddSubIsFree(addSub, nsecUpdate);
    ret := WriteUpdate(port, base, secUpdate, nsecUpdate % W16, WithAddSub(nsecUpdate / W16, addSub));
    if ret < 0 {
      return;
    }
    UpdateDecodes(addSub, sec, nsec);
    ret := port.SetBit(base + TIMESTAMP_CONTROL_L, TSUPDT);
    if ret < 0 {
      return;
    }
    ret := port.IsRwDone(base + TIMESTAMP_CONTROL_L);
  }

  /** The four update registers. */
  method WriteUpdate(port: ClockPort, base: int, sec: u32, nsecLow: u16, nsecHigh: u16) returns (ret: int)
    modifies port
    ensures ret <= 0
    ensures SameBut(port.regs, old(port.regs), UpdateAddrs(base) - {base + TIMESTAMP_CONTROL_L})
    ensures ret == 0 ==> RequestedDelta(port.regs, base) == DecodeDelta(sec, nsecLow, nsecHigh)
    ensures ret == 0 ==>
              && Peek(port.regs, base + SECONDS_UPDATE_L) == sec % W16
              && Peek(port.regs, base + SECONDS_UPDATE_H) == sec / W16
              && Peek(port.regs, base + NANOSECONDS_UPDATE_L) == nsecLow
              && Peek(port.regs, base + NANOSECONDS_UPDATE_H) == nsecHigh
    ensures port.refused >= old(port.refused) && (ret < 0 ==> port.refused > old(port.refused))
  {
    ret := port.WritePair(base + SECONDS_UPDATE_L, base + SECONDS_UPDATE_H, sec);
    if ret < 0 {
      return;
    }
    ret := port.Write(base + NANOSECONDS_UPDATE_L, nsecLow);
    if ret < 0 {
      return;
    }
    ret := port.Write(base + NANOSECONDS_UPDATE_H, nsecHigh);
  }

  /** gpy2xx_ptp_adjtime: for every delta of less than a day the registers end up asking for exactly
      that delta, and the update is triggered only once they do; any other delta writes nothing.
      The most negative value keeps its sign when negated, and the unsigned comparison refuses it. */
  method AdjTime(port: ClockPort, base: int, delta: s64) returns (ret: int)
    modifies port
    ensures ret <= 0
    ensures !(-MAX_NANOSEC_IN_DAY <= delta <= MAX_NANOSEC_IN_DAY) ==> ret == -EINVAL && port.regs == old(port.regs)
    ensures SameBut(port.regs, old(port.regs), UpdateAddrs(base))
    ensures ret == 0 ==> RequestedDelta(port.regs, base) == delta
    ensures ret == 0 && delta >= 0 ==>
              HalvesAre(port.regs, base, delta / NS_PER_SEC, delta % NS_PER_SEC, false)
    ensures ret == 0 && delta < 0 ==>
              HalvesAre(port.regs, base, (W32 - -delta / NS_PER_SEC) % W32, NS_PER_SEC - -delta % NS_PER_SEC, true)
    ensures port.refused >= old(port.refused)
    ensures -MAX_NANOSEC_IN_DAY <= delta <= MAX_NANOSEC_IN_DAY && port.refused == old(port.refused) ==> ret == 0
    ensures var control := Peek(old(port.regs), base + TIMESTAMP_CONTROL_L);
            Peek(port.regs, base + TIMESTAMP_CONTROL_L) == if ret == 0 then WithBit(control, TSUPDT) else control
  {
    var addSub, magnitude := 0, delta as int;
    if delta < 0 {
      addSub := 1;
      magnitude := if delta == -0x8000_0000_0000_0000 then delta else -delta;
    }
    if magnitude % W64 > MAX_NANOSEC_IN_DAY {
      return -EINVAL;
    }
    assert magnitude == if delta < 0 then -delta else delta;
    var sec, nsec := DivU64Rem(magnitude, NS_PER_SEC);
    assert sec == magnitude / NS_PER_SEC && nsec == magnitude % NS_PER_SEC;
    TickParts(magnitude, NS_PER_SEC);
    ret := UpdateSystime(port, base, addSub, sec, nsec);
  }

  // ---- adjfreq ----

  function ControlAndAddend(base: int): set<int> {
    {base + TIMESTAMP_CONTROL_L, base + TIMESTAMP_ADDEND_L, base + TIMESTAMP_ADDEND_H}
  }

  function AddendRegister(regs: Regs, base: int): u32 {
    Pair(regs, base + TIMESTAMP_ADDEND_L, base + TIMESTAMP_ADDEND_H)
  }

  predicate FineUpdate(regs: Regs, base: int) {
    HasBit(Peek(regs, base + TIMESTAMP_CONTROL_L), TSCFUPDT)
  }

  /** _gpy2xx_ptp_set_addend: without fine update, or with a zero addend, it answers the control
      word (no error) and writes nothing. */
  method SetAddend(port: ClockPort, base: int, addend: u32) returns (ret: int)
    modifies port
    ensures SameBut(port.regs, old(port.regs), ControlAndAddend(base))
    ensures !FineUpdate(old(port.regs), base) || addend == 0 ==> port.regs == old(port.regs)
    ensures port.refused >= old(port.refused) && (ret < 0 ==> port.refused > old(port.refused))
    ensures ret >= 0 && FineUpdate(old(port.regs), base) && addend != 0 ==>
              && AddendRegister(port.regs, base) == addend
              && Peek(port.regs, base + TIMESTAMP_ADDEND_L) == addend % W16
              && Peek(port.regs, base + TIMESTAMP_ADDEND_H) == addend / W16
              && HasBit(Peek(port.regs, base + TIMESTAMP_CONTROL_L), TSADDREG)
  {
    ret := port.Read(base + TIMESTAMP_CONTROL_L);
    if ret < 0 {
      return;
    }
    if !HasBit(ret, TSCFUPDT) || addend == 0 {
      return;
    }
    ret := port.IsRwDone(base + TIMESTAMP_CONTROL_L);
    if ret < 0 {
      return;
    }
    ret := port.WritePair(base + TIMESTAMP_ADDEND_L, base + TIMESTAMP_ADDEND_H, addend);
    if ret < 0 {
      return;
    }
    ret := port.SetBit(base + TIMESTAMP_CONTROL_L, TSADDREG);
    if ret < 0 {
      return;
    }
    ret := port.IsRwDone(base + TIMESTAMP_CONTROL_L);
  }

  /** gpy2xx_ptp_adjfreq.  The first bound is an unsigned 64-bit comparison, so every negative
      adjustment is refused; an accepted one programs the exact addend, cut to 32 bits. */
  method AdjFreq(port: ClockPort, base: int, clock: u32, ppb: s32) returns (ret: int)
    requires clock != 0
    modifies port
    ensures !(0 <= ppb < NS_PER_SEC) ==> ret == -EINVAL && port.regs == old(port.regs)
    ensures SameBut(port.regs, old(port.regs), ControlAndAddend(base))
    ensures ret >= 0 && FineUpdate(old(port.regs), base) && 0 <= ppb && Addend(clock, ppb) % W32 != 0 ==>
              AddendRegister(port.regs, base) == Addend(clock, ppb) % W32
    ensures ret >= 0 && FineUpdate(old(port.regs), base) && 0 < DefAddend(clock) && 0 <= ppb <= 500_000_000 ==>
              AddendRegister(port.regs, base) == Addend(clock, ppb)
    ensures port.refused >= old(port.refused)
    ensures 0 <= ppb < NS_PER_SEC && port.refused == old(port.refused) ==> ret >= 0
  {
    if ppb % W64 >= NS_PER_SEC || ppb <= -NS_PER_SEC {
      return -EINVAL;
    }
    var addend := ComputeAddend(clock, ppb);
    ret := SetAddend(port, base, addend);
  }

  /** The arithmetic of the adjustment. */
  method ComputeAddend(clock: u32, ppb: u32) returns (addend: u32)
    requires clock != 0 && ppb < NS_PER_SEC
    ensures addend == Addend(clock, ppb) % W32
    ensures DefAddend(clock) > 0 && ppb <= 500_000_000 ==> 0 < addend == Addend(clock, ppb)
  {
    var updateFreq: u32 := clock / 2;
    var temp: u64 := 0xFFFF_FFFF * updateFreq;
    DefAddendBound(clock);
    AddendLimit(clock, ppb);
    var defAddend, remainder := DivU64Rem(temp, clock);
    assert defAddend == DefAddend(clock);
    var adj: u64 := defAddend * NS_PER_SEC;
    var diff: u32 := NS_PER_SEC - ppb;
    DivBelow(adj, diff, 1);
    addend, remainder := DivU64Rem(adj, diff);
  }

  // ---- PPS output ----

  /** A PPS configuration: the control word, target time, interval and width in nanoseconds. */
  datatype PpsCtrl = PpsCtrl(raw: u16, sec: u32, nsec: u32, interval: u32, width: u32)

  function PpsAddrs(base: int): set<int> {
    {base + PPS_CONTROL_L, base + PPS0_SECONDS_L, base + PPS0_SECONDS_H, base + PPS0_NANOSECONDS_L,
     base + PPS0_NANOSECONDS_H, base + PPS0_INTERVAL_L, base + PPS0_INTERVAL_H, base + PPS0_WIDTH_L,
     base + PPS0_WIDTH_H}
  }

  function IntervalRegister(regs: Regs, base: int): u32 {
    Pair(regs, base + PPS0_INTERVAL_L, base + PPS0_INTERVAL_H)
  }

  function WidthRegister(regs: Regs, base: int): u32 {
    Pair(regs, base + PPS0_WIDTH_L, base + PPS0_WIDTH_H)
  }

  /** The registers hold control word and target time of `c`. */
  predicate TargetIs(regs: Regs, base: int, c: PpsCtrl) {
    && Peek(regs, base + PPS_CONTROL_L) == c.raw
    && Pair(regs, base + PPS0_SECONDS_L, base + PPS0_SECONDS_H) == c.sec
    && Pair(regs, base + PPS0_NANOSECONDS_L, base + PPS0_NANOSECONDS_H) == c.nsec
  }

  const SYNCE_GPC0 := 1
  const SYNCE_GPC1 := 2
  const SYNCE_GPC2 := 3

  /** The clock outputs a PPS signal may be routed to; the P34X family has one more. */
  predicate GpcValid(p34x: bool, gpcSel: int) {
    (if p34x then SYNCE_GPC0 else SYNCE_GPC1) <= gpcSel <= SYNCE_GPC2
  }

  predicate TimesValid(c: PpsCtrl) {
    c.nsec <= MAX_NSEC_IN_SEC && c.interval <= MAX_NSEC_IN_SEC && c.width <= MAX_NSEC_IN_SEC
  }

  /** What set_ppsctrl does on its way to the pin multiplexer.  An interval or width shorter than
      one clock unit ends the call with the last success code, so the caller is told nothing. */
  method SetPps(port: ClockPort, base: int, clock: u32, c: PpsCtrl, p34x: bool, gpcSel: int) returns (ret: int)
    modifies port
    ensures ret <= 0
    ensures !GpcValid(p34x, gpcSel) ==> ret == -EINVAL && port.regs == old(port.regs)
    ensures !TimesValid(c) ==> ret == -EINVAL && port.regs == old(port.regs)
    ensures SameBut(port.regs, old(port.regs), PpsAddrs(base))
    ensures ret == 0 ==> TargetIs(port.regs, base, c)
    ensures ret == 0 && Units(c.interval, clock) == 0 ==>
              IntervalRegister(port.regs, base) == IntervalRegister(old(port.regs), base)
    ensures ret == 0 && Units(c.interval, clock) > 0 ==>
              IntervalRegister(port.regs, base) == Units(c.interval, clock) - 1
    ensures ret == 0 && (Units(c.interval, clock) == 0 || Units(c.width, clock) == 0) ==>
              WidthRegister(port.regs, base) == WidthRegister(old(port.regs), base)
    ensures ret == 0 && Units(c.interval, clock) > 0 && Units(c.width, clock) > 0 ==>
              WidthRegister(port.regs, base) == Units(c.width, clock) - 1
    ensures port.refused >= old(port.refused)
    ensures GpcValid(p34x, gpcSel) && TimesValid(c) && port.refused == old(port.refused) ==> ret == 0
  {
    if !(0 <= gpcSel <= SYNCE_GPC2) {
      return -EINVAL;
    }
    if c.nsec > MAX_NSEC_IN_SEC || c.interval > MAX_NSEC_IN_SEC || c.width > MAX_NSEC_IN_SEC {
      return -EINVAL;
    }
    if !((if p34x then SYNCE_GPC0 else SYNCE_GPC1) <= gpcSel <= SYNCE_GPC2) {
      return -EINVAL;
    }
    ret := SetTarget(port, base, c);
    if ret < 0 {
      return;
    }
    ret := SetIntervalAndWidth(port, base, clock, c);
  }

  /** Interval, then width. */
  method SetIntervalAndWidth(port: ClockPort, base: int, clock: u32, c: PpsCtrl) returns (ret: int)
    requires TimesValid(c)
    modifies port
    ensures ret <= 0
    ensures SameBut(port.regs, old(port.regs), {base + PPS0_INTERVAL_L, base + PPS0_INTERVAL_H, base + PPS0_WIDTH_L,
                                                base + PPS0_WIDTH_H})
    ensures ret == 0 && Units(c.interval, clock) == 0 ==>
              IntervalRegister(port.regs, base) == IntervalRegister(old(port.regs), base)
    ensures ret == 0 && Units(c.interval, clock) > 0 ==>
              IntervalRegister(port.regs, base) == Units(c.interval, clock) - 1
    ensures ret == 0 && (Units(c.interval, clock) == 0 || Units(c.width, clock) == 0) ==>
              WidthRegister(port.regs, base) == WidthRegister(old(port.regs), base)
    ensures ret == 0 && Units(c.interval, clock) > 0 && Units(c.width, clock) > 0 ==>
              WidthRegister(port.regs, base) == Units(c.width, clock) - 1
    ensures port.refused >= old(port.refused) && (ret < 0 ==> port.refused > old(port.refused))
  {
    var none: bool;
    ret, none := SetUnits(port, base + PPS0_INTERVAL_L, base + PPS0_INTERVAL_H, c.interval, clock);
    if none || ret < 0 {
      return;
    }
    ret, none := SetUnits(port, base + PPS0_WIDTH_L, base + PPS0_WIDTH_H, c.width, clock);
  }

  /** One unit register pair; `none` for an interval shorter than one unit, which is not programmed. */
  method SetUnits(port: ClockPort, low: int, high: int, ns: u32, clock: u32) returns (ret: int, none: bool)
    requires low != high && ns <= MAX_NSEC_IN_SEC
    modifies port
    ensures ret <= 0 && (none <==> Units(ns, clock) == 0)
    ensures none ==> ret == 0 && port.regs == old(port.regs)
    ensures SameBut(port.regs, old(port.regs), {low, high})
    ensures ret == 0 && !none ==> Pair(port.regs, low, high) == Units(ns, clock) - 1
    ensures port.refused >= old(port.refused) && (ret < 0 ==> port.refused > old(port.refused))
  {
    UnitsRange(ns, clock);
    var multiplied: u64 := ns * clock;
    var divided := multiplied / NS_PER_SEC;
    none := divided == 0;
    ret := 0;
    if !none {
      ret := port.WritePair(low, high, divided - 1);
    }
  }

  method SetTarget(port: ClockPort, base: int, c: PpsCtrl) returns (ret: int)
    modifies port
    ensures ret <= 0
    ensures SameBut(port.regs, old(port.regs), PpsAddrs(base))
    ensures IntervalRegister(port.regs, base) == IntervalRegister(old(port.regs), base)
    ensures WidthRegister(port.regs, base) == WidthRegister(old(port.regs), base)
    ensures ret == 0 ==> TargetIs(port.regs, base, c)
    ensures port.refused >= old(port.refused) && (ret < 0 ==> port.refused > old(port.refused))
  {
    ret := port.Write(base + PPS_CONTROL_L, c.raw);
    if ret < 0 {
      return;
    }
    ret := port.IsRwDone(base + PPS0_NANOSECONDS_H);
    if ret < 0 {
      return;
    }
    ret := port.WritePair(base + PPS0_SECONDS_L, base + PPS0_SECONDS_H, c.sec);
    if ret < 0 {
      return;
    }
    ret := port.WritePair(base + PPS0_NANOSECONDS_L, base + PPS0_NANOSECONDS_H, c.nsec);
  }

  /** The nanoseconds get_ppsctrl reports for a unit register: one is added in 32 bits, the product
      is taken in 64 bits, and the quotient is cut to 32. */
  function ReadNanoseconds(register: u32, clock: u32): u32
    requires clock != 0
  {
    (register + 1) % W32 * NS_PER_SEC % W64 / clock % W32
  }

  /** get_ppsctrl. */
  method GetPps(port: ClockPort, base: int, clock: u32) returns (ret: int, c: PpsCtrl)
    requires clock != 0
    modifies port`refused
    ensures port.refused >= old(port.refused) && (ret < 0 ==> port.refused > old(port.refused))
    ensures ret >= 0 ==> TargetIs(port.regs, base, c)
    ensures ret >= 0 ==> c.interval == ReadNanoseconds(IntervalRegister(port.regs, base), clock)
    ensures ret >= 0 ==> c.width == ReadNanoseconds(WidthRegister(port.regs, base), clock)
  {
    c := PpsCtrl(0, 0, 0, 0, 0);
    ret := port.Read(base + PPS_CONTROL_L);
    if ret < 0 {
      return;
    }
    c := c.(raw := ret);
    var pair: u32;
    ret, pair := port.ReadPair(base + PPS0_SECONDS_L, base + PPS0_SECONDS_H);
    if ret < 0 {
      return;
    }
    c := c.(sec := pair);
    ret, pair := port.ReadPair(base + PPS0_NANOSECONDS_L, base + PPS0_NANOSECONDS_H);
    if ret < 0 {
      return;
    }
    c := c.(nsec := pair);
    ret, pair := port.ReadPair(base + PPS0_INTERVAL_L, base + PPS0_INTERVAL_H);
    if ret < 0 {
      return;
    }
    c := c.(interval := (pair + 1) % W32 * NS_PER_SEC % W64 / clock % W32);
    ret, pair := port.ReadPair(base + PPS0_WIDTH_L, base + PPS0_WIDTH_H);
    if ret < 0 {
      return;
    }
    c := c.(width := (pair + 1) % W32 * NS_PER_SEC % W64 / clock % W32);
  }

  /** An interval (or width) of at least one unit survives set then get: nothing wraps, the value
      read back is not larger, and it is short by less than one clock unit plus one nanosecond. */
  lemma PpsSurvives(ns: u32, clock: u32)
    requires ns <= MAX_NSEC_IN_SEC && clock != 0 && Units(ns, clock) > 0
    ensures Units(ns, clock) - 1 < W32 - 1
    ensures var back := ReadNanoseconds(Units(ns, clock) - 1, clock);
            && back == Nanoseconds(Units(ns, clock), clock)
            && back <= ns && (ns - back) * clock < NS_PER_SEC + clock
  {
    UnitsRange(ns, clock);
    QuantisationLoss(ns, clock);
    var units := Units(ns, clock);
    SmallMod(units, W32);
    SmallMod(units * NS_PER_SEC, W64);
    SmallMod(Nanoseconds(units, clock), W32);
  }

  lemma SmallMod(x: nat, m: nat)
    requires x < m
    ensures x % m == x
  {}

  // ---- One-step correction time ----

  const TX_OST_CFG_0 := 0xB8
  const TX_OST_CFG_1 := 0xBC
  const TX_OST_CFG_2 := 0xC0
  const TX_OST_CFG_3 := 0xC4

  /** The signed 64-bit value spread over the four correction registers. */
  function OscTime(regs: Regs, base: int): s64 {
    Signed64(Peek(regs, base + TX_OST_CFG_0), Peek(regs, base + TX_OST_CFG_1),
             Peek(regs, base + TX_OST_CFG_2), Peek(regs, base + TX_OST_CFG_3))
  }

  function Signed64(a: u16, b: u16, c: u16, d: u16): s64 {
    (if d >= 0x8000 then d - W16 else d) * 0x1_0000_0000_0000 + c * W32 + b * W16 + a
  }

  /** Splitting a signed value into quarters by arithmetic shifts loses nothing. */
  lemma QuartersOf(time: s64)
    ensures Signed64(time % W16, time / W16 % W16, time / W32 % W16, time / 0x1_0000_0000_0000 % W16) == time
  {
    var t1, t2, t3 := time / W16, time / W32, time / 0x1_0000_0000_0000;
    assert t2 == t1 / W16 && t3 == t2 / W16;
    assert time == t1 * W16 + time % W16;
    assert t1 == t2 * W16 + t1 % W16;
    assert t2 == t3 * W16 + t2 % W16;
    assert -0x8000 <= t3 < 0x8000;
    assert t3 % W16 == if t3 < 0 then t3 + W16 else t3;
  }

  /** _gpy2xx_ptp_set_osctime: every signed 64-bit time is representable. */
  method SetOscTime(port: ClockPort, base: int, time: s64) returns (ret: int)
    modifies port
    ensures ret <= 0
    ensures ret == 0 ==> OscTime(port.regs, base) == time
    ensures ret == 0 ==>
              && Peek(port.regs, base + TX_OST_CFG_0) == time % W16
              && Peek(port.regs, base + TX_OST_CFG_1) == time / W16 % W16
              && Peek(port.regs, base + TX_OST_CFG_2) == time / W32 % W16
              && Peek(port.regs, base + TX_OST_CFG_3) == time / 0x1_0000_0000_0000 % W16
    ensures port.refused >= old(port.refused) && (ret < 0 ==> port.refused > old(port.refused))
  {
    QuartersOf(time);
    ret := port.Write(base + TX_OST_CFG_0, time % W16);
    if ret < 0 {
      return;
    }
    ret := port.Write(base + TX_OST_CFG_1, time / W16 % W16);
    if ret < 0 {
      return;
    }
    ret := port.Write(base + TX_OST_CFG_2, time / W32 % W16);
    if ret < 0 {
      return;
    }
    ret := port.Write(base + TX_OST_CFG_3, time / 0x1_0000_0000_0000 % W16);
  }

  /** _gpy2xx_ptp_get_osctime. */
  method GetOscTime(port: ClockPort, base: int) returns (ret: int, time: s64)
    modifies port`refused
    ensures ret >= 0 ==> time == OscTime(port.regs, base)
    ensures port.refused >= old(port.refused) && (ret < 0 ==> port.refused > old(port.refused))
  {
    time := 0;
    ret := port.Read(base + TX_OST_CFG_0);
    if ret < 0 {
      return;
    }
    time := ret;
    ret := port.Read(base + TX_OST_CFG_1);
    if ret < 0 {
      return;
    }
    time := time + ret * W16;
    ret := port.Read(base + TX_OST_CFG_2);
    if ret < 0 {
      return;
    }
    time := time + ret * W32;
    ret := port.Read(base + TX_OST_CFG_3);
    if ret < 0 {
      return;
    }
    time := time + (if ret >= 0x8000 then ret - W16 else ret) * 0x1_0000_0000_0000;
  }

  // ---- Sub-second increment ----

  /** _gpy2xx_ptp_set_ssecinc: eight bits of whole nanoseconds, eight bits of 256ths.  The accuracy of
      the two is the subject of `ClockMath.IncrementAccuracy`. */
  method SetSubSecondIncrement(port: ClockPort, base: int, clock: u32) returns (ret: int)
    modifies port
    ensures clock == 0 ==> ret == -1 && port.regs == old(port.regs)
    ensures SameBut(port.regs, old(port.regs), {base + SUB_SECOND_INCREMENT_H, base + SUB_SECOND_INCREMENT_L})
    ensures ret == 0 ==>
              && clock != 0
              && Peek(port.regs, base + SUB_SECOND_INCREMENT_H) == SubSec(clock)
              && Peek(port.regs, base + SUB_SECOND_INCREMENT_L) == SubNsec(clock) * 256
    ensures clock != 0 && port.refused == old(port.refused) ==> ret == 0
  {
    if clock == 0 {
      return -1;
    }
    var subSec := NS_PER_SEC / clock % 256;
    var rem := NS_PER_SEC % clock;
    rem := rem * 1000;
    rem := rem / clock + 1;
    ret := port.Write(base + SUB_SECOND_INCREMENT_H, subSec);
    if ret < 0 {
      return;
    }
    var subNsec := rem * 256 / 1000 % 256;
    ret := port.Write(base + SUB_SECOND_INCREMENT_L, subNsec * 256);
  }
}
