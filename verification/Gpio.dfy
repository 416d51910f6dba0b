/** GPIO pins kept bit-sliced over eleven registers a port: one register holds one setting of
    sixteen pins.  The writer (gpio_cfg, gpio_output) and the reader (gpio_get) are separate code;
    the lemmas here show that together they behave like a table from pin to settings. */
module Gpio {
  import opened MachineInts
  import opened Options
  import opened Registers

  const GPIO_PINS_MAX := 18

  // Bit positions of the flags word.
  const DIR_IN := 0
  const OUTPUT_HIGH := 1
  const INPUT_HIGH := 2
  const OPEN_DRAIN := 3
  const PULL_LOW_BIT := 8
  const PULL_HIGH_BIT := 9
  const FUNC1 := 10
  const FUNC2 := 11
  const PAD_STR1 := 12
  const PAD_STR2 := 13
  const FAST_SLEW := 15

  const PULL_UP: Word := {PULL_HIGH_BIT}
  const PULL_DOWN: Word := {PULL_LOW_BIT, PULL_HIGH_BIT}

  datatype Slice = Out | In | Dir | AltSel0 | AltSel1 | Od | PudSel | PudEn | Drive0 | Drive1 | Slew

  /** Address of the register holding slice `s` of `port` (0 or 1). */
  function SliceAddr(port: nat, s: Slice): int {
    match s
    case Out => if port == 0 then 0x00D3CE00 else 0x00D3CE20
    case In => if port == 0 then 0x00D3CE04 else 0x00D3CE24
    case Dir => if port == 0 then 0x00D3CE08 else 0x00D3CE28
    case AltSel0 => if port == 0 then 0x00D3CE0C else 0x00D3CE2C
    case AltSel1 => if port == 0 then 0x00D3CE10 else 0x00D3CE30
    case Od => if port == 0 then 0x00D3CE14 else 0x00D3CE34
    case PudSel => if port == 0 then 0x00D3CE18 else 0x00D3CE38
    case PudEn => if port == 0 then 0x00D3CE1C else 0x00D3CE3C
    case Drive0 => if port == 0 then 0x00D3CE40 else 0x00D3CE50
    case Drive1 => if port == 0 then 0x00D3CE44 else 0x00D3CE54
    case Slew => if port == 0 then 0x00D3CE48 else 0x00D3CE58
  }

  function Port(pin: nat): nat { pin / 16 }

  function Lane(pin: nat): nat { pin % 16 }

  /** The stored bit of setting `s` of `pin`. */
  predicate PinBit(regs: map<int, Word>, pin: nat, s: Slice) {
    Lane(pin) in Peek(regs, SliceAddr(Port(pin), s))
  }

  datatype BitWrite = BitWrite(slice: Slice, on: bool)

  function WriteBit(regs: map<int, Word>, pin: nat, w: BitWrite): map<int, Word> {
    var a := SliceAddr(Port(pin), w.slice);
    regs[a := if w.on then Peek(regs, a) + {Lane(pin)} else Peek(regs, a) - {Lane(pin)}]
  }

  function WriteBits(regs: map<int, Word>, pin: nat, ws: seq<BitWrite>): map<int, Word> {
    if ws == [] then regs
    else WriteBit(WriteBits(regs, pin, ws[..|ws| - 1]), pin, ws[|ws| - 1])
  }

  /** One read-modify-write changes one setting of one pin: the slices do not leak into
      each other, nor do the ports. */
  lemma WriteBitDecides(regs: map<int, Word>, pin: nat, w: BitWrite, q: nat, s: Slice)
    requires pin <= GPIO_PINS_MAX && q <= GPIO_PINS_MAX
    ensures PinBit(WriteBit(regs, pin, w), q, s)
         == if q == pin && s == w.slice then w.on else PinBit(regs, q, s)
  {}

  predicate DistinctSlices(ws: seq<BitWrite>) {
    ws == [] ||
    (DistinctSlices(ws[..|ws| - 1]) && forall w :: w in ws[..|ws| - 1] ==> w.slice != ws[|ws| - 1].slice)
  }

  predicate Touches(ws: seq<BitWrite>, s: Slice) {
    exists w :: w in ws && w.slice == s
  }

  lemma {:induction false} WriteBitsDecide(regs: map<int, Word>, pin: nat, ws: seq<BitWrite>, q: nat, s: Slice)
    requires pin <= GPIO_PINS_MAX && q <= GPIO_PINS_MAX
    requires q == pin ==> DistinctSlices(ws)
    ensures q != pin || !Touches(ws, s) ==> PinBit(WriteBits(regs, pin, ws), q, s) == PinBit(regs, q, s)
    ensures forall w :: w in ws && w.slice == s && q == pin ==> PinBit(WriteBits(regs, pin, ws), q, s) == w.on
  {
    if ws != [] {
      var front, last := ws[..|ws| - 1], ws[|ws| - 1];
      assert ws == front + [last];
      WriteBitsDecide(regs, pin, front, q, s);
      WriteBitDecides(WriteBits(regs, pin, front), pin, last, q, s);
      assert forall w :: w in ws <==> w in front || w == last;
    }
  }

  /** What a caller configures: the settings of one pin. */
  datatype Pin = Pin(output: bool, high: bool, openDrain: bool, pullEnabled: bool, pullUp: bool,
                     fastSlew: bool, func0: bool, func1: bool, strength0: bool, strength1: bool)

  function PinAt(regs: map<int, Word>, pin: nat): Pin {
    Pin(PinBit(regs, pin, Dir), PinBit(regs, pin, Out), !PinBit(regs, pin, Od), PinBit(regs, pin, PudEn),
        PinBit(regs, pin, PudSel), PinBit(regs, pin, Slew), PinBit(regs, pin, AltSel0), PinBit(regs, pin, AltSel1),
        PinBit(regs, pin, Drive0), PinBit(regs, pin, Drive1))
  }

  /** The two pull bits may name no pull, pull-up or pull-down; the fourth value is refused. */
  predicate PullValid(flags: Word) { flags * PULL_DOWN != {PULL_LOW_BIT} }

  /** The meaning of a gpio_cfg call.  An input pin keeps its stored output level, and a pin
      without pull keeps its stored pull selection. */
  function Configured(p: Pin, flags: Word): Pin {
    Pin(DIR_IN !in flags,
        if DIR_IN in flags then p.high else OUTPUT_HIGH in flags,
        OPEN_DRAIN in flags,
        PULL_HIGH_BIT in flags,
        if PULL_HIGH_BIT in flags then PULL_LOW_BIT !in flags else p.pullUp,
        FAST_SLEW in flags,
        FUNC1 in flags, FUNC2 in flags, PAD_STR1 in flags, PAD_STR2 in flags)
  }

  function DirWrites(flags: Word): seq<BitWrite> {
    if DIR_IN in flags then [BitWrite(Dir, false)]
    else [BitWrite(Out, OUTPUT_HIGH in flags), BitWrite(Dir, true)]
  }

  function PullWrites(flags: Word): seq<BitWrite> {
    if flags * PULL_DOWN == {} then [BitWrite(PudEn, false)]
    else if PullValid(flags) then [BitWrite(PudEn, true), BitWrite(PudSel, flags * PULL_DOWN == PULL_UP)]
    else []
  }

  function PadWrites(flags: Word): seq<BitWrite> {
    [BitWrite(Slew, FAST_SLEW in flags), BitWrite(AltSel0, FUNC1 in flags), BitWrite(AltSel1, FUNC2 in flags),
     BitWrite(Drive0, PAD_STR1 in flags), BitWrite(Drive1, PAD_STR2 in flags)]
  }

  /** The one-bit writes gpio_cfg performs, in order; a refused pull ends the list early. */
  function ConfigWrites(flags: Word): seq<BitWrite> {
    DirWrites(flags) + [BitWrite(Od, OPEN_DRAIN !in flags)] + PullWrites(flags)
    + if PullValid(flags) then PadWrites(flags) else []
  }

  lemma PullCases(flags: Word)
    ensures flags * PULL_DOWN == {} <==> PULL_HIGH_BIT !in flags && PULL_LOW_BIT !in flags
    ensures flags * PULL_DOWN == PULL_UP <==> PULL_HIGH_BIT in flags && PULL_LOW_BIT !in flags
    ensures PullValid(flags) <==> (PULL_LOW_BIT in flags ==> PULL_HIGH_BIT in flags)
  {
    var pull := flags * PULL_DOWN;
    assert forall f :: f in pull <==> f in flags && (f == PULL_LOW_BIT || f == PULL_HIGH_BIT);
    if PULL_HIGH_BIT !in flags && PULL_LOW_BIT !in flags {
      assert pull == {};
    } else if PULL_LOW_BIT !in flags {
      assert pull == PULL_UP;
    } else if PULL_HIGH_BIT !in flags {
      assert pull == {PULL_LOW_BIT};
    }
  }

  predicate Within(ws: seq<BitWrite>, slices: set<Slice>) {
    forall w :: w in ws ==> w.slice in slices
  }

  lemma {:induction false} DistinctConcat(a: seq<BitWrite>, sa: set<Slice>, b: seq<BitWrite>, sb: set<Slice>)
    requires DistinctSlices(a) && DistinctSlices(b)
    requires Within(a, sa) && Within(b, sb) && sa !! sb
    ensures DistinctSlices(a + b) && Within(a + b, sa + sb)
  {
    if b == [] {
      assert a + b == a;
    } else {
      var front, last := b[..|b| - 1], b[|b| - 1];
      assert last in b && Within(front, sb);
      DistinctConcat(a, sa, front, sb);
      assert (a + b)[..|a + b| - 1] == a + front;
      forall w | w in a + front
        ensures w.slice != last.slice
      {
        assert w in a || w in front;
      }
    }
  }

  lemma FourDistinct(dir: seq<BitWrite>, od: seq<BitWrite>, pull: seq<BitWrite>, pads: seq<BitWrite>)
    requires DistinctSlices(dir) && DistinctSlices(od) && DistinctSlices(pull) && DistinctSlices(pads)
    requires Within(dir, {Out, Dir}) && Within(od, {Od}) && Within(pull, {PudEn, PudSel})
    requires Within(pads, {Slew, AltSel0, AltSel1, Drive0, Drive1})
    ensures DistinctSlices(dir + od + pull + pads)
  {
    var d: set<Slice>, o: set<Slice>, p: set<Slice> := {Out, Dir}, {Od}, {PudEn, PudSel};
    DistinctConcat(dir, d, od, o);
    DistinctConcat(dir + od, d + o, pull, p);
    DistinctConcat(dir + od + pull, d + o + p, pads, {Slew, AltSel0, AltSel1, Drive0, Drive1});
  }

  lemma DirPullDistinct(flags: Word)
    ensures DistinctSlices(DirWrites(flags)) && DistinctSlices(PullWrites(flags))
    ensures DistinctSlices([BitWrite(Od, OPEN_DRAIN !in flags)])
  {
    forall a: BitWrite, b: BitWrite | a.slice != b.slice
      ensures DistinctSlices([a]) && DistinctSlices([a, b])
    {
      assert [a, b][..1] == [a] && [a][..0] == [];
    }
  }

  lemma PadsDistinct(flags: Word)
    ensures DistinctSlices(PadWrites(flags))
  {
    var ws := PadWrites(flags);
    assert ws[..4][..3] == ws[..3] && ws[..3][..2] == ws[..2] && ws[..2][..1] == ws[..1] && ws[..1][..0] == [];
    assert DistinctSlices(ws[..1]);
    assert DistinctSlices(ws[..2]);
    assert DistinctSlices(ws[..3]);
    assert DistinctSlices(ws[..4]);
  }

  lemma ConfigWritesDistinct(flags: Word)
    ensures DistinctSlices(ConfigWrites(flags))
  {
    DirPullDistinct(flags);
    PadsDistinct(flags);
    FourDistinct(DirWrites(flags), [BitWrite(Od, OPEN_DRAIN !in flags)], PullWrites(flags),
                 if PullValid(flags) then PadWrites(flags) else []);
  }

  /** What a gpio_cfg call asks of each register bit of its pin; None leaves the bit alone. */
  function Requested(flags: Word, s: Slice): Option<bool> {
    match s
    case In => None
    case Dir => Some(DIR_IN !in flags)
    case Out => if DIR_IN in flags then None else Some(OUTPUT_HIGH in flags)
    case Od => Some(OPEN_DRAIN !in flags)
    case PudEn => Some(PULL_HIGH_BIT in flags)
    case PudSel => if PULL_HIGH_BIT in flags then Some(PULL_LOW_BIT !in flags) else None
    case Slew => Some(FAST_SLEW in flags)
    case AltSel0 => Some(FUNC1 in flags)
    case AltSel1 => Some(FUNC2 in flags)
    case Drive0 => Some(PAD_STR1 in flags)
    case Drive1 => Some(PAD_STR2 in flags)
  }

  function RequestedBit(flags: Word, s: Slice, was: bool): bool {
    match Requested(flags, s)
    case Some(on) => on
    case None => was
  }

  lemma DirRequests(flags: Word, w: BitWrite)
    ensures w in DirWrites(flags) <==> w.slice in {Dir, Out} && Requested(flags, w.slice) == Some(w.on)
  {}

  lemma PullRequests(flags: Word, w: BitWrite)
    requires PullValid(flags)
    ensures w in PullWrites(flags) <==> w.slice in {PudEn, PudSel} && Requested(flags, w.slice) == Some(w.on)
  {
    PullCases(flags);
  }

  lemma PadRequests(flags: Word, w: BitWrite)
    ensures w in PadWrites(flags)
       <==> w.slice in {Slew, AltSel0, AltSel1, Drive0, Drive1} && Requested(flags, w.slice) == Some(w.on)
  {}

  lemma ConfigRequests(flags: Word, w: BitWrite)
    requires PullValid(flags)
    ensures w in ConfigWrites(flags) <==> Requested(flags, w.slice) == Some(w.on)
  {
    DirRequests(flags, w);
    PullRequests(flags, w);
    PadRequests(flags, w);
    assert w in ConfigWrites(flags) <==>
             || w in DirWrites(flags) || w == BitWrite(Od, OPEN_DRAIN !in flags)
             || w in PullWrites(flags) || w in PadWrites(flags);
  }

  /** Each register bit of the pin ends up as requested. */
  lemma ConfigureBit(regs: map<int, Word>, pin: nat, flags: Word, s: Slice)
    requires pin <= GPIO_PINS_MAX
    requires PullValid(flags)
    ensures PinBit(WriteBits(regs, pin, ConfigWrites(flags)), pin, s)
         == RequestedBit(flags, s, PinBit(regs, pin, s))
  {
    ConfigWritesDistinct(flags);
    ConfigRequests(flags, BitWrite(s, true));
    ConfigRequests(flags, BitWrite(s, false));
    var ws := ConfigWrites(flags);
    assert Touches(ws, s) ==> BitWrite(s, true) in ws || BitWrite(s, false) in ws by {
      if Touches(ws, s) {
        var w :| w in ws && w.slice == s;
        assert w == BitWrite(s, w.on);
      }
    }
    WriteBitsDecide(regs, pin, ws, pin, s);
  }

  /** However far a sequence of writes to one pin gets, no other pin sees it. */
  lemma OtherPinsKept(regs: map<int, Word>, pin: nat, ws: seq<BitWrite>, q: nat)
    requires pin <= GPIO_PINS_MAX && q <= GPIO_PINS_MAX && q != pin
    ensures PinAt(WriteBits(regs, pin, ws), q) == PinAt(regs, q)
  {
    forall s: Slice
      ensures PinBit(WriteBits(regs, pin, ws), q, s) == PinBit(regs, q, s)
    {
      WriteBitsDecide(regs, pin, ws, q, s);
    }
  }

  lemma PinFromBits(regs: map<int, Word>, regs': map<int, Word>, pin: nat, flags: Word)
    requires forall s :: PinBit(regs', pin, s) == RequestedBit(flags, s, PinBit(regs, pin, s))
    ensures PinAt(regs', pin) == Configured(PinAt(regs, pin), flags)
  {}

  /** Configuring a pin gives that pin the requested settings and no other pin any change. */
  lemma ConfigureRefines(regs: map<int, Word>, pin: nat, flags: Word, q: nat)
    requires pin <= GPIO_PINS_MAX && q <= GPIO_PINS_MAX
    requires PullValid(flags)
    ensures PinAt(WriteBits(regs, pin, ConfigWrites(flags)), q)
         == if q == pin then Configured(PinAt(regs, pin), flags) else PinAt(regs, q)
  {
    if q == pin {
      forall s: Slice { ConfigureBit(regs, pin, flags, s); }
      PinFromBits(regs, WriteBits(regs, pin, ConfigWrites(flags)), pin, flags);
    } else {
      OtherPinsKept(regs, pin, ConfigWrites(flags), q);
    }
  }

  /** What the registers hold for the pin after a configuration, address by address: direction, level, open
      drain and pull.  The two ports are 0x20 apart. */
  lemma ConfiguredLine(regs: map<int, Word>, pin: nat, flags: Word)
    requires pin <= GPIO_PINS_MAX && PullValid(flags)
    ensures var r, lane, port := WriteBits(regs, pin, ConfigWrites(flags)), pin % 16, 0x00D3CE00 + pin / 16 * 0x20;
            && (lane in Peek(r, port + 0x08) <==> DIR_IN !in flags)
            && (DIR_IN !in flags ==> (lane in Peek(r, port) <==> OUTPUT_HIGH in flags))
            && (lane in Peek(r, port + 0x14) <==> OPEN_DRAIN !in flags)
            && (lane in Peek(r, port + 0x1C) <==> PULL_HIGH_BIT in flags)
            && (PULL_HIGH_BIT in flags ==> (lane in Peek(r, port + 0x18) <==> PULL_LOW_BIT !in flags))
  {
    ConfigureBit(regs, pin, flags, Dir);
    ConfigureBit(regs, pin, flags, Out);
    ConfigureBit(regs, pin, flags, Od);
    ConfigureBit(regs, pin, flags, PudEn);
    ConfigureBit(regs, pin, flags, PudSel);
  }

  /** The same for function, pad strength and slew rate. */
  lemma ConfiguredPads(regs: map<int, Word>, pin: nat, flags: Word)
    requires pin <= GPIO_PINS_MAX && PullValid(flags)
    ensures var r, lane, port := WriteBits(regs, pin, ConfigWrites(flags)), pin % 16, 0x00D3CE00 + pin / 16 * 0x20;
            && (lane in Peek(r, port + 0x0C) <==> FUNC1 in flags)
            && (lane in Peek(r, port + 0x10) <==> FUNC2 in flags)
    ensures var r, lane, pads := WriteBits(regs, pin, ConfigWrites(flags)), pin % 16, 0x00D3CE40 + pin / 16 * 0x10;
            && (lane in Peek(r, pads) <==> PAD_STR1 in flags)
            && (lane in Peek(r, pads + 0x04) <==> PAD_STR2 in flags)
            && (lane in Peek(r, pads + 0x08) <==> FAST_SLEW in flags)
  {
    ConfigureBit(regs, pin, flags, AltSel0);
    ConfigureBit(regs, pin, flags, AltSel1);
    ConfigureBit(regs, pin, flags, Drive0);
    ConfigureBit(regs, pin, flags, Drive1);
    ConfigureBit(regs, pin, flags, Slew);
  }

  // ---- Reading back ----

  /** The flags a configured pin reads back, whatever its direction. */
  predicate ConfigFlag(f: nat) {
    f == DIR_IN || f == OPEN_DRAIN || PULL_LOW_BIT <= f <= PAD_STR2 || f == FAST_SLEW
  }

  ghost predicate SameConfig(a: Word, b: Word) {
    forall f: nat :: ConfigFlag(f) ==> (f in a <==> f in b)
  }

  /** Whether gpio_get reports flag `f` for a pin with settings `p` whose input register bit is `input`. */
  predicate Reports(p: Pin, input: bool, f: nat) {
    if f == DIR_IN then !p.output
    else if f == OUTPUT_HIGH then p.output && p.high
    else if f == INPUT_HIGH then !p.output && input
    else if f == OPEN_DRAIN then p.openDrain
    else if f == PULL_LOW_BIT then p.pullEnabled && !p.pullUp
    else if f == PULL_HIGH_BIT then p.pullEnabled
    else if f == FUNC1 then p.func0
    else if f == FUNC2 then p.func1
    else if f == PAD_STR1 then p.strength0
    else if f == PAD_STR2 then p.strength1
    else f == FAST_SLEW && p.fastSlew
  }

  function ReadFlags(p: Pin, input: bool): Word {
    set f | 0 <= f <= FAST_SLEW && Reports(p, input, f)
  }

  function FlagsAt(regs: map<int, Word>, pin: nat): Word {
    ReadFlags(PinAt(regs, pin), PinBit(regs, pin, In))
  }

  lemma ReportsConfigured(p: Pin, flags: Word, input: bool, f: nat)
    requires PullValid(flags) && ConfigFlag(f)
    ensures Reports(Configured(p, flags), input, f) == (f in flags)
  {
    PullCases(flags);
  }

  /** gpio_get inverts gpio_cfg: the decoder returns the very flags the encoder was given. */
  lemma ReadBack(p: Pin, flags: Word, input: bool)
    requires PullValid(flags)
    ensures SameConfig(ReadFlags(Configured(p, flags), input), flags)
    ensures OUTPUT_HIGH in ReadFlags(Configured(p, flags), input) <==> DIR_IN !in flags && OUTPUT_HIGH in flags
  {
    forall f: nat | ConfigFlag(f) || f == OUTPUT_HIGH
      ensures f in ReadFlags(Configured(p, flags), input) <==> Reports(Configured(p, flags), input, f)
    {}
    forall f: nat | ConfigFlag(f)
      ensures Reports(Configured(p, flags), input, f) == (f in flags)
    {
      ReportsConfigured(p, flags, input, f);
    }
  }

  // ---- Whole runs ----

  datatype Op = Cfg(pin: nat, flags: Word) | Output(pin: nat, flags: Word)

  /** The calls that do not answer -EINVAL. */
  predicate Accepted(op: Op) {
    op.pin <= GPIO_PINS_MAX && (op.Cfg? ==> PullValid(op.flags))
  }

  function OpWrites(op: Op): seq<BitWrite> {
    match op
    case Cfg(_, flags) => ConfigWrites(flags)
    case Output(_, flags) => [BitWrite(Out, OUTPUT_HIGH in flags)]
  }

  function RunRegs(regs: map<int, Word>, ops: seq<Op>): map<int, Word> {
    if ops == [] then regs
    else
      var op := ops[|ops| - 1];
      WriteBits(RunRegs(regs, ops[..|ops| - 1]), op.pin, OpWrites(op))
  }

  /** The table a caller has in mind: the settings of pin `q` after `ops`. */
  function RunPin(p: Pin, q: nat, ops: seq<Op>): Pin {
    if ops == [] then p
    else
      var op, before := ops[|ops| - 1], RunPin(p, q, ops[..|ops| - 1]);
      if op.pin != q then before
      else if op.Cfg? then Configured(before, op.flags)
      else before.(high := OUTPUT_HIGH in op.flags)
  }

  lemma OutputRefines(regs: map<int, Word>, pin: nat, on: bool, q: nat)
    requires pin <= GPIO_PINS_MAX && q <= GPIO_PINS_MAX
    ensures PinAt(WriteBits(regs, pin, [BitWrite(Out, on)]), q)
         == if q == pin then PinAt(regs, pin).(high := on) else PinAt(regs, q)
  {
    var w := BitWrite(Out, on);
    assert [w][..0] == [];
    forall s: Slice
      ensures PinBit(WriteBits(regs, pin, [w]), q, s) == if q == pin && s == Out then on else PinBit(regs, q, s)
    {
      WriteBitDecides(regs, pin, w, q, s);
    }
  }

  /** The bit-sliced registers refine the table from pin to settings, over every run. */
  lemma {:induction false} RunRefines(regs: map<int, Word>, ops: seq<Op>, q: nat)
    requires q <= GPIO_PINS_MAX
    requires forall op :: op in ops ==> Accepted(op)
    ensures PinAt(RunRegs(regs, ops), q) == RunPin(PinAt(regs, q), q, ops)
  {
    if ops != [] {
      var front, op := ops[..|ops| - 1], ops[|ops| - 1];
      RunRefines(regs, front, q);
      assert Accepted(op);
      match op {
        case Cfg(pin, flags) => ConfigureRefines(RunRegs(regs, front), pin, flags, q);
        case Output(pin, flags) => OutputRefines(RunRegs(regs, front), pin, OUTPUT_HIGH in flags, q);
      }
    }
  }

  /** The level the last gpio_output on `q` asked for, or `high` when there was none. */
  function LastLevel(high: bool, q: nat, ops: seq<Op>): bool {
    if ops == [] then high
    else
      var op := ops[|ops| - 1];
      if op.Output? && op.pin == q then OUTPUT_HIGH in op.flags else LastLevel(high, q, ops[..|ops| - 1])
  }

  lemma {:induction false} RunPinAfterConfig(p: Pin, q: nat, after: seq<Op>)
    requires forall op :: op in after ==> !(op.Cfg? && op.pin == q)
    ensures RunPin(p, q, after) == p.(high := LastLevel(p.high, q, after))
  {
    if after != [] {
      assert after[|after| - 1] in after;
      RunPinAfterConfig(p, q, after[..|after| - 1]);
    }
  }

  lemma {:induction false} RunPinConcat(p: Pin, q: nat, a: seq<Op>, b: seq<Op>)
    ensures RunPin(p, q, a + b) == RunPin(RunPin(p, q, a), q, b)
  {
    if b == [] {
      assert a + b == a;
    } else {
      assert (a + b)[..|a + b| - 1] == a + b[..|b| - 1];
      RunPinConcat(p, q, a, b[..|b| - 1]);
    }
  }

  /** Changing a pin's output level shows in one flag only. */
  lemma LevelOnly(p: Pin, p': Pin, input: bool)
    requires p' == p.(high := p'.high)
    ensures SameConfig(ReadFlags(p', input), ReadFlags(p, input))
    ensures OUTPUT_HIGH in ReadFlags(p', input) <==> p.output && p'.high
  {
    forall f: nat | ConfigFlag(f)
      ensures f in ReadFlags(p', input) <==> f in ReadFlags(p, input)
    {
      assert Reports(p', input, f) == Reports(p, input, f);
    }
  }

  /** After any run, reading a pin returns the flags of its last gpio_cfg, and for an output pin
      the level of the last gpio_output since (or of that gpio_cfg): whatever was done before, and
      whatever was done to other pins before or after. */
  lemma LastConfigWins(regs: map<int, Word>, before: seq<Op>, flags: Word, after: seq<Op>, q: nat)
    requires q <= GPIO_PINS_MAX && PullValid(flags)
    requires forall op :: op in before + after ==> Accepted(op)
    requires forall op :: op in after ==> !(op.Cfg? && op.pin == q)
    ensures var read := FlagsAt(RunRegs(regs, before + [Cfg(q, flags)] + after), q);
            && SameConfig(read, flags)
            && (DIR_IN !in flags ==> (OUTPUT_HIGH in read <==> LastLevel(OUTPUT_HIGH in flags, q, after)))
  {
    var ops := before + [Cfg(q, flags)] + after;
    forall op | op in ops
      ensures Accepted(op)
    {
      assert op in before + after || op == Cfg(q, flags);
    }
    RunRefines(regs, ops, q);
    var p0 := PinAt(regs, q);
    RunPinConcat(p0, q, before + [Cfg(q, flags)], after);
    var p1 := RunPin(p0, q, before);
    assert (before + [Cfg(q, flags)])[..|before|] == before;
    RunPinAfterConfig(Configured(p1, flags), q, after);
    var p2 := PinAt(RunRegs(regs, ops), q);
    var input := PinBit(RunRegs(regs, ops), q, In);
    ReadBack(p1, flags, input);
    LevelOnly(Configured(p1, flags), p2, input);
  }

  // ---- The driver functions ----

  /** Where each write sits in the list gpio_cfg works through. */
  lemma ConfigWritesAt(flags: Word)
    ensures var d, p, all := |DirWrites(flags)|, |PullWrites(flags)|, ConfigWrites(flags);
            && (forall i :: 0 <= i < d ==> all[i] == DirWrites(flags)[i])
            && all[d] == BitWrite(Od, OPEN_DRAIN !in flags)
            && (forall i :: 0 <= i < p ==> all[d + 1 + i] == PullWrites(flags)[i])
            && (PullValid(flags) ==> |all| == d + 1 + p + 5)
            && (PullValid(flags) ==> forall i :: 0 <= i < 5 ==> all[d + 1 + p + i] == PadWrites(flags)[i])
            && (!PullValid(flags) ==> |all| == d + 1 + p)
  {}

  /** One SMDIO_SET_BIT or SMDIO_CLR_BIT: the next write of the list `all`, `n` of which are done. */
  method PutBit(bus: SmdioBus, pin: nat, slice: Slice, on: bool,
                ghost start: map<int, Word>, ghost all: seq<BitWrite>, ghost n: nat)
    returns (ret: int, ghost now: nat)
    requires n < |all| && all[n] == BitWrite(slice, on)
    requires bus.regs == WriteBits(start, pin, all[..n])
    modifies bus
    ensures ret <= 0
    ensures now == if ret == 0 then n + 1 else n
    ensures bus.refused >= old(bus.refused) && (ret < 0 ==> bus.refused > old(bus.refused))
    ensures bus.regs == WriteBits(start, pin, all[..now])
  {
    var addr := SliceAddr(Port(pin), slice);
    if on {
      ret := bus.SetBit(addr, Lane(pin));
    } else {
      ret := bus.ClearBit(addr, Lane(pin));
    }
    now := if ret == 0 then n + 1 else n;
    assert all[..n + 1][..n] == all[..n];
  }

  /** The first `n` configuration writes have gone through, for some `n`. */
  ghost predicate PartlyConfigured(start: map<int, Word>, regs: map<int, Word>, pin: nat, flags: Word) {
    exists n: nat | n <= |ConfigWrites(flags)| :: regs == WriteBits(start, pin, ConfigWrites(flags)[..n])
  }

  /** gpio_cfg.  A call that fails midway has performed a prefix of its writes. */
  method GpioCfg(bus: SmdioBus, pin: nat, flags: Word) returns (ret: int)
    modifies bus
    ensures pin > GPIO_PINS_MAX ==> ret == -EINVAL && bus.regs == old(bus.regs)
    ensures pin <= GPIO_PINS_MAX && ret == 0 ==>
              PullValid(flags) && bus.regs == WriteBits(old(bus.regs), pin, ConfigWrites(flags))
    ensures pin <= GPIO_PINS_MAX && !PullValid(flags) ==> ret < 0
    ensures ret != 0 ==> ret < 0 && PartlyConfigured(old(bus.regs), bus.regs, pin, flags)
    ensures bus.refused >= old(bus.refused)
    ensures pin <= GPIO_PINS_MAX && PullValid(flags) && bus.refused == old(bus.refused) ==> ret == 0
  {
    ghost var start, all, n: nat := bus.regs, ConfigWrites(flags), 0;
    assert all[..0] == [];
    if pin > GPIO_PINS_MAX {
      return -EINVAL;
    }
    ret, n := DirConfig(bus, pin, flags, start, all);
    if ret < 0 {
      return;
    }
    ret, n := PullConfig(bus, pin, flags, start, n);
    if ret < 0 {
      return;
    }
    ConfigEndsInPads(flags);
    ret, n := PadConfig(bus, pin, flags, start, all);
    assert all[..|all|] == all;
  }

  /** Direction, with the level first for an output pin, and open drain. */
  method DirConfig(bus: SmdioBus, pin: nat, flags: Word, ghost start: map<int, Word>, ghost all: seq<BitWrite>)
    returns (ret: int, ghost now: nat)
    requires bus.regs == start && all == ConfigWrites(flags)
    modifies bus
    ensures ret <= 0 && now <= |all| && (ret == 0 ==> now == |DirWrites(flags)| + 1)
    ensures bus.refused >= old(bus.refused) && (ret < 0 ==> bus.refused > old(bus.refused))
    ensures bus.regs == WriteBits(start, pin, all[..now])
  {
    now := 0;
    assert all[..0] == [];
    ConfigWritesAt(flags);
    if DIR_IN in flags {
      ret, now := PutBit(bus, pin, Dir, false, start, all, now);
    } else {
      ret, now := PutBit(bus, pin, Out, OUTPUT_HIGH in flags, start, all, now);
      if ret == 0 {
        ret, now := PutBit(bus, pin, Dir, true, start, all, now);
      }
    }
    if ret < 0 {
      return;
    }
    ret, now := PutBit(bus, pin, Od, OPEN_DRAIN !in flags, start, all, now);
  }

  /** The pull resistor part of gpio_cfg; an unknown pull code is refused after the earlier writes. */
  method PullConfig(bus: SmdioBus, pin: nat, flags: Word, ghost start: map<int, Word>, ghost n: nat)
    returns (ret: int, ghost now: nat)
    requires n == |DirWrites(flags)| + 1
    requires bus.regs == WriteBits(start, pin, ConfigWrites(flags)[..n])
    modifies bus
    ensures ret <= 0
    ensures ret == 0 ==> PullValid(flags) && now == n + |PullWrites(flags)|
    ensures !PullValid(flags) ==> ret == -EINVAL && now == n
    ensures bus.refused >= old(bus.refused) && (PullValid(flags) && ret < 0 ==> bus.refused > old(bus.refused))
    ensures now <= |ConfigWrites(flags)| && bus.regs == WriteBits(start, pin, ConfigWrites(flags)[..now])
  {
    ghost var all := ConfigWrites(flags);
    ConfigWritesAt(flags);
    PullCases(flags);
    if flags * PULL_DOWN == {} {
      ret, now := PutBit(bus, pin, PudEn, false, start, all, n);
    } else if flags * PULL_DOWN == PULL_UP || flags * PULL_DOWN == PULL_DOWN {
      ret, now := PutBit(bus, pin, PudEn, true, start, all, n);
      if ret < 0 {
        return;
      }
      ret, now := PutBit(bus, pin, PudSel, flags * PULL_DOWN == PULL_UP, start, all, now);
    } else {
      ret, now := -EINVAL, n;
    }
  }

  /** The last five writes of a list are those of the pad settings. */
  predicate EndsInPads(all: seq<BitWrite>, flags: Word) {
    var n := |all| - 5;
    && n >= 0
    && all[n] == BitWrite(Slew, FAST_SLEW in flags)
    && all[n + 1] == BitWrite(AltSel0, FUNC1 in flags)
    && all[n + 2] == BitWrite(AltSel1, FUNC2 in flags)
    && all[n + 3] == BitWrite(Drive0, PAD_STR1 in flags)
    && all[n + 4] == BitWrite(Drive1, PAD_STR2 in flags)
  }

  lemma ConfigEndsInPads(flags: Word)
    requires PullValid(flags)
    ensures EndsInPads(ConfigWrites(flags), flags)
    ensures |ConfigWrites(flags)| == |DirWrites(flags)| + 1 + |PullWrites(flags)| + 5
  {
    ConfigWritesAt(flags);
    var pads := PadWrites(flags);
    assert pads[0] == BitWrite(Slew, FAST_SLEW in flags) && pads[1] == BitWrite(AltSel0, FUNC1 in flags);
  }

  /** The tail of gpio_cfg: slew rate, alternative function, pad strength. */
  method PadConfig(bus: SmdioBus, pin: nat, flags: Word, ghost start: map<int, Word>, ghost all: seq<BitWrite>)
    returns (ret: int, ghost now: nat)
    requires EndsInPads(all, flags) && bus.regs == WriteBits(start, pin, all[..|all| - 5])
    modifies bus
    ensures ret <= 0 && now <= |all| && (ret == 0 ==> now == |all|)
    ensures bus.refused >= old(bus.refused) && (ret < 0 ==> bus.refused > old(bus.refused))
    ensures bus.regs == WriteBits(start, pin, all[..now])
  {
    now := |all| - 5;
    ret, now := PutBit(bus, pin, Slew, FAST_SLEW in flags, start, all, now);
    if ret < 0 {
      return;
    }
    ret, now := PutBit(bus, pin, AltSel0, FUNC1 in flags, start, all, now);
    if ret < 0 {
      return;
    }
    ret, now := PutBit(bus, pin, AltSel1, FUNC2 in flags, start, all, now);
    if ret < 0 {
      return;
    }
    ret, now := PutBit(bus, pin, Drive0, PAD_STR1 in flags, start, all, now);
    if ret < 0 {
      return;
    }
    ret, now := PutBit(bus, pin, Drive1, PAD_STR2 in flags, start, all, now);
  }

  /** A failed or refused gpio_cfg still leaves every other pin as it was. */
  lemma FailedConfigIsLocal(start: map<int, Word>, regs: map<int, Word>, pin: nat, flags: Word, q: nat)
    requires pin <= GPIO_PINS_MAX && q <= GPIO_PINS_MAX && q != pin
    requires PartlyConfigured(start, regs, pin, flags)
    ensures PinAt(regs, q) == PinAt(start, q)
  {
    var n: nat :| n <= |ConfigWrites(flags)| && regs == WriteBits(start, pin, ConfigWrites(flags)[..n]);
    OtherPinsKept(start, pin, ConfigWrites(flags)[..n], q);
  }

  /** gpio_output: sets the level register only, whatever the pin's direction. */
  method GpioOutput(bus: SmdioBus, pin: nat, flags: Word) returns (ret: int)
    modifies bus
    ensures pin > GPIO_PINS_MAX ==> ret == -EINVAL
    ensures ret <= 0
    ensures bus.regs == if ret == 0 then WriteBits(old(bus.regs), pin, OpWrites(Output(pin, flags))) else old(bus.regs)
    ensures pin <= GPIO_PINS_MAX && bus.refused == old(bus.refused) ==> ret == 0
  {
    if pin > GPIO_PINS_MAX {
      return -EINVAL;
    }
    ghost var all, n := OpWrites(Output(pin, flags)), 0;
    assert all[..0] == [] && all[..1] == all;
    ret, n := PutBit(bus, pin, Out, OUTPUT_HIGH in flags, bus.regs, all, 0);
  }

  /** One register read, and `flag` added when the pin's bit is set in it. */
  method TakeFlag(bus: SmdioBus, pin: nat, slice: Slice, flag: nat, flags: Word) returns (ret: int, now: Word, on: bool)
    modifies bus`refused
    ensures bus.refused >= old(bus.refused) && (ret < 0 ==> bus.refused > old(bus.refused))
    ensures ret <= 0
    ensures ret == 0 ==> on == PinBit(bus.regs, pin, slice)
    ensures ret == 0 ==> forall f :: f in now <==> f in flags || (f == flag && PinBit(bus.regs, pin, slice))
  {
    var val: Word;
    now := flags;
    ret, val := bus.Read(SliceAddr(Port(pin), slice));
    on := Lane(pin) in val;
    if ret == 0 && on {
      now := now + {flag};
    }
  }

  /** The flags up to `last` are those the registers stand for, and no others are set yet; the pull flags
      count with `pulls`. */
  ghost predicate Gathered(bus: SmdioBus, pin: nat, flags: Word, last: nat, pulls: bool)
    reads bus`regs
  {
    forall f: nat ::
      f in flags <==>
      (f <= last || (pulls && (f == PULL_LOW_BIT || f == PULL_HIGH_BIT)))
      && Reports(PinAt(bus.regs, pin), PinBit(bus.regs, pin, In), f)
  }

  /** gpio_get: assembles the flags register by register. */
  method GpioGet(bus: SmdioBus, pin: nat) returns (ret: int, flags: Word)
    modifies bus`refused
    ensures ret <= 0
    ensures pin <= GPIO_PINS_MAX && bus.refused == old(bus.refused) ==> ret == 0
    ensures pin > GPIO_PINS_MAX ==> ret == -EINVAL
    ensures ret == 0 ==> flags == FlagsAt(bus.regs, pin)
  {
    flags := {};
    if pin > GPIO_PINS_MAX {
      return -EINVAL, flags;
    }
    ret, flags := LevelGet(bus, pin);
    if ret < 0 {
      return;
    }

    var val: Word;
    ret, val := bus.Read(SliceAddr(Port(pin), Od));
    if ret < 0 {
      return;
    }
    if Lane(pin) !in val {
      flags := flags + {OPEN_DRAIN};
    }

    ret, flags := PullGet(bus, pin, flags);
    if ret < 0 {
      return;
    }
    ret, flags := PadGet(bus, pin, flags);
  }

  /** Direction, and the level register that belongs to it. */
  method LevelGet(bus: SmdioBus, pin: nat) returns (ret: int, flags: Word)
    modifies bus`refused
    ensures ret <= 0
    ensures bus.refused >= old(bus.refused) && (ret < 0 ==> bus.refused > old(bus.refused))
    ensures ret == 0 ==> Gathered(bus, pin, flags, INPUT_HIGH, false)
  {
    flags := {};
    var val: Word;
    ret, val := bus.Read(SliceAddr(Port(pin), Dir));
    if ret < 0 {
      return;
    }
    var on: bool;
    if Lane(pin) in val {
      ret, flags, on := TakeFlag(bus, pin, Out, OUTPUT_HIGH, flags);
    } else {
      flags := flags + {DIR_IN};
      ret, flags, on := TakeFlag(bus, pin, In, INPUT_HIGH, flags);
    }
  }

  method PullGet(bus: SmdioBus, pin: nat, start: Word) returns (ret: int, flags: Word)
    requires Gathered(bus, pin, start, OPEN_DRAIN, false)
    modifies bus`refused
    ensures ret <= 0
    ensures bus.refused >= old(bus.refused) && (ret < 0 ==> bus.refused > old(bus.refused))
    ensures ret == 0 ==> Gathered(bus, pin, flags, OPEN_DRAIN, true)
  {
    flags := start;
    var val: Word;
    ret, val := bus.Read(SliceAddr(Port(pin), PudEn));
    if ret < 0 {
      return;
    }
    if Lane(pin) in val {
      ret, val := bus.Read(SliceAddr(Port(pin), PudSel));
      if ret < 0 {
        return;
      }
      if Lane(pin) in val {
        flags := flags + PULL_UP;
      } else {
        flags := flags + PULL_DOWN;
      }
    }
  }

  method PadGet(bus: SmdioBus, pin: nat, start: Word) returns (ret: int, flags: Word)
    requires Gathered(bus, pin, start, OPEN_DRAIN, true)
    modifies bus`refused
    ensures ret <= 0
    ensures bus.refused >= old(bus.refused) && (ret < 0 ==> bus.refused > old(bus.refused))
    ensures ret == 0 ==> flags == FlagsAt(bus.regs, pin)
  {
    var on: bool;
    ret, flags, on := TakeFlag(bus, pin, Slew, FAST_SLEW, start);
    if ret < 0 {
      return;
    }
    ret, flags, on := TakeFlag(bus, pin, AltSel0, FUNC1, flags);
    if ret < 0 {
      return;
    }
    ret, flags, on := TakeFlag(bus, pin, AltSel1, FUNC2, flags);
    if ret < 0 {
      return;
    }
    ret, flags, on := TakeFlag(bus, pin, Drive0, PAD_STR1, flags);
    if ret < 0 {
      return;
    }
    ret, flags, on := TakeFlag(bus, pin, Drive1, PAD_STR2, flags);
  }
}
