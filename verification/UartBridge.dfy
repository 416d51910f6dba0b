/** The PC utility reaches the chip over a UART.  Internal (slave MDIO) registers are UART registers;
    PHY registers go through an MDIO master that is itself three UART registers.  A write to the
    slave MDIO base address register only arms a flag, and the next bus access of any kind is
    redirected to the remembered UART register. */
module UartBridge {
  import opened MachineInts
  import opened MmdAddressing

  const SMDIO_BADR := 0x1F
  const SMDIO_TOFF := 0x00
  const MDIO_CTRL := 0xF408
  const MDIO_READ := 0xF409
  const MDIO_WRITE := 0xF40A
  const OP_WR := 1
  const OP_RD := 2
  const MAX_BUSY_RETRY := 100

  // ---- What reaches the wire ----

  /** One UART register access: a read with its answer, or a write. */
  datatype Event = Rd(reg: int, answer: u16) | Wr(reg: int, val: int)

  /** One frame the MDIO master sends. */
  datatype Frame = ReadFrame(phy: int, reg: int) | WriteFrame(phy: int, reg: int, val: int)

  /** The control word: operation, PHY address and register address side by side. */
  function ControlWord(op: int, phy: int, reg: int): int {
    op * 1024 + phy % 32 * 32 + reg % 32
  }

  /** The frames the master sends for a sequence of UART accesses, `data` being in its write register. */
  function Frames(data: int, events: seq<Event>): seq<Frame>
    decreases events
  {
    if events == [] then []
    else
      var rest := events[1..];
      match events[0]
      case Rd(_, _) => Frames(data, rest)
      case Wr(reg, val) =>
        if reg == MDIO_WRITE then Frames(val, rest)
        else if reg == MDIO_CTRL then [Triggered(val, data)] + Frames(data, rest)
        else Frames(data, rest)
  }

  function Triggered(control: int, data: int): Frame {
    if control / 1024 % 4 == OP_WR then WriteFrame(control / 32 % 32, control % 32, data)
    else ReadFrame(control / 32 % 32, control % 32)
  }

  lemma ControlWordDecodes(op: int, phy: int, reg: int, data: int)
    requires op == OP_RD || op == OP_WR
    ensures Triggered(ControlWord(op, phy, reg), data)
         == if op == OP_WR then WriteFrame(phy % 32, reg % 32, data) else ReadFrame(phy % 32, reg % 32)
  {}

  /** Touches nothing but the MDIO master. */
  ghost predicate MasterOnly(events: seq<Event>) {
    forall e :: e in events ==> e.reg in {MDIO_CTRL, MDIO_READ, MDIO_WRITE}
  }

  /** The accesses send exactly `frames`, whatever the write register held before. */
  ghost predicate Sends(events: seq<Event>, frames: seq<Frame>) {
    MasterOnly(events) && forall data :: Frames(data, events) == frames
  }

  function DataAfter(data: int, events: seq<Event>): int
    decreases events
  {
    if events == [] then data
    else DataAfter(if events[0].Wr? && events[0].reg == MDIO_WRITE then events[0].val else data, events[1..])
  }

  lemma {:induction false} FramesConcat(data: int, a: seq<Event>, b: seq<Event>)
    ensures Frames(data, a + b) == Frames(data, a) + Frames(DataAfter(data, a), b)
    decreases a
  {
    if a == [] {
      assert a + b == b;
    } else {
      assert (a + b)[1..] == a[1..] + b;
      var next := if a[0].Wr? && a[0].reg == MDIO_WRITE then a[0].val else data;
      FramesConcat(next, a[1..], b);
    }
  }

  lemma SendsConcat(a: seq<Event>, fa: seq<Frame>, b: seq<Event>, fb: seq<Frame>)
    requires Sends(a, fa) && Sends(b, fb)
    ensures Sends(a + b, fa + fb)
  {
    forall data
      ensures Frames(data, a + b) == fa + fb
    {
      FramesConcat(data, a, b);
    }
  }

  ghost predicate AllPolls(events: seq<Event>) {
    forall e :: e in events ==> e.Rd? && e.reg == MDIO_CTRL
  }

  lemma {:induction false} PollsSendNothing(data: int, polls: seq<Event>)
    requires AllPolls(polls)
    ensures Frames(data, polls) == [] && DataAfter(data, polls) == data
  {
    if polls != [] {
      assert polls[0] in polls;
      assert forall e :: e in polls[1..] ==> e in polls;
      PollsSendNothing(data, polls[1..]);
    }
  }

  /** The shape of one master transaction: polls, the set-up writes, polls, the read of a result. */
  lemma TransactionSends(before: seq<Event>, op: int, phy: int, reg: int, data: int, after: seq<Event>,
                         tail: seq<Event>)
    requires AllPolls(before) && AllPolls(after) && (op == OP_RD || op == OP_WR)
    requires if op == OP_RD then |tail| == 1 && tail[0].Rd? && tail[0].reg == MDIO_READ else tail == []
    ensures var setup := if op == OP_WR then [Wr(MDIO_WRITE, data)] else [];
            Sends(before + setup + [Wr(MDIO_CTRL, ControlWord(op, phy, reg))] + after + tail,
                  [if op == OP_WR then WriteFrame(phy % 32, reg % 32, data) else ReadFrame(phy % 32, reg % 32)])
  {
    var setup := if op == OP_WR then [Wr(MDIO_WRITE, data)] else [];
    var go := [Wr(MDIO_CTRL, ControlWord(op, phy, reg))];
    ControlWordDecodes(op, phy, reg, data);
    forall d
      ensures Frames(d, before + setup + go + after + tail)
           == [if op == OP_WR then WriteFrame(phy % 32, reg % 32, data) else ReadFrame(phy % 32, reg % 32)]
    {
      PollsSendNothing(d, before);
      FramesConcat(d, before, setup);
      assert go[1..] == [];
      if op == OP_WR {
        assert setup[1..] == [];
        DataAfterConcat(d, before, setup);
        ControlWordDecodes(op, phy, reg, data);
      } else {
        assert before + setup == before;
        ControlWordDecodes(op, phy, reg, d);
      }
      var held := if op == OP_WR then data else d;
      assert DataAfter(d, before + setup) == held;
      FramesConcat(d, before + setup, go);
      DataAfterConcat(d, before + setup, go);
      FramesConcat(d, before + setup + go, after);
      PollsSendNothing(held, after);
      DataAfterConcat(d, before + setup + go, after);
      FramesConcat(d, before + setup + go + after, tail);
      assert tail != [] ==> tail[1..] == [];
    }
  }

  lemma {:induction false} DataAfterConcat(data: int, a: seq<Event>, b: seq<Event>)
    ensures DataAfter(data, a + b) == DataAfter(DataAfter(data, a), b)
    decreases a
  {
    if a == [] {
      assert a + b == b;
    } else {
      assert (a + b)[1..] == a[1..] + b;
      DataAfterConcat(if a[0].Wr? && a[0].reg == MDIO_WRITE then a[0].val else data, a[1..], b);
    }
  }

  // ---- The bus functions as a state machine ----

  /** The two static variables of the driver. */
  datatype Flag = Flag(armed: bool, regnum: u16)

  const Disarmed := Flag(false, 0)

  datatype Effect =
    | Nothing
    | DirectRead(reg: int)
    | DirectWrite(reg: int, val: int)
    | Sent(frames: seq<Frame>)

  /** The recorded accesses are those the effect stands for. */
  ghost predicate Realises(events: seq<Event>, e: Effect) {
    match e
    case Nothing => events == []
    case DirectRead(reg) => |events| == 1 && events[0].Rd? && events[0].reg == reg
    case DirectWrite(reg, val) => events == [Wr(reg, val)]
    case Sent(frames) => Sends(events, frames)
  }

  /** The last access read `reg` and was answered `val`. */
  predicate Answered(events: seq<Event>, reg: int, val: int) {
    events != [] && events[|events| - 1].Rd? && events[|events| - 1].reg == reg && events[|events| - 1].answer == val
  }

  predicate Busy(e: Event) {
    e.Rd? && e.answer / 0x1000 % 2 == 1
  }

  function SelectFrames(phy: int, regnum: u32): seq<Frame> {
    var dev: int, reg: int := DeviceOf(regnum), RegisterOf(regnum);
    [WriteFrame(phy % 32, MMDCTRL, dev), WriteFrame(phy % 32, MMDDATA, reg),
     WriteFrame(phy % 32, MMDCTRL, 0x4000 + dev)]
  }

  function BusRead(s: Flag, phy: u16, regnum: u32): (Flag, Effect) {
    if s.armed then (Disarmed, DirectRead(s.regnum))
    else if Addressed45(regnum) then (s, Sent(SelectFrames(phy, regnum) + [ReadFrame(phy % 32, MMDDATA)]))
    else (s, Sent([ReadFrame(phy % 32, regnum % 32)]))
  }

  function BusWrite(smdioAddr: int, s: Flag, phy: u16, regnum: u32, data: u16): (Flag, Effect) {
    if s.armed then (Disarmed, DirectWrite(s.regnum, data))
    else if phy == smdioAddr && regnum == SMDIO_BADR then (Flag(true, data), Nothing)
    else if Addressed45(regnum) then (s, Sent(SelectFrames(phy, regnum) + [WriteFrame(phy % 32, MMDDATA, data)]))
    else (s, Sent([WriteFrame(phy % 32, regnum % 32, data)]))
  }

  // ---- Whole calls ----

  /** The driver calls above the bus; `smdio` ones are internal registers, the others the PHY's. */
  datatype Call =
    | SmdioRead(regaddr: u32)
    | SmdioWrite(regaddr: u32, data: u16)
    | PhyRead(reg: u32)
    | PhyWrite(reg: u32, data: u16)
    | MmdRead(dev: int, reg: u32)
    | MmdWrite(dev: int, reg: u32, data: u16)

  datatype Addresses = Addresses(smdio: u16, phy: u16)

  /** What a call does to the flag and to the wire.  Register numbers above 31 and unknown devices are
      refused before the bus is used. */
  function CallStep(a: Addresses, s: Flag, c: Call): (Flag, seq<Effect>) {
    match c
    case SmdioRead(r) =>
      var (s1, e1) := BusWrite(a.smdio, s, a.smdio, SMDIO_BADR, r % W16);
      var (s2, e2) := BusRead(s1, a.smdio, SMDIO_TOFF);
      (s2, [e1, e2])
    case SmdioWrite(r, data) =>
      var (s1, e1) := BusWrite(a.smdio, s, a.smdio, SMDIO_BADR, r % W16);
      var (s2, e2) := BusWrite(a.smdio, s1, a.smdio, SMDIO_TOFF, data);
      (s2, [e1, e2])
    case PhyRead(r) =>
      if r > 31 then (s, []) else var (s1, e) := BusRead(s, a.phy, r); (s1, [e])
    case PhyWrite(r, data) =>
      if r > 31 then (s, []) else var (s1, e) := BusWrite(a.smdio, s, a.phy, r, data); (s1, [e])
    case MmdRead(dev, r) =>
      if !KnownDevice(dev) then (s, []) else var (s1, e) := BusRead(s, a.phy, Packed(dev, r)); (s1, [e])
    case MmdWrite(dev, r, data) =>
      if !KnownDevice(dev) then (s, []) else var (s1, e) := BusWrite(a.smdio, s, a.phy, Packed(dev, r), data); (s1, [e])
  }

  /** What the caller means: one access of its own 16-bit register, or the PHY's frames. */
  function Intended(a: Addresses, c: Call): seq<Effect> {
    match c
    case SmdioRead(r) => [Nothing, DirectRead(r % W16)]
    case SmdioWrite(r, data) => [Nothing, DirectWrite(r % W16, data)]
    case PhyRead(r) => if r > 31 then [] else [Sent([ReadFrame(a.phy % 32, r)])]
    case PhyWrite(r, data) => if r > 31 then [] else [Sent([WriteFrame(a.phy % 32, r, data)])]
    case MmdRead(dev, r) =>
      if !KnownDevice(dev) then [] else [Sent(MmdFrames(a, dev, r) + [ReadFrame(a.phy % 32, MMDDATA)])]
    case MmdWrite(dev, r, data) =>
      if !KnownDevice(dev) then [] else [Sent(MmdFrames(a, dev, r) + [WriteFrame(a.phy % 32, MMDDATA, data)])]
  }

  function MmdFrames(a: Addresses, dev: int, r: u32): seq<Frame> {
    [WriteFrame(a.phy % 32, MMDCTRL, dev), WriteFrame(a.phy % 32, MMDDATA, r % W16),
     WriteFrame(a.phy % 32, MMDCTRL, 0x4000 + dev)]
  }

  /** The one call that arms the flag without meaning to. */
  predicate Collides(a: Addresses, c: Call) {
    c.PhyWrite? && c.reg == SMDIO_BADR && a.phy == a.smdio
  }

  /** From a clear flag a call does what is meant and leaves the flag clear, exactly unless it writes
      PHY register 31 while the PHY shares the slave MDIO address. */
  lemma CallFromClear(a: Addresses, c: Call)
    ensures CallStep(a, Disarmed, c) == (Disarmed, Intended(a, c)) <==> !Collides(a, c)
    ensures Collides(a, c) ==> CallStep(a, Disarmed, c) == (Flag(true, c.data), [Nothing])
  {
    if (c.MmdRead? || c.MmdWrite?) && KnownDevice(c.dev) {
      PackingIsLossless(c.dev, c.reg);
    }
  }

  /** After the colliding write the next PHY register read is answered from UART register `data`. */
  lemma CollisionMisroutes(a: Addresses, data: u16, r: u32)
    requires a.phy == a.smdio && r <= 31
    ensures CallStep(a, CallStep(a, Disarmed, PhyWrite(SMDIO_BADR, data)).0, PhyRead(r))
         == (Disarmed, [DirectRead(data)])
  {}

  function Run(a: Addresses, s: Flag, calls: seq<Call>): (Flag, seq<Effect>)
    decreases calls
  {
    if calls == [] then (s, [])
    else
      var (s1, e) := CallStep(a, s, calls[0]);
      var (s2, rest) := Run(a, s1, calls[1..]);
      (s2, e + rest)
  }

  function IntendedRun(a: Addresses, calls: seq<Call>): seq<Effect> {
    if calls == [] then [] else Intended(a, calls[0]) + IntendedRun(a, calls[1..])
  }

  /** Over any interleaving of whole calls without the colliding one the flag is clear between calls, every
      internal access reaches exactly its own register once, and no PHY access consumes a pending address;
      with a colliding call among them the run does something else. */
  lemma {:induction false} RunAsIntended(a: Addresses, calls: seq<Call>)
    ensures Run(a, Disarmed, calls) == (Disarmed, IntendedRun(a, calls)) <==> forall c :: c in calls ==> !Collides(a, c)
    decreases calls
  {
    if calls != [] {
      var c, rest := calls[0], calls[1..];
      CallFromClear(a, c);
      if Collides(a, c) {
        assert Run(a, Disarmed, calls).1[0] == Nothing != IntendedRun(a, calls)[0];
      } else {
        RunAsIntended(a, rest);
        SameFront(Intended(a, c), Run(a, Disarmed, rest).1, IntendedRun(a, rest));
        assert forall d :: d in calls <==> d == c || d in rest;
      }
    }
  }

  lemma SameFront(e: seq<Effect>, a: seq<Effect>, b: seq<Effect>)
    ensures e + a == e + b <==> a == b
  {
    assert (e + a)[|e|..] == a && (e + b)[|e|..] == b;
  }

  // ---- The driver functions ----

  class Uart {
    var flag: Flag
    var log: seq<Event>

    /** A UART read; registers are 16 bits wide. */
    method RegRd(reg: int) returns (val: u16)
      modifies this`log
      ensures log == old(log) + [Rd(reg, val)]
    {
      var answer: int := *;
      val := answer % W16;
      log := log + [Rd(reg, val)];
    }

    method RegWr(reg: int, val: int)
      modifies this`log
      ensures log == old(log) + [Wr(reg, val)]
    {
      log := log + [Wr(reg, val)];
    }

    /** __is_device_busy: at most a hundred polls of the control register. */
    method IsDeviceBusy() returns (ret: int, ghost polls: seq<Event>)
      modifies this`log
      ensures log == old(log) + polls && AllPolls(polls) && 1 <= |polls| <= MAX_BUSY_RETRY
      ensures ret == if Busy(polls[|polls| - 1]) then -1 else 0
      ensures Busy(polls[|polls| - 1]) ==> |polls| == MAX_BUSY_RETRY
      ensures forall k :: 0 <= k < |polls| - 1 ==> Busy(polls[k])
    {
      polls := [];
      var busyRetry: nat := MAX_BUSY_RETRY;
      var value := 0;
      while true
        invariant log == old(log) + polls && AllPolls(polls)
        invariant |polls| + busyRetry == MAX_BUSY_RETRY && busyRetry > 0
        invariant forall k :: 0 <= k < |polls| ==> Busy(polls[k])
        decreases busyRetry
      {
        value := RegRd(MDIO_CTRL);
        polls := polls + [Rd(MDIO_CTRL, value)];
        value := value / 0x1000 % 2;
        if value == 0 {
          break;
        }
        busyRetry := busyRetry - 1;
        if busyRetry == 0 {
          break;
        }
      }
      ret := if value != 0 && busyRetry == 0 then -1 else 0;
    }

    /** __gpy211_mmdio_read; a busy time-out is ignored. */
    method MmdioRead(phy: int, reg: int) returns (val: u16, ghost events: seq<Event>)
      modifies this`log
      ensures log == old(log) + events && Sends(events, [ReadFrame(phy % 32, reg % 32)])
      ensures Answered(events, MDIO_READ, val)
    {
      var ret;
      ghost var before, after;
      ret, before := IsDeviceBusy();
      var control := ControlWord(OP_RD, phy, reg);
      RegWr(MDIO_CTRL, control);
      ret, after := IsDeviceBusy();
      val := RegRd(MDIO_READ);
      events := before + [] + [Wr(MDIO_CTRL, control)] + after + [Rd(MDIO_READ, val)];
      TransactionSends(before, OP_RD, phy, reg, 0, after, [Rd(MDIO_READ, val)]);
    }

    /** __gpy211_mmdio_write. */
    method MmdioWrite(phy: int, reg: int, data: int) returns (ghost events: seq<Event>)
      modifies this`log
      ensures log == old(log) + events && Sends(events, [WriteFrame(phy % 32, reg % 32, data)])
    {
      var ret;
      ghost var before, after;
      ret, before := IsDeviceBusy();
      RegWr(MDIO_WRITE, data);
      var control := ControlWord(OP_WR, phy, reg);
      RegWr(MDIO_CTRL, control);
      ret, after := IsDeviceBusy();
      events := before + [Wr(MDIO_WRITE, data)] + [Wr(MDIO_CTRL, control)] + after + [];
      TransactionSends(before, OP_WR, phy, reg, data, after, []);
    }

    /** The three writes that select an MMD register. */
    method MmdioSelect(phy: int, regnum: u32) returns (ghost events: seq<Event>)
      modifies this`log
      ensures log == old(log) + events && Sends(events, SelectFrames(phy, regnum))
    {
      var dev: int, reg: int := DeviceOf(regnum), RegisterOf(regnum);
      ghost var e1 := MmdioWrite(phy, MMDCTRL, dev);
      ghost var e2 := MmdioWrite(phy, MMDDATA, reg);
      ghost var e3 := MmdioWrite(phy, MMDCTRL, 0x4000 + dev);
      var p := phy % 32;
      ghost var f1, f2 := WriteFrame(p, MMDCTRL, dev), WriteFrame(p, MMDDATA, reg);
      ghost var f3 := WriteFrame(p, MMDCTRL, 0x4000 + dev);
      SendsConcat(e1, [f1], e2, [f2]);
      assert [f1] + [f2] == [f1, f2];
      SendsConcat(e1 + e2, [f1, f2], e3, [f3]);
      assert [f1, f2] + [f3] == SelectFrames(phy, regnum);
      events := e1 + e2 + e3;
    }

    /** gpy211_mdio_read of the P31G build. */
    method MdioRead(phy: u16, regnum: u32) returns (val: u16, ghost events: seq<Event>)
      modifies this
      ensures log == old(log) + events
      ensures flag == BusRead(old(flag), phy, regnum).0 && Realises(events, BusRead(old(flag), phy, regnum).1)
      ensures Answered(events, if old(flag).armed then old(flag).regnum else MDIO_READ, val)
    {
      if flag.armed {
        val := RegRd(flag.regnum);
        events := [Rd(flag.regnum, val)];
        flag := Flag(false, 0);
      } else if Addressed45(regnum) {
        ghost var e1, e2;
        e1 := MmdioSelect(phy, regnum);
        val, e2 := MmdioRead(phy, MMDDATA);
        events := e1 + e2;
        SendsConcat(e1, SelectFrames(phy, regnum), e2, [ReadFrame(phy % 32, MMDDATA)]);
      } else {
        val, events := MmdioRead(phy, regnum);
      }
    }

    /** gpy211_mdio_write of the P31G build. */
    method MdioWrite(smdioAddr: u16, phy: u16, regnum: u32, data: u16) returns (ret: int, ghost events: seq<Event>)
      modifies this
      ensures ret == 0 && log == old(log) + events
      ensures flag == BusWrite(smdioAddr, old(flag), phy, regnum, data).0
      ensures Realises(events, BusWrite(smdioAddr, old(flag), phy, regnum, data).1)
    {
      ret := 0;
      if flag.armed {
        RegWr(flag.regnum, data);
        events := [Wr(flag.regnum, data)];
        flag := Flag(false, 0);
      } else if phy == smdioAddr && regnum == SMDIO_BADR {
        flag := Flag(true, data);
        events := [];
      } else if Addressed45(regnum) {
        ghost var e1, e2;
        e1 := MmdioSelect(phy, regnum);
        e2 := MmdioWrite(phy, MMDDATA, data);
        events := e1 + e2;
        SendsConcat(e1, SelectFrames(phy, regnum), e2, [WriteFrame(phy % 32, MMDDATA, data)]);
      } else {
        events := MmdioWrite(phy, regnum, data);
      }
    }

    /** gpy2xx_smdio_read: the base address write, then the read that it redirects. */
    method SmdioReadCall(a: Addresses, regaddr: u32)
      returns (val: u16, ghost first: seq<Event>, ghost second: seq<Event>)
      modifies this
      ensures log == old(log) + first + second
      ensures Answered(second, if old(flag).armed then MDIO_READ else regaddr % W16, val)
      ensures var (s, e) := CallStep(a, old(flag), SmdioRead(regaddr));
              flag == s && Realises(first, e[0]) && Realises(second, e[1])
    {
      var ret;
      ret, first := MdioWrite(a.smdio, a.smdio, SMDIO_BADR, regaddr % W16);
      val, second := MdioRead(a.smdio, SMDIO_TOFF);
    }

    /** gpy2xx_smdio_write. */
    method SmdioWriteCall(a: Addresses, regaddr: u32, data: u16)
      returns (ret: int, ghost first: seq<Event>, ghost second: seq<Event>)
      modifies this
      ensures log == old(log) + first + second
      ensures var (s, e) := CallStep(a, old(flag), SmdioWrite(regaddr, data));
              flag == s && Realises(first, e[0]) && Realises(second, e[1])
    {
      ret, first := MdioWrite(a.smdio, a.smdio, SMDIO_BADR, regaddr % W16);
      ret, second := MdioWrite(a.smdio, a.smdio, SMDIO_TOFF, data);
    }

    /** gpy2xx_read. */
    method PhyReadCall(a: Addresses, reg: u32) returns (ret: int, ghost events: seq<Event>)
      modifies this
      ensures log == old(log) + events
      ensures reg > 31 ==> ret == -EINVAL && events == []
      ensures reg <= 31 ==> Answered(events, if old(flag).armed then old(flag).regnum else MDIO_READ, ret)
      ensures var (s, e) := CallStep(a, old(flag), PhyRead(reg));
              flag == s && (reg <= 31 ==> Realises(events, e[0]))
    {
      if reg <= 31 {
        ret, events := MdioRead(a.phy, reg);
      } else {
        ret, events := -EINVAL, [];
      }
    }

    /** gpy2xx_read_mmd. */
    method MmdReadCall(a: Addresses, dev: int, reg: u32) returns (ret: int, ghost events: seq<Event>)
      modifies this
      ensures log == old(log) + events
      ensures !KnownDevice(dev) ==> ret == -EINVAL && events == []
      ensures KnownDevice(dev) ==> Answered(events, if old(flag).armed then old(flag).regnum else MDIO_READ, ret)
      ensures var (s, e) := CallStep(a, old(flag), MmdRead(dev, reg));
              flag == s && (KnownDevice(dev) ==> Realises(events, e[0]))
    {
      if KnownDevice(dev) {
        ret, events := MdioRead(a.phy, Packed(dev, reg));
      } else {
        ret, events := -EINVAL, [];
      }
    }

    /** gpy2xx_write_mmd. */
    method MmdWriteCall(a: Addresses, dev: int, reg: u32, data: u16) returns (ret: int, ghost events: seq<Event>)
      modifies this
      ensures log == old(log) + events
      ensures !KnownDevice(dev) ==> ret == -EINVAL && events == []
      ensures var (s, e) := CallStep(a, old(flag), MmdWrite(dev, reg, data));
              flag == s && (KnownDevice(dev) ==> Realises(events, e[0]))
    {
      if KnownDevice(dev) {
        ret, events := MdioWrite(a.smdio, a.phy, Packed(dev, reg), data);
      } else {
        ret, events := -EINVAL, [];
      }
    }

    /** gpy2xx_write. */
    method PhyWriteCall(a: Addresses, reg: u32, data: u16) returns (ret: int, ghost events: seq<Event>)
      modifies this
      ensures log == old(log) + events
      ensures reg > 31 ==> ret == -EINVAL && events == [] && flag == old(flag)
      ensures var (s, e) := CallStep(a, old(flag), PhyWrite(reg, data));
              flag == s && (reg <= 31 ==> Realises(events, e[0]))
    {
      if reg <= 31 {
        ret, events := MdioWrite(a.smdio, a.phy, reg, data);
      } else {
        ret, events := -EINVAL, [];
      }
    }
  }
}
