/** Access to the registers of a PHY over the management bus: directly with Clause 45 frames, or
    in four Clause 22 frames through the MMD access control and data registers 13 and 14. */
module Mdio {
  import opened MachineInts
  import opened MmdAddressing

  /** A PHY: the MMD access control register, one address register per MMD, the MMD register
      space, and the Clause 22 registers other than 13 and 14.  Absent entries read as zero. */
  datatype Phy = Phy(ctrl: u16, pointer: map<DevAddr, u16>, mmd: map<(DevAddr, u16), u16>, plain: map<int, u16>) {

    function Device(): DevAddr { ctrl % 32 }

    /** Function field: address, data, data with post increment on reads and writes, on writes. */
    function Function(): int { ctrl / 0x4000 }

    function Pointer(): u16 {
      if Device() in pointer then pointer[Device()] else 0
    }

    function Mmd(dev: DevAddr, reg: u16): u16 {
      if (dev, reg) in mmd then mmd[(dev, reg)] else 0
    }

    function PutMmd(dev: DevAddr, reg: u16, val: u16): Phy {
      this.(mmd := mmd[(dev, reg) := val])
    }

    function Advance(): Phy {
      this.(pointer := pointer[Device() := (Pointer() + 1) % W16])
    }

    /** A Clause 22 write frame. */
    function Write22(reg: int, val: u16): Phy {
      if reg == MMDCTRL then this.(ctrl := val)
      else if reg != MMDDATA then this.(plain := plain[reg := val])
      else if Function() == 0 then this.(pointer := pointer[Device() := val])
      else if Function() == 1 then PutMmd(Device(), Pointer(), val)
      else PutMmd(Device(), Pointer(), val).Advance()
    }

    /** What a Clause 22 read frame returns, and the state it leaves. */
    function Read22(reg: int): (u16, Phy) {
      if reg == MMDCTRL then (ctrl, this)
      else if reg != MMDDATA then (if reg in plain then plain[reg] else 0, this)
      else if Function() == 0 then (Pointer(), this)
      else (Mmd(Device(), Pointer()), if Function() == 2 then Advance() else this)
    }
  }

  const ResetPhy := Phy(0, map[], map[], map[])

  // ---- The indirect sequences against a direct access ----

  function Select(p: Phy, dev: DevAddr, reg: u16): Phy {
    p.Write22(MMDCTRL, dev).Write22(MMDDATA, reg).Write22(MMDCTRL, 0x4000 + dev)
  }

  /** From any state whatever, the three selecting writes leave the data register standing for
      exactly register `reg` of `dev`, and have changed neither register space. */
  lemma SelectAims(p: Phy, dev: DevAddr, reg: u16)
    ensures var q := Select(p, dev, reg);
            && q.Device() == dev && q.Function() == 1 && q.Pointer() == reg
            && q.mmd == p.mmd && q.plain == p.plain
  {}

  function ExtWrite(p: Phy, dev: DevAddr, reg: u16, val: u16): Phy {
    Select(p, dev, reg).Write22(MMDDATA, val)
  }

  function ExtRead(p: Phy, dev: DevAddr, reg: u16): (u16, Phy) {
    Select(p, dev, reg).Read22(MMDDATA)
  }

  /** Four Clause 22 frames do what one Clause 45 frame does. */
  lemma ExtendedIsDirect(p: Phy, dev: DevAddr, reg: u16, val: u16)
    ensures ExtWrite(p, dev, reg, val).mmd == p.PutMmd(dev, reg, val).mmd
    ensures ExtWrite(p, dev, reg, val).plain == p.plain
    ensures ExtRead(p, dev, reg).0 == p.Mmd(dev, reg)
    ensures ExtRead(p, dev, reg).1.mmd == p.mmd && ExtRead(p, dev, reg).1.plain == p.plain
  {
    SelectAims(p, dev, reg);
  }

  /** One access of a run; `via22` tells which clause the bus was set to at the time. */
  datatype Access =
    | ReadMmd(via22: bool, dev: DevAddr, reg: u16)
    | WriteMmd(via22: bool, dev: DevAddr, reg: u16, val: u16)
    | ReadPlain(plainReg: int)
    | WritePlain(plainReg: int, val: u16)

  predicate LeavesIndirection(a: Access) {
    (a.ReadPlain? || a.WritePlain?) ==> a.plainReg != MMDCTRL && a.plainReg != MMDDATA
  }

  /** The protocol: the value the access returns (a write returns 0) and the PHY afterwards. */
  function Step(p: Phy, a: Access): (u16, Phy) {
    match a
    case ReadMmd(via22, dev, reg) => if via22 then ExtRead(p, dev, reg) else (p.Mmd(dev, reg), p)
    case WriteMmd(via22, dev, reg, val) => (0, if via22 then ExtWrite(p, dev, reg, val) else p.PutMmd(dev, reg, val))
    case ReadPlain(reg) => p.Read22(reg)
    case WritePlain(reg, val) => (0, p.Write22(reg, val))
  }

  function Run(p: Phy, accesses: seq<Access>): (seq<u16>, Phy)
    decreases accesses
  {
    if accesses == [] then ([], p)
    else
      var (val, q) := Step(p, accesses[0]);
      var (rest, final) := Run(q, accesses[1..]);
      ([val] + rest, final)
  }

  /** The picture a caller has: one table from (device, register) and one from plain register. */
  datatype Tables = Tables(mmd: map<(DevAddr, u16), u16>, plain: map<int, u16>)

  function TableStep(t: Tables, a: Access): (u16, Tables) {
    match a
    case ReadMmd(_, dev, reg) => (if (dev, reg) in t.mmd then t.mmd[(dev, reg)] else 0, t)
    case WriteMmd(_, dev, reg, val) => (0, t.(mmd := t.mmd[(dev, reg) := val]))
    case ReadPlain(reg) => (if reg in t.plain then t.plain[reg] else 0, t)
    case WritePlain(reg, val) => (0, t.(plain := t.plain[reg := val]))
  }

  function TableRun(t: Tables, accesses: seq<Access>): (seq<u16>, Tables)
    decreases accesses
  {
    if accesses == [] then ([], t)
    else
      var (val, u) := TableStep(t, accesses[0]);
      var (rest, final) := TableRun(u, accesses[1..]);
      ([val] + rest, final)
  }

  /** Every run, under any mixture of the two clauses and interleaved with plain register accesses,
      returns what the tables return and leaves the registers the tables say. */
  lemma {:induction false} RunIsTableRun(p: Phy, accesses: seq<Access>)
    requires forall a :: a in accesses ==> LeavesIndirection(a)
    ensures var (vals, q) := Run(p, accesses);
            TableRun(Tables(p.mmd, p.plain), accesses) == (vals, Tables(q.mmd, q.plain))
    decreases accesses
  {
    if accesses != [] {
      var a := accesses[0];
      assert LeavesIndirection(a);
      if a.ReadMmd? || a.WriteMmd? {
        ExtendedIsDirect(p, a.dev, a.reg, if a.WriteMmd? then a.val else 0);
      }
      RunIsTableRun(Step(p, a).1, accesses[1..]);
    }
  }

  // ---- The driver functions ----

  /** The MAC driver behind the ioctl: per PHY address the clause it is set to, and the PHY. */
  class MacBus {
    var clause22: set<int>
    var phys: map<int, Phy>
    /** How many frames have failed. */
    ghost var refused: nat

    function At(addr: int): Phy
      reads this
    {
      if addr in phys then phys[addr] else ResetPhy
    }

    /** MAC_CLI_SET_MDIO_RD: the frame format follows the clause the address is set to; a
        Clause 22 frame carries five register bits and no device.  Failing costs no register. */
    method IoctlRead(dev: DevAddr, addr: int, reg: u16) returns (ret: int)
      modifies this`phys, this`refused
      ensures ret < 0 ==> phys == old(phys)
      ensures refused == if ret < 0 then old(refused) + 1 else old(refused)
      ensures ret >= 0 && addr in clause22 ==>
                ret == old(At(addr)).Read22(reg % 32).0 && phys == old(phys)[addr := old(At(addr)).Read22(reg % 32).1]
      ensures ret >= 0 && addr !in clause22 ==> ret == At(addr).Mmd(dev, reg) && phys == old(phys)
    {
      ret := *;
      if ret >= 0 {
        if addr in clause22 {
          var (val, p) := At(addr).Read22(reg % 32);
          ret := val;
          phys := phys[addr := p];
        } else {
          ret := At(addr).Mmd(dev, reg);
        }
      } else {
        refused := refused + 1;
      }
    }

    /** MAC_CLI_SET_MDIO_WR. */
    method IoctlWrite(dev: DevAddr, addr: int, reg: u16, val: u16) returns (ret: int)
      modifies this`phys, this`refused
      ensures ret <= 0
      ensures phys == if ret < 0 then old(phys)
                      else if addr in clause22 then old(phys)[addr := old(At(addr)).Write22(reg % 32, val)]
                      else old(phys)[addr := old(At(addr)).PutMmd(dev, reg, val)]
      ensures refused == if ret < 0 then old(refused) + 1 else old(refused)
    {
      ret := *;
      if ret >= 0 {
        ret := 0;
        var now := if addr in clause22 then At(addr).Write22(reg % 32, val) else At(addr).PutMmd(dev, reg, val);
        phys := phys[addr := now];
      } else {
        refused := refused + 1;
      }
    }

    /** MAC_CLI_GET_MDIO_CL: 1 for Clause 22, 0 for Clause 45, or -1. */
    method IoctlClause(addr: int) returns (ret: int)
      ensures ret == -1 || ret == if addr in clause22 then 1 else 0
    {
      ret := *;
      ret := if ret < 0 then -1 else if addr in clause22 then 1 else 0;
    }
  }

  /** The first three steps of an extended access.  At an address set to Clause 45 they are not
      framed as intended and land in registers 13 and 14 of device 0. */
  method ExtSelect(bus: MacBus, addr: int, regnum: u32) returns (ret: int)
    modifies bus`phys, bus`refused
    ensures ret <= 0
    ensures ret == 0 && addr in bus.clause22 ==>
              bus.At(addr) == Select(old(bus.At(addr)), DeviceOf(regnum), RegisterOf(regnum))
    ensures addr in bus.clause22 ==> SameRegisters(bus.At(addr), old(bus.At(addr)))
    ensures ret == 0 && addr !in bus.clause22 ==>
              bus.At(addr) == Misframed(old(bus.At(addr)), DeviceOf(regnum), RegisterOf(regnum))
    ensures forall other :: other != addr ==> bus.At(other) == old(bus.At(other))
    ensures bus.refused >= old(bus.refused) && (ret < 0 ==> bus.refused > old(bus.refused))
  {
    var dev: u16, reg: u16 := DeviceOf(regnum), RegisterOf(regnum);
    ret := bus.IoctlWrite(0, addr, MMDCTRL, dev);
    if ret < 0 {
      return;
    }
    ret := bus.IoctlWrite(0, addr, MMDDATA, reg);
    if ret < 0 {
      return;
    }
    ret := bus.IoctlWrite(0, addr, MMDCTRL, 0x4000 + dev);
  }

  predicate SameRegisters(p: Phy, q: Phy) {
    p.mmd == q.mmd && p.plain == q.plain
  }

  /** Exactly the named register is written, if `done`; otherwise no register is. */
  predicate WrittenIf(done: bool, p: Phy, q: Phy, dev: DevAddr, reg: u16, val: u16) {
    q.plain == p.plain && q.mmd == if done then p.mmd[(dev, reg) := val] else p.mmd
  }

  function Misframed(p: Phy, dev: DevAddr, reg: u16): Phy {
    p.PutMmd(0, MMDCTRL, dev).PutMmd(0, MMDDATA, reg).PutMmd(0, MMDCTRL, 0x4000 + dev)
  }

  /** _gpy211_c22extnd_read: at a Clause 22 address it returns the direct value, and no register has
      changed even when a frame fails. */
  method C22ExtRead(bus: MacBus, addr: int, regnum: u32) returns (ret: int)
    modifies bus`phys, bus`refused
    ensures addr in bus.clause22 && ret >= 0 ==> ret == old(bus.At(addr)).Mmd(DeviceOf(regnum), RegisterOf(regnum))
    ensures addr in bus.clause22 ==> SameRegisters(bus.At(addr), old(bus.At(addr)))
    ensures addr !in bus.clause22 && ret >= 0 ==>
              && ret == RegisterOf(regnum)
              && bus.At(addr) == Misframed(old(bus.At(addr)), DeviceOf(regnum), RegisterOf(regnum))
    ensures forall other :: other != addr ==> bus.At(other) == old(bus.At(other))
    ensures bus.refused >= old(bus.refused) && (ret < 0 ==> bus.refused > old(bus.refused))
  {
    ret := ExtSelect(bus, addr, regnum);
    SelectAims(old(bus.At(addr)), DeviceOf(regnum), RegisterOf(regnum));
    if ret < 0 {
      return;
    }
    ret := bus.IoctlRead(0, addr, MMDDATA);
  }

  /** What a misframed write leaves: the named register untouched, unless it is one of the two of device 0
      that are overwritten. */
  function MisframedWrite(p: Phy, dev: DevAddr, reg: u16, val: u16): Phy {
    Misframed(p, dev, reg).PutMmd(0, MMDDATA, val)
  }

  lemma MisframedMisses(p: Phy, dev: DevAddr, reg: u16, val: u16)
    ensures var q := MisframedWrite(p, dev, reg, val);
            && q.Mmd(0, MMDCTRL) == 0x4000 + dev && q.Mmd(0, MMDDATA) == val
            && (forall d: DevAddr, r: u16 :: !(d == 0 && (r == MMDCTRL || r == MMDDATA)) ==> q.Mmd(d, r) == p.Mmd(d, r))
  {}

  /** _gpy211_c22extnd_write: at a Clause 22 address, all or nothing; at a Clause 45 address, success leaves
      a misframed write. */
  method C22ExtWrite(bus: MacBus, addr: int, regnum: u32, val: u16) returns (ret: int)
    modifies bus`phys, bus`refused
    ensures ret <= 0
    ensures addr in bus.clause22 ==>
              WrittenIf(ret == 0, old(bus.At(addr)), bus.At(addr), DeviceOf(regnum), RegisterOf(regnum), val)
    ensures addr !in bus.clause22 && ret == 0 ==>
              bus.At(addr) == MisframedWrite(old(bus.At(addr)), DeviceOf(regnum), RegisterOf(regnum), val)
    ensures forall other :: other != addr ==> bus.At(other) == old(bus.At(other))
    ensures bus.refused >= old(bus.refused) && (ret < 0 ==> bus.refused > old(bus.refused))
  {
    ret := ExtSelect(bus, addr, regnum);
    SelectAims(old(bus.At(addr)), DeviceOf(regnum), RegisterOf(regnum));
    if ret < 0 {
      return;
    }
    ret := bus.IoctlWrite(0, addr, MMDDATA, val);
  }

  /** gpy211_mdio_read.  `answered` tells whether the clause query succeeded.  For a register named the
      Clause 45 way the answer is the register's value under either clause; a failed query is taken
      for Clause 22, which at a Clause 45 address returns the register's own number instead. */
  method MdioRead(bus: MacBus, addr: int, regnum: u32) returns (ret: int, ghost answered: bool)
    modifies bus`phys, bus`refused
    ensures Addressed45(regnum) && (answered || addr in bus.clause22) ==>
              && (ret >= 0 ==> ret == old(bus.At(addr)).Mmd(DeviceOf(regnum), RegisterOf(regnum)))
              && SameRegisters(bus.At(addr), old(bus.At(addr)))
    ensures Addressed45(regnum) && !answered && addr !in bus.clause22 && ret >= 0 ==>
              && ret == RegisterOf(regnum)
              && bus.At(addr) == Misframed(old(bus.At(addr)), DeviceOf(regnum), RegisterOf(regnum))
    ensures regnum < 32 && addr in bus.clause22 && ret >= 0 ==> ret == old(bus.At(addr)).Read22(regnum).0
    ensures regnum < W16 && addr !in bus.clause22 ==>
              bus.phys == old(bus.phys) && (ret >= 0 ==> ret == bus.At(addr).Mmd(0, regnum))
    ensures forall other :: other != addr ==> bus.At(other) == old(bus.At(other))
    ensures bus.refused >= old(bus.refused) && (ret < 0 ==> bus.refused > old(bus.refused))
  {
    var clause := bus.IoctlClause(addr);
    answered := clause >= 0;
    if clause % 256 == 0 {
      ret := bus.IoctlRead(DeviceOf(regnum), addr, RegisterOf(regnum));
    } else if Addressed45(regnum) {
      ret := C22ExtRead(bus, addr, regnum);
    } else {
      ret := bus.IoctlRead(0, addr, regnum % W16);
    }
  }

  /** gpy211_mdio_write.  After a failed clause query, success at a Clause 45 address is a misframed write. */
  method MdioWrite(bus: MacBus, addr: int, regnum: u32, val: u16) returns (ret: int, ghost answered: bool)
    modifies bus`phys, bus`refused
    ensures ret <= 0
    ensures Addressed45(regnum) && (answered || addr in bus.clause22) ==>
              WrittenIf(ret == 0, old(bus.At(addr)), bus.At(addr), DeviceOf(regnum), RegisterOf(regnum), val)
    ensures Addressed45(regnum) && !answered && addr !in bus.clause22 && ret == 0 ==>
              bus.At(addr) == MisframedWrite(old(bus.At(addr)), DeviceOf(regnum), RegisterOf(regnum), val)
    ensures regnum < W16 && addr !in bus.clause22 ==>
              bus.At(addr) == if ret == 0 then old(bus.At(addr)).PutMmd(0, regnum, val) else old(bus.At(addr))
    ensures regnum < 32 && addr in bus.clause22 ==>
              bus.At(addr) == if ret == 0 then old(bus.At(addr)).Write22(regnum, val) else old(bus.At(addr))
    ensures forall other :: other != addr ==> bus.At(other) == old(bus.At(other))
    ensures bus.refused >= old(bus.refused) && (ret < 0 ==> bus.refused > old(bus.refused))
  {
    var clause := bus.IoctlClause(addr);
    answered := clause >= 0;
    if clause % 256 == 0 {
      ret := bus.IoctlWrite(DeviceOf(regnum), addr, RegisterOf(regnum), val);
    } else if Addressed45(regnum) {
      ret := C22ExtWrite(bus, addr, regnum, val);
    } else {
      ret := bus.IoctlWrite(0, addr, regnum % W16, val);
    }
  }

  /** gpy2xx_read_mmd: under either clause, if the clause query answers, the value of the named register and
      nothing changed. */
  method ReadMmdRegister(bus: MacBus, addr: int, devtype: int, regaddr: u32) returns (ret: int, ghost answered: bool)
    modifies bus`phys, bus`refused
    ensures !KnownDevice(devtype) ==> ret == -EINVAL && bus.phys == old(bus.phys)
    ensures KnownDevice(devtype) && (answered || addr in bus.clause22) ==>
              && (ret >= 0 ==> ret == old(bus.At(addr)).Mmd(devtype, regaddr % W16))
              && SameRegisters(bus.At(addr), old(bus.At(addr)))
    ensures KnownDevice(devtype) && !answered && addr !in bus.clause22 && ret >= 0 ==>
              ret == regaddr % W16 && bus.At(addr) == Misframed(old(bus.At(addr)), devtype, regaddr % W16)
    ensures forall other :: other != addr ==> bus.At(other) == old(bus.At(other))
    ensures bus.refused >= old(bus.refused)
    ensures KnownDevice(devtype) && ret < 0 ==> bus.refused > old(bus.refused)
  {
    if KnownDevice(devtype) {
      PackingIsLossless(devtype, regaddr);
      ret, answered := MdioRead(bus, addr, Packed(devtype, regaddr));
    } else {
      ret, answered := -EINVAL, true;
    }
  }

  /** gpy2xx_write_mmd: under either clause, if the clause query answers, exactly the named register changed,
      and only on success. */
  method WriteMmdRegister(bus: MacBus, addr: int, devtype: int, regaddr: u32, val: u16)
    returns (ret: int, ghost answered: bool)
    modifies bus`phys, bus`refused
    ensures !KnownDevice(devtype) ==> ret == -EINVAL && bus.phys == old(bus.phys)
    ensures KnownDevice(devtype) && (answered || addr in bus.clause22) ==>
              WrittenIf(ret == 0, old(bus.At(addr)), bus.At(addr), devtype, regaddr % W16, val)
    ensures KnownDevice(devtype) && !answered && addr !in bus.clause22 && ret == 0 ==>
              bus.At(addr) == MisframedWrite(old(bus.At(addr)), devtype, regaddr % W16, val)
    ensures forall other :: other != addr ==> bus.At(other) == old(bus.At(other))
    ensures bus.refused >= old(bus.refused)
    ensures KnownDevice(devtype) && ret < 0 ==> bus.refused > old(bus.refused)
  {
    if KnownDevice(devtype) {
      PackingIsLossless(devtype, regaddr);
      ret, answered := MdioWrite(bus, addr, Packed(devtype, regaddr), val);
    } else {
      ret, answered := -EINVAL, true;
    }
  }
}
