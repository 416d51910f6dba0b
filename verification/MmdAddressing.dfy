/** How a Clause 45 register is named in one 32-bit word, and the two Clause 22 registers through
    which it can be reached. */
module MmdAddressing {
  import opened MachineInts

  const MII_ADDR_C45 := 0x4000_0000
  const MMDCTRL := 13
  const MMDDATA := 14

  type DevAddr = x: int | 0 <= x < 32

  predicate Addressed45(regnum: u32) {
    regnum / MII_ADDR_C45 % 2 == 1
  }

  function DeviceOf(regnum: u32): DevAddr { regnum / W16 % 32 }

  function RegisterOf(regnum: u32): u16 { regnum % W16 }

  /** The MMDs a caller may name: PMA/PMD, PCS, auto-negotiation and the two vendor devices. */
  predicate KnownDevice(devtype: int) {
    devtype in {0x01, 0x03, 0x07, 0x1E, 0x1F}
  }

  /** MII_ADDR_C45 | (devtype << 16) | (regaddr & 0xffff); the three parts have no bit in common. */
  function Packed(devtype: DevAddr, regaddr: u32): u32 {
    MII_ADDR_C45 + devtype * W16 + regaddr % W16
  }

  lemma PackingIsLossless(devtype: DevAddr, regaddr: u32)
    ensures Addressed45(Packed(devtype, regaddr))
    ensures DeviceOf(Packed(devtype, regaddr)) == devtype
    ensures RegisterOf(Packed(devtype, regaddr)) == regaddr % W16
  {}
}
