/** The 16-bit register space behind the slave MDIO, and the read-modify-write helpers every
    driver function goes through.  A machine word is the set of the positions of its one bits,
    so `&` is intersection, `|` is union and `& ~m` is difference. */
module Registers {

  type Word = set<nat>

  /** A register that was never written reads as its reset value, zero. */
  function Peek(regs: map<int, Word>, addr: int): Word {
    if addr in regs then regs[addr] else {}
  }

  function MaskBits(v: Word, mask: Word, bits: Word): Word {
    (v - mask) + bits
  }

  /** The register file as the driver sees it.  Every access may fail; a failed one has
      changed no register. */
  class SmdioBus {
    var regs: map<int, Word>
    /** How many accesses have failed. */
    ghost var refused: nat

    method Read(addr: int) returns (ret: int, val: Word)
      modifies this`refused
      ensures ret <= 0
      ensures ret == 0 ==> val == Peek(regs, addr)
      ensures refused == if ret < 0 then old(refused) + 1 else old(refused)
    {
      ret := *;
      if ret >= 0 {
        ret := 0;
      } else {
        refused := refused + 1;
      }
      val := Peek(regs, addr);
    }

    method Write(addr: int, val: Word) returns (ret: int)
      modifies this
      ensures ret <= 0
      ensures regs == if ret == 0 then old(regs)[addr := val] else old(regs)
      ensures refused == if ret < 0 then old(refused) + 1 else old(refused)
    {
      ret := *;
      if ret >= 0 {
        ret := 0;
        regs := regs[addr := val];
      } else {
        refused := refused + 1;
      }
    }

    method SetMaskBits(addr: int, mask: Word, bits: Word) returns (ret: int)
      modifies this
      ensures ret <= 0
      ensures regs == if ret == 0 then old(regs)[addr := MaskBits(Peek(old(regs), addr), mask, bits)]
                      else old(regs)
      ensures refused == if ret < 0 then old(refused) + 1 else old(refused)
    {
      var val: Word;
      ret, val := Read(addr);
      if ret < 0 {
        return;
      }
      val := val - mask;
      val := val + bits;
      ret := Write(addr, val);
    }

    method SetBit(addr: int, bit: nat) returns (ret: int)
      modifies this
      ensures ret <= 0
      ensures regs == if ret == 0 then old(regs)[addr := Peek(old(regs), addr) + {bit}] else old(regs)
      ensures refused == if ret < 0 then old(refused) + 1 else old(refused)
    {
      ret := SetMaskBits(addr, {}, {bit});
      assert Peek(old(regs), addr) - {} + {bit} == Peek(old(regs), addr) + {bit};
    }

    method ClearBit(addr: int, bit: nat) returns (ret: int)
      modifies this
      ensures ret <= 0
      ensures regs == if ret == 0 then old(regs)[addr := Peek(old(regs), addr) - {bit}] else old(regs)
      ensures refused == if ret < 0 then old(refused) + 1 else old(refused)
    {
      ret := SetMaskBits(addr, {bit}, {});
      assert Peek(old(regs), addr) - {bit} + {} == Peek(old(regs), addr) - {bit};
    }
  }
}
