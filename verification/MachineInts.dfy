/** The C integer types the sources use. */
module MachineInts {
  const W16 := 0x1_0000
  const W32 := 0x1_0000_0000
  const W64 := 0x1_0000_0000_0000_0000

  type u8 = x: int | 0 <= x < 0x100
  type u16 = x: int | 0 <= x < W16
  type u32 = x: int | 0 <= x < W32
  type u64 = x: int | 0 <= x < W64
  type s32 = x: int | -0x8000_0000 <= x < 0x8000_0000
  type s64 = x: int | -0x8000_0000_0000_0000 <= x < 0x8000_0000_0000_0000

  const EINVAL := 22
}
