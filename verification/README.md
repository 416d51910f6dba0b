# Verified models of the GPHY firmware tools and their companions

These Dafny modules model the stateful cores of the repository and prove what each of them is for. Code
that changes registers, lists, buffers or arrays step by step is a class or a method here and is proved
against a function of the old state; what the code promises is then proved of those functions.

| module | what it models |
|---|---|
| `Registers`, `Gpio` | the bit-sliced GPIO registers of the PHY, their writer and their reader |
| `ClockMath`, `PtpClock` | the arithmetic of the PTP clock and the register sequences around it |
| `MmdAddressing`, `Mdio` | register access by Clause 45 frames and by four Clause 22 frames (Annex 22D of IEEE Std 802.3) |
| `UartBridge` | the UART build of the bus, with its armed flag and pending register number |
| `RxChannels`, `RxChannelList` | MACsec receive channels: on values, and as a heap list with pointer-to-pointer deletion |
| `Tokenizer` | the scanner that cuts a command line into words in place |
| `CapProvide` | the capability list matcher, the mask, and the cutting down of the bounding set |
| `MemDump` | the mapped window and the four output forms of the memory tool |
| `KeyBlob` | the aligned layout an RSA key is stored in |
| `FlashWriter` | one page over the mailbox registers, and the download loop |
| `Sweep` | the test sweep over clock dividers and clauses |

`MachineInts` holds the C integer types and `Options` the optional value. Wrap-around and truncation are
written out wherever a C type can overflow.

## What the model assumes

- A GPIO register word is the set of its one bits; other registers are integers of their width.
- A bus access may fail at any step. A failed write has changed nothing; a failed read has no effect. Each
  bus counts its failed accesses, so that a contract can say what happens when none fails.
- The hardware behaves as its register description says: the MMD access control and data registers of
  sections 22.2.4.3.11 and 22.2.4.3.12 of IEEE Std 802.3, the complements of the PTP update registers.
- Allocation, the clause query, polling answers, short file reads and prctl refusals are arbitrary.
- Flash holds a page once the status register has reported it programmed after it was submitted; an erase
  that succeeds empties it. A page submitted and never reported is neither counted nor ruled out.
- The public exponent of an RSA key is the byte sequence the caller hands over. With a key length of four
  the program hands over a buffer of which big-number conversion has filled three bytes, so the sequence
  that is recovered has one indeterminate byte.
- The wrapped private exponent is eight bytes longer than the plain one (section 2.2.1 of RFC 3394).

## Where the code departs from its intent

The models follow the code. These departures are part of what is proved:

- The PTP busy poll never reports a timeout (`PtpClock.ClockPort.IsRwDone`).
- Frequency adjustment refuses every negative ppb, because the comparison is unsigned, and accepts values
  whose addend does not fit 32 bits (`PtpClock.AdjFreq`; exact threshold in `ClockMath.AddendFits`).
- A PPS interval or width shorter than a clock unit is silently not programmed (`PtpClock.SetPps`).
- The 8-bit sub-second fields wrap for clocks with ticks of 256 ns and more, and for fractions of 0.999 ns
  and more (`ClockMath.IncrementAccuracy`).
- A failed clause query is taken for Clause 22. At a Clause 45 address a read then answers the register's
  own number, a write misses its register and still succeeds, and both overwrite registers 13 and 14 of
  device 0 (`Mdio.MdioRead`, `Mdio.MdioWrite`).
- In the UART build a write of PHY register 31 arms the internal flag when the PHY shares the slave MDIO
  address (`UartBridge.CallFromClear`, `UartBridge.CollisionMisroutes`).
- The receive-channel lookup never gets past the second channel, its NULL answer is followed, an addition
  with ACTIVE=0 is counted as active, and a refused or failed association keeps its slot (`RxChannels`).
- A carriage return ends a command line only right after a letter; elsewhere it is skipped as a blank
  (`Tokenizer.WordsAreMaximalRuns`).
- The character right after a separating comma is never looked at: an empty field in a capability list
  swallows the next one, a wrong character there is not refused, and a list that ends in an odd number of
  commas is read past its end by every comparison that no earlier field decides (`CapProvide.MembershipExactly`, `CapProvide.OverrunExactly`).
  Capabilities above CAP_LAST_CAP are never dropped.
- A memory range larger than a page shrinks the mapping but not the loops (`MemDump.ReadsStayMapped`).
- A short file read ends a download without the reset, and with success when errno is 0
  (`FlashWriter.Phy.FastWrite`). The last page is padded with ones, where gphy_fw_update/src/src/inc/gpy211.h:4382-4383
  asks for zeros. A page found programmed by the last allowed poll counts as a timeout, so a failed
  download may have stored the page it failed at (`FlashWriter.FailedPage`).
- A sweep started at divider 5, which its usage text allows, never changes its setting
  (`Sweep.SkippedSettings`).

## Model

| member | source | states |
|---|---|---|
| Registers.SmdioBus.SetMaskBits | gphy_fw_update/src/src/inc/gpy211_common.h:79-96 | read, clear `clr`, set `set`, write: on success exactly those bits changed, on failure no register did |
| Gpio.WriteBitDecides | gphy_fw_update/src/src/api/phy/gpy211_chip.c:95-247 | one read-modify-write changes one setting of one pin: slices and ports do not leak into each other |
| Gpio.ConfigWritesDistinct | gphy_fw_update/src/src/api/phy/gpy211_chip.c:95-247 | a configuration never writes one register bit of its pin twice |
| Gpio.ConfigureBit | gphy_fw_update/src/src/api/phy/gpy211_chip.c:95-247 | every register bit of the pin ends as the flags ask, or stays where they do not speak of it |
| Gpio.ConfigureRefines | gphy_fw_update/src/src/api/phy/gpy211_chip.c:95-247 | on the table from pin to settings a configuration replaces the settings of its pin and nothing else |
| Gpio.OtherPinsKept | gphy_fw_update/src/src/api/phy/gpy211_chip.c:95-454 | no prefix of the writes for one pin is seen by another pin |
| Gpio.ReadBack | gphy_fw_update/src/src/api/phy/gpy211_chip.c:249-409 | gpio_get inverts gpio_cfg: the flags decoded from a configured pin are the flags it was configured with |
| Gpio.RunRefines | gphy_fw_update/src/src/api/phy/gpy211_chip.c:95-454 | over every run of accepted gpio_cfg and gpio_output calls the bit-sliced registers refine the table from pin to settings |
| Gpio.LastConfigWins | gphy_fw_update/src/src/api/phy/gpy211_chip.c:95-454 | main result: after any run, reading a pin gives the flags of its last gpio_cfg, and for an output the level of the last gpio_output since, whatever was done to other pins |
| Gpio.FailedConfigIsLocal | gphy_fw_update/src/src/api/phy/gpy211_chip.c:95-247 | a refused or failed configuration leaves all other pins as they were |
| Gpio.GpioCfg | gphy_fw_update/src/src/api/phy/gpy211_chip.c:95-247 | success performs the whole list of bit writes; failure a prefix of it; a bad pin or pull code is an error, and pins 0 to 18 with a valid pull code are accepted unless an access fails |
| Gpio.ConfiguredLine | gphy_fw_update/src/src/api/phy/gpy211_chip.h:42-108 | after a configuration, address by address, the direction, level, open drain and pull registers hold the bits the flags ask for, of the right polarity |
| Gpio.ConfiguredPads | gphy_fw_update/src/src/api/phy/gpy211_chip.h:42-108 | the same for function, pad strength and slew rate |
| Gpio.PullConfig | gphy_fw_update/src/src/api/phy/gpy211_chip.c:150-190 | an unknown pull code is refused with exactly the writes of direction and open drain done |
| Gpio.GpioGet | gphy_fw_update/src/src/api/phy/gpy211_chip.c:249-409 | returns the flags the registers stand for, for every pin from 0 to 18 unless an access fails |
| Gpio.GpioOutput | gphy_fw_update/src/src/api/phy/gpy211_chip.c:411-454 | changes the output level register of the pin only, whatever its direction, and fails for no other reason than a bad pin or a failed access |
| ClockMath.LongDivide | gphy_fw_update/src/src/api/phy/gpy211_chip.c:954-973 | quotient and remainder of the two-step division are exact for all 64-bit dividends, and the second hardware division cannot overflow |
| ClockMath.DivU64Rem | gphy_fw_update/src/src/api/phy/gpy211_chip.c:954-973 | the function returns the quotient modulo 2^32, which is the quotient when it fits |
| ClockMath.DefAddendBound | gphy_fw_update/src/src/api/phy/gpy211_chip.c:2427-2438 | the unadjusted addend is at most 2^31 - 1, with equality for every even clock |
| ClockMath.AddendExact | gphy_fw_update/src/src/api/phy/gpy211_chip.c:2427-2447 | which addend it is: both divisions round down |
| ClockMath.AddendFits | gphy_fw_update/src/src/api/phy/gpy211_chip.c:2440-2447 | the addend fits its 32-bit register if and only if ppb is below a threshold computed from the clock alone |
| ClockMath.AddendLimit | gphy_fw_update/src/src/api/phy/gpy211_chip.c:2440-2447 | ppb up to 500000000 always fits, and for an even clock that is exactly the limit |
| ClockMath.AddendMonotone | gphy_fw_update/src/src/api/phy/gpy211_chip.c:2440-2447 | a larger ppb never gives a smaller addend |
| ClockMath.AddendAccuracy | gphy_fw_update/src/src/api/phy/gpy211_chip.c:2440-2447 | the addend is never below floor(def*(1e9+ppb)/1e9) and exceeds it by less than def*ppb^2/(1e9*(1e9-ppb)) + 1 |
| ClockMath.ConversionsExact | gphy_fw_update/src/src/api/phy/gpy211_chip.c:1927-1977 | which unit count and which time it is: both conversions round down |
| ClockMath.QuantisationLoss | gphy_fw_update/src/src/api/phy/gpy211_chip.c:1927-1977 | programming an interval and reading it back loses less than one clock unit plus one nanosecond and never gains |
| ClockMath.Reprogramming | gphy_fw_update/src/src/api/phy/gpy211_chip.c:2203-2233 | programming the value read back lowers the unit count by at most one for every clock up to 1 GHz |
| ClockMath.UnitsRange | gphy_fw_update/src/src/api/phy/gpy211_chip.c:1927-1977 | no intermediate value of the interval arithmetic overflows its C type |
| ClockMath.ZeroUnits | gphy_fw_update/src/src/api/phy/gpy211_chip.c:1927-1933 | the unit count is zero exactly for intervals shorter than a clock unit |
| ClockMath.OneUnitReprogrammed | gphy_fw_update/src/src/api/phy/gpy211_chip.c:2203-2233 | a one-unit interval is lost when read and programmed again if and only if the clock does not divide 1 GHz |
| ClockMath.IncrementAccuracy | gphy_fw_update/src/src/api/phy/gpy211_chip.c:1084-1121 | the programmed tick is within 1/256 ns of the real one if and only if neither 8-bit field wraps |
| PtpClock.ClockPort.IsRwDone | gphy_fw_update/src/src/api/phy/gpy211_chip.c:22-42 | the busy poll always answers success, after any number of busy or failing reads |
| PtpClock.PairHalves | gphy_fw_update/src/src/api/phy/gpy211_chip.c:1281-1292 | the low register of a pair holds the low half of its 32-bit value, the high register the high half |
| PtpClock.ClockPort.WritePair | gphy_fw_update/src/src/api/phy/gpy211_chip.c:1281-1292 | on success the low half is in the low register and the high half in the high one |
| PtpClock.ClockPort.ReadPair | gphy_fw_update/src/src/api/phy/gpy211_chip.c:2140-2158 | the value read has the low register as its low half and the high one as its high half |
| PtpClock.AddSubIsFree | gphy_fw_update/src/src/api/phy/gpy211_chip.c:1260-1313 | no nanosecond value that can be programmed reaches the ADDSUB bit |
| PtpClock.UpdateDecodes | gphy_fw_update/src/src/api/phy/gpy211_chip.c:1260-1313 | undoing the complements to 2^32 and 10^9 recovers sign, seconds and nanoseconds, zero included |
| PtpClock.UpdateSystime | gphy_fw_update/src/src/api/phy/gpy211_chip.c:1228-1340 | success leaves the four halves and the sign bit asking for exactly the signed magnitude and triggers the update; otherwise the trigger is untouched; valid nanoseconds are accepted unless an access fails |
| PtpClock.AdjTime | gphy_fw_update/src/src/api/phy/gpy211_chip.c:2493-2538 | every delta of less than a day in either direction is accepted unless an access fails, and the four halves then ask for exactly delta; any other 64-bit delta writes nothing |
| PtpClock.SetAddend | gphy_fw_update/src/src/api/phy/gpy211_chip.c:1342-1405 | without fine update or with a zero addend nothing is written; otherwise the two halves hold the addend, unless an access fails |
| PtpClock.AdjFreq | gphy_fw_update/src/src/api/phy/gpy211_chip.c:2411-2460 | ppb outside 0..1e9-1 is refused with nothing written; any other is accepted unless an access fails and programs the exact addend modulo 2^32, exact up to 500000000 |
| PtpClock.SetPps | gphy_fw_update/src/src/api/phy/gpy211_chip.c:1818-1977 | bad output selections and times are refused with nothing written and all others accepted unless an access fails; on success control word, target time, interval and width registers are programmed; an interval or width below one unit leaves its register and is reported as success |
| PtpClock.GetPps | gphy_fw_update/src/src/api/phy/gpy211_chip.c:2109-2233 | returns the target time and the nanoseconds of both unit registers with the wrap-around of each C type |
| PtpClock.PpsSurvives | gphy_fw_update/src/src/api/phy/gpy211_chip.c:2203-2233 | set then get returns I with I <= interval and (interval - I)*clock < 1e9 + clock, nothing wrapping on the way |
| PtpClock.QuartersOf | gphy_fw_update/src/src/api/phy/gpy211_chip.c:976-1082 | four 16-bit quarters of any signed 64-bit time compose to that time again |
| PtpClock.SetOscTime | gphy_fw_update/src/src/api/phy/gpy211_chip.c:976-1025 | on success the four registers hold the quarters of the signed time, lowest first |
| PtpClock.GetOscTime | gphy_fw_update/src/src/api/phy/gpy211_chip.c:1027-1082 | returns the signed time the four registers stand for |
| PtpClock.SetSubSecondIncrement | gphy_fw_update/src/src/api/phy/gpy211_chip.c:1084-1121 | both increment registers hold whole nanoseconds and 256ths, each cut to eight bits; a zero clock is refused |
| MmdAddressing.PackingIsLossless | gphy_fw_update/src/src/inc/gpy211.h:3053-3108 | device and register survive being packed into one Clause 45 register number |
| Mdio.SelectAims | gphy_fw_update/src/utility/fmx_auto/gpy2xx_mdio.c:97-126 | from any PHY state the three selecting frames aim the data register at exactly the named register and change no register space |
| Mdio.ExtendedIsDirect | gphy_fw_update/src/utility/fmx_auto/gpy2xx_mdio.c:97-161 | the four-frame access has the same result and effect as one direct Clause 45 access |
| Mdio.RunIsTableRun | gphy_fw_update/src/utility/fmx_auto/gpy2xx_mdio.c:48-223 | main result: every run of accesses, under any mixture of clauses and plain accesses, agrees with one table from (device, register) to value |
| Mdio.C22ExtRead | gphy_fw_update/src/utility/fmx_auto/gpy2xx_mdio.c:97-126 | returns the direct value and changes no register even when a frame fails; at a Clause 45 address it returns the register number and overwrites registers 13 and 14 of device 0 |
| Mdio.C22ExtWrite | gphy_fw_update/src/utility/fmx_auto/gpy2xx_mdio.c:128-161 | at a Clause 22 address all or nothing; at a Clause 45 address success leaves the named register and overwrites registers 13 and 14 of device 0 |
| Mdio.MisframedMisses | gphy_fw_update/src/utility/fmx_auto/gpy2xx_mdio.c:128-161 | such a write changes no other register, the named one included |
| Mdio.MdioRead | gphy_fw_update/src/utility/fmx_auto/gpy2xx_mdio.c:163-192 | if the clause query answers, a Clause 45 register number reads its register under either clause; a failed query at a Clause 45 address answers the register number and overwrites registers 13 and 14 of device 0; a plain number reads the plain register, at a Clause 45 address that of device 0 |
| Mdio.MdioWrite | gphy_fw_update/src/utility/fmx_auto/gpy2xx_mdio.c:194-223 | if the clause query answers, exactly the named register is written under either clause, and only on success; a failed query at a Clause 45 address misses it and reports success; a plain number writes the plain register, at a Clause 45 address that of device 0; the PHYs at other addresses never change |
| Mdio.ReadMmdRegister | gphy_fw_update/src/src/inc/gpy211.h:3053-3085 | unknown devices are refused; if the clause query answers, the value of the named register and no register changed; if it fails at a Clause 45 address, the register number |
| Mdio.WriteMmdRegister | gphy_fw_update/src/src/inc/gpy211.h:3087-3108 | unknown devices are refused; if the clause query answers, exactly the named register changed, on success only; if it fails at a Clause 45 address, success means a missed write |
| UartBridge.ControlWordDecodes | gphy_fw_update/src/utility/pc/user_uart_interface.c:91-163 | operation, PHY and register are recovered from the control word that packs them |
| UartBridge.TransactionSends | gphy_fw_update/src/utility/pc/user_uart_interface.c:91-163 | the polls, data and control accesses of one transaction put exactly one frame on the wire |
| UartBridge.CallFromClear | gphy_fw_update/src/utility/pc/user_uart_interface.c:196-307 | from a clear flag a driver call does what is meant and leaves the flag clear if and only if it is not a write of PHY register 31 to the slave MDIO address |
| UartBridge.CollisionMisroutes | gphy_fw_update/src/utility/pc/user_uart_interface.c:279-285 | after that one call the next PHY read is answered from an unrelated UART register |
| UartBridge.RunAsIntended | gphy_fw_update/src/utility/pc/user_uart_interface.c:196-307 | main result: a run of calls leaves the flag clear and does what is meant (each internal access reaches its own register once, no PHY access consumes a pending address) if and only if that one call is not in it |
| UartBridge.Uart.IsDeviceBusy | gphy_fw_update/src/utility/pc/user_uart_interface.c:64-89 | polls until the busy bit is clear, a hundred times at most, and fails exactly if it never was |
| UartBridge.Uart.MdioRead | gphy_fw_update/src/utility/pc/user_uart_interface.c:165-245 | state and wire follow the flag machine: a pending address redirects the read, otherwise the frames of the register; the value is what the last access, to that address or to the read register, was answered |
| UartBridge.Uart.MdioWrite | gphy_fw_update/src/utility/pc/user_uart_interface.c:247-330 | the same for writes, and the base address write arms the flag without touching the wire |
| UartBridge.Uart.SmdioReadCall | gphy_fw_update/src/src/inc/gpy211.h:2931-2962 | an internal register read is the arming write followed by the redirected read, and returns what the named register answered |
| UartBridge.Uart.PhyReadCall | gphy_fw_update/src/src/inc/gpy211.h:2995-3021 | register numbers above 31 are refused before the bus; others follow the flag machine and return what was answered |
| UartBridge.Uart.MmdReadCall | gphy_fw_update/src/src/inc/gpy211.h:3053-3085 | unknown devices are refused before the bus; others follow the flag machine and return what was answered |
| UartBridge.Uart.SmdioWriteCall | gphy_fw_update/src/src/inc/gpy211.h:2964-2993 | an internal register write is the arming write followed by the redirected write |
| UartBridge.Uart.PhyWriteCall | gphy_fw_update/src/src/inc/gpy211.h:3023-3051 | register numbers above 31 are refused before the bus; others follow the flag machine |
| RxChannels.FindEndsExactly | gphy_fw_update/src/example/macsec_driver/gpy211_gennl.c:161-171 | the lookup as written ends if and only if the list has fewer than two channels or a match among the first two |
| RxChannels.FindIsFirst | gphy_fw_update/src/example/macsec_driver/gpy211_gennl.c:161-171 | when it ends it answers the first match, or none |
| RxChannels.WalkFinds | gphy_fw_update/src/example/macsec_driver/gpy211_gennl.c:294-296 | the walk the deletion uses ends for every list with the first match, or none |
| RxChannels.StepCounts | gphy_fw_update/src/example/macsec_driver/gpy211_gennl.c:280-304 | each command changes counter and active channels by the same amount, except an addition asking for an inactive channel |
| RxChannels.CounterDrift | gphy_fw_update/src/example/macsec_driver/gpy211_gennl.c:1016-1022 | main result: over every run the counter exceeds the active channels by the number of additions with ACTIVE=0, modulo 2^32 |
| RxChannels.CounterExact | gphy_fw_update/src/example/macsec_driver/gpy211_gennl.c:573-580 | the counter is exact if and only if no addition carried ACTIVE=0 (runs of fewer than 2^32 commands) |
| RxChannels.NoUnderflow | gphy_fw_update/src/example/macsec_driver/gpy211_gennl.c:298-304 | no deletion or deactivation of an active channel decrements a zero counter |
| RxChannels.DeleteContents | gphy_fw_update/src/example/macsec_driver/gpy211_gennl.c:290-306 | a deletion removes exactly the first channel with the identifier, if there is one, and keeps the order of the others |
| RxChannels.StepContents | gphy_fw_update/src/example/macsec_driver/gpy211_gennl.c:260-306 | each command puts one identifier in front, takes one out, or leaves them |
| RxChannels.ContentsOverRuns | gphy_fw_update/src/example/macsec_driver/gpy211_gennl.c:260-306 | main result: over every run the identifiers in the list and those successfully deleted are together those added, and the list has them in the order of the additions, most recent first |
| RxChannels.AddAnswered | gphy_fw_update/src/example/macsec_driver/gpy211_gennl.c:997-1026 | a valid addition puts a channel without associations in front, active unless it asks not to be, and counts it; an invalid one is refused |
| RxChannels.UpdateAnswered | gphy_fw_update/src/example/macsec_driver/gpy211_gennl.c:540-584 | an update that finds its channel sets its flag, moves the counter by the difference and changes nothing else; every other answer leaves the state alone |
| RxChannels.DeleteAnswered | gphy_fw_update/src/example/macsec_driver/gpy211_gennl.c:586-618 | a deletion takes its channel out of the list and out of the count if it was active; every other answer leaves the state alone |
| RxChannels.AssociationAnswered | gphy_fw_update/src/example/macsec_driver/gpy211_gennl.c:793-995 | an association takes its slot and nothing else changes, whether it then succeeds or fails; a taken slot is refused |
| RxChannels.AssociationAgain | gphy_fw_update/src/example/macsec_driver/gpy211_gennl.c:860-947 | so after a request that reached its slot, successful or not, the same slot is answered busy and nothing changes any more |
| RxChannelList.Secy.CreateRxSc | gphy_fw_update/src/example/macsec_driver/gpy211_gennl.c:260-288 | on the heap: the new channel is linked at the head, the chain stays acyclic, the counter goes up |
| RxChannelList.Secy.FindLink | gphy_fw_update/src/example/macsec_driver/gpy211_gennl.c:294-296 | the pointer walk stops at the first match and at the link that leads to it |
| RxChannelList.Secy.Unlink | gphy_fw_update/src/example/macsec_driver/gpy211_gennl.c:296-304 | writing through that link removes exactly this node, at the head or inside, and keeps the chain acyclic |
| RxChannelList.Secy.DelRxSc | gphy_fw_update/src/example/macsec_driver/gpy211_gennl.c:290-306 | the heap deletion refines the deletion on values and returns the removed node |
| RxChannelList.Secy.FindRxSc | gphy_fw_update/src/example/macsec_driver/gpy211_gennl.c:161-171 | the heap lookup, advance for advance, is the lookup on values |
| RxChannelList.EndsWithin | gphy_fw_update/src/example/macsec_driver/gpy211_gennl.c:161-171 | one advance of the cursor settles whether the lookup ever ends, and with what |
| RxChannelList.Secy.AddRxscCommand | gphy_fw_update/src/example/macsec_driver/gpy211_gennl.c:997-1026 | refines the command on values, or fails for memory with nothing changed, exactly if an allocation failed |
| RxChannelList.Secy.UpdRxscCommand | gphy_fw_update/src/example/macsec_driver/gpy211_gennl.c:540-584 | refines the command on values, with the endless lookup and the NULL access as answers of their own |
| RxChannelList.Secy.DelRxscCommand | gphy_fw_update/src/example/macsec_driver/gpy211_gennl.c:586-618 | refines the command on values |
| RxChannelList.Secy.AddRxsaCommand | gphy_fw_update/src/example/macsec_driver/gpy211_gennl.c:793-995 | refines the command on values, with the errors before and after the slot is taken; on success the slot holds an association that points back to its channel, as every occupied slot does |
| Tokenizer.SplitBuffer | gphy_fw_update/src/utility/fmx/gpy2xx_fw_dl.c:557-611 | terminates on every C string; the parameters are the first words of the line in order, as many as fit, and the buffer is the line with a NUL after each |
| Tokenizer.WordsAreMaximalRuns | gphy_fw_update/src/utility/fmx/gpy2xx_fw_dl.c:557-611 | main result: the words are exactly the maximal runs of non-blank characters before the end of the line, for every line |
| Tokenizer.WordsOfCharacters | gphy_fw_update/src/utility/fmx/gpy2xx_fw_dl.c:549-611 | the same on characters: runs of anything but blank, tab, carriage return and newline, up to the first newline or carriage return that follows such a run |
| Tokenizer.WordsInOrder | gphy_fw_update/src/utility/fmx/gpy2xx_fw_dl.c:557-611 | the words come in line order, apart from one another and counted without gaps |
| Tokenizer.LimitIsNewline | gphy_fw_update/src/utility/fmx/gpy2xx_fw_dl.c:590-606 | without carriage returns the line ends at its first newline or NUL |
| Tokenizer.ParameterIsWord | gphy_fw_update/src/utility/fmx/gpy2xx_fw_dl.c:590-606 | read as a C string from its parameter, the edited buffer holds the word and nothing else |
| Tokenizer.CutAt | gphy_fw_update/src/utility/fmx/gpy2xx_fw_dl.c:590-606 | the edited buffer differs from the line by the NULs at word ends only |
| CapProvide.CapCmp | cap_provide/src/cap_provide.c:93-129 | the character walk compares the name with the fields it sees, one after the other, for every list |
| CapProvide.SplitJoins | cap_provide/src/cap_provide.c:93-129 | the comma split joined by commas is the list |
| CapProvide.NameCharacters | cap_provide/src/cap_provide.c:98-101 | name characters are the lower-case letters and the underscore |
| CapProvide.SeesTheSplit | cap_provide/src/cap_provide.c:93-129 | the fields seen are those of the comma split if and only if no field after the first is empty |
| CapProvide.CompareIsSeen | cap_provide/src/cap_provide.c:93-129 | when nothing in the fields seen is wrong, the outcome is membership in them, or the overrun |
| CapProvide.NoLaterEmptyField | cap_provide/src/cap_provide.c:93-129 | no field after the first is empty if and only if every comma is followed by a character that is not a comma |
| CapProvide.MembershipExactly | cap_provide/src/cap_provide.c:93-129 | main result: the comparison is membership in the comma split, for every non-empty name, if and only if every comma is followed by another character and every character not right after a comma is a name character or a comma |
| CapProvide.EmptyFieldLosesNext | cap_provide/src/cap_provide.c:103-110 | "a,,b" does not name b |
| CapProvide.OverrunExactly | cap_provide/src/cap_provide.c:93-129 | the walk can run past the end if and only if the list ends in an odd number of commas |
| CapProvide.CompareOverruns | cap_provide/src/cap_provide.c:93-129 | a comparison does so if and only if nothing before is wrong, the name is not found, and the list ends in an odd number of commas |
| CapProvide.BuildMask | cap_provide/src/cap_provide.c:262-268 | for every list: main exits if and only if some comparison does, and otherwise the mask is what the comparisons match; for a well-formed list exactly the named capabilities, all of them for cap_all |
| CapProvide.Process.CapsSet | cap_provide/src/cap_provide.c:76-89 | nothing to be kept is dropped; with no drop refused no other known capability is left |
| CapProvide.Process.RaiseAndDrop | cap_provide/src/cap_provide.c:347-372 | exactly the wanted capabilities are raised, the rest dropped, and CAP_SETPCAP is dropped last of all or not at all |
| CapProvide.Process.Confine | cap_provide/src/cap_provide.c:283-372 | with no drop refused the known part of the bounding set is the initial one intersected with the request; the first pass drops neither what is wanted nor what the second needs; capabilities above CAP_LAST_CAP stay |
| CapProvide.Process.LimitTo | cap_provide/src/cap_provide.c:262-372 | from the list to the bounding set: exactly the named capabilities are left of those there were, with the calls in that order |
| MemDump.ReadsStayMapped | memutil/src/mem.c:123-150 | a form reads inside the mapped window if and only if the bytes needed fit in a page, or the start is inside its page and they fit in two |
| MemDump.ByteLines | memutil/src/mem.c:208-213 | the bytes from the start on, each at its own address, reading exactly that far |
| MemDump.ByteTable | memutil/src/mem.c:215-248 | the table shows the same addressed bytes in the same order, row by row, and reads no further than the last one |
| MemDump.WordLines | memutil/src/mem.c:254-264 | the words from the word of the start on, each at its own address |
| MemDump.WordTable | memutil/src/mem.c:266-303 | the same words for an aligned start, and one more at the end otherwise |
| MemDump.CellsAreAddressed | memutil/src/mem.c:188-305 | every value shown is the memory content at the address it is shown for, in address order |
| MemDump.TableShowsTheLines | memutil/src/mem.c:188-305 | table and line form agree: for bytes, for words with an aligned start, and up to one trailing word otherwise |
| MemDump.Dump | memutil/src/mem.c:188-305 | what is printed, mapped and touched in each of the four forms; nothing outside the window when the range fits in a page |
| KeyBlob.Store | seccrypto_service_app/src/seccrypto_client.c:371-409 | no write leaves the allocated buffer; byte by byte, each length lowest byte first and each number behind it, the public exponent of four bytes backwards; the second and third number at the next multiple of four in memory; a reader that follows lengths and alignment recovers all three |
| KeyBlob.AlignedIsMultiple | seccrypto_service_app/src/seccrypto_client.c:40-43 | the aligned address is a multiple of four, and the nearest |
| KeyBlob.StoreNumbers | seccrypto_service_app/src/seccrypto_client.c:382-409 | each number is at its place with its length, the second and third at a multiple of four, and the header below is untouched |
| KeyBlob.StorePrivate | seccrypto_service_app/src/seccrypto_client.c:397-404 | writing the value before its length, as wrapping demands, gives the same layout |
| KeyBlob.BytesKeepTheValue | seccrypto_service_app/src/seccrypto_client.c:383-384 | a length is recovered from its bytes |
| KeyBlob.ReversedTwice | seccrypto_service_app/src/seccrypto_client.c:385-388 | reversing the one-word public exponent again restores it |
| KeyBlob.BlobFits | seccrypto_service_app/src/seccrypto_client.c:371-374 | alignment takes at most six of the twelve spare bytes, wrapped or not |
| KeyBlob.DecodeElsewhere | seccrypto_service_app/src/seccrypto_client.c:40-43 | a reader whose copy is aligned alike reads the same key |
| FlashWriter.WordsCarryTheBytes | gphy_fw_update/src/src/api/phy/gpy211_phy.c:4199-4213 | the first n data and command words carry the first 2n bytes of a page in order |
| FlashWriter.PageOutcome | gphy_fw_update/src/src/api/phy/gpy211_phy.c:4163-4249 | however far sending a page gets, the flash grows by it if and only if the last poll reported it, and it is submitted but unreported if and only if the control bit went out and the last poll did not |
| FlashWriter.Phy.FwrPage | gphy_fw_update/src/src/api/phy/gpy211_phy.c:4163-4249 | whatever it answers, its accesses are the control read and a prefix of the opening writes, or all of them, the control bit and the polls; only the lowest bit of the control word is changed; success if and only if the page was submitted and reported by a poll before the last allowed one, and failure only by a failed access or a timeout |
| FlashWriter.Phy.AwaitProgrammed | gphy_fw_update/src/src/api/phy/gpy211_phy.c:4226-4247 | success if and only if a poll before the last allowed one finds the page programmed; found by the last it is a timeout |
| FlashWriter.Phy.FastWrite | gphy_fw_update/src/utility/fmx/gpy2xx_fw_dl.c:356-545 | every course a download can take, with its accesses; it returns 0 if and only if it finished and was reset, or a read fell short with errno 0, a negative code otherwise; it fails only by a failed call, access or read, or a page that timed out |
| FlashWriter.FinishedStoresTheImage | gphy_fw_update/src/utility/fmx/gpy2xx_fw_dl.c:436-466 | a finished download has left the image in flash, padded with 0xFF to whole pages, whatever was there before |
| FlashWriter.ShortReadStoresAPrefix | gphy_fw_update/src/utility/fmx/gpy2xx_fw_dl.c:440-450 | a download that ends at a short read has left exactly the pages before it in flash |
| FlashWriter.FailedPage | gphy_fw_update/src/utility/fmx/gpy2xx_fw_dl.c:451-459 | main result: a download that fails at page k has left the first k-1 pages in flash, or those and page k, the latter if and only if page k was submitted and the very last poll reported it; whether the device will yet program it is open if and only if it was submitted and not reported |
| FlashWriter.PagesBetweenEraseAndReset | gphy_fw_update/src/utility/fmx/gpy2xx_fw_dl.c:417-520 | pages are sent only after a successful erase and before the reset; after a successful erase the reset follows in every course but the short read |
| Sweep.Tester.Change | gphy_fw_update/src/utility/fmx/gpy2xx_fw_dl.c:1068-1135 | the eleven branches take the setting of one iteration to that of the next |
| Sweep.Tester.Run | gphy_fw_update/src/utility/fmx/gpy2xx_fw_dl.c:847-1190 | iteration k of an unaborted sweep runs with divider (start + (k-1)/50) mod 6, register 0x204 at divider<<19, and the given clause for the settings up to the sixth and its negation after; the registers are reset at the end |
| Sweep.FullSweep | gphy_fw_update/src/utility/fmx/gpy2xx_fw_dl.c:847-1190 | the default 600 iterations from divider 0 use each of the twelve settings exactly 50 times |
| Sweep.SkippedSettings | gphy_fw_update/src/utility/fmx/gpy2xx_fw_dl.c:1068-1135 | dividers below another start never meet the given clause, and a start at 5 never changes |

## Left out

- Registers.SmdioBus.SetMaskBits: works on words as sets of bits, so arithmetic on register words is not modelled.
- Gpio.LastConfigWins: does not speak of the INPUT_HIGH flag, which the pin's environment decides.
- RxChannels.CounterExact: is for runs of fewer than 2^32 commands, where the counter cannot wrap.
- Gpio input (gpio_input reads one register), and the LED, PTO and timestamp-control copies: the GPIO pattern with fewer registers.
- Setting and reading the PTP time and the auxiliary FIFO reset: register copies, or mailbox calls not shown.
- The mailbox, gpy2xx_init, flash erase and reset beyond their return codes: firmware decides what they do.
- PtpClock.SetPps: ends before the pin multiplexer, whose registers are reached through the mailbox.
- Indirect PM register access of the UART build: a fixed sequence of internal register calls, each of which is modelled.
- MACsec hardware programming, transmit associations and secret handling: attribute copying and kernel calls.
- Freeing a removed receive channel and its associations: the heap here is garbage collected.
- The signature file writer and reader: they store a structure with its pointer, a layout only the compiler knows.
- The key blob's header fields, and a failing key wrap: the first are copied values, the second is OpenSSL's answer.
- User and group lookup, capset and the kernel's rules for ambient capabilities: outside the program.
- Writing memory, addresses above 32 bits and ranges whose byte count overflows int.
- The sweep when a bus error aborts it, and the build variants for testing.
- Locks, delays, printing, argument parsing and the progress of hardware between accesses.
