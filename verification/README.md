# PULSE firmware: a verified model

PULSE is the firmware of a monitoring board: an nRF52 with an ENC28J60 Ethernet
chip, a WINC1500 Wi-Fi chip, DS18B20 and HTU21D sensors, settings in flash, TLS
over lwIP and a Bluetooth command line. This project models the parts of it
that keep state over time and proves what they promise.

`dafny verify dfyconfig.toml` checks everything.

## What is modelled

**The ENC28J60 driver** (`EncRegisters`, `EncRing`, `EncState`, `EncChip`,
`EncDriver`; `enc28j60driver/enc28j60.c`, `enc28j60driver/mchdrv.c`). The chip
is a class with 8 KB of RAM and a banked register file. It acts on its own: it
stores or aborts frames and ends transmissions, before every register command
and every single byte of a buffer transfer. The driver's functions are methods
on top, down to the SPI command bytes. What the chip may do and when a register
write is legal are stated on snapshots (`EncState.Rely`, `EncState.Legal`), and
the frames are laid out in the ring by next-frame pointers that wrap round an
arbitrary ring end (`EncRing.Laid`). The main results: a chip that respects the
guard pointer never overwrites a byte of an unread frame, whatever the
interleaving, because every value the driver gives the guard is legal; the
fates the driver logs (frame handed to lwIP without its CRC, or dropped and
why) are, in order, those of a prefix of the frames stored; what is sent is
exactly, in order, a zero control byte and the payload of each chain.

The chip follows the ENC28J60 Data Sheet DS39662D: operation codes and bank
selection (section 4.2), ERDPT going round at the ring end (section 3.2.1), the
latched low byte of ERXRDPT (section 6.1), the transmit steps (section 7.1),
frame layout with even next pointers, free space and PKTDEC (section 7.2 and
Example 7-1), EPKTCNT limited to 255, and the two resets (sections 11.4 and
11.5). The first frame after set-up starts at 0, where errata 5 puts the ring.

**The WINC1500 lwIP glue** (`Pbufs`, `WincReceive`, `WincTransmit`;
`winc1500netif/winc1500netif.c`). Receive fragments land in the registered
buffer and grow a linked chain of pbufs, with every allocation and every hand-over
to lwIP free to fail. Ownership of every link ever allocated, the chain's shape,
the registered buffer and the bytes are invariants of the callback.

**The flash settings** (`FlashStore`; `main_app.c`). A NOR flash, in which
programming only clears bits, and eleven slots, four of which share a page that
only a fifth one erases.

**Check bytes and the temperature channel** (`Crc8`, `CrcRoutines`,
`SensorChannel`; `htu21d.c`, `temperature.c`). Both CRC loops are proved against
polynomial division over GF(2), and the sensor channel against a function of
the sequence of scratchpads.

**The 1-Wire engine** (`OneWire`; `onewire.c`), interrupt by interrupt, with the
task that waits for it and may time out.

**The WINC1500 handshake** (`Hif`; `m2m_hif.c`). Every answer of the bus is
arbitrary, and so is what a registered callback does.

**TLS input, command lines, IPv4 addresses** (`TlsInput`, `CommandLine`,
`IpAddress`; `tls_interface.c`, `cmd.c`, `network.c`).

## Where the code falls short of its promise

Each of these is proved, with the exact condition.

- Errata 14 asks for an odd guard. Every guard written is odd if and only if
  the ring end is, and `mchdrv_init` passes an even one (`EncRing.GuardsAreOdd`).
- After an allocation failure in mid-packet the tail of the packet is offered to
  lwIP as a packet of its own, exactly if the last fragment finds a link
  (`WincReceive.TailExactly`, with such a run in `WincReceive.TailAlone`).
- After a packet a partial one is left if and only if its last bus read failed
  while there was a chain (`WincReceive.PartialIsLeft`); if no allocation failed,
  that is if any read failed and either not the first or there was a partial
  packet before (`WincReceive.BytesLeft`). The next packet without failures is
  then offered behind those bytes, and as itself if and only if none were left
  (`WincReceive.Netif.ReceivePacket`, with such a run in
  `WincReceive.PacketsMix`).
- A token, link, user name or password programmed again without an erasure reads
  back as saved if and only if what it is programmed over has all its bits;
  saved in the same round as the Internet setting it is erased at once
  (`FlashStore.PerformAndRestart`).
- The default of a DHCP flag written over unconfigured flash is found at the
  next start if and only if the bits there allow it (`FlashStore.DefaultIsFound`).
- The 1-Wire length is kept in eight bits; from 256 on, or after an operation
  whose last interrupt comes between a time-out and the stopping of the timer,
  "success" does not mean that all bits went over the wire
  (`OneWire.WrittenCompletely`, `OneWire.SemaphoreStaysClear`).
- `hif_isr` reports success although RX done never reached the chip exactly if
  the callback asked for it and every one of its requests failed on the bus
  (`Hif.Host.HifIsr`, with such a run in `Hif.LostRxDone`).
- `hif_receive` admits a read outside the window exactly when the read wraps
  round the address space and the window does not (`Hif.AdmittedOutside`).
- `nrf_tls_input` returns success without queueing anything exactly when the
  FIFO has some room, but not enough (`TlsInput.Interface.Input`).
- The rest of a chunk is dropped after a line of more than 256 bytes, so the
  commands depend on how the stream was cut, exactly if a newline follows
  (`CommandLine.CutMatters`).
- `ip_to_int` counts in 16 bits. Its result is wrong exactly if all four
  numerals slip through the range check modulo 65536, one of them is no octet,
  and the number they make in base 256, each taken modulo 65536 and with its
  sign, is not zero modulo 2^32 (`IpAddress.WrongExactly`): "65537.0.0.1" is
  1.0.0.1. An invalid second or third address leaves the ones before it, and an
  invalid one itself, overwritten (`IpAddress.Settings.ReadAddresses`).

## Model

| member | source | states |
|---|---|---|
| EncRegisters.DecodeReaches | enc28j60driver/enc28j60-consts.h:12-43 | While ECON1 selects a bank, the five address bits of a named constant reach that register exactly if it is an all-bank constant or carries this bank. |
| EncDriver.Device.SelectPage | enc28j60driver/enc28j60.c:163-171 | Bits 1:0 of ECON1 become the page from any bank state; otherwise only the chip's own traffic has happened. Terminates because ECON1 is in all banks. |
| EncDriver.Device.EnsureRegisterAccessible | enc28j60driver/enc28j60.c:173-179 | Afterwards the address bits of the constant reach exactly the register it names; all-bank constants cost nothing. |
| EncDriver.Device.RCR | enc28j60driver/enc28j60.c:182-185 | Returns the named register, from any bank state, and disturbs nothing. |
| EncDriver.Device.WCR | enc28j60driver/enc28j60.c:186-189 | One write reaches exactly the named register, after nothing but traffic; a legal one leaves the chip safe. |
| EncDriver.Device.BFS | enc28j60driver/enc28j60.c:190-193 | The same for setting bits. |
| EncDriver.Device.BFC | enc28j60driver/enc28j60.c:194-197 | The same for clearing bits. |
| EncDriver.Device.RCR16 | enc28j60driver/enc28j60.c:240-242 | Either constant of a pair gives the 16-bit register. |
| EncDriver.Device.WCR16 | enc28j60driver/enc28j60.c:245-247 | Low byte, then high byte, with frames arriving in between; both reach their registers, and a legal write leaves the chip safe. |
| EncDriver.Device.RBM | enc28j60driver/enc28j60.c:199-212 | Every byte of a frame that was unread at the call is read as it was stored, across the ring end too, while frames keep arriving; ERDPT follows. |
| EncRing.StoringIsSafe | enc28j60driver/enc28j60.c:515-528 | A frame stored inside the free space the guard leaves keeps the ring in order and every byte of every unread frame in place. |
| EncRing.OverwritesNothing | enc28j60driver/enc28j60.c:515-528 | Filling any part of the free space, as an aborted reception does, changes no byte of an unread frame. |
| EncRing.ReleaseIsSafe | enc28j60driver/enc28j60.c:515-535 | Moving the guard to just behind the next frame releases the oldest frame and keeps frames, free space, write pointer and packet count in agreement. |
| EncRing.GuardParity | enc28j60driver/enc28j60.c:519-528 | The guard written after a frame is odd exactly unless the next frame starts at 0 and the ring end is even. |
| EncRing.GuardsAreOdd | enc28j60driver/enc28j60.c:519-528 | From set-up on, over any receptions and consumptions, every guard written is odd if and only if the ring end is (for ring ends from 12 on, which two frames fit). |
| EncState.PokedIsSafe | enc28j60driver/enc28j60.c:515-535 | Every legal register write keeps the chip safe: ring in order, count equal to the frames stored and not consumed. |
| EncState.LegalStable | enc28j60driver/enc28j60.c:245-247 | What the chip does meanwhile never makes a legal write illegal. |
| EncState.ReceivingIsSafe | enc28j60driver/enc28j60.c:333-339 | A reception is traffic: it only appends a frame. |
| EncState.AbortingIsSafe | enc28j60driver/enc28j60.c:333-339 | An aborted reception is traffic that changes no unread frame. |
| EncChip.Chip.LetTrafficPass | enc28j60driver/enc28j60.c:147-160 | Any number of receptions and ends of transmissions between two bytes on the bus keep the chip safe and all unread bytes. |
| EncDriver.Device.ReceiveStart | enc28j60driver/enc28j60.c:509-513 | Header of the oldest unread frame: its length with CRC, and the address of the frame after it. |
| EncDriver.Device.ReceiveEnd | enc28j60driver/enc28j60.c:515-535 | Exactly the oldest frame is consumed; the guard is one below the next frame, or the ring end if that is 0, and this and the PKTDEC write are legal. |
| EncDriver.Device.ReadReceivedPbuf | enc28j60driver/enc28j60.c:565-600 | There is a pbuf if and only if the frame has 4 to 32004 bytes and the allocation succeeds; it is one sound link with the oldest frame without its last four bytes; the frame is consumed in every case. |
| EncDriver.FatesAt | enc28j60driver/enc28j60.c:574-594 | In the log, a frame of less than 4 or more than 32004 bytes is dropped as such without an allocation, any other is delivered without its last four bytes if its own allocation succeeds, and lost for want of memory if not. |
| EncDriver.Device.Drain | enc28j60driver/mchdrv.c:39-53 | The loop logs one fate per frame in order, until the count is used up or a frame was dropped. |
| EncDriver.Device.Poll | enc28j60driver/mchdrv.c:39-57 | The account stays exact: the log is the function of a prefix of all frames ever stored, and of the allocations for them, that `FatesAt` describes, and netif->input is given the delivered ones; fewer frames than EPKTCNT only after a drop, which ends the poll. |
| EncDriver.Device.WhatLwipGot | enc28j60driver/mchdrv.c:39-53 | For each frame handled since set-up: its fate by its length and its own allocation, and, if that succeeds, the frame without its last four bytes as one sound chain among what netif->input was given. |
| EncDriver.HandedAt | enc28j60driver/mchdrv.c:42-47 | Those chains are one for each delivered frame, in order, and no others. |
| EncDriver.Device.Run | enc28j60driver/mchdrv.c:39-72 | For every schedule of polls, transmissions and traffic, the account of received frames stays exact and only grows, as do the frames stored; each poll of a driver that is up brings the log up to all the frames stored when it began, or stops at a drop; and the chip is told to send exactly the given chains, in order. |
| EncDriver.AllOrDrops | enc28j60driver/mchdrv.c:39-57 | Polls that do so have handled every frame stored before the first, unless there was a drop in every one of them. |
| EncState.TransmitStart | enc28j60driver/enc28j60.c:404-410 | The transmit buffer starts at the first even address above the ring end. |
| EncDriver.Device.TransmitBegin | enc28j60driver/enc28j60.c:415-426 | ETXST is set and the control byte 0 written there; no ring byte changes. |
| EncDriver.Device.TransmitPartial | enc28j60driver/enc28j60.c:428-431 | The bytes follow those already in the transmit buffer; no ring byte changes, even while frames arrive. |
| EncDriver.Device.StartSending | enc28j60driver/enc28j60.c:433-453 | RAM from ETXST to ETXND is control byte and frame when the chip is told to send. |
| EncDriver.Device.AwaitSent | enc28j60driver/enc28j60.c:455-479 | The bounded wait and the reset after it disturb no reception and send nothing again. |
| EncDriver.Device.TransmitPbuf | enc28j60driver/enc28j60.c:493-506 | For every well-formed chain that fits, exactly one frame is sent: the byte 0 and the concatenated payloads; the loop over the links ends. |
| EncDriver.Device.LinkOutput | enc28j60driver/mchdrv.c:59-72 | The same for lwIP, and the receive account is unaffected; nothing is sent when the driver is down. |
| EncDriver.Device.EthernetSetup | enc28j60driver/enc28j60.c:321-386 | From any state of chip and driver the ring ends up in service, empty, with driver and chip agreeing. |
| EncDriver.Device.MchdrvInit | enc28j60driver/mchdrv.c:74-103 | The driver is up exactly if both checks passed, and then ready for polls and transmissions with ring end 4096. |
| EncDriver.Device.SetErxnd | enc28j60driver/enc28j60.c:57-63 | The cached size and ERXND agree afterwards, whether the register had to be written or not. |
| Pbufs.TotalIsLength | lwip/include/lwip/pbuf.h:86-93 | In a chain, tot_len of each link is the number of bytes from it to the end. |
| WincReceive.Netif.RxCallback | winc1500netif/winc1500netif.c:191-259 | The outcome, the new bytes and counters are the reference machine's for the results of the one or two allocations made; the chain stays acyclic and ends in rx_last, every link is in exactly one of chain, lwIP and pool and goes there only as lwIP and the allocations decide, and the registered buffer is rx_buf or the live last link; what netif->input is given at the call is a chain of the pad and the packet, with sound tot_len counts, which the callback leaves alone afterwards; otherwise it is given nothing. |
| WincReceive.Netif.FreeChain | winc1500netif/winc1500netif.c:224-226 | Every link of the chain loses its one reference and is freed once. |
| WincReceive.Netif.ReceivePacket | winc1500/driver/source/m2m_wifi.c:236-259 | A packet is offered whole, behind whatever partial packet was left, if and only if no bus read and no allocation up to the link for its last piece fails, and then as itself exactly if no partial packet was left. It leaves one exactly if its last bus read fails while there is one. Coming between packets and offered, netif->input was given one sound chain with two bytes of pad and the packet. |
| WincReceive.NothingFailsIs | winc1500netif/winc1500netif.c:246-258 | In numbers: one read for each piece, 254 bytes in the first link and 256 in every other, and one link for each piece. |
| WincReceive.PartialIsLeft | winc1500/driver/source/m2m_wifi.c:249-259 | For the loop from any offset: a partial packet is left exactly if the last read failed and either it was the first and found one, or the last allocation gave it a link. |
| WincReceive.BytesLeft | winc1500/driver/source/m2m_wifi.c:236-259 | When no allocation fails, a partial packet is left exactly if some read failed and it was not the first or found one; it is the one found and the pieces whose reads succeeded, and nothing is offered. |
| WincReceive.PacketsMix | winc1500/driver/source/m2m_wifi.c:249-259 | After a packet of 300 bytes whose second read fails, a packet of one byte is offered behind the first 254 bytes of the lost one. |
| WincReceive.DeliveredExactly | winc1500/driver/source/m2m_wifi.c:236-259 | The same equivalence for the loop of the WINC driver from any offset. |
| WincReceive.WholeExactly | winc1500netif/winc1500netif.c:199-258 | For any fragments of a packet, lwIP is offered exactly their concatenation if and only if every allocation up to the link for the last fragment succeeds. |
| WincReceive.OffersAtMostOne | winc1500netif/winc1500netif.c:222-244 | A packet makes lwIP see at most one chain, no longer than what was received. |
| WincReceive.TailExactly | winc1500netif/winc1500netif.c:222-244 | What is offered is what follows the last failure: the whole packet, or a mere tail exactly if some allocation failed but the last fragment found a link, or nothing. |
| WincReceive.TailAlone | winc1500netif/winc1500netif.c:229-238 | With no link for the second of two fragments at the first, the second is offered as a packet of its own. |
| WincTransmit.Sender.Tx | winc1500netif/winc1500netif.c:114-156 | Chains over 1536 bytes are refused and nothing is sent; any other is sent flattened and without its pad, and the caller's reference count is as before. |
| WincTransmit.Sender.TxFromQueue | winc1500netif/winc1500netif.c:162-186 | At most 100 attempts, all with the same bytes, all but the last failures, fewer than 100 only after a success; the message's reference is dropped. |
| FlashStore.Store.Program | main_app.c:549-562 | Programming a slot adds a value to its history and touches no other slot. |
| FlashStore.Store.Erase | main_app.c:628-633 | An erasure clears the slots of its page and touches no other. |
| FlashStore.Store.StorageRound | main_app.c:549-788 | One round of the loop does to every slot what the requests ask, and nothing to the others. |
| FlashStore.Store.StartUp | main_app.c:400-523 | Start-up reads every slot, with its length and address; a DHCP flag that starts with "true" or "fals" is left and used as it is, and over any other "true" is programmed and used. |
| FlashStore.PerformAndRestart | main_app.c:400-788 | From any flash contents, after any run of saves and restarts, the next start reads every slot back: all four bytes of each address, 48 of the configuration and 8 of the Internet setting as saved last, a DHCP flag as saved last exactly if that starts with "true" or "fals", and in the shared slots exactly the bits that were there, or erased, and that every value saved since has. |
| FlashStore.Perform | main_app.c:400-788 | The same run in terms of histories: every slot holds what its own requests, start-ups and page erasures made of it. |
| FlashStore.BitSurvives | main_app.c:549-622 | A bit is set exactly if it was set in what was programmed over and in every value programmed since. |
| FlashStore.LastIsRead | main_app.c:549-622 | The value programmed last is read exactly if what was there and every value before have all its bits. |
| FlashStore.LastSavedReadsBack | main_app.c:624-788 | Config, the three addresses, the Internet setting and configured DHCP flags read back as last saved, over any run of saves and restarts. |
| FlashStore.SharedHoldsConjunction | main_app.c:549-656 | The history of a setting in page 0xee000: what was there at the start, or erased bytes after an erasure, and all values saved since. |
| FlashStore.SharedReadsBack | main_app.c:549-656 | It reads back as the AND of these, and as last saved exactly if they have all its bits. |
| FlashStore.DefaultIsFound | main_app.c:492-523 | Over any run without a save of the flag, the default written at start-up is found in flash exactly if the bits found at the first start allow it. |
| Crc8.RemIsTheRemainder | htu21d.c:44-58 | Long division gives the one polynomial of degree below 8 that differs from the dividend by a multiple of x^8+x^5+x^4+1. |
| Crc8.CrcIsRemainder | temperature.c:88-103 | The shift register computes the remainder of the message times x^8; message and check bits divide exactly if they match. |
| CrcRoutines.CheckCrc | htu21d.c:34-61 | checkCRC returns the remainder of message and check byte, which is 0 exactly if the check byte is the CRC of the message. |
| CrcRoutines.DsCrc8 | temperature.c:88-103 | For messages of any length dsCRC8 is the same CRC of the bits in wire order, in a reflected byte. |
| CrcRoutines.DsCrc8IsRemainder | temperature.c:88-103 | dsCRC8 is the one remainder of the message bits times x^8. |
| CrcRoutines.RoutinesAgree | htu21d.c:34-61 | For every 16-bit message, checkCRC accepts exactly the mirrored dsCRC8 of the mirrored message. |
| CrcRoutines.DsCrc8Splits | temperature.c:88-103 | The CRC of a concatenation continues from the CRC of its first part. |
| CrcRoutines.AppendedCrc | temperature.c:88-103 | A message with one more byte has CRC 0 exactly if that byte is its CRC. |
| CrcRoutines.DsCrc8IsLinear | temperature.c:88-103 | dsCRC8 is linear over byte-wise exclusive or. |
| CrcRoutines.DsCrc8DetectsBurst | temperature.c:88-103 | Two messages that differ only within eight consecutive bits, across bytes too, have different CRCs. |
| CrcRoutines.DsCrc8DetectsByte | temperature.c:88-103 | A change of one byte always changes the CRC. |
| SensorChannel.TemperatureIsRaw | temperature.c:135-145 | The decoded temperature is the 16-bit reading over 16 exactly for readings from -1024 to 2047. |
| SensorChannel.Sensor.ReadTemperature | temperature.c:121-173 | With bytes 2 to 7 replaced once pinned, the reading is published, the counter cleared and the bytes pinned if and only if the CRC of all nine bytes is zero; otherwise the counter goes up, and beyond 500 the sentinel is published; the four copies stay equal. |
| SensorChannel.AcceptsExactly | temperature.c:133-147 | The last byte is the CRC of the first eight exactly if the CRC of all nine is zero. |
| SensorChannel.TemperatureIs | temperature.c:135-145 | For every reading: its low ten bits, and bit 10 taken off if the five above it are all set and added otherwise, in sixteenths. |
| SensorChannel.ValueIsPublished | temperature.c:147-173 | Over any scratchpads the value is the initial one, the latest accepted reading, or the sentinel after more than 500 rejections in a row; the counter counts rejections since the last acceptance or sentinel. |
| SensorChannel.SentinelWhen | temperature.c:163-173 | The sentinel is written exactly at every 501st rejection in a row. |
| SensorChannel.PinnedForGood | temperature.c:124-131 | Bytes 2 to 7 are those of the first scratchpad whose own CRC is right, for ever after. |
| SensorChannel.DamageIsRejected | temperature.c:133-147 | If bytes 2 to 7 match the pinned ones, damage to byte 0, 1 or 8 of a good scratchpad is always rejected. |
| SensorChannel.DamageIsRepaired | temperature.c:124-131 | Once bytes 2 to 7 are pinned, damage to them makes no difference to any run. |
| OneWire.Engine.HandleWrite | onewire.c:49-75 | A write interrupt drives the next bit, least significant first, and strictly lowers the bits left, or gives the semaphore when none are left; it never reads past the buffer. |
| OneWire.Engine.HandleRead | onewire.c:76-110 | A read slot stores the level found in the next bit and lowers the bits left; the second interrupt starts the next slot or gives the semaphore. |
| OneWire.Engine.OnewireWrite | onewire.c:204-269 | From READY to READY whatever the timing: the wire gets a prefix of the buffer's bits of known length, the least significant of a byte first; 0 for success, 1 for a time-out, 2 when busy, and the semaphore, exactly; BUSY and length 0 change nothing. |
| OneWire.Engine.OnewireRead | onewire.c:271-336 | From READY to READY whatever the timing: the first len bytes hold exactly the levels sampled, the least significant bit first, zero beyond them, and the rest of the buffer is untouched; result code and semaphore as for a write. |
| OneWire.HowFar | onewire.c:49-110 | How many slots are driven or sampled, and when that is a success, in numbers. |
| OneWire.WrittenCompletely | onewire.c:204-258 | Success means all 8 * len bits were driven, for every timing, exactly if len is at most 255 and no earlier operation left the semaphore given. |
| OneWire.ReadCompletely | onewire.c:271-324 | The same for the slots of a read. |
| OneWire.SemaphoreStaysClear | onewire.c:255-258 | Over any run of operations the semaphore is clear before each if and only if in none the last interrupt comes between the time-out and the stopping of the timer. |
| OneWire.GatheredSlots | onewire.c:76-83 | Collecting the slots of a message rebuilds it. |
| OneWire.ReadsWhatWasWritten | onewire.c:204-336 | For 1 to 255 bytes, a successful read that finds the levels a successful write drove returns the bytes written. |
| Hif.Host.HifReceive | m2m_hif.c:608-669 | A block is read exactly if it is no longer than bits 2 to 13 of the control register, does not start before the address read, and does not end behind the window, in 32 bits. It succeeds exactly if the window admits it and every operation succeeds, or an empty call asks for RX done and that succeeds; then RX done is signalled exactly if it was asked for or the read ends where the window does. |
| Hif.AdmittedIsInside | m2m_hif.c:639-650 | In a window that does not wrap, admitted reads that do not wrap are exactly those inside it. |
| Hif.AdmittedOutside | m2m_hif.c:645-650 | A read is admitted outside the window exactly if it wraps and the window does not. |
| Hif.Host.SetRxDone | m2m_hif.c:97-119 | Success means exactly one RX done more at the chip. |
| Hif.Host.HifIsr | m2m_hif.c:439-564 | A packet handed on goes to the callback of its group (1 Wi-Fi, 2 IP, 4 OTA, 6 crypto, 7 Sigma) with opcode, and length and address behind the header; whatever the callback does and however much the header claims, every block it reads was admitted by the window the chip advertises; RX done is lost unnoticed exactly if the callback asked for it and all its requests failed on the bus; otherwise the result code is that of the first failing check. |
| Hif.HandedOn | m2m_hif.c:439-564 | A packet is handed on exactly if the bus works, the interrupt bit is set, the size in bits 2 to 13 is not zero, the header's length is the size or not more than four below, and the group is known; otherwise the result code is that of the first failing check. |
| Hif.LostRxDone | m2m_hif.c:527-533 | A run in which the interrupt reports success and RX done was never signalled. |
| Hif.Host.HifSend | m2m_hif.c:319-430 | It succeeds exactly if the chip has a buffer within 1000 looks and all operations succeed. Success: a word with group, opcode and length announced, all blocks in the chip in order, then the chip told where. Failure: the chip is never told, and holds the first blocks at most. |
| Hif.Host.AwaitBuffer | m2m_hif.c:359-373 | For every sequence of answers, the operations made and the address returned are those of the rule of at most 1000 looks, ended by a failure or by the request bit being clear; an address is returned only after looks that succeeded. |
| Hif.BufferFound | m2m_hif.c:359-373 | By that rule an address comes from looks that all succeeded, all but the last of which found the request bit set, and is the value read then; and whenever there are such looks within the number allowed, that address is found. |
| Hif.LayoutIsSound | m2m_hif.c:325-405 | The blocks are disjoint, inside the announced length and the data at its offset exactly if the sizes fit (control size within the data offset, or 0 without a control buffer, and no 16-bit overflow). |
| Hif.ChipHoldsPacket | m2m_hif.c:319-405 | With such sizes the chip's memory holds the group, the opcode below bit 7 and the length at the address, the control bytes behind the header, the data bytes at their offset, and is otherwise unchanged. |
| TlsInput.Interface.Input | tls_interface.c:946-998 | The whole block is queued or nothing of it, the latter with success exactly if there is some room but too little; the reads so far stay a prefix of the blocks queued. |
| TlsInput.Interface.TransportRead | tls_interface.c:306-365 | A stream read returns exactly the size asked for, if there is as much, or consumes nothing; a datagram read returns what is there, up to the size; nothing is lost, repeated or reordered. |
| TlsInput.TlsInput | tls_interface.c:946-998 | Unknown instances are refused with "not found", full FIFOs with "no memory"; otherwise the instance named, and no other, gets all of the block or nothing. |
| TlsInput.ConnectionsIgnoreCuts | tls_interface.c:306-365 | Two connections with the same bytes queued, however cut into blocks, and the same sizes read have returned the same and hold the same. |
| CommandLine.Splitter.CmdFeed | cmd.c:196-223 | One call dispatches, leaves over and returns what the reference function says, whatever the command handler does to the buffer. |
| CommandLine.Splitter.CmdFeedAll | cmd.c:196-223 | The same for a stream arriving in any number of calls. |
| CommandLine.LinesComeOutOfChunks | cmd.c:196-223 | Lines of at most 256 bytes without CR or LF come out as they went in, with either terminator and however the stream is cut. |
| CommandLine.OverflowEndsCall | cmd.c:211-218 | At byte 257 of a line the call fails, with the lines before it dispatched and nothing left over. |
| CommandLine.StreamIsLines | cmd.c:196-223 | Conversely, every stream that causes no error is made of the dispatched lines, their terminators and the part left over. |
| CommandLine.CutIsIrrelevant | cmd.c:196-223 | Whether some call fails does not depend on the cut, and if none does neither do commands and remainder. |
| CommandLine.CutMatters | cmd.c:211-218 | The commands are the same for every cut exactly if no newline follows the first overflow. |
| CommandLine.CmdCmp | cmd.c:235-262 | With the line's length, the match depends on the line alone: it is the command, or the command with its final space and a non-empty argument, which is returned. |
| CommandLine.StaleBytesTakePart | cmd.c:286 | With a constant length a shorter line matches exactly if bytes left over from earlier lines complete it. |
| IpAddress.IpToInt | cmd.c:430-471 | Result and new position are those of the grammar: four numerals, each below 256 in 16-bit arithmetic, dots between them, one more byte behind. |
| IpAddress.SpelledOut | cmd.c:430-466 | The grammar in full: four non-empty rows of digits with dots between them and one byte behind that is no digit, where the pointer then is. |
| IpAddress.ZeroIsEnough | cmd.c:445-461 | Parsing stays inside any text with a byte that is neither a digit nor a dot, such as a terminating zero. |
| IpAddress.ShortNumeralsAccepted | cmd.c:430-471 | With numerals of at most four digits the result is nonzero exactly for nonzero quads of octets; they are its bytes in memory, and the pointer is just behind the terminator. |
| IpAddress.WrongExactly | cmd.c:443-464 | For numerals of any length, the result differs from the right one exactly if all four pass the range check modulo 65536, one is no octet, and the number they make in base 256 is not zero modulo 2^32; otherwise it spells them or is invalid. |
| IpAddress.WrappedNumeral | cmd.c:443-464 | "65537.0.0.1" is read as 1.0.0.1. |
| IpAddress.PrintedIsRead | network.c:500-505 | Reading a printed address returns it and stops behind the byte after it. |
| IpAddress.PrintedDetermines | network.c:500-505 | Different addresses are printed differently. |
| IpAddress.HtonlIsSwapped | lwip/core/def.c:87-94 | The masks and shifts of lwip_htonl, and of the end of ip_to_int, exchange the four octets arithmetically. |
| IpAddress.SwapReverses | cmd.c:469 | Doing so reverses the octets of a number and undoes itself. |
| IpAddress.Settings.ReadAddresses | cmd.c:511-519 | The three addresses are parsed one behind the other into their globals; the first failure ends it, with that global already overwritten and those behind it as they were. |
| IpAddress.ThreePrintedAreRead | cmd.c:511-519 | Three printed addresses with a byte between them are all read back. |

## Left out

- EncDriver.Device.AwaitSent: the transmit status vector is read and ignored, as in the source, and the chip's own transmission errors are not modelled.
- EncDriver.Device.LinkOutput: chains longer than the RAM above the ring are excluded, because the source leaves their size unchecked.
- EncDriver.Device.Poll: the result of netif->input is ignored by the source, so who frees a refused buffer is not modelled; the link state read from the PHY is left out.
- EncDriver.Device.WCR16: the low byte must not break the ring, because nothing is known of a chip whose ring moves while it receives.
- EncDriver.Device.SetErxnd: called only while nothing is received or sent, as after a reset.
- EncDriver.Device.MchdrvInit: whether the chip answers and passes its self test is given, not computed.
- EncDriver.Device.EthernetSetup: MAC, MII, receive filter and interrupt registers, the self tests and the wait for the clock are chip timing and not modelled.
- WincReceive.Netif.ReceivePacket: starts from rx_buf as winc_fill_callback_info registers it; network.c registers another buffer, and eth_cb there is not part of this model.
- WincReceive.Netif.RxCallback: a payload is a field of its pbuf, so aliasing between payloads cannot be expressed; packets whose padded length does not fit 16 bits keep the invariants but not the counts.
- WincTransmit.Sender.Tx: chains shorter than the two pad bytes, for which the source computes a negative length, are excluded.
- FlashStore.Store.StorageRound: flash operations that fail, the copies of the settings in RAM and requests that arrive in the middle of a round are left out.
- SensorChannel.Sensor.ReadTemperature: one of eight channels of the same form; bytes are unsigned as on ARM, temperatures are reals, and the bit-banged bus is a parameter.
- OneWire.Engine.OnewireRead: pins, PPI channels and pulse lengths are left out; a slot is one bit, and reset slots are not modelled.
- Hif.Host.HifIsr: the sleep counter of the chip is one bus operation that may fail, interrupt enabling and hif_handle_isr's endless retry are left out; the bytes of a block read are the chip's.
- Hif.LayoutIsSound: assumes that the chip's buffer does not lie at the very end of the 32-bit address space.
- TlsInput.TlsInput: mutexes, memory and mbedTLS are not part of this model; the library's demands are arbitrary sizes. The SDK's app_fifo is not part of the repository and has a plain bounded FIFO contract.
- CommandLine.Splitter.CmdFeed: cmd_parse is any code that rewrites the buffer; its commands are not modelled.
- IpAddress.IpToInt: the text must be long enough for the loop to stop inside it (`Bounded`), which the source takes for granted.
- The serial path over Bluetooth, lwIP's API files, Wi-Fi events, the other sensors, bootloader and LEDs would add only easy members.
