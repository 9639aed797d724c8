/**
 * The banked control registers of the ENC28J60 and the encoding the driver
 * uses for them (enc28j60-consts.h).
 *
 * An encoded constant carries the bank in its top three bits and the address
 * inside the bank in the low five. A register is identified here with the one
 * constant that names it, so a register file is indexed by constants.
 */
module EncRegisters {
  import opened Bytes
  import opened Bits

  const BANKALL: byte := 0xc0
  const INDETERMINATE: byte := 0x80

  const ECON2: byte := 0xde
  const ECON1: byte := 0xdf
  const ERDPTL: byte := 0x20
  const EWRPTL: byte := 0x22
  const ETXSTL: byte := 0x24
  const ETXNDL: byte := 0x26
  const ERXSTL: byte := 0x28
  const ERXNDL: byte := 0x2a
  const ERXRDPTL: byte := 0x2c
  const EPKTCNT: byte := 0x79

  // bit numbers in ECON2 and ECON1
  const PKTDEC: nat := 6
  const AUTOINC: nat := 7
  const RXEN: nat := 2
  const TXRTS: nat := 3
  const RXRST: nat := 6
  const TXRST: nat := 7

  type Registers = s: seq<byte> | |s| == 256 witness seq(256, _ => 0)

  /** r & ENC_BANKMASK, r & ENC_REGISTERMASK and r >> 6 */
  function BankBits(r: byte): byte { r / 32 * 32 }
  function Address(r: byte): byte { r % 32 }
  function Page(r: byte): byte { r / 64 }

  /** The constants that name a register: explicit-bank ones below 0x1b, all-bank ones above. */
  predicate Named(r: byte) {
    if BankBits(r) == BANKALL then Address(r) >= 0x1b
    else Bit(r, 5) && Address(r) < 0x1b
  }

  /** The register the chip addresses for the five address bits `a` while ECON1 selects `bank`. */
  function Decode(bank: nat, a: nat): (r: byte)
    requires bank < 4 && a < 32
  {
    if a >= 0x1b then BANKALL + a else bank * 64 + 32 + a
  }

  lemma BankFlag(r: byte)
    ensures Bit(r, 5) <==> r / 32 % 2 == 1
  {
    assert Bit(r, 5) == Bit(r / 2 / 2, 3) == Bit(r / 2 / 2 / 2 / 2, 1);
    assert r / 2 / 2 / 2 / 2 / 2 == r / 32;
  }

  /** An all-bank constant is reached from every bank, another one exactly from the bank it carries. */
  lemma DecodeReaches(r: byte, bank: nat)
    requires Named(r) && bank < 4
    ensures Decode(bank, Address(r)) == r <==> (BankBits(r) == BANKALL || bank == Page(r))
  {
    BankFlag(r);
  }

  /** A 16-bit register; `lo` is the constant of its low byte. */
  function Word(regs: Registers, lo: byte): (w: nat)
    requires lo < 255
    ensures w < 0x10000
  {
    regs[lo] as int + 256 * regs[lo + 1] as int
  }

  function PutWord(regs: Registers, lo: byte, w: nat): (r: Registers)
    requires lo < 255 && w < 0x10000
    ensures Word(r, lo) == w
  {
    regs[lo := w % 256][lo + 1 := w / 256]
  }

  /** The write command, the bit-field set and the bit-field clear, by operation code (4.2). */
  function Operand(op: nat, current: byte, data: byte): byte {
    if op == 4 then SetBits(current, data) else if op == 5 then ClearBits(current, data) else data
  }

  /**
   * What a write of `v` to register `r` does to the register file, with the
   * side effects of the data sheet: the low byte of ERXRDPT is held back until
   * the high byte arrives (6.1), PKTDEC is a command that counts EPKTCNT down
   * (7.2.4), and the transmit and receive resets drop TXRTS and RXEN (11.4, 11.5).
   */
  function Written(regs: Registers, latch: byte, r: byte, v: byte): Registers {
    if r == ERXRDPTL then regs
    else if r == ERXRDPTL + 1 then regs[ERXRDPTL := latch][ERXRDPTL + 1 := v]
    else if r == ECON2 && Bit(v, PKTDEC) then
      regs[ECON2 := ClearBits(v, Mask(PKTDEC))]
          [EPKTCNT := if regs[EPKTCNT] == 0 then 0 else regs[EPKTCNT] - 1]
    else if r == ECON1 then
      var v1 := if Bit(v, TXRST) then ClearBits(v, Mask(TXRTS)) else v;
      regs[ECON1 := if Bit(v, RXRST) then ClearBits(v1, Mask(RXEN)) else v1]
    else regs[r := v]
  }
}
