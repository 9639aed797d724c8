/**
 * The ENC28J60 as the driver sees it through SPI. Every transaction, and every
 * single byte of a buffer memory transaction, may find that frames have come
 * in or that a transmission has ended in the meantime.
 */
module EncChip {
  import opened Bits
  import opened Bytes
  import opened EncRegisters
  import opened EncRing
  import opened EncState

  class Chip {
    const ram: array<byte>
    var regs: Registers
    var latch: byte
    var wr: nat
    ghost var head: nat
    ghost var unread: seq<Frame>
    ghost var stored: seq<Frame>
    ghost var released: nat
    ghost var sent: seq<seq<byte>>

    ghost function V(): State
      requires ram.Length == 8192
      reads this, ram
    {
      State(ram[..], regs, latch, wr, head, unread, stored, released, sent)
    }

    ghost predicate Valid()
      reads this, ram
    {
      ram.Length == 8192 && Safe(V())
    }

    constructor ()
      ensures Valid() && fresh(ram)
      ensures !Receiving(regs) && !Sending(regs) && stored == []
    {
      ram := new byte[8192];
      regs := seq(256, _ => 0);
      latch, wr := 0, 0;
      head, unread, stored, released, sent := 0, [], [], 0, [];
      new;
      NoBits(RXEN);
      NoBits(TXRTS);
      NoBits(PKTDEC);
    }

    // --- the chip's own steps -------------------------------------------------

    /** The receive logic writes `data` byte by byte round the ring. */
    method WriteRing(nd: nat, a: nat, data: seq<byte>)
      requires ram.Length == 8192 && a <= nd < 8192 && |data| <= nd + 1
      modifies ram
      ensures ram[..] == PutRing(old(ram[..]), nd, a, data)
    {
      var p, k := a, 0;
      assert ram[..] == PutRing(ram[..], nd, a, data[..0]);
      while k < |data|
        invariant 0 <= k <= |data|
        invariant k <= nd ==> p == At(nd, a, k)
        invariant ram[..] == PutRing(old(ram[..]), nd, a, data[..k])
      {
        DistAt(nd, a, k);
        ram[p] := data[k];
        p := if p == nd then 0 else p + 1;
        k := k + 1;
        assert ram[..] == PutRing(old(ram[..]), nd, a, data[..k]);
      }
      assert data[..k] == data;
    }

    /**
     * A frame arrives. It is stored when its footprint fits into the free space
     * and EPKTCNT can still count it; otherwise the reception is aborted, after
     * any number of free bytes may have been overwritten.
     */
    method Reception()
      requires Valid() && Receiving(regs)
      modifies this, ram
      ensures Valid() && Traffic(old(V()), V())
      ensures regs[ECON1] == old(regs[ECON1])
    {
      hide Traffic, Safe, PutRing, Image, Footprint, Next, Free, Word, Bit;
      ghost var before := V();
      var nd := Word(regs, ERXNDL);
      PointersInside(before);
      var free := Free(nd, wr, Word(regs, ERXRDPTL));
      var f: seq<byte> := *;
      var s0: byte, s1: byte := *, *;
      if HEADER + |f| <= nd + 1 && Footprint(nd, wr, |f|) <= free && regs[EPKTCNT] < 255 {
        ReceivingIsSafe(V(), f, (s0, s1));
        WriteRing(nd, wr, Image(nd, wr, f, (s0, s1)));
        regs := regs[EPKTCNT := regs[EPKTCNT] + 1];
        wr := Next(nd, wr, |f|);
        unread, stored := unread + [f], stored + [f];
        assert V() == Received(before, f, (s0, s1));
      } else {
        var junk := f[..if |f| <= free then |f| else free];
        AbortingIsSafe(V(), junk);
        WriteRing(nd, wr, junk);
        assert V() == before.(ram := PutRing(before.ram, nd, wr, junk));
      }
      TrafficIsSafe(before, V());
    }

    method WriteStatus(p: nat)
      requires ram.Length == 8192 && p + 7 <= 8192
      modifies ram
      ensures forall a: nat :: a < p ==> ram[a] == old(ram[a])
    {
      for k := 0 to 7
        invariant forall a: nat :: a < p ==> ram[a] == old(ram[a])
      {
        ram[p + k] := *;
      }
    }

    /** A transmission ends: the status vector follows the frame, TXRTS drops. */
    method FinishSending()
      requires Valid() && Sending(regs)
      modifies this, ram
      ensures Valid() && Traffic(old(V()), V())
      ensures regs[ECON1] % 4 == old(regs[ECON1]) % 4
    {
      ghost var before := V();
      WriteStatus(Word(regs, ETXNDL) + 1);
      SentIsSafe(before, ram[..]);
      var e := ClearBits(regs[ECON1], Mask(TXRTS));
      LowTwoBits(regs[ECON1]);
      LowTwoBits(e);
      regs := regs[ECON1 := e];
      assert V() == before.(ram := ram[..], regs := before.regs[ECON1 := e]);
    }

    /** Whatever happened since the driver last looked. */
    method LetTrafficPass()
      requires Valid()
      modifies this, ram
      ensures Valid() && Traffic(old(V()), V())
      ensures regs[ECON1] % 4 == old(regs[ECON1]) % 4
    {
      var n: nat := *;
      while n > 0
        invariant Valid() && Traffic(old(V()), V())
        invariant regs[ECON1] % 4 == old(regs[ECON1]) % 4
      {
        ghost var before := V();
        if * {
          if Receiving(regs) { Reception(); }
        } else {
          if Sending(regs) { FinishSending(); }
        }
        if before != V() {
          TrafficTrans(old(V()), before, V());
        }
        n := n - 1;
      }
    }

    // --- SPI ----------------------------------------------------------------------

    /** The register a command byte addresses in the bank ECON1 selects. */
    function Target(first: byte): byte
      reads this
    {
      Decode(regs[ECON1] % 4, first % 32)
    }

    /** The chip takes over the value `v` for register `r`. */
    method Apply(r: byte, v: byte)
      requires Valid()
      modifies this
      ensures ram.Length == 8192 && V() == Poked(old(V()), r, v)
      ensures Legal(old(V()), r, v) ==> Valid()
    {
      ghost var after := Poked(V(), r, v);
      if Legal(V(), r, v) {
        PokedIsSafe(V(), r, v);
      }
      regs := Written(regs, latch, r, v);
      if r == ERXRDPTL {
        latch := v;
      } else if r == ERXSTL + 1 {
        wr := Word(regs, ERXSTL);
      }
      head, unread, released, sent := after.head, after.unread, after.released, after.sent;
      assert V() == after;
    }

    /**
     * A two-byte register command. `mid` is the chip just before the command
     * takes effect. Operation codes: 0 read, 2 write, 4 set bits, 5 clear bits.
     */
    method Command(first: byte, second: byte) returns (reply: byte, ghost mid: State)
      requires Valid() && first / 32 in {0, 2, 4, 5}
      modifies this, ram
      ensures ram.Length == 8192
      ensures first / 32 == 0
              || Legal(old(V()), old(Target(first)), Operand(first / 32, old(regs[Target(first)]), second)) ==>
                Valid()
      ensures Traffic(old(V()), mid) && mid.regs[ECON1] % 4 == old(regs[ECON1]) % 4
      ensures first / 32 == 0 ==> V() == mid && reply == mid.regs[old(Target(first))]
      ensures first / 32 != 0 ==>
                V() == Poked(mid, old(Target(first)),
                             Operand(first / 32, mid.regs[old(Target(first))], second))
    {
      LetTrafficPass();
      mid := V();
      var op, r := first / 32, Target(first);
      reply := regs[r];
      if op != 0 {
        if Legal(old(V()), r, Operand(op, old(regs)[r], second)) {
          LegalStable(old(V()), mid, r, op, second);
        }
        Apply(r, Operand(op, regs[r], second));
      }
    }

    /** One byte of a buffer memory read. */
    method ReadByte() returns (b: byte, ghost mid: State)
      requires Valid() && Word(regs, ERDPTL) < 8192 && Bit(regs[ECON2], AUTOINC)
      modifies this, ram
      ensures Valid() && Traffic(old(V()), mid)
      ensures b == mid.ram[Word(mid.regs, ERDPTL)]
      ensures V() == mid.(regs := PutWord(mid.regs, ERDPTL, ReadNext(mid.regs)))
    {
      LetTrafficPass();
      mid := V();
      var p := Word(regs, ERDPTL);
      b := ram[p];
      PutScratch(mid, ERDPTL, ReadNext(regs));
      regs := PutWord(regs, ERDPTL, ReadNext(regs));
    }

    /** One byte of a buffer memory write. */
    method WriteByte(b: byte) returns (ghost mid: State)
      requires Valid() && Bit(regs[ECON2], AUTOINC)
      requires RingEnd(regs) < Word(regs, EWRPTL) < 8192
      modifies this, ram
      ensures Valid() && Traffic(old(V()), mid)
      ensures V() == mid.(ram := mid.ram[Word(mid.regs, EWRPTL) := b],
                          regs := PutWord(mid.regs, EWRPTL, (Word(mid.regs, EWRPTL) + 1) % 8192))
    {
      LetTrafficPass();
      mid := V();
      var p := Word(regs, EWRPTL);
      PutAbove(mid, p, b);
      ram[p] := b;
      PutScratch(V(), EWRPTL, (p + 1) % 8192);
      regs := PutWord(regs, EWRPTL, (p + 1) % 8192);
    }
  }
}
