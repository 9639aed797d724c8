/**
 * A snapshot of the whole chip: registers and ring together, what must hold of
 * it, what may happen to it between two SPI transactions, and what a register
 * write does to it.
 */
module EncState {
  import opened Bits
  import opened Bytes
  import opened EncRegisters
  import opened EncRing

  /**
   * `latch` is the held-back low byte of ERXRDPT. The fields after `wr` record
   * history: the receive side as in `Ring`, and `sent`, the contents of the
   * transmit buffer each time the chip was told to send it.
   */
  datatype State = State(
    ram: Ram, regs: Registers, latch: byte, wr: nat,
    head: nat, unread: seq<Frame>, stored: seq<Frame>, released: nat, sent: seq<seq<byte>>)

  function RingEnd(regs: Registers): nat {
    Word(regs, ERXNDL)
  }

  /** The receive side of the chip, with the registers that steer it read as numbers. */
  function RingOf(s: State): Ring {
    Ring(s.ram, RingEnd(s.regs), Word(s.regs, ERXRDPTL), s.wr, s.regs[EPKTCNT],
         s.head, s.unread, s.stored, s.released)
  }

  predicate Receiving(regs: Registers) {
    Bit(regs[ECON1], RXEN)
  }

  predicate Sending(regs: Registers) {
    Bit(regs[ECON1], TXRTS)
  }

  /** Room above the ring for the status vector the chip appends to a sent frame. */
  predicate StatusFits(regs: Registers) {
    RingEnd(regs) <= Word(regs, ETXNDL) && Word(regs, ETXNDL) + 7 < 8192
  }

  ghost predicate Safe(s: State) {
    && (Receiving(s.regs) ==> Word(s.regs, ERXSTL) == 0 && RingOk(RingOf(s)))
    && (Sending(s.regs) ==> StatusFits(s.regs))
    && (Receiving(s.regs) ==> !Bit(s.regs[ECON1], RXRST))
    && !Bit(s.regs[ECON2], PKTDEC)
  }

  /** The registers outside `changed` stay; ECON1 keeps all but bank and TXRTS, and TXRTS only falls. */
  ghost predicate Near(r0: Registers, r1: Registers, changed: set<byte>) {
    && (forall r: byte :: r != ECON1 && r != EPKTCNT && r !in changed ==> r1[r] == r0[r])
    && (forall k: nat :: 2 <= k < 8 && k != TXRTS ==> (Bit(r1[ECON1], k) <==> Bit(r0[ECON1], k)))
    && (Bit(r1[ECON1], TXRTS) ==> Bit(r0[ECON1], TXRTS))
  }

  /** The pointers a driver may move without disturbing reception. */
  const SCRATCH: set<byte> :=
    {ERDPTL, ERDPTL + 1, EWRPTL, EWRPTL + 1, ETXSTL, ETXSTL + 1, ETXNDL, ETXNDL + 1}

  /**
   * What may happen to the chip around a driver that writes no register but
   * those in `changed`: frames may be appended, but no byte of an unread frame
   * changes and nothing is sent.
   */
  ghost predicate Rely(s: State, t: State, changed: set<byte>) {
    && Safe(s) && Safe(t)
    && Near(s.regs, t.regs, changed)
    && t.latch == s.latch
    && t.sent == s.sent
    && (Receiving(s.regs) ==> Grows(RingOf(s), RingOf(t)))
    && (!Receiving(s.regs) ==>
          && t.stored == s.stored && t.unread == s.unread && t.head == s.head
          && t.released == s.released && t.wr == s.wr && t.regs[EPKTCNT] == s.regs[EPKTCNT])
  }

  /** By itself the chip changes RAM above the ring only while a transmission runs. */
  ghost predicate Quiet(s: State, t: State) {
    !Sending(s.regs) ==> forall a: nat :: RingEnd(s.regs) < a < 8192 ==> t.ram[a] == s.ram[a]
  }

  lemma RelyTrans(s: State, t: State, u: State, changed: set<byte>)
    requires Rely(s, t, changed) && Rely(t, u, changed) && changed <= SCRATCH
    ensures Rely(s, u, changed)
  {
    if Receiving(s.regs) {
      GrowsTrans(RingOf(s), RingOf(t), RingOf(u));
    }
  }

  /** Nothing but the chip's own doing: receptions, aborted receptions, the end of a transmission. */
  ghost predicate Traffic(s: State, t: State) {
    Rely(s, t, {}) && Quiet(s, t)
  }

  lemma TrafficIsSafe(s: State, t: State)
    requires Traffic(s, t)
    ensures Safe(t)
  {
  }

  lemma TrafficTrans(s: State, t: State, u: State)
    requires Traffic(s, t) && Traffic(t, u)
    ensures Traffic(s, u)
  {
    RelyTrans(s, t, u, {});
  }

  lemma TrafficRefl(s: State)
    requires Safe(s)
    ensures Traffic(s, s)
  {
  }

  lemma RelyWeaken(s: State, t: State, c: set<byte>, changed: set<byte>)
    requires Rely(s, t, c) && c <= changed
    ensures Rely(s, t, changed)
  {
  }

  // --- what the chip does by itself -------------------------------------------

  lemma PointersInside(s: State)
    requires Safe(s) && Receiving(s.regs)
    ensures s.wr <= RingEnd(s.regs) < 8192 && Word(s.regs, ERXRDPTL) <= RingEnd(s.regs)
  {
  }

  /** The chip after a reception that it aborts: some free bytes of the ring are spoilt. */
  lemma AbortingIsSafe(s: State, junk: seq<byte>)
    requires Safe(s) && Receiving(s.regs)
    requires |junk| <= Free(RingEnd(s.regs), s.wr, Word(s.regs, ERXRDPTL))
    ensures |junk| <= RingEnd(s.regs)
    ensures Traffic(s, s.(ram := PutRing(s.ram, RingEnd(s.regs), s.wr, junk)))
  {
    OverwritesNothing(RingOf(s), junk);
    var t := s.(ram := PutRing(s.ram, RingEnd(s.regs), s.wr, junk));
    assert RingOf(t) == RingOf(s).(ram := t.ram);
  }

  /** The chip after a reception that it completes. */
  function Received(s: State, f: Frame, status: (byte, byte)): State
    requires s.wr <= RingEnd(s.regs) < 8192
    requires HEADER + |f| <= RingEnd(s.regs) + 1 && s.regs[EPKTCNT] < 255
  {
    s.(ram := PutRing(s.ram, RingEnd(s.regs), s.wr, Image(RingEnd(s.regs), s.wr, f, status)),
       regs := s.regs[EPKTCNT := s.regs[EPKTCNT] + 1],
       wr := Next(RingEnd(s.regs), s.wr, |f|),
       unread := s.unread + [f],
       stored := s.stored + [f])
  }

  lemma ReceivingIsSafe(s: State, f: Frame, status: (byte, byte))
    requires Safe(s) && Receiving(s.regs) && s.regs[EPKTCNT] < 255
    requires HEADER + |f| <= RingEnd(s.regs) + 1
    requires Footprint(RingEnd(s.regs), s.wr, |f|) <= Free(RingEnd(s.regs), s.wr, Word(s.regs, ERXRDPTL))
    ensures Traffic(s, Received(s, f, status))
  {
    StoringIsSafe(RingOf(s), f, status);
    assert RingOf(Received(s, f, status)) == StoredIn(RingOf(s), f, status);
  }

  /** The chip after finishing a transmission: status vector written, TXRTS dropped. */
  lemma SentIsSafe(s: State, ram': Ram)
    requires Safe(s) && Sending(s.regs)
    requires forall a: nat :: a <= RingEnd(s.regs) && a < 8192 ==> ram'[a] == s.ram[a]
    ensures Traffic(s, s.(ram := ram', regs := s.regs[ECON1 := ClearBits(s.regs[ECON1], Mask(TXRTS))]))
  {
    var t := s.(ram := ram', regs := s.regs[ECON1 := ClearBits(s.regs[ECON1], Mask(TXRTS))]);
    if Receiving(s.regs) {
      AboveIsFree(RingOf(s), ram');
      assert RingOf(t) == RingOf(s).(ram := ram');
    }
  }

  // --- what a register write does ----------------------------------------------

  /** The bytes from ETXST to ETXND: the control byte and the frame. */
  function TransmitBuffer(s: State): seq<byte> {
    var st, nd := Word(s.regs, ETXSTL), Word(s.regs, ETXNDL);
    if st <= nd < 8192 then s.ram[st..nd + 1] else []
  }

  /** A register write, together with what it means for the frames in the ring. */
  ghost function Poked(s: State, r: byte, v: byte): State
    requires Safe(s)
  {
    var t := s.(regs := Written(s.regs, s.latch, r, v));
    if r == ERXRDPTL then t.(latch := v)
    else if r == ERXRDPTL + 1 && Receiving(s.regs) && s.unread != [] then
      t.(head := Next(RingEnd(s.regs), s.head, |s.unread[0]|), unread := s.unread[1..], released := s.released + 1)
    else if r == ERXSTL + 1 then t.(wr := Word(t.regs, ERXSTL))
    else if r == ECON2 && Bit(v, PKTDEC) && s.released > 0 then t.(released := s.released - 1)
    else if r == ECON1 && !Sending(s.regs) && Sending(t.regs) then t.(sent := s.sent + [TransmitBuffer(s)])
    else t
  }

  /** Registers whose write has no side effect on the frames. */
  predicate Plain(r: byte) {
    r != ECON1 && r != ECON2 && r != EPKTCNT && r != ERXRDPTL + 1 && r != ERXSTL + 1
  }

  predicate Bound(r: byte) {
    r == ERXSTL || r == ERXSTL + 1 || r == ERXNDL || r == ERXNDL + 1
  }

  /**
   * The writes that leave the chip safe. While receiving, the guard moves only
   * to just behind the frame after the oldest, EPKTCNT is counted down only for
   * a released frame, and the ring bounds stay. Reception starts only on a ring
   * in order, transmission only with room for the status vector.
   */
  ghost predicate Legal(s: State, r: byte, v: byte) {
    && Safe(s) && Named(r) && r != EPKTCNT
    && (Receiving(s.regs) ==>
          && !Bound(r)
          && (r == ERXRDPTL + 1 ==>
                && s.unread != [] && s.released == 0
                && s.latch + 256 * v == GuardAfter(RingOf(s)))
          && (r == ECON2 && Bit(v, PKTDEC) ==> s.released > 0))
    && (Sending(s.regs) ==> !Bound(r) && r != ETXNDL && r != ETXNDL + 1)
    && (r == ECON1 && !Receiving(s.regs) && Bit(v, RXEN) && !Bit(v, RXRST) ==>
          Word(s.regs, ERXSTL) == 0 && s.unread == [] && RingOk(RingOf(s)))
    && (r == ECON1 && !Sending(s.regs) && Bit(v, TXRTS) && !Bit(v, TXRST) ==> StatusFits(s.regs))
  }

  lemma GuardWriteIsSafe(s: State, v: byte)
    requires Legal(s, ERXRDPTL + 1, v) && Receiving(s.regs)
    ensures Safe(Poked(s, ERXRDPTL + 1, v))
  {
    ReleaseIsSafe(RingOf(s));
    assert RingOf(Poked(s, ERXRDPTL + 1, v)) == Released(RingOf(s));
  }

  lemma CountingIsSafe(s: State, v: byte)
    requires Legal(s, ECON2, v) && Receiving(s.regs)
    ensures Safe(Poked(s, ECON2, v))
  {
    var t := Poked(s, ECON2, v);
    if Bit(v, PKTDEC) {
      assert RingOf(t) == RingOf(s).(count := RingOf(s).count - 1, released := s.released - 1);
    } else {
      assert RingOf(t) == RingOf(s);
    }
  }

  lemma PokedIsSafe(s: State, r: byte, v: byte)
    requires Legal(s, r, v)
    ensures Safe(Poked(s, r, v))
  {
    var t := Poked(s, r, v);
    if Receiving(s.regs) {
      if r == ERXRDPTL + 1 {
        GuardWriteIsSafe(s, v);
      } else if r == ECON2 {
        CountingIsSafe(s, v);
      } else {
        assert RingOf(t) == RingOf(s);
      }
    } else if r == ECON1 && Receiving(t.regs) {
      assert RingOf(t) == RingOf(s);
    }
  }

  /** Plain writes commute with what the chip does by itself. */
  lemma PokedRely(s: State, t: State, r: byte, v: byte)
    requires Traffic(s, t) && Plain(r) && (Receiving(s.regs) ==> !Bound(r))
    requires Safe(Poked(s, r, v)) && Safe(Poked(t, r, v))
    ensures Rely(Poked(s, r, v), Poked(t, r, v), {})
    ensures !Bound(r) ==> Quiet(Poked(s, r, v), Poked(t, r, v))
  {
    var s', t' := Poked(s, r, v), Poked(t, r, v);
    assert Near(s'.regs, t'.regs, {});
    if Receiving(s.regs) {
      assert RingOf(s') == RingOf(s) && RingOf(t') == RingOf(t);
    }
  }

  /** The low half of a 16-bit write, with traffic before it. */
  lemma HalfWritten(s: State, mid: State, r: byte, v: byte)
    requires Traffic(s, mid) && Plain(r) && Legal(s, r, v)
    ensures Legal(mid, r, v) && Rely(Poked(s, r, v), Poked(mid, r, v), {})
    ensures !Bound(r) ==> Quiet(Poked(s, r, v), Poked(mid, r, v))
  {
    LegalStable(s, mid, r, 2, v);
    PokedIsSafe(s, r, v);
    PokedIsSafe(mid, r, v);
    PokedRely(s, mid, r, v);
  }

  /** The pointers of buffer memory reads, writes and transmissions, by their low bytes. */
  predicate Pointer(lo: byte) {
    lo == ERDPTL || lo == EWRPTL || lo == ETXSTL || lo == ETXNDL
  }

  lemma PointerIsLegal(s: State, lo: byte, w: nat)
    requires Safe(s) && Pointer(lo) && w < 0x10000
    requires lo == ETXNDL ==> !Sending(s.regs)
    ensures Named(lo) && Named(lo + 1) && Plain(lo)
    ensures Legal(s, lo, w % 256) && Legal(Poked(s, lo, w % 256), lo + 1, w / 256)
  {
    BankFlag(lo);
    BankFlag(lo + 1);
    PokedIsSafe(s, lo, w % 256);
  }

  /** Writing both halves of a pointer, with traffic in between, moves the pointer and nothing else. */
  lemma PointerMoved(s: State, mid: State, lo: byte, w: nat)
    requires Safe(s) && Pointer(lo) && w < 0x10000
    requires Traffic(Poked(s, lo, w % 256), mid)
    requires Legal(mid, lo + 1, w / 256)
    ensures var t := Poked(mid, lo + 1, w / 256);
            Rely(s, t, {lo, lo + 1}) && Quiet(s, t) && Word(t.regs, lo) == w
  {
    hide RingOk, Grows, Bit;
    var s' := Poked(s, lo, w % 256);
    var t := Poked(mid, lo + 1, w / 256);
    PokedIsSafe(mid, lo + 1, w / 256);
    assert s' == s.(regs := s.regs[lo := w % 256]);
    assert t == mid.(regs := mid.regs[lo + 1 := w / 256]);
    assert RingOf(s') == RingOf(s) && RingOf(t) == RingOf(mid);
    assert mid.regs[lo] == w % 256;
    assert Near(s.regs, t.regs, {lo, lo + 1});
  }

  /** Setting or clearing bank bits of ECON1 disturbs nothing. */
  lemma PokedPage(s: State, op: nat, mask: byte)
    requires Safe(s) && mask < 4 && op in {4, 5}
    ensures var v := Operand(op, s.regs[ECON1], mask);
            Legal(s, ECON1, v) && Traffic(s, Poked(s, ECON1, v))
            && Poked(s, ECON1, v).regs[ECON1] % 4 == v % 4
  {
    var v := Operand(op, s.regs[ECON1], mask);
    var t := Poked(s, ECON1, v);
    forall k: nat | k >= 2
      ensures !Bit(mask, k)
    {
      assert mask / 2 / 2 == 0;
      NoBits(k - 2);
      assert Bit(mask, k) == Bit(mask / 2 / 2, k - 2);
    }
    BankFlag(ECON1);
    PokedIsSafe(s, ECON1, v);
    assert RingOf(t) == RingOf(s);
    LowTwoBits(v);
    LowTwoBits(t.regs[ECON1]);
  }

  /** Traffic followed by such a write of ECON1. */
  lemma PageStep(s: State, mid: State, op: nat, mask: byte)
    requires Traffic(s, mid) && mask < 4 && op in {4, 5}
    ensures var v := Operand(op, mid.regs[ECON1], mask);
            var t := Poked(mid, ECON1, v);
            Traffic(s, t) && t.regs[ECON1] % 4 == v % 4
  {
    PokedPage(mid, op, mask);
    var t := Poked(mid, ECON1, Operand(op, mid.regs[ECON1], mask));
    TrafficTrans(s, mid, t);
  }

  /** Setting the bits of `page` and clearing the others leaves `page` in bits 1:0. */
  lemma PageBits(e: byte, e': byte, page: byte)
    requires page < 4 && e' % 4 == SetBits(e, page) % 4
    ensures ClearBits(e', 3 - page) % 4 == page
    ensures page == 0 ==> ClearBits(e, 3) % 4 == 0
    ensures page == 3 ==> e' % 4 == 3
  {
    LowTwoBits(e');
    LowTwoBits(SetBits(e, page));
    LowTwoBits(ClearBits(e', 3 - page));
    LowTwoBits(ClearBits(e, 3));
    LowTwoBits(page);
    LowTwoBits(3 - page);
  }

  /** What the chip does by itself never makes a legal write illegal. */
  lemma LegalStable(s: State, t: State, r: byte, op: nat, data: byte)
    requires Rely(s, t, {})
    requires Legal(s, r, Operand(op, s.regs[r], data))
    ensures Legal(t, r, Operand(op, t.regs[r], data))
  {
    if r == ECON1 && !Receiving(s.regs) {
      assert RingOk(RingOf(s)) && s.unread == [] ==> RingOk(RingOf(t));
    }
  }

  // --- reading and writing buffer memory ------------------------------------------

  /** ERDPT after one byte was read: it follows the ring at the ring end (3.2.1). */
  function ReadNext(regs: Registers): (p: nat)
    ensures p < 0x10000
  {
    var p := Word(regs, ERDPTL);
    if p == RingEnd(regs) then Word(regs, ERXSTL) % 8192 else (p + 1) % 8192
  }

  lemma PutScratch(s: State, lo: byte, w: nat)
    requires Safe(s) && w < 0x10000 && lo in {ERDPTL, EWRPTL}
    ensures Rely(s, s.(regs := PutWord(s.regs, lo, w)), {lo, lo + 1})
  {
    assert RingOf(s.(regs := PutWord(s.regs, lo, w))) == RingOf(s);
  }

  /** A byte written above the ring is nothing reception could notice. */
  lemma PutAbove(s: State, p: nat, b: byte)
    requires Safe(s) && p < 8192 && RingEnd(s.regs) < p
    ensures Safe(s.(ram := s.ram[p := b]))
    ensures Receiving(s.regs) ==> Grows(RingOf(s), RingOf(s.(ram := s.ram[p := b])))
  {
    if Receiving(s.regs) {
      AboveIsFree(RingOf(s), s.ram[p := b]);
      assert RingOf(s.(ram := s.ram[p := b])) == RingOf(s).(ram := s.ram[p := b]);
    }
  }

  // --- what the driver reads -------------------------------------------------------

  /** The registers a buffer memory read moves. */
  const READPTR: set<byte> := {ERDPTL, ERDPTL + 1}

  /** ERDPT goes once round the ring, byte by byte. */
  lemma ReadNextAt(s: State, a: nat, k: nat)
    requires Safe(s) && Receiving(s.regs) && a <= RingEnd(s.regs) && k <= RingEnd(s.regs)
    requires Word(s.regs, ERDPTL) == At(RingEnd(s.regs), a, k)
    ensures ReadNext(s.regs) == At(RingEnd(s.regs), a, k + 1)
  {
  }

  /** Whatever else happens, the bytes of a frame that was unread before can still be read. */
  lemma HeldStays(s: State, t: State, k: nat)
    requires Rely(s, t, READPTR) && Receiving(s.regs)
    requires k < End(RingEnd(s.regs), s.head, 0, s.unread)
    ensures t.ram[At(RingEnd(s.regs), s.head, k)] == s.ram[At(RingEnd(s.regs), s.head, k)]
  {
    DistAt(RingEnd(s.regs), s.head, k);
    assert Held(RingOf(s), At(RingEnd(s.regs), s.head, k));
  }

  /** `length` bytes from address `p`, which is `o` bytes after the oldest unread frame, are all unread. */
  ghost predicate InRing(s: State, p: nat, o: nat, length: nat)
    requires Safe(s)
  {
    && Receiving(s.regs)
    && o + length <= End(RingEnd(s.regs), s.head, 0, s.unread)
    && p == At(RingEnd(s.regs), s.head, o)
  }

  /**
   * A driver that was at `s` when it started to read is at `t` now. If it reads
   * frames (`inRing`), ERDPT is `o` bytes behind the start of the frame that was
   * then the oldest, and at most at the end of those that were unread then.
   */
  ghost predicate Reading(s: State, t: State, inRing: bool, o: nat) {
    && Rely(s, t, READPTR) && Quiet(s, t)
    && Bit(t.regs[ECON2], AUTOINC)
    && Word(t.regs, ERDPTL) < 8192
    && (inRing ==>
          && Receiving(s.regs)
          && s.head <= RingEnd(s.regs) < 8192
          && o <= End(RingEnd(s.regs), s.head, 0, s.unread)
          && Word(t.regs, ERDPTL) == At(RingEnd(s.regs), s.head, o))
  }

  lemma ReadStart(s: State, t: State, p: nat, o: nat, length: nat)
    requires Rely(s, t, READPTR) && Quiet(s, t) && Word(t.regs, ERDPTL) == p < 8192
    requires Bit(s.regs[ECON2], AUTOINC)
    ensures Reading(s, t, InRing(s, p, o, length), o)
  {
  }

  /** One byte further: the byte read is the one stored there at `s`. */
  lemma ReadStep(s: State, t: State, mid: State, inRing: bool, o: nat)
    requires Reading(s, t, inRing, o) && Traffic(t, mid)
    requires inRing ==> o < End(RingEnd(s.regs), s.head, 0, s.unread)
    ensures Word(mid.regs, ERDPTL) < 8192
    ensures Reading(s, mid.(regs := PutWord(mid.regs, ERDPTL, ReadNext(mid.regs))), inRing, o + 1)
    ensures inRing ==> mid.ram[Word(mid.regs, ERDPTL)] == s.ram[At(RingEnd(s.regs), s.head, o)]
  {
    RelyWeaken(t, mid, {}, READPTR);
    RelyTrans(s, t, mid, READPTR);
    assert mid.regs[ECON2] == t.regs[ECON2];
    var u := mid.(regs := PutWord(mid.regs, ERDPTL, ReadNext(mid.regs)));
    assert Quiet(s, u);
    if inRing {
      HeldStays(s, mid, o);
      ReadNextAt(mid, s.head, o);
    }
    PutScratch(mid, ERDPTL, ReadNext(mid.regs));
    RelyTrans(s, mid, u, READPTR);
  }

  // --- between two calls of the driver -----------------------------------------------

  /** Reception is on, nothing is being sent or reset, and `n` released frames have yet to be counted down. */
  ghost predicate Settled(s: State, n: nat) {
    && Safe(s) && Receiving(s.regs) && !Sending(s.regs)
    && !Bit(s.regs[ECON1], TXRST)
    && Bit(s.regs[ECON2], AUTOINC)
    && s.released == n
  }

  lemma SettledFacts(s: State)
    requires Settled(s, 0)
    ensures Safe(s) && !Sending(s.regs) && Running(s, 0) && s.head <= RingEnd(s.regs) < 8192
  {
  }

  /** How many of the stored frames the driver has consumed. */
  function Consumed(s: State): int {
    |s.stored| - |s.unread|
  }

  /** `t` comes after `s`: the stored frames have only been appended to, and the ring is the same. */
  ghost predicate Later(s: State, t: State) {
    && |s.stored| <= |t.stored| && t.stored[..|s.stored|] == s.stored
    && RingEnd(t.regs) == RingEnd(s.regs)
  }

  lemma LaterRefl(s: State)
    ensures Later(s, s)
  {
  }

  lemma LaterIsMore(s: State, t: State)
    requires Later(s, t)
    ensures |s.stored| <= |t.stored| && RingEnd(t.regs) == RingEnd(s.regs)
    ensures Consumed(t) == Consumed(s) + 1 ==> |t.unread| >= |s.unread| - 1
  {
  }

  lemma LaterTrans(s: State, t: State, u: State)
    requires Later(s, t) && Later(t, u)
    ensures Later(s, u)
  {
    assert u.stored[..|s.stored|] == u.stored[..|t.stored|][..|s.stored|];
  }

  lemma RelyIsLater(s: State, t: State, changed: set<byte>, n: nat)
    requires Rely(s, t, changed) && Settled(s, n) && changed <= SCRATCH
    ensures Settled(t, n) && Later(s, t) && Consumed(t) == Consumed(s) && t.head == s.head && t.sent == s.sent
    ensures |s.unread| <= |t.unread| && t.unread[..|s.unread|] == s.unread
  {
    assert t.regs[ECON2] == s.regs[ECON2];
  }

  lemma TrafficIsLater(s: State, t: State)
    requires Traffic(s, t) && Settled(s, 0)
    ensures Settled(t, 0) && Later(s, t) && Consumed(t) == Consumed(s) && t.head == s.head && t.sent == s.sent
    ensures RingEnd(t.regs) == RingEnd(s.regs) && |s.unread| <= |t.unread|
  {
    RelyIsLater(s, t, {}, 0);
  }

  lemma TrafficSendsNothing(s: State, t: State)
    requires Traffic(s, t)
    ensures t.sent == s.sent
  {
  }

  /** What the header in front of the oldest unread frame says, and where its bytes are. */
  lemma OldestFrame(s: State)
    requires Settled(s, 0) && s.unread != []
    ensures var nd := RingEnd(s.regs);
            var f := s.unread[0];
            && s.head <= nd < 8192
            && HEADER + |f| <= End(nd, s.head, 0, s.unread)
            && s.ram[At(nd, s.head, 0)] + 256 * s.ram[At(nd, s.head, 1)] as int == Next(nd, s.head, |f|)
            && s.ram[At(nd, s.head, 2)] + 256 * s.ram[At(nd, s.head, 3)] as int == |f| < 8192
            && forall k: nat :: k < |f| ==> s.ram[At(nd, s.head, HEADER + k)] == f[k]
  {
    var nd := RingEnd(s.regs);
    assert Entry(s.ram, nd, s.head, 0, s.unread[0]);
    assert At(nd, s.head, 0 + 1) == At(nd, s.head, 1);
    forall k: nat | k < |s.unread[0]|
      ensures s.ram[At(nd, s.head, HEADER + k)] == s.unread[0][k]
    {
      assert At(nd, s.head, 0 + HEADER + k) == At(nd, s.head, HEADER + k);
    }
  }

  lemma HeaderIsUnread(s: State)
    requires Settled(s, 0) && s.unread != []
    ensures s.head <= RingEnd(s.regs) < 8192 && HEADER + |s.unread[0]| <= RingEnd(s.regs) + 1
    ensures InRing(s, s.head, 0, HEADER)
  {
    OldestFrame(s);
  }

  lemma PayloadIsUnread(s: State)
    requires Settled(s, 0) && s.unread != []
    ensures s.head <= RingEnd(s.regs) && HEADER <= RingEnd(s.regs) + 1
    ensures InRing(s, At(RingEnd(s.regs), s.head, HEADER), HEADER, |s.unread[0]|)
  {
    OldestFrame(s);
  }

  lemma LessInRing(s: State, p: nat, o: nat, n: nat, length: nat)
    requires Safe(s) && InRing(s, p, o, length) && n <= length
    ensures InRing(s, p, o, n)
  {
  }

  /** The six bytes in front of the oldest frame give the next pointer and the byte count. */
  lemma HeaderBytes(s: State, h: seq<byte>)
    requires Settled(s, 0) && s.unread != [] && |h| == HEADER
    requires s.head <= RingEnd(s.regs) < 8192 && HEADER + |s.unread[0]| <= RingEnd(s.regs) + 1
    requires forall k: nat :: k < HEADER ==> h[k] == s.ram[At(RingEnd(s.regs), s.head, k)]
    ensures h[0] as int + 256 * h[1] as int == Next(RingEnd(s.regs), s.head, |s.unread[0]|)
    ensures h[2] as int + h[3] as int % 128 * 256 == |s.unread[0]|
  {
    OldestFrame(s);
    assert h[0] == s.ram[At(RingEnd(s.regs), s.head, 0)];
    assert h[1] == s.ram[At(RingEnd(s.regs), s.head, 1)];
    assert h[2] == s.ram[At(RingEnd(s.regs), s.head, 2)];
    assert h[3] == s.ram[At(RingEnd(s.regs), s.head, 3)];
  }

  lemma GuardIsLegal(s: State)
    requires Settled(s, 0) && s.unread != []
    ensures var w := GuardAfter(RingOf(s));
            && w < 8192
            && Legal(s, ERXRDPTL, w % 256)
            && Legal(Poked(s, ERXRDPTL, w % 256), ERXRDPTL + 1, w / 256)
  {
    var w := GuardAfter(RingOf(s));
    BankFlag(ERXRDPTL);
    BankFlag(ERXRDPTL + 1);
    PokedIsSafe(s, ERXRDPTL, w % 256);
    assert RingOf(Poked(s, ERXRDPTL, w % 256)) == RingOf(s);
  }

  /** Once both halves of the guard are written the oldest frame is consumed. */
  lemma GuardMoved(s: State, mid: State, w: nat)
    requires Settled(s, 0) && s.unread != [] && w < 0x10000
    requires Rely(Poked(s, ERXRDPTL, w % 256), mid, {}) && Legal(mid, ERXRDPTL + 1, w / 256)
    ensures var t := Poked(mid, ERXRDPTL + 1, w / 256);
            && Settled(t, 1) && Later(s, t)
            && Consumed(t) == Consumed(s) + 1 && t.sent == s.sent && Word(t.regs, ERXRDPTL) == w
            && t.head == Next(RingEnd(s.regs), s.head, |s.unread[0]|)
  {
    PokedIsSafe(mid, ERXRDPTL + 1, w / 256);
    var s' := Poked(s, ERXRDPTL, w % 256);
    assert s' == s.(latch := w % 256) && RingOf(s') == RingOf(s);
    assert mid.regs[ECON2] == s.regs[ECON2];
  }

  lemma CountDownIsLegal(s: State)
    requires Settled(s, 1)
    ensures Named(ECON2) && Legal(s, ECON2, SetBits(s.regs[ECON2], Mask(PKTDEC)))
  {
    BankFlag(ECON2);
  }

  /** PKTDEC settles the account of a released frame. */
  lemma CountedDown(s: State, mid: State)
    requires Settled(s, 1) && Traffic(s, mid)
    ensures var t := Poked(mid, ECON2, SetBits(mid.regs[ECON2], Mask(PKTDEC)));
            && Settled(t, 0) && Later(s, t) && Consumed(t) == Consumed(s) && t.head == s.head && t.sent == s.sent
            && Word(t.regs, ERXRDPTL) == Word(s.regs, ERXRDPTL)
  {
    RelyIsLater(s, mid, {}, 1);
    CountDownIsLegal(mid);
    PokedIsSafe(mid, ECON2, SetBits(mid.regs[ECON2], Mask(PKTDEC)));
  }

  lemma UnreadIsTail(s: State)
    requires Settled(s, 0)
    ensures s.regs[EPKTCNT] == |s.unread| <= |s.stored|
    ensures forall i :: 0 <= i < |s.unread| ==> s.unread[i] == s.stored[Consumed(s) + i]
  {
  }

  // --- transmission ----------------------------------------------------------------------

  /** Receiving and counted up, whether or not a transmission is under way. */
  ghost predicate Running(s: State, n: nat) {
    && Safe(s) && Receiving(s.regs)
    && Bit(s.regs[ECON2], AUTOINC)
    && s.released == n
  }

  /** Frames may have arrived since `s`; none was consumed. */
  ghost predicate Onward(s: State, t: State) {
    && Running(t, 0) && Later(s, t)
    && Consumed(t) == Consumed(s) && t.head == s.head
  }

  lemma OnwardTrans(s: State, t: State, u: State)
    requires Onward(s, t) && Onward(t, u)
    ensures Onward(s, u)
  {
    LaterTrans(s, t, u);
  }

  lemma RelyIsOnward(s: State, t: State, changed: set<byte>)
    requires Rely(s, t, changed) && Running(s, 0) && changed <= SCRATCH
    ensures Onward(s, t) && t.sent == s.sent
    ensures Sending(t.regs) ==> Sending(s.regs)
    ensures Bit(t.regs[ECON1], TXRST) == Bit(s.regs[ECON1], TXRST)
  {
    assert t.regs[ECON2] == s.regs[ECON2];
  }

  /** The even address above the ring end `nd` where frames to send start. */
  function TransmitStart(nd: nat): (a: nat)
    ensures a % 2 == 0 && nd < a <= nd + 2
  {
    (nd + 2) / 2 * 2
  }

  /** Since `s`, the bytes `data` have been written to the transmit buffer. */
  ghost predicate Filling(s: State, t: State, data: seq<byte>) {
    && Settled(s, 0) && Rely(s, t, SCRATCH)
    && var a := TransmitStart(RingEnd(s.regs));
    && a + |data| < 8192
    && Word(t.regs, ETXSTL) == a
    && Word(t.regs, EWRPTL) == a + |data|
    && t.ram[a..a + |data|] == data
  }

  lemma FillingFacts(s: State, t: State, data: seq<byte>)
    requires Filling(s, t, data)
    ensures Settled(t, 0) && Onward(s, t) && t.sent == s.sent
    ensures RingEnd(t.regs) == RingEnd(s.regs) < Word(t.regs, EWRPTL) < 8192
  {
    RelyIsLater(s, t, SCRATCH, 0);
  }

  lemma FillStart(s: State, t: State, u: State)
    requires Settled(s, 0) && TransmitStart(RingEnd(s.regs)) < 8192
    requires Rely(s, t, {ETXSTL, ETXSTL + 1}) && Word(t.regs, ETXSTL) == TransmitStart(RingEnd(s.regs))
    requires Rely(t, u, {EWRPTL, EWRPTL + 1}) && Word(u.regs, EWRPTL) == TransmitStart(RingEnd(s.regs))
    ensures Filling(s, u, [])
  {
    hide RingOk, Grows, Bit, Quiet;
    RelyWeaken(s, t, {ETXSTL, ETXSTL + 1}, SCRATCH);
    RelyWeaken(t, u, {EWRPTL, EWRPTL + 1}, SCRATCH);
    RelyTrans(s, t, u, SCRATCH);
  }

  /** Traffic leaves alone what lies above the ring. */
  lemma FillTraffic(s: State, t: State, mid: State, data: seq<byte>)
    requires Filling(s, t, data) && Traffic(t, mid)
    ensures Filling(s, mid, data)
  {
    var a := TransmitStart(RingEnd(s.regs));
    FillingFacts(s, t, data);
    RelyWeaken(t, mid, {}, SCRATCH);
    RelyTrans(s, t, mid, SCRATCH);
    assert mid.ram[a..a + |data|] == t.ram[a..a + |data|];
  }

  /** One more byte goes above the ring. */
  lemma FillPut(s: State, t: State, data: seq<byte>, b: byte)
    requires Filling(s, t, data)
    requires TransmitStart(RingEnd(s.regs)) + |data| + 1 < 8192
    ensures var p := Word(t.regs, EWRPTL);
            && p < 8192
            && Filling(s, t.(ram := t.ram[p := b], regs := PutWord(t.regs, EWRPTL, (p + 1) % 8192)), data + [b])
  {
    hide Rely, Quiet, Safe, RingOk, Grows, Settled, Bit;
    var a, p := TransmitStart(RingEnd(s.regs)), Word(t.regs, EWRPTL);
    var u := t.(ram := t.ram[p := b], regs := PutWord(t.regs, EWRPTL, (p + 1) % 8192));
    FillingFacts(s, t, data);
    RelyPut(t, p, b);
    RelyTrans(s, t, u, SCRATCH);
    assert u.ram[a..p + 1] == t.ram[a..p] + [b];
  }

  lemma RelyPut(t: State, p: nat, b: byte)
    requires Settled(t, 0) && RingEnd(t.regs) < p == Word(t.regs, EWRPTL) < 8192
    ensures Rely(t, t.(ram := t.ram[p := b], regs := PutWord(t.regs, EWRPTL, (p + 1) % 8192)), SCRATCH)
  {
    var u := t.(ram := t.ram[p := b]);
    PutAbove(t, p, b);
    assert Rely(t, u, SCRATCH);
    PutScratch(u, EWRPTL, (p + 1) % 8192);
    RelyWeaken(u, u.(regs := PutWord(u.regs, EWRPTL, (p + 1) % 8192)), {EWRPTL, EWRPTL + 1}, SCRATCH);
    RelyTrans(t, u, u.(regs := PutWord(u.regs, EWRPTL, (p + 1) % 8192)), SCRATCH);
  }

  /** With ETXND set to the last byte written, starting the transmission sends exactly what was filled in. */
  lemma SendIsLegal(s: State, t: State, u: State, data: seq<byte>)
    requires Filling(s, t, data) && data != []
    requires TransmitStart(RingEnd(s.regs)) + |data| + 6 < 8192
    requires Rely(t, u, {ETXNDL, ETXNDL + 1}) && Quiet(t, u)
    requires Word(u.regs, ETXNDL) == TransmitStart(RingEnd(s.regs)) + |data| - 1
    ensures Settled(u, 0) && Onward(s, u) && u.sent == s.sent && StatusFits(u.regs)
    ensures TransmitBuffer(u) == data
    ensures Named(ECON1) && Legal(u, ECON1, SetBits(u.regs[ECON1], Mask(TXRTS)))
  {
    hide RingOk, Grows;
    FillingFacts(s, t, data);
    RelyIsLater(t, u, {ETXNDL, ETXNDL + 1}, 0);
    RelyIsOnward(t, u, {ETXNDL, ETXNDL + 1});
    OnwardTrans(s, t, u);
    BankFlag(ECON1);
    var a := TransmitStart(RingEnd(s.regs));
    assert Word(u.regs, ETXSTL) == a;
    assert u.ram[a..a + |data|] == t.ram[a..a + |data|];
  }

  lemma Sent(s: State, mid: State, data: seq<byte>)
    requires Settled(s, 0) && StatusFits(s.regs) && TransmitBuffer(s) == data && Traffic(s, mid)
    requires Word(s.regs, ETXSTL) > RingEnd(s.regs)
    ensures var t := Poked(mid, ECON1, SetBits(mid.regs[ECON1], Mask(TXRTS)));
            Onward(s, t) && t.sent == s.sent + [data] && !Bit(t.regs[ECON1], TXRST)
  {
    RelyIsOnward(s, mid, {});
    BankFlag(ECON1);
    var t := Poked(mid, ECON1, SetBits(mid.regs[ECON1], Mask(TXRTS)));
    PokedIsSafe(mid, ECON1, SetBits(mid.regs[ECON1], Mask(TXRTS)));
    assert TransmitBuffer(mid) == TransmitBuffer(s);
    assert RingOf(t) == RingOf(mid);
  }

  lemma ResetIsLegal(s: State, op: nat)
    requires Running(s, 0) && op in {4, 5}
    ensures Named(ECON1) && Legal(s, ECON1, Operand(op, s.regs[ECON1], Mask(TXRST)))
  {
    BankFlag(ECON1);
  }

  /** Setting or clearing TXRST disturbs no reception; setting it ends the transmission. */
  lemma ResetSender(s: State, mid: State, op: nat)
    requires Running(s, 0) && Rely(s, mid, {}) && op in {4, 5}
    ensures var t := Poked(mid, ECON1, Operand(op, mid.regs[ECON1], Mask(TXRST)));
            Onward(s, t) && t.sent == s.sent
            && (op == 4 || !Sending(s.regs) ==> !Sending(t.regs))
            && (op == 5 ==> !Bit(t.regs[ECON1], TXRST))
  {
    RelyIsOnward(s, mid, {});
    ResetIsLegal(mid, op);
    var t := Poked(mid, ECON1, Operand(op, mid.regs[ECON1], Mask(TXRST)));
    PokedIsSafe(mid, ECON1, Operand(op, mid.regs[ECON1], Mask(TXRST)));
    assert RingOf(t) == RingOf(mid);
  }

  // --- set-up -------------------------------------------------------------------------------

  /** Neither receiving nor sending: only the driver changes anything. */
  ghost predicate Idle(s: State) {
    && Safe(s) && !Receiving(s.regs) && !Sending(s.regs)
    && Bit(s.regs[ECON2], AUTOINC) && !Bit(s.regs[ECON2], PKTDEC)
  }

  /** What set-up keeps while it writes one of the ring registers. */
  ghost predicate SameBut(s: State, t: State, lo: byte) {
    && Idle(t)
    && t.regs[EPKTCNT] == s.regs[EPKTCNT]
    && (lo != ERXSTL ==> Word(t.regs, ERXSTL) == Word(s.regs, ERXSTL) && t.wr == s.wr)
    && (lo != ERXNDL ==> Word(t.regs, ERXNDL) == Word(s.regs, ERXNDL))
    && (lo != ERXRDPTL ==> Word(t.regs, ERXRDPTL) == Word(s.regs, ERXRDPTL))
    && t.sent == s.sent
    && (!Bit(s.regs[ECON1], TXRST) ==> !Bit(t.regs[ECON1], TXRST))
    && (!Bit(s.regs[ECON1], RXRST) ==> !Bit(t.regs[ECON1], RXRST))
  }

  lemma CommonNames()
    ensures Named(ECON1) && Named(ECON2) && Named(EPKTCNT)
  {
    BankFlag(ECON1);
    BankFlag(ECON2);
    BankFlag(EPKTCNT);
  }

  lemma IdleTraffic(s: State, t: State)
    requires Idle(s) && Rely(s, t, {})
    ensures SameBut(s, t, 0)
  {
    assert t.regs[ECON2] == s.regs[ECON2];
  }

  lemma IdleWordIsLegal(s: State, lo: byte, w: nat)
    requires Idle(s) && lo in {ERXSTL, ERXNDL, ERXRDPTL} && w < 0x10000
    ensures Named(lo) && Named(lo + 1) && Plain(lo) && lo + 1 != ECON1 && lo + 1 != EPKTCNT
    ensures Legal(s, lo, w % 256) && Legal(Poked(s, lo, w % 256), lo + 1, w / 256)
  {
    BankFlag(lo);
    BankFlag(lo + 1);
  }

  lemma IdleWord(s: State, mid: State, lo: byte, w: nat)
    requires Idle(s) && lo in {ERXSTL, ERXNDL, ERXRDPTL} && w < 0x10000
    requires Rely(Poked(s, lo, w % 256), mid, {})
    ensures var t := Poked(mid, lo + 1, w / 256);
            SameBut(s, t, lo) && Word(t.regs, lo) == w && (lo == ERXSTL ==> t.wr == w)
  {
    var s' := Poked(s, lo, w % 256);
    assert Idle(s') && s'.latch == if lo == ERXRDPTL then w % 256 else s.latch;
    assert mid.regs[ECON2] == s'.regs[ECON2];
  }

  /** The mask ENC_ECON1_TXRST | ENC_ECON1_RXRST */
  function BothResets(): (m: byte)
    ensures forall k: nat :: Bit(m, k) <==> k == TXRST || k == RXRST
  {
    SetBits(Mask(TXRST), Mask(RXRST))
  }

  lemma ResetIsSafe(s: State, mid: State)
    requires Safe(s) && Rely(s, mid, {}) && Bit(s.regs[ECON2], AUTOINC)
    ensures Named(ECON1) && Legal(s, ECON1, SetBits(s.regs[ECON1], BothResets()))
    ensures var t := Poked(mid, ECON1, SetBits(mid.regs[ECON1], BothResets()));
            Idle(t) && RingEnd(t.regs) == RingEnd(s.regs)
  {
    hide RingOk, Grows;
    BankFlag(ECON1);
    assert mid.regs[ECON2] == s.regs[ECON2];
  }

  lemma EndOfReset(s: State, mid: State)
    requires Idle(s) && Rely(s, mid, {})
    ensures Named(ECON1) && Legal(s, ECON1, ClearBits(s.regs[ECON1], BothResets()))
    ensures var t := Poked(mid, ECON1, ClearBits(mid.regs[ECON1], BothResets()));
            SameBut(s, t, 0) && !Bit(t.regs[ECON1], TXRST) && !Bit(t.regs[ECON1], RXRST)
  {
    BankFlag(ECON1);
    IdleTraffic(s, mid);
  }

  lemma IdleCountDown(s: State, mid: State)
    requires Idle(s) && Rely(s, mid, {})
    ensures Named(ECON2) && Legal(s, ECON2, SetBits(s.regs[ECON2], Mask(PKTDEC)))
    ensures var t := Poked(mid, ECON2, SetBits(mid.regs[ECON2], Mask(PKTDEC)));
            Idle(t) && RingEnd(t.regs) == RingEnd(s.regs)
            && t.regs[EPKTCNT] == if s.regs[EPKTCNT] == 0 then 0 else s.regs[EPKTCNT] - 1
  {
    BankFlag(ECON2);
    IdleTraffic(s, mid);
  }

  /** Ring registers programmed, nothing in the ring, history wiped: reception may begin. */
  ghost predicate Prepared(s: State, nd: nat) {
    && Idle(s) && nd < 8192
    && Word(s.regs, ERXSTL) == 0 && RingEnd(s.regs) == nd && Word(s.regs, ERXRDPTL) == 0
    && s.wr == 0 && s.regs[EPKTCNT] == 0
    && s.head == 0 && s.unread == [] && s.stored == [] && s.released == 0
    && !Bit(s.regs[ECON1], TXRST) && !Bit(s.regs[ECON1], RXRST)
  }

  /** Starting the account anew on an idle chip. */
  lemma ForgettingIsSafe(s: State, nd: nat)
    requires Idle(s) && nd == RingEnd(s.regs) < 8192 && s.regs[EPKTCNT] == 0
    requires Word(s.regs, ERXSTL) == 0 && Word(s.regs, ERXRDPTL) == 0 && s.wr == 0
    requires !Bit(s.regs[ECON1], TXRST) && !Bit(s.regs[ECON1], RXRST)
    ensures Prepared(s.(head := 0, unread := [], stored := [], released := 0), nd)
    ensures Safe(s.(head := 0, unread := [], stored := [], released := 0))
  {
  }

  /** RXEN puts the ring into service empty and in order. */
  lemma ReceptionBegins(s: State, mid: State, nd: nat)
    requires Prepared(s, nd) && Rely(s, mid, {})
    ensures Named(ECON1) && Legal(s, ECON1, SetBits(s.regs[ECON1], Mask(RXEN)))
    ensures var t := Poked(mid, ECON1, SetBits(mid.regs[ECON1], Mask(RXEN)));
            Settled(t, 0) && RingEnd(t.regs) == nd && t.head == 0 && t.stored == [] && t.unread == []
  {
    BankFlag(ECON1);
    IdleTraffic(s, mid);
    var v := SetBits(mid.regs[ECON1], Mask(RXEN));
    assert RingOk(RingOf(s)) && RingOk(RingOf(mid));
    PokedIsSafe(mid, ECON1, v);
    assert mid.regs[ECON2] == s.regs[ECON2];
  }

  lemma ResetsStayClear(s: State, mid: State)
    requires Settled(s, 0) && Rely(s, mid, {})
    ensures Named(ECON1) && Legal(s, ECON1, ClearBits(s.regs[ECON1], BothResets()))
    ensures var t := Poked(mid, ECON1, ClearBits(mid.regs[ECON1], BothResets()));
            Settled(t, 0) && Later(s, t) && Consumed(t) == Consumed(s) && t.head == s.head && t.sent == s.sent
  {
    BankFlag(ECON1);
    RelyIsLater(s, mid, {}, 0);
    var v := ClearBits(mid.regs[ECON1], BothResets());
    PokedIsSafe(mid, ECON1, v);
    assert RingOf(Poked(mid, ECON1, v)) == RingOf(mid);
  }
}
