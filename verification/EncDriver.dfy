/** The ENC28J60 driver (enc28j60.c) and its lwIP glue (mchdrv.c). */
module EncDriver {
  import opened Bits
  import opened Bytes
  import opened EncRegisters
  import opened EncRing
  import opened EncState
  import opened EncChip
  import opened Pbufs

  /** The location argument that means "go on reading where ERDPT is". */
  const ANYWHERE: nat := 0xffff

  /** What became of a frame: handed to lwIP without its CRC, or dropped. */
  datatype Fate = Delivered(bytes: seq<byte>) | TooShort | TooLong | NoMemory

  /** Frames for which memory is asked. */
  predicate Ordinary(f: Frame) { 4 <= |f| <= 32004 }

  /** The fate of a frame, given whether memory for it can be had. */
  function FateOf(f: Frame, memory: bool): Fate {
    if |f| < 4 then TooShort
    else if |f| > 32004 then TooLong
    else if memory then Delivered(f[..|f| - 4])
    else NoMemory
  }

  lemma FateIs(f: Frame, memory: bool)
    ensures Ordinary(f) <==> 4 <= |f| <= 32004
    ensures FateOf(f, memory).Delivered? <==> 4 <= |f| <= 32004 && memory
    ensures FateOf(f, memory).Delivered? ==> FateOf(f, memory).bytes == f[..|f| - 4]
  {
  }

  /** How often memory is asked for. */
  function Tries(q: seq<Frame>): nat {
    if q == [] then 0 else Tries(q[..|q| - 1]) + if Ordinary(q[|q| - 1]) then 1 else 0
  }

  /** The fates of the frames in order; `pool(i)` says whether the i-th allocation succeeds, and `k` is the first. */
  function Fates(q: seq<Frame>, k: nat, pool: nat -> bool): (r: seq<Fate>)
    ensures |r| == |q|
  {
    if q == [] then []
    else
      var front := q[..|q| - 1];
      Fates(front, k, pool) + [FateOf(q[|q| - 1], pool(k + Tries(front)))]
  }

  /**
   * Frames of less than 4 or more than 32004 bytes are dropped without asking
   * for memory; any other is delivered without its last four bytes if its own
   * allocation succeeds, and otherwise lost for want of memory.
   */
  lemma {:induction false} FatesAt(q: seq<Frame>, k: nat, pool: nat -> bool, i: nat)
    requires i < |q|
    ensures Fates(q, k, pool)[i] == TooShort <==> |q[i]| < 4
    ensures Fates(q, k, pool)[i] == TooLong <==> |q[i]| > 32004
    ensures 4 <= |q[i]| <= 32004 && pool(k + Tries(q[..i])) ==> Fates(q, k, pool)[i] == Delivered(q[i][..|q[i]| - 4])
    ensures Fates(q, k, pool)[i] == NoMemory <==> 4 <= |q[i]| <= 32004 && !pool(k + Tries(q[..i]))
    ensures Tries(q[..i + 1]) == Tries(q[..i]) + if 4 <= |q[i]| <= 32004 then 1 else 0
    decreases |q|
  {
    var front := q[..|q| - 1];
    if i < |front| {
      FatesAt(front, k, pool, i);
      assert front[..i] == q[..i] && front[..i + 1] == q[..i + 1];
    } else {
      assert q[..i + 1] == q && q[..i] == front;
    }
  }

  /** What lwIP is handed for these fates. */
  function Handed(fates: seq<Fate>): seq<Delivery> {
    if fates == [] then []
    else
      var fate := fates[|fates| - 1];
      Handed(fates[..|fates| - 1]) + if fate.Delivered? then [Delivery(fate.bytes, true)] else []
  }

  /** One sound chain for each delivered frame, in order, and nothing else. */
  lemma {:induction false} HandedAt(fates: seq<Fate>, i: nat)
    requires i < |fates|
    ensures |Handed(fates[..i + 1])| == |Handed(fates[..i])| + if fates[i].Delivered? then 1 else 0
    ensures |Handed(fates[..i + 1])| <= |Handed(fates)|
    ensures fates[i].Delivered? ==> Handed(fates)[|Handed(fates[..i])|] == Delivery(fates[i].bytes, true)
    decreases |fates|
  {
    var front := fates[..|fates| - 1];
    if i < |front| {
      HandedAt(front, i);
      assert front[..i] == fates[..i] && front[..i + 1] == fates[..i + 1];
    } else {
      assert fates[..i + 1] == fates && fates[..i] == front;
    }
  }

  lemma NothingHanded()
    ensures Handed([]) == []
  {
  }

  lemma HandedSnoc(fates: seq<Fate>, fate: Fate)
    ensures Handed(fates + [fate]) == Handed(fates) + if fate.Delivered? then [Delivery(fate.bytes, true)] else []
  {
    assert (fates + [fate])[..|fates|] == fates;
  }

  lemma FatesSnoc(q: seq<Frame>, f: Frame, k: nat, pool: nat -> bool)
    ensures Fates(q + [f], k, pool) == Fates(q, k, pool) + [FateOf(f, pool(k + Tries(q)))]
    ensures Tries(q + [f]) == Tries(q) + if Ordinary(f) then 1 else 0
  {
    assert (q + [f])[..|q|] == q;
  }

  /** The log tells, in order and without gaps, the fate of every frame consumed so far. */
  ghost predicate Account(s: State, log: seq<Fate>, first: nat, allocs: nat, pool: nat -> bool) {
    && 0 <= Consumed(s) <= |s.stored|
    && log == Fates(s.stored[..Consumed(s)], first, pool)
    && allocs == first + Tries(s.stored[..Consumed(s)])
  }

  lemma AccountStays(s: State, t: State, log: seq<Fate>, first: nat, allocs: nat, pool: nat -> bool)
    requires Account(s, log, first, allocs, pool) && Later(s, t) && Consumed(t) == Consumed(s)
    ensures Account(t, log, first, allocs, pool)
  {
    assert t.stored[..Consumed(t)] == s.stored[..Consumed(s)];
  }

  /** Consuming the oldest unread frame adds one fate. */
  lemma AccountGrows(s: State, t: State, log: seq<Fate>, first: nat, allocs: nat, pool: nat -> bool)
    requires Account(s, log, first, allocs, pool) && Later(s, t) && Consumed(t) == Consumed(s) + 1
    requires Settled(s, 0) && s.unread != []
    ensures Account(t, log + [FateOf(s.unread[0], pool(allocs))], first,
                    allocs + if Ordinary(s.unread[0]) then 1 else 0, pool)
  {
    hide Fates, Tries, Settled, FateOf, Ordinary;
    var c := Consumed(s);
    UnreadIsTail(s);
    assert s.unread[0] == s.stored[c];
    assert t.stored[..c + 1] == s.stored[..c] + [s.stored[c]];
    FatesSnoc(s.stored[..c], s.stored[c], first, pool);
  }

  /** `count` deliveries, or fewer and then a drop. */
  predicate StopsAtDrop(fates: seq<Fate>, count: nat) {
    && |fates| <= count
    && (forall i :: 0 <= i < |fates| - 1 ==> fates[i].Delivered?)
    && (|fates| < count ==> |fates| > 0 && !fates[|fates| - 1].Delivered?)
  }

  predicate AllDelivered(fates: seq<Fate>) {
    forall i :: 0 <= i < |fates| ==> fates[i].Delivered?
  }

  lemma OneMore(before: seq<Fate>, fates: seq<Fate>, fate: Fate)
    requires AllDelivered(fates)
    ensures (before + fates) + [fate] == before + (fates + [fate])
    ensures AllDelivered((fates + [fate])[..|fates|])
    ensures fate.Delivered? ==> AllDelivered(fates + [fate])
  {
    assert (fates + [fate])[..|fates|] == fates;
  }

  lemma Stopped(fates: seq<Fate>, count: nat)
    requires |fates| <= count && (fates == [] || AllDelivered(fates[..|fates| - 1]))
    requires |fates| == count || (|fates| > 0 && !fates[|fates| - 1].Delivered?)
    ensures StopsAtDrop(fates, count)
    ensures forall i :: 0 <= i < |fates| - 1 ==> fates[i].Delivered?
    ensures |fates| < count ==> |fates| > 0 && !fates[|fates| - 1].Delivered?
  {
    if fates != [] {
      assert forall i :: 0 <= i < |fates| - 1 ==> fates[i] == fates[..|fates| - 1][i];
    }
  }

  lemma Drained(fates: seq<Fate>, count: nat)
    requires |fates| == count && (count == 0 || AllDelivered(fates))
    ensures StopsAtDrop(fates, count) && AllDelivered(fates)
    ensures forall i :: 0 <= i < |fates| ==> fates[i].Delivered?
  {
  }

  class Device {
    const chip: Chip
    var lastUsed: byte
    var rxbufsize: nat
    var nextFrame: nat
    var up: bool
    // what the allocations will answer, in order, and how many there were
    const pool: nat -> bool
    var allocs: nat
    ghost var log: seq<Fate>
    ghost var first: nat      // allocations before the log begins
    // all that netif->input was ever given, and what of that before the log begins
    ghost var inputs: seq<Delivery>
    ghost var earlier: seq<Delivery>

    ghost predicate Valid()
      reads this`lastUsed, chip, chip.ram
    {
      chip.Valid() && lastUsed == INDETERMINATE
    }

    constructor (c: Chip, poolAnswers: nat -> bool)
      requires c.Valid()
      ensures Valid() && chip == c && pool == poolAnswers && rxbufsize == 0xffff && !up && inputs == []
    {
      chip := c;
      pool, allocs, first := poolAnswers, 0, 0;
      lastUsed := INDETERMINATE;
      rxbufsize := 0xffff;
      nextFrame := 0;
      up := false;
      log, inputs, earlier := [], [], [];
    }

    // --- banked registers ---------------------------------------------------------

    /** All-bank constants are accessible at once, others cost a page selection. */
    static function Cost(r: byte): nat {
      if BankBits(r) == BANKALL then 0 else 2
    }

    /** Whatever bank was selected, bits 1:0 of ECON1 become `page`; the other registers stay. */
    method SelectPage(page: byte)
      requires Valid() && page < 4
      modifies chip, chip.ram
      ensures Valid() && chip.regs[ECON1] % 4 == page
      ensures Traffic(old(chip.V()), chip.V())
      decreases 1, 0
    {
      hide Traffic, Safe, Legal, Poked, SetBits, ClearBits;
      ghost var s := chip.V();
      TrafficRefl(s);
      var set_, clear := page % 4, (255 - page) % 4;
      ghost var base := s.regs[ECON1];
      if set_ != 0 {
        PokedPage(s, 4, set_);
        ghost var mid := BFS(ECON1, set_);
        PageStep(s, mid, 4, set_);
        base := mid.regs[ECON1];
        PageBits(base, chip.regs[ECON1], page);
      }
      if clear != 0 {
        ghost var t := chip.V();
        PokedPage(t, 5, clear);
        ghost var mid := BFC(ECON1, clear);
        PageStep(t, mid, 5, clear);
        TrafficTrans(s, t, chip.V());
        if set_ == 0 {
          PageBits(mid.regs[ECON1], SetBits(mid.regs[ECON1], 0), 0);
        } else {
          PageBits(base, mid.regs[ECON1], page);
        }
      }
    }

    method EnsureRegisterAccessible(r: byte)
      requires Valid() && Named(r)
      modifies chip, chip.ram
      ensures Valid() && chip.Target(Address(r)) == r
      ensures BankBits(r) == BANKALL ==> chip.V() == old(chip.V())
      ensures Traffic(old(chip.V()), chip.V())
      decreases Cost(r), 0
    {
      TrafficRefl(chip.V());
      BankFlag(r);
      DecodeReaches(r, chip.regs[ECON1] % 4);
      if BankBits(r) == BANKALL { return; }
      if BankBits(r) == lastUsed { return; }
      SelectPage(Page(r));
      DecodeReaches(r, chip.regs[ECON1] % 4);
    }

    method RCR(r: byte) returns (v: byte)
      requires Valid() && Named(r)
      modifies chip, chip.ram
      ensures Valid() && v == chip.regs[r]
      ensures Traffic(old(chip.V()), chip.V())
      decreases Cost(r), 1
    {
      EnsureRegisterAccessible(r);
      ghost var s := chip.V();
      ghost var mid;
      v, mid := chip.Command(Address(r), 0);
      TrafficTrans(old(chip.V()), s, mid);
    }

    /** `command` behind the three writing accessors; `code` is the operation code in place. */
    method Access(code: byte, r: byte, data: byte) returns (ghost mid: State)
      requires Valid() && Named(r) && code in {0x40, 0x80, 0xa0}
      modifies chip, chip.ram
      ensures chip.ram.Length == 8192 && Traffic(old(chip.V()), mid)
      ensures Legal(old(chip.V()), r, Operand(code / 32, old(chip.regs[r]), data)) ==> Valid()
      ensures BankBits(r) == BANKALL ==> mid.regs[ECON1] % 4 == old(chip.regs[ECON1]) % 4
      ensures chip.V() == Poked(mid, r, Operand(code / 32, mid.regs[r], data))
      decreases Cost(r), 1
    {
      hide Rely, Quiet, Safe, Legal, Poked, Named, Operand;
      EnsureRegisterAccessible(r);
      ghost var s := chip.V();
      if Legal(old(chip.V()), r, Operand(code / 32, old(chip.regs[r]), data)) {
        LegalStable(old(chip.V()), s, r, code / 32, data);
      }
      var first := code + Address(r);
      assert first / 32 == code / 32 && first % 32 == Address(r);
      assert chip.Target(first) == r;
      ghost var reply;
      reply, mid := chip.Command(first, data);
      TrafficTrans(old(chip.V()), s, mid);
    }

    /**
     * The writing accessors. `mid` is the chip just before the write: up to
     * then nothing but the chip's own traffic has happened, and the write
     * reaches the register `r` names, whatever bank was selected before. A
     * legal write leaves the chip valid.
     */
    method WCR(r: byte, data: byte) returns (ghost mid: State)
      requires Valid() && Named(r)
      modifies chip, chip.ram
      ensures chip.ram.Length == 8192 && Traffic(old(chip.V()), mid)
      ensures Legal(old(chip.V()), r, data) ==> Valid()
      ensures chip.V() == Poked(mid, r, data)
      decreases Cost(r), 2
    {
      mid := Access(0x40, r, data);
    }

    method BFS(r: byte, data: byte) returns (ghost mid: State)
      requires Valid() && Named(r)
      modifies chip, chip.ram
      ensures chip.ram.Length == 8192 && Traffic(old(chip.V()), mid)
      ensures Legal(old(chip.V()), r, SetBits(old(chip.regs[r]), data)) ==> Valid()
      ensures BankBits(r) == BANKALL ==> mid.regs[ECON1] % 4 == old(chip.regs[ECON1]) % 4
      ensures chip.V() == Poked(mid, r, SetBits(mid.regs[r], data))
      decreases Cost(r), 2
    {
      mid := Access(0x80, r, data);
    }

    method BFC(r: byte, data: byte) returns (ghost mid: State)
      requires Valid() && Named(r)
      modifies chip, chip.ram
      ensures chip.ram.Length == 8192 && Traffic(old(chip.V()), mid)
      ensures Legal(old(chip.V()), r, ClearBits(old(chip.regs[r]), data)) ==> Valid()
      ensures BankBits(r) == BANKALL ==> mid.regs[ECON1] % 4 == old(chip.regs[ECON1]) % 4
      ensures chip.V() == Poked(mid, r, ClearBits(mid.regs[r], data))
      decreases Cost(r), 2
    {
      mid := Access(0xa0, r, data);
    }

    /** The registers `enc_RCR16` and `enc_WCR16` are meant for: an even low byte with its high byte after it. */
    static predicate Pair(lo: byte) {
      lo % 2 == 0 && Named(lo) && Named(lo + 1) && lo + 1 != ECON1 && lo + 1 != EPKTCNT
    }

    method RCR16(r: byte) returns (w: nat)
      requires Valid() && Pair(r / 2 * 2)
      modifies chip, chip.ram
      ensures Valid() && w == Word(chip.regs, r / 2 * 2)
      ensures Traffic(old(chip.V()), chip.V())
    {
      ghost var s := chip.V();
      var hi := RCR(r / 2 * 2 + 1);
      ghost var t := chip.V();
      var lo := RCR(r / 2 * 2);
      TrafficTrans(s, t, chip.V());
      w := hi as int * 256 + lo as int;
    }

    /** Low byte first, then the high byte; frames may arrive in between. */
    method WCR16(r: byte, data: nat) returns (ghost mid: State)
      requires Valid() && data < 0x10000 && Pair(r / 2 * 2) && Plain(r / 2 * 2)
      requires Legal(chip.V(), r / 2 * 2, data % 256)
      modifies chip, chip.ram
      ensures chip.ram.Length == 8192
      ensures Rely(Poked(old(chip.V()), r / 2 * 2, data % 256), mid, {})
      ensures !Bound(r / 2 * 2) ==> Quiet(Poked(old(chip.V()), r / 2 * 2, data % 256), mid)
      ensures Legal(Poked(old(chip.V()), r / 2 * 2, data % 256), r / 2 * 2 + 1, data / 256) ==>
                Valid() && Legal(mid, r / 2 * 2 + 1, data / 256)
      ensures chip.V() == Poked(mid, r / 2 * 2 + 1, data / 256)
    {
      hide Rely, Quiet, Safe, Legal, Poked, Named;
      var lo := r / 2 * 2;
      ghost var s := chip.V();
      ghost var mid0 := WCR(lo, data % 256);
      HalfWritten(s, mid0, lo, data % 256);
      ghost var t := chip.V();
      if Legal(Poked(s, lo, data % 256), lo + 1, data / 256) {
        LegalStable(Poked(s, lo, data % 256), t, lo + 1, 2, data / 256);
      }
      mid := WCR(lo + 1, data / 256);
      if Legal(t, lo + 1, data / 256) {
        LegalStable(t, mid, lo + 1, 2, data / 256);
      }
      RelyTrans(Poked(s, lo, data % 256), t, mid, {});
      if !Bound(lo) {
        TrafficTrans(Poked(s, lo, data % 256), t, mid);
      }
    }

    /** Moving a buffer memory or transmit pointer. */
    method WritePointer(lo: byte, data: nat)
      requires Valid() && Pointer(lo) && data < 0x10000
      requires lo == ETXNDL ==> !Sending(chip.regs)
      modifies chip, chip.ram
      ensures Valid() && Word(chip.regs, lo) == data
      ensures Rely(old(chip.V()), chip.V(), {lo, lo + 1}) && Quiet(old(chip.V()), chip.V())
    {
      hide Rely, Quiet, Safe, Legal, Poked, Named;
      ghost var s := chip.V();
      PointerIsLegal(s, lo, data);
      ghost var mid := WCR16(lo, data);
      PointerMoved(s, mid, lo, data);
    }

    // --- reception ------------------------------------------------------------------

    /**
     * `enc_RBM`. Reading starts at `start`, or goes on where ERDPT is. The ghost
     * offset `o` says how far behind the oldest unread frame that is; every byte
     * of a frame that was unread at the call is read as it was stored.
     */
    method RBM(start: nat, length: nat, ghost o: nat) returns (dest: seq<byte>)
      requires Valid() && Bit(chip.regs[ECON2], AUTOINC)
      requires start == ANYWHERE || start < 8192
      requires start == ANYWHERE ==> Word(chip.regs, ERDPTL) < 8192
      modifies chip, chip.ram
      ensures Valid() && |dest| == length && Word(chip.regs, ERDPTL) < 8192
      ensures Rely(old(chip.V()), chip.V(), READPTR)
      ensures Quiet(old(chip.V()), chip.V())
      ensures var s := old(chip.V());
              InRing(s, if start == ANYWHERE then Word(s.regs, ERDPTL) else start, o, length) ==>
                && Word(chip.regs, ERDPTL) == At(RingEnd(s.regs), s.head, o + length)
                && forall k: nat :: k < length ==> dest[k] == s.ram[At(RingEnd(s.regs), s.head, o + k)]
    {
      hide Rely, Quiet, Safe, RingOk;
      ghost var s := chip.V();
      TrafficRefl(s);
      RelyWeaken(s, s, {}, READPTR);
      if start != ANYWHERE {
        WritePointer(ERDPTL, start);
      }
      ghost var inRing := InRing(s, Word(chip.regs, ERDPTL), o, length);
      ReadStart(s, chip.V(), Word(chip.regs, ERDPTL), o, length);
      dest := [];
      var i := 0;
      while i < length
        invariant 0 <= i == |dest| <= length
        invariant Valid() && Reading(s, chip.V(), inRing, o + i)
        invariant inRing ==> forall k: nat :: k < i ==> dest[k] == s.ram[At(RingEnd(s.regs), s.head, o + k)]
      {
        ghost var t := chip.V();
        var b;
        ghost var mid;
        b, mid := chip.ReadByte();
        dest := dest + [b];
        ReadStep(s, t, mid, inRing, o + i);
        i := i + 1;
      }
    }

    /** Between calls: the driver's idea of the next frame is the chip's oldest unread one. */
    ghost predicate Ready()
      reads this`lastUsed, this`nextFrame, this`rxbufsize, chip, chip.ram
    {
      Valid() && Settled(chip.V(), 0) && nextFrame == chip.head && rxbufsize == RingEnd(chip.regs)
    }

    /** Header of the oldest unread frame; the length is that of the frame with its CRC. */
    method ReceiveStart() returns (header: seq<byte>, length: nat)
      requires Ready() && chip.unread != []
      modifies chip, chip.ram
      ensures Ready() && |header| == 6 && Rely(old(chip.V()), chip.V(), READPTR)
      ensures chip.unread != [] && chip.unread[0] == old(chip.unread[0])
      ensures length == |chip.unread[0]|
      ensures header[0] as int + 256 * header[1] as int
              == Next(RingEnd(chip.regs), chip.head, |chip.unread[0]|)
      ensures InRing(chip.V(), Word(chip.regs, ERDPTL), 6, length)
    {
      hide Rely, Quiet, Safe, RingOk, Grows, InRing, Next;
      ghost var s := chip.V();
      HeaderIsUnread(s);
      header := RBM(nextFrame, 6, 0);
      HeaderBytes(s, header);
      RelyIsLater(s, chip.V(), READPTR, 0);
      PayloadIsUnread(chip.V());
      length := header[2] as int + header[3] as int % 128 * 256;
    }

    /**
     * The frame whose header was read leaves the ring: the next pointer becomes
     * the driver's, the guard moves to just behind it, EPKTCNT is counted down.
     */
    method ReceiveEnd(header: seq<byte>)
      requires Ready() && chip.unread != [] && |header| == 6
      requires header[0] as int + 256 * header[1] as int
               == Next(RingEnd(chip.regs), chip.head, |chip.unread[0]|)
      modifies this`nextFrame, chip, chip.ram
      ensures Ready() && Later(old(chip.V()), chip.V())
      ensures Consumed(chip.V()) == Consumed(old(chip.V())) + 1 && chip.sent == old(chip.sent)
      ensures nextFrame == header[0] as int + 256 * header[1] as int
      ensures Word(chip.regs, ERXRDPTL) == if nextFrame == 0 then RingEnd(chip.regs) else nextFrame - 1
    {
      hide Rely, Quiet, Safe, Legal, Poked, Later, RingOk, Next;
      nextFrame := header[0] as int + 256 * header[1] as int;
      ghost var s := chip.V();
      OldestFrame(s);
      TrafficRefl(s);
      var w;
      if nextFrame == 0 {
        w := RCR16(ERXNDL);
      } else {
        w := nextFrame - 1;
      }
      ghost var t := chip.V();
      RelyIsLater(s, t, {}, 0);
      GuardIsLegal(t);
      ghost var mid := WCR16(ERXRDPTL, w);
      GuardMoved(t, mid, w);
      ghost var u := chip.V();
      CountDownIsLegal(u);
      mid := BFS(ECON2, Mask(PKTDEC));
      CountedDown(u, mid);
      LaterIsMore(s, t);
      LaterIsMore(t, u);
      LaterIsMore(u, chip.V());
      LaterTrans(s, t, u);
      LaterTrans(s, u, chip.V());
    }

    /** The log tells, in order and without gaps, the fate of every frame consumed so far, and lwIP was given those. */
    ghost predicate Accounted()
      reads this, chip, chip.ram
    {
      Ready() && Account(chip.V(), log, first, allocs, pool) && inputs == earlier + Handed(log)
    }

    /** `pbuf_alloc(PBUF_RAW, length, PBUF_RAM)`: one link of the length asked for, or nothing. */
    method PbufAlloc(length: nat) returns (p: Pbuf?)
      modifies this`allocs
      ensures allocs == old(allocs) + 1 && (p != null <==> pool(old(allocs)))
      ensures p != null ==>
                && fresh(p) && |p.payload| == length
                && p.len == p.totLen == length && p.next == null
    {
      p := null;
      if pool(allocs) {
        p := new Pbuf(length);
      }
      allocs := allocs + 1;
    }

    /**
     * `enc_read_received_pbuf` on an empty `*buf`: exactly the oldest frame is
     * consumed, and it is in the pbuf, without its CRC, unless its length is out
     * of bounds or the allocation fails.
     */
    method ReadReceivedPbuf() returns (buf: Pbuf?)
      requires Ready() && chip.unread != []
      modifies this`nextFrame, this`allocs, chip, chip.ram
      ensures Ready() && Later(old(chip.V()), chip.V())
      ensures Consumed(chip.V()) == Consumed(old(chip.V())) + 1 && chip.sent == old(chip.sent)
      ensures var f := old(chip.unread[0]);
              && allocs == old(allocs) + (if 4 <= |f| <= 32004 then 1 else 0)
              && (buf != null <==> 4 <= |f| <= 32004 && pool(old(allocs)))
              && (buf != null ==> fresh(buf) && Chain([buf]) && buf.payload == buf.Data() == f[..|f| - 4])
    {
      hide Rely, Quiet, Safe, Legal, Poked, RingOk, Settled, Later;
      buf := null;
      ghost var f := chip.unread[0];
      ghost var s := chip.V();
      ReadyIsSettled();
      var header, length := ReceiveStart();
      ReadyIsSettled();
      ghost var t := chip.V();
      RelyIsLater(s, t, READPTR, 0);
      if 4 <= length && length - 4 <= 32000 {
        buf := PbufAlloc(length - 4);
        if buf != null {
          ReadPayload(buf, length - 4);
        }
      }
      ghost var u := chip.V();
      ReadyIsSettled();
      ReceiveEnd(header);
      LaterTrans(s, t, u);
      LaterTrans(s, u, chip.V());
    }

    /** The copy of a frame's bytes, all but the last four, into the buffer. */
    method ReadPayload(buf: Pbuf, n: nat)
      requires Ready() && chip.unread != [] && n + 4 == |chip.unread[0]|
      requires InRing(chip.V(), Word(chip.regs, ERDPTL), 6, n + 4) && |buf.payload| == buf.len == n
      modifies chip, chip.ram, buf`payload
      ensures Ready() && Later(old(chip.V()), chip.V()) && Consumed(chip.V()) == Consumed(old(chip.V()))
      ensures chip.unread != [] && chip.unread[0] == old(chip.unread[0]) && chip.head == old(chip.head)
      ensures RingEnd(chip.regs) == old(RingEnd(chip.regs)) && chip.sent == old(chip.sent)
      ensures buf.payload == buf.Data() == old(chip.unread[0])[..n]
    {
      hide Rely, Quiet, Safe, Legal, Poked, RingOk, Settled, Later;
      ghost var t := chip.V();
      ReadyIsSettled();
      OldestFrame(t);
      LessInRing(t, Word(chip.regs, ERDPTL), 6, n, n + 4);
      buf.payload := RBM(ANYWHERE, n, 6);
      RelyIsLater(t, chip.V(), READPTR, 0);
      LaterIsMore(t, chip.V());
      assert buf.Data() == t.unread[0][..n];
    }

    /** The chip's snapshot, field by field. */
    lemma Snapshot()
      requires Valid()
      ensures chip.ram.Length == 8192 && Safe(chip.V())
      ensures chip.V() == State(chip.ram[..], chip.regs, chip.latch, chip.wr, chip.head, chip.unread,
                                chip.stored, chip.released, chip.sent)
    {
    }

    lemma ReadyIsSettled()
      requires Ready()
      ensures Valid() && Settled(chip.V(), 0) && nextFrame == chip.head && rxbufsize == RingEnd(chip.regs)
    {
    }

    lemma AccountedIs()
      requires Accounted()
      ensures Ready() && Account(chip.V(), log, first, allocs, pool) && Settled(chip.V(), 0) && Valid()
      ensures inputs == earlier + Handed(log)
    {
    }

    /** What the log means for one frame, and what of it lwIP was given. */
    lemma WhatLwipGot(i: nat)
      requires Accounted() && i < |log|
      ensures |log| <= |chip.stored|
      ensures var f, k := chip.stored[i], first + Tries(chip.stored[..i]);
              var j := |earlier| + |Handed(log[..i])|;
              && (log[i] == TooShort <==> |f| < 4) && (log[i] == TooLong <==> |f| > 32004)
              && (log[i] == NoMemory <==> 4 <= |f| <= 32004 && !pool(k))
              && (4 <= |f| <= 32004 && pool(k) ==>
                    log[i] == Delivered(f[..|f| - 4]) && j < |inputs| && inputs[j] == Delivery(f[..|f| - 4], true))
    {
      hide Ready, Fates, Tries, Handed;
      var q := chip.stored[..|log|];
      FatesAt(q, first, pool, i);
      assert q[..i] == chip.stored[..i];
      HandedAt(log, i);
    }

    /** `netif->input`, whose answer is ignored; it is given the links `ps`. */
    method NetifInput(p: Pbuf, ghost ps: seq<Pbuf>)
      requires ps != [] && ps[0] == p
      modifies this`inputs
      ensures inputs == old(inputs) + [Delivery(Contents(ps), Chain(ps))]
    {
      inputs := inputs + [Delivery(Contents(ps), Chain(ps))];
    }

    lemma OneLink(p: Pbuf)
      ensures Contents([p]) == p.Data()
    {
      assert [p][1..] == [];
      assert Blocks([p]) == [p.Data()];
      FlattenSnoc([], p.Data());
      assert [] + [p.Data()] == [p.Data()];
    }

    /** One round of the poll loop: the oldest frame goes to `netif->input` or is dropped, and is logged. */
    method PollOne() returns (received: bool, ghost fate: Fate)
      requires Accounted() && chip.unread != []
      modifies this`nextFrame, this`allocs, this`log, this`inputs, chip, chip.ram
      ensures Accounted() && Later(old(chip.V()), chip.V()) && chip.sent == old(chip.sent)
      ensures |chip.unread| >= |old(chip.unread)| - 1
      ensures var f := old(chip.unread[0]);
              && (received <==> 4 <= |f| <= 32004 && pool(old(allocs)))
              && inputs == old(inputs) + (if received then [Delivery(f[..|f| - 4], true)] else [])
      ensures log == old(log) + [fate] && received == fate.Delivered?
      ensures inputs == old(inputs) + Handed([fate])
    {
      hide *;
      AccountedIs();
      Snapshot();
      ghost var s, k := chip.V(), allocs;
      UnreadIsTail(s);
      var buf := ReadReceivedPbuf();
      received := buf != null;
      fate := FateOf(s.unread[0], pool(k));
      FateIs(s.unread[0], pool(k));
      if buf != null {
        OneLink(buf);
        NetifInput(buf, [buf]);
      }
      HandedSnoc(log, fate);
      HandedSnoc([], fate);
      NothingHanded();
      assert [] + [fate] == [fate];
      ReadyIsSettled();
      Snapshot();
      AccountGrows(s, chip.V(), log, first, k, pool);
      UnreadIsTail(chip.V());
      LaterIsMore(s, chip.V());
      log := log + [fate];
      IsAccounted();
    }

    lemma IsAccounted()
      requires Ready() && Account(chip.V(), log, first, allocs, pool) && inputs == earlier + Handed(log)
      ensures Accounted()
    {
    }

    /** The loop of `mchdrv_poll`. */
    method Drain(count: nat) returns (ghost fates: seq<Fate>)
      requires Accounted() && count <= |chip.unread|
      modifies this`nextFrame, this`allocs, this`log, this`inputs, chip, chip.ram
      ensures Accounted() && Later(old(chip.V()), chip.V()) && chip.sent == old(chip.sent)
      ensures log == old(log) + fates && StopsAtDrop(fates, count)
      ensures forall i :: 0 <= i < |fates| - 1 ==> fates[i].Delivered?
      ensures |fates| < count ==> fates != [] && !fates[|fates| - 1].Delivered?
      ensures inputs == old(inputs) + Handed(fates)
    {
      hide *;
      AccountedIs();
      Snapshot();
      NothingHanded();
      ghost var s, log0, inputs0 := chip.V(), log, inputs;
      LaterRefl(s);
      fates := [];
      Drained([], 0);
      var epktcnt := count;
      while epktcnt != 0
        invariant Accounted() && chip.ram.Length == 8192 && Later(s, chip.V()) && chip.sent == s.sent
        invariant 0 <= epktcnt <= count && epktcnt <= |chip.unread|
        invariant |fates| == count - epktcnt && log == log0 + fates
        invariant AllDelivered(fates) && inputs == inputs0 + Handed(fates)
      {
        ghost var t := chip.V();
        var received;
        ghost var fate;
        received, fate := PollOne();
        AccountedIs();
        Snapshot();
        LaterTrans(s, t, chip.V());
        OneMore(log0, fates, fate);
        HandedSnoc(fates, fate);
        HandedSnoc([], fate);
        assert [] + [fate] == [fate];
        fates := fates + [fate];
        if !received {
          Stopped(fates, count);
          return;
        }
        epktcnt := epktcnt - 1;
      }
      Drained(fates, count);
    }

    /**
     * `mchdrv_poll`: as many frames as EPKTCNT counts at the start, fewer only
     * if one had to be dropped. Every frame handled adds its fate to the log.
     */
    method Poll() returns (ok: bool, ghost fates: seq<Fate>, ghost count: nat)
      requires Valid() && (up ==> Accounted())
      modifies this`nextFrame, this`allocs, this`log, this`inputs, chip, chip.ram
      ensures Valid() && ok == up
      ensures !up ==> log == old(log) && chip.V() == old(chip.V())
      ensures up ==> Accounted() && Later(old(chip.V()), chip.V())
      ensures log == old(log) + fates && chip.sent == old(chip.sent)
      ensures up ==> |old(chip.unread)| <= count && StopsAtDrop(fates, count)
      ensures forall i :: 0 <= i < |fates| - 1 ==> fates[i].Delivered?
      ensures up && |fates| < |old(chip.unread)| ==> fates != [] && !fates[|fates| - 1].Delivered?
      ensures inputs == old(inputs) + Handed(fates)
    {
      hide *;
      Snapshot();
      NothingHanded();
      fates, count := [], 0;
      if !up {
        assert log + [] == log;
        return false, [], 0;
      }
      ghost var s := chip.V();
      AccountedIs();
      PacketCountIsNamed();
      var epktcnt := RCR(EPKTCNT);
      Snapshot();
      TrafficIsLater(s, chip.V());
      ReadyStays();
      AccountStays(s, chip.V(), log, first, allocs, pool);
      IsAccounted();
      UnreadIsTail(chip.V());
      count := epktcnt;
      ghost var t := chip.V();
      fates := Drain(epktcnt);
      AccountedIs();
      Snapshot();
      LaterTrans(s, t, chip.V());
      ok := true;
    }

    lemma PacketCountIsNamed()
      ensures Named(EPKTCNT)
    {
      BankFlag(EPKTCNT);
    }

    lemma ReadyStays()
      requires Valid() && Settled(chip.V(), 0) && nextFrame == chip.head && rxbufsize == RingEnd(chip.regs)
      ensures Ready()
    {
    }

    // --- transmission -----------------------------------------------------------------

    /** `transmit_start`: ETXST, then the control byte 0 at the start of the transmit buffer. */
    method TransmitBegin()
      requires Ready() && TransmitStart(rxbufsize) + 1 < 8192
      modifies chip, chip.ram
      ensures Ready() && Filling(old(chip.V()), chip.V(), [0])
    {
      hide Rely, Quiet, Safe, Settled;
      ghost var s := chip.V();
      SettledFacts(s);
      WritePointer(ETXSTL, TransmitStart(rxbufsize));
      ghost var t := chip.V();
      RelyIsLater(s, t, {ETXSTL, ETXSTL + 1}, 0);
      WritePointer(EWRPTL, TransmitStart(rxbufsize));
      FillStart(s, t, chip.V());
      TransmitPartial([0], 1, s, []);
      assert [0][..1] == [0];
      FillingFacts(s, chip.V(), [0]);
    }

    /** `transmit_partial` and the tail of `enc_WBM`: the bytes follow those already written. */
    method TransmitPartial(data: seq<byte>, length: nat, ghost s: State, ghost sofar: seq<byte>)
      requires Valid() && length <= |data|
      requires Filling(s, chip.V(), sofar)
      requires TransmitStart(RingEnd(s.regs)) + |sofar| + length < 8192
      modifies chip, chip.ram
      ensures Valid() && Filling(s, chip.V(), sofar + data[..length])
    {
      hide Rely, Quiet, Safe;
      var i := 0;
      assert sofar + data[..0] == sofar;
      while i < length
        invariant 0 <= i <= length
        invariant Valid() && Filling(s, chip.V(), sofar + data[..i])
      {
        ghost var t := chip.V();
        FillingFacts(s, t, sofar + data[..i]);
        ghost var mid := chip.WriteByte(data[i]);
        FillTraffic(s, t, mid, sofar + data[..i]);
        FillPut(s, mid, sofar + data[..i], data[i]);
        assert sofar + data[..i] + [data[i]] == sofar + data[..i + 1];
        i := i + 1;
      }
    }

    /** `transmit_end` up to the start of the transmission: the chip sends control byte and frame. */
    method StartSending(length: nat, ghost s: State, ghost data: seq<byte>)
      requires Valid() && Filling(s, chip.V(), data) && |data| == length + 1
      requires rxbufsize == RingEnd(s.regs) && TransmitStart(rxbufsize) + length + 7 < 8192
      modifies chip, chip.ram
      ensures Valid() && Onward(s, chip.V()) && chip.sent == s.sent + [data]
      ensures !Bit(chip.regs[ECON1], TXRST)
    {
      hide Rely, Quiet, Safe, Legal, Poked;
      ghost var t := chip.V();
      FillingFacts(s, t, data);
      SettledFacts(t);
      WritePointer(ETXNDL, TransmitStart(rxbufsize) + 1 + length - 1);
      ghost var u := chip.V();
      SendIsLegal(s, t, u, data);
      ghost var mid := BFS(ECON1, Mask(TXRTS));
      Sent(u, mid, data);
      OnwardTrans(s, u, chip.V());
    }

    /** The bounded wait of `transmit_end`, with the reset of the transmit logic when it runs out. */
    method AwaitSent(length: nat, ghost s: State)
      requires Valid() && Onward(s, chip.V()) && !Bit(chip.regs[ECON1], TXRST)
      requires rxbufsize == RingEnd(s.regs) && TransmitStart(rxbufsize) + length < 8192
      modifies chip, chip.ram
      ensures Valid() && Onward(s, chip.V()) && chip.sent == old(chip.sent)
      ensures Settled(chip.V(), 0)
    {
      hide Rely, Quiet, Safe, Legal, Poked, Later;
      BankFlag(ECON1);
      for i := 0 to 10000
        invariant Valid() && Onward(s, chip.V()) && chip.sent == old(chip.sent)
        invariant !Bit(chip.regs[ECON1], TXRST)
      {
        ghost var t := chip.V();
        var econ1 := RCR(ECON1);
        RelyIsOnward(t, chip.V(), {});
        OnwardTrans(s, t, chip.V());
        if !Bit(econ1, TXRTS) {
          ghost var u := chip.V();
          var result := RBM(TransmitStart(rxbufsize) + length, 7, 0);
          RelyIsOnward(u, chip.V(), READPTR);
          OnwardTrans(s, u, chip.V());
          return;
        }
      }
      ghost var t := chip.V();
      ResetIsLegal(t, 4);
      ghost var mid := BFS(ECON1, Mask(TXRST));
      ResetSender(t, mid, 4);
      ghost var u := chip.V();
      OnwardTrans(s, t, u);
      ResetIsLegal(u, 5);
      mid := BFC(ECON1, Mask(TXRST));
      ResetSender(u, mid, 5);
      OnwardTrans(s, u, chip.V());
    }

    /**
     * `enc_transmit_pbuf`: the chip is told to send the control byte and the
     * concatenated payloads of the chain, whose links are `ps`; it may go wrong
     * on the wire, but frames keep coming in undisturbed.
     */
    method TransmitPbuf(p: Pbuf, ghost ps: seq<Pbuf>)
      requires Ready() && Chain(ps) && ps[0] == p
      requires TransmitStart(rxbufsize) + p.totLen + 7 < 8192
      modifies chip, chip.ram
      ensures Ready() && Onward(old(chip.V()), chip.V())
      ensures chip.sent == old(chip.sent) + [[0] + old(Contents(ps))]
    {
      hide Rely, Quiet, Safe, Settled, Chain, Linked, Filling, Blocks;
      ghost var s := chip.V();
      ghost var blocks := Blocks(ps);
      ChainIsLinked(ps);
      LinkFacts(ps, blocks, 0);
      assert blocks[0..] == blocks;
      SettledFacts(s);
      var length := p.totLen;
      TransmitBegin();
      CopyChain(p, ps, blocks, s);
      StartSending(length, s, [0] + Flatten(blocks));
      AwaitSent(length, s);
    }

    /** The loop over the links of the chain, whose payloads are `blocks`. */
    method CopyChain(p: Pbuf, ghost ps: seq<Pbuf>, ghost blocks: seq<seq<byte>>, ghost s: State)
      requires Valid() && |ps| == |blocks| > 0 && Linked(ps, blocks) && ps[0] == p
      requires Filling(s, chip.V(), [0])
      requires TransmitStart(RingEnd(s.regs)) + 1 + |Flatten(blocks)| < 8192
      modifies chip, chip.ram
      ensures Valid() && Filling(s, chip.V(), [0] + Flatten(blocks))
    {
      hide Rely, Quiet, Safe, Settled, Later, Filling, Linked;
      var buf := p;
      ghost var k := 0;
      ghost var done := [0];
      while true
        invariant Valid() && Linked(ps, blocks) && 0 <= k < |ps| == |blocks| && buf == ps[k]
        invariant done == [0] + Flatten(blocks[..k])
        invariant Filling(s, chip.V(), done)
        decreases |ps| - k
      {
        LinkFacts(ps, blocks, k);
        TransmitPartial(buf.payload, buf.len, s, done);
        done := done + blocks[k];
        assert done == [0] + Flatten(blocks[..k + 1]);
        if buf.len == buf.totLen {
          NothingLeft(blocks, k);
          break;
        }
        buf := buf.next;
        k := k + 1;
      }
    }

    /** `mchdrv_linkoutput` */
    method LinkOutput(p: Pbuf, ghost ps: seq<Pbuf>) returns (ok: bool)
      requires Valid() && (up ==> Accounted()) && Chain(ps) && ps[0] == p
      requires TransmitStart(rxbufsize) + p.totLen + 7 < 8192
      modifies chip, chip.ram
      ensures Valid() && ok == up && (up ==> Accounted() && Later(old(chip.V()), chip.V()))
      ensures chip.sent == old(chip.sent) + if up then [[0] + old(Contents(ps))] else []
    {
      if !up { return false; }
      hide Rely, Quiet, Safe, Settled;
      ghost var s := chip.V();
      TransmitPbuf(p, ps);
      AccountStays(s, chip.V(), log, first, allocs, pool);
      ok := true;
    }

    // --- set-up -----------------------------------------------------------------------

    /** The register write of `enc_setup_basic` that the rest relies on. */
    method SetupBasic()
      requires Valid()
      modifies this, chip, chip.ram
      ensures Valid() && Bit(chip.regs[ECON2], AUTOINC) && rxbufsize == 0xffff
      ensures up == old(up) && inputs == old(inputs)
    {
      lastUsed := INDETERMINATE;
      rxbufsize := 0xffff;
      BankFlag(ECON2);
      ghost var mid := BFS(ECON2, Mask(AUTOINC));
    }

    /** A ring register is written while nothing is received. */
    method WriteRingRegister(lo: byte, w: nat)
      requires Valid() && Idle(chip.V()) && lo in {ERXSTL, ERXNDL, ERXRDPTL} && w < 0x10000
      modifies chip, chip.ram
      ensures Valid() && SameBut(old(chip.V()), chip.V(), lo) && Word(chip.regs, lo) == w
      ensures lo == ERXSTL ==> chip.wr == w
    {
      hide Rely, Quiet, Safe, Legal, Poked;
      ghost var s := chip.V();
      IdleWordIsLegal(s, lo, w);
      ghost var mid := WCR16(lo, w);
      IdleWord(s, mid, lo, w);
    }

    /** The drain loop: what the chip still counted from before is thrown away. */
    method DiscardCounted()
      requires Valid() && Idle(chip.V())
      modifies chip, chip.ram
      ensures Valid() && Idle(chip.V()) && chip.regs[EPKTCNT] == 0
      ensures RingEnd(chip.regs) == old(RingEnd(chip.regs))
    {
      hide Rely, Quiet, Safe, Legal, Poked, Named;
      while true
        invariant Valid() && Idle(chip.V()) && RingEnd(chip.regs) == old(RingEnd(chip.regs))
        decreases chip.regs[EPKTCNT]
      {
        ghost var s := chip.V();
        CommonNames();
        var n := RCR(EPKTCNT);
        IdleTraffic(s, chip.V());
        if n == 0 { break; }
        ghost var t := chip.V();
        TrafficRefl(t);
        IdleCountDown(t, t);
        ghost var mid := BFS(ECON2, Mask(PKTDEC));
        IdleCountDown(t, mid);
      }
    }

    /** `set_erxnd`: the register is written unless the cached value says it holds `erxnd` already. */
    method SetErxnd(erxnd: nat)
      requires Valid() && Idle(chip.V()) && erxnd < 0x10000
      requires rxbufsize == 0xffff || rxbufsize == RingEnd(chip.regs)
      requires erxnd != 0xffff
      modifies this`rxbufsize, chip, chip.ram
      ensures Valid() && SameBut(old(chip.V()), chip.V(), ERXNDL)
      ensures rxbufsize == erxnd == RingEnd(chip.regs)
    {
      if erxnd != rxbufsize {
        rxbufsize := erxnd;
        WriteRingRegister(ERXNDL, erxnd);
      }
    }

    /** Both engines are reset, old packets discarded, and the reset is lifted again. */
    method ResetEngines()
      requires Valid() && Bit(chip.regs[ECON2], AUTOINC)
      modifies chip, chip.ram
      ensures Valid() && Idle(chip.V()) && chip.regs[EPKTCNT] == 0
      ensures RingEnd(chip.regs) == old(RingEnd(chip.regs))
      ensures !Bit(chip.regs[ECON1], TXRST) && !Bit(chip.regs[ECON1], RXRST)
    {
      hide Rely, Quiet, Safe, Legal, Poked, Named;
      ghost var s := chip.V();
      TrafficRefl(s);
      ResetIsSafe(s, s);
      ghost var mid := BFS(ECON1, BothResets());
      ResetIsSafe(s, mid);
      DiscardCounted();
      s := chip.V();
      TrafficRefl(s);
      EndOfReset(s, s);
      mid := BFC(ECON1, BothResets());
      EndOfReset(s, mid);
    }

    /** The ring registers for a ring ending at `nd`, starting at 0 because of errata 5. */
    method ProgramRing(nd: nat)
      requires Valid() && Idle(chip.V()) && nd < 8192
      requires rxbufsize == 0xffff || rxbufsize == RingEnd(chip.regs)
      modifies this`rxbufsize, chip, chip.ram
      ensures Valid() && Idle(chip.V())
      ensures chip.regs[EPKTCNT] == old(chip.regs[EPKTCNT])
      ensures !old(Bit(chip.regs[ECON1], TXRST)) ==> !Bit(chip.regs[ECON1], TXRST)
      ensures !old(Bit(chip.regs[ECON1], RXRST)) ==> !Bit(chip.regs[ECON1], RXRST)
      ensures Word(chip.regs, ERXSTL) == 0 && chip.wr == 0
      ensures rxbufsize == RingEnd(chip.regs) == nd
      ensures Word(chip.regs, ERXRDPTL) == 0
    {
      hide Rely, Quiet, Safe, Legal, Poked, Idle;
      WriteRingRegister(ERXSTL, 0);
      SetErxnd(nd);
      WriteRingRegister(ERXRDPTL, 0);
    }

    /**
     * The receive set-up of `enc_ethernet_setup`: whatever state chip and
     * driver were in, the ring is in service, empty, and the account starts anew.
     */
    method EthernetSetup(nd: nat)
      requires Valid() && Bit(chip.regs[ECON2], AUTOINC) && nd < 8192
      requires rxbufsize == 0xffff || rxbufsize == RingEnd(chip.regs)
      modifies this, chip, chip.ram
      ensures Accounted() && log == [] && inputs == old(inputs) && rxbufsize == nd && up == old(up)
    {
      hide *;
      ResetEngines();
      ProgramRing(nd);
      nextFrame := 0;
      Forget(nd);
      BeginReception(nd);
      log, first, earlier := [], allocs, inputs;
      StartsAccounted();
    }

    /** The history before set-up does not count. */
    method Forget(nd: nat)
      requires Valid() && Idle(chip.V()) && nd == RingEnd(chip.regs) < 8192 && chip.regs[EPKTCNT] == 0
      requires Word(chip.regs, ERXSTL) == 0 && Word(chip.regs, ERXRDPTL) == 0 && chip.wr == 0
      requires !Bit(chip.regs[ECON1], TXRST) && !Bit(chip.regs[ECON1], RXRST)
      modifies chip`head, chip`unread, chip`stored, chip`released
      ensures Valid() && Prepared(chip.V(), nd)
    {
      hide Safe, Idle, Prepared, Word, Bit;
      ghost var s := chip.V();
      ForgettingIsSafe(s, nd);
      chip.head, chip.unread, chip.stored, chip.released := 0, [], [], 0;
      assert chip.V() == s.(head := 0, unread := [], stored := [], released := 0);
    }

    lemma StartsAccounted()
      requires Valid() && Settled(chip.V(), 0) && rxbufsize == RingEnd(chip.regs) && nextFrame == chip.head
      requires Consumed(chip.V()) == 0 && log == [] && first == allocs && earlier == inputs
      ensures Accounted()
    {
      assert chip.stored[..0] == [];
    }

    /** Reception on, resets off. */
    method BeginReception(nd: nat)
      requires Valid() && Prepared(chip.V(), nd)
      modifies chip, chip.ram
      ensures Valid() && Settled(chip.V(), 0) && RingEnd(chip.regs) == nd
      ensures chip.head == 0 && Consumed(chip.V()) == 0
    {
      hide Rely, Quiet, Safe, Legal, Poked;
      ghost var s := chip.V();
      TrafficRefl(s);
      ReceptionBegins(s, s, nd);
      ghost var mid := BFS(ECON1, Mask(RXEN));
      ReceptionBegins(s, mid, nd);
      s := chip.V();
      TrafficRefl(s);
      ResetsStayClear(s, s);
      mid := BFC(ECON1, BothResets());
      ResetsStayClear(s, mid);
    }

    /** `mchdrv_init`; whether the chip answers and passes its self test is up to the chip. */
    method MchdrvInit(answers: bool, passes: bool)
      requires Valid()
      modifies this, chip, chip.ram
      ensures Valid() && up == (answers && passes)
      ensures inputs == old(inputs) && (up ==> Accounted() && log == [] && rxbufsize == 4 * 1024)
    {
      hide Ready, Accounted;
      up := true;
      SetupBasic();
      if !answers || !passes {
        up := false;
      } else {
        EthernetSetup(4 * 1024);
        AccountedIsValid();
      }
    }

    lemma AccountedIsValid()
      requires Accounted()
      ensures Valid()
    {
    }

    // --- whole runs --------------------------------------------------------------------

    /**
     * A schedule of polls, transmissions and traffic, in any order, the k-th
     * transmission that of the chain from `heads[k]` on with the frame
     * `frames[k]`. The account of received frames stays exact all the way, and
     * each poll of a driver that is up brings the log up to all the frames
     * stored when it began, or stops at a drop; so in the end every frame
     * stored before the run has been handled, or there was a drop in every
     * poll. The chip is told to send exactly the frames given, in order.
     */
    method Run(schedule: seq<Turn>, heads: seq<Pbuf>, ghost chains: seq<seq<Pbuf>>, ghost frames: seq<seq<byte>>)
        returns (ghost rounds: seq<Round>)
      requires Valid() && (up ==> Accounted()) && Sends(schedule) == |heads| == |chains| == |frames|
      requires forall i :: 0 <= i < |heads| ==>
                 && Chain(chains[i]) && chains[i][0] == heads[i] && frames[i] == [0] + Contents(chains[i])
                 && TransmitStart(rxbufsize) + heads[i].totLen + 7 < 8192
      modifies this, chip, chip.ram
      ensures Valid() && up == old(up) && (up ==> Accounted() && Later(old(chip.V()), chip.V()))
      ensures log == old(log) + RoundFates(rounds) && |rounds| == (if up then Polls(schedule) else 0)
      ensures earlier == old(earlier) && first == old(first)
      ensures up ==> KeepsUp(|old(log)|, |old(chip.stored)|, rounds, |chip.stored|)
      ensures up && Polls(schedule) > 0 ==>
                |log| >= |old(chip.stored)| || Drops(RoundFates(rounds)) >= Polls(schedule)
      ensures chip.sent == old(chip.sent) + if up then frames else []
    {
      hide *;
      Snapshot();
      ghost var s0 := chip.V();
      LaterRefl(s0);
      rounds := [];
      NoRounds(|log|, |s0.stored|);
      var k := 0;
      assert schedule[..0] == [] && frames[..0] == [];
      NoTurns();
      for i := 0 to |schedule|
        invariant Valid() && up == old(up) && rxbufsize == old(rxbufsize) && chip.ram.Length == 8192
        invariant up ==> Accounted() && Later(s0, chip.V())
        invariant log == old(log) + RoundFates(rounds) && |rounds| == (if up then Polls(schedule[..i]) else 0)
        invariant earlier == old(earlier) && first == old(first)
        invariant up ==> KeepsUp(|old(log)|, |s0.stored|, rounds, |chip.stored|)
        invariant k == Sends(schedule[..i]) <= |heads|
        invariant chip.sent == old(chip.sent) + if up then frames[..k] else []
      {
        OneTurn(schedule, i);
        Snapshot();
        ghost var s := chip.V();
        match schedule[i] {
          case Poll =>
            var ok;
            ghost var round, count;
            ok, round, count := PollRound();
            if up {
              OneMoreRound(|old(log)|, |s0.stored|, rounds, round, count, |s.stored|);
              rounds := rounds + [round];
            }
          case Send =>
            var ok := LinkOutput(heads[k], chains[k]);
            assert frames[..k + 1] == frames[..k] + [frames[k]];
            k := k + 1;
          case Wait =>
            LetTrafficPass();
        }
        Snapshot();
        if up {
          LaterTrans(s0, s, chip.V());
          LaterIsMore(s, chip.V());
          StillKeepsUp(|old(log)|, |s0.stored|, rounds, |s.stored|, |chip.stored|);
        }
      }
      assert schedule[..|schedule|] == schedule && frames[..k] == frames;
      if up {
        AllOrDrops(|old(log)|, |s0.stored|, rounds, |chip.stored|);
      }
    }

    /** A poll, as a round of a run. */
    method PollRound() returns (ok: bool, ghost round: Round, ghost count: nat)
      requires Valid() && chip.ram.Length == 8192 && (up ==> Accounted())
      modifies this`nextFrame, this`allocs, this`log, this`inputs, chip, chip.ram
      ensures Valid() && chip.ram.Length == 8192 && ok == up && chip.sent == old(chip.sent)
      ensures up ==> Accounted() && Later(old(chip.V()), chip.V())
      ensures round.stored == |old(chip.stored)| && log == old(log) + round.fates && (!up ==> round.fates == [])
      ensures up ==> round.stored <= |old(log)| + count && StopsAtDrop(round.fates, count)
    {
      hide *;
      Snapshot();
      if up {
        Counts();
      }
      ghost var stored, fates := |chip.stored|, [];
      ok, fates, count := Poll();
      Snapshot();
      round := Round(stored, fates);
      if !up {
        assert log == old(log);
      }
    }

    /** The log has a fate for every frame stored that is not unread. */
    lemma Counts()
      requires Accounted()
      ensures |log| + |chip.unread| == |chip.stored|
    {
    }

    lemma ChipIsValid()
      requires Valid()
      ensures chip.Valid() && lastUsed == INDETERMINATE
    {
    }

    lemma IsValid()
      requires chip.Valid() && lastUsed == INDETERMINATE
      ensures Valid()
    {
    }

    /** Time passes. */
    method LetTrafficPass()
      requires Valid() && (up ==> Accounted())
      modifies chip, chip.ram
      ensures Valid() && chip.sent == old(chip.sent)
      ensures up ==> Accounted() && Later(old(chip.V()), chip.V())
    {
      hide *;
      Snapshot();
      ghost var s := chip.V();
      if up {
        AccountedIs();
      }
      ChipIsValid();
      chip.LetTrafficPass();
      IsValid();
      Snapshot();
      TrafficSendsNothing(s, chip.V());
      if up {
        TrafficIsLater(s, chip.V());
        ReadyStays();
        AccountStays(s, chip.V(), log, first, allocs, pool);
        IsAccounted();
      }
    }
  }

  /** What the firmware and the world do with the driver. */
  datatype Turn = Poll | Send | Wait

  function Sends(schedule: seq<Turn>): nat {
    if schedule == [] then 0 else Sends(schedule[..|schedule| - 1]) + if schedule[|schedule| - 1].Send? then 1 else 0
  }

  function Polls(schedule: seq<Turn>): nat {
    if schedule == [] then 0 else Polls(schedule[..|schedule| - 1]) + if schedule[|schedule| - 1].Poll? then 1 else 0
  }

  lemma NoTurns()
    ensures Sends([]) == Polls([]) == 0
  {
  }

  lemma {:induction false} OneTurn(schedule: seq<Turn>, i: nat)
    requires i < |schedule|
    ensures Sends(schedule[..i + 1]) == Sends(schedule[..i]) + if schedule[i].Send? then 1 else 0
    ensures Polls(schedule[..i + 1]) == Polls(schedule[..i]) + if schedule[i].Poll? then 1 else 0
    ensures Sends(schedule[..i + 1]) <= Sends(schedule)
    decreases |schedule| - i
  {
    assert schedule[..i + 1][..i] == schedule[..i];
    if i + 1 < |schedule| {
      OneTurn(schedule, i + 1);
    } else {
      assert schedule[..i + 1] == schedule;
    }
  }

  /** A poll: how many frames had been stored when it began, and the fates it logged. */
  datatype Round = Round(stored: nat, fates: seq<Fate>)

  /**
   * From a log of `n` fates on, with `low` frames stored, to `high` frames
   * stored: each poll in turn brings the log up to all the frames stored when
   * it began, or stops at a drop, and only its last fate can be one.
   */
  ghost predicate KeepsUp(n: nat, low: nat, rounds: seq<Round>, high: nat) {
    if rounds == [] then low <= high
    else
      var (front, r) := (rounds[..|rounds| - 1], rounds[|rounds| - 1]);
      && KeepsUp(n, low, front, r.stored) && r.stored <= high
      && exists count: nat ::
           r.stored <= n + |RoundFates(front)| + count && StopsAtDrop(r.fates, count)
  }

  function RoundFates(rounds: seq<Round>): seq<Fate> {
    if rounds == [] then [] else RoundFates(rounds[..|rounds| - 1]) + rounds[|rounds| - 1].fates
  }

  function Drops(fates: seq<Fate>): nat {
    if fates == [] then 0 else Drops(fates[..|fates| - 1]) + if fates[|fates| - 1].Delivered? then 0 else 1
  }

  predicate DropsAtEnd(fates: seq<Fate>) {
    fates != [] && !fates[|fates| - 1].Delivered?
  }

  lemma NoRounds(n: nat, low: nat)
    ensures RoundFates([]) == [] && KeepsUp(n, low, [], low)
  {
  }

  lemma {:induction false} DropsGrow(before: seq<Fate>, fates: seq<Fate>)
    ensures Drops(before + fates) >= Drops(before) + if DropsAtEnd(fates) then 1 else 0
    decreases |fates|
  {
    if fates == [] {
      assert before + fates == before;
    } else {
      var front := fates[..|fates| - 1];
      assert (before + fates)[..|before + fates| - 1] == before + front;
      DropsGrow(before, front);
    }
  }

  lemma OneMoreRound(n: nat, low: nat, rounds: seq<Round>, r: Round, count: nat, high: nat)
    requires KeepsUp(n, low, rounds, high) && r.stored == high
    requires high <= n + |RoundFates(rounds)| + count && StopsAtDrop(r.fates, count)
    ensures KeepsUp(n, low, rounds + [r], high)
    ensures RoundFates(rounds + [r]) == RoundFates(rounds) + r.fates
  {
    assert (rounds + [r])[..|rounds|] == rounds;
  }

  lemma StillKeepsUp(n: nat, low: nat, rounds: seq<Round>, high: nat, higher: nat)
    requires KeepsUp(n, low, rounds, high) && high <= higher
    ensures KeepsUp(n, low, rounds, higher)
  {
  }

  /** Polls that keep up handle every frame stored before them, unless each of them dropped one. */
  lemma {:induction false} AllOrDrops(n: nat, low: nat, rounds: seq<Round>, high: nat)
    requires KeepsUp(n, low, rounds, high)
    ensures low <= high
    ensures rounds != [] ==> n + |RoundFates(rounds)| >= low || Drops(RoundFates(rounds)) >= |rounds|
    decreases |rounds|
  {
    if rounds != [] {
      var (front, r) := (rounds[..|rounds| - 1], rounds[|rounds| - 1]);
      AllOrDrops(n, low, front, r.stored);
      DropsGrow(RoundFates(front), r.fates);
    }
  }
}
