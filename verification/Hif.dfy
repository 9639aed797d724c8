/**
 * The handshake of m2m_hif.c between the host and the WINC1500: packets are
 * announced through registers, moved by block transfers and acknowledged with
 * "RX done".
 */
module Hif {
  import opened Bytes
  import opened Bits

  const WRAP32: nat := 0x1_0000_0000
  const WRAP16: nat := 0x1_0000
  type uint32 = x: int | 0 <= x < 0x1_0000_0000
  type uint16 = x: int | 0 <= x < 0x1_0000
  type sint8 = x: int | -128 <= x < 128

  const SUCCESS: sint8 := 0
  const ERR_RCV: sint8 := -2
  const ERR_MEM_ALLOC: sint8 := -3
  const ERR_BUS_FAIL: sint8 := -6
  const ERR_FAIL: sint8 := -12

  const HDR_OFFSET: nat := 8
  const POLLS: nat := 1000

  datatype Group = Wifi | Ip | Ota | Crypto | Sigma | Other

  function GroupOf(gid: byte): Group {
    match gid
    case 1 => Wifi
    case 2 => Ip
    case 4 => Ota
    case 6 => Crypto
    case 7 => Sigma
    case _ => Other
  }

  /** What the chip answers to one bus operation: the result, a register by its address, the bytes of a block. */
  datatype Answer = Answer(ret: sint8, value: nat -> uint32, data: nat -> byte)

  /** A call of `hif_receive`, as a registered callback may make it. */
  datatype Call = Call(addr: uint32, buffer: bool, sz: uint16, isDone: bool)

  /** A call of a registered callback with opcode, length and address. */
  datatype Invocation = Invocation(group: Group, opcode: byte, length: uint16, addr: uint32)

  /** A block read, with the window that the chip advertised just before. */
  datatype Fetch = Fetch(addr: uint32, sz: uint16, address: uint32, size: uint16)

  /** A block written, or to be written, into the chip's memory. */
  datatype Block = Block(addr: uint32, bytes: seq<byte>)

  /** A register written. */
  datatype Write = Write(reg: nat, value: nat)

  const STATE_REG: nat := 0x108c
  const RCV_CTRL_0: nat := 0x1070
  const RCV_CTRL_1: nat := 0x1084
  const RCV_CTRL_2: nat := 0x1078
  const RCV_CTRL_3: nat := 0x106c
  const DMA_ADDR: nat := 0x150400

  /** A call without anything to read. */
  predicate Empty(c: Call) {
    c.addr == 0 || !c.buffer || c.sz == 0
  }

  // --- the window of a received packet ------------------------------------------------------

  function SizeField(reg: nat): uint16 { reg / 4 % 4096 }

  /** Clearing the interrupt bit leaves the size. */
  lemma InterruptBitApart(reg: nat)
    ensures SizeField(AndNot(reg, 1)) == SizeField(reg)
  {
    NothingCleared(reg / 2);
  }

  lemma {:induction false} NothingCleared(v: nat)
    ensures AndNot(v, 0) == v
  {
    if v > 0 { NothingCleared(v / 2); }
  }

  /** The test of `hif_receive`, in 32-bit arithmetic. */
  predicate Admitted(f: Fetch) {
    f.sz <= f.size && f.address <= f.addr && (f.addr + f.sz) % WRAP32 <= (f.address + f.size) % WRAP32
  }

  /** The read ends where the window does. */
  predicate Ends(f: Fetch) {
    (f.addr + f.sz) % WRAP32 == (f.address + f.size) % WRAP32
  }

  predicate Inside(f: Fetch) {
    f.address <= f.addr && f.addr + f.sz <= f.address + f.size
  }

  /** Without wrap-around the test is the right one. */
  lemma AdmittedIsInside(f: Fetch)
    requires f.address + f.size < WRAP32
    ensures Admitted(f) && f.addr + f.sz < WRAP32 <==> Inside(f)
  {
  }

  /** Where the test is wrong: exactly for a read that wraps in a window that does not. */
  lemma AdmittedOutside(f: Fetch)
    requires f.size < 4096
    ensures Admitted(f) && !Inside(f) <==>
            f.sz <= f.size && f.address <= f.addr && f.addr + f.sz >= WRAP32 > f.address + f.size
  {
  }

  // --- when RX done is asked for ----------------------------------------------------------

  /** The request whose bus operations start at `a` reaches the chip: the register is read and written. */
  predicate Granted(env: nat -> Answer, a: nat) {
    env(a).ret == 0 && env(a + 1).ret == 0
  }

  /** The operation after such a request. */
  function AfterAsking(env: nat -> Answer, a: nat): nat {
    if env(a).ret != 0 then a + 1 else a + 2
  }

  /** A call of `hif_receive` at operation `s`: the operation after it, and where it asks for RX done, if it does. */
  function AfterReceive(env: nat -> Answer, s: nat, c: Call): (nat, Option<nat>) {
    if Empty(c) then
      if c.isDone then (AfterAsking(env, s), Some(s)) else (s, None)
    else if env(s).ret != 0 then (s + 1, None)
    else if env(s + 1).ret != 0 then (s + 2, None)
    else
      var f := Fetch(c.addr, c.sz, Location(env, s + 1), SizeField(Control(env, s)));
      if !Admitted(f) then (s + 2, None)
      else if env(s + 2).ret != 0 then (s + 3, None)
      else if c.isDone || Ends(f) then (AfterAsking(env, s + 3), Some(s + 3))
      else (s + 3, None)
  }

  /** The call succeeds: every operation it makes does, and the window admits what is to be read. */
  predicate ReceiveSucceeds(env: nat -> Answer, s: nat, c: Call) {
    if Empty(c) then c.isDone && Granted(env, s)
    else
      var f := Fetch(c.addr, c.sz, Location(env, s + 1), SizeField(Control(env, s)));
      && env(s).ret == 0 && env(s + 1).ret == 0 && Admitted(f) && env(s + 2).ret == 0
      && (c.isDone || Ends(f) ==> Granted(env, s + 3))
  }

  /** What the test, the window and the requests come to in full. */
  lemma WindowIs(env: nat -> Answer, s: nat, c: Call)
    ensures var size, address := env(s).value(0x1070) / 4 % 0x1000, env(s + 1).value(0x1084);
            var end, limit := (c.addr + c.sz) % 0x1_0000_0000, (address + size) % 0x1_0000_0000;
            var f := Fetch(c.addr, c.sz, Location(env, s + 1), SizeField(Control(env, s)));
            && f == Fetch(c.addr, c.sz, address, size)
            && (Admitted(f) <==> c.sz <= size && address <= c.addr && end <= limit) && (Ends(f) <==> end == limit)
    ensures Granted(env, s) <==> env(s).ret == 0 && env(s + 1).ret == 0
    ensures Granted(env, s + 3) <==> env(s + 3).ret == 0 && env(s + 4).ret == 0
  {
  }

  /** The same for all calls of a callback: all its requests. */
  function AfterCalls(env: nat -> Answer, s: nat, calls: seq<Call>): (nat, seq<nat>) {
    if calls == [] then (s, [])
    else
      var (m, asks) := AfterCalls(env, s, calls[..|calls| - 1]);
      var (n, ask) := AfterReceive(env, m, calls[|calls| - 1]);
      (n, if ask.Some? then asks + [ask.value] else asks)
  }

  function Asks(env: nat -> Answer, s: nat, registered: bool, calls: seq<Call>): seq<nat> {
    if registered then AfterCalls(env, s, calls).1 else []
  }

  // --- a received packet ------------------------------------------------------------------

  function LengthField(a: Answer): uint16 { a.data(2) + 256 * a.data(3) }

  /** The length in the header is believed, however large, unless it is smaller than announced by more than four. */
  predicate LengthPasses(size: uint16, len: uint16) {
    len == size || size - len <= 4
  }

  /** The control register and the packet's address, as operation `s` finds them. */
  function Control(env: nat -> Answer, s: nat): uint32 { env(s).value(RCV_CTRL_0) }
  function Location(env: nat -> Answer, s: nat): uint32 { env(s).value(RCV_CTRL_1) }

  /** From operation `s` on the chip advertises one window. */
  ghost predicate Steady(env: nat -> Answer, s: nat, address: uint32, size: uint16) {
    forall i: nat :: s <= i ==> SizeField(Control(env, i)) == size && Location(env, i) == address
  }

  lemma SteadyLater(env: nat -> Answer, s: nat, t: nat)
    requires s <= t
    ensures forall address, size :: Steady(env, s, address, size) ==> Steady(env, t, address, size)
  {
  }

  /** How the callback is called for that packet. */
  function InvocationAt(env: nat -> Answer, s: nat): Invocation {
    var header := env(s + 4);
    Invocation(GroupOf(header.data(0)), header.data(1), (LengthField(header) - HDR_OFFSET) % WRAP16,
               (Location(env, s + 3) + HDR_OFFSET) % WRAP32)
  }

  /** Whether at operation `s` an interrupt is found and cleared. */
  predicate Rings(env: nat -> Answer, s: nat) {
    env(s).ret == 0 && env(s + 1).ret == 0 && Bit(Control(env, s + 1), 0) && env(s + 2).ret == 0
  }

  function NoRing(env: nat -> Answer, s: nat): sint8 {
    if env(s).ret != 0 then env(s).ret
    else if env(s + 1).ret != 0 || !Bit(Control(env, s + 1), 0) then env(s + 1).ret
    else env(s + 2).ret
  }

  /** Whether the interrupt whose bus operations start at `s` brings a packet that is handed on. */
  predicate Dispatches(env: nat -> Answer, s: nat) {
    Rings(env, s) && SizeField(Control(env, s + 1)) > 0 && HeaderPasses(env, s + 3, SizeField(Control(env, s + 1)))
  }

  /** The header read from operation `s` on is that of a packet announced with `size` bytes. */
  predicate HeaderPasses(env: nat -> Answer, s: nat, size: uint16) {
    && env(s).ret == 0 && env(s + 1).ret == 0 && LengthPasses(size, LengthField(env(s + 1)))
    && GroupOf(env(s + 1).data(0)) != Other
  }

  function BadHeader(env: nat -> Answer, s: nat): sint8 {
    if env(s).ret != 0 then env(s).ret
    else if env(s + 1).ret != 0 then env(s + 1).ret
    else ERR_BUS_FAIL
  }

  /** The result when nothing is handed on. */
  function Refusal(env: nat -> Answer, s: nat): sint8
    requires !Dispatches(env, s)
  {
    if !Rings(env, s) then NoRing(env, s)
    else if SizeField(Control(env, s + 1)) == 0 then ERR_RCV
    else BadHeader(env, s + 3)
  }

  /**
   * In full: a packet is handed on if the bus works, the interrupt bit is set,
   * the size in bits 2 to 13 is not zero, the header's length passes, and its
   * group is known; and which group that is.
   */
  lemma HandedOn(env: nat -> Answer, s: nat)
    ensures var reg, h := env(s + 1).value(0x1070), env(s + 4);
            var size, length := reg / 4 % 0x1000, h.data(2) as int + 256 * h.data(3) as int;
            && SizeField(Control(env, s + 1)) == size
            && (Dispatches(env, s) <==>
                && env(s).ret == 0 && env(s + 1).ret == 0 && reg % 2 == 1 && env(s + 2).ret == 0
                && size > 0 && env(s + 3).ret == 0 && h.ret == 0
                && (length == size || size - length <= 4) && h.data(0) in {1, 2, 4, 6, 7})
            && (!Dispatches(env, s) ==>
                  Refusal(env, s) == if env(s).ret != 0 then env(s).ret
                                     else if env(s + 1).ret != 0 || reg % 2 == 0 then env(s + 1).ret
                                     else if env(s + 2).ret != 0 then env(s + 2).ret
                                     else if size == 0 then -2
                                     else if env(s + 3).ret != 0 then env(s + 3).ret
                                     else if h.ret != 0 then h.ret else -6)
            && InvocationAt(env, s) == Invocation(GroupOf(h.data(0)), h.data(1), (length - 8) % 0x1_0000,
                                                  (env(s + 3).value(0x1084) + 8) % 0x1_0000_0000)
            && (reg % 2 == 1 ==> AndNot(Control(env, s + 1), 1) == reg - 1) && RCV_CTRL_0 == 0x1070
  {
    NothingCleared(env(s + 1).value(RCV_CTRL_0) / 2);
  }

  lemma Groups(gid: byte)
    ensures GroupOf(gid) == Wifi <==> gid == 1
    ensures GroupOf(gid) == Ip <==> gid == 2
    ensures GroupOf(gid) == Ota <==> gid == 4
    ensures GroupOf(gid) == Crypto <==> gid == 6
    ensures GroupOf(gid) == Sigma <==> gid == 7
  {
  }

  // --- sending ------------------------------------------------------------------------------

  /**
   * The arguments of `hif_send`; `None` is a null pointer. A buffer holds at
   * least as many bytes as its size says. `behind` is what follows the header
   * in memory and is sent with it.
   */
  datatype Packet = Packet(gid: byte, opcode: byte, ctrl: Option<seq<byte>>, ctrlSize: uint16,
                           data: Option<seq<byte>>, dataSize: uint16, dataOffset: uint16, behind: seq<byte>)

  predicate WellFormed(p: Packet) {
    && (p.ctrl.Some? ==> p.ctrlSize as int <= |p.ctrl.value|)
    && (p.data.Some? ==> p.dataSize as int <= |p.data.value|)
    && |p.behind| == 4
  }

  /** The length announced to the chip, in sixteen bits. */
  function Announced(p: Packet): uint16 {
    (HDR_OFFSET + if p.data.Some? then p.dataOffset + p.dataSize else p.ctrlSize) % WRAP16
  }

  function Announcement(p: Packet): Write {
    Write(STATE_REG, Or(Or(p.gid, p.opcode * 0x100), Announced(p) * 0x10000))
  }

  function Header(p: Packet): seq<byte> {
    [p.gid, p.opcode % 128, Announced(p) % 256, Announced(p) / 256] + p.behind
  }

  /** The blocks written for a packet at `dma`, with the address arithmetic of the source. */
  function Blocks(p: Packet, dma: uint32): seq<Block>
    requires WellFormed(p)
  {
    var afterHeader := (dma + HDR_OFFSET) % WRAP32;
    var afterCtrl := if p.ctrl.Some? then (afterHeader + p.ctrlSize) % WRAP32 else afterHeader;
    [Block(dma, Header(p))]
    + (if p.ctrl.Some? then [Block(afterHeader, p.ctrl.value[..p.ctrlSize])] else [])
    + (if p.data.Some?
       then [Block((afterCtrl + p.dataOffset - p.ctrlSize) % WRAP32, p.data.value[..p.dataSize])]
       else [])
  }

  predicate Disjoint(a: Block, b: Block) {
    a.addr + |a.bytes| <= b.addr || b.addr + |b.bytes| <= a.addr
  }

  /** No two blocks overlap, all lie in the announced part of the chip's buffer, the data at its offset. */
  predicate Sound(p: Packet, dma: uint32)
    requires WellFormed(p)
  {
    var bs := Blocks(p, dma);
    && (forall i, j :: 0 <= i < j < |bs| ==> Disjoint(bs[i], bs[j]))
    && (forall i :: 0 <= i < |bs| ==> dma <= bs[i].addr && bs[i].addr + |bs[i].bytes| <= dma + Announced(p))
    && (p.data.Some? ==> bs[|bs| - 1].addr == dma + HDR_OFFSET + p.dataOffset)
  }

  /** The sizes fit together; a caller can check this beforehand. */
  predicate SizesFit(p: Packet) {
    if p.data.Some? then
      HDR_OFFSET + p.dataOffset + p.dataSize < WRAP16 && p.ctrlSize <= (if p.ctrl.Some? then p.dataOffset else 0)
    else HDR_OFFSET + p.ctrlSize < WRAP16
  }

  /** The blocks when no address wraps. */
  lemma BlocksInRange(p: Packet, dma: uint32)
    requires WellFormed(p) && dma + 4 * WRAP16 < WRAP32
    ensures var bs := Blocks(p, dma);
            && |bs| == 1 + (if p.ctrl.Some? then 1 else 0) + (if p.data.Some? then 1 else 0)
            && bs[0].addr == dma && |bs[0].bytes| == HDR_OFFSET && bs[0].bytes == Header(p)
            && (p.ctrl.Some? ==> bs[1].addr == dma + HDR_OFFSET && |bs[1].bytes| == p.ctrlSize as int
                                 && bs[1].bytes == p.ctrl.value[..p.ctrlSize])
            && (p.data.Some? ==>
                  var d := bs[|bs| - 1];
                  && (d.addr == dma + HDR_OFFSET + p.dataOffset <==> p.ctrl.Some? || p.ctrlSize == 0)
                  && |d.bytes| == p.dataSize as int && d.bytes == p.data.value[..p.dataSize])
  {
  }

  /** The layout is sound exactly if the sizes fit together. */
  lemma LayoutIsSound(p: Packet, dma: uint32)
    requires WellFormed(p) && dma + 4 * WRAP16 < WRAP32
    ensures Sound(p, dma) <==> SizesFit(p)
  {
    BlocksInRange(p, dma);
    hide Blocks, Header, WellFormed;
    var bs := Blocks(p, dma);
    if SizesFit(p) {
      assert Sound(p, dma);
    } else if p.data.Some? && p.ctrl.Some? && HDR_OFFSET + p.dataOffset + p.dataSize < WRAP16 {
      assert bs[1].addr + |bs[1].bytes| > bs[2].addr;
    }
  }

  /** The byte at `a` after writing the blocks over `mem`. */
  function Stored(mem: nat -> byte, bs: seq<Block>, a: nat): byte {
    if bs == [] then mem(a)
    else
      var b := bs[|bs| - 1];
      if b.addr <= a < b.addr + |b.bytes| then b.bytes[a - b.addr] else Stored(mem, bs[..|bs| - 1], a)
  }

  lemma {:induction false} StoredIn(mem: nat -> byte, bs: seq<Block>, i: nat, k: nat)
    requires i < |bs| && k < |bs[i].bytes|
    requires forall i, j :: 0 <= i < j < |bs| ==> Disjoint(bs[i], bs[j])
    ensures Stored(mem, bs, bs[i].addr + k) == bs[i].bytes[k]
    decreases |bs|
  {
    var last := |bs| - 1;
    if i < last {
      assert Disjoint(bs[i], bs[last]);
      assert bs[..last][i] == bs[i];
      StoredIn(mem, bs[..last], i, k);
    }
  }

  lemma {:induction false} StoredOutside(mem: nat -> byte, bs: seq<Block>, a: nat)
    requires forall i :: 0 <= i < |bs| ==> !(bs[i].addr <= a < bs[i].addr + |bs[i].bytes|)
    ensures Stored(mem, bs, a) == mem(a)
    decreases |bs|
  {
    if bs != [] {
      StoredOutside(mem, bs[..|bs| - 1], a);
    }
  }

  /** What the length, the header and the word that announces them spell out. */
  lemma HeaderIs(p: Packet)
    requires WellFormed(p)
    ensures Announced(p) == (8 + if p.data.Some? then p.dataOffset + p.dataSize else p.ctrlSize) % 0x1_0000
    ensures Announcement(p) == Write(0x108c, p.gid + 0x100 * p.opcode + 0x1_0000 * Announced(p))
    ensures |Header(p)| == 8 && Header(p)[0] == p.gid && Header(p)[1] == p.opcode % 128
    ensures Header(p)[2] as int + 256 * Header(p)[3] as int == Announced(p) && Header(p)[4..] == p.behind
  {
    hide Pow2, Or;
    Powers();
    OrSwapped(p.gid, p.opcode * 0x100);
    OrIsSum(p.opcode, p.gid, 8);
    OrSwapped(p.opcode * 0x100 + p.gid, Announced(p) * 0x10000);
    OrIsSum(Announced(p), p.opcode * 0x100 + p.gid, 16);
  }

  lemma Powers()
    ensures Pow2(8) == 0x100 && Pow2(16) == 0x10000
  {
    assert Pow2(4) == 16;
    assert Pow2(8) == 0x100;
    assert Pow2(12) == 0x1000;
  }

  /**
   * With sizes that fit the chip finds group, opcode and length, then the
   * control bytes, and the data bytes at their offset; nothing else changed.
   */
  lemma ChipHoldsPacket(mem: nat -> byte, p: Packet, dma: uint32)
    requires WellFormed(p) && SizesFit(p) && dma + 4 * WRAP16 < WRAP32
    ensures var bs := Blocks(p, dma);
            var length := 8 + if p.data.Some? then p.dataOffset + p.dataSize else p.ctrlSize;
            && Stored(mem, bs, dma) == p.gid && Stored(mem, bs, dma + 1) == p.opcode % 128
            && Stored(mem, bs, dma + 2) as int + 256 * Stored(mem, bs, dma + 3) as int == length
            && (forall k: nat :: k < 4 ==> Stored(mem, bs, dma + 4 + k) == p.behind[k])
            && (p.ctrl.Some? ==> forall k: nat :: k < p.ctrlSize ==> Stored(mem, bs, dma + 8 + k) == p.ctrl.value[k])
            && (p.data.Some? ==> forall k: nat :: k < p.dataSize ==>
                                   Stored(mem, bs, dma + 8 + p.dataOffset + k) == p.data.value[k])
            && (forall a: nat :: a < dma || dma + length <= a ==> Stored(mem, bs, a) == mem(a))
  {
    hide *;
    HeaderIs(p);
    FitsIs(p);
    PacketIsStored(mem, p, dma);
    var bs, h := Blocks(p, dma), Header(p);
    assert Stored(mem, bs, dma + 0) == h[0] && Stored(mem, bs, dma + 1) == h[1];
    assert Stored(mem, bs, dma + 2) == h[2] && Stored(mem, bs, dma + 3) == h[3];
    forall k: nat | k < 4
      ensures Stored(mem, bs, dma + 4 + k) == p.behind[k]
    {
      assert Stored(mem, bs, dma + (4 + k)) == h[4..][k];
    }
  }

  lemma FitsIs(p: Packet)
    requires WellFormed(p) && SizesFit(p)
    ensures HDR_OFFSET == 8 && |p.behind| == 4
    ensures 8 + (if p.data.Some? then p.dataOffset + p.dataSize else p.ctrlSize) < 0x1_0000
    ensures p.ctrl.Some? ==> p.ctrlSize as int <= |p.ctrl.value|
    ensures p.data.Some? ==> p.dataSize as int <= |p.data.value|
  {
  }

  /** The same block by block. */
  lemma PacketIsStored(mem: nat -> byte, p: Packet, dma: uint32)
    requires WellFormed(p) && SizesFit(p) && dma + 4 * WRAP16 < WRAP32
    ensures forall k: nat :: k < HDR_OFFSET ==> Stored(mem, Blocks(p, dma), dma + k) == Header(p)[k]
    ensures p.ctrl.Some? ==> forall k: nat :: k < p.ctrlSize ==>
              Stored(mem, Blocks(p, dma), dma + HDR_OFFSET + k) == p.ctrl.value[k]
    ensures p.data.Some? ==> forall k: nat :: k < p.dataSize ==>
              Stored(mem, Blocks(p, dma), dma + HDR_OFFSET + p.dataOffset + k) == p.data.value[k]
    ensures forall a: nat :: a < dma || dma + Announced(p) <= a ==> Stored(mem, Blocks(p, dma), a) == mem(a)
  {
    LayoutIsSound(p, dma);
    BlocksInRange(p, dma);
    hide Blocks, Header;
    var bs := Blocks(p, dma);
    var last := |bs| - 1;
    forall k: nat | k < HDR_OFFSET ensures Stored(mem, bs, dma + k) == Header(p)[k] {
      StoredIn(mem, bs, 0, k);
    }
    if p.ctrl.Some? {
      forall k: nat | k < p.ctrlSize ensures Stored(mem, bs, dma + HDR_OFFSET + k) == p.ctrl.value[k] {
        StoredIn(mem, bs, 1, k);
      }
    }
    if p.data.Some? {
      forall k: nat | k < p.dataSize ensures Stored(mem, bs, dma + HDR_OFFSET + p.dataOffset + k) == p.data.value[k] {
        StoredIn(mem, bs, last, k);
      }
    }
    forall a: nat | a < dma || dma + Announced(p) <= a ensures Stored(mem, bs, a) == mem(a) {
      StoredOutside(mem, bs, a);
    }
  }

  predicate AllSucceed(env: nat -> Answer, s: nat, n: nat) {
    forall i: nat :: s <= i < s + n ==> env(i).ret == 0
  }

  /** The chip has not yet answered the request for a buffer. */
  predicate Busy(env: nat -> Answer, s: nat) {
    Bit(env(s).value(RCV_CTRL_2), 1)
  }

  /** The operation after at most `looks` looks for a buffer from `s` on, and the buffer's address; zero is none. */
  function BufferAt(env: nat -> Answer, s: nat, looks: nat): (nat, uint32)
    decreases looks
  {
    if looks == 0 then (s, 0)
    else if env(s).ret != 0 then (s + 1, 0)
    else if Busy(env, s) then BufferAt(env, s + 1, looks - 1)
    else (s + 2, if env(s + 1).ret == 0 then env(s + 1).value(DMA_ADDR) else 0)
  }

  lemma BufferStep(env: nat -> Answer, s: nat, looks: nat)
    ensures looks == 0 ==> BufferAt(env, s, looks) == (s, 0)
    ensures looks > 0 ==>
              BufferAt(env, s, looks) ==
              if env(s).ret != 0 then (s + 1, 0)
              else if Bit(env(s).value(RCV_CTRL_2), 1) then BufferAt(env, s + 1, looks - 1)
              else (s + 2, if env(s + 1).ret == 0 then env(s + 1).value(DMA_ADDR) else 0)
  {
    hide Bit;
  }

  /** The looks from `s` on succeeded, all but the last found the request bit set, and then the address was read. */
  predicate Found(env: nat -> Answer, s: nat, t: nat, dma: uint32) {
    && s + 2 <= t
    && (forall i :: s <= i < t - 1 ==> env(i).ret == 0 && (env(i).value(0x1078) / 2 % 2 == 1 <==> i < t - 2))
    && env(t - 1).ret == 0 && env(t - 1).value(0x150400) == dma
  }

  lemma BusyIs(env: nat -> Answer, s: nat)
    ensures Busy(env, s) <==> env(s).value(0x1078) / 2 % 2 == 1
  {
    var v := env(s).value(RCV_CTRL_2);
    assert Bit(v, 1) == Bit(v / 2, 0);
  }

  /** An address is what successful looks found, and it is found whenever they do within the looks allowed. */
  lemma {:induction false} BufferFound(env: nat -> Answer, s: nat, looks: nat)
    ensures var (t, a) := BufferAt(env, s, looks);
            s <= t <= s + looks + 1 && (looks > 0 ==> s < t) && (a != 0 ==> Found(env, s, t, a))
    ensures forall t: nat, a: uint32 :: t <= s + looks + 1 && Found(env, s, t, a) ==> BufferAt(env, s, looks) == (t, a)
    decreases looks
  {
    hide Busy;
    BusyIs(env, s);
    if looks > 0 {
      BufferFound(env, s + 1, looks - 1);
      forall t: nat, a: uint32 | t <= s + looks + 1 && Found(env, s, t, a)
        ensures BufferAt(env, s, looks) == (t, a)
      {
        assert env(s).ret == 0;
        if Busy(env, s) {
          assert Found(env, s + 1, t, a);
        }
      }
    }
  }

  class Host {
    const env: nat -> Answer
    var step: nat            // bus operations so far
    var sizeDone: bool       // gu8HifSizeDone

    // What has reached the chip.
    var signals: nat         // RX done
    var fetched: seq<Fetch>
    var invoked: seq<Invocation>
    var loaded: seq<Block>
    var writes: seq<Write>

    ghost var failures: nat

    constructor (answers: nat -> Answer)
      ensures env == answers && step == 0 && !sizeDone && signals == 0
      ensures fetched == [] && invoked == [] && loaded == [] && writes == []
      ensures failures == 0
    {
      env := answers;
      step, sizeDone, signals, fetched, invoked, loaded, writes := 0, false, 0, [], [], [], [];
      failures := 0;
    }

    /** Any bus operation: the answer, and a count of those that failed. */
    method Operation() returns (a: Answer)
      modifies this`step, this`failures
      ensures a == env(old(step)) && step == old(step) + 1
      ensures failures == old(failures) + if a.ret == 0 then 0 else 1
    {
      a := env(step);
      step := step + 1;
      if a.ret != 0 {
        failures := failures + 1;
      }
    }

    method WriteReg(reg: nat, value: nat) returns (ret: sint8)
      modifies this`step, this`failures, this`writes
      ensures step == old(step) + 1 && ret == env(old(step)).ret
      ensures failures == old(failures) + if ret == 0 then 0 else 1
      ensures writes == if ret == 0 then old(writes) + [Write(reg, value)] else old(writes)
    {
      var a := Operation();
      ret := a.ret;
      if ret == 0 {
        writes := writes + [Write(reg, value)];
      }
    }

    /** `hif_set_rx_done` */
    method SetRxDone() returns (ret: sint8)
      modifies this`step, this`failures, this`signals, this`writes
      ensures failures >= old(failures) && old(writes) <= writes && step > old(step)
      ensures ret == 0 ==> writes == old(writes) + [Write(RCV_CTRL_0, Or(Control(env, old(step)), 2))]
      ensures step == AfterAsking(env, old(step)) && (ret == 0 <==> Granted(env, old(step)))
      ensures if ret == 0 then signals == old(signals) + 1 && failures == old(failures)
              else signals == old(signals) && failures == old(failures) + 1
    {
      var read := Operation();
      if read.ret != 0 {
        return read.ret;
      }
      var done := Or(read.value(RCV_CTRL_0), 2);
      ret := WriteReg(RCV_CTRL_0, done);
      OrBit(read.value(RCV_CTRL_0), 2, 1);
      if ret == 0 && Bit(done, 1) {
        signals := signals + 1;
      }
    }

    /** `hif_receive` */
    method HifReceive(c: Call) returns (ret: sint8)
      modifies this`step, this`failures, this`signals, this`sizeDone, this`fetched, this`writes
      // In full: the window is bits 2 to 13 of the control register, from the address on.
      ensures var s := old(step);
              var size, address := env(s).value(0x1070) / 4 % 0x1000, env(s + 1).value(0x1084);
              var end, limit := (c.addr + c.sz) % 0x1_0000_0000, (address + size) % 0x1_0000_0000;
              var admitted := c.sz <= size && address <= c.addr && end <= limit;
              if c.addr == 0 || !c.buffer || c.sz == 0 then
                && fetched == old(fetched)
                && (ret == 0 <==> c.isDone && env(s).ret == 0 && env(s + 1).ret == 0)
              else
                && fetched == (if env(s).ret == 0 && env(s + 1).ret == 0 && admitted
                               then old(fetched) + [Fetch(c.addr, c.sz, address, size)] else old(fetched))
                && (ret == 0 <==>
                    && env(s).ret == 0 && env(s + 1).ret == 0 && admitted && env(s + 2).ret == 0
                    && (c.isDone || end == limit ==> env(s + 3).ret == 0 && env(s + 4).ret == 0))
                && (ret == 0 ==> signals == old(signals) + if c.isDone || end == limit then 1 else 0)
      ensures failures >= old(failures) && signals >= old(signals) && old(writes) <= writes
      ensures ret == 0 <==> ReceiveSucceeds(env, old(step), c)
      ensures old(fetched) <= fetched && |fetched| <= |old(fetched)| + 1
      ensures forall f :: f in fetched[|old(fetched)|..] ==>
                Admitted(f) && f.addr == c.addr && f.sz == c.sz && f.sz > 0
                && f.size == SizeField(Control(env, old(step))) && f.address == Location(env, old(step) + 1)
      ensures ret == 0 ==> failures == old(failures) && (fetched == old(fetched) <==> Empty(c))
      // A read is refused exactly if the window does not admit it.
      ensures !Empty(c) && env(old(step)).ret == 0 && env(old(step) + 1).ret == 0 ==>
                var f := Fetch(c.addr, c.sz, Location(env, old(step) + 1), SizeField(Control(env, old(step))));
                && fetched == (if Admitted(f) then old(fetched) + [f] else old(fetched))
                && (!Admitted(f) ==> ret == ERR_FAIL)
      ensures Empty(c) && !c.isDone ==> ret == ERR_FAIL
      ensures ret == 0 && c.isDone ==> sizeDone && signals == old(signals) + 1
      ensures ret == 0 && !c.isDone ==>
                fetched != old(fetched)
                && var last := Ends(fetched[|old(fetched)|]);
                   signals == old(signals) + (if last then 1 else 0) && sizeDone == (old(sizeDone) || last)
      ensures var (next, ask) := AfterReceive(env, old(step), c);
              && step == next && sizeDone == (old(sizeDone) || ask.Some?)
              && signals == old(signals) + (if ask.Some? && Granted(env, ask.value) then 1 else 0)
              && (ask.Some? && !Granted(env, ask.value) ==> failures > old(failures))
    {
      hide Granted, AfterAsking, Admitted, Ends, SizeField, Or, Bit;
      WindowIs(env, step, c);
      if c.addr == 0 || !c.buffer || c.sz == 0 {
        if c.isDone {
          sizeDone := true;
          ret := SetRxDone();
        } else {
          ret := ERR_FAIL;
        }
        return;
      }
      ret := ReceiveInWindow(c);
    }

    /** A call with something to read: the window is looked up, and the read judged by it. */
    method ReceiveInWindow(c: Call) returns (ret: sint8)
      requires !Empty(c)
      modifies this`step, this`failures, this`signals, this`sizeDone, this`fetched, this`writes
      ensures ret == 0 <==> ReceiveSucceeds(env, old(step), c)
      ensures failures >= old(failures) && signals >= old(signals) && old(writes) <= writes
      ensures var s := old(step);
              var f := Fetch(c.addr, c.sz, Location(env, s + 1), SizeField(Control(env, s)));
              && fetched == (if env(s).ret == 0 && env(s + 1).ret == 0 && Admitted(f)
                             then old(fetched) + [f] else old(fetched))
              && (env(s).ret == 0 && env(s + 1).ret == 0 && !Admitted(f) ==> ret == ERR_FAIL)
              && (ret == 0 ==> failures == old(failures) && fetched == old(fetched) + [f])
              && (ret == 0 ==> sizeDone == (old(sizeDone) || c.isDone || Ends(f)))
              && (ret == 0 ==> signals == old(signals) + if c.isDone || Ends(f) then 1 else 0)
      ensures var (next, ask) := AfterReceive(env, old(step), c);
              && step == next && sizeDone == (old(sizeDone) || ask.Some?)
              && signals == old(signals) + (if ask.Some? && Granted(env, ask.value) then 1 else 0)
              && (ask.Some? && !Granted(env, ask.value) ==> failures > old(failures))
    {
      hide Granted, AfterAsking, Admitted, Ends, SizeField, Or, Bit;
      var control := Operation();
      if control.ret != 0 {
        return control.ret;
      }
      var location := Operation();
      if location.ret != 0 {
        return location.ret;
      }
      var f := Fetch(c.addr, c.sz, location.value(RCV_CTRL_1), SizeField(control.value(RCV_CTRL_0)));
      var ok := Judge(f);
      if !ok {
        return ERR_FAIL;
      }
      ret := ReceiveBlock(f, c.isDone);
    }

    /** The two tests of the request against the window. */
    method Judge(f: Fetch) returns (ok: bool)
      ensures ok == Admitted(f)
    {
      if f.sz > f.size {
        return false;
      }
      if f.addr < f.address || (f.addr + f.sz) % WRAP32 > (f.address + f.size) % WRAP32 {
        return false;
      }
      ok := true;
    }

    /** The payload, and RX done after the last one. */
    method ReceiveBlock(f: Fetch, isDone: bool) returns (ret: sint8)
      modifies this`step, this`failures, this`signals, this`sizeDone, this`fetched, this`writes
      ensures failures >= old(failures) && old(writes) <= writes && fetched == old(fetched) + [f]
      ensures ret == 0 <==> failures == old(failures)
      ensures env(old(step)).ret != 0 ==>
                ret != 0 && step == old(step) + 1 && sizeDone == old(sizeDone) && signals == old(signals)
      ensures env(old(step)).ret == 0 && (isDone || Ends(f)) ==>
                && step == AfterAsking(env, old(step) + 1) && sizeDone && (ret == 0 <==> Granted(env, old(step) + 1))
                && signals == old(signals) + if ret == 0 then 1 else 0
      ensures env(old(step)).ret == 0 && !isDone && !Ends(f) ==>
                ret == 0 && step == old(step) + 1 && sizeDone == old(sizeDone) && signals == old(signals)
    {
      hide Granted, AfterAsking;
      fetched := fetched + [f];
      var block := Operation();
      if block.ret != 0 {
        return block.ret;
      }
      ret := SUCCESS;
      if ((f.address + f.size) % WRAP32 - (f.addr + f.sz) % WRAP32) % WRAP32 <= 0 || isDone {
        sizeDone := true;
        ret := SetRxDone();
      }
    }

    /** A registered callback: any calls of `hif_receive`, whose results it may ignore. */
    method Callback(calls: seq<Call>)
      modifies this`step, this`failures, this`signals, this`sizeDone, this`fetched, this`writes
      ensures failures >= old(failures) && signals >= old(signals) && old(fetched) <= fetched && old(writes) <= writes
      ensures forall f :: f in fetched[|old(fetched)|..] ==> Admitted(f)
      ensures forall address, size :: Steady(env, old(step), address, size) ==>
                forall f :: f in fetched[|old(fetched)|..] ==> f.address == address && f.size == size
      ensures var (next, asks) := AfterCalls(env, old(step), calls);
              && step == next && sizeDone == (old(sizeDone) || asks != [])
              && (signals == old(signals) <==> forall a :: a in asks ==> !Granted(env, a))
              && (asks != [] ==> signals > old(signals) || failures > old(failures))
    {
      assert calls[..0] == [];
      for i := 0 to |calls|
        invariant failures >= old(failures) && signals >= old(signals)
        invariant old(fetched) <= fetched && old(writes) <= writes
        invariant forall f :: f in fetched[|old(fetched)|..] ==> Admitted(f)
        invariant step >= old(step)
        invariant forall address, size :: Steady(env, old(step), address, size) ==>
                    forall f :: f in fetched[|old(fetched)|..] ==> f.address == address && f.size == size
        invariant var (next, asks) := AfterCalls(env, old(step), calls[..i]);
                  && step == next && sizeDone == (old(sizeDone) || asks != [])
                  && (signals == old(signals) <==> forall a :: a in asks ==> !Granted(env, a))
                  && (asks != [] ==> signals > old(signals) || failures > old(failures))
      {
        assert calls[..i + 1][..i] == calls[..i] && calls[..i + 1][i] == calls[i];
        SteadyLater(env, old(step), step);
        var ignored := HifReceive(calls[i]);
      }
      assert calls[..|calls|] == calls;
    }

    /** `hif_isr`; `calls` is what the callback of the packet's group does, if one is registered. */
    method HifIsr(registered: Group -> bool, calls: seq<Call>) returns (ret: sint8, sz: uint16)
      modifies this`step, this`failures, this`signals, this`sizeDone, this`fetched, this`writes, this`invoked
      ensures failures >= old(failures) && signals >= old(signals) && old(fetched) <= fetched && old(writes) <= writes
      // Every block the callback reads lies in the window, whatever the packet's header claims.
      ensures forall f :: f in fetched[|old(fetched)|..] ==> Admitted(f)
      ensures forall address, size :: Steady(env, old(step), address, size) ==>
                forall f :: f in fetched[|old(fetched)|..] ==> f.address == address && f.size == size
      // Nothing handed on.
      ensures !Dispatches(env, old(step)) ==>
                && ret == Refusal(env, old(step)) && signals == old(signals)
                && fetched == old(fetched) && invoked == old(invoked)
      // A packet handed on goes to its group's callback and is acknowledged, unless the bus fails.
      ensures Dispatches(env, old(step)) ==>
                var s := old(step);
                var h := env(s + 4);
                var gid, length := h.data(0), h.data(2) as int + 256 * h.data(3) as int;
                var group := if gid == 1 then Wifi else if gid == 2 then Ip else if gid == 4 then Ota
                             else if gid == 6 then Crypto else Sigma;
                var i := Invocation(group, h.data(1), (length - 8) % 0x1_0000,
                                    (env(s + 3).value(0x1084) + 8) % 0x1_0000_0000);
                && gid in {1, 2, 4, 6, 7}
                && sz == env(s + 1).value(0x1070) / 4 % 0x1000
                && invoked == old(invoked) + (if registered(group) then [i] else [])
      ensures Dispatches(env, old(step)) ==>
                && |writes| > |old(writes)|
                && env(old(step) + 1).value(0x1070) > 0
                && writes[|old(writes)|] == Write(0x1070, env(old(step) + 1).value(0x1070) - 1)
      ensures Dispatches(env, old(step)) && ret == 0 ==> signals > old(signals) || failures > old(failures)
      ensures Dispatches(env, old(step)) && failures == old(failures) ==> ret == 0 && signals > old(signals)
      // RX done is lost unnoticed exactly if the callback asked for it and none of its requests reached the chip.
      ensures Dispatches(env, old(step)) ==>
                var asks := Asks(env, old(step) + 5, registered(InvocationAt(env, old(step)).group), calls);
                ret == 0 && signals == old(signals) <==> asks != [] && forall a :: a in asks ==> !Granted(env, a)
      // A callback that did not ask is helped out.
      ensures Dispatches(env, old(step))
              && Asks(env, old(step) + 5, registered(InvocationAt(env, old(step)).group), calls) == [] ==>
                (signals == old(signals) + 1 <==> ret == 0)
    {
      hide *;
      ghost var s := step;
      HandedOn(env, s);
      Groups(env(s + 4).data(0));
      var taken, i;
      ret, sz, taken, i := TakePacket();
      if taken {
        SteadyLater(env, s, step);
        ret := HandOn(registered(i.group), calls, i);
      }
    }

    /** The packet's callback, and RX done if it has not asked for it. */
    method HandOn(registered: bool, calls: seq<Call>, i: Invocation) returns (ret: sint8)
      requires !sizeDone
      modifies this`step, this`failures, this`signals, this`sizeDone, this`fetched, this`writes, this`invoked
      ensures failures >= old(failures) && signals >= old(signals) && old(fetched) <= fetched && old(writes) <= writes
      ensures forall f :: f in fetched[|old(fetched)|..] ==> Admitted(f)
      ensures forall address, size :: Steady(env, old(step), address, size) ==>
                forall f :: f in fetched[|old(fetched)|..] ==> f.address == address && f.size == size
      ensures invoked == old(invoked) + if registered then [i] else []
      ensures ret == 0 ==> signals > old(signals) || failures > old(failures)
      ensures failures == old(failures) ==> ret == 0 && signals > old(signals)
      ensures var asks := Asks(env, old(step), registered, calls);
              && (ret == 0 && signals == old(signals) <==> asks != [] && forall a :: a in asks ==> !Granted(env, a))
              && (asks == [] ==> (signals == old(signals) + 1 <==> ret == 0))
    {
      hide Steady, Admitted, Control, Location, AfterCalls, Granted;
      ret := SUCCESS;
      if registered {
        invoked := invoked + [i];
        Callback(calls);
      }
      if !sizeDone {
        ret := SetRxDone();
      }
    }

    /** The part of `hif_isr` before a callback is called. */
    method TakePacket() returns (ret: sint8, sz: uint16, taken: bool, i: Invocation)
      modifies this`step, this`failures, this`sizeDone, this`writes
      ensures failures >= old(failures) && old(writes) <= writes
      ensures taken == Dispatches(env, old(step))
      ensures !taken ==> ret == Refusal(env, old(step))
      ensures taken ==> ret == 0 && !sizeDone && step == old(step) + 5 && failures == old(failures)
                        && sz == SizeField(Control(env, old(step) + 1)) && i == InvocationAt(env, old(step))
                        && writes == old(writes) + [Write(RCV_CTRL_0, AndNot(Control(env, old(step) + 1), 1))]
    {
      hide AndNot, Bit, SizeField, Or, Rings, NoRing, HeaderPasses, BadHeader, InvocationAt, Control, Location;
      ghost var s := step;
      taken, i := false, Invocation(Other, 0, 0, 0);
      var go;
      ret, sz, go := TakeInterrupt();
      if !go {
        return;
      }
      sizeDone := false;
      if sz == 0 {
        return ERR_RCV, sz, false, i;
      }
      ret, taken, i := TakeHeader(sz, s);
    }

    /** Its last part: the header is read and tested. */
    method TakeHeader(sz: uint16, ghost s: nat) returns (ret: sint8, ok: bool, i: Invocation)
      requires step == s + 3
      modifies this`step, this`failures
      ensures failures >= old(failures) && ok == HeaderPasses(env, s + 3, sz)
      ensures !ok ==> ret == BadHeader(env, s + 3)
      ensures ok ==> ret == 0 && step == s + 5 && failures == old(failures) && i == InvocationAt(env, s)
    {
      i := Invocation(Other, 0, 0, 0);
      var location := Operation();
      if location.ret != 0 {
        return location.ret, false, i;
      }
      var address := location.value(RCV_CTRL_1);
      var header := Operation();
      if header.ret != 0 {
        return header.ret, false, i;
      }
      var length := LengthField(header);
      if length != sz {
        if sz - length > 4 {
          return ERR_BUS_FAIL, false, i;
        }
      }
      var group := GroupOf(header.data(0));
      if group == Other {
        return ERR_BUS_FAIL, false, i;
      }
      i := Invocation(group, header.data(1), (length - HDR_OFFSET) % WRAP16, (address + HDR_OFFSET) % WRAP32);
      return SUCCESS, true, i;
    }

    /** Its first part: the interrupt is seen and cleared. */
    method TakeInterrupt() returns (ret: sint8, sz: uint16, go: bool)
      modifies this`step, this`failures, this`writes
      ensures failures >= old(failures) && go == Rings(env, old(step))
      ensures !go ==> ret == NoRing(env, old(step)) && writes == old(writes)
      ensures go ==> step == old(step) + 3 && failures == old(failures) && sz == SizeField(Control(env, old(step) + 1))
                     && writes == old(writes) + [Write(RCV_CTRL_0, AndNot(Control(env, old(step) + 1), 1))]
    {
      hide AndNot, Bit, SizeField;
      sz, go := 0, false;
      var wake := Operation();
      if wake.ret != 0 {
        return wake.ret, sz, false;
      }
      var read := Operation();
      var reg := read.value(RCV_CTRL_0);
      if read.ret != 0 || !Bit(reg, 0) {
        return read.ret, sz, false;
      }
      InterruptBitApart(reg);
      reg := AndNot(reg, 1);
      ret := WriteReg(RCV_CTRL_0, reg);
      if ret != 0 {
        return;
      }
      return ret, SizeField(reg), true;
    }

    /** `hif_send` */
    method HifSend(p: Packet) returns (ret: sint8, ghost dma: uint32)
      requires WellFormed(p)
      modifies this`step, this`failures, this`loaded, this`writes
      ensures failures >= old(failures) && step <= old(step) + POLLS + 8
      // It succeeds exactly if the chip has a buffer and every operation succeeds.
      ensures var s := old(step);
              var (t, a) := BufferAt(env, s + 3, POLLS);
              && (ret == 0 <==> AllSucceed(env, s, 3) && a != 0 && AllSucceed(env, t, |Blocks(p, a)| + 1))
              && (AllSucceed(env, s, 3) ==> dma == a)
              && (AllSucceed(env, s, 3) && a == 0 ==> ret == ERR_MEM_ALLOC)
      // Done: the length is announced, all blocks are in the chip, then the chip is told where.
      ensures ret == 0 ==> failures == old(failures) && dma != 0 && loaded == old(loaded) + Blocks(p, dma)
      ensures ret == 0 ==>
                var length := (8 + if p.data.Some? then p.dataOffset + p.dataSize else p.ctrlSize) % 0x1_0000;
                writes == old(writes)
                          + [Write(0x108c, p.gid + 0x100 * p.opcode + 0x1_0000 * length), Write(0x1078, 2),
                             Write(0x106c, dma * 4 % 0x1_0000_0000 + 2)]
      // The chip has a buffer if it says so within a thousand looks, none of which fails.
      ensures var s := old(step) + 3;
              ret == 0 ==> exists t: nat :: t <= s + 1001 && Found(env, s, t, dma)
      ensures var s := old(step) + 3;
              forall t: nat, a: uint32 :: t <= s + 1001 && Found(env, s, t, a) && a != 0
                                          && AllSucceed(env, old(step), 3) && AllSucceed(env, t, |Blocks(p, a)| + 1) ==>
                                            ret == 0 && dma == a
      // Not done: the chip is not told, and holds the first blocks at most.
      ensures ret != 0 ==> exists k :: 0 <= k <= |Blocks(p, dma)| && loaded == old(loaded) + Blocks(p, dma)[..k]
      ensures ret != 0 ==> old(writes) <= writes && forall w :: w in writes[|old(writes)|..] ==> w.reg != RCV_CTRL_3
    {
      hide *;
      NoMemoryIsFailure();
      HeaderIs(p);
      BufferFound(env, step + 3, 1000);
      dma := 0;
      ret := RequestBuffer(p);
      assert loaded == old(loaded) + Blocks(p, 0)[..0];
      if ret != 0 {
        return;
      }
      var addr := AwaitBuffer();
      dma := addr;
      assert loaded == old(loaded) + Blocks(p, addr)[..0];
      if addr == 0 {
        return ERR_MEM_ALLOC, dma;
      }
      ghost var t := step;
      ret := Load(p, addr);
      OneMore(env, t, |Blocks(p, addr)|);
      if ret != 0 {
        return;
      }
      assert Blocks(p, dma)[..|Blocks(p, dma)|] == Blocks(p, dma);
      ret := TellWhere(addr);
    }

    /** The chip is woken, the length announced and a buffer requested. */
    method RequestBuffer(p: Packet) returns (ret: sint8)
      modifies this`step, this`failures, this`writes
      ensures failures >= old(failures) && step <= old(step) + 3
      ensures ret == 0 <==> AllSucceed(env, old(step), 3)
      ensures ret == 0 ==>
                && step == old(step) + 3 && failures == old(failures)
                && writes == old(writes) + [Announcement(p), Write(0x1078, 2)]
      ensures old(writes) <= writes && forall w :: w in writes[|old(writes)|..] ==> w.reg != RCV_CTRL_3
    {
      hide AllSucceed, Or, Announced;
      FirstThree(env, step);
      var wake := Operation();
      if wake.ret != 0 {
        return wake.ret;
      }
      var announcement := Announcement(p);
      ret := WriteReg(STATE_REG, announcement.value);
      if ret != 0 {
        return;
      }
      ret := WriteReg(RCV_CTRL_2, 2);
    }

    /** The chip is told where the packet is. */
    method TellWhere(dma: uint32) returns (ret: sint8)
      modifies this`step, this`failures, this`writes
      ensures step == old(step) + 1 && ret == env(old(step)).ret
      ensures failures == old(failures) + if ret == 0 then 0 else 1
      ensures writes == if ret == 0 then old(writes) + [Write(0x106c, dma * 4 % 0x1_0000_0000 + 2)] else old(writes)
    {
      DoneBit(dma);
      ret := WriteReg(RCV_CTRL_3, Or(dma * 4 % WRAP32, 2));
    }

    lemma DoneBit(dma: uint32)
      ensures Or(dma * 4 % WRAP32, 2) == dma * 4 % 0x1_0000_0000 + 2
    {
      assert Pow2(2) == 4;
      OrIsSum(dma * 4 % WRAP32 / 4, 2, 2);
    }

    lemma NoMemoryIsFailure()
      ensures ERR_MEM_ALLOC == -3 && POLLS == 1000
    {
    }

    lemma FirstThree(answers: nat -> Answer, s: nat)
      ensures AllSucceed(answers, s, 3) <==> answers(s).ret == 0 && answers(s + 1).ret == 0 && answers(s + 2).ret == 0
    {
    }

    lemma OneMore(answers: nat -> Answer, s: nat, n: nat)
      ensures AllSucceed(answers, s, n + 1) <==> AllSucceed(answers, s, n) && answers(s + n).ret == 0
    {
    }

    /** Up to a thousand looks at the register until the chip has a buffer; zero if it has none. */
    method AwaitBuffer() returns (dma: uint32)
      modifies this`step, this`failures
      ensures failures >= old(failures) && (dma != 0 ==> failures == old(failures))
      ensures (step, dma) == BufferAt(env, old(step), POLLS)
      ensures old(step) < step <= old(step) + POLLS + 1
      ensures dma != 0 ==> Found(env, old(step), step, dma)
      ensures forall t: nat, a: uint32 :: t <= old(step) + 1001 && Found(env, old(step), t, a) ==> (step, dma) == (t, a)
    {
      hide *;
      NoMemoryIsFailure();
      BufferFound(env, step, POLLS);
      dma := 0;
      var cnt := 0;
      while cnt < POLLS
        invariant cnt <= POLLS && dma == 0 && failures == old(failures)
        invariant BufferAt(env, old(step), POLLS) == BufferAt(env, step, POLLS - cnt)
      {
        BufferStep(env, step, POLLS - cnt);
        var reg := Operation();
        if reg.ret != 0 {
          return 0;
        }
        if !Bit(reg.value(RCV_CTRL_2), 1) {
          var location := Operation();
          dma := location.value(DMA_ADDR);
          if location.ret != 0 {
            dma := 0;
          }
          return;
        }
        cnt := cnt + 1;
      }
      BufferStep(env, step, 0);
    }

    /** The block transfers of one packet. */
    method Load(p: Packet, dma: uint32) returns (ret: sint8)
      requires WellFormed(p)
      modifies this`step, this`failures, this`loaded
      ensures failures >= old(failures) && step <= old(step) + 3
      ensures ret == 0 <==> AllSucceed(env, old(step), |Blocks(p, dma)|)
      ensures ret == 0 ==>
                && loaded == old(loaded) + Blocks(p, dma)
                && failures == old(failures) && step == old(step) + |Blocks(p, dma)|
      ensures ret != 0 ==> exists k :: 0 <= k <= |Blocks(p, dma)| && loaded == old(loaded) + Blocks(p, dma)[..k]
    {
      hide AllSucceed, Header, Announced;
      ghost var bs, before, s, k := Blocks(p, dma), loaded, step, 0;
      assert loaded == before + bs[..0];
      FewerSucceed(env, s, |bs|);
      var curr := dma;
      ret := WriteNext(curr, Header(p), bs, k, before, s);
      if ret != 0 {
        return;
      }
      k := k + 1;
      curr := (curr + HDR_OFFSET) % WRAP32;
      if p.ctrl.Some? {
        ret := WriteNext(curr, p.ctrl.value[..p.ctrlSize], bs, k, before, s);
        if ret != 0 {
          return;
        }
        k := k + 1;
        curr := (curr + p.ctrlSize) % WRAP32;
      }
      if p.data.Some? {
        curr := (curr + (p.dataOffset - p.ctrlSize)) % WRAP32;
        ret := WriteNext(curr, p.data.value[..p.dataSize], bs, k, before, s);
        if ret != 0 {
          return;
        }
        k := k + 1;
      }
      assert k == |bs| && bs[..k] == bs;
    }

    /** The k-th of the blocks `bs`, the others before it being in the chip. */
    method WriteNext(addr: uint32, bytes: seq<byte>, ghost bs: seq<Block>, ghost k: nat,
                     ghost before: seq<Block>, ghost s: nat) returns (ret: sint8)
      requires k < |bs| && bs[k] == Block(addr, bytes)
      requires loaded == before + bs[..k] && step == s + k && AllSucceed(env, s, k)
      modifies this`step, this`failures, this`loaded
      ensures step == s + k + 1 && failures == old(failures) + if ret == 0 then 0 else 1
      ensures ret == 0 <==> AllSucceed(env, s, k + 1)
      ensures loaded == before + bs[..if ret == 0 then k + 1 else k]
    {
      hide AllSucceed;
      OneMore(env, s, k);
      ret := WriteBlock(addr, bytes);
      assert bs[..k + 1] == bs[..k] + [bs[k]];
    }

    lemma FewerSucceed(answers: nat -> Answer, s: nat, n: nat)
      ensures AllSucceed(answers, s, 0)
      ensures AllSucceed(answers, s, n) ==> forall m: nat :: m <= n ==> AllSucceed(answers, s, m)
    {
    }

    method WriteBlock(addr: uint32, bytes: seq<byte>) returns (ret: sint8)
      modifies this`step, this`failures, this`loaded
      ensures step == old(step) + 1 && ret == env(old(step)).ret
      ensures failures == old(failures) + if ret == 0 then 0 else 1
      ensures loaded == if ret == 0 then old(loaded) + [Block(addr, bytes)] else old(loaded)
    {
      var a := Operation();
      ret := a.ret;
      if ret == 0 {
        loaded := loaded + [Block(addr, bytes)];
      }
    }
  }

  /** A packet for which `hif_isr` reports success although the chip was never told that it was received. */
  method LostRxDone() returns (h: Host, ret: sint8)
    ensures Dispatches(h.env, 0) && ret == 0 && h.signals == 0
  {
    hide *;
    LosingRun();
    h := new Host(LosingAnswer);
    var sz;
    ret, sz := h.HifIsr(_ => true, [Call(0, false, 0, true)]);
  }

  /** The bus works until a Wi-Fi packet of eight bytes is handed on, and then no more. */
  function LosingAnswer(s: nat): Answer {
    Answer(if s < 5 then SUCCESS else ERR_BUS_FAIL, _ => 33, i => if i == 0 then 1 else if i == 2 then 8 else 0)
  }

  /** A callback that only asks for RX done asks in vain. */
  lemma LosingRun()
    ensures Dispatches(LosingAnswer, 0)
    ensures Asks(LosingAnswer, 5, true, [Call(0, false, 0, true)]) == [5] && !Granted(LosingAnswer, 5)
  {
    var call := Call(0, false, 0, true);
    var none: seq<nat> := [];
    assert Bit(33, 0) && SizeField(33) == 8 && LengthField(LosingAnswer(4)) == 8;
    assert [call][..0] == [] && none + [5] == [5];
    assert AfterReceive(LosingAnswer, 5, call) == (6, Some(5)) && AfterCalls(LosingAnswer, 5, []) == (5, none);
  }
}
