/**
 * The interrupt-driven 1-Wire engine of onewire.c. One timer slot carries one
 * bit; the handler steps through the buffer and gives a semaphore at the end,
 * for which the calling task waits a limited time.
 */
module OneWire {
  import opened Bytes
  import opened Bits

  datatype State = Ready | Reset | Write | Read
  datatype Event = Compare1 | Compare2

  const SUCCESS: nat := 0
  const ERR: nat := 1
  const BUSY: nat := 2

  // --- bits of a message, the least significant bit of a byte first ----------------

  function Slots(b: seq<byte>): (s: seq<bool>)
    ensures |s| == 8 * |b| && forall i :: 0 <= i < |s| ==> s[i] == Bit(b[i / 8], i % 8)
  {
    seq(8 * |b|, i requires 0 <= i < 8 * |b| => Bit(b[i / 8], i % 8))
  }

  /** The first `k` bits of byte `j`, as far as there are bits. */
  function Collected(bits: seq<bool>, j: nat, k: nat): (v: byte)
    requires k <= 8
    ensures forall i: nat :: Bit(v, i) <==> i < k && 8 * j + i < |bits| && bits[8 * j + i]
  {
    if k == 0 then
      assert forall i: nat :: !Bit(0, i) by { forall i: nat { NoBits(i); } }
      0
    else if 8 * j + k - 1 < |bits| && bits[8 * j + k - 1] then SetBits(Collected(bits, j, k - 1), Mask(k - 1))
    else Collected(bits, j, k - 1)
  }

  function Gathered(bits: seq<bool>, len: nat): (b: seq<byte>)
    ensures |b| == len && forall j :: 0 <= j < len ==> b[j] == Collected(bits, j, 8)
  {
    seq(len, j requires 0 <= j < len => Collected(bits, j, 8))
  }

  /** Collecting the slots of a message rebuilds it. */
  lemma GatheredSlots(b: seq<byte>)
    ensures Gathered(Slots(b), |b|) == b
  {
    forall j: nat | j < |b|
      ensures Collected(Slots(b), j, 8) == b[j]
    {
      SameByte(b[j], Slots(b), j);
    }
  }

  lemma SameByte(v: byte, bits: seq<bool>, j: nat)
    requires forall i: nat :: i < 8 ==> (Bit(v, i) <==> 8 * j + i < |bits| && bits[8 * j + i])
    ensures v == Collected(bits, j, 8)
  {
    ByteIsEightBits();
    BitsDetermine(v, Collected(bits, j, 8), 8);
  }

  // --- how far an operation gets ------------------------------------------------------

  function Min(a: nat, b: nat): nat { if a < b then a else b }

  /** The slots of a complete operation: the length is kept in eight bits. */
  function Total(len: nat): (t: nat)
    ensures t > 0
  {
    if len % 256 == 0 then 1 else 8 * (len % 256)
  }

  /**
   * When the task stops waiting and what still happens after that: at most
   * `patience` interrupts pass while it waits, and `late` of them between the
   * end of the wait and the stopping of the timer.
   */
  datatype Schedule = Schedule(patience: nat, late: nat)

  /** Of `need` interrupts, the number that happens; none while waiting for a semaphore already given. */
  function Waited(need: nat, given: bool, t: Schedule): nat {
    if given then 0 else Min(t.patience, need)
  }
  function Happened(need: nat, given: bool, t: Schedule): nat {
    Min(Waited(need, given, t) + t.late, need)
  }
  predicate Succeeds(need: nat, given: bool, t: Schedule) {
    given || t.patience >= need
  }
  /** A semaphore given too late stays for the next operation. */
  predicate LeavesGiven(need: nat, given: bool, t: Schedule) {
    Waited(need, given, t) < need && Happened(need, given, t) == need
  }

  function SlotsDriven(len: nat, given: bool, t: Schedule): nat {
    Min(1 + Happened(Total(len), given, t), Total(len))
  }
  /** Every slot of a read takes two interrupts, the first of which samples the wire. */
  function SlotsSampled(len: nat, given: bool, t: Schedule): nat {
    (Happened(2 * Total(len), given, t) + 1) / 2
  }

  /** The wait for the semaphore and what follows it, by the number of interrupts. */
  lemma TwoWaits(need: nat, given: bool, t: Schedule, waited: nat, all: nat)
    requires need > 0 && waited == (if given then 0 else Min(t.patience, need)) && all == Min(waited + t.late, need)
    ensures waited == Waited(need, given, t) && all == Happened(need, given, t)
    ensures (given || waited == need) == Succeeds(need, given, t)
    ensures (waited < need && all == need) == LeavesGiven(need, given, t)
  {
  }

  lemma TotalIsPositive(len: nat)
    ensures Total(len) > 0
  {
  }

  lemma Halved(len: nat, given: bool, t: Schedule)
    ensures SlotsSampled(len, given, t) == (Happened(2 * Total(len), given, t) + 1) / 2
  {
  }

  lemma Driven(len: nat, given: bool, t: Schedule)
    ensures SlotsDriven(len, given, t) == Min(1 + Happened(Total(len), given, t), Total(len))
  {
  }

  /** When an operation on `len` bytes succeeds and how far it gets, in full. */
  lemma HowFar(len: nat, given: bool, t: Schedule)
    ensures var total := if len % 256 == 0 then 1 else 8 * (len % 256);
            && (Succeeds(Total(len), given, t) <==> given || t.patience >= total)
            && (Succeeds(2 * Total(len), given, t) <==> given || t.patience >= 2 * total)
            && SlotsDriven(len, given, t) ==
               (var n := 1 + (if given then 0 else if t.patience < total then t.patience else total) + t.late;
                if n < total then n else total)
            && SlotsSampled(len, given, t) ==
               (var n := (if given then 0 else if t.patience < 2 * total then t.patience else 2 * total) + t.late;
                if n < 2 * total then (n + 1) / 2 else total)
    ensures SUCCESS == 0 && ERR == 1 && BUSY == 2
  {
  }

  /** The levels found in the first `k` slots. */
  function Levels(pins: nat -> bool, k: nat): (s: seq<bool>)
    ensures |s| == k && forall i: nat :: i < k ==> s[i] == pins(i)
  {
    seq(k, i requires 0 <= i < k => pins(i))
  }

  lemma DrivenBits(b: seq<byte>, before: seq<bool>, k: nat)
    requires k <= 8 * |b|
    ensures |Slots(b)| == 8 * |b|
    ensures forall i: nat :: i < k ==> (before + Slots(b)[..k])[|before| + i] == Bit(b[i / 8], i % 8)
  {
  }

  lemma SampledBits(pins: nat -> bool, k: nat, n: nat, rest: seq<byte>)
    ensures var b := Gathered(Levels(pins, k), n) + rest;
            |b| >= n && forall i: nat :: i < 8 * n ==> (Bit(b[i / 8], i % 8) <==> i < k && pins(i))
  {
    var g := Gathered(Levels(pins, k), n);
    forall i: nat | i < 8 * n
      ensures Bit((g + rest)[i / 8], i % 8) <==> i < k && pins(i)
    {
      assert g[i / 8] == Collected(Levels(pins, k), i / 8, 8);
    }
  }

  class Engine {
    var state: State
    var ibit: byte
    var nbytes: byte
    var buff: array<byte>
    var at: nat               // how far the buffer pointer has moved
    var semaphore: bool
    var running: bool         // the timer
    var sampled: bool         // a read slot is past its first interrupt
    var heard: seq<bool>      // the levels sampled in this read
    var wire: seq<bool>       // the slots driven so far; a short low pulse is a one

    ghost var prior: seq<bool> // the slots on the wire before the operation
    ghost var len: nat
    ghost var was: seq<byte>

    constructor ()
      ensures state == Ready && !semaphore && !running && wire == [] && fresh(buff)
    {
      state, ibit, nbytes, at := Ready, 0, 0, 0;
      buff := new byte[0];
      semaphore, running, sampled, wire := false, false, false, [];
      prior, len, heard, was := [], 0, [], [];
    }

    ghost predicate Counts(k: nat)
      reads this`ibit, this`nbytes, this`at, this`buff, this`len
    {
      && ibit as int == k % 8 && at == k / 8 && nbytes as int == len % 256 - k / 8
      && 0 < len <= buff.Length
    }

    ghost predicate Writing()
      reads this`state, this`ibit, this`nbytes, this`at, this`buff, this`len, this`prior, this`wire, buff
    {
      && state == Write && prior <= wire
      && 1 <= |wire| - |prior| <= Total(len) && Counts(|wire| - |prior|)
      && forall i: nat :: i < |wire| - |prior| ==> wire[|prior| + i] == Bit(buff[i / 8], i % 8)
    }

    ghost predicate Reading()
      reads this`state, this`ibit, this`nbytes, this`at, this`buff, this`len, this`heard, this`was
      reads this`running, this`sampled, buff
    {
      && state == Read && |heard| <= Total(len) && Counts(|heard|)
      && (running && !sampled ==> |heard| < Total(len))
      && (running && sampled ==> |heard| >= 1)
      && (!running ==> |heard| == Total(len))
      && |was| == buff.Length && buff[len..] == was[len..]
      && forall i: nat :: i < 8 * len ==> (Bit(buff[i / 8], i % 8) <==> i < |heard| && heard[i])
    }

    /** Interrupts so far, of those the operation needs. */
    ghost function Passed(): int
      reads this`state, this`prior, this`wire, this`heard, this`running, this`sampled
    {
      if state == Write then |wire| - |prior| - (if running then 1 else 0)
      else 2 * |heard| - (if running && sampled then 1 else 0)
    }

    /** The bits not yet dealt with, as the handler counts them. */
    function Left(): int
      reads this`ibit, this`nbytes
    {
      8 * nbytes as int - ibit as int
    }

    /** The handler's step to the next bit; `k` bits are done. */
    method Advance(ghost k: nat)
      requires Counts(k) && k < Total(len)
      modifies this`ibit, this`nbytes, this`at
      ensures Counts(k + 1) && Left() < old(Left())
    {
      ibit := (ibit + 1) % 256;
      if ibit > 7 {
        ibit := 0;
        at := at + 1;
        nbytes := (nbytes + 255) % 256;
      }
    }

    /** The byte under way is inside the buffer, and it is the last one that counts as long as bits are left. */
    lemma Inside(k: nat)
      requires Counts(k) && k < Total(len)
      ensures at < len <= buff.Length && ibit < 8 && at == k / 8 && ibit as int == k % 8
    {
    }

    lemma NoneLeft(k: nat)
      requires Counts(k) && 1 <= k <= Total(len)
      ensures nbytes == 0 <==> k == Total(len)
    {
    }

    /** `timer_onewire_event_handler`, the compare events of a write. */
    method HandleWrite(event: Event)
      requires Writing() && event == Compare1 && !running
      modifies this`ibit, this`nbytes, this`at, this`semaphore, this`running, this`wire
      ensures Writing()
      ensures if |old(wire)| - |prior| < Total(len)
              then running && wire == old(wire) + [Bit(buff[old(at)], old(ibit))] && semaphore == old(semaphore)
                   && Left() < old(Left())
              else !running && wire == old(wire) && semaphore
    {
      hide Counts, Total;
      NoneLeft(|wire| - |prior|);
      match event
      case Compare1 =>
        if nbytes == 0 {
          semaphore := true;
        } else {
          Inside(|wire| - |prior|);
          wire := wire + [Bit(buff[at], ibit)];
          Advance(|wire| - 1 - |prior|);
          running := true;
        }
      case Compare2 =>
    }

    /** The compare events of a read; `pin` is the level of the wire. */
    method HandleRead(event: Event, pin: bool)
      requires Reading() && running && event == (if sampled then Compare2 else Compare1)
      modifies this`ibit, this`nbytes, this`at, this`semaphore, this`running, this`sampled, this`heard, buff
      ensures Reading()
      ensures if event == Compare1
              then running && sampled && heard == old(heard) + [pin]
                   && semaphore == old(semaphore) && Left() < old(Left())
              else heard == old(heard) && !sampled && running == (|heard| < Total(len))
                   && semaphore == (old(semaphore) || !running)
    {
      match event
      case Compare1 => OnSample(pin);
      case Compare2 => OnSlotEnd();
    }

    /** The first compare event of a read slot: the level is stored in the next bit. */
    method OnSample(pin: bool)
      requires Reading() && running && !sampled
      modifies this`ibit, this`nbytes, this`at, this`sampled, this`heard, buff
      ensures Reading() && sampled && heard == old(heard) + [pin] && Left() < old(Left())
    {
      hide Counts, Total, Bit;
      Inside(|heard|);
      Sample(pin);
      Advance(|heard|);
      sampled := true;
      heard := heard + [pin];
    }

    /** The second: the next slot is started, or there is none. */
    method OnSlotEnd()
      requires Reading() && running && sampled
      modifies this`semaphore, this`running, this`sampled
      ensures Reading() && !sampled && running == (|heard| < Total(len)) && semaphore == (old(semaphore) || !running)
    {
      hide Counts, Total, Bit;
      NoneLeft(|heard|);
      running, sampled := false, false;
      if nbytes == 0 {
        semaphore := true;
      } else {
        running := true;
      }
    }

    method Sample(pin: bool)
      requires at < buff.Length && ibit < 8
      modifies buff
      ensures forall j :: 0 <= j < buff.Length && j != at ==> buff[j] == old(buff[j])
      ensures forall k: nat :: Bit(buff[at], k) <==> Bit(old(buff[at]), k) || (pin && k == ibit as int)
    {
      if pin {
        buff[at] := SetBits(buff[at], Mask(ibit));
      }
    }

    /** `onewire_write` */
    method OnewireWrite(b: array<byte>, n: nat, t: Schedule) returns (ret: nat)
      requires n <= b.Length && n < 0x10000 && (state == Ready ==> !running)
      modifies this
      ensures old(state) != Ready ==> ret == BUSY && unchanged(this)
      ensures old(state) == Ready ==> state == Ready && !running
      ensures old(state) == Ready && n == 0 ==> ret == SUCCESS && wire == old(wire) && semaphore == old(semaphore)
      // In full: the result codes, and the slots driven, the least significant bit of a byte first.
      ensures ret == if old(state) != Ready then 2
                     else if n == 0 || old(semaphore) then 0
                     else if t.patience >= (if n % 256 == 0 then 1 else 8 * (n % 256)) then 0 else 1
      ensures old(state) == Ready && n > 0 ==>
                var k := |wire| - |old(wire)|;
                && old(wire) <= wire && 0 < k <= 8 * n
                && forall i: nat :: i < k ==> wire[|old(wire)| + i] == Bit(b[i / 8], i % 8)
      ensures old(state) == Ready && n > 0 ==>
                && ret == (if Succeeds(Total(n), old(semaphore), t) then SUCCESS else ERR)
                && semaphore == LeavesGiven(Total(n), old(semaphore), t)
                && SlotsDriven(n, old(semaphore), t) <= 8 * n
                && wire == old(wire) + Slots(b[..n])[..SlotsDriven(n, old(semaphore), t)]
    {
      if state != Ready {
        return BUSY;
      }
      if n == 0 {
        return SUCCESS;
      }
      ghost var given := semaphore;
      StartWrite(b, n);
      hide *;
      HowFar(n, given, t);
      ret := AwaitWrite(t);
      DrivenBits(b[..n], old(wire), SlotsDriven(n, given, t));
      running := false;
      state := Ready;
    }

    /** The slots of a write up to the stopping of the timer. */
    method AwaitWrite(t: Schedule) returns (ret: nat)
      requires Writing() && Passed() == 0 && running
      modifies this`ibit, this`nbytes, this`at, this`semaphore, this`running, this`wire
      ensures len <= buff.Length && SlotsDriven(len, old(semaphore), t) <= 8 * len
      ensures wire == prior + Slots(buff[..len])[..SlotsDriven(len, old(semaphore), t)]
      ensures ret == if Succeeds(Total(len), old(semaphore), t) then SUCCESS else ERR
      ensures semaphore == LeavesGiven(Total(len), old(semaphore), t)
    {
      hide *;
      TotalIsPositive(len);
      ghost var given := semaphore;
      WriteEvents(t.patience, true);
      ghost var waited := Passed();
      ret := Taken();
      WriteEvents(t.late, false);
      TwoWaits(Total(len), given, t, waited, Passed());
      Driven(len, given, t);
      Wrote();
    }

    /** The set-up of a write: the first slot is armed by the caller. */
    method StartWrite(b: array<byte>, n: nat)
      requires 0 < n <= b.Length && n < 0x10000
      modifies this
      ensures Writing() && Passed() == 0 && running && buff == b && prior == old(wire) && len == n
      ensures semaphore == old(semaphore)
    {
      state, nbytes, ibit, buff, at := Write, n % 256, 0, b, 0;
      prior, len := wire, n;
      wire := wire + [Bit(buff[at], 0)];
      ibit := ibit + 1;
      running := true;
    }

    /** `xSemaphoreTake` at the end of the wait. */
    method Taken() returns (ret: nat)
      modifies this`semaphore
      ensures !semaphore && ret == if old(semaphore) then SUCCESS else ERR
    {
      ret := SUCCESS;
      if semaphore {
        semaphore := false;
      } else {
        ret := ERR;
      }
    }

    lemma Wrote()
      requires Writing()
      ensures |wire| - |prior| <= Total(len) <= 8 * len && 0 < len <= buff.Length
      ensures (!running <==> Passed() == Total(len)) && Passed() >= 0 ==>
                |wire| - |prior| == Min(1 + Passed(), Total(len))
      ensures |prior| <= |wire| && wire == prior + Slots(buff[..len])[..|wire| - |prior|]
    {
      var k := |wire| - |prior|;
      forall i: nat | i < k
        ensures wire[|prior| + i] == Slots(buff[..len])[i]
      {
      }
      assert wire[|prior|..] == Slots(buff[..len])[..k];
    }

    /** At most `limit` slots end, fewer if the task waits and finds the semaphore given. */
    method WriteEvents(limit: nat, waiting: bool)
      requires Writing() && 0 <= Passed() <= Total(len) && (!running <==> Passed() == Total(len))
      modifies this`ibit, this`nbytes, this`at, this`semaphore, this`running, this`wire
      ensures Writing() && Passed() <= Total(len) && (!running <==> Passed() == Total(len))
      ensures Passed() >= 0
      ensures Passed() == if waiting && old(semaphore) then old(Passed()) else Min(old(Passed()) + limit, Total(len))
      ensures semaphore == (old(semaphore) || (old(Passed()) < Total(len) && Passed() == Total(len)))
    {
      var i := 0;
      while i < limit && running && !(waiting && semaphore)
        invariant i <= limit
        invariant Writing() && (!running <==> Passed() == Total(len))
        invariant 0 <= Passed() <= Total(len)
        invariant Passed() == old(Passed()) + i
        invariant semaphore == (old(semaphore) || (old(Passed()) < Total(len) && Passed() == Total(len)))
        invariant waiting && old(semaphore) ==> i == 0
        decreases limit - i
      {
        running := false;
        HandleWrite(Compare1);
        i := i + 1;
      }
    }

    /** `onewire_read`; `pins` are the levels found on the wire, one for each slot. */
    method OnewireRead(b: array<byte>, n: nat, pins: nat -> bool, t: Schedule) returns (ret: nat)
      requires n <= b.Length && n < 0x10000 && (state == Ready ==> !running)
      modifies this, b
      ensures wire == old(wire)
      ensures old(state) != Ready ==> ret == BUSY && unchanged(this, b)
      ensures old(state) == Ready ==> state == Ready && !running
      ensures old(state) == Ready && n == 0 ==> ret == SUCCESS && b[..] == old(b[..]) && semaphore == old(semaphore)
      // In full: the result codes, and the levels sampled, the least significant bit of a byte first.
      ensures ret == if old(state) != Ready then 2
                     else if n == 0 || old(semaphore) then 0
                     else if t.patience >= (if n % 256 == 0 then 2 else 16 * (n % 256)) then 0 else 1
      ensures old(state) == Ready && n > 0 ==>
                forall i: nat :: i < 8 * n ==>
                  (Bit(b[i / 8], i % 8) <==> i < SlotsSampled(n, old(semaphore), t) && pins(i))
      ensures old(state) == Ready && n > 0 ==>
                && ret == (if Succeeds(2 * Total(n), old(semaphore), t) then SUCCESS else ERR)
                && semaphore == LeavesGiven(2 * Total(n), old(semaphore), t)
                && b[..] == Gathered(Levels(pins, SlotsSampled(n, old(semaphore), t)), n) + old(b[n..])
    {
      if state != Ready {
        return BUSY;
      }
      if n == 0 {
        return SUCCESS;
      }
      ghost var given, rest := semaphore, b[n..];
      StartRead(b, n);
      hide *;
      HowFar(n, given, t);
      ret := AwaitRead(pins, t);
      SampledBits(pins, SlotsSampled(n, given, t), n, rest);
      running := false;
      state := Ready;
    }

    /** The slots of a read up to the stopping of the timer. */
    method AwaitRead(pins: nat -> bool, t: Schedule) returns (ret: nat)
      requires Reading() && Passed() == 0 && running && heard == []
      modifies this`ibit, this`nbytes, this`at, this`semaphore, this`running, this`sampled, this`heard, buff
      ensures len <= |was|
      ensures buff[..] == Gathered(Levels(pins, SlotsSampled(len, old(semaphore), t)), len) + was[len..]
      ensures ret == if Succeeds(2 * Total(len), old(semaphore), t) then SUCCESS else ERR
      ensures semaphore == LeavesGiven(2 * Total(len), old(semaphore), t)
    {
      hide *;
      TotalIsPositive(len);
      ghost var given := semaphore;
      ReadEvents(pins, t.patience, true);
      ghost var waited := Passed();
      ret := Taken();
      ReadEvents(pins, t.late, false);
      TwoWaits(2 * Total(len), given, t, waited, Passed());
      assert |heard| == SlotsSampled(len, given, t) by { Halved(len, given, t); }
      Rebuilt();
    }

    method StartRead(b: array<byte>, n: nat)
      requires 0 < n <= b.Length && n < 0x10000
      modifies this, b
      ensures Reading() && Passed() == 0 && running && !sampled && buff == b && heard == [] && len == n
      ensures wire == old(wire) && semaphore == old(semaphore) && was == old(b[..])
    {
      state, nbytes, ibit, buff, at := Read, n % 256, 0, b, 0;
      len, heard, was := n, [], b[..];
      Clear(b, n);
      running, sampled := true, false;
    }

    lemma Rebuilt()
      requires Reading()
      ensures len <= buff.Length == |was|
      ensures buff[..] == Gathered(heard, len) + was[len..]
    {
      forall j: nat | j < len
        ensures buff[j] == Collected(heard, j, 8)
      {
        forall i: nat | i < 8
          ensures Bit(buff[j], i) <==> 8 * j + i < |heard| && heard[8 * j + i]
        {
          assert (8 * j + i) / 8 == j && (8 * j + i) % 8 == i;
          assert Bit(buff[(8 * j + i) / 8], (8 * j + i) % 8) <==> 8 * j + i < |heard| && heard[8 * j + i];
        }
        SameByte(buff[j], heard, j);
      }
      assert buff[..] == buff[..len] + buff[len..];
      assert buff[..len] == Gathered(heard, len);
    }

    /** `memset(buff, 0, len)` */
    method Clear(b: array<byte>, n: nat)
      requires n <= b.Length
      modifies b
      ensures b[n..] == old(b[n..])
      ensures forall j, i: nat :: 0 <= j < n ==> !Bit(b[j], i)
    {
      for k := 0 to n
        invariant b[n..] == old(b[n..])
        invariant forall j :: 0 <= j < k ==> b[j] == 0
      {
        b[k] := 0;
      }
      forall i: nat { NoBits(i); }
    }

    method ReadEvents(pins: nat -> bool, limit: nat, waiting: bool)
      requires Reading() && 0 <= Passed() <= 2 * Total(len) && (!running <==> Passed() == 2 * Total(len))
      requires heard == Levels(pins, |heard|)
      modifies this`ibit, this`nbytes, this`at, this`semaphore, this`running, this`sampled, this`heard, buff
      ensures Reading() && heard == Levels(pins, |heard|) && (!running <==> Passed() == 2 * Total(len))
      ensures Passed() >= 0
      ensures Passed() == if waiting && old(semaphore) then old(Passed())
                          else Min(old(Passed()) + limit, 2 * Total(len))
      ensures |heard| == (Passed() + 1) / 2
      ensures semaphore == (old(semaphore) || (old(Passed()) < 2 * Total(len) && Passed() == 2 * Total(len)))
    {
      var i := 0;
      while i < limit && running && !(waiting && semaphore)
        invariant i <= limit
        invariant Reading() && heard == Levels(pins, |heard|) && (!running <==> Passed() == 2 * Total(len))
        invariant 0 <= Passed() <= 2 * Total(len)
        invariant Passed() == old(Passed()) + i
        invariant semaphore == (old(semaphore) || (old(Passed()) < 2 * Total(len) && Passed() == 2 * Total(len)))
        invariant waiting && old(semaphore) ==> i == 0
        decreases limit - i
      {
        ghost var before := heard;
        HandleRead(if sampled then Compare2 else Compare1, pins(|heard|));
        assert heard == before || heard == before + [pins(|before|)];
        i := i + 1;
      }
    }
  }

  // --- what a caller can rely on --------------------------------------------------------

  /**
   * "Success" means that every bit was driven, whatever the timing, exactly if
   * the length fits the eight bits it is kept in and no earlier operation left
   * the semaphore given.
   */
  lemma WrittenCompletely(len: nat, given: bool)
    requires 0 < len < 0x10000
    ensures (forall t: Schedule :: Succeeds(Total(len), given, t) ==> SlotsDriven(len, given, t) == 8 * len)
            <==> len <= 255 && !given
  {
    if given {
      var t := Schedule(0, 0);
      assert Succeeds(Total(len), given, t) && SlotsDriven(len, given, t) == 1;
    } else if len > 255 {
      var t := Schedule(Total(len), 0);
      assert Succeeds(Total(len), given, t) && SlotsDriven(len, given, t) <= Total(len) < 8 * len;
    }
  }

  lemma ReadCompletely(len: nat, given: bool)
    requires 0 < len < 0x10000
    ensures (forall t: Schedule :: Succeeds(2 * Total(len), given, t) ==> SlotsSampled(len, given, t) == 8 * len)
            <==> len <= 255 && !given
  {
    if given {
      var t := Schedule(0, 0);
      assert Succeeds(2 * Total(len), given, t) && SlotsSampled(len, given, t) == 0;
    } else if len > 255 {
      var t := Schedule(2 * Total(len), 0);
      assert Succeeds(2 * Total(len), given, t) && SlotsSampled(len, given, t) <= Total(len) < 8 * len;
    }
  }

  /** A run of operations, by the interrupts each needs and its timing. */
  datatype Operation = Operation(need: nat, t: Schedule)

  function GivenAfter(ops: seq<Operation>): bool {
    ops != [] &&
    var op := ops[|ops| - 1];
    LeavesGiven(op.need, GivenAfter(ops[..|ops| - 1]), op.t)
  }

  /** The last interrupt comes between the end of the wait and the stopping of the timer. */
  predicate SlipsIn(op: Operation) {
    op.t.patience < op.need <= op.t.patience + op.t.late
  }

  /**
   * Over any run the semaphore is clear before every operation, so that success
   * means what it says, if and only if in no operation the last interrupt slips
   * in after a time-out.
   */
  lemma {:induction false} SemaphoreStaysClear(ops: seq<Operation>)
    requires forall i :: 0 <= i < |ops| ==> ops[i].need > 0
    ensures (forall i :: 0 <= i <= |ops| ==> !GivenAfter(ops[..i]))
            <==> (forall i :: 0 <= i < |ops| ==> !SlipsIn(ops[i]))
    decreases |ops|
  {
    if ops != [] {
      var front, last := ops[..|ops| - 1], ops[|ops| - 1];
      SemaphoreStaysClear(front);
      assert forall i :: 0 <= i <= |front| ==> ops[..i] == front[..i];
      assert forall i :: 0 <= i < |front| ==> ops[i] == front[i];
      assert ops[..|ops|] == ops && front[..|front|] == front;
      assert !GivenAfter(front) ==> GivenAfter(ops) == SlipsIn(last);
    }
  }

  /** What one engine writes, another that finds these levels on the wire reads back. */
  lemma ReadsWhatWasWritten(b: seq<byte>, written: Schedule, read: Schedule, pins: nat -> bool)
    requires 0 < |b| <= 255
    requires Succeeds(Total(|b|), false, written) && Succeeds(2 * Total(|b|), false, read)
    requires var driven := Slots(b)[..SlotsDriven(|b|, false, written)];
             forall i: nat :: i < |driven| ==> pins(i) == driven[i]
    ensures Gathered(Levels(pins, SlotsSampled(|b|, false, read)), |b|) == b
  {
    var driven := Slots(b)[..SlotsDriven(|b|, false, written)];
    var heard := Levels(pins, SlotsSampled(|b|, false, read));
    assert driven == Slots(b);
    assert |heard| == 8 * |b|;
    assert heard == Slots(b);
    GatheredSlots(b);
  }
}
