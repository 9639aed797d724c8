/**
 * One DS18B20 temperature channel of temperature.c. Scratchpads with a wrong
 * CRC are ignored for a while; the six configuration bytes are pinned at the
 * first good reading and replace whatever comes over the wire later.
 */
module SensorChannel {
  import opened Bytes
  import opened Bits
  import opened Crc8
  import opened CrcRoutines

  const SENTINEL: real := -32.125
  const PATIENCE: nat := 500

  type Scratchpad = s: seq<byte> | |s| == 9 witness seq(9, _ => 0)

  // --- the reading ----------------------------------------------------------------

  function KthBit(n: byte, k: nat): int
    requires k >= 1
  {
    if Bit(n, k - 1) then 1 else 0
  }

  /** The decoding as the source spells it out, bit by bit. */
  function Temperature(lsb: byte, msb: byte): real {
    var low := (KthBit(msb, 2) * 32 + KthBit(msb, 1) * 16 + KthBit(lsb, 8) * 8 + KthBit(lsb, 7) * 4
                + KthBit(lsb, 6) * 2 + KthBit(lsb, 5)) as real
               + KthBit(lsb, 4) as real * 0.5 + KthBit(lsb, 3) as real * 0.25
               + KthBit(lsb, 2) as real * 0.125 + KthBit(lsb, 1) as real * 0.0625;
    if KthBit(msb, 4) == 1 && KthBit(msb, 5) == 1 && KthBit(msb, 6) == 1 && KthBit(msb, 7) == 1 && KthBit(msb, 8) == 1
    then low - KthBit(msb, 3) as real * 64.0
    else KthBit(msb, 3) as real * 64.0 + low
  }

  /** The 16-bit two's complement number the sensor sends, in sixteenths of a degree. */
  function Raw(lsb: byte, msb: byte): int {
    var w := lsb + 256 * msb as int;
    if w < 0x8000 then w else w - 0x10000
  }

  lemma ByteIsItsBits(n: byte)
    ensures n == KthBit(n, 1) + 2 * KthBit(n, 2) + 4 * KthBit(n, 3) + 8 * KthBit(n, 4)
                 + 16 * KthBit(n, 5) + 32 * KthBit(n, 6) + 64 * KthBit(n, 7) + 128 * KthBit(n, 8)
  {
    hide Bit;
    ByteIsEightBits();
    WeightedIsValue(n, 8);
    assert Pow2(2) == 4 && Pow2(4) == 16 && Pow2(6) == 64;
    assert Weighted(n, 0) == 0 && Weighted(n, 1) == KthBit(n, 1);
    assert Weighted(n, 2) == KthBit(n, 1) + 2 * KthBit(n, 2);
    assert Weighted(n, 3) == Weighted(n, 2) + 4 * KthBit(n, 3);
    assert Weighted(n, 4) == Weighted(n, 2) + 4 * KthBit(n, 3) + 8 * KthBit(n, 4);
    assert Weighted(n, 5) == Weighted(n, 4) + 16 * KthBit(n, 5);
    assert Weighted(n, 6) == Weighted(n, 4) + 16 * KthBit(n, 5) + 32 * KthBit(n, 6);
    assert Weighted(n, 7) == Weighted(n, 6) + 64 * KthBit(n, 7);
    assert Weighted(n, 8) == Weighted(n, 6) + 64 * KthBit(n, 7) + 128 * KthBit(n, 8);
  }

  /** The decoding is right exactly for readings in the sensor's own range (sign-extended 12 bits). */
  lemma TemperatureIsRaw(lsb: byte, msb: byte)
    ensures Temperature(lsb, msb) == Raw(lsb, msb) as real / 16.0 <==> -1024 <= Raw(lsb, msb) <= 2047
  {
    hide Bit;
    ByteIsItsBits(lsb);
    ByteIsItsBits(msb);
    var low := 512 * KthBit(msb, 2) + 256 * KthBit(msb, 1) + lsb;
    var sign := KthBit(msb, 4) == 1 && KthBit(msb, 5) == 1 && KthBit(msb, 6) == 1 && KthBit(msb, 7) == 1
                && KthBit(msb, 8) == 1;
    var sixteenths := if sign then low - 1024 * KthBit(msb, 3) else low + 1024 * KthBit(msb, 3);
    assert Temperature(lsb, msb) == sixteenths as real / 16.0;
    assert sixteenths == Raw(lsb, msb) <==> -1024 <= Raw(lsb, msb) <= 2047;
  }

  /** For every reading: bits 0 to 9, and bit 10 with the sign that bits 11 to 15 give it if they are all set. */
  lemma TemperatureIs(lsb: byte, msb: byte)
    ensures var low, high := msb % 4 * 256 + lsb as int, msb / 4 % 2 * 1024;
            Temperature(lsb, msb) == (if msb / 8 == 31 then low - high else low + high) as real / 16.0
  {
    hide Bit, KthBit;
    ByteIsItsBits(lsb);
    TopBits(msb);
    var low := 512 * KthBit(msb, 2) + 256 * KthBit(msb, 1) + lsb;
    assert Temperature(lsb, msb) == (if msb / 8 == 31 then low - 1024 * KthBit(msb, 3)
                                     else low + 1024 * KthBit(msb, 3)) as real / 16.0;
  }

  lemma TopBits(msb: byte)
    ensures msb % 4 == KthBit(msb, 1) + 2 * KthBit(msb, 2) && msb / 4 % 2 == KthBit(msb, 3)
    ensures msb / 8 == 31 <==> KthBit(msb, 4) == 1 && KthBit(msb, 5) == 1 && KthBit(msb, 6) == 1
                               && KthBit(msb, 7) == 1 && KthBit(msb, 8) == 1
  {
    hide Bit;
    ByteIsItsBits(msb);
    var low := KthBit(msb, 1) + 2 * KthBit(msb, 2);
    var top := KthBit(msb, 4) + 2 * KthBit(msb, 5) + 4 * KthBit(msb, 6) + 8 * KthBit(msb, 7) + 16 * KthBit(msb, 8);
    assert msb == low + 4 * KthBit(msb, 3) + 8 * top;
  }

  // --- the channel seen from outside -------------------------------------------------

  datatype Channel = Channel(pinned: Option<seq<byte>>, bad: nat, value: real)

  ghost predicate Sane(c: Channel) {
    c.bad <= PATIENCE && (c.pinned.Some? ==> |c.pinned.value| == 6)
  }

  /** The scratchpad as it is checked: with the pinned bytes, once there are any. */
  function Patched(pinned: Option<seq<byte>>, s: Scratchpad): (p: Scratchpad)
    requires pinned.Some? ==> |pinned.value| == 6
  {
    if pinned.Some? then s[..2] + pinned.value + s[8..] else s
  }

  predicate Accepts(pinned: Option<seq<byte>>, s: Scratchpad)
    requires pinned.Some? ==> |pinned.value| == 6
  {
    Lsb(Patched(pinned, s)[8], 8) == DsCrc8Spec(Patched(pinned, s)[..8])
  }

  /** The last byte is the CRC of the first eight exactly if the CRC of all nine is zero. */
  lemma AcceptsExactly(pinned: Option<seq<byte>>, s: Scratchpad)
    requires pinned.Some? ==> |pinned.value| == 6
    ensures Accepts(pinned, s) <==>
            DsCrc8Spec(if pinned.Some? then s[..2] + pinned.value + s[8..] else s) == Zeros(8)
  {
    var p := Patched(pinned, s);
    AppendedCrc(p[..8], p[8]);
    assert p[..8] + [p[8]] == p;
  }

  datatype Event = Accepted(reading: real) | Rejected

  function EventOf(c: Channel, s: Scratchpad): Event
    requires c.pinned.Some? ==> |c.pinned.value| == 6
  {
    if Accepts(c.pinned, s) then Accepted(Temperature(s[0], s[1])) else Rejected
  }

  ghost function Step(c: Channel, s: Scratchpad): (c': Channel)
    requires Sane(c)
    ensures Sane(c')
  {
    if Accepts(c.pinned, s) then
      Channel(Some(Patched(c.pinned, s)[2..8]), 0, Temperature(s[0], s[1]))
    else if c.bad + 1 > PATIENCE then c.(bad := 0, value := SENTINEL)
    else c.(bad := c.bad + 1)
  }

  // --- the channel as the firmware keeps it -------------------------------------------

  class Sensor {
    var flag: bool
    var x: seq<byte>
    var bad: nat
    var states: seq<real>

    ghost predicate Valid()
      reads this
    {
      && |states| == 4 && states[0] == states[1] == states[2] == states[3]
      && |x| == 6 && bad <= PATIENCE
    }

    ghost function Abs(): Channel
      requires Valid()
      reads this
    {
      Channel(if flag then Some(x) else None, bad, states[0])
    }

    constructor ()
      ensures Valid() && Abs() == Channel(None, 0, 0.0)
    {
      flag, x, bad, states := false, [0, 0, 0, 0, 0, 0], 0, [0.0, 0.0, 0.0, 0.0];
    }

    /** `Read_Temperature_sltc11`, given the nine bytes read from the wire. */
    method ReadTemperature(scratchpad: Scratchpad)
      requires Valid()
      modifies this
      ensures Valid() && Abs() == Step(old(Abs()), scratchpad)
      // In full: accepted exactly if the CRC of all nine bytes, bytes 2 to 7 replaced once pinned, is zero.
      ensures var p := if old(flag) then scratchpad[..2] + old(x) + scratchpad[8..] else scratchpad;
              if DsCrc8Spec(p) == Zeros(8)
              then states[0] == Temperature(scratchpad[0], scratchpad[1]) && bad == 0 && flag && x == p[2..8]
              else && flag == old(flag) && x == old(x)
                   && bad == (if old(bad) < 500 then old(bad) + 1 else 0)
                   && states[0] == if old(bad) < 500 then old(states[0]) else -32.125
    {
      hide Temperature, DsCrc8Spec, Zeros, Bit;
      AcceptsExactly(Abs().pinned, scratchpad);
      var get: seq<byte> := scratchpad;
      if flag {
        get := get[2 := x[0]][3 := x[1]][4 := x[2]][5 := x[3]][6 := x[4]][7 := x[5]];
      }
      assert get == Patched(old(Abs()).pinned, scratchpad);
      var crc1 := DsCrc8(get, 8);
      var temp := Temperature(get[0], get[1]);
      SameByte(crc1, get[8]);
      if crc1 == get[8] {
        states := [temp, temp, temp, temp];
        bad := 0;
        flag := true;
        x := [get[2], get[3], get[4], get[5], get[6], get[7]];
        assert x == get[2..8];
      } else {
        bad := (bad + 1) % 0x10000;
        if bad > PATIENCE {
          states := [SENTINEL, SENTINEL, SENTINEL, SENTINEL];
          bad := 0;
        }
      }
    }
  }

  lemma SameByte(a: byte, b: byte)
    ensures Lsb(a, 8) == Lsb(b, 8) <==> a == b
  {
    ByteIsEightBits();
    if Lsb(a, 8) == Lsb(b, 8) {
      forall k: nat | k < 8
        ensures Bit(a, k) == Bit(b, k)
      {
        assert Lsb(a, 8)[k] == Lsb(b, 8)[k];
      }
      BitsDetermine(a, b, 8);
    }
  }

  // --- over any sequence of scratchpads --------------------------------------------------

  ghost function Run(c: Channel, ss: seq<Scratchpad>): (c': Channel)
    requires Sane(c)
    ensures Sane(c')
    decreases |ss|
  {
    if ss == [] then c else Step(Run(c, ss[..|ss| - 1]), ss[|ss| - 1])
  }

  ghost function Events(c: Channel, ss: seq<Scratchpad>): (es: seq<Event>)
    requires Sane(c)
    ensures |es| == |ss|
    decreases |ss|
  {
    if ss == [] then []
    else Events(c, ss[..|ss| - 1]) + [EventOf(Run(c, ss[..|ss| - 1]), ss[|ss| - 1])]
  }

  /** How many events at the end are rejections. */
  function Trailing(es: seq<Event>): (n: nat)
    ensures n <= |es|
    ensures n < |es| ==> es[|es| - 1 - n].Accepted?
  {
    if es == [] || es[|es| - 1].Accepted? then 0 else 1 + Trailing(es[..|es| - 1])
  }

  /** What is published depends only on the rejections at the end and the acceptance before them. */
  function Published(es: seq<Event>, initial: real): real {
    var n := Trailing(es);
    if n > PATIENCE then SENTINEL
    else if n == |es| then initial
    else es[|es| - 1 - n].reading
  }

  lemma TrailingStep(es: seq<Event>, e: Event)
    ensures Trailing(es + [e]) == if e.Accepted? then 0 else Trailing(es) + 1
  {
    assert (es + [e])[..|es|] == es;
  }

  lemma CountStep(n: nat)
    ensures (n + 1) % 501 == if n % 501 == 500 then 0 else n % 501 + 1
  {
  }

  lemma PublishedStep(es: seq<Event>, e: Event, initial: real)
    ensures Published(es + [e], initial) ==
            if e.Accepted? then e.reading
            else if Trailing(es) >= PATIENCE then SENTINEL
            else Published(es, initial)
  {
    hide Trailing;
    var n := Trailing(es);
    TrailingStep(es, e);
    if e.Rejected? && n < PATIENCE && n < |es| {
      assert (es + [e])[|es| - 1 - n] == es[|es| - 1 - n];
    }
  }

  /**
   * The value is the initial one, the latest accepted reading, or, from the
   * 501st rejection in a row on, the sentinel; the counter counts the
   * rejections since the last acceptance or sentinel.
   */
  lemma {:induction false} ValueIsPublished(initial: real, ss: seq<Scratchpad>)
    ensures var c := Channel(None, 0, initial);
            Run(c, ss).value == Published(Events(c, ss), initial)
            && Run(c, ss).bad == Trailing(Events(c, ss)) % (PATIENCE + 1)
    decreases |ss|
  {
    hide Step, EventOf, Published;
    var c := Channel(None, 0, initial);
    if ss == [] {
      NothingPublished(initial);
    } else {
      var front, s := ss[..|ss| - 1], ss[|ss| - 1];
      ValueIsPublished(initial, front);
      StepPublishes(Run(c, front), s, Events(c, front), initial);
    }
  }

  lemma StepPublishes(c: Channel, s: Scratchpad, es: seq<Event>, initial: real)
    requires Sane(c) && c.value == Published(es, initial) && c.bad == Trailing(es) % (PATIENCE + 1)
    ensures Step(c, s).value == Published(es + [EventOf(c, s)], initial)
    ensures Step(c, s).bad == Trailing(es + [EventOf(c, s)]) % (PATIENCE + 1)
  {
    hide Accepts, Temperature, Patched, Published, Trailing;
    TrailingStep(es, EventOf(c, s));
    PublishedStep(es, EventOf(c, s), initial);
    CountStep(Trailing(es));
    StillSentinel(es, initial);
  }

  lemma NothingPublished(initial: real)
    ensures Published([], initial) == initial && Trailing([]) == 0
  {
  }

  lemma StillSentinel(es: seq<Event>, initial: real)
    ensures Trailing(es) > PATIENCE ==> Published(es, initial) == SENTINEL
    ensures Trailing(es) == PATIENCE ==> Trailing(es) % (PATIENCE + 1) == PATIENCE
  {
  }

  /** The sentinel is written exactly at the 501st, 1002nd, ... rejection in a row. */
  lemma SentinelWhen(initial: real, ss: seq<Scratchpad>, s: Scratchpad)
    ensures var c := Run(Channel(None, 0, initial), ss);
            !Accepts(c.pinned, s) && Step(c, s).bad == 0
            <==> Trailing(Events(Channel(None, 0, initial), ss + [s])) > 0
                 && Trailing(Events(Channel(None, 0, initial), ss + [s])) % (PATIENCE + 1) == 0
  {
    hide Accepts, Temperature, Patched, Published, Trailing;
    var c := Channel(None, 0, initial);
    ValueIsPublished(initial, ss);
    assert (ss + [s])[..|ss|] == ss;
    assert Events(c, ss + [s]) == Events(c, ss) + [EventOf(Run(c, ss), s)];
    TrailingStep(Events(c, ss), EventOf(Run(c, ss), s));
    CountStep(Trailing(Events(c, ss)));
  }

  /** The first scratchpad whose own CRC is right. */
  function FirstGood(ss: seq<Scratchpad>): Option<Scratchpad> {
    if ss == [] then None
    else
      var earlier := FirstGood(ss[..|ss| - 1]);
      if earlier.Some? then earlier
      else if Accepts(None, ss[|ss| - 1]) then Some(ss[|ss| - 1])
      else None
  }

  /** The configuration bytes are those of the first good scratchpad for ever after. */
  lemma {:induction false} PinnedForGood(initial: real, ss: seq<Scratchpad>)
    ensures Run(Channel(None, 0, initial), ss).pinned ==
            if FirstGood(ss).Some? then Some(FirstGood(ss).value[2..8]) else None
    decreases |ss|
  {
    if ss != [] {
      var c := Run(Channel(None, 0, initial), ss[..|ss| - 1]);
      PinnedForGood(initial, ss[..|ss| - 1]);
      StepPins(c, ss[|ss| - 1]);
    }
  }

  lemma StepPins(c: Channel, s: Scratchpad)
    requires Sane(c)
    ensures c.pinned.Some? ==> Step(c, s).pinned == c.pinned
    ensures c.pinned.None? ==> Step(c, s).pinned == if Accepts(None, s) then Some(s[2..8]) else None
  {
    hide Accepts, Temperature;
    if c.pinned.Some? {
      assert Patched(c.pinned, s)[2..8] == c.pinned.value;
    }
  }

  /** With matching configuration bytes, damage to one of the other three bytes never passes. */
  lemma DamageIsRejected(c: Channel, s: Scratchpad, k: nat, v: byte)
    requires Sane(c) && c.pinned == Some(s[2..8]) && Accepts(c.pinned, s)
    requires k in {0, 1, 8} && v != s[k]
    ensures !Accepts(c.pinned, s[k := v])
  {
    var d: Scratchpad := s[k := v];
    assert Patched(c.pinned, s) == s && Patched(c.pinned, d) == d;
    if k == 8 {
      SameByte(v, s[8]);
    } else {
      DsCrc8DetectsByte(s[..8], k, v);
      assert d[..8] == s[..8][k := v];
    }
  }

  /** Once the configuration bytes are pinned, damage to them, however much of it, makes no difference to any run. */
  lemma {:induction false} DamageIsRepaired(c: Channel, ss: seq<Scratchpad>, ds: seq<Scratchpad>)
    requires Sane(c) && c.pinned.Some? && |ss| == |ds|
    requires forall i :: 0 <= i < |ss| ==> ds[i][..2] == ss[i][..2] && ds[i][8] == ss[i][8]
    ensures Run(c, ds) == Run(c, ss) && Run(c, ss).pinned == c.pinned
    decreases |ss|
  {
    if ss != [] {
      var s, d := ss[|ss| - 1], ds[|ds| - 1];
      DamageIsRepaired(c, ss[..|ss| - 1], ds[..|ds| - 1]);
      StepPins(Run(c, ss[..|ss| - 1]), s);
      SameStep(Run(c, ss[..|ss| - 1]), s, d);
    }
  }

  lemma SameStep(c: Channel, s: Scratchpad, d: Scratchpad)
    requires Sane(c) && c.pinned.Some? && d[..2] == s[..2] && d[8] == s[8]
    ensures Step(c, d) == Step(c, s)
  {
    assert d[8..] == s[8..];
    assert d[0] == d[..2][0] && d[1] == d[..2][1] && s[0] == s[..2][0] && s[1] == s[..2][1];
  }
}
