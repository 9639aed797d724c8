/**
 * The settings kept in flash by storage_task_fn (main_app.c). Programming can
 * only clear bits; a page must be erased to set them again, and some settings
 * share a page that only one of them erases.
 */
module FlashStore {
  import opened Bytes
  import opened Bits

  // --- programming clears bits -------------------------------------------------------

  function And(a: byte, b: byte): (c: byte)
    ensures forall k: nat :: Bit(c, k) <==> Bit(a, k) && Bit(b, k)
  {
    ClearBits(a, ClearBits(a, b))
  }

  lemma AndOnes(b: byte)
    ensures And(0xff, b) == b
  {
    ByteIsEightBits();
    forall k: nat | k < 8
      ensures Bit(0xff, k)
    {
    }
    BitsDetermine(And(0xff, b), b, 8);
  }

  function AndAll(a: seq<byte>, b: seq<byte>): (c: seq<byte>)
    requires |a| == |b|
    ensures |c| == |a| && forall i :: 0 <= i < |c| ==> c[i] == And(a[i], b[i])
  {
    seq(|a|, i requires 0 <= i < |a| => And(a[i], b[i]))
  }

  function Erased(n: nat): (e: seq<byte>)
    ensures |e| == n && forall i :: 0 <= i < n ==> e[i] == 0xff
  {
    seq(n, _ => 0xff)
  }

  lemma AndErased(v: seq<byte>)
    ensures AndAll(Erased(|v|), v) == v
  {
    forall i | 0 <= i < |v| ensures And(0xff, v[i]) == v[i] { AndOnes(v[i]); }
  }

  // --- the layout ---------------------------------------------------------------------

  const PAGE: nat := 0x1000
  const FLASH: nat := 0x6000

  datatype Slot =
    | Config | Internet | Link | Token | Ssid | Key | Ip | Gateway | Mask | WifiDhcp | EthDhcp

  /** Addresses relative to the start of the storage area, 0xed000. */
  function Addr(s: Slot): nat {
    match s
    case Config => 0x0000
    case Internet => 0x1000
    case Link => 0x1100
    case Token => 0x1200
    case Ssid => 0x1500
    case Key => 0x1600
    case Ip => 0x2000
    case Gateway => 0x2100
    case Mask => 0x2200
    case WifiDhcp => 0x3000
    case EthDhcp => 0x4000
  }

  /** The most that is ever programmed at the slot's address. */
  function Room(s: Slot): nat {
    match s
    case Ssid | Key => 80
    case Ip | Gateway | Mask => 4
    case _ => 240
  }

  /** How much of the slot is read at start-up. */
  function Window(s: Slot): nat {
    match s
    case Config => 48
    case Token | Link => 240
    case Ssid | Key => 80
    case Ip | Gateway | Mask => 4
    case Internet | WifiDhcp | EthDhcp => 8
  }

  function PageOf(s: Slot): nat { Addr(s) / 0x1000 }
  function PageStart(page: nat): nat { page * 0x1000 }

  /** Slots stay inside their page and clear of one another. */
  lemma SlotsApart(s: Slot, t: Slot)
    ensures Window(s) <= Room(s) && PageStart(PageOf(s)) <= Addr(s)
    ensures Addr(s) + Room(s) <= PageStart(PageOf(s)) + PAGE <= FLASH
    ensures s != t ==> Addr(s) + Room(s) <= Addr(t) || Addr(t) + Room(t) <= Addr(s)
  {
  }

  // --- what a slot holds ------------------------------------------------------------------

  /** The contents after the last erasure (or at the start), and what was programmed since. */
  datatype Log = Log(base: seq<byte>, values: seq<seq<byte>>)

  predicate Fits(l: Log, n: nat) {
    |l.base| == n && forall i :: 0 <= i < |l.values| ==> |l.values[i]| == n
  }

  function Content(l: Log, n: nat): (c: seq<byte>)
    requires Fits(l, n)
    ensures |c| == n
    decreases |l.values|
  {
    if l.values == [] then l.base
    else AndAll(Content(Log(l.base, l.values[..|l.values| - 1]), n), l.values[|l.values| - 1])
  }

  /** A value and everything programmed over it. */
  function AndWith(base: seq<byte>, values: seq<seq<byte>>): (c: seq<byte>)
    requires forall i :: 0 <= i < |values| ==> |values[i]| == |base|
    ensures |c| == |base|
    decreases |values|
  {
    if values == [] then base
    else AndAll(AndWith(base, values[..|values| - 1]), values[|values| - 1])
  }

  /** The history of a slot, from any point on, is programmed over what was there at that point. */
  lemma {:induction false} ContentFrom(base: seq<byte>, before: seq<seq<byte>>, since: seq<seq<byte>>)
    requires Fits(Log(base, before + since), |base|) && Fits(Log(base, before), |base|)
    requires forall i :: 0 <= i < |since| ==> |since[i]| == |base|
    ensures Content(Log(base, before + since), |base|) == AndWith(Content(Log(base, before), |base|), since)
    decreases |since|
  {
    if since == [] {
      assert before + since == before;
    } else {
      var front := since[..|since| - 1];
      assert (before + since)[..|before + since| - 1] == before + front;
      assert Fits(Log(base, before + front), |base|) by {
        forall i | 0 <= i < |before + front| ensures |(before + front)[i]| == |base| {
          assert (before + front)[i] == (before + since)[i];
        }
      }
      ContentFrom(base, before, front);
    }
  }

  /** A bit survives iff it was there and every value programmed since had it. */
  lemma {:induction false} BitSurvives(base: seq<byte>, values: seq<seq<byte>>, i: nat, k: nat)
    requires (forall j :: 0 <= j < |values| ==> |values[j]| == |base|) && i < |base|
    ensures Bit(AndWith(base, values)[i], k) <==>
            Bit(base[i], k) && forall j :: 0 <= j < |values| ==> Bit(values[j][i], k)
    decreases |values|
  {
    if values != [] {
      var front := values[..|values| - 1];
      BitSurvives(base, front, i, k);
      assert forall j :: 0 <= j < |values| ==> values[j] == if j < |front| then front[j] else values[|values| - 1];
    }
  }

  /** All bits of `v` are in `base` and in the values. */
  predicate CoveredBy(v: seq<byte>, base: seq<byte>, values: seq<seq<byte>>)
    requires |v| == |base| && forall j :: 0 <= j < |values| ==> |values[j]| == |base|
  {
    forall i, k: nat | 0 <= i < |v| && k < 8 && Bit(v[i], k) ::
      Bit(base[i], k) && forall j :: 0 <= j < |values| ==> Bit(values[j][i], k)
  }

  /** The value programmed last is read exactly if what was there and every value before it have all its bits. */
  lemma LastIsRead(base: seq<byte>, earlier: seq<seq<byte>>, v: seq<byte>)
    requires |v| == |base| && forall j :: 0 <= j < |earlier| ==> |earlier[j]| == |base|
    ensures AndWith(base, earlier + [v]) == v <==> CoveredBy(v, base, earlier)
  {
    hide AndAll, And;
    var under := AndWith(base, earlier);
    assert (earlier + [v])[..|earlier|] == earlier;
    assert AndWith(base, earlier + [v]) == AndAll(under, v);
    AllCovered(under, v);
    forall i: nat, k: nat | i < |v|
      ensures Bit(under[i], k) <==> Bit(base[i], k) && forall j :: 0 <= j < |earlier| ==> Bit(earlier[j][i], k)
    {
      BitSurvives(base, earlier, i, k);
    }
  }

  /** All bits of `b` are in `a`. */
  predicate Covers(a: byte, b: byte) {
    forall k: nat | k < 8 :: Bit(b, k) ==> Bit(a, k)
  }

  lemma AllCovered(under: seq<byte>, v: seq<byte>)
    requires |under| == |v|
    ensures AndAll(under, v) == v <==> forall i :: 0 <= i < |v| ==> Covers(under[i], v[i])
  {
    hide Covers;
    var c := AndAll(under, v);
    forall i | 0 <= i < |v|
      ensures c[i] == v[i] <==> Covers(under[i], v[i])
    {
      AndIsSecond(under[i], v[i]);
    }
    assert c == v <==> forall i :: 0 <= i < |v| ==> c[i] == v[i];
  }

  lemma AndIsSecond(a: byte, b: byte)
    ensures And(a, b) == b <==> Covers(a, b)
  {
    if Covers(a, b) {
      ByteIsEightBits();
      BitsDetermine(And(a, b), b, 8);
    } else {
      var k: nat :| k < 8 && Bit(b, k) && !Bit(a, k);
      assert !Bit(And(a, b), k);
    }
  }

  type Logs = Slot -> Log

  function Saved(l: Log, s: Slot, v: seq<byte>): Log
    requires Window(s) <= |v|
  {
    Log(l.base, l.values + [v[..Window(s)]])
  }

  function Wiped(s: Slot): Log {
    Log(Erased(Window(s)), [])
  }

  /** What the other tasks ask for between two rounds of the storage task. */
  datatype Request = Request(
    token: Option<seq<byte>>, link: Option<seq<byte>>, ssid: Option<seq<byte>>, key: Option<seq<byte>>,
    internet: Option<seq<byte>>, config: Option<seq<byte>>,
    ip: Option<(seq<byte>, seq<byte>, seq<byte>)>,
    dhcp: Option<(seq<byte>, seq<byte>)>)

  predicate Sized(r: Request) {
    && (r.token.Some? ==> |r.token.value| == 240)
    && (r.link.Some? ==> |r.link.value| == 240)
    && (r.ssid.Some? ==> |r.ssid.value| == 80)
    && (r.key.Some? ==> |r.key.value| == 80)
    && (r.internet.Some? ==> |r.internet.value| == 240)
    && (r.config.Some? ==> |r.config.value| == 240)
    && (r.ip.Some? ==> |r.ip.value.0| == |r.ip.value.1| == |r.ip.value.2| == 4)
    && (r.dhcp.Some? ==> |r.dhcp.value.0| == |r.dhcp.value.1| == 8)
  }

  /** What the request asks to store in slot `s`, if anything. */
  function Wanted(r: Request, s: Slot): Option<seq<byte>> {
    match s
    case Token => r.token
    case Link => r.link
    case Ssid => r.ssid
    case Key => r.key
    case Internet => r.internet
    case Config => r.config
    case Ip => if r.ip.Some? then Some(r.ip.value.0) else None
    case Gateway => if r.ip.Some? then Some(r.ip.value.1) else None
    case Mask => if r.ip.Some? then Some(r.ip.value.2) else None
    case WifiDhcp => if r.dhcp.Some? then Some(r.dhcp.value.0) else None
    case EthDhcp => if r.dhcp.Some? then Some(r.dhcp.value.1) else None
  }

  lemma SizedIs(r: Request)
    requires Sized(r)
    ensures r.internet.Some? ==> |r.internet.value| == 240
  {
  }

  /** A slot before, between and after the two parts of a round that concern page 0xee000. */
  lemma RoundOnPage1(l0: Log, l1: Log, l2: Log, s: Slot, r: Request)
    requires Sized(r) && (Wanted(r, s).Some? ==> Window(s) <= |Wanted(r, s).value|)
    requires l1 == if Shared(s) && Wanted(r, s).Some? then Saved(l0, s, Wanted(r, s).value) else l0
    requires r.internet.None? ==> l2 == l1
    requires r.internet.Some? ==> Window(Internet) <= |r.internet.value|
    requires r.internet.Some? ==>
               l2 == if s == Internet then Saved(Wiped(Internet), Internet, r.internet.value)
                     else if PageOf(s) == 1 then Wiped(s) else l1
    ensures l2 == if PageOf(s) == 1 then Round(l0, s, r) else l0
  {
    hide Saved, Wiped, Window, Sized;
    OnPage1(s);
  }

  lemma WantedFits(r: Request, s: Slot)
    requires Sized(r)
    ensures Wanted(r, s).Some? ==> Window(s) <= |Wanted(r, s).value| <= Room(s)
  {
  }

  /** The settings in page 0xee000 that are programmed without erasing it. */
  predicate Shared(s: Slot) {
    s == Token || s == Link || s == Ssid || s == Key
  }

  /** What one round makes of a slot. */
  function Round(l: Log, s: Slot, r: Request): Log
    requires Sized(r)
  {
    if Shared(s) then
      if r.internet.Some? then Wiped(s)
      else if Wanted(r, s).Some? then Saved(l, s, Wanted(r, s).value)
      else l
    else if Wanted(r, s).Some? then Saved(Wiped(s), s, Wanted(r, s).value)
    else l
  }

  // --- start-up ---------------------------------------------------------------------------

  const TRUE: seq<byte> := [0x74, 0x72, 0x75, 0x65, 0]   // "true" with its terminator
  const FALS: seq<byte> := [0x66, 0x61, 0x6c, 0x73]      // what strncmp compares of "false"

  /** The check whether a DHCP flag was ever configured. */
  predicate Configured(v: seq<byte>)
    requires |v| >= 4
  {
    v[..4] == TRUE[..4] || v[..4] == FALS
  }

  predicate Flag(s: Slot) { s == WifiDhcp || s == EthDhcp }

  /**
   * What start-up makes of a slot: an unconfigured flag is programmed, without
   * an erasure, with 240 bytes from the five-byte array holding "true";
   * `behind` is whatever follows that array in memory.
   */
  function Started(l: Log, s: Slot, behind: seq<byte>): Log
    requires Fits(l, Window(s)) && |behind| == 235
  {
    if Flag(s) && !Configured(Content(l, Window(s))) then
      Saved(l, s, TRUE + behind)
    else l
  }

  /** The setting as the firmware uses it after start-up. */
  function Loaded(l: Log, s: Slot): seq<byte>
    requires Fits(l, Window(s))
  {
    var v := Content(l, Window(s));
    if Flag(s) && !Configured(v) then TRUE + v[5..] else v
  }

  /** Flash holds in slot `s` what the history `l` says. */
  ghost predicate Shows(mem: seq<byte>, l: Log, s: Slot)
    requires |mem| == FLASH
  {
    SlotsApart(s, s);
    Fits(l, Window(s)) && mem[Addr(s)..Addr(s) + Window(s)] == Content(l, Window(s))
  }

  /** `now` is `was` with `data` programmed at `a`. */
  predicate ProgrammedAt(was: seq<byte>, now: seq<byte>, a: nat, data: seq<byte>) {
    && |was| == |now| == FLASH && a + |data| <= FLASH
    && forall i :: 0 <= i < FLASH ==> now[i] == if a <= i < a + |data| then And(was[i], data[i - a]) else was[i]
  }

  predicate ErasedAt(was: seq<byte>, now: seq<byte>, a: nat) {
    && |was| == |now| == FLASH && a + PAGE <= FLASH
    && forall i :: 0 <= i < FLASH ==> now[i] == if a <= i < a + PAGE then 0xff else was[i]
  }

  lemma Untouched(was: seq<byte>, now: seq<byte>, a: nat, data: seq<byte>, b: nat, n: nat)
    requires ProgrammedAt(was, now, a, data) && b + n <= FLASH && (a + |data| <= b || b + n <= a)
    ensures now[b..b + n] == was[b..b + n]
  {
  }

  /** The pages of all slots. */
  lemma Pages()
    ensures PageOf(Config) == 0 && PageOf(Internet) == PageOf(Link) == PageOf(Token) == PageOf(Ssid) == PageOf(Key) == 1
    ensures PageOf(Ip) == PageOf(Gateway) == PageOf(Mask) == 2 && PageOf(WifiDhcp) == 3 && PageOf(EthDhcp) == 4
    ensures forall s: Slot :: PageOf(s) <= 4
  {
  }

  lemma SlotWindows()
    ensures Window(WifiDhcp) == Window(EthDhcp) == 8
  {
  }

  lemma OnPage1(s: Slot)
    ensures PageOf(s) == 1 <==> Shared(s) || s == Internet
  {
  }

  lemma ProgramShows(was: seq<byte>, now: seq<byte>, l: Log, s: Slot, data: seq<byte>)
    requires Window(s) <= |data| <= Room(s) && ProgrammedAt(was, now, Addr(s), data) && Shows(was, l, s)
    ensures Shows(now, Saved(l, s, data), s)
  {
    SlotsApart(s, s);
    var n, l' := Window(s), Saved(l, s, data);
    assert l'.values[..|l'.values| - 1] == l.values;
    assert now[Addr(s)..Addr(s) + n] == AndAll(was[Addr(s)..Addr(s) + n], data[..n]);
  }

  lemma ProgramSpares(was: seq<byte>, now: seq<byte>, l: Log, s: Slot, data: seq<byte>, t: Slot)
    requires |data| <= Room(s) && ProgrammedAt(was, now, Addr(s), data) && t != s && Shows(was, l, t)
    ensures Shows(now, l, t)
  {
    SlotsApart(s, t);
    SlotsApart(t, t);
    hide Addr, Room, Window, PageOf, ProgrammedAt;
    Untouched(was, now, Addr(s), data, Addr(t), Window(t));
  }

  lemma OtherPage(t: Slot, page: nat)
    ensures if PageOf(t) == page then PageStart(page) <= Addr(t) && Addr(t) + Window(t) <= PageStart(page) + PAGE
            else Addr(t) + Window(t) <= PageStart(page) || PageStart(page) + PAGE <= Addr(t)
  {
    SlotsApart(t, t);
  }

  lemma EraseShows(was: seq<byte>, now: seq<byte>, l: Log, page: nat, t: Slot)
    requires page < 6 && ErasedAt(was, now, PageStart(page)) && Shows(was, l, t)
    ensures Shows(now, if PageOf(t) == page then Wiped(t) else l, t)
  {
    SlotsApart(t, t);
    OtherPage(t, page);
    var a, n := Addr(t), Window(t);
    hide Addr, Window, Room, PageOf, PageStart;
    if PageOf(t) == page {
      assert now[a..a + n] == Erased(n);
    } else {
      assert forall i :: a <= i < a + n ==> now[i] == was[i];
      assert now[a..a + n] == was[a..a + n];
    }
  }

  class Store {
    const mem: array<byte>
    ghost var logs: Logs

    ghost predicate Valid()
      reads this, mem
    {
      mem.Length == FLASH && forall s: Slot :: Shows(mem[..], logs(s), s)
    }

    /** Flash as it is found: every slot's history starts with what is there. */
    constructor (contents: seq<byte>)
      requires |contents| == FLASH
      ensures Valid() && fresh(mem) && mem[..] == contents
      ensures forall s: Slot :: logs(s).values == []
    {
      mem := new byte[FLASH](i requires 0 <= i < FLASH => contents[i]);
      logs := s => if |contents| == FLASH then Log(contents[Addr(s)..Addr(s) + Window(s)], []) else Wiped(s);
      new;
      assert mem[..] == contents;
    }

    /** Programming byte by byte: what was there and the data. */
    method ProgramBytes(a: nat, data: seq<byte>)
      requires mem.Length == FLASH && a + |data| <= FLASH
      modifies mem
      ensures ProgrammedAt(old(mem[..]), mem[..], a, data)
    {
      for k := 0 to |data|
        invariant forall i :: 0 <= i < FLASH ==>
                    mem[i] == if a <= i < a + k then And(old(mem[i]), data[i - a]) else old(mem[i])
      {
        mem[a + k] := And(mem[a + k], data[k]);
      }
    }

    /** `nrf_fstorage_write` at a slot's address: no other slot is touched. */
    method Program(s: Slot, data: seq<byte>)
      requires Valid() && Window(s) <= |data| <= Room(s)
      modifies this`logs, mem
      ensures Valid() && logs(s) == Saved(old(logs(s)), s, data)
      ensures forall t: Slot :: t != s ==> logs(t) == old(logs)(t)
    {
      SlotsApart(s, s);
      ghost var before, was := logs, mem[..];
      ProgramBytes(Addr(s), data);
      logs := t => if t == s && Window(s) <= |data| then Saved(before(s), s, data) else before(t);
      hide Addr, Window, Room, Content, ProgrammedAt;
      forall t: Slot
        ensures Shows(mem[..], logs(t), t)
      {
        assert Shows(was, before(t), t);
        if t == s {
          ProgramShows(was, mem[..], before(s), s, data);
        } else {
          ProgramSpares(was, mem[..], before(t), s, data, t);
        }
      }
    }

    /** `nrf_fstorage_erase` of one page: the slots of other pages are not touched. */
    method Erase(page: nat)
      requires Valid() && page < 6
      modifies this`logs, mem
      ensures Valid() && forall t: Slot :: logs(t) == if PageOf(t) == page then Wiped(t) else old(logs)(t)
    {
      ghost var before, was := logs, mem[..];
      EraseBytes(PageStart(page));
      logs := t => if PageOf(t) == page then Wiped(t) else before(t);
      hide Addr, Window, Content, ErasedAt, PageOf;
      forall t: Slot
        ensures Shows(mem[..], logs(t), t)
      {
        assert Shows(was, before(t), t);
        EraseShows(was, mem[..], before(t), page, t);
      }
    }

    method EraseBytes(a: nat)
      requires mem.Length == FLASH && a + PAGE <= FLASH
      modifies mem
      ensures ErasedAt(old(mem[..]), mem[..], a)
    {
      for k := 0 to PAGE
        invariant forall i :: 0 <= i < FLASH ==> mem[i] == if a <= i < a + k then 0xff else old(mem[i])
      {
        mem[a + k] := 0xff;
      }
    }

    /** A setting alone in its page, or the one that erases the shared page. */
    method Replace(s: Slot, v: seq<byte>)
      requires Valid() && Window(s) <= |v| <= Room(s)
      modifies this`logs, mem
      ensures Valid()
      ensures forall t: Slot ::
                logs(t) == if t == s then Saved(Wiped(s), s, v)
                           else if PageOf(t) == PageOf(s) then Wiped(t) else old(logs)(t)
    {
      SlotsApart(s, s);
      hide Valid, Saved, Wiped, Addr;
      Erase(PageOf(s));
      Program(s, v);
    }

    /** The settings in page 0xee000; only the last of them erases it. */
    method SavePage1(r: Request)
      requires Valid() && Sized(r)
      modifies this`logs, mem
      ensures Valid() && forall s: Slot ::
                logs(s) == if PageOf(s) == 1 then Round(old(logs)(s), s, r) else old(logs)(s)
    {
      hide *;
      ghost var l0 := logs;
      SizedIs(r);
      SaveShared(r);
      ghost var l1 := logs;
      if r.internet.Some? {
        SaveInternet(r.internet.value);
      }
      forall s: Slot
        ensures logs(s) == if PageOf(s) == 1 then Round(l0(s), s, r) else l0(s)
      {
        WantedFits(r, s);
        RoundOnPage1(l0(s), l1(s), logs(s), s, r);
      }
    }

    method SaveInternet(v: seq<byte>)
      requires Valid() && |v| == 240
      modifies this`logs, mem
      ensures Valid() && Window(Internet) <= |v| && logs(Internet) == Saved(Wiped(Internet), Internet, v)
      ensures forall s: Slot :: logs(s) == if s == Internet then Saved(Wiped(Internet), Internet, v)
                                           else if PageOf(s) == 1 then Wiped(s) else old(logs)(s)
    {
      Pages();
      hide Valid, Addr, PageOf, Saved, Wiped;
      Replace(Internet, v);
    }

    method SaveShared(r: Request)
      requires Valid() && Sized(r)
      modifies this`logs, mem
      ensures Valid() && forall s: Slot ::
                logs(s) == if Shared(s) && Wanted(r, s).Some? then Saved(old(logs)(s), s, Wanted(r, s).value)
                           else old(logs)(s)
    {
      hide Valid, Addr, PageOf, Saved;
      if r.token.Some? {
        Program(Token, r.token.value);
      }
      if r.link.Some? {
        Program(Link, r.link.value);
      }
      if r.ssid.Some? {
        Program(Ssid, r.ssid.value);
      }
      if r.key.Some? {
        Program(Key, r.key.value);
      }
    }

    method SaveConfig(r: Request)
      requires Valid() && Sized(r)
      modifies this`logs, mem
      ensures Valid() && forall s: Slot ::
                logs(s) == if PageOf(s) == 0 then Round(old(logs)(s), s, r) else old(logs)(s)
    {
      Pages();
      hide Valid, Addr, PageOf, Saved, Wiped;
      if r.config.Some? {
        Replace(Config, r.config.value);
      }
    }

    /** The three addresses share a page and are always saved together. */
    method SaveAddresses(r: Request)
      requires Valid() && Sized(r)
      modifies this`logs, mem
      ensures Valid() && forall s: Slot ::
                logs(s) == if PageOf(s) == 2 then Round(old(logs)(s), s, r) else old(logs)(s)
    {
      Pages();
      hide Valid, Addr, PageOf, Saved, Wiped;
      if r.ip.Some? {
        ghost var l0 := logs;
        Replace(Ip, r.ip.value.0);
        ghost var l1 := logs;
        Program(Gateway, r.ip.value.1);
        Program(Mask, r.ip.value.2);
        forall s: Slot ensures logs(s) == if PageOf(s) == 2 then Round(l0(s), s, r) else l0(s) {
          if PageOf(s) == 2 {
            assert s == Ip || s == Gateway || s == Mask;
          } else {
            assert logs(s) == l1(s);
          }
        }
      }
    }

    method SaveFlags(r: Request)
      requires Valid() && Sized(r)
      modifies this`logs, mem
      ensures Valid() && forall s: Slot ::
                logs(s) == if PageOf(s) == 3 || PageOf(s) == 4 then Round(old(logs)(s), s, r) else old(logs)(s)
    {
      Pages();
      hide Valid, Addr, PageOf, Saved, Wiped;
      if r.dhcp.Some? {
        Replace(WifiDhcp, r.dhcp.value.0);
        Replace(EthDhcp, r.dhcp.value.1);
      }
    }

    /** One round of the endless loop in `storage_task_fn`. */
    method StorageRound(r: Request)
      requires Valid() && Sized(r)
      modifies this`logs, mem
      ensures Valid() && forall s: Slot :: logs(s) == Round(old(logs)(s), s, r)
    {
      Pages();
      hide Valid, Round, PageOf, Addr;
      SavePage1(r);
      SaveConfig(r);
      SaveAddresses(r);
      SaveFlags(r);
    }

    method Read(s: Slot) returns (v: seq<byte>)
      requires Valid()
      ensures Fits(logs(s), Window(s)) && v == Content(logs(s), Window(s))
    {
      assert Shows(mem[..], logs(s), s);
      SlotsApart(s, s);
      v := mem[Addr(s)..Addr(s) + Window(s)];
    }

    /** Default for one DHCP flag that was never configured. */
    method DefaultFlag(s: Slot, v: seq<byte>, behind: seq<byte>) returns (used: seq<byte>)
      requires Valid() && Flag(s) && Fits(logs(s), Window(s)) && v == Content(logs(s), Window(s)) && |behind| == 235
      modifies this`logs, mem
      ensures Valid() && used == Loaded(old(logs)(s), s)
      ensures forall t: Slot :: logs(t) == if t == s then Started(old(logs)(s), s, behind) else old(logs)(t)
    {
      hide Valid, Addr, Content, Fits;
      used := v;
      if v[..4] != TRUE[..4] && v[..4] != FALS {
        Program(s, TRUE + behind);
        used := TRUE + v[5..];
      }
    }

    /** The reads at the start of `storage_task_fn`. */
    method ReadAll() returns (settings: map<Slot, seq<byte>>)
      requires Valid()
      ensures forall s: Slot :: Fits(logs(s), Window(s)) && s in settings && settings[s] == Content(logs(s), Window(s))
    {
      hide Valid, Addr, PageOf, Content, Fits, Window;
      var config := Read(Config);
      var token := Read(Token);
      var link := Read(Link);
      var ip := Read(Ip);
      var gateway := Read(Gateway);
      var mask := Read(Mask);
      var wifi := Read(WifiDhcp);
      var eth := Read(EthDhcp);
      var internet := Read(Internet);
      var ssid := Read(Ssid);
      var key := Read(Key);
      settings := map[Config := config, Token := token, Link := link, Ip := ip, Gateway := gateway, Mask := mask,
                      WifiDhcp := wifi, EthDhcp := eth, Internet := internet, Ssid := ssid, Key := key];
      forall s: Slot
        ensures Fits(logs(s), Window(s)) && s in settings && settings[s] == Content(logs(s), Window(s))
      {
        match s
        case Config =>
        case Internet =>
        case Link =>
        case Token =>
        case Ssid =>
        case Key =>
        case Ip =>
        case Gateway =>
        case Mask =>
        case WifiDhcp =>
        case EthDhcp =>
      }
    }

    /** The start of `storage_task_fn`: every setting is read, the two flags may be given a default. */
    method StartUp(behind: seq<byte>) returns (settings: map<Slot, seq<byte>>)
      requires Valid() && |behind| == 235
      modifies this`logs, mem
      ensures Valid()
      ensures forall s: Slot :: Fits(old(logs)(s), Window(s)) && s in settings && settings[s] == Loaded(old(logs)(s), s)
      ensures forall s: Slot :: logs(s) == Started(old(logs)(s), s, behind)
      // In the terms of the flash: what is read where, and what becomes of the two flags.
      ensures mem.Length == 0x6000
      ensures var m := old(mem[..]);
              && settings[Config] == m[0x0000..0x0000 + 48] && settings[Internet] == m[0x1000..0x1000 + 8]
              && settings[Link] == m[0x1100..0x1100 + 240] && settings[Token] == m[0x1200..0x1200 + 240]
              && settings[Ssid] == m[0x1500..0x1500 + 80] && settings[Key] == m[0x1600..0x1600 + 80]
              && settings[Ip] == m[0x2000..0x2000 + 4] && settings[Gateway] == m[0x2100..0x2100 + 4]
              && settings[Mask] == m[0x2200..0x2200 + 4]
      ensures Defaulted(old(mem[..])[0x3000..0x3000 + 8], mem[..][0x3000..0x3000 + 8], settings[WifiDhcp], behind)
      ensures Defaulted(old(mem[..])[0x4000..0x4000 + 8], mem[..][0x4000..0x4000 + 8], settings[EthDhcp], behind)
    {
      hide *;
      ShowsAll(this);
      ghost var l, m := logs, mem[..];
      settings := Start(behind);
      ShowsAll(this);
      MemoryIs(this);
      Places(m);
      Places(mem[..]);
      forall s: Slot
        ensures !Flag(s) ==> settings[s] == Content(l(s), Window(s))
        ensures Flag(s) ==> Window(s) == 8
                            && Defaulted(Content(l(s), 8), Content(logs(s), 8), settings[s], behind)
      {
        StartedIs(l(s), s, behind);
      }
    }

    /** The reads, then the defaults. */
    method Start(behind: seq<byte>) returns (settings: map<Slot, seq<byte>>)
      requires Valid() && |behind| == 235
      modifies this`logs, mem
      ensures Valid()
      ensures forall s: Slot :: Fits(old(logs)(s), Window(s)) && s in settings && settings[s] == Loaded(old(logs)(s), s)
      ensures forall s: Slot :: logs(s) == Started(old(logs)(s), s, behind)
    {
      hide Valid, Addr, PageOf, Content, Saved, Fits, Window;
      var read := ReadAll();
      assert Window(WifiDhcp) == Window(EthDhcp) == 8 by { SlotWindows(); }
      var wifi := DefaultFlag(WifiDhcp, read[WifiDhcp], behind);
      var eth := DefaultFlag(EthDhcp, read[EthDhcp], behind);
      settings := read[WifiDhcp := wifi][EthDhcp := eth];
    }
  }

  /**
   * A flag whose four first bytes are "true" or "fals" stays and is used as it
   * is; over any other, "true" with what follows it in memory is programmed.
   */
  predicate Defaulted(was: seq<byte>, now: seq<byte>, used: seq<byte>, behind: seq<byte>) {
    && |was| == |now| == 8 && |behind| == 235
    && if was[..4] == [0x74, 0x72, 0x75, 0x65] || was[..4] == [0x66, 0x61, 0x6c, 0x73] then now == used == was
       else now == AndAll(was, [0x74, 0x72, 0x75, 0x65, 0] + behind[..3])
            && used == [0x74, 0x72, 0x75, 0x65, 0] + was[5..]
  }

  lemma StartedIs(l: Log, s: Slot, behind: seq<byte>)
    requires Fits(l, Window(s)) && |behind| == 235
    ensures Fits(Started(l, s, behind), Window(s))
    ensures !Flag(s) ==> Loaded(l, s) == Content(l, Window(s)) && Started(l, s, behind) == l
    ensures Flag(s) ==>
              && Window(s) == 8
              && Defaulted(Content(l, 8), Content(Started(l, s, behind), 8), Loaded(l, s), behind)
  {
    if Flag(s) && !Configured(Content(l, 8)) {
      var l', w := Started(l, s, behind), (TRUE + behind)[..8];
      assert l'.values[..|l'.values| - 1] == l.values && l'.values[|l'.values| - 1] == w;
      assert w == TRUE + behind[..3];
    }
  }

  /** Where the slots lie. */
  lemma Places(mem: seq<byte>)
    requires |mem| == 0x6000
    ensures Found(mem, Config) == Some(mem[0x0000..0x0000 + 48])
    ensures Found(mem, Internet) == Some(mem[0x1000..0x1000 + 8])
    ensures Found(mem, Link) == Some(mem[0x1100..0x1100 + 240])
    ensures Found(mem, Token) == Some(mem[0x1200..0x1200 + 240])
    ensures Found(mem, Ssid) == Some(mem[0x1500..0x1500 + 80])
    ensures Found(mem, Key) == Some(mem[0x1600..0x1600 + 80])
    ensures Found(mem, Ip) == Some(mem[0x2000..0x2000 + 4])
    ensures Found(mem, Gateway) == Some(mem[0x2100..0x2100 + 4])
    ensures Found(mem, Mask) == Some(mem[0x2200..0x2200 + 4])
    ensures Found(mem, WifiDhcp) == Some(mem[0x3000..0x3000 + 8])
    ensures Found(mem, EthDhcp) == Some(mem[0x4000..0x4000 + 8])
    ensures forall s: Slot :: Flag(s) <==> s == WifiDhcp || s == EthDhcp
  {
  }

  // --- over any run of saves and restarts ---------------------------------------------------

  datatype Op = Save(r: Request) | Restart(behind: seq<byte>)

  predicate WellFormed(ops: seq<Op>) {
    forall i :: 0 <= i < |ops| ==> match ops[i] case Save(r) => Sized(r) case Restart(b) => |b| == 235
  }

  function After(l: Log, s: Slot, ops: seq<Op>): (l': Log)
    requires Fits(l, Window(s)) && WellFormed(ops)
    ensures Fits(l', Window(s))
    decreases |ops|
  {
    if ops == [] then l
    else
      var m := After(l, s, ops[..|ops| - 1]);
      match ops[|ops| - 1]
      case Save(r) => Round(m, s, r)
      case Restart(b) => Started(m, s, b)
  }

  /** The value most recently saved in slot `s`. */
  function Last(ops: seq<Op>, s: Slot): Option<seq<byte>> {
    if ops == [] then None
    else
      var op := ops[|ops| - 1];
      if op.Save? && Wanted(op.r, s).Some? then Wanted(op.r, s) else Last(ops[..|ops| - 1], s)
  }

  /** The values saved in slot `s` since page 0xee000 was last erased, or since the start of the run. */
  function Since(ops: seq<Op>, s: Slot): seq<seq<byte>> {
    if ops == [] then []
    else
      var op, before := ops[|ops| - 1], Since(ops[..|ops| - 1], s);
      if op.Restart? then before
      else if op.r.internet.Some? then []
      else if Wanted(op.r, s).Some? then before + [Wanted(op.r, s).value]
      else before
  }

  /** Whether page 0xee000 is erased in the run. */
  predicate ErasedIn(ops: seq<Op>) {
    exists i :: 0 <= i < |ops| && ops[i].Save? && ops[i].r.internet.Some?
  }

  /** What the values since then are programmed over; `found` is what the slot held at the start of the run. */
  function Base(ops: seq<Op>, s: Slot, found: seq<byte>): seq<byte> {
    if ErasedIn(ops) then Erased(Window(s)) else found
  }

  lemma ErasedSnoc(ops: seq<Op>)
    requires ops != []
    ensures var op := ops[|ops| - 1]; ErasedIn(ops) <==> ErasedIn(ops[..|ops| - 1]) || (op.Save? && op.r.internet.Some?)
  {
    var front := ops[..|ops| - 1];
    if i :| 0 <= i < |ops| && ops[i].Save? && ops[i].r.internet.Some? {
      assert i < |front| ==> front[i] == ops[i];
    }
    if i :| 0 <= i < |front| && front[i].Save? && front[i].r.internet.Some? {
      assert ops[i] == front[i];
    }
  }

  lemma {:induction false} SinceFits(ops: seq<Op>, s: Slot)
    requires WellFormed(ops) && Shared(s)
    ensures forall i :: 0 <= i < |Since(ops, s)| ==> |Since(ops, s)[i]| == Window(s)
    decreases |ops|
  {
    if ops != [] {
      SinceFits(ops[..|ops| - 1], s);
    }
  }

  lemma LastIsSized(ops: seq<Op>, s: Slot)
    requires WellFormed(ops) && Last(ops, s).Some?
    ensures Window(s) <= |Last(ops, s).value|
    decreases |ops|
  {
    var op := ops[|ops| - 1];
    if !(op.Save? && Wanted(op.r, s).Some?) {
      LastIsSized(ops[..|ops| - 1], s);
    }
  }

  /** Config, addresses, flags and the Internet setting read back as last saved, over any number of restarts. */
  lemma LastSavedReadsBack(l: Log, s: Slot, ops: seq<Op>)
    requires Fits(l, Window(s)) && WellFormed(ops) && !Shared(s) && Last(ops, s).Some?
    requires |Last(ops, s).value| >= 4
    requires Flag(s) ==> var w := Last(ops, s).value[..4];
                         w == [0x74, 0x72, 0x75, 0x65] || w == [0x66, 0x61, 0x6c, 0x73]
    ensures var n := if s == Config then 48 else if s == Ip || s == Gateway || s == Mask then 4 else 8;
            && n == Window(s) <= |Last(ops, s).value|
            && After(l, s, ops) == Log(Erased(n), [Last(ops, s).value[..n]])
            && Loaded(After(l, s, ops), s) == Last(ops, s).value[..n]
  {
    hide *;
    LastIsSized(ops, s);
    Windows(s);
    Words(Last(ops, s).value, Window(s));
    LastIsLoaded(l, s, ops);
  }

  lemma Windows(s: Slot)
    ensures !Shared(s) ==>
              Window(s) == if s == Config then 48 else if s == Ip || s == Gateway || s == Mask then 4 else 8
  {
  }

  lemma Words(v: seq<byte>, n: nat)
    requires 4 <= n <= |v|
    ensures Configured(v[..n]) <==> v[..4] == [0x74, 0x72, 0x75, 0x65] || v[..4] == [0x66, 0x61, 0x6c, 0x73]
  {
    assert v[..n][..4] == v[..4];
  }

  lemma {:induction false} LastIsLoaded(l: Log, s: Slot, ops: seq<Op>)
    requires Fits(l, Window(s)) && WellFormed(ops) && !Shared(s) && Last(ops, s).Some?
    requires Window(s) <= |Last(ops, s).value|
    requires Flag(s) ==> Configured(Last(ops, s).value[..Window(s)])
    ensures After(l, s, ops) == Log(Erased(Window(s)), [Last(ops, s).value[..Window(s)]])
    ensures Loaded(After(l, s, ops), s) == Last(ops, s).value[..Window(s)]
    decreases |ops|
  {
    var v := Last(ops, s).value[..Window(s)];
    OnceReadsBack(v);
    var op := ops[|ops| - 1];
    if !(op.Save? && Wanted(op.r, s).Some?) {
      LastIsLoaded(l, s, ops[..|ops| - 1]);
    }
  }

  /** Programmed once since an erasure, a slot reads back as programmed. */
  lemma OnceReadsBack(v: seq<byte>)
    ensures Content(Log(Erased(|v|), [v]), |v|) == v
  {
    AndErased(v);
    assert Content(Log(Erased(|v|), []), |v|) == Erased(|v|);
  }

  /** The firmware never uses a flag that starts with neither "true" nor "fals". */
  lemma LoadedIsConfigured(l: Log, s: Slot)
    requires Fits(l, Window(s)) && Flag(s)
    ensures Configured(Loaded(l, s))
  {
    var v := Content(l, Window(s));
    assert (TRUE + v[5..])[..4] == TRUE[..4];
  }

  /** The settings that share page 0xee000 hold the conjunction of what was there and what was saved since. */
  lemma {:induction false} SharedHoldsConjunction(l: Log, s: Slot, ops: seq<Op>)
    requires Fits(l, Window(s)) && WellFormed(ops) && Shared(s)
    ensures After(l, s, ops).base == if ErasedIn(ops) then Erased(Window(s)) else l.base
    ensures After(l, s, ops).values == (if ErasedIn(ops) then [] else l.values) + Since(ops, s)
    decreases |ops|
  {
    if ops == [] {
      assert l.values + [] == l.values;
    } else {
      var op, front := ops[|ops| - 1], ops[..|ops| - 1];
      ErasedSnoc(ops);
      SharedHoldsConjunction(l, s, front);
      if op.Save? && op.r.internet.None? && Wanted(op.r, s).Some? {
        assert Wanted(op.r, s).value[..Window(s)] == Wanted(op.r, s).value;
      }
    }
  }

  lemma SharedReadsBack(l: Log, s: Slot, ops: seq<Op>)
    requires Fits(l, Window(s)) && WellFormed(ops) && Shared(s)
    ensures ReadsBack(ops, s, Content(l, Window(s)), Loaded(After(l, s, ops), s))
  {
    hide *;
    var n, since := Window(s), Since(ops, s);
    SharedHoldsConjunction(l, s, ops);
    SinceFits(ops, s);
    HistoryOnBase(l, s, ops);
    LoadedIs(After(l, s, ops), s);
    if since != [] {
      var earlier, v := since[..|since| - 1], since[|since| - 1];
      assert earlier + [v] == since;
      LastIsRead(Base(ops, s, Content(l, n)), earlier, v);
    }
    SharedIs(ops, s, Content(l, n), Loaded(After(l, s, ops), s));
  }

  lemma LoadedIs(l: Log, s: Slot)
    requires Fits(l, Window(s)) && Shared(s)
    ensures Loaded(l, s) == Content(l, Window(s))
  {
  }

  lemma HistoryOnBase(l: Log, s: Slot, ops: seq<Op>)
    requires Fits(l, Window(s)) && WellFormed(ops) && Shared(s)
    requires After(l, s, ops).base == if ErasedIn(ops) then Erased(Window(s)) else l.base
    requires After(l, s, ops).values == (if ErasedIn(ops) then [] else l.values) + Since(ops, s)
    requires forall i :: 0 <= i < |Since(ops, s)| ==> |Since(ops, s)[i]| == Window(s)
    ensures |Base(ops, s, Content(l, Window(s)))| == Window(s)
    ensures Content(After(l, s, ops), Window(s)) == AndWith(Base(ops, s, Content(l, Window(s))), Since(ops, s))
  {
    hide AndWith, After, ErasedIn, Since, Shared, Window, WellFormed;
    var base, before := if ErasedIn(ops) then Erased(Window(s)) else l.base, if ErasedIn(ops) then [] else l.values;
    assert After(l, s, ops) == Log(base, before + Since(ops, s));
    ContentFrom(base, before, Since(ops, s));
  }

  lemma SharedIs(ops: seq<Op>, s: Slot, start: seq<byte>, found: seq<byte>)
    requires WellFormed(ops) && Shared(s) && |start| == Window(s) && |Base(ops, s, start)| == Window(s)
    requires var since := Since(ops, s);
             && (forall i :: 0 <= i < |since| ==> |since[i]| == Window(s))
             && found == AndWith(Base(ops, s, start), since)
             && (since != [] ==>
                   var v := since[|since| - 1];
                   found == v <==> CoveredBy(v, Base(ops, s, start), since[..|since| - 1]))
    ensures ReadsBack(ops, s, start, found)
  {
  }

  /** Whether the run contains a restart. */
  predicate Restarted(ops: seq<Op>) {
    exists i :: 0 <= i < |ops| && ops[i].Restart?
  }

  /**
   * A flag that was never saved is programmed with "true" at every start until
   * it holds one of the two words, which comes about exactly if the bits found in
   * flash allow it.
   */
  lemma {:induction false} DefaultSticks(l: Log, s: Slot, ops: seq<Op>)
    requires Fits(l, Window(s)) && WellFormed(ops) && Flag(s) && Last(ops, s).None?
    requires !Configured(Content(l, Window(s)))
    ensures if Restarted(ops) then HoldsTrue(Content(l, Window(s)), Content(After(l, s, ops), Window(s)))
            else Content(After(l, s, ops), Window(s)) == Content(l, Window(s))
    decreases |ops|
  {
    hide HoldsTrue, Content, Started, Configured;
    if ops != [] {
      var op, front := ops[|ops| - 1], ops[..|ops| - 1];
      DefaultSticks(l, s, front);
      RestartedSnoc(ops);
      if op.Restart? {
        DefaultProgrammed(After(l, s, front), s, op.behind);
        AndTwice(Content(l, Window(s)), Content(After(l, s, front), Window(s)), Content(After(l, s, ops), Window(s)));
      }
    }
  }

  lemma RestartedSnoc(ops: seq<Op>)
    requires ops != []
    ensures Restarted(ops) <==> Restarted(ops[..|ops| - 1]) || ops[|ops| - 1].Restart?
  {
    var front := ops[..|ops| - 1];
    assert forall i :: 0 <= i < |front| ==> front[i] == ops[i];
    if i :| 0 <= i < |front| && front[i].Restart? {
      assert ops[i].Restart?;
    }
  }

  /** The first four bytes are those of `was` with "true" programmed over them. */
  predicate HoldsTrue(was: seq<byte>, now: seq<byte>) {
    |was| >= 4 && |now| >= 4 && forall i :: 0 <= i < 4 ==> now[i] == And(was[i], TRUE[i])
  }

  /** One start over whatever the flag holds. */
  lemma DefaultProgrammed(l: Log, s: Slot, behind: seq<byte>)
    requires Fits(l, Window(s)) && Flag(s) && |behind| == 235
    ensures var v := Content(l, Window(s));
            var now := Content(Started(l, s, behind), Window(s));
            if Configured(v) then now == v else HoldsTrue(v, now)
  {
    var v := Content(l, Window(s));
    if !Configured(v) {
      var l', w := Started(l, s, behind), (TRUE + behind)[..8];
      assert l'.values[..|l'.values| - 1] == l.values && l'.values[|l'.values| - 1] == w;
      assert forall i :: 0 <= i < 4 ==> w[i] == TRUE[i];
    }
  }

  lemma AndTwice(was: seq<byte>, mid: seq<byte>, now: seq<byte>)
    ensures HoldsTrue(was, mid) && HoldsTrue(mid, now) ==> HoldsTrue(was, now)
  {
    hide And;
    if HoldsTrue(was, mid) && HoldsTrue(mid, now) {
      forall i | 0 <= i < 4
        ensures now[i] == And(was[i], TRUE[i])
      {
        ByteIsEightBits();
        BitsDetermine(And(And(was[i], TRUE[i]), TRUE[i]), And(was[i], TRUE[i]), 8);
      }
    }
  }

  /** In particular the default is found at the next start exactly if the bits found at the first allow it. */
  lemma DefaultIsFound(l: Log, s: Slot, ops: seq<Op>)
    requires Fits(l, Window(s)) && WellFormed(ops) && Flag(s) && Last(ops, s).None? && Restarted(ops)
    requires !Configured(Content(l, Window(s)))
    ensures Content(After(l, s, ops), Window(s))[..4] == TRUE[..4]
            <==> forall i :: 0 <= i < 4 ==> And(Content(l, Window(s))[i], TRUE[i]) == TRUE[i]
  {
    hide *;
    DefaultSticks(l, s, ops);
    TrueIsHeld(Content(l, Window(s)), Content(After(l, s, ops), Window(s)));
  }

  lemma TrueIsHeld(was: seq<byte>, now: seq<byte>)
    requires HoldsTrue(was, now)
    ensures now[..4] == TRUE[..4] <==> forall i :: 0 <= i < 4 ==> And(was[i], TRUE[i]) == TRUE[i]
  {
    hide And;
    assert now[..4] == TRUE[..4] <==> forall i :: 0 <= i < 4 ==> now[i] == TRUE[i];
  }

  /**
   * What start-up makes of slot `s` after the run, when the slot held `start`
   * before it: a setting in the shared page is the conjunction, and the value
   * last saved exactly if all its bits were still there; a flag is the value
   * last saved exactly if that is configured; any other is the value last saved.
   */
  ghost predicate ReadsBack(ops: seq<Op>, s: Slot, start: seq<byte>, found: seq<byte>)
    requires WellFormed(ops) && |start| == Window(s)
  {
    if Shared(s) then
      var since := Since(ops, s);
      && (forall i :: 0 <= i < |since| ==> |since[i]| == Window(s))
      && found == AndWith(Base(ops, s, start), since)
      && (since != [] ==>
            var v := since[|since| - 1];
            found == v <==> CoveredBy(v, Base(ops, s, start), since[..|since| - 1]))
    else Last(ops, s).Some? ==>
      && Window(s) <= |Last(ops, s).value|
      && var v := Last(ops, s).value[..Window(s)];
         if Flag(s) then found == v <==> Configured(v) else found == v
  }

  lemma RunReadsBack(l: Log, s: Slot, ops: seq<Op>)
    requires Fits(l, Window(s)) && WellFormed(ops)
    ensures ReadsBack(ops, s, Content(l, Window(s)), Loaded(After(l, s, ops), s))
  {
    if Shared(s) {
      SharedReadsBack(l, s, ops);
    } else if Last(ops, s).Some? {
      LastIsSized(ops, s);
      if Flag(s) && !Configured(Last(ops, s).value[..Window(s)]) {
        LoadedIsConfigured(After(l, s, ops), s);
      } else {
        LastIsLoaded(l, s, ops);
      }
    }
  }

  /** A run of saves and restarts: the flash holds what its history says. */
  method Perform(store: Store, ops: seq<Op>)
    requires store.Valid() && WellFormed(ops)
    modifies store`logs, store.mem
    ensures store.Valid()
    ensures forall s: Slot :: Fits(old(store.logs)(s), Window(s)) && store.logs(s) == After(old(store.logs)(s), s, ops)
  {
    hide Round, Started, Fits, Store.Valid, Content, Addr, Found;
    ShowsAll(store);
    ghost var l := store.logs;
    assert ops[..0] == [];
    for i := 0 to |ops|
      invariant store.Valid() && WellFormed(ops[..i])
      invariant forall s: Slot :: Fits(l(s), Window(s)) && store.logs(s) == After(l(s), s, ops[..i])
    {
      assert ops[..i + 1][..i] == ops[..i] && ops[..i + 1][i] == ops[i];
      match ops[i]
      case Save(r) => store.StorageRound(r);
      case Restart(behind) => var settings := store.StartUp(behind);
    }
    assert ops[..|ops|] == ops;
  }

  /** The bytes of slot `s` in flash. */
  function Found(mem: seq<byte>, s: Slot): Option<seq<byte>> {
    if Addr(s) + Window(s) <= |mem| then Some(mem[Addr(s)..Addr(s) + Window(s)]) else None
  }

  lemma ShowsAll(store: Store)
    requires store.Valid()
    ensures forall s: Slot :: Fits(store.logs(s), Window(s))
                              && Found(store.mem[..], s) == Some(Content(store.logs(s), Window(s)))
  {
    forall s: Slot
      ensures Fits(store.logs(s), Window(s)) && Found(store.mem[..], s) == Some(Content(store.logs(s), Window(s)))
    {
      assert Shows(store.mem[..], store.logs(s), s);
      SlotsApart(s, s);
    }
  }

  // --- the same in the terms of the requests ------------------------------------------------

  lemma {:induction false} LastAt(ops: seq<Op>, s: Slot, i: nat)
    requires i < |ops| && ops[i].Save? && Wanted(ops[i].r, s).Some?
    requires forall j :: i < j < |ops| && ops[j].Save? ==> Wanted(ops[j].r, s).None?
    ensures Last(ops, s) == Wanted(ops[i].r, s)
    decreases |ops|
  {
    if i + 1 < |ops| {
      LastAt(ops[..|ops| - 1], s, i);
    }
  }

  function TokenOf(r: Request): Option<seq<byte>> { r.token }
  function LinkOf(r: Request): Option<seq<byte>> { r.link }
  function SsidOf(r: Request): Option<seq<byte>> { r.ssid }
  function KeyOf(r: Request): Option<seq<byte>> { r.key }

  /** `e` is the last save of the run that erases page 0xee000; -1 if none does. */
  ghost predicate LastErasure(ops: seq<Op>, e: int) {
    && -1 <= e < |ops| && (e >= 0 ==> ops[e].Save? && ops[e].r.internet.Some?)
    && forall j :: e < j < |ops| && ops[j].Save? ==> ops[j].r.internet.None?
  }

  /** A bit is set exactly if it was found set, or erased, and every value saved since has it. */
  ghost predicate Conjunction(ops: seq<Op>, what: Request -> Option<seq<byte>>, found: seq<byte>, now: seq<byte>) {
    && |now| == |found|
    && forall e, i: nat, k: nat :: LastErasure(ops, e) && i < |now| && k < 8 ==>
         (Bit(now[i], k) <==>
          && (e < 0 ==> Bit(found[i], k))
          && forall j :: e < j < |ops| && ops[j].Save? && what(ops[j].r).Some? && i < |what(ops[j].r).value| ==>
               Bit(what(ops[j].r).value[i], k))
  }

  /** The values saved since the last erasure are those of the requests after it. */
  lemma {:induction false} SinceErasure(ops: seq<Op>, s: Slot, e: int)
    requires LastErasure(ops, e)
    ensures ErasedIn(ops) <==> e >= 0
    ensures forall v :: v in Since(ops, s) <==>
              exists j :: e < j < |ops| && ops[j].Save? && Wanted(ops[j].r, s) == Some(v)
    decreases |ops|
  {
    hide Wanted;
    if ops != [] {
      var op, front := ops[|ops| - 1], ops[..|ops| - 1];
      ErasedSnoc(ops);
      if e < |front| {
        SinceErasure(front, s, e);
        forall v
          ensures v in Since(ops, s) <==> exists j :: e < j < |ops| && ops[j].Save? && Wanted(ops[j].r, s) == Some(v)
        {
          if v in Since(front, s) {
            var j :| e < j < |front| && front[j].Save? && Wanted(front[j].r, s) == Some(v);
            assert ops[j] == front[j];
          }
          if j :| e < j < |front| && ops[j].Save? && Wanted(ops[j].r, s) == Some(v) {
            assert front[j] == ops[j];
          }
        }
      }
    }
  }

  lemma BitErased(k: nat)
    requires k < 8
    ensures Bit(0xff, k)
  {
    ByteIsEightBits();
  }

  lemma IsConjunction(ops: seq<Op>, s: Slot, what: Request -> Option<seq<byte>>, found: seq<byte>, now: seq<byte>)
    requires WellFormed(ops) && Shared(s) && |found| == Window(s) && ReadsBack(ops, s, found, now)
    requires forall r: Request :: what(r) == Wanted(r, s)
    ensures Conjunction(ops, what, found, now)
  {
    hide AndWith, Window, Wanted, Shared, Since, Base, ErasedIn, Bit, WellFormed;
    var base, since := Base(ops, s, found), Since(ops, s);
    BaseIs(ops, s, found);
    assert now == AndWith(base, since);
    forall e, i: nat, k: nat | LastErasure(ops, e) && i < |now| && k < 8
      ensures Bit(now[i], k) <==>
              && (e < 0 ==> Bit(found[i], k))
              && forall j :: e < j < |ops| && ops[j].Save? && what(ops[j].r).Some? && i < |what(ops[j].r).value| ==>
                   Bit(what(ops[j].r).value[i], k)
    {
      SinceErasure(ops, s, e);
      BitSurvives(base, since, i, k);
      BitErased(k);
      SavedBits(ops, s, e, i, k);
    }
  }

  lemma BaseIs(ops: seq<Op>, s: Slot, found: seq<byte>)
    requires |found| == Window(s)
    ensures var base := Base(ops, s, found);
            |base| == |found| && forall i :: 0 <= i < |base| ==> base[i] == if ErasedIn(ops) then 0xff else found[i]
  {
  }

  lemma SavedBits(ops: seq<Op>, s: Slot, e: int, i: nat, k: nat)
    requires WellFormed(ops) && Shared(s) && i < Window(s) && e >= -1
    requires forall v :: v in Since(ops, s) <==>
               exists j :: e < j < |ops| && ops[j].Save? && Wanted(ops[j].r, s) == Some(v)
    requires forall j :: 0 <= j < |Since(ops, s)| ==> |Since(ops, s)[j]| == Window(s)
    ensures (forall j :: 0 <= j < |Since(ops, s)| ==> Bit(Since(ops, s)[j][i], k)) <==>
            forall j :: e < j < |ops| && ops[j].Save?
                        && Wanted(ops[j].r, s).Some? && i < |Wanted(ops[j].r, s).value| ==>
                          Bit(Wanted(ops[j].r, s).value[i], k)
  {
    hide Wanted, Since, Window, Bit, Shared;
    var since := Since(ops, s);
    if forall j :: 0 <= j < |since| ==> Bit(since[j][i], k) {
      forall j | e < j < |ops| && ops[j].Save? && Wanted(ops[j].r, s).Some? && i < |Wanted(ops[j].r, s).value|
        ensures Bit(Wanted(ops[j].r, s).value[i], k)
      {
        assert Wanted(ops[j].r, s).value in since;
      }
    } else {
      var n :| 0 <= n < |since| && !Bit(since[n][i], k);
      assert since[n] in since;
      var j :| e < j < |ops| && ops[j].Save? && Wanted(ops[j].r, s) == Some(since[n]);
    }
  }

  ghost predicate AllReadBack(ops: seq<Op>, mem: seq<byte>, settings: map<Slot, seq<byte>>)
    requires WellFormed(ops)
  {
    forall s: Slot :: s in settings && Found(mem, s).Some? && ReadsBack(ops, s, Found(mem, s).value, settings[s])
  }

  /** The four shared settings, at their addresses. */
  lemma SharedAre(ops: seq<Op>, mem: seq<byte>, settings: map<Slot, seq<byte>>)
    requires WellFormed(ops) && |mem| == FLASH && AllReadBack(ops, mem, settings)
    ensures forall s: Slot :: s in settings
    ensures Conjunction(ops, LinkOf, mem[0x1100..0x1100 + 240], settings[Link])
    ensures Conjunction(ops, TokenOf, mem[0x1200..0x1200 + 240], settings[Token])
    ensures Conjunction(ops, SsidOf, mem[0x1500..0x1500 + 80], settings[Ssid])
    ensures Conjunction(ops, KeyOf, mem[0x1600..0x1600 + 80], settings[Key])
  {
    hide Conjunction, ReadsBack;
    IsConjunction(ops, Link, LinkOf, mem[0x1100..0x1100 + 240], settings[Link]);
    IsConjunction(ops, Token, TokenOf, mem[0x1200..0x1200 + 240], settings[Token]);
    IsConjunction(ops, Ssid, SsidOf, mem[0x1500..0x1500 + 80], settings[Ssid]);
    IsConjunction(ops, Key, KeyOf, mem[0x1600..0x1600 + 80], settings[Key]);
  }

  /** What start-up finds for a setting saved last as `v`. */
  lemma ReadLatest(ops: seq<Op>, mem: seq<byte>, settings: map<Slot, seq<byte>>, s: Slot, i: nat)
    requires WellFormed(ops) && AllReadBack(ops, mem, settings) && !Shared(s)
    requires i < |ops| && ops[i].Save? && Wanted(ops[i].r, s).Some?
    requires forall j :: i < j < |ops| && ops[j].Save? ==> Wanted(ops[j].r, s).None?
    ensures var v := Wanted(ops[i].r, s).value;
            && s in settings && Window(s) <= |v|
            && if Flag(s) then settings[s] == v[..Window(s)] <==> Configured(v[..Window(s)])
               else settings[s] == v[..Window(s)]
  {
    hide Wanted, Window;
    LastAt(ops, s, i);
  }

  /** What the save at `i` left, if no later one of the run asked for the same: the addresses. */
  lemma LatestAddresses(ops: seq<Op>, mem: seq<byte>, settings: map<Slot, seq<byte>>, i: nat)
    requires WellFormed(ops) && AllReadBack(ops, mem, settings) && i < |ops| && ops[i].Save?
    requires ops[i].r.ip.Some? && forall j :: i < j < |ops| && ops[j].Save? ==> ops[j].r.ip.None?
    ensures Ip in settings && Gateway in settings && Mask in settings
    ensures var (a, b, c) := ops[i].r.ip.value; settings[Ip] == a && settings[Gateway] == b && settings[Mask] == c
  {
    hide AllReadBack, Sized;
    SizesAre(ops[i].r);
    ReadLatest(ops, mem, settings, Ip, i);
    ReadLatest(ops, mem, settings, Gateway, i);
    ReadLatest(ops, mem, settings, Mask, i);
  }

  /** The configuration. */
  lemma LatestConfig(ops: seq<Op>, mem: seq<byte>, settings: map<Slot, seq<byte>>, i: nat)
    requires WellFormed(ops) && AllReadBack(ops, mem, settings) && i < |ops| && ops[i].Save?
    requires ops[i].r.config.Some? && forall j :: i < j < |ops| && ops[j].Save? ==> ops[j].r.config.None?
    ensures Config in settings
    ensures |ops[i].r.config.value| == 240 && settings[Config] == ops[i].r.config.value[..48]
  {
    hide AllReadBack, Sized;
    SizesAre(ops[i].r);
    ReadLatest(ops, mem, settings, Config, i);
  }

  /** The Internet setting. */
  lemma LatestInternet(ops: seq<Op>, mem: seq<byte>, settings: map<Slot, seq<byte>>, i: nat)
    requires WellFormed(ops) && AllReadBack(ops, mem, settings) && i < |ops| && ops[i].Save?
    requires ops[i].r.internet.Some? && forall j :: i < j < |ops| && ops[j].Save? ==> ops[j].r.internet.None?
    ensures Internet in settings
    ensures |ops[i].r.internet.value| == 240 && settings[Internet] == ops[i].r.internet.value[..8]
  {
    hide AllReadBack, Sized;
    SizesAre(ops[i].r);
    ReadLatest(ops, mem, settings, Internet, i);
  }

  /** The DHCP flags: what was saved exactly if that starts with "true" or "fals". */
  lemma LatestFlags(ops: seq<Op>, mem: seq<byte>, settings: map<Slot, seq<byte>>, i: nat)
    requires WellFormed(ops) && AllReadBack(ops, mem, settings) && i < |ops| && ops[i].Save?
    requires ops[i].r.dhcp.Some? && forall j :: i < j < |ops| && ops[j].Save? ==> ops[j].r.dhcp.None?
    ensures WifiDhcp in settings && EthDhcp in settings
    ensures var (v, w) := ops[i].r.dhcp.value;
            && |v| == |w| == 8
            && (settings[WifiDhcp] == v <==> v[..4] == [0x74, 0x72, 0x75, 0x65] || v[..4] == [0x66, 0x61, 0x6c, 0x73])
            && (settings[EthDhcp] == w <==> w[..4] == [0x74, 0x72, 0x75, 0x65] || w[..4] == [0x66, 0x61, 0x6c, 0x73])
  {
    hide AllReadBack, Sized;
    SizesAre(ops[i].r);
    ReadLatest(ops, mem, settings, WifiDhcp, i);
    ReadLatest(ops, mem, settings, EthDhcp, i);
  }

  lemma SizesAre(r: Request)
    requires Sized(r)
    ensures r.ip.Some? ==> |r.ip.value.0| == |r.ip.value.1| == |r.ip.value.2| == 4
    ensures r.config.Some? ==> |r.config.value| == 240
    ensures r.internet.Some? ==> |r.internet.value| == 240
    ensures r.dhcp.Some? ==> |r.dhcp.value.0| == |r.dhcp.value.1| == 8
  {
  }

  /** Whatever the flash held, and whatever is saved in a run, the next start reads it back. */
  method PerformAndRestart(store: Store, ops: seq<Op>, behind: seq<byte>) returns (settings: map<Slot, seq<byte>>)
    requires store.Valid() && WellFormed(ops) && |behind| == 235
    modifies store`logs, store.mem
    ensures store.Valid()
    ensures store.mem.Length == 0x6000 && forall s: Slot :: s in settings
    ensures forall s: Slot :: Found(old(store.mem[..]), s).Some?
                              && ReadsBack(ops, s, Found(old(store.mem[..]), s).value, settings[s])
    // The addresses, the first 48 bytes of the configuration, the first 8 of the Internet setting: as saved last.
    ensures forall i :: 0 <= i < |ops| && ops[i].Save? && ops[i].r.ip.Some?
                        && (forall j :: i < j < |ops| && ops[j].Save? ==> ops[j].r.ip.None?) ==>
                          (settings[Ip], settings[Gateway], settings[Mask]) == ops[i].r.ip.value
    ensures forall i :: 0 <= i < |ops| && ops[i].Save? && ops[i].r.config.Some?
                        && (forall j :: i < j < |ops| && ops[j].Save? ==> ops[j].r.config.None?) ==>
                          |ops[i].r.config.value| == 240 && settings[Config] == ops[i].r.config.value[..48]
    ensures forall i :: 0 <= i < |ops| && ops[i].Save? && ops[i].r.internet.Some?
                        && (forall j :: i < j < |ops| && ops[j].Save? ==> ops[j].r.internet.None?) ==>
                          |ops[i].r.internet.value| == 240 && settings[Internet] == ops[i].r.internet.value[..8]
    // The flags: all eight bytes as saved last, exactly if they start with "true" or "fals".
    ensures forall i :: 0 <= i < |ops| && ops[i].Save? && ops[i].r.dhcp.Some?
                        && (forall j :: i < j < |ops| && ops[j].Save? ==> ops[j].r.dhcp.None?) ==>
                          var (v, w) := ops[i].r.dhcp.value;
                          && |v| == |w| == 8
                          && (settings[WifiDhcp] == v <==>
                              v[..4] == [0x74, 0x72, 0x75, 0x65] || v[..4] == [0x66, 0x61, 0x6c, 0x73])
                          && (settings[EthDhcp] == w <==>
                              w[..4] == [0x74, 0x72, 0x75, 0x65] || w[..4] == [0x66, 0x61, 0x6c, 0x73])
    // The settings that share a page: bit by bit.
    ensures var mem := old(store.mem[..]);
            && Conjunction(ops, LinkOf, mem[0x1100..0x1100 + 240], settings[Link])
            && Conjunction(ops, TokenOf, mem[0x1200..0x1200 + 240], settings[Token])
            && Conjunction(ops, SsidOf, mem[0x1500..0x1500 + 80], settings[Ssid])
            && Conjunction(ops, KeyOf, mem[0x1600..0x1600 + 80], settings[Key])
  {
    hide *;
    ghost var l, mem := store.logs, store.mem[..];
    MemoryIs(store);
    ShowsAll(store);
    Perform(store, ops);
    settings := store.StartUp(behind);
    forall s: Slot
      ensures s in settings && Found(mem, s).Some? && ReadsBack(ops, s, Found(mem, s).value, settings[s])
    {
      RunReadsBack(l(s), s, ops);
    }
    AllReadBackIs(ops, mem, settings);
    SharedAre(ops, mem, settings);
    forall i | 0 <= i < |ops| && ops[i].Save? && ops[i].r.ip.Some?
               && forall j :: i < j < |ops| && ops[j].Save? ==> ops[j].r.ip.None?
      ensures (settings[Ip], settings[Gateway], settings[Mask]) == ops[i].r.ip.value
    {
      LatestAddresses(ops, mem, settings, i);
    }
    forall i | 0 <= i < |ops| && ops[i].Save? && ops[i].r.config.Some?
               && forall j :: i < j < |ops| && ops[j].Save? ==> ops[j].r.config.None?
      ensures |ops[i].r.config.value| == 240 && settings[Config] == ops[i].r.config.value[..48]
    {
      LatestConfig(ops, mem, settings, i);
    }
    forall i | 0 <= i < |ops| && ops[i].Save? && ops[i].r.internet.Some?
               && forall j :: i < j < |ops| && ops[j].Save? ==> ops[j].r.internet.None?
      ensures |ops[i].r.internet.value| == 240 && settings[Internet] == ops[i].r.internet.value[..8]
    {
      LatestInternet(ops, mem, settings, i);
    }
    forall i | 0 <= i < |ops| && ops[i].Save? && ops[i].r.dhcp.Some?
               && forall j :: i < j < |ops| && ops[j].Save? ==> ops[j].r.dhcp.None?
      ensures var (v, w) := ops[i].r.dhcp.value;
              && |v| == |w| == 8
              && (settings[WifiDhcp] == v <==>
                  v[..4] == [0x74, 0x72, 0x75, 0x65] || v[..4] == [0x66, 0x61, 0x6c, 0x73])
              && (settings[EthDhcp] == w <==>
                  w[..4] == [0x74, 0x72, 0x75, 0x65] || w[..4] == [0x66, 0x61, 0x6c, 0x73])
    {
      LatestFlags(ops, mem, settings, i);
    }
  }

  lemma MemoryIs(store: Store)
    requires store.Valid()
    ensures store.mem.Length == FLASH == 0x6000
  {
  }

  lemma AllReadBackIs(ops: seq<Op>, mem: seq<byte>, settings: map<Slot, seq<byte>>)
    requires WellFormed(ops)
    requires forall s: Slot :: s in settings && Found(mem, s).Some?
                               && ReadsBack(ops, s, Found(mem, s).value, settings[s])
    ensures AllReadBack(ops, mem, settings)
  {
  }
}
