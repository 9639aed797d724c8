/**
 * Receive side of the WINC1500 lwIP glue (winc1500netif.c): packet fragments
 * land in a registered buffer and are strung together into a pbuf chain, under
 * allocation failures and with a stack that may refuse the result.
 */
module WincReceive {
  import opened Bytes
  import opened Pbufs

  /** How one fragment ends: no first buffer, chain offered to lwIP, chain extended, no next buffer. */
  datatype Outcome = NoFirst | Offered | Extended | NoNext

  // --- what the callback does, seen from outside -----------------------------------

  /** Bytes of the packet so far, whether there are any, and the packets offered to lwIP. */
  datatype Glue = Glue(partial: seq<byte>, busy: bool, offered: seq<seq<byte>>)

  datatype Fragment = Fragment(data: seq<byte>, rem: nat)

  function Step(g: Glue, f: Fragment, o: Outcome): Glue {
    match o
    case Offered => Glue([], false, g.offered + [g.partial + f.data])
    case Extended => Glue(g.partial + f.data, true, g.offered)
    case _ => Glue([], false, g.offered)
  }

  /** Which outcomes a fragment can have: the last one is offered unless even the first buffer is missing. */
  predicate Possible(g: Glue, f: Fragment, o: Outcome) {
    && (o == NoFirst ==> !g.busy)
    && (o == Offered ==> f.rem == 0)
    && (o == Extended || o == NoNext ==> f.rem > 0)
  }

  function Steps(g: Glue, fs: seq<Fragment>, os: seq<Outcome>): Glue
    requires |fs| == |os|
    decreases |fs|
  {
    if fs == [] then g else Steps(Step(g, fs[0], os[0]), fs[1..], os[1..])
  }

  function Payloads(fs: seq<Fragment>): seq<byte> {
    if fs == [] then [] else fs[0].data + Payloads(fs[1..])
  }

  /** All fragments but the last extended the chain, the last one closed the packet. */
  predicate NoFailure(fs: seq<Fragment>, os: seq<Outcome>)
    requires |fs| == |os| > 0
  {
    && (forall i :: 0 <= i < |os| - 1 ==> os[i] == Extended)
    && os[|os| - 1] == Offered
  }

  /** Without a failure, what is offered is exactly the fragments' bytes in order. */
  lemma {:induction false} ReassemblyIsExact(g: Glue, fs: seq<Fragment>, os: seq<Outcome>)
    requires |fs| == |os| > 0 && NoFailure(fs, os)
    ensures Steps(g, fs, os) == Glue([], false, g.offered + [g.partial + Payloads(fs)])
    decreases |fs|
  {
    var g' := Step(g, fs[0], os[0]);
    if |fs| == 1 {
      assert Payloads(fs) == fs[0].data + Payloads(fs[1..]);
      assert g.partial + Payloads(fs) == g.partial + fs[0].data;
      assert Steps(g', fs[1..], os[1..]) == g';
    } else {
      ReassemblyIsExact(g', fs[1..], os[1..]);
      assert g.partial + fs[0].data + Payloads(fs[1..]) == g.partial + Payloads(fs);
    }
  }

  /** The fragments of one packet: something remains after each but the last, which may be empty. */
  predicate Packet(fs: seq<Fragment>) {
    && fs != []
    && (forall i :: 0 <= i < |fs| ==> (fs[i].rem == 0 <==> i == |fs| - 1))
    && (forall i :: 0 <= i < |fs| - 1 ==> fs[i].data != [])
  }

  predicate PossibleRun(g: Glue, fs: seq<Fragment>, os: seq<Outcome>)
    requires |fs| == |os|
    decreases |fs|
  {
    fs == [] || (Possible(g, fs[0], os[0]) && PossibleRun(Step(g, fs[0], os[0]), fs[1..], os[1..]))
  }

  /** A packet makes lwIP see at most one chain, no longer than what was received. */
  lemma {:induction false} OffersAtMostOne(g: Glue, fs: seq<Fragment>, os: seq<Outcome>)
    requires |fs| == |os| && Packet(fs) && PossibleRun(g, fs, os)
    ensures var offered := Steps(g, fs, os).offered;
            offered == g.offered
            || (|offered| == |g.offered| + 1 && offered[..|g.offered|] == g.offered
                && |offered[|g.offered|]| <= |g.partial| + |Payloads(fs)|)
    decreases |fs|
  {
    var g' := Step(g, fs[0], os[0]);
    if |fs| == 1 {
      assert fs[1..] == [] && os[1..] == [];
      assert Steps(g, fs, os) == g';
      assert Payloads(fs) == fs[0].data + [];
    } else {
      assert Packet(fs[1..]);
      assert os[0] != Offered;
      OffersAtMostOne(g', fs[1..], os[1..]);
    }
  }

  /**
   * A packet whose first fragment comes between packets reaches lwIP whole, and
   * nothing else does, if and only if no fragment met an allocation failure
   * (one of the buffer after the last fragment does not matter).
   */
  lemma {:induction false} WholeOnlyWithoutFailure(g: Glue, fs: seq<Fragment>, os: seq<Outcome>)
    requires |fs| == |os| && Packet(fs) && PossibleRun(g, fs, os)
    ensures Steps(g, fs, os).offered == g.offered + [g.partial + Payloads(fs)] <==> NoFailure(fs, os)
    decreases |fs|
  {
    var g' := Step(g, fs[0], os[0]);
    if NoFailure(fs, os) {
      ReassemblyIsExact(g, fs, os);
    } else if |fs| == 1 {
      assert fs[1..] == [] && os[1..] == [];
      assert Steps(g, fs, os) == g';
    } else if os[0] == Extended {
      assert Packet(fs[1..]);
      WholeOnlyWithoutFailure(g', fs[1..], os[1..]);
      assert g.partial + fs[0].data + Payloads(fs[1..]) == g.partial + Payloads(fs);
      assert !NoFailure(fs[1..], os[1..]);
    } else {
      assert Packet(fs[1..]);
      OffersAtMostOne(g', fs[1..], os[1..]);
      assert Payloads(fs) == fs[0].data + Payloads(fs[1..]);
    }
  }

  // --- which outcome: the allocations decide ---------------------------------------

  /** `pool(i)` says whether the i-th allocation succeeds; `ready`, whether there is a first link already. */
  function OutcomeOf(ready: bool, k: nat, f: Fragment, pool: nat -> bool): Outcome {
    if !ready && !pool(k) then NoFirst
    else if f.rem == 0 then Offered
    else if pool(if ready then k else k + 1) then Extended
    else NoNext
  }

  function ReadyAfter(ready: bool, k: nat, pool: nat -> bool): bool {
    if ready then pool(k) else pool(k) && pool(k + 1)
  }

  function AllocsAfter(ready: bool, k: nat, pool: nat -> bool): nat {
    if ready || !pool(k) then k + 1 else k + 2
  }

  function Outcomes(ready: bool, k: nat, fs: seq<Fragment>, pool: nat -> bool): (os: seq<Outcome>)
    ensures |os| == |fs|
    decreases |fs|
  {
    if fs == [] then []
    else [OutcomeOf(ready, k, fs[0], pool)]
         + Outcomes(ReadyAfter(ready, k, pool), AllocsAfter(ready, k, pool), fs[1..], pool)
  }

  lemma {:induction false} OutcomesArePossible(g: Glue, ready: bool, k: nat, fs: seq<Fragment>, pool: nat -> bool)
    requires g.busy ==> ready
    ensures PossibleRun(g, fs, Outcomes(ready, k, fs, pool))
    decreases |fs|
  {
    if fs != [] {
      var o := OutcomeOf(ready, k, fs[0], pool);
      OutcomesArePossible(Step(g, fs[0], o), ReadyAfter(ready, k, pool), AllocsAfter(ready, k, pool), fs[1..], pool);
    }
  }

  predicate AllSucceed(answers: nat -> bool, k: nat, n: nat) {
    forall i: nat :: k <= i < k + n ==> answers(i)
  }

  /** The allocations before the last fragment's spare: one for each other fragment, and a missing first link. */
  function Needed(ready: bool, fragments: nat): nat
    requires fragments > 0
  {
    fragments - 1 + if ready then 0 else 1
  }

  lemma {:induction false} FailuresAreAllocations(ready: bool, k: nat, fs: seq<Fragment>, pool: nat -> bool)
    requires Packet(fs)
    ensures NoFailure(fs, Outcomes(ready, k, fs, pool)) <==> AllSucceed(pool, k, Needed(ready, |fs|))
    decreases |fs|
  {
    var os := Outcomes(ready, k, fs, pool);
    if |fs| == 1 {
      assert os == [OutcomeOf(ready, k, fs[0], pool)];
    } else {
      assert Packet(fs[1..]);
      var ready', k' := ReadyAfter(ready, k, pool), AllocsAfter(ready, k, pool);
      FailuresAreAllocations(ready', k', fs[1..], pool);
      assert os[1..] == Outcomes(ready', k', fs[1..], pool);
      assert NoFailure(fs, os) <==> os[0] == Extended && NoFailure(fs[1..], os[1..]) by {
        assert forall i :: 0 <= i < |os| - 2 ==> os[1..][i] == os[i + 1];
        assert forall i :: 1 <= i < |os| - 1 ==> os[i] == os[1..][i - 1];
      }
    }
  }

  /** The glue with its counters: is there a first link, allocations and bus reads so far. */
  datatype Line = Line(glue: Glue, ready: bool, allocs: nat, fetches: nat)

  function After(l: Line, f: Fragment, pool: nat -> bool): Line {
    Line(Step(l.glue, f, OutcomeOf(l.ready, l.allocs, f, pool)), ReadyAfter(l.ready, l.allocs, pool),
         AllocsAfter(l.ready, l.allocs, pool), l.fetches)
  }

  /** The callback once for each fragment. */
  function AfterAll(l: Line, fs: seq<Fragment>, pool: nat -> bool): Line
    decreases |fs|
  {
    if fs == [] then l else AfterAll(After(l, fs[0], pool), fs[1..], pool)
  }

  lemma {:induction false} AfterAllIsSteps(l: Line, fs: seq<Fragment>, pool: nat -> bool)
    ensures AfterAll(l, fs, pool).glue == Steps(l.glue, fs, Outcomes(l.ready, l.allocs, fs, pool))
    decreases |fs|
  {
    if fs != [] {
      AfterAllIsSteps(After(l, fs[0], pool), fs[1..], pool);
      assert Outcomes(l.ready, l.allocs, fs, pool)[1..]
             == Outcomes(ReadyAfter(l.ready, l.allocs, pool), AllocsAfter(l.ready, l.allocs, pool), fs[1..], pool);
    }
  }

  /**
   * A packet reaches lwIP whole, and nothing else does, if and only if every
   * allocation up to the link for its last fragment succeeds.
   */
  lemma WholeExactly(l: Line, fs: seq<Fragment>, pool: nat -> bool)
    requires Packet(fs) && (l.glue.busy ==> l.ready)
    ensures AfterAll(l, fs, pool).glue.offered == l.glue.offered + [l.glue.partial + Payloads(fs)]
            <==> forall i: nat :: l.allocs <= i < l.allocs + |fs| - (if l.ready then 1 else 0) ==> pool(i)
  {
    AfterAllIsSteps(l, fs, pool);
    OutcomesArePossible(l.glue, l.ready, l.allocs, fs, pool);
    WholeOnlyWithoutFailure(l.glue, fs, Outcomes(l.ready, l.allocs, fs, pool));
    FailuresAreAllocations(l.ready, l.allocs, fs, pool);
  }

  /** The first fragment after the last failure; 0 if there was none. */
  function Restart(os: seq<Outcome>): (n: nat)
    ensures n <= |os|
  {
    if os == [] then 0
    else if os[|os| - 1] == NoFirst || os[|os| - 1] == NoNext then |os|
    else Restart(os[..|os| - 1])
  }

  lemma {:induction false} RestartCons(o: Outcome, os: seq<Outcome>)
    ensures Restart([o] + os) == if Restart(os) > 0 then Restart(os) + 1
                                 else if o == NoFirst || o == NoNext then 1 else 0
    decreases |os|
  {
    var all := [o] + os;
    if os == [] {
      assert all[..0] == [];
    } else {
      assert all[..|all| - 1] == [o] + os[..|os| - 1];
      RestartCons(o, os[..|os| - 1]);
    }
  }

  /** What of a packet is offered: what follows the last failure, if the last fragment finds a link. */
  function Remainder(g: Glue, fs: seq<Fragment>, os: seq<Outcome>): seq<byte>
    requires |fs| == |os|
  {
    (if Restart(os) == 0 then g.partial else []) + Payloads(fs[Restart(os)..])
  }

  lemma {:induction false} RemainderIsOffered(g: Glue, fs: seq<Fragment>, os: seq<Outcome>)
    requires |fs| == |os| && Packet(fs) && PossibleRun(g, fs, os)
    ensures Steps(g, fs, os).offered == if os[|os| - 1] == Offered then g.offered + [Remainder(g, fs, os)]
                                        else g.offered
    decreases |fs|
  {
    var g' := Step(g, fs[0], os[0]);
    RestartCons(os[0], os[1..]);
    assert os == [os[0]] + os[1..];
    if |fs| == 1 {
      assert fs[1..] == [] && os[1..] == [] && Steps(g', fs[1..], os[1..]) == g';
      assert Payloads(fs) == fs[0].data + Payloads(fs[1..]) == fs[0].data;
      assert fs[0..] == fs;
      assert os[0] == Offered ==> Restart(os) == 0 && Remainder(g, fs, os) == g.partial + fs[0].data;
    } else {
      assert Packet(fs[1..]);
      RemainderIsOffered(g', fs[1..], os[1..]);
      var r := Restart(os[1..]);
      assert fs[1..][r..] == fs[r + 1..] && fs[0..] == fs;
      assert g.partial + fs[0].data + Payloads(fs[1..]) == g.partial + Payloads(fs);
      assert Remainder(g', fs[1..], os[1..]) == Remainder(g, fs, os);
    }
  }

  lemma RestartExactly(ready: bool, k: nat, fs: seq<Fragment>, pool: nat -> bool)
    requires Packet(fs) && Outcomes(ready, k, fs, pool)[|fs| - 1] != NoFirst
    ensures var r := Restart(Outcomes(ready, k, fs, pool));
            r < |fs| && (r > 0 <==> !AllSucceed(pool, k, Needed(ready, |fs|)))
  {
    LastOutcome(ready, k, fs, pool);
    RestartOfRun(fs, Outcomes(ready, k, fs, pool));
    hide Restart, NoFailure, AllSucceed;
    FailuresAreAllocations(ready, k, fs, pool);
  }

  lemma RestartOfRun(fs: seq<Fragment>, os: seq<Outcome>)
    requires |fs| == |os| > 0 && os[|os| - 1] == Offered && forall i :: 0 <= i < |os| - 1 ==> os[i] != Offered
    ensures Restart(os) < |os| && (Restart(os) == 0 <==> NoFailure(fs, os))
  {
    RestartIsFailure(os);
  }

  /**
   * When a mere tail of a packet is offered: exactly if an allocation failed
   * but the last fragment found a link. The tail begins behind the last failure.
   */
  lemma TailExactly(l: Line, fs: seq<Fragment>, os: seq<Outcome>, pool: nat -> bool)
    requires Packet(fs) && (l.glue.busy ==> l.ready) && os == Outcomes(l.ready, l.allocs, fs, pool)
    ensures |os| == |fs| > 0
    ensures AfterAll(l, fs, pool).glue.offered ==
            if os[|fs| - 1] == NoFirst then l.glue.offered else l.glue.offered + [Remainder(l.glue, fs, os)]
    ensures os[|fs| - 1] != NoFirst ==>
              Restart(os) < |fs| && (Restart(os) > 0 <==> !AllSucceed(pool, l.allocs, Needed(l.ready, |fs|)))
  {
    hide *;
    AfterAllIsSteps(l, fs, pool);
    OutcomesArePossible(l.glue, l.ready, l.allocs, fs, pool);
    LastOutcome(l.ready, l.allocs, fs, pool);
    RemainderIsOffered(l.glue, fs, os);
    if os[|fs| - 1] != NoFirst {
      RestartExactly(l.ready, l.allocs, fs, pool);
    }
  }

  lemma {:induction false} LastOutcome(ready: bool, k: nat, fs: seq<Fragment>, pool: nat -> bool)
    requires Packet(fs)
    ensures |fs| > 0 && Outcomes(ready, k, fs, pool)[|fs| - 1] in {NoFirst, Offered}
    ensures forall i :: 0 <= i < |fs| - 1 ==> Outcomes(ready, k, fs, pool)[i] != Offered
    decreases |fs|
  {
    if |fs| > 1 {
      assert Packet(fs[1..]);
      LastOutcome(ReadyAfter(ready, k, pool), AllocsAfter(ready, k, pool), fs[1..], pool);
    }
  }

  lemma {:induction false} RestartIsFailure(os: seq<Outcome>)
    ensures Restart(os) == 0 <==> forall i :: 0 <= i < |os| ==> os[i] != NoFirst && os[i] != NoNext
    decreases |os|
  {
    if os != [] {
      RestartIsFailure(os[..|os| - 1]);
    }
  }

  // --- a packet as the WINC driver delivers it ------------------------------------------

  lemma PieceIs(packet: seq<byte>, off: nat, busy: bool)
    requires off <= |packet|
    ensures var n := if |packet| - off > Room(busy) then Room(busy) else |packet| - off;
            Piece(packet, off, busy) == Fragment(packet[off..off + n], |packet| - off - n)
  {
  }

  lemma AfterNoFirst(l: Line, f: Fragment, pool: nat -> bool)
    requires !l.ready && !pool(l.allocs)
    ensures OutcomeOf(l.ready, l.allocs, f, pool) == NoFirst
    ensures After(l, f, pool) == Line(Glue([], false, l.glue.offered), false, l.allocs + 1, l.fetches)
  {
  }

  lemma AfterFirst(l: Line, f: Fragment, pool: nat -> bool)
    requires !l.ready && pool(l.allocs)
    ensures var first := l.(ready := true, allocs := l.allocs + 1);
            && OutcomeOf(l.ready, l.allocs, f, pool) == OutcomeOf(true, first.allocs, f, pool)
            && After(l, f, pool) == After(first, f, pool)
  {
  }

  lemma StepIs(g: Glue, f: Fragment)
    ensures Step(g, f, Offered) == Glue([], false, g.offered + [g.partial + f.data])
    ensures Step(g, f, Extended) == Glue(g.partial + f.data, true, g.offered)
    ensures Step(g, f, NoNext) == Step(g, f, NoFirst) == Glue([], false, g.offered)
  {
  }

  lemma AfterReady(l: Line, f: Fragment, pool: nat -> bool)
    requires l.ready
    ensures OutcomeOf(true, l.allocs, f, pool)
            == if f.rem == 0 then Offered else if pool(l.allocs) then Extended else NoNext
    ensures After(l, f, pool)
            == Line(Step(l.glue, f, OutcomeOf(true, l.allocs, f, pool)), pool(l.allocs), l.allocs + 1, l.fetches)
  {
  }

  /** The size of the registered buffer. */
  function Room(busy: bool): (n: nat)
    ensures n > 0
  {
    if busy then PBUF_POOL_BUFSIZE else PBUF_POOL_BUFSIZE - ETH_PAD_SIZE
  }

  function Piece(packet: seq<byte>, off: nat, busy: bool): Fragment
    requires off <= |packet|
  {
    var n := if |packet| - off > Room(busy) then Room(busy) else |packet| - off;
    Fragment(packet[off..off + n], |packet| - off - n)
  }

  /** The loop of `m2m_wifi_cb` from offset `off` on: `bus(i)` says whether the i-th read succeeds. */
  function Deliver(l: Line, packet: seq<byte>, off: nat, pool: nat -> bool, bus: nat -> bool): Line
    requires off <= |packet|
    decreases |packet| - off
  {
    if !bus(l.fetches) then l.(fetches := l.fetches + 1)
    else
      var f := Piece(packet, off, l.glue.busy);
      var l' := After(l, f, pool).(fetches := l.fetches + 1);
      if f.rem == 0 then l' else Deliver(l', packet, off + |f.data|, pool, bus)
  }

  /** The pieces of `n` bytes if nothing fails. */
  function Pieces(n: nat, busy: bool): (p: nat)
    ensures p > 0
  {
    if n <= Room(busy) then 1 else 1 + Pieces(n - Room(busy), true)
  }

  /** Once something was lost, no more than what is left is offered. */
  lemma {:induction false} LostIsLost(l: Line, packet: seq<byte>, off: nat, pool: nat -> bool, bus: nat -> bool)
    requires off <= |packet|
    ensures var offered := Deliver(l, packet, off, pool, bus).glue.offered;
            || offered == l.glue.offered
            || (|offered| == |l.glue.offered| + 1 && |offered[|l.glue.offered|]| <= |l.glue.partial| + |packet| - off)
    decreases |packet| - off
  {
    if bus(l.fetches) {
      var f := Piece(packet, off, l.glue.busy);
      if f.rem != 0 {
        LostIsLost(After(l, f, pool).(fetches := l.fetches + 1), packet, off + |f.data|, pool, bus);
      }
    }
  }

  predicate NothingFails(l: Line, n: nat, pool: nat -> bool, bus: nat -> bool) {
    && AllSucceed(bus, l.fetches, Pieces(n, l.glue.busy))
    && AllSucceed(pool, l.allocs, Needed(l.ready, Pieces(n, l.glue.busy)))
  }

  lemma {:induction false} PiecesAre(n: nat, busy: bool)
    ensures Pieces(n, busy) == 1 + (if n == 0 then 0 else if busy then (n - 1) / 256 else (n + 1) / 256)
    decreases n
  {
    if n > Room(busy) {
      PiecesAre(n - Room(busy), true);
    }
  }

  /**
   * One read for each piece, where 254 bytes fit behind the pad of the first
   * link and 256 into every other one, and a link for each piece.
   */
  lemma NothingFailsIs(l: Line, n: nat, pool: nat -> bool, bus: nat -> bool)
    ensures var p := 1 + (if n == 0 then 0 else if l.glue.busy then (n - 1) / 256 else (n + 1) / 256);
            NothingFails(l, n, pool, bus) <==>
            && (forall i: nat :: l.fetches <= i < l.fetches + p ==> bus(i))
            && (forall i: nat :: l.allocs <= i < l.allocs + p - (if l.ready then 1 else 0) ==> pool(i))
  {
    PiecesAre(n, l.glue.busy);
  }

  /**
   * A packet is offered whole, behind whatever partial packet is there, if and
   * only if no bus read fails and no allocation up to the link for its last piece.
   */
  lemma {:induction false} DeliveredExactly(l: Line, packet: seq<byte>, off: nat, pool: nat -> bool, bus: nat -> bool)
    requires off <= |packet| && (l.glue.busy ==> l.ready)
    ensures Deliver(l, packet, off, pool, bus).glue.offered == l.glue.offered + [l.glue.partial + packet[off..]]
            <==> NothingFails(l, |packet| - off, pool, bus)
    decreases |packet| - off
  {
    if !bus(l.fetches) {
      assert !NothingFails(l, |packet| - off, pool, bus);
    } else if Piece(packet, off, l.glue.busy).rem == 0 {
      DeliveredLast(l, packet, off, pool, bus);
    } else {
      var f := Piece(packet, off, l.glue.busy);
      var l' := After(l, f, pool).(fetches := l.fetches + 1);
      DeliveredExactly(l', packet, off + |f.data|, pool, bus);
      DeliveredMore(l, packet, off, pool, bus, f, l');
    }
  }

  lemma DeliveredMore(l: Line, packet: seq<byte>, off: nat, pool: nat -> bool, bus: nat -> bool, f: Fragment, l': Line)
    requires off <= |packet| && bus(l.fetches) && f == Piece(packet, off, l.glue.busy) && f.rem != 0
    requires l' == After(l, f, pool).(fetches := l.fetches + 1) && off + |f.data| <= |packet|
    requires Deliver(l', packet, off + |f.data|, pool, bus).glue.offered
             == l'.glue.offered + [l'.glue.partial + packet[off + |f.data|..]]
             <==> NothingFails(l', |packet| - off - |f.data|, pool, bus)
    ensures Deliver(l, packet, off, pool, bus).glue.offered == l.glue.offered + [l.glue.partial + packet[off..]]
            <==> NothingFails(l, |packet| - off, pool, bus)
  {
    hide *;
    var n := off + |f.data|;
    LostIsLost(l', packet, n, pool, bus);
    NothingFailsStep(l, packet, off, pool, bus);
    DeliverStep(l, packet, off, pool, bus);
    AfterGlue(l, f, pool);
    PieceOutcome(l.ready, l.allocs, f, pool);
    PieceIs(packet, off, l.glue.busy);
    StepIs(l.glue, f);
    assert packet[off..] == f.data + packet[n..];
    assert l.glue.partial + packet[off..] == (l.glue.partial + f.data) + packet[n..];
  }

  lemma DeliveredLast(l: Line, packet: seq<byte>, off: nat, pool: nat -> bool, bus: nat -> bool)
    requires off <= |packet| && bus(l.fetches) && Piece(packet, off, l.glue.busy).rem == 0
    ensures Deliver(l, packet, off, pool, bus).glue.offered == l.glue.offered + [l.glue.partial + packet[off..]]
            <==> NothingFails(l, |packet| - off, pool, bus)
  {
    var f := Piece(packet, off, l.glue.busy);
    assert f.data == packet[off..] && Pieces(|packet| - off, l.glue.busy) == 1;
    assert OutcomeOf(l.ready, l.allocs, f, pool) == (if l.ready || pool(l.allocs) then Offered else NoFirst);
  }

  /** Whether the last allocation of the callback succeeded decides whether there is a link for what follows. */
  lemma LastAllocation(l: Line, f: Fragment, pool: nat -> bool)
    ensures var l' := After(l, f, pool);
            && l'.allocs > l.allocs && l'.fetches == l.fetches && (l'.ready <==> pool(l'.allocs - 1))
            && (l'.glue.busy <==> f.rem > 0 && l'.ready)
  {
  }

  /**
   * A partial packet is left behind if and only if the last bus read fails, and
   * there was a partial packet when it did: the one found before the first
   * piece, or one that the last allocation let grow.
   */
  lemma {:induction false} PartialIsLeft(l: Line, packet: seq<byte>, off: nat, pool: nat -> bool, bus: nat -> bool)
    requires off <= |packet| && (l.glue.busy ==> l.ready)
    ensures var d := Deliver(l, packet, off, pool, bus);
            && d.fetches > l.fetches && d.allocs >= l.allocs
            && (d.fetches > l.fetches + 1 ==> d.allocs > l.allocs)
            && (d.glue.busy <==> && !bus(d.fetches - 1)
                                 && (if d.fetches == l.fetches + 1 then l.glue.busy
                                     else d.allocs > 0 && pool(d.allocs - 1)))
    decreases |packet| - off
  {
    hide After, Piece, ReadyAfter, AllocsAfter, OutcomeOf, Step;
    var f := Piece(packet, off, l.glue.busy);
    var l1 := l.(fetches := l.fetches + 1);
    DeliverStep(l, packet, off, pool, bus);
    LastAllocation(l1, f, pool);
    if bus(l.fetches) && f.rem > 0 {
      PartialIsLeft(After(l1, f, pool), packet, off + |f.data|, pool, bus);
    }
  }

  /** The bytes of the first `k` pieces. */
  function PieceBytes(k: nat, busy: bool): nat {
    if k == 0 then 0 else Room(busy) + Room(true) * (k - 1)
  }

  /**
   * The same as a condition on the bus, when no allocation up to the link for the
   * last piece fails, together with the bytes left behind: those of the reads
   * that succeeded, behind the partial packet found.
   */
  lemma {:induction false} BytesLeft(l: Line, packet: seq<byte>, off: nat, pool: nat -> bool, bus: nat -> bool)
    requires off <= |packet| && (l.glue.busy ==> l.ready)
    requires AllSucceed(pool, l.allocs, Needed(l.ready, Pieces(|packet| - off, l.glue.busy)))
    ensures var d := Deliver(l, packet, off, pool, bus);
            && (d.glue.busy <==> !AllSucceed(bus, l.fetches, Pieces(|packet| - off, l.glue.busy))
                                 && (l.glue.busy || bus(l.fetches)))
            && d.fetches > l.fetches
            && (!AllSucceed(bus, l.fetches, Pieces(|packet| - off, l.glue.busy)) ==>
                  var n := PieceBytes(d.fetches - l.fetches - 1, l.glue.busy);
                  && off + n <= |packet| && d.glue.partial == l.glue.partial + packet[off..off + n]
                  && d.glue.offered == l.glue.offered)
    decreases |packet| - off
  {
    hide After, Piece, ReadyAfter, AllocsAfter, OutcomeOf, Step, AllSucceed;
    var f := Piece(packet, off, l.glue.busy);
    var p := Pieces(|packet| - off, l.glue.busy);
    var l1 := l.(fetches := l.fetches + 1);
    DeliverStep(l, packet, off, pool, bus);
    PieceIs(packet, off, l.glue.busy);
    LastAllocation(l1, f, pool);
    FirstSucceeds(bus, l.fetches, p);
    if !bus(l.fetches) {
      assert packet[off..off] == [] && l.glue.partial + [] == l.glue.partial;
    } else if f.rem == 0 {
      OneSucceeds(bus, l.fetches);
    } else {
      var l' := After(l1, f, pool);
      Extends(l1, f, pool, p);
      BytesLeft(l', packet, off + |f.data|, pool, bus);
      var d := Deliver(l, packet, off, pool, bus);
      var m := d.fetches - l'.fetches - 1;
      if !AllSucceed(bus, l.fetches, p) {
        assert PieceBytes(m + 1, l.glue.busy) == |f.data| + PieceBytes(m, true);
        MoreBytes(l.glue.partial, packet, off, f.data, PieceBytes(m, true));
      }
    }
  }

  lemma MoreBytes(partial: seq<byte>, packet: seq<byte>, off: nat, data: seq<byte>, n: nat)
    requires off + |data| + n <= |packet| && data == packet[off..off + |data|]
    ensures (partial + data) + packet[off + |data|..off + |data| + n] == partial + packet[off..off + (|data| + n)]
  {
  }

  lemma FirstSucceeds(answers: nat -> bool, k: nat, n: nat)
    requires n > 0
    ensures AllSucceed(answers, k, n) <==> answers(k) && AllSucceed(answers, k + 1, n - 1)
  {
  }

  lemma OneSucceeds(answers: nat -> bool, k: nat)
    ensures AllSucceed(answers, k, 1) <==> answers(k)
  {
  }

  /** With its allocations succeeding a fragment before the last extends the chain, and `p - 1` pieces remain. */
  lemma Extends(l: Line, f: Fragment, pool: nat -> bool, p: nat)
    requires f.rem > 0 && p > 1 && AllSucceed(pool, l.allocs, Needed(l.ready, p))
    ensures var l' := After(l, f, pool);
            && l'.glue == Glue(l.glue.partial + f.data, true, l.glue.offered) && l'.ready && l'.fetches == l.fetches
            && AllSucceed(pool, l'.allocs, Needed(l'.ready, p - 1))
  {
  }

  lemma DeliverStep(l: Line, packet: seq<byte>, off: nat, pool: nat -> bool, bus: nat -> bool)
    requires off <= |packet|
    ensures var f := Piece(packet, off, l.glue.busy);
            var l' := After(l.(fetches := l.fetches + 1), f, pool);
            && off + |f.data| + f.rem == |packet| && (f.rem > 0 ==> f.data != [])
            && Deliver(l, packet, off, pool, bus) ==
               if !bus(l.fetches) then l.(fetches := l.fetches + 1)
               else if f.rem == 0 then l' else Deliver(l', packet, off + |f.data|, pool, bus)
  {
  }

  lemma AfterGlue(l: Line, f: Fragment, pool: nat -> bool)
    ensures After(l, f, pool).glue == Step(l.glue, f, OutcomeOf(l.ready, l.allocs, f, pool))
    ensures After(l.(fetches := l.fetches + 1), f, pool) == After(l, f, pool).(fetches := l.fetches + 1)
  {
  }

  lemma PieceOutcome(ready: bool, k: nat, f: Fragment, pool: nat -> bool)
    ensures if f.rem == 0 then OutcomeOf(ready, k, f, pool) in {NoFirst, Offered}
            else OutcomeOf(ready, k, f, pool) != Offered
  {
  }

  lemma AsItself(offered: seq<seq<byte>>, partial: seq<byte>, packet: seq<byte>)
    ensures offered + [partial + packet] == offered + [packet] <==> partial == []
  {
    assert (offered + [partial + packet])[|offered|] == partial + packet && (offered + [packet])[|offered|] == packet;
    if partial + packet == packet {
      assert |partial| == 0;
    } else {
      assert [] + packet == packet;
    }
  }

  lemma StartTracking(g: Glue, packet: seq<byte>)
    ensures packet[0..] == packet
    ensures !g.busy && g.partial == [] ==> Tracks(g, packet, 0, g.offered, true)
  {
  }

  lemma LostOnTheBus(g: Glue, packet: seq<byte>, off: nat, offered: seq<seq<byte>>, whole: bool)
    requires off <= |packet|
    ensures Tracks(g, packet, off, offered, whole) ==> g.offered != offered + [packet]
  {
  }

  /** Nothing of the packet has been lost up to `off`, or less than that is there. */
  ghost predicate Tracks(g: Glue, packet: seq<byte>, off: nat, offered: seq<seq<byte>>, whole: bool)
    requires off <= |packet|
  {
    && g.offered == offered
    && (whole ==> g == Glue(packet[..off], off > 0, offered))
    && (!whole ==> |g.partial| < off)
  }

  lemma TracksOn(g: Glue, packet: seq<byte>, off: nat, offered: seq<seq<byte>>, whole: bool, o: Outcome)
    requires off <= |packet| && Tracks(g, packet, off, offered, whole)
    requires var f := Piece(packet, off, g.busy); if f.rem == 0 then o in {NoFirst, Offered} else o != Offered
    ensures var f := Piece(packet, off, g.busy);
            var g' := Step(g, f, o);
            if f.rem > 0 then Tracks(g', packet, off + |f.data|, offered, whole && o == Extended)
            else
              && (g'.offered == offered + [packet] <==> whole && o == Offered)
              && (whole ==> g.partial + f.data == packet)
  {
    var f := Piece(packet, off, g.busy);
    var n := off + |f.data|;
    assert packet[..off] + packet[off..n] == packet[..n] && packet[..|packet|] == packet;
    if f.rem == 0 && o == Offered {
      assert (offered + [g.partial + f.data])[|offered|] == g.partial + f.data;
      assert (offered + [packet])[|offered|] == packet;
    }
  }

  lemma NothingFailsStep(l: Line, packet: seq<byte>, off: nat, pool: nat -> bool, bus: nat -> bool)
    requires off <= |packet| && Piece(packet, off, l.glue.busy).rem != 0
    ensures var f := Piece(packet, off, l.glue.busy);
            var l' := After(l, f, pool).(fetches := l.fetches + 1);
            && f.data != []
            && (NothingFails(l, |packet| - off, pool, bus)
            <==> bus(l.fetches) && OutcomeOf(l.ready, l.allocs, f, pool) == Extended
                 && NothingFails(l', |packet| - off - |f.data|, pool, bus))
  {
    var f := Piece(packet, off, l.glue.busy);
    var p := Pieces(|packet| - off, l.glue.busy);
    assert p == 1 + Pieces(|packet| - off - |f.data|, true);
    if OutcomeOf(l.ready, l.allocs, f, pool) == Extended {
      assert AllSucceed(bus, l.fetches, p) <==> bus(l.fetches) && AllSucceed(bus, l.fetches + 1, p - 1);
    }
  }

  // --- both failures at an input ------------------------------------------------------------

  /** Before anything has happened. */
  function Initially(): Line { Line(Glue([], false, []), false, 0, 0) }

  /** The second bus read fails: the next packet is offered behind the first 254 bytes of this one. */
  lemma PacketsMix(packet: seq<byte>, next: seq<byte>)
    requires |packet| == 300 && |next| == 1
    ensures var pool, bus := (i: nat) => true, (i: nat) => i != 1;
            var d := Deliver(Initially(), packet, 0, pool, bus);
            Deliver(d, next, 0, pool, bus).glue.offered == [packet[..254] + next]
  {
    var pool, bus := (i: nat) => true, (i: nat) => i != 1;
    var d := Deliver(Initially(), packet, 0, pool, bus);
    PartialIsLeft(Initially(), packet, 0, pool, bus);
    BytesLeft(Initially(), packet, 0, pool, bus);
    assert Pieces(300, false) == 2;
    var f := Piece(packet, 0, false);
    assert f == Fragment(packet[0..254], 46);
    DeliverStep(Initially(), packet, 0, pool, bus);
    assert d.fetches == 2 && d.glue == Glue(packet[..254], true, []);
    DeliveredExactly(d, next, 0, pool, bus);
    assert next[0..] == next;
  }

  /** The link behind the first of two fragments is missing: the second is offered alone. */
  lemma TailAlone(a: seq<byte>, b: seq<byte>)
    requires a != [] && b != []
    ensures AfterAll(Initially(), [Fragment(a, |b|), Fragment(b, 0)], (i: nat) => i != 1).glue.offered == [b]
  {
    var fs, pool := [Fragment(a, |b|), Fragment(b, 0)], (i: nat) => i != 1;
    var os := Outcomes(false, 0, fs, pool);
    assert fs[1..] == [fs[1]] && fs[1..][1..] == [];
    assert OutcomeOf(false, 0, fs[0], pool) == NoNext && AllocsAfter(false, 0, pool) == 2;
    assert OutcomeOf(false, 2, fs[1], pool) == Offered;
    assert Outcomes(false, 2, fs[1..], pool) == [Offered] + Outcomes(true, 4, fs[1..][1..], pool) == [Offered];
    assert os == [NoNext] + Outcomes(false, 2, fs[1..], pool) == [NoNext, Offered];
    assert os[..1] == [NoNext];
    TailExactly(Initially(), fs, os, pool);
    assert Restart(os[..1]) == 1 && Restart(os) == 1;
    assert Payloads(fs[1..]) == b + Payloads(fs[1..][1..]) == b;
    assert Remainder(Initially().glue, fs, os) == [] + Payloads(fs[1..]) == b;
  }

  // --- the driver's own state ---------------------------------------------------------

  /** The pad followed by the bytes of the packet. */
  predicate HoldsPacket(contents: seq<byte>, packet: seq<byte>) {
    |contents| == ETH_PAD_SIZE + |packet| && contents[ETH_PAD_SIZE..] == packet
  }

  /** The last block of a packet, with the pad in front if it is also the first. */
  lemma LastBlock(blocks: seq<seq<byte>>, partial: seq<byte>, last: seq<byte>, data: seq<byte>)
    requires if blocks == [] then partial == [] && |last| == ETH_PAD_SIZE + |data| && last[ETH_PAD_SIZE..] == data
             else HoldsPacket(Flatten(blocks), partial) && last == data
    ensures HoldsPacket(Flatten(blocks + [last]), partial + data)
  {
    FlattenSnoc(blocks, last);
  }

  /** One more chain was given to lwIP, with the pad and `packet` in it, and sound if that can be told. */
  predicate Gave(before: seq<Delivery>, after: seq<Delivery>, packet: seq<byte>, sound: bool) {
    && |after| == |before| + 1 && after[..|before|] == before
    && HoldsPacket(after[|before|].contents, packet) && (sound ==> after[|before|].sound)
  }

  lemma GaveIs(before: seq<Delivery>, after: seq<Delivery>, packet: seq<byte>, sound: bool, sound': bool)
    requires Gave(before, after, packet, sound) && (sound' ==> sound)
    ensures Gave(before, after, packet, sound')
    ensures |after| == |before| + 1 && before <= after && (sound ==> after[|before|].sound)
    ensures |after[|before|].contents| == 2 + |packet| && after[|before|].contents[2..] == packet
  {
  }

  /** The memory a receive buffer lies in. */
  datatype Memory = RxBuf | Link(p: Pbuf)

  class Netif {
    // what allocations, bus reads and lwIP will answer, in order, and how many of each there were
    const pool: nat -> bool
    const bus: nat -> bool
    const accepts: nat -> bool
    var allocs: nat
    var fetches: nat
    var offers: nat
    var rxBuf: seq<byte>
    var rxFirst: Pbuf?
    var rxLast: Pbuf?
    // the buffer registered with m2m_wifi_set_receive_buffer
    var target: Memory
    var offset: nat
    var size: nat
    // the links from rxFirst on, and where every link ever allocated has gone
    ghost var chain: seq<Pbuf>
    ghost var taken: set<Pbuf>
    ghost var handed: set<Pbuf>
    ghost var freed: set<Pbuf>
    // what the finished links hold, and the same seen from outside
    ghost var blocks: seq<seq<byte>>
    ghost var glue: Glue
    // the chains given to netif->input, and what they were when they were given
    ghost var passed: seq<seq<Pbuf>>
    ghost var inputs: seq<Delivery>

    /** A non-null rx_first starts an acyclic chain of pool links that ends in rx_last. */
    ghost predicate Shape()
      reads this`rxBuf, this`rxFirst, this`rxLast, this`chain, chain`ref, chain`payload, chain`next
    {
      && |rxBuf| == PBUF_POOL_BUFSIZE - ETH_PAD_SIZE
      && (chain == [] <==> rxFirst == null)
      && (chain != [] ==> rxFirst == chain[0] && rxLast == chain[|chain| - 1])
      && (forall i :: 0 <= i < |chain| - 1 ==> chain[i].next == chain[i + 1])
      && (chain != [] ==> chain[|chain| - 1].next == null)
      && (forall i :: 0 <= i < |chain| ==> chain[i].ref == 1 && |chain[i].payload| == PBUF_POOL_BUFSIZE)
      && (forall i, j :: 0 <= i < j < |chain| ==> chain[i] != chain[j])
    }

    /** Every link ever allocated is under construction, with lwIP, or freed, and in one place only. */
    ghost predicate Owned()
      reads this`chain, this`taken, this`handed, this`freed
    {
      && (set p | p in chain) !! handed !! freed
      && (set p | p in chain) + handed + freed == taken
    }

    /** The registered buffer is rx_buf or what the live last link offers, never anything freed. */
    ghost predicate Registered()
      reads this`chain, this`target, this`offset, this`size
    {
      if chain == [] then target == RxBuf && offset == 0 && size == PBUF_POOL_BUFSIZE - ETH_PAD_SIZE
      else
        && target == Link(chain[|chain| - 1])
        && offset == Start(|chain|) && size == PBUF_POOL_BUFSIZE - Start(|chain|)
    }

    /** Fragment bytes start behind the pad in the first link, at the front in the others. */
    static function Start(links: nat): nat {
      if links == 1 then ETH_PAD_SIZE else 0
    }

    /** The first links of the chain hold `blocks`. */
    ghost predicate Holds()
      reads this`chain, this`blocks, chain`payload, chain`len
    {
      && |blocks| <= |chain|
      && forall i :: 0 <= i < |blocks| ==>
           chain[i].len <= |chain[i].payload| && chain[i].payload[..chain[i].len] == blocks[i]
    }

    /** Each packet offered is a chain lwIP was given, with the pad in front. */
    ghost predicate Recorded()
      reads this`glue, this`inputs
    {
      && |inputs| == |glue.offered|
      && forall i :: 0 <= i < |inputs| ==> HoldsPacket(inputs[i].contents, glue.offered[i])
    }

    /** The links given last are as they were when they were given. */
    ghost predicate LeftAlone()
      reads this`passed, this`inputs, if passed == [] then [] else passed[|passed| - 1]
    {
      && passed != [] && inputs != []
      && var ps := passed[|passed| - 1];
      inputs[|inputs| - 1] == Delivery(Contents(ps), Chain(ps))
    }

    /** In mid-packet all links but the last hold the pad and the bytes received so far. */
    ghost predicate Assembled()
      reads this`chain, this`blocks, this`glue, this`inputs, chain`payload, chain`len
    {
      && Holds() && Recorded()
      && |blocks| == (if chain == [] then 0 else |chain| - 1)
      && (glue.busy <==> blocks != [])
      && (if blocks == [] then glue.partial == [] else HoldsPacket(Flatten(blocks), glue.partial))
    }

    ghost predicate Valid()
      reads this, chain
    {
      Shape() && Owned() && Registered() && Assembled()
    }

    /** Every link counts what is in it and behind it. */
    ghost predicate Counted()
      reads this`chain, chain`len, chain`totLen
    {
      forall i :: 0 <= i < |chain| - 1 ==> chain[i].totLen == chain[i].len + chain[i + 1].totLen
    }

    /** The same, with `rem` bytes still to come behind the links received so far. */
    ghost predicate CountedTo(rem: nat)
      reads this`chain, chain`len, chain`totLen
    {
      Counted() && (|chain| > 1 ==> chain[|chain| - 1].totLen == rem)
    }

    /** The fragment is one the WINC driver would report next for the current packet. */
    ghost predicate Expected(f: Fragment)
      reads this`chain, chain`totLen
    {
      if |chain| > 1 then chain[|chain| - 1].totLen == |f.data| + f.rem
      else ETH_PAD_SIZE + |f.data| + f.rem < 0x10000
    }

    constructor (poolAnswers: nat -> bool, busAnswers: nat -> bool, stackAnswers: nat -> bool)
      ensures Valid() && Now() == Line(Glue([], false, []), false, 0, 0) && target == RxBuf
      ensures pool == poolAnswers && bus == busAnswers && accepts == stackAnswers && offers == 0
      ensures inputs == []
    {
      pool, bus, accepts := poolAnswers, busAnswers, stackAnswers;
      allocs, fetches, offers := 0, 0, 0;
      rxBuf := seq(PBUF_POOL_BUFSIZE - ETH_PAD_SIZE, _ => 0);
      rxFirst, rxLast := null, null;
      target, offset, size := RxBuf, 0, PBUF_POOL_BUFSIZE - ETH_PAD_SIZE;
      chain, taken, handed, freed := [], {}, {}, {};
      blocks, glue := [], Glue([], false, []);
      passed, inputs := [], [];
    }

    ghost function Now(): Line
      reads this`glue, this`rxFirst, this`allocs, this`fetches
    {
      Line(glue, rxFirst != null, allocs, fetches)
    }

    /** `pbuf_alloc(PBUF_RAW, PBUF_POOL_BUFSIZE, PBUF_POOL)`: one full link, or nothing. */
    method PoolAlloc() returns (p: Pbuf?)
      modifies this`allocs
      ensures allocs == old(allocs) + 1 && (p != null <==> pool(old(allocs)))
      ensures p != null ==>
                && fresh(p) && |p.payload| == PBUF_POOL_BUFSIZE
                && p.len == p.totLen == PBUF_POOL_BUFSIZE && p.next == null && p.ref == 1
    {
      p := null;
      if pool(allocs) {
        p := new Pbuf(PBUF_POOL_BUFSIZE);
      }
      allocs := allocs + 1;
    }

    /** `m2m_wifi_set_receive_buffer` */
    method SetReceiveBuffer(b: Memory, o: nat, n: nat)
      modifies this`target, this`offset, this`size
      ensures target == b && offset == o && size == n
    {
      target, offset, size := b, o, n;
    }

    /** `hif_receive` of a piece */
    method BusRead() returns (ok: bool)
      requires Valid()
      modifies this`fetches
      ensures Valid() && fetches == old(fetches) + 1 && ok == bus(old(fetches))
    {
      ok := bus(fetches);
      fetches := fetches + 1;
    }

    /** Without a chain the next fragment goes to rx_buf. */
    method ReloadRxBuf()
      requires Valid() && chain == []
      modifies this`target, this`offset, this`size
      ensures Valid()
    {
      SetReceiveBuffer(RxBuf, 0, PBUF_POOL_BUFSIZE - ETH_PAD_SIZE);
    }

    /** The bytes of the registered buffer. */
    ghost function Buffer(): seq<byte>
      requires Valid()
      reads this, chain
    {
      if chain == [] then rxBuf else chain[|chain| - 1].payload[Start(|chain|)..]
    }

    /** `to` with `data` written from `o` on. */
    static function Overwrite(to: seq<byte>, o: nat, data: seq<byte>): (r: seq<byte>)
      requires o + |data| <= |to|
      ensures |r| == |to| && r[o..o + |data|] == data
    {
      to[..o] + data + to[o + |data|..]
    }

    /** The WINC driver stores a fragment in the registered buffer. */
    method Store(data: seq<byte>)
      requires Valid() && |data| <= size
      modifies this`rxBuf, chain
      ensures Valid() && data <= Buffer() && chain == old(chain)
      ensures old(Counted()) ==> Counted()
      ensures forall f: Fragment :: old(Expected(f)) ==> Expected(f)
    {
      match target {
        case RxBuf =>
          rxBuf := Overwrite(rxBuf, 0, data);
        case Link(p) =>
          p.payload := Overwrite(p.payload, offset, data);
      }
    }

    /** `pbuf_free` on the chain: every link loses its only reference and is freed. */
    method FreeChain()
      requires Shape() && chain != []
      modifies this`freed, chain`ref
      ensures freed == old(freed) + set p | p in chain
      ensures forall i :: 0 <= i < |chain| ==> chain[i].ref == 0
    {
      var p: Pbuf? := rxFirst;
      ghost var k := 0;
      while p != null
        invariant 0 <= k <= |chain| && p == (if k < |chain| then chain[k] else null)
        invariant forall i :: 0 <= i < k ==> chain[i].ref == 0
        invariant forall i :: k <= i < |chain| ==> chain[i].ref == 1
        invariant freed == old(freed) + set q | q in chain[..k]
        decreases |chain| - k
      {
        p.ref := p.ref - 1;
        if p.ref == 0 {
          assert chain[..k + 1] == chain[..k] + [chain[k]];
          freed := freed + {p};
          p := p.next;
          k := k + 1;
        } else {
          p := null;
        }
      }
      assert chain[..k] == chain;
    }

    // --- the callback, step by step -------------------------------------------------------

    /** The fragment is in the last link, the chain otherwise as it was. */
    ghost predicate Loaded(data: seq<byte>)
      reads this, chain
    {
      && Shape() && Assembled() && chain != []
      && data <= chain[|chain| - 1].payload[Start(|chain|)..]
    }

    /** Besides the chain there may be the link allocated for what follows. */
    ghost predicate Spare(p: Pbuf?)
      reads this`chain, this`taken, this`handed, this`freed, p
    {
      && (set q | q in chain) !! (if p == null then {} else {p}) !! handed !! freed
      && (set q | q in chain) + (if p == null then {} else {p}) + handed + freed == taken
      && (p != null ==> p.ref == 1 && p.next == null && |p.payload| == PBUF_POOL_BUFSIZE)
    }

    /** Every link of the chain holds its part of `packet`. */
    ghost predicate Complete(packet: seq<byte>)
      reads this, chain
    {
      && Shape() && Holds() && Recorded() && |blocks| == |chain| > 0
      && HoldsPacket(Flatten(blocks), packet)
    }

    /** A chain is begun if there is none, and takes over what is in rx_buf. */
    method EnsureFirst(sz: nat, ghost f: Fragment) returns (ok: bool)
      requires Valid() && sz == |f.data| <= size && f.data <= Buffer()
      modifies this`rxFirst, this`rxLast, this`chain, this`taken, this`allocs
      ensures ok <==> old(chain) != [] || pool(old(allocs))
      ensures allocs == if old(chain) == [] then old(allocs) + 1 else old(allocs)
      ensures old(chain) != [] ==> chain == old(chain)
      ensures !ok ==> Valid() && chain == [] == old(chain)
      ensures ok <==> rxFirst != null
      ensures ok ==> Loaded(f.data) && Spare(null)
      ensures old(Counted() && Expected(f)) ==> Counted() && Expected(f)
      ensures ok && old(chain) == [] ==> |chain| == 1 && fresh(chain[0])
      ensures old(taken) <= taken
    {
      ok := true;
      if rxFirst == null {
        rxFirst := PoolAlloc();
        rxLast := rxFirst;
        if rxFirst == null {
          return false;
        }
        rxFirst.payload := Overwrite(rxFirst.payload, ETH_PAD_SIZE, rxBuf[..sz]);
        chain, taken := [rxFirst], taken + {rxFirst};
      }
    }

    /** The second allocation of the callback. */
    method AllocSpare(ghost data: seq<byte>) returns (p: Pbuf?)
      requires Loaded(data) && Spare(null)
      modifies this`taken, this`allocs
      ensures Loaded(data) && Spare(p) && (p != null ==> fresh(p))
      ensures allocs == old(allocs) + 1 && (p != null <==> pool(old(allocs)))
      ensures chain == old(chain)
      ensures taken == old(taken) + if p == null then {} else {p}
    {
      p := PoolAlloc();
      if p != null {
        taken := taken + {p};
      }
    }

    /** len of the last link, and tot_len of the first. */
    method SetLengths(sz: nat, rem: nat, ghost data: seq<byte>, ghost p: Pbuf?)
      requires Loaded(data) && sz == |data| && Spare(p)
      modifies chain`len, chain`totLen
      ensures Loaded(data) && Spare(p)
      ensures chain != [] && rxLast == chain[|chain| - 1] && rxLast.len == Start(|chain|) + sz
      ensures old(Counted() && Expected(Fragment(data, rem))) ==>
                Counted() && chain[|chain| - 1].totLen == chain[|chain| - 1].len + rem
    {
      hide HoldsPacket;
      assert rxFirst == chain[0] && rxLast == chain[|chain| - 1] && (rxFirst == rxLast <==> |chain| == 1);
      var n := sz;
      if rxFirst == rxLast {
        n := n + ETH_PAD_SIZE;
        rxLast.totLen := (n + rem) % 0x10000;
      }
      rxLast.len := n;
    }

    /** With that the fragment counts as received. */
    method CloseLink(sz: nat, rem: nat, ghost data: seq<byte>, ghost p: Pbuf?)
      requires Loaded(data) && sz == |data| && Spare(p)
      modifies chain`len, chain`totLen, this`blocks
      ensures Complete(glue.partial + data) && Spare(p)
      ensures old(Counted() && Expected(Fragment(data, rem))) ==>
                Counted() && chain[|chain| - 1].totLen == chain[|chain| - 1].len + rem
    {
      hide *;
      SetLengths(sz, rem, data, p);
      LastLink(data);
      ghost var last := rxLast.payload[..rxLast.len];
      blocks := blocks + [last];
      Closed(data, last);
    }

    lemma LastLink(data: seq<byte>)
      requires Loaded(data) && rxLast == chain[|chain| - 1] && rxLast.len == Start(|chain|) + |data|
      ensures rxLast.len <= |rxLast.payload| && Recorded()
      ensures ClosedBy(blocks + [rxLast.payload[..rxLast.len]], data)
    {
      hide HoldsPacket;
      var last := rxLast.payload[..rxLast.len];
      assert last[Start(|chain|)..] == data;
      LastBlock(blocks, glue.partial, last, data);
    }

    /** The chain holds the blocks `done`, and they are the packet so far with `data` at the end. */
    ghost predicate ClosedBy(done: seq<seq<byte>>, data: seq<byte>)
      reads this`rxBuf, this`rxFirst, this`rxLast, this`chain, this`glue
      reads chain`ref, chain`payload, chain`next, chain`len
    {
      && Shape() && |done| == |chain| > 0
      && (forall i :: 0 <= i < |done| ==>
            chain[i].len <= |chain[i].payload| && chain[i].payload[..chain[i].len] == done[i])
      && HoldsPacket(Flatten(done), glue.partial + data)
    }

    lemma Closed(data: seq<byte>, last: seq<byte>)
      requires ClosedBy(blocks, data) && Recorded()
      ensures Complete(glue.partial + data)
    {
      hide HoldsPacket, Shape;
    }

    /** A complete chain is what lwIP expects: pad and packet, and sound counts if those so far were. */
    lemma CompleteChain(packet: seq<byte>)
      requires Complete(packet)
      ensures HoldsPacket(Contents(chain), packet)
      ensures Counted() && chain[|chain| - 1].totLen == chain[|chain| - 1].len ==> Chain(chain)
    {
      hide HoldsPacket;
      BlocksAre(chain, blocks);
    }

    /** `netif->input` is given the chain, and lwIP takes it over, or the chain is freed. */
    method HandOver()
      requires Shape() && chain != []
      modifies this`handed, this`freed, this`offers, this`passed, this`inputs, chain`ref
      ensures offers == old(offers) + 1
      ensures passed == old(passed) + [chain]
      ensures inputs == old(inputs) + [Delivery(old(Contents(chain)), old(Chain(chain)))]
      ensures if accepts(old(offers)) then handed == old(handed) + (set q | q in chain) && freed == old(freed)
              else freed == old(freed) + (set q | q in chain) && handed == old(handed)
    {
      hide Contents, Chain;
      offers := offers + 1;
      passed, inputs := passed + [chain], inputs + [Delivery(Contents(chain), Chain(chain))];
      if accepts(offers - 1) {
        handed := handed + set q | q in chain;
      } else {
        FreeChain();
      }
    }

    /** The spare link, if there is one, starts the next chain. */
    method StartNext(p: Pbuf?, ghost packet: seq<byte>)
      requires |rxBuf| == PBUF_POOL_BUFSIZE - ETH_PAD_SIZE
      requires (if p == null then {} else {p}) !! handed !! freed
      requires (if p == null then {} else {p}) + handed + freed == taken
      requires p != null ==> p.ref == 1 && p.next == null && |p.payload| == PBUF_POOL_BUFSIZE
      requires |inputs| == |glue.offered| + 1 && HoldsPacket(inputs[|glue.offered|].contents, packet)
      requires forall i :: 0 <= i < |glue.offered| ==> HoldsPacket(inputs[i].contents, glue.offered[i])
      modifies this`rxFirst, this`rxLast, this`chain, this`blocks, this`glue
      ensures Shape() && Assembled() && Owned() && Counted()
      ensures chain == (if p == null then [] else [p]) && rxLast == p
      ensures glue == Glue([], false, old(glue.offered) + [packet])
    {
      rxFirst, rxLast := p, p;
      chain, blocks := if p == null then [] else [p], [];
      glue := Glue([], false, glue.offered + [packet]);
    }

    /** The last fragment closes the packet. */
    method Offer(p: Pbuf?, ghost packet: seq<byte>)
      requires Complete(packet) && Spare(p)
      modifies this, chain`ref
      ensures Shape() && Assembled() && Owned() && Counted()
      ensures chain == (if p == null then [] else [p]) && rxLast == p
      ensures Gave(old(inputs), inputs, packet,
                   old(Counted() && chain[|chain| - 1].totLen == chain[|chain| - 1].len))
      ensures passed == old(passed) + [old(chain)] && LeftAlone()
      ensures glue == Glue([], false, old(glue.offered) + [packet]) && taken == old(taken)
      ensures allocs == old(allocs) && fetches == old(fetches) && offers == old(offers) + 1
      ensures if accepts(old(offers)) then handed == old(handed) + (set q | q in old(chain)) && freed == old(freed)
              else freed == old(freed) + (set q | q in old(chain)) && handed == old(handed)
    {
      hide HoldsPacket, Contents, Chain, Assembled, Holds, Counted;
      CompleteChain(packet);
      HandOver();
      StartNext(p, packet);
    }

    /** More is to come but there is no link for it: the chain is freed and the packet lost. */
    method GiveUp(ghost packet: seq<byte>)
      requires Complete(packet) && Spare(null)
      modifies this, chain`ref
      ensures Valid() && chain == [] && rxFirst == null && Counted()
      ensures freed == old(freed) + (set q | q in old(chain)) && handed == old(handed) && taken == old(taken)
      ensures glue == Glue([], false, old(glue.offered)) && inputs == old(inputs) && passed == old(passed)
      ensures allocs == old(allocs) && fetches == old(fetches) && offers == old(offers)
    {
      hide *;
      ghost var links := set q | q in chain;
      WhatIsGivenUp(packet, links);
      FreeChain();
      StartAgain();
    }

    /** No chain, and the next fragment goes to rx_buf. */
    method StartAgain()
      requires |rxBuf| == PBUF_POOL_BUFSIZE - ETH_PAD_SIZE && handed !! freed && handed + freed == taken
      requires |inputs| == |glue.offered|
      requires forall i :: 0 <= i < |inputs| ==> HoldsPacket(inputs[i].contents, glue.offered[i])
      modifies this`rxFirst, this`chain, this`blocks, this`glue, this`target, this`offset, this`size
      ensures Valid() && chain == [] && rxFirst == null && Counted() && glue == Glue([], false, old(glue.offered))
    {
      hide *;
      rxFirst := null;
      chain, blocks := [], [];
      glue := Glue([], false, glue.offered);
      SetReceiveBuffer(RxBuf, 0, PBUF_POOL_BUFSIZE - ETH_PAD_SIZE);
      NothingIsValid();
    }

    lemma WhatIsGivenUp(packet: seq<byte>, links: set<Pbuf>)
      requires Complete(packet) && Spare(null) && links == set q | q in chain
      ensures Shape() && chain != [] && |rxBuf| == PBUF_POOL_BUFSIZE - ETH_PAD_SIZE
      ensures |inputs| == |glue.offered|
      ensures forall i :: 0 <= i < |inputs| ==> HoldsPacket(inputs[i].contents, glue.offered[i])
      ensures links !! handed !! freed && links + handed + freed == taken
    {
    }

    /** Without a chain and with rx_buf registered everything is in order. */
    lemma NothingIsValid()
      requires chain == [] && blocks == [] && rxFirst == null && |inputs| == |glue.offered|
      requires forall i :: 0 <= i < |inputs| ==> HoldsPacket(inputs[i].contents, glue.offered[i])
      requires !glue.busy && glue.partial == [] && handed !! freed && handed + freed == taken
      requires |rxBuf| == size == PBUF_POOL_BUFSIZE - ETH_PAD_SIZE && target == RxBuf && offset == 0
      ensures Valid() && Counted()
    {
    }

    /** More is to come: the spare link becomes the end of the chain. */
    method Extend(p: Pbuf, rem: nat, ghost packet: seq<byte>)
      requires Complete(packet) && Spare(p)
      modifies this`rxLast, this`chain, this`glue, chain`next, p`totLen
      ensures Shape() && Assembled() && Owned()
      ensures old(Counted() && chain[|chain| - 1].totLen == chain[|chain| - 1].len + rem) ==> Counted()
      ensures chain == old(chain) + [p] && rxLast == p && p.totLen == rem
      ensures glue == Glue(packet, true, old(glue.offered))
    {
      hide HoldsPacket, Counted, Flatten;
      ghost var links, counted := chain, Counted();
      OneMoreLink(links, p);
      p.totLen := rem;
      rxLast.next := p;
      chain := chain + [p];
      glue := Glue(packet, true, glue.offered);
      rxLast := p;
      if counted {
        StillCounted(links, p);
      }
    }

    lemma OneMoreLink(links: seq<Pbuf>, p: Pbuf)
      ensures (set q | q in links + [p]) == (set q | q in links) + {p}
      ensures Counted() && links == chain != [] ==>
                forall i :: 0 <= i < |links| - 1 ==> links[i].totLen == links[i].len + links[i + 1].totLen
    {
    }

    lemma StillCounted(links: seq<Pbuf>, p: Pbuf)
      requires links != [] && chain == links + [p]
      requires forall i :: 0 <= i < |links| - 1 ==> links[i].totLen == links[i].len + links[i + 1].totLen
      ensures links[|links| - 1].totLen == links[|links| - 1].len + p.totLen ==> Counted()
    {
    }

    /** The next receive buffer is what the last link, or rx_buf, offers. */
    method Register()
      requires Shape() && Owned() && Assembled() && (chain == [] ==> rxLast == null)
      modifies this`target, this`offset, this`size
      ensures Valid() && (rxFirst != null <==> chain != [])
    {
      if rxFirst == rxLast {
        if rxFirst != null {
          SetReceiveBuffer(Link(rxFirst), ETH_PAD_SIZE, PBUF_POOL_BUFSIZE - ETH_PAD_SIZE);
        } else {
          SetReceiveBuffer(RxBuf, 0, PBUF_POOL_BUFSIZE - ETH_PAD_SIZE);
        }
      } else {
        SetReceiveBuffer(Link(rxLast), 0, PBUF_POOL_BUFSIZE);
      }
    }

    /** Links go to lwIP only if it takes the chain, and to the pool only if it refuses or there is no next link. */
    ghost predicate Disposed(outcome: Outcome, handed0: set<Pbuf>, freed0: set<Pbuf>, offers0: nat)
      reads this`handed, this`freed, this`offers
    {
      && offers == (if outcome == Offered then offers0 + 1 else offers0)
      && (if outcome == Offered && accepts(offers0) then handed0 < handed else handed == handed0)
      && (if outcome == NoNext || (outcome == Offered && !accepts(offers0)) then freed0 < freed else freed == freed0)
    }

    /** The chain holds `packet` so far and `rem` bytes are to come, for which there may be the link `p`. */
    method Finish(rem: nat, p: Pbuf?, ghost packet: seq<byte>)
        returns (ghost outcome: Outcome)
      requires Complete(packet) && Spare(p)
      modifies this, chain, p
      ensures Valid() && taken == old(taken) && allocs == old(allocs) && fetches == old(fetches)
      ensures forall q :: q in chain ==> q in old(chain) || q == p
      ensures rxFirst != null <==> p != null
      ensures Disposed(outcome, old(handed), old(freed), old(offers))
      ensures outcome == if rem == 0 then Offered else if p == null then NoNext else Extended
      ensures glue == if rem == 0 then Glue([], false, old(glue.offered) + [packet])
                      else if p == null then Glue([], false, old(glue.offered))
                      else Glue(packet, true, old(glue.offered))
      ensures old(Counted() && chain[|chain| - 1].totLen == chain[|chain| - 1].len + rem) ==> CountedTo(rem)
      ensures if rem == 0 then
                && Gave(old(inputs), inputs, packet,
                        old(Counted() && chain[|chain| - 1].totLen == chain[|chain| - 1].len + rem))
                && passed == old(passed) + [old(chain)] && LeftAlone()
              else inputs == old(inputs) && passed == old(passed)
    {
      hide *;
      ghost var links, handed0, freed0 := (set q | q in chain), handed, freed;
      ChainIsOwned(p, packet);
      if rem == 0 {
        Offer(p, packet);
        outcome := Offered;
      } else if p == null {
        GiveUp(packet);
        outcome := NoNext;
        Disposing(outcome, links, handed0, freed0);
        CountedIs(rem);
        return;
      } else {
        Extend(p, rem, packet);
        outcome := Extended;
      }
      Disposing(outcome, links, handed0, freed0);
      CountedIs(rem);
      Register();
    }

    lemma CountedIs(rem: nat)
      ensures CountedTo(rem) <==> Counted() && (|chain| > 1 ==> chain[|chain| - 1].totLen == rem)
    {
    }

    lemma ChainIsOwned(p: Pbuf?, packet: seq<byte>)
      requires Complete(packet) && Spare(p)
      ensures var links := set q | q in chain;
              links != {} && links !! handed && links !! freed
    {
      var links := set q | q in chain;
      assert chain[0] in links;
    }

    /** Where the links of a finished chain have gone. */
    lemma Disposing(outcome: Outcome, links: set<Pbuf>, handed0: set<Pbuf>, freed0: set<Pbuf>)
      requires links != {} && links !! handed0 && links !! freed0 && (outcome == Offered ==> offers > 0)
      requires outcome == Offered && accepts(offers - 1) ==> handed == handed0 + links && freed == freed0
      requires outcome == Offered && !accepts(offers - 1) ==> freed == freed0 + links && handed == handed0
      requires outcome == NoNext ==> freed == freed0 + links && handed == handed0
      requires outcome == Extended || outcome == NoFirst ==> freed == freed0 && handed == handed0
      ensures Disposed(outcome, handed0, freed0, if outcome == Offered then offers - 1 else offers)
    {
      var q :| q in links;
      assert q in handed0 + links && q in freed0 + links && q !in handed0 && q !in freed0;
    }

    /**
     * `winc_netif_rx_callback`: the fragment lies in the registered buffer.
     * Whatever allocations and lwIP do, the state stays valid, links only move
     * from the chain to lwIP or to the pool, and the packet makes one `Step`.
     */
    method RxCallback(f: Fragment) returns (ghost outcome: Outcome)
      requires Valid() && |f.data| <= size && f.data <= Buffer()
      modifies this, chain
      ensures forall i :: 0 <= i < |chain| ==> chain[i] in old(chain) || fresh(chain[i])
      ensures Valid() && outcome == OutcomeOf(old(rxFirst != null), old(allocs), f, pool)
      ensures Now() == After(old(Now()), f, pool)
      ensures old(taken) <= taken && Disposed(outcome, old(handed), old(freed), old(offers))
      ensures old(Counted() && Expected(f)) ==> CountedTo(f.rem)
      ensures if outcome == Offered then
                && Gave(old(inputs), inputs, old(glue.partial) + f.data, old(Counted() && Expected(f)))
                && |passed| == |old(passed)| + 1 && LeftAlone()
              else inputs == old(inputs)
      // In full: what lwIP was given is the pad and the packet.
      ensures outcome == Offered ==>
                && |inputs| == |old(inputs)| + 1 && old(inputs) <= inputs
                && var given := inputs[|old(inputs)|];
                && |given.contents| == 2 + |old(glue.partial) + f.data|
                && given.contents[2..] == old(glue.partial) + f.data
                && (old(Counted() && Expected(f)) ==> given.sound)
    {
      hide *;
      NowIs();
      Between(0);
      NothingDisposed();
      ghost var l := Now();
      var ok := EnsureFirst(|f.data|, f);
      if !ok {
        AfterNoFirst(l, f, pool);
        ReloadRxBuf();
        CountedIs(f.rem);
        NowIs();
        return NoFirst;
      }
      if !l.ready {
        AfterFirst(l, f, pool);
      }
      NowIs();
      ghost var inputs0, packet := inputs, glue.partial + f.data;
      ghost var counted, counts := old(Counted() && Expected(f)), Counted() && Expected(f);
      outcome := Continue(f);
      if outcome == Offered {
        GaveIs(inputs0, inputs, packet, counts, counted);
      }
    }

    /** The callback once there is a chain. */
    method Continue(f: Fragment) returns (ghost outcome: Outcome)
      requires Loaded(f.data) && Spare(null)
      modifies this, chain
      ensures forall i :: 0 <= i < |chain| ==> chain[i] in old(chain) || fresh(chain[i])
      ensures Valid() && outcome == OutcomeOf(true, old(allocs), f, pool)
      ensures Now() == After(Line(old(glue), true, old(allocs), old(fetches)), f, pool)
      ensures old(taken) <= taken && Disposed(outcome, old(handed), old(freed), old(offers))
      ensures old(Counted() && Expected(f)) ==> CountedTo(f.rem)
      ensures if outcome == Offered then
                && Gave(old(inputs), inputs, old(glue.partial) + f.data, old(Counted() && Expected(f)))
                && |passed| == |old(passed)| + 1 && LeftAlone()
              else inputs == old(inputs)
    {
      hide *;
      AfterReady(Line(glue, true, allocs, fetches), f, pool);
      ghost var inputs0, counted := inputs, Counted() && Expected(f);
      var p := AllocSpare(f.data);
      CloseLink(|f.data|, f.rem, f.data, p);
      ghost var packet := glue.partial + f.data;
      StepIs(glue, f);
      ghost var counts := Counted() && chain[|chain| - 1].totLen == chain[|chain| - 1].len + f.rem;
      outcome := Finish(f.rem, p, packet);
      if outcome == Offered {
        GaveIs(inputs0, inputs, packet, counts, counted);
      }
      NowIs();
    }

    lemma NextIsExpected(f: Fragment, rem: nat)
      requires ETH_PAD_SIZE + rem < 0x10000 && |f.data| + f.rem == rem
      ensures CountedTo(rem) ==> Counted() && Expected(f)
    {
    }

    lemma NowIs()
      ensures Now() == Line(glue, rxFirst != null, allocs, fetches)
    {
    }

    lemma NothingDisposed()
      ensures Disposed(NoFirst, handed, freed, offers)
    {
    }

    lemma Between(rem: nat)
      requires Valid()
      ensures chain == [] <==> rxFirst == null
      ensures !glue.busy ==> |chain| <= 1 && glue.partial == [] && CountedTo(rem)
      ensures chain == [] ==> !glue.busy
    {
    }

    lemma BufferSize()
      requires Valid()
      ensures size == Room(glue.busy) && (glue.busy ==> rxFirst != null)
    {
    }

    /**
     * One round of the loop of `m2m_wifi_cb`: the next piece is fetched into
     * whatever buffer is registered, and the callback is called.
     */
    method FetchPiece(packet: seq<byte>, off: nat)
        returns (n: nat, ghost outcome: Outcome)
      requires Valid() && off <= |packet|
      modifies this, chain
      ensures forall i :: 0 <= i < |chain| ==> chain[i] in old(chain) || fresh(chain[i])
      ensures var f := Piece(packet, off, old(glue.busy));
              && Valid() && n == |f.data| && outcome == OutcomeOf(old(rxFirst != null), old(allocs), f, pool)
              && Now() == After(old(Now()), f, pool)
              && (old(Counted() && Expected(f)) ==> CountedTo(f.rem))
              && (if outcome == Offered
                  then Gave(old(inputs), inputs, old(glue.partial) + f.data, old(Counted() && Expected(f)))
                  else inputs == old(inputs))
    {
      hide *;
      BufferSize();
      PieceIs(packet, off, glue.busy);
      NowIs();
      n := if |packet| - off > size then size else |packet| - off;
      Store(packet[off..off + n]);
      NowIs();
      var f := Fragment(packet[off..off + n], |packet| - off - n);
      ghost var inputs0, counted, counts := inputs, old(Counted() && Expected(f)), Counted() && Expected(f);
      outcome := RxCallback(f);
      if outcome == Offered {
        GaveIs(inputs0, inputs, old(glue.partial) + f.data, counts, counted);
      }
    }

    /**
     * A packet as the WINC driver delivers it, bus failures included. It is
     * offered whole, behind the partial packet that a bus failure may have left,
     * if and only if no bus read and no allocation up to its last link fails.
     * Coming between packets it is offered in a sound chain.
     */
    method ReceivePacket(packet: seq<byte>)
      requires Valid() && ETH_PAD_SIZE + |packet| < 0x10000
      modifies this, chain
      ensures Valid() && Now() == Deliver(old(Now()), packet, 0, pool, bus)
      ensures glue.offered == old(glue.offered) + [old(glue.partial) + packet]
              <==> NothingFails(old(Now()), |packet|, pool, bus)
      // Without failures it is offered as itself exactly if no partial packet was there.
      ensures NothingFails(old(Now()), |packet|, pool, bus) ==>
                (glue.offered == old(glue.offered) + [packet] <==> old(glue.partial) == [])
      // It leaves a partial packet behind exactly if the bus fails while there is one.
      ensures fetches > old(fetches)
      ensures glue.busy <==> !bus(fetches - 1)
                             && (if fetches == old(fetches) + 1 then old(glue.busy) else allocs > 0 && pool(allocs - 1))
      // What lwIP is given for a packet that comes between packets.
      ensures old(inputs) <= inputs
      ensures !old(glue.busy) && glue.offered == old(glue.offered) + [packet] ==>
                && |inputs| == |old(inputs)| + 1
                && var given := inputs[|old(inputs)|];
                given.sound && |given.contents| == 2 + |packet| && given.contents[2..] == packet
    {
      hide *;
      NowIs();
      BufferSize();
      DeliveredExactly(Now(), packet, 0, pool, bus);
      PartialIsLeft(Now(), packet, 0, pool, bus);
      AsItself(glue.offered, glue.partial, packet);
      StartTracking(glue, packet);
      FetchAll(packet);
      NowIs();
    }

    /** The loop of `m2m_wifi_cb`. */
    method FetchAll(packet: seq<byte>)
      requires Valid() && ETH_PAD_SIZE + |packet| < 0x10000
      modifies this, chain
      ensures Valid() && Now() == Deliver(old(Now()), packet, 0, pool, bus) && old(inputs) <= inputs
      ensures !old(glue.busy) && glue.offered == old(glue.offered) + [packet] ==>
                && |inputs| == |old(inputs)| + 1
                && var given := inputs[|old(inputs)|];
                given.sound && |given.contents| == 2 + |packet| && given.contents[2..] == packet
    {
      hide *;
      ghost var l0, between, offered, whole := Now(), !glue.busy, glue.offered, true;
      NowIs();
      BufferSize();
      Between(|packet|);
      StartTracking(glue, packet);
      ghost var inputs0 := inputs;
      var off := 0;
      while true
        invariant Valid() && 0 <= off <= |packet| && (off == |packet| ==> off == 0)
        invariant forall i :: 0 <= i < |chain| ==> chain[i] in old(chain) || fresh(chain[i])
        invariant Deliver(Now(), packet, off, pool, bus) == Deliver(l0, packet, 0, pool, bus)
        invariant inputs == inputs0
        invariant between ==> Tracks(glue, packet, off, offered, whole) && (whole ==> CountedTo(|packet| - off))
        decreases |packet| - off
      {
        ghost var l := Now();
        NowIs();
        DeliverStep(l, packet, off, pool, bus);
        var read := BusRead();
        NowIs();
        if !read {
          LostOnTheBus(l.glue, packet, off, offered, whole);
          break;
        }
        ghost var f, outcome := Piece(packet, off, glue.busy), NoFirst;
        PieceOutcome(l.ready, l.allocs, f, pool);
        AfterGlue(l, f, pool);
        NextIsExpected(f, |packet| - off);
        NowIs();
        var n;
        ghost var counted := Counted() && Expected(f);
        n, outcome := FetchPiece(packet, off);
        NowIs();
        if outcome == Offered {
          GaveIs(inputs0, inputs, l.glue.partial + f.data, counted, counted);
        }
        if between {
          TracksOn(l.glue, packet, off, offered, whole, outcome);
        }
        off := off + n;
        if off == |packet| {
          break;
        }
        whole := whole && outcome == Extended;
      }
    }
  }
}
