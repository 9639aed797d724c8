/**
 * The receive ring of the ENC28J60 as arithmetic on addresses 0..nd: how far
 * apart two addresses are, where the chip puts a frame, and why frames laid
 * end to end inside the free space never touch one another.
 */
module EncRing {
  import opened Bytes

  type Frame = seq<byte>
  type Ram = s: seq<byte> | |s| == 8192 witness seq(8192, _ => 0)

  const HEADER: nat := 6

  // --- addresses -----------------------------------------------------------

  /** The address `k` bytes after `a`, going round behind the ring end `nd`. */
  function At(nd: nat, a: nat, k: nat): (r: nat)
    requires a <= nd && k <= nd + 1
    ensures r <= nd
  {
    if a + k <= nd then a + k else a + k - (nd + 1)
  }

  /** How many bytes after `a` the address `b` lies. */
  function Dist(nd: nat, a: nat, b: nat): (k: nat)
    requires a <= nd && b <= nd
    ensures k <= nd && At(nd, a, k) == b
  {
    if a <= b then b - a else b + (nd + 1) - a
  }

  function Behind(nd: nat, a: nat): (r: nat)
    requires a <= nd
    ensures r <= nd && r == At(nd, a, nd)
  {
    if a == 0 then nd else a - 1
  }

  lemma AtSum(nd: nat, a: nat, j: nat, k: nat)
    requires a <= nd && j + k <= nd + 1
    ensures At(nd, At(nd, a, j), k) == At(nd, a, j + k)
  {
  }

  lemma DistAt(nd: nat, a: nat, k: nat)
    requires a <= nd && k <= nd
    ensures Dist(nd, a, At(nd, a, k)) == k
  {
  }

  /** Within one turn, the first `used` bytes from `head` and the `n` bytes after them are disjoint. */
  lemma Apart(nd: nat, head: nat, used: nat, n: nat, k: nat)
    requires head <= nd && used + n <= nd + 1 && k < used
    ensures Dist(nd, At(nd, head, used), At(nd, head, k)) >= n
  {
  }

  // --- where a frame goes --------------------------------------------------

  /** Frames start at even addresses, so one byte of padding may follow the data. */
  function Footprint(nd: nat, a: nat, len: nat): (n: nat)
    requires a <= nd && HEADER + len <= nd + 1
    ensures HEADER + len <= n <= HEADER + len + 1
  {
    HEADER + len + At(nd, a, HEADER + len) % 2
  }

  /** Start of the frame that follows one of `len` bytes at `a`. */
  function Next(nd: nat, a: nat, len: nat): (r: nat)
    requires a <= nd && HEADER + len <= nd + 1
    ensures r <= nd && r % 2 == 0
  {
    var e := At(nd, a, HEADER + len);
    if e % 2 == 0 then e else if e == nd then 0 else e + 1
  }

  lemma NextAtFootprint(nd: nat, a: nat, len: nat)
    requires a <= nd && a % 2 == 0 && HEADER + len <= nd + 1
    ensures Footprint(nd, a, len) <= nd + 1
    ensures At(nd, a, Footprint(nd, a, len)) == Next(nd, a, len)
  {
  }

  /** The bytes the chip stores for a frame: next pointer, byte count, status, data. */
  function Image(nd: nat, a: nat, f: Frame, status: (byte, byte)): (s: seq<byte>)
    requires a <= nd < 8192 && HEADER + |f| <= nd + 1
    ensures |s| == HEADER + |f|
  {
    var next := Next(nd, a, |f|);
    [next % 256, next / 256, |f| % 256, |f| / 256, status.0, status.1] + f
  }

  /** The ring with `data` written from `a` on. */
  function PutRing(ram: Ram, nd: nat, a: nat, data: seq<byte>): (r: Ram)
    requires a <= nd < 8192 && |data| <= nd + 1
    ensures forall i: nat :: i < 8192 && (i > nd || Dist(nd, a, i) >= |data|) ==> r[i] == ram[i]
    ensures forall k: nat :: k < |data| ==> r[At(nd, a, k)] == data[k]
  {
    var r: seq<byte> := seq(8192, i requires 0 <= i < 8192 =>
      if i <= nd && Dist(nd, a, i) < |data| then data[Dist(nd, a, i)] else ram[i]);
    assert forall k: nat :: k < |data| ==> r[At(nd, a, k)] == data[k] by {
      forall k: nat | k < |data| ensures r[At(nd, a, k)] == data[k] { DistAt(nd, a, k); }
    }
    r
  }

  // --- frames laid end to end ----------------------------------------------

  /** Frames `q`, the first of them `o` bytes after `head`, stay inside one turn of the ring. */
  predicate Fits(nd: nat, head: nat, o: nat, q: seq<Frame>)
    requires head <= nd
    decreases |q|
  {
    q == [] ||
    (&& o + HEADER + |q[0]| <= nd + 1
     && o + Footprint(nd, At(nd, head, o), |q[0]|) <= nd + 1
     && Fits(nd, head, o + Footprint(nd, At(nd, head, o), |q[0]|), q[1..]))
  }

  /** The offset from `head` just past the last of the frames `q`. */
  function End(nd: nat, head: nat, o: nat, q: seq<Frame>): (e: nat)
    requires head <= nd && o <= nd + 1 && Fits(nd, head, o, q)
    ensures o <= e <= nd + 1
    ensures q != [] ==> o + HEADER + |q[0]| <= e
    decreases |q|
  {
    if q == [] then o
    else End(nd, head, o + Footprint(nd, At(nd, head, o), |q[0]|), q[1..])
  }

  predicate Entry(ram: Ram, nd: nat, head: nat, o: nat, f: Frame)
    requires head <= nd < 8192 && o + HEADER + |f| <= nd + 1
  {
    var next := Next(nd, At(nd, head, o), |f|);
    && ram[At(nd, head, o)] == next % 256
    && ram[At(nd, head, o + 1)] == next / 256
    && ram[At(nd, head, o + 2)] == |f| % 256
    && ram[At(nd, head, o + 3)] == |f| / 256
    && forall k: nat :: k < |f| ==> ram[At(nd, head, o + HEADER + k)] == f[k]
  }

  /** The ring holds the frames `q` back to back, each with its header. */
  predicate Laid(ram: Ram, nd: nat, head: nat, o: nat, q: seq<Frame>)
    requires head <= nd < 8192 && o <= nd + 1 && Fits(nd, head, o, q)
    decreases |q|
  {
    q == [] ||
    (&& Entry(ram, nd, head, o, q[0])
     && Laid(ram, nd, head, o + Footprint(nd, At(nd, head, o), |q[0]|), q[1..]))
  }

  /** Only the bytes under the frames matter. */
  lemma {:induction false} LaidFrame(ram: Ram, ram': Ram, nd: nat, head: nat, o: nat, q: seq<Frame>)
    requires head <= nd < 8192 && o <= nd + 1 && Fits(nd, head, o, q) && Laid(ram, nd, head, o, q)
    requires forall k: nat :: o <= k < End(nd, head, o, q) ==> ram'[At(nd, head, k)] == ram[At(nd, head, k)]
    ensures Laid(ram', nd, head, o, q)
    decreases |q|
  {
    if q != [] {
      var o' := o + Footprint(nd, At(nd, head, o), |q[0]|);
      assert End(nd, head, o, q) == End(nd, head, o', q[1..]);
      LaidFrame(ram, ram', nd, head, o', q[1..]);
    }
  }

  /** A frame put at the end of the row extends it. */
  lemma {:induction false} LaidAppend(ram: Ram, nd: nat, head: nat, o: nat, q: seq<Frame>, f: Frame)
    requires head <= nd < 8192 && o <= nd + 1 && Fits(nd, head, o, q) && Laid(ram, nd, head, o, q)
    requires Fits(nd, head, End(nd, head, o, q), [f])
    requires Entry(ram, nd, head, End(nd, head, o, q), f)
    ensures Fits(nd, head, o, q + [f])
    ensures End(nd, head, o, q + [f]) == End(nd, head, End(nd, head, o, q), [f])
    ensures Laid(ram, nd, head, o, q + [f])
    decreases |q|
  {
    hide Entry, Footprint;
    if q == [] {
      assert q + [f] == [f];
    } else {
      LaidAppend(ram, nd, head, o + Footprint(nd, At(nd, head, o), |q[0]|), q[1..], f);
      assert (q + [f])[1..] == q[1..] + [f];
    }
  }

  /** Measuring the row from an address `d` bytes further on changes nothing but the offsets. */
  lemma {:induction false} Rebase(ram: Ram, nd: nat, head: nat, d: nat, o: nat, q: seq<Frame>)
    requires head <= nd < 8192 && d + o <= nd + 1 && Fits(nd, head, d + o, q) && Laid(ram, nd, head, d + o, q)
    ensures Fits(nd, At(nd, head, d), o, q)
    ensures d + End(nd, At(nd, head, d), o, q) == End(nd, head, d + o, q)
    ensures Laid(ram, nd, At(nd, head, d), o, q)
    decreases |q|
  {
    if q != [] {
      AtSum(nd, head, d, o);
      Rebase(ram, nd, head, d, o + Footprint(nd, At(nd, head, d + o), |q[0]|), q[1..]);
      forall k: nat | k <= nd + 1 - d
        ensures At(nd, At(nd, head, d), k) == At(nd, head, d + k)
      {
        AtSum(nd, head, d, k);
      }
    }
  }

  /** Every row of frames that starts even ends even. */
  lemma {:induction false} EndIsEven(nd: nat, head: nat, o: nat, q: seq<Frame>)
    requires head <= nd < 8192 && o <= nd + 1 && Fits(nd, head, o, q)
    requires At(nd, head, o) % 2 == 0
    ensures At(nd, head, End(nd, head, o, q)) % 2 == 0
    decreases |q|
  {
    if q != [] {
      var a, n := At(nd, head, o), Footprint(nd, At(nd, head, o), |q[0]|);
      NextAtFootprint(nd, a, |q[0]|);
      AtSum(nd, head, o, n);
      EndIsEven(nd, head, o + n, q[1..]);
    }
  }

  // --- free space ----------------------------------------------------------

  /** Free bytes as the receive logic computes them from its write pointer and the guard (7.2.4). */
  function Free(nd: nat, wr: nat, rd: nat): nat
    requires wr <= nd && rd <= nd
  {
    if wr > rd then nd - (wr - rd) else if wr == rd then nd else rd - wr - 1
  }

  /** The guard is one byte behind the oldest unread frame, or still where set-up put it. */
  predicate Guarded(nd: nat, head: nat, used: nat, rd: nat)
    requires head <= nd
  {
    || (rd == Behind(nd, head) && used < nd)
    || (rd == 0 && head == 0 && used <= nd)
  }

  /** Filling any part of the free space keeps clear of the frames and keeps the guard meaningful. */
  lemma FreeIsFree(nd: nat, head: nat, used: nat, rd: nat, n: nat)
    requires head <= nd && used <= nd && Guarded(nd, head, used, rd)
    requires n <= Free(nd, At(nd, head, used), rd)
    ensures used + n <= nd && Guarded(nd, head, used + n, rd)
  {
  }

  // --- the ring with its history ---------------------------------------------

  /**
   * A snapshot of the receive side. RAM, ring end, guard (ERXRDPT), write
   * pointer and packet count are the chip's. The rest records history: where
   * the oldest unread frame starts, the unread frames, every frame stored so
   * far, and how many left the ring without having been counted down yet.
   */
  datatype Ring = Ring(
    ram: Ram, nd: nat, guard: nat, wr: nat, count: nat,
    head: nat, unread: seq<Frame>, stored: seq<Frame>, released: nat)

  /** The ring holds exactly the unread frames, and guard, write pointer and count agree with them. */
  ghost predicate RingOk(r: Ring) {
    && r.head <= r.nd < 8192
    && r.head % 2 == 0
    && Fits(r.nd, r.head, 0, r.unread)
    && Laid(r.ram, r.nd, r.head, 0, r.unread)
    && var used := End(r.nd, r.head, 0, r.unread);
    && used <= r.nd
    && r.wr == At(r.nd, r.head, used)
    && r.guard <= r.nd
    && Guarded(r.nd, r.head, used, r.guard)
    && r.count == |r.unread| + r.released
    && |r.unread| <= |r.stored|
    && r.unread == r.stored[|r.stored| - |r.unread|..]
  }

  /** The bytes of unread frames. */
  ghost predicate Held(r: Ring, a: nat)
    requires RingOk(r)
  {
    a <= r.nd && Dist(r.nd, r.head, a) < End(r.nd, r.head, 0, r.unread)
  }

  /** Frames may have been appended, but no byte of an unread frame has changed. */
  ghost predicate Grows(r: Ring, t: Ring) {
    && RingOk(r) && RingOk(t)
    && t.nd == r.nd && t.guard == r.guard
    && t.head == r.head && t.released == r.released
    && |r.stored| <= |t.stored|
    && t.stored[..|r.stored|] == r.stored
    && t.unread == r.unread + t.stored[|r.stored|..]
    && forall a: nat :: a < 8192 && Held(r, a) ==> t.ram[a] == r.ram[a]
  }

  lemma {:induction false} EndGrows(nd: nat, head: nat, o: nat, q: seq<Frame>, more: seq<Frame>)
    requires head <= nd && o <= nd + 1 && Fits(nd, head, o, q + more)
    ensures Fits(nd, head, o, q) && End(nd, head, o, q) <= End(nd, head, o, q + more)
    decreases |q|
  {
    if q != [] {
      assert (q + more)[1..] == q[1..] + more;
      EndGrows(nd, head, o + Footprint(nd, At(nd, head, o), |q[0]|), q[1..], more);
    } else {
      assert q + more == more;
    }
  }

  lemma GrowsTrans(r: Ring, t: Ring, u: Ring)
    requires Grows(r, t) && Grows(t, u)
    ensures Grows(r, u)
  {
    assert u.stored[|r.stored|..] == t.stored[|r.stored|..] + u.stored[|t.stored|..];
    EndGrows(r.nd, r.head, 0, r.unread, t.stored[|r.stored|..]);
  }

  /** RAM above the ring end is no part of the ring. */
  lemma AboveIsFree(r: Ring, ram': Ram)
    requires RingOk(r) && forall a: nat :: a <= r.nd ==> ram'[a] == r.ram[a]
    ensures Grows(r, r.(ram := ram'))
  {
    LaidFrame(r.ram, ram', r.nd, r.head, 0, r.unread);
  }

  /** A write of at most the free bytes from the write pointer on touches no unread frame. */
  lemma OverwritesNothing(r: Ring, data: seq<byte>)
    requires RingOk(r) && |data| <= Free(r.nd, r.wr, r.guard)
    ensures |data| <= r.nd
    ensures Grows(r, r.(ram := PutRing(r.ram, r.nd, r.wr, data)))
  {
    var used := End(r.nd, r.head, 0, r.unread);
    FreeIsFree(r.nd, r.head, used, r.guard, |data|);
    var ram' := PutRing(r.ram, r.nd, r.wr, data);
    forall k: nat | k < used
      ensures ram'[At(r.nd, r.head, k)] == r.ram[At(r.nd, r.head, k)]
    {
      Apart(r.nd, r.head, used, |data|, k);
    }
    LaidFrame(r.ram, ram', r.nd, r.head, 0, r.unread);
  }

  /** The chip after storing frame `f`: bytes written, count and write pointer advanced. */
  function StoredIn(r: Ring, f: Frame, status: (byte, byte)): Ring
    requires r.wr <= r.nd < 8192 && HEADER + |f| <= r.nd + 1
  {
    r.(ram := PutRing(r.ram, r.nd, r.wr, Image(r.nd, r.wr, f, status)),
       count := r.count + 1,
       wr := Next(r.nd, r.wr, |f|),
       unread := r.unread + [f],
       stored := r.stored + [f])
  }

  lemma ImageIsEntry(ram: Ram, nd: nat, head: nat, o: nat, f: Frame, status: (byte, byte))
    requires head <= nd < 8192 && o + HEADER + |f| <= nd + 1
    requires forall k: nat :: k < HEADER + |f| ==>
               ram[At(nd, At(nd, head, o), k)] == Image(nd, At(nd, head, o), f, status)[k]
    ensures Entry(ram, nd, head, o, f)
  {
    var a := At(nd, head, o);
    var image := Image(nd, a, f, status);
    AtSum(nd, head, o, 1);
    AtSum(nd, head, o, 2);
    AtSum(nd, head, o, 3);
    assert ram[At(nd, a, 0)] == image[0];
    assert ram[At(nd, a, 1)] == image[1];
    assert ram[At(nd, a, 2)] == image[2];
    assert ram[At(nd, a, 3)] == image[3];
    forall k: nat | k < |f|
      ensures ram[At(nd, head, o + HEADER + k)] == f[k]
    {
      AtSum(nd, head, o, HEADER + k);
      assert image[HEADER + k] == f[k];
    }
  }

  /** A frame stored at the end of a row makes a row that is one frame longer. */
  lemma PushBack(ram: Ram, nd: nat, head: nat, q: seq<Frame>, f: Frame)
    requires head <= nd < 8192 && head % 2 == 0 && Fits(nd, head, 0, q) && Laid(ram, nd, head, 0, q)
    requires HEADER + |f| <= nd + 1
    requires var used := End(nd, head, 0, q);
             && used + Footprint(nd, At(nd, head, used), |f|) <= nd + 1
             && Entry(ram, nd, head, used, f)
    ensures Fits(nd, head, 0, q + [f]) && Laid(ram, nd, head, 0, q + [f])
    ensures var used := End(nd, head, 0, q);
            var wr := At(nd, head, used);
            && End(nd, head, 0, q + [f]) == used + Footprint(nd, wr, |f|)
            && At(nd, head, End(nd, head, 0, q + [f])) == Next(nd, wr, |f|)
  {
    var used := End(nd, head, 0, q);
    var wr := At(nd, head, used);
    var n := Footprint(nd, wr, |f|);
    EndIsEven(nd, head, 0, q);
    NextAtFootprint(nd, wr, |f|);
    AtSum(nd, head, used, n);
    assert Fits(nd, head, used, [f]);
    assert End(nd, head, used, [f]) == used + n;
    LaidAppend(ram, nd, head, 0, q, f);
  }

  /** Without its first frame the row starts at the address the frame's header names. */
  lemma PopFront(ram: Ram, nd: nat, head: nat, q: seq<Frame>)
    requires head <= nd < 8192 && head % 2 == 0 && Fits(nd, head, 0, q) && Laid(ram, nd, head, 0, q)
    requires q != []
    ensures HEADER + |q[0]| <= nd + 1
    ensures var head' := Next(nd, head, |q[0]|);
            && Fits(nd, head', 0, q[1..]) && Laid(ram, nd, head', 0, q[1..])
            && End(nd, head', 0, q[1..]) + HEADER <= End(nd, head, 0, q)
            && At(nd, head', End(nd, head', 0, q[1..])) == At(nd, head, End(nd, head, 0, q))
  {
    hide Entry;
    var n := Footprint(nd, head, |q[0]|);
    assert At(nd, head, 0) == head;
    NextAtFootprint(nd, head, |q[0]|);
    Rebase(ram, nd, head, n, 0, q[1..]);
    AtSum(nd, head, n, End(nd, At(nd, head, n), 0, q[1..]));
  }

  lemma ImageFits(r: Ring, f: Frame)
    requires r.wr <= r.nd && r.guard <= r.nd && HEADER + |f| <= r.nd + 1
    requires Footprint(r.nd, r.wr, |f|) <= Free(r.nd, r.wr, r.guard)
    ensures HEADER + |f| <= Free(r.nd, r.wr, r.guard)
  {
  }

  /** Storing a frame that fits keeps the ring in order and every unread byte in place. */
  lemma StoringIsSafe(r: Ring, f: Frame, status: (byte, byte))
    requires RingOk(r)
    requires HEADER + |f| <= r.nd + 1
    requires Footprint(r.nd, r.wr, |f|) <= Free(r.nd, r.wr, r.guard)
    ensures Grows(r, StoredIn(r, f, status))
  {
    hide Footprint, Entry, Fits, End, Free, Dist;
    var image := Image(r.nd, r.wr, f, status);
    var t := StoredIn(r, f, status);
    ImageFits(r, f);
    OverwritesNothing(r, image);
    assert Laid(t.ram, r.nd, r.head, 0, r.unread);
    FreeIsFree(r.nd, r.head, End(r.nd, r.head, 0, r.unread), r.guard, Footprint(r.nd, r.wr, |f|));
    ImageIsEntry(t.ram, r.nd, r.head, End(r.nd, r.head, 0, r.unread), f, status);
    PushBack(t.ram, r.nd, r.head, r.unread, f);
    assert t.unread == t.stored[|t.stored| - |t.unread|..];
    assert t.stored[|r.stored|..] == [f];
  }

  /** Where the guard goes once the oldest frame has been read. */
  function GuardAfter(r: Ring): nat
    requires r.head <= r.nd && r.unread != [] && HEADER + |r.unread[0]| <= r.nd + 1
  {
    Behind(r.nd, Next(r.nd, r.head, |r.unread[0]|))
  }

  /** The oldest unread frame leaves the ring when the guard moves past it. */
  function Released(r: Ring): Ring
    requires r.head <= r.nd && r.unread != [] && HEADER + |r.unread[0]| <= r.nd + 1
  {
    r.(head := Next(r.nd, r.head, |r.unread[0]|), guard := GuardAfter(r),
       unread := r.unread[1..], released := r.released + 1)
  }

  lemma ReleaseIsSafe(r: Ring)
    requires RingOk(r) && r.unread != []
    ensures RingOk(Released(r))
  {
    var t := Released(r);
    PopFront(r.ram, r.nd, r.head, r.unread);
    assert t.unread == t.stored[|t.stored| - |t.unread|..];
  }

  // --- errata 14: the guard should be odd -----------------------------------------

  /** The guard value written after a frame is odd exactly unless it is an even ring end. */
  lemma GuardParity(r: Ring)
    requires RingOk(r) && r.unread != []
    ensures GuardAfter(r) % 2 == 1 <==> Next(r.nd, r.head, |r.unread[0]|) != 0 || r.nd % 2 == 1
  {
    hide Laid;
    assert HEADER + |r.unread[0]| <= r.nd + 1;
  }

  /** The ring as set-up leaves it. */
  function Fresh(ram: Ram, nd: nat): Ring {
    Ring(ram, nd, 0, 0, 0, 0, [], [], 0)
  }

  /** What happens to the ring: the chip stores a frame, or the driver consumes the oldest one. */
  datatype RingStep = Store(f: Frame, status: (byte, byte)) | Consume

  predicate Possible(r: Ring, step: RingStep)
    requires r.wr <= r.nd && r.guard <= r.nd
  {
    match step
    case Store(f, _) => HEADER + |f| <= r.nd + 1 && Footprint(r.nd, r.wr, |f|) <= Free(r.nd, r.wr, r.guard)
    case Consume => r.unread != []
  }

  /** The ring after any steps; those that are not possible do nothing. */
  ghost function RingAfter(r: Ring, steps: seq<RingStep>): (t: Ring)
    requires RingOk(r) && r.released == 0
    ensures RingOk(t) && t.nd == r.nd && t.released == 0
    decreases |steps|
  {
    if steps == [] then r
    else
      var m, step := RingAfter(r, steps[..|steps| - 1]), steps[|steps| - 1];
      StepIsSafe(m, step);
      if Possible(m, step) then Stepped(m, step) else m
  }

  function Stepped(r: Ring, step: RingStep): Ring
    requires r.wr <= r.nd < 8192 && r.head <= r.nd && r.guard <= r.nd && Possible(r, step)
    requires step.Consume? ==> HEADER + |r.unread[0]| <= r.nd + 1 && r.count > 0
  {
    match step
    case Store(f, status) => StoredIn(r, f, status)
    case Consume => var t := Released(r); t.(count := t.count - 1, released := t.released - 1)
  }

  lemma StepIsSafe(r: Ring, step: RingStep)
    requires RingOk(r) && r.released == 0
    ensures Possible(r, step) && step.Consume? ==> HEADER + |r.unread[0]| <= r.nd + 1 && r.count > 0
    ensures Possible(r, step) ==> RingOk(Stepped(r, step)) && Stepped(r, step).released == 0
  {
    if Possible(r, step) {
      match step
      case Store(f, status) =>
        StoringIsSafe(r, f, status);
      case Consume =>
        ReleaseIsSafe(r);
    }
  }

  lemma FreshIsOk(ram: Ram, nd: nat)
    requires nd < 8192
    ensures RingOk(Fresh(ram, nd)) && Fresh(ram, nd).nd == nd && Fresh(ram, nd).released == 0
  {
  }

  function Blank(n: nat): (f: Frame)
    ensures |f| == n
  {
    seq(n, _ => 0)
  }

  /**
   * From set-up on, whatever frames come and are consumed, every guard the
   * driver writes is odd, if and only if the ring end is.
   */
  lemma GuardsAreOdd(ram: Ram, nd: nat)
    requires 12 <= nd < 8192
    ensures RingOk(Fresh(ram, nd))
    ensures (forall steps :: RingAfter(Fresh(ram, nd), steps).unread != [] ==>
                               GuardAfter(RingAfter(Fresh(ram, nd), steps)) % 2 == 1)
            <==> nd % 2 == 1
  {
    FreshIsOk(ram, nd);
    if nd % 2 == 1 {
      forall steps | RingAfter(Fresh(ram, nd), steps).unread != []
        ensures GuardAfter(RingAfter(Fresh(ram, nd), steps)) % 2 == 1
      {
        GuardParity(RingAfter(Fresh(ram, nd), steps));
      }
    } else {
      var steps := EvenGuard(ram, nd);
      assert GuardAfter(RingAfter(Fresh(ram, nd), steps)) == nd;
    }
  }

  /** An empty frame, consumed, and one that ends where the ring does. */
  lemma EvenGuard(ram: Ram, nd: nat) returns (steps: seq<RingStep>)
    requires 12 <= nd < 8192 && nd % 2 == 0
    ensures RingOk(Fresh(ram, nd))
    ensures var t := RingAfter(Fresh(ram, nd), steps); t.unread != [] && GuardAfter(t) == nd
  {
    hide *;
    FreshIsOk(ram, nd);
    var r0 := Fresh(ram, nd);
    var g := Blank(nd - 11);
    var a, b, c := Store([], (0, 0)), Consume, Store(g, (0, 0));
    EmptyFrame(ram, nd);
    NextStep(r0, [], a);
    var r1 := RingAfter(r0, [a]);
    assert [] + [a] == [a] && [a] + [b] == [a, b] && [a, b] + [c] == [a, b, c];
    EmptyConsumed(r1);
    NextStep(r0, [a], b);
    var r2 := RingAfter(r0, [a, b]);
    LastFrame(r2, g);
    NextStep(r0, [a, b], c);
    steps := [a, b, c];
  }

  lemma NextStep(r: Ring, steps: seq<RingStep>, step: RingStep)
    requires RingOk(r) && r.released == 0
    ensures var m := RingAfter(r, steps);
            && m.wr <= m.nd && m.guard <= m.nd && m.head <= m.nd < 8192
            && (Possible(m, step) && step.Consume? ==> HEADER + |m.unread[0]| <= m.nd + 1 && m.count > 0)
            && RingAfter(r, steps + [step]) == if Possible(m, step) then Stepped(m, step) else m
    ensures steps == [] ==> RingAfter(r, steps) == r
  {
    hide Laid, Fits, Possible, Stepped, Guarded;
    assert (steps + [step])[..|steps|] == steps;
    StepIsSafe(RingAfter(r, steps), step);
  }

  lemma EmptyFrame(ram: Ram, nd: nat)
    requires 12 <= nd < 8192 && nd % 2 == 0
    ensures var r, step := Fresh(ram, nd), Store([], (0, 0));
            && r.released == 0 && r.wr <= r.nd && r.guard <= r.nd && Possible(r, step) && AtStart(Stepped(r, step), nd)
  {
  }

  /** One empty frame at the start of the ring. */
  predicate AtStart(r: Ring, nd: nat) {
    r.nd == nd && r.unread == [[]] && r.wr == 6 && r.head == 0 && r.guard == 0 && r.count == 1
  }

  lemma EmptyConsumed(r: Ring)
    requires 12 <= r.nd < 8192 && r.nd % 2 == 0 && AtStart(r, r.nd)
    ensures Possible(r, Consume) && PastStart(Stepped(r, Consume), r.nd)
  {
  }

  predicate PastStart(r: Ring, nd: nat) {
    r.nd == nd && r.unread == [] && r.wr == 6 && r.head == 6 && r.guard == 5 && r.count == 0
  }

  lemma LastFrame(r: Ring, g: Frame)
    requires 12 <= r.nd < 8192 && r.nd % 2 == 0 && PastStart(r, r.nd) && |g| == r.nd - 11
    ensures Possible(r, Store(g, (0, 0)))
    ensures var t := Stepped(r, Store(g, (0, 0)));
            && t.unread == [g] && t.head <= t.nd && HEADER + |t.unread[0]| <= t.nd + 1 && GuardAfter(t) == r.nd
  {
    hide PutRing, Image;
  }
}
