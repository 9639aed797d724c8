/**
 * Reading and printing IPv4 addresses: ip_to_int of cmd.c, the dotted form
 * printed in network.c, and the byte order of lwIP.
 */
module IpAddress {
  import opened Bytes
  import opened Bits

  type uint32 = x: int | 0 <= x < 0x1_0000_0000
  const INVALID: uint32 := 0
  const DOT: byte := 46

  // --- octets and byte order ----------------------------------------------------------------

  /** The octet at offset `k` of the address in memory, which is little-endian. */
  function Octet(v: uint32, k: nat): byte
    requires k < 4
  {
    match k
    case 0 => v % 0x100
    case 1 => v / 0x100 % 0x100
    case 2 => v / 0x1_0000 % 0x100
    case _ => v / 0x100_0000
  }

  function FromOctets(a: byte, b: byte, c: byte, d: byte): uint32 {
    a + 0x100 * b + 0x1_0000 * c + 0x100_0000 * d
  }

  lemma OctetsDetermine(v: uint32, a: byte, b: byte, c: byte, d: byte)
    ensures v == FromOctets(a, b, c, d) <==>
            a == Octet(v, 0) && b == Octet(v, 1) && c == Octet(v, 2) && d == Octet(v, 3)
  {
    hide *;
    OctetsAre(v);
    Shifts(v);
    Assembled(a, b, c, d);
    Peel(v, a, b + 0x100 * (c + 0x100 * d));
    Peel(v / 0x100, b, c + 0x100 * d);
    Peel(v / 0x1_0000, c, d);
  }

  lemma OctetsAre(v: uint32)
    ensures Octet(v, 0) == v % 0x100 && Octet(v, 1) == v / 0x100 % 0x100
    ensures Octet(v, 2) == v / 0x1_0000 % 0x100 && Octet(v, 3) == v / 0x100_0000
  {
  }

  lemma Assembled(a: byte, b: byte, c: byte, d: byte)
    ensures FromOctets(a, b, c, d) == a + 0x100 * (b + 0x100 * (c + 0x100 * d))
  {
  }

  lemma Peel(v: nat, a: byte, r: nat)
    ensures v == a + 0x100 * r <==> a == v % 0x100 && r == v / 0x100
  {
  }

  lemma Shifts(n: nat)
    ensures n / 0x1_0000 == n / 0x100 / 0x100 && n / 0x100_0000 == n / 0x1_0000 / 0x100
  {
    Shift(n, 0x100);
    Shift(n, 0x1_0000);
  }

  lemma Shift(n: nat, d: nat)
    requires d == 0x100 || d == 0x1_0000
    ensures n / (d * 0x100) == n / d / 0x100
  {
    var q, r := n / d, n % d;
    var q', r' := q / 0x100, q % 0x100;
    assert n == d * (0x100 * q' + r') + r;
  }

  /** `lwip_htonl`, and the last assignment of `ip_to_int`: masks and shifts. */
  function Htonl(n: uint32): nat {
    Or(Or(Or(Masked(n, 0xff) * 0x100_0000, Masked(n, 0xff00) * 0x100), Masked(n, 0xff_0000) / 0x100),
       Masked(n, 0xff00_0000) / 0x100_0000)
  }

  lemma Powers()
    ensures Pow2(8) == 0x100 && Pow2(16) == 0x1_0000 && Pow2(24) == 0x100_0000
  {
    assert Pow2(4) == 16 && Pow2(8) == 16 * Pow2(4);
    assert Pow2(12) == 16 * Pow2(8) && Pow2(16) == 16 * Pow2(12);
    assert Pow2(20) == 16 * Pow2(16) && Pow2(24) == 16 * Pow2(20);
  }

  /** Each mask picks one octet. */
  lemma OctetMasks(n: uint32)
    ensures Masked(n, 0xff) == n % 0x100 && Masked(n, 0xff00) == n / 0x100 % 0x100 * 0x100
    ensures Masked(n, 0xff_0000) == n / 0x1_0000 % 0x100 * 0x1_0000
    ensures Masked(n, 0xff00_0000) == n / 0x100_0000 * 0x100_0000
  {
    hide *;
    LowOctet(n);
    HighOctet(n, 8, 0x100);
    HighOctet(n, 16, 0x1_0000);
    HighOctet(n, 24, 0x100_0000);
  }

  lemma HighOctet(n: nat, k: nat, p: nat)
    requires (k, p) == (8, 0x100) || (k, p) == (16, 0x1_0000) || (k, p) == (24, 0x100_0000)
    ensures Masked(n, 0xff * p) == n / p % 0x100 * p
  {
    hide *;
    Powers();
    LowOctet(n / p);
    assert n == n / p * p + n % p;
    AndHigh(n / p, n % p, 0xff, k);
  }

  lemma LowOctet(n: nat)
    ensures Masked(n, 0xff) == n % 0x100
  {
    hide *;
    Powers();
    AndLow(n / 0x100, n % 0x100, 8);
  }

  /** The octets do not overlap, so that they add up. */
  lemma HtonlIsSwapped(n: uint32)
    ensures Htonl(n) == Swapped(n)
  {
    hide Masked, Pow2, Or;
    Powers();
    OctetMasks(n);
    var a, b, c, d := n % 0x100, n / 0x100 % 0x100, n / 0x1_0000 % 0x100, n / 0x100_0000;
    OrIsSum(a, b * 0x1_0000, 24);
    OrIsSum(a * 0x100 + b, c * 0x100, 16);
    OrIsSum((a * 0x100 + b) * 0x100 + c, d, 8);
  }

  /** The octets in the opposite order. */
  function Swapped(v: uint32): uint32 {
    v % 0x100 * 0x100_0000
    + v / 0x100 % 0x100 * 0x1_0000
    + v / 0x1_0000 % 0x100 * 0x100
    + v / 0x100_0000
  }

  /** The conversion between host and network order reverses the octets and undoes itself. */
  lemma SwapReverses(v: uint32)
    ensures Htonl(v) == Swapped(v) && Htonl(Swapped(v)) == v
    ensures forall k: nat :: k < 4 ==> Octet(Swapped(v), k) == Octet(v, 3 - k)
    ensures Swapped(Swapped(v)) == v
  {
    HtonlIsSwapped(v);
    HtonlIsSwapped(Swapped(v));
    hide Htonl;
    var s := Swapped(v);
    assert s == FromOctets(Octet(v, 3), Octet(v, 2), Octet(v, 1), Octet(v, 0));
    OctetsDetermine(s, Octet(v, 3), Octet(v, 2), Octet(v, 1), Octet(v, 0));
    var t := Swapped(s);
    assert t == FromOctets(Octet(s, 3), Octet(s, 2), Octet(s, 1), Octet(s, 0));
    OctetsDetermine(v, Octet(v, 0), Octet(v, 1), Octet(v, 2), Octet(v, 3));
  }

  // --- numerals --------------------------------------------------------------------------------

  predicate Digit(c: byte) { 48 <= c <= 57 }

  predicate AllDigits(d: seq<byte>) {
    forall i :: 0 <= i < |d| ==> Digit(d[i])
  }

  type Numeral = d: seq<byte> | AllDigits(d)

  function Value(d: Numeral): nat {
    if d == [] then 0 else 10 * Value(d[..|d| - 1]) + (d[|d| - 1] - 48)
  }

  lemma EmptyNumeral()
    ensures Wrap16(Value([])) == 0
  {
  }

  lemma ValueSnoc(d: Numeral, c: byte)
    requires Digit(c)
    ensures Value(d + [c]) == Value(d) * 10 + (c - 48)
  {
    assert (d + [c])[..|d|] == d;
  }

  /** Conversion to `int16_t`. */
  function Wrap16(n: int): int {
    (n + 0x8000) % 0x1_0000 - 0x8000
  }

  lemma WrapStep(n: int, c: int)
    ensures Wrap16(Wrap16(Wrap16(n) * 10) + c) == Wrap16(n * 10 + c)
  {
    WrapDiffers(n);
    WrapDiffers(Wrap16(n) * 10);
    var j, k := (n - Wrap16(n)) / 0x1_0000, (Wrap16(n) * 10 - Wrap16(Wrap16(n) * 10)) / 0x1_0000;
    assert Wrap16(n) == n - 0x1_0000 * j;
    assert Wrap16(Wrap16(n) * 10) + c == n * 10 + c - 0x1_0000 * (10 * j + k);
    WrapIgnores(n * 10 + c, -(10 * j + k));
  }

  lemma WrapDiffers(n: int)
    ensures (n - Wrap16(n)) % 0x1_0000 == 0
  {
  }

  lemma WrapIgnores(n: int, k: int)
    ensures Wrap16(n + 0x1_0000 * k) == Wrap16(n)
  {
    assert (n + 0x8000 + 0x1_0000 * k) % 0x1_0000 == (n + 0x8000) % 0x1_0000;
  }

  /** Four digits are always judged rightly. */
  lemma ShortValue(x: Number)
    requires x.digits <= 4 && x.value < Power10(x.digits)
    ensures Wrap16(x.value) == x.value
  {
    assert Power10(4) == 10000 && Power10(3) == 1000 && Power10(2) == 100 && Power10(1) == 10;
  }

  function Power10(n: nat): (p: nat)
    ensures p > 0
  {
    if n == 0 then 1 else 10 * Power10(n - 1)
  }

  lemma {:induction false} ValueBelow(d: Numeral)
    ensures Value(d) < Power10(|d|)
    decreases |d|
  {
    if d != [] {
      ValueBelow(d[..|d| - 1]);
    }
  }

  // --- the grammar ------------------------------------------------------------------------------

  /** The digits from position `i` on. */
  function Run(text: seq<byte>, i: nat): (d: Numeral)
    requires i <= |text|
    ensures i + |d| <= |text|
    decreases |text| - i
  {
    if i < |text| && Digit(text[i]) then [text[i]] + Run(text, i + 1) else []
  }

  lemma {:induction false} RunIsMaximal(text: seq<byte>, i: nat)
    requires i <= |text|
    ensures var d := Run(text, i);
            && (forall k :: 0 <= k < |d| ==> d[k] == text[i + k])
            && (i + |d| < |text| ==> !Digit(text[i + |d|]))
    decreases |text| - i
  {
    hide AllDigits;
    if i < |text| && Digit(text[i]) {
      RunIsMaximal(text, i + 1);
      var d, e := Run(text, i), Run(text, i + 1);
      assert d == [text[i]] + e;
      forall k | 0 <= k < |d|
        ensures d[k] == text[i + k]
      {
        assert k > 0 ==> d[k] == e[k - 1] == text[i + 1 + (k - 1)];
      }
    }
  }

  /** A numeral by its value and its length. */
  datatype Number = Number(value: nat, digits: nat)

  function NumberAt(text: seq<byte>, i: nat): Number
    requires i <= |text|
  {
    Number(Value(Run(text, i)), |Run(text, i)|)
  }

  /** Reading `n` numerals from `i` on stays inside the text. */
  predicate Bounded(text: seq<byte>, i: nat, n: nat)
    requires i <= |text|
    decreases n
  {
    n == 0 ||
    var e := i + |Run(text, i)|;
    e < |text| && (Run(text, i) != [] && n > 1 && text[e] == DOT ==> Bounded(text, e + 1, n - 1))
  }

  lemma {:induction false} RunStops(text: seq<byte>, i: nat, j: nat)
    requires i <= j < |text| && !Digit(text[j])
    ensures i + |Run(text, i)| <= j
    decreases j - i
  {
    if i < j && Digit(text[i]) {
      RunStops(text, i + 1, j);
    }
  }

  /** A byte that is neither a digit nor a dot, such as a terminating zero, is enough. */
  lemma {:induction false} ZeroIsEnough(text: seq<byte>, i: nat, n: nat, j: nat)
    requires i <= j < |text| && !(48 <= text[j] <= 57) && text[j] != 46
    ensures Bounded(text, i, n)
    decreases n
  {
    if n > 0 {
      RunStops(text, i, j);
      var e := i + |Run(text, i)|;
      if e < j {
        ZeroIsEnough(text, e + 1, n - 1, j);
      }
    }
  }

  /** The next `n` numerals with a dot between them, and the position behind the byte that ends the last. */
  function Numerals(text: seq<byte>, i: nat, n: nat): (r: Option<(seq<Number>, nat)>)
    requires i <= |text|
    ensures r.Some? ==> |r.value.0| == n && i <= r.value.1 <= |text|
    decreases n
  {
    if n == 0 then Some(([], i))
    else
      var x := NumberAt(text, i);
      var e := i + x.digits;
      if x.digits == 0 || e == |text| || (n > 1 && text[e] != DOT) then None
      else
        match Numerals(text, e + 1, n - 1)
        case None => None
        case Some((xs, stop)) => Some(([x] + xs, stop))
  }

  lemma {:induction false} NumeralsBelow(text: seq<byte>, i: nat, n: nat)
    requires i <= |text| && Numerals(text, i, n).Some?
    ensures forall k :: 0 <= k < n ==> var x := Numerals(text, i, n).value.0[k]; x.value < Power10(x.digits)
    decreases n
  {
    if n > 0 {
      ValueBelow(Run(text, i));
      NumeralsBelow(text, i + |Run(text, i)| + 1, n - 1);
    }
  }

  predicate Passes(x: Number) {
    Wrap16(x.value) < 256
  }

  predicate AllPass(xs: seq<Number>) {
    forall k :: 0 <= k < |xs| ==> Passes(xs[k])
  }

  /** The accumulator after some numerals. */
  function Sum(xs: seq<Number>): uint32 {
    if xs == [] then 0 else Accumulated(Sum(xs[..|xs| - 1]), Wrap16(xs[|xs| - 1].value))
  }

  function Accumulated(v: uint32, n: int): uint32 {
    (v * 256 + n) % 0x1_0000_0000
  }

  /** What `ip_to_int` returns, and where it leaves the caller's pointer. */
  function Parsed(text: seq<byte>, at: nat): (r: (uint32, nat))
    requires at <= |text|
    ensures at <= r.1 <= |text|
  {
    match Numerals(text, at, 4)
    case None => (INVALID, at)
    case Some((xs, stop)) =>
      if AllPass(xs) then (Swapped(Sum(xs)), stop) else (INVALID, at)
  }

  /** `ip_to_int` */
  method IpToInt(text: seq<byte>, at: nat) returns (r: uint32, ip: nat)
    requires at <= |text| && Bounded(text, at, 4)
    ensures (r, ip) == Parsed(text, at)
  {
    var v: uint32 := 0;
    var start := at;
    ghost var xs: seq<Number> := [];
    Begins(text, at);
    hide *;
    for i := 0 to 4
      invariant at <= start <= |text| && Halfway(text, at, xs, start, i, v)
    {
      StillAhead(text, at, xs, start, i, v);
      var n, stop := ReadNumeral(text, start, i);
      NextNumeral(text, at, xs, start, i, v, n, stop);
      if stop == 0 || n >= 256 {
        return INVALID, at;
      }
      v := Accumulated(v, n);
      xs := xs + [NumberAt(text, start)];
      start := stop;
    }
    Finished(text, at, xs, start, v);
    HtonlIsSwapped(v);
    v := Htonl(v);
    return v, start;
  }

  /** After the `i` numerals `xs`, the ones from `start` on complete the address at `at`. */
  ghost predicate Halfway(text: seq<byte>, at: nat, xs: seq<Number>, start: nat, i: nat, v: uint32)
    requires at <= |text| && start <= |text|
  {
    && |xs| == i <= 4 && AllPass(xs) && v == Sum(xs) && Bounded(text, start, 4 - i)
    && Continues(text, at, xs, start, 4 - i)
  }

  ghost predicate Continues(text: seq<byte>, at: nat, xs: seq<Number>, start: nat, n: nat)
    requires at <= |text| && start <= |text|
  {
    Numerals(text, at, 4) == match Numerals(text, start, n)
                             case None => None
                             case Some((later, stop)) => Some((xs + later, stop))
  }

  lemma Begins(text: seq<byte>, at: nat)
    requires at <= |text| && Bounded(text, at, 4)
    ensures Halfway(text, at, [], at, 0, 0)
  {
    if Numerals(text, at, 4).Some? {
      var later := Numerals(text, at, 4).value.0;
      assert [] + later == later;
    }
  }

  lemma StillAhead(text: seq<byte>, at: nat, xs: seq<Number>, start: nat, i: nat, v: uint32)
    requires at <= |text| && start <= |text| && i < 4 && Halfway(text, at, xs, start, i, v)
    ensures start + |Run(text, start)| < |text|
  {
  }

  lemma Finished(text: seq<byte>, at: nat, xs: seq<Number>, start: nat, v: uint32)
    requires at <= |text| && start <= |text| && Halfway(text, at, xs, start, 4, v)
    ensures Parsed(text, at) == (Swapped(v), start)
  {
    assert Numerals(text, start, 0) == Some(([], start)) && xs + [] == xs;
    hide Swapped, AllPass, Sum, Bounded, Numerals;
  }

  lemma NextNumeral(text: seq<byte>, at: nat, xs: seq<Number>, start: nat, i: nat, v: uint32, n: int, stop: nat)
    requires at <= |text| && start <= |text| && i < 4 && Halfway(text, at, xs, start, i, v)
    requires start + |Run(text, start)| < |text|
    requires NumeralRead(text, start, i, n, stop)
    ensures if stop == 0 || n >= 256 then Parsed(text, at) == (INVALID, at)
            else stop <= |text| && Halfway(text, at, xs + [NumberAt(text, start)], stop, i + 1, Accumulated(v, n))
  {
    hide *;
    HalfwayIs(text, at, xs, start, i, v);
    ReadIs(text, start, i, n, stop);
    var x := NumberAt(text, start);
    if stop == 0 {
      NoNumeral(text, at, xs, start, 4 - i);
    } else {
      Longer(text, at, xs, start, 4 - i);
      SumStep(xs, x);
      Passing(xs, x);
      if n >= 256 {
        Refused(text, at, xs + [x], stop, 3 - i);
      } else {
        HalfwayIs(text, at, xs + [x], stop, i + 1, Accumulated(v, n));
      }
    }
  }

  /** The parts of `Halfway`. */
  lemma HalfwayIs(text: seq<byte>, at: nat, xs: seq<Number>, start: nat, i: nat, v: uint32)
    requires at <= |text| && start <= |text|
    ensures Halfway(text, at, xs, start, i, v) <==>
            && |xs| == i <= 4 && AllPass(xs) && v == Sum(xs) && Bounded(text, start, 4 - i)
            && Continues(text, at, xs, start, 4 - i)
  {
    hide AllPass, Sum, Bounded, Continues;
  }

  lemma ReadIs(text: seq<byte>, start: nat, i: nat, n: int, stop: nat)
    requires start <= |text| && start + |Run(text, start)| < |text| && i < 4
    requires NumeralRead(text, start, i, n, stop) && Bounded(text, start, 4 - i)
    ensures var x := NumberAt(text, start);
            var e := start + |Run(text, start)|;
            && x.digits == |Run(text, start)|
            && (stop == 0 ==> Run(text, start) == [] || (i < 3 && text[e] != DOT))
            && (stop != 0 ==>
                  && stop == e + 1 <= |text| && x.digits > 0 && (i < 3 ==> text[e] == DOT)
                  && n == Wrap16(x.value) && Bounded(text, stop, 3 - i))
  {
    hide Wrap16, Value;
  }

  lemma NoNumeral(text: seq<byte>, at: nat, xs: seq<Number>, start: nat, n: nat)
    requires at <= |text| && start <= |text| && n > 0 && Continues(text, at, xs, start, n)
    requires var e := start + |Run(text, start)|;
             e < |text| && (Run(text, start) == [] || (n > 1 && text[e] != DOT))
    ensures Parsed(text, at) == (INVALID, at)
  {
    hide Run, Sum, Swapped, AllPass;
    assert Numerals(text, start, n).None?;
  }

  lemma Passing(xs: seq<Number>, x: Number)
    ensures Passes(x) <==> Wrap16(x.value) < 256
    ensures AllPass(xs + [x]) <==> AllPass(xs) && Passes(x)
  {
    hide Wrap16;
    var all := xs + [x];
    assert all[|xs|] == x && forall k :: 0 <= k < |xs| ==> all[k] == xs[k];
  }

  lemma Longer(text: seq<byte>, at: nat, xs: seq<Number>, start: nat, n: nat)
    requires at <= |text| && start <= |text| && n > 0 && Continues(text, at, xs, start, n)
    requires var x := NumberAt(text, start);
             var e := start + x.digits;
             x.digits > 0 && e < |text| && (n > 1 ==> text[e] == DOT)
    ensures var x := NumberAt(text, start);
            Continues(text, at, xs + [x], start + x.digits + 1, n - 1)
  {
    var x := NumberAt(text, start);
    var rest := Numerals(text, start + x.digits + 1, n - 1);
    OneMore(text, start, n);
    hide Numerals, NumberAt;
    if rest.Some? {
      var later := rest.value.0;
      assert xs + ([x] + later) == (xs + [x]) + later;
    }
  }

  lemma OneMore(text: seq<byte>, i: nat, n: nat)
    requires i <= |text| && n > 0
    requires var x := NumberAt(text, i);
             var e := i + x.digits;
             x.digits > 0 && e < |text| && (n > 1 ==> text[e] == DOT)
    ensures var x := NumberAt(text, i);
            Numerals(text, i, n) == match Numerals(text, i + x.digits + 1, n - 1)
                                    case None => None
                                    case Some((xs, stop)) => Some(([x] + xs, stop))
  {
    hide NumberAt;
  }

  lemma Refused(text: seq<byte>, at: nat, xs: seq<Number>, start: nat, n: nat)
    requires at <= |text| && start <= |text| && Continues(text, at, xs, start, n) && !AllPass(xs)
    ensures Parsed(text, at) == (INVALID, at)
  {
    hide Numerals, Sum, Swapped, Passes;
    if Numerals(text, start, n).Some? {
      var later := Numerals(text, start, n).value.0;
      assert forall k :: 0 <= k < |xs| ==> (xs + later)[k] == xs[k];
    }
  }

  /** What the inner loop makes of the numeral at `start`; zero as the new position stands for `INVALID`. */
  ghost predicate NumeralRead(text: seq<byte>, start: nat, i: nat, n: int, stop: nat)
    requires start <= |text| && start + |Run(text, start)| < |text|
  {
    var d := Run(text, start);
    var e := start + |d|;
    if d == [] || (i < 3 && text[e] != DOT) then stop == 0
    else stop == e + 1 && n == Wrap16(Value(d))
  }

  /** The inner loop: one numeral and the byte that ends it. */
  method ReadNumeral(text: seq<byte>, start: nat, i: nat) returns (n: int, stop: nat)
    requires start <= |text| && start + |Run(text, start)| < |text| && i < 4
    ensures NumeralRead(text, start, i, n, stop)
  {
    ghost var d := Run(text, start);
    RunIsMaximal(text, start);
    hide Value, Wrap16, Run;
    assert Wrap16(Value(d[..0])) == 0 by { EmptyNumeral(); }
    n := 0;
    var l := false;
    var p := start;
    while true
      invariant start <= p <= start + |d| && l == (p > start)
      invariant n == Wrap16(Value(d[..p - start]))
      decreases |text| - p
    {
      var c := text[p];
      ghost var k := p - start;
      assert Digit(c) <==> k < |d| by {
        if k < |d| { assert c == d[k]; }
      }
      p := p + 1;
      if Digit(c) {
        assert d[..k + 1] == d[..k] + [c];
        ValueSnoc(d[..k], c);
        WrapStep(Value(d[..k]), c - 48);
        n := Wrap16(n * 10);
        n := Wrap16(n + (c - 48));
        l := true;
      } else if ((i < 3 && c == DOT) || i == 3) && l {
        assert d[..k] == d;
        return n, p;
      } else {
        return 0, 0;
      }
    }
  }

  // --- what is accepted -------------------------------------------------------------------------

  lemma SumStep(xs: seq<Number>, x: Number)
    ensures Sum(xs + [x]) == Accumulated(Sum(xs), Wrap16(x.value))
  {
    assert (xs + [x])[..|xs|] == xs;
    hide Wrap16, Accumulated;
  }

  /** The sum of four numerals, step by step. */
  lemma SumOfFour(xs: seq<Number>)
    requires |xs| == 4
    ensures Sum(xs) == Accumulated(Accumulated(Accumulated(Accumulated(0, Wrap16(xs[0].value)), Wrap16(xs[1].value)),
                                               Wrap16(xs[2].value)), Wrap16(xs[3].value))
  {
    assert Sum([]) == 0;
    hide *;
    SumStep([], xs[0]);
    SumStep(xs[..1], xs[1]);
    SumStep(xs[..2], xs[2]);
    SumStep(xs[..3], xs[3]);
    assert [] + [xs[0]] == xs[..1] && xs[..1] + [xs[1]] == xs[..2];
    assert xs[..2] + [xs[2]] == xs[..3] && xs[..3] + [xs[3]] == xs;
  }

  lemma FourSteps(a: byte, b: byte, c: byte, d: byte)
    ensures Swapped(Accumulated(Accumulated(Accumulated(Accumulated(0, a), b), c), d)) == FromOctets(a, b, c, d)
  {
    var v := Accumulated(Accumulated(Accumulated(Accumulated(0, a), b), c), d);
    assert v == FromOctets(d, c, b, a) by {
      AccumulatedSmall(0, a);
      AccumulatedSmall(a, b);
      AccumulatedSmall(a * 256 + b, c);
      AccumulatedSmall((a * 256 + b) * 256 + c, d);
      hide Accumulated;
    }
    hide Accumulated, Octet;
    OctetsDetermine(v, d, c, b, a);
    SwappedOctets(v);
  }

  lemma AccumulatedSmall(v: uint32, n: byte)
    requires v < 0x100_0000
    ensures Accumulated(v, n) == v * 256 + n
  {
  }

  lemma SwappedOctets(v: uint32)
    ensures Swapped(v) == FromOctets(Octet(v, 3), Octet(v, 2), Octet(v, 1), Octet(v, 0))
  {
  }

  predicate Octets(xs: seq<Number>) {
    |xs| == 4 && xs[0].value < 256 && xs[1].value < 256 && xs[2].value < 256 && xs[3].value < 256
  }

  /** Four octets in a row are an address. */
  lemma QuadIsParsed(text: seq<byte>, at: nat, xs: seq<Number>, stop: nat)
    requires at <= |text| && Numerals(text, at, 4) == Some((xs, stop)) && Octets(xs)
    ensures Parsed(text, at) == (FromOctets(xs[0].value, xs[1].value, xs[2].value, xs[3].value), stop)
  {
    AllOctetsPass(xs);
    hide Numerals, Sum, AllPass;
    assert Parsed(text, at) == (Swapped(Sum(xs)), stop);
    hide *;
    SumOfFour(xs);
    OctetsUnwrapped(xs);
    FourSteps(xs[0].value, xs[1].value, xs[2].value, xs[3].value);
  }

  lemma OctetsUnwrapped(xs: seq<Number>)
    requires Octets(xs)
    ensures xs[0].value < 256 && xs[1].value < 256 && xs[2].value < 256 && xs[3].value < 256
    ensures forall k :: 0 <= k < 4 ==> Wrap16(xs[k].value) == xs[k].value
  {
  }

  lemma AllOctetsPass(xs: seq<Number>)
    requires Octets(xs)
    ensures AllPass(xs)
  {
  }

  lemma ZeroOctets(a: byte, b: byte, c: byte, d: byte)
    ensures FromOctets(a, b, c, d) == 0 <==> a == 0 && b == 0 && c == 0 && d == 0
  {
  }

  /** Four octets, not all of them zero. */
  predicate NonzeroQuad(xs: seq<Number>) {
    Octets(xs) && !(xs[0].value == 0 && xs[1].value == 0 && xs[2].value == 0 && xs[3].value == 0)
  }

  predicate Spells(xs: seq<Number>, v: uint32) {
    && |xs| == 4 && Octet(v, 0) as int == xs[0].value && Octet(v, 1) as int == xs[1].value
    && Octet(v, 2) as int == xs[2].value && Octet(v, 3) as int == xs[3].value
  }

  predicate Short(xs: seq<Number>) {
    forall k :: 0 <= k < |xs| ==> xs[k].digits <= 4
  }

  /**
   * With numerals of at most four digits, the result is a real address exactly
   * for dotted quads of octets that are not all zero; its octets in memory are
   * then the numerals in order, and the pointer is just behind the byte that
   * ended the last.
   */
  lemma ShortNumeralsAccepted(text: seq<byte>, at: nat)
    requires at <= |text|
    requires Numerals(text, at, 4).Some? ==> Short(Numerals(text, at, 4).value.0)
    ensures var q, r := Numerals(text, at, 4), Parsed(text, at);
            && (r.0 != INVALID <==> q.Some? && NonzeroQuad(q.value.0))
            && (r.0 != INVALID ==> r.1 == q.value.1 && Spells(q.value.0, r.0))
  {
    var q := Numerals(text, at, 4);
    if q.Some? {
      NumeralsBelow(text, at, 4);
      hide Numerals;
      if Octets(q.value.0) {
        QuadSpells(text, at, q.value.0, q.value.1);
      } else {
        LargeIsRefused(q.value.0);
      }
    }
  }

  /** What the range check lets through instead of an octet. */
  predicate Slips(x: Number) {
    x.value % 0x1_0000 < 256 || x.value % 0x1_0000 >= 0x8000
  }

  lemma PassesOrSlips(x: Number)
    ensures Passes(x) <==> Slips(x)
  {
  }

  /**
   * When the result is wrong, for numerals of any length: exactly if every
   * numeral slips through the range check modulo 65536, one of them is no
   * octet, and the number they make is not zero by chance. Otherwise the result
   * is invalid or spells the numerals.
   */
  lemma WrongExactly(text: seq<byte>, at: nat, xs: seq<Number>, stop: nat)
    requires at <= |text| && Numerals(text, at, 4) == Some((xs, stop))
    ensures (Parsed(text, at).0 != INVALID <==> NonzeroQuad(xs))
            <==> !((forall k :: 0 <= k < 4 ==> Slips(xs[k])) && !Octets(xs) && Combined(xs) != 0)
    ensures NonzeroQuad(xs) ==> Parsed(text, at).1 == stop && Spells(xs, Parsed(text, at).0)
  {
    SumIsCombined(xs);
    hide Combined, Sum;
    if Octets(xs) {
      QuadSpells(text, at, xs, stop);
    } else {
      ParsedWrong(text, at, xs, stop);
    }
  }

  /** The numerals as one number, each in 16-bit arithmetic. */
  function Combined(xs: seq<Number>): uint32
    requires |xs| == 4
  {
    (Wrap16(xs[0].value) * 0x100_0000 + Wrap16(xs[1].value) * 0x1_0000 + Wrap16(xs[2].value) * 0x100
     + Wrap16(xs[3].value)) % 0x1_0000_0000
  }

  lemma SumIsCombined(xs: seq<Number>)
    requires |xs| == 4
    ensures Sum(xs) == Combined(xs)
  {
    hide Sum, Wrap16;
    SumOfFour(xs);
    var a, b, c, d := Wrap16(xs[0].value), Wrap16(xs[1].value), Wrap16(xs[2].value), Wrap16(xs[3].value);
    AccumulatedModulo(0, a);
    AccumulatedModulo(a, b);
    AccumulatedModulo(a * 0x100 + b, c);
    AccumulatedModulo((a * 0x100 + b) * 0x100 + c, d);
  }

  lemma AccumulatedModulo(x: int, n: int)
    ensures Accumulated(x % 0x1_0000_0000, n) == (x * 0x100 + n) % 0x1_0000_0000
  {
    var q := x / 0x1_0000_0000;
    assert x % 0x1_0000_0000 * 0x100 + n == x * 0x100 + n - 0x1_0000_0000 * (0x100 * q);
  }

  lemma ParsedWrong(text: seq<byte>, at: nat, xs: seq<Number>, stop: nat)
    requires at <= |text| && Numerals(text, at, 4) == Some((xs, stop)) && |xs| == 4
    ensures Parsed(text, at).0 != INVALID <==> (forall k :: 0 <= k < 4 ==> Slips(xs[k])) && Sum(xs) != 0
  {
    hide Numerals, Sum, Passes, Slips, Octet;
    forall k | 0 <= k < 4 ensures Passes(xs[k]) <==> Slips(xs[k]) { PassesOrSlips(xs[k]); }
    SwapReverses(Sum(xs));
    assert Swapped(0) == 0;
  }

  lemma QuadSpells(text: seq<byte>, at: nat, xs: seq<Number>, stop: nat)
    requires at <= |text| && Numerals(text, at, 4) == Some((xs, stop)) && Octets(xs)
    ensures var r := Parsed(text, at); r.1 == stop && Spells(xs, r.0) && (r.0 == 0 <==> !NonzeroQuad(xs))
  {
    hide Numerals, Parsed, FromOctets, Octet;
    QuadIsParsed(text, at, xs, stop);
    var a, b, c, d := xs[0].value, xs[1].value, xs[2].value, xs[3].value;
    ZeroOctets(a, b, c, d);
    OctetsDetermine(Parsed(text, at).0, a, b, c, d);
  }

  lemma LargeIsRefused(xs: seq<Number>)
    requires |xs| == 4 && Short(xs) && !Octets(xs) && forall k :: 0 <= k < |xs| ==> xs[k].value < Power10(xs[k].digits)
    ensures !AllPass(xs)
  {
    var k :| 0 <= k < |xs| && xs[k].value >= 256;
    ShortValue(xs[k]);
    assert !Passes(xs[k]);
  }

  // --- printing ---------------------------------------------------------------------------------

  /** `%u` of a number below 1000. */
  function Decimal(n: nat): (d: Numeral)
    ensures d != []
  {
    if n < 10 then [48 + n] else Decimal(n / 10) + [48 + n % 10]
  }

  lemma {:induction false} DecimalValue(n: nat)
    ensures Value(Decimal(n)) == n
    decreases n
  {
    if n >= 10 {
      DecimalValue(n / 10);
      var d := Decimal(n);
      assert d[..|d| - 1] == Decimal(n / 10);
    } else {
      assert Decimal(n)[..0] == [];
    }
  }

  /** `%u.%u.%u.%u` with the octets as they lie in memory. */
  function Printed(v: uint32): seq<byte> {
    Decimal(Octet(v, 0)) + [DOT]
    + (Decimal(Octet(v, 1)) + [DOT] + (Decimal(Octet(v, 2)) + [DOT] + Decimal(Octet(v, 3))))
  }

  /** Digits followed by something else are one numeral. */
  lemma {:induction false} RunOf(text: seq<byte>, i: nat, d: Numeral, end: byte, rest: seq<byte>)
    requires i <= |text| && text[i..] == d + ([end] + rest) && !Digit(end)
    ensures Run(text, i) == d
    decreases |d|
  {
    var tail := d + ([end] + rest);
    assert text[i] == tail[0];
    if d != [] {
      assert text[i + 1..] == tail[1..] == d[1..] + ([end] + rest);
      RunOf(text, i + 1, d[1..], end, rest);
      assert d == [d[0]] + d[1..];
    }
  }

  lemma NumeralStep(text: seq<byte>, i: nat, d: Numeral, end: byte, rest: seq<byte>, n: nat)
    requires i <= |text| && text[i..] == d + ([end] + rest) && !Digit(end) && n > 0 && d != [] && (n > 1 ==> end == DOT)
    ensures i + |d| < |text| && text[i + |d| + 1..] == rest
    ensures Numerals(text, i, n) == match Numerals(text, i + |d| + 1, n - 1)
                                    case None => None
                                    case Some((xs, stop)) => Some(([Number(Value(d), |d|)] + xs, stop))
  {
    RunOf(text, i, d, end, rest);
    hide Run, Numerals, Value, AllDigits, Digit;
    Suffixes(text, i, d, end, rest);
    OneMore(text, i, n);
  }

  lemma Suffixes(text: seq<byte>, i: nat, d: seq<byte>, end: byte, rest: seq<byte>)
    requires i <= |text| && text[i..] == d + ([end] + rest)
    ensures i + |d| < |text| && text[i + |d|] == end && text[i + |d| + 1..] == rest
  {
    var tail := d + ([end] + rest);
    assert text[i + |d|] == tail[|d|];
    assert text[i..][|d| + 1..] == tail[|d| + 1..];
    assert text[i + |d| + 1..] == text[i..][|d| + 1..];
  }

  lemma QuadIsRead(text: seq<byte>, i: nat, a: Numeral, b: Numeral, c: Numeral, d: Numeral, end: byte, after: seq<byte>)
    requires !Digit(end) && a != [] && b != [] && c != [] && d != []
    requires i <= |text| && text[i..] == a + ([DOT] + (b + ([DOT] + (c + ([DOT] + (d + ([end] + after)))))))
    ensures var stop := i + |a| + |b| + |c| + |d| + 4;
            && stop <= |text| && text[stop..] == after
            && Numerals(text, i, 4) == Some((Numbers(a, b, c, d), stop))
  {
    hide Numerals, Digit, AllDigits, Value;
    var r3 := d + ([end] + after);
    var r2 := c + ([DOT] + r3);
    var r1 := b + ([DOT] + r2);
    var i1 := i + |a| + 1;
    var i2 := i1 + |b| + 1;
    var i3 := i2 + |c| + 1;
    assert !Digit(DOT) by { DotIsNoDigit(); }
    NumeralStep(text, i, a, DOT, r1, 4);
    NumeralStep(text, i1, b, DOT, r2, 3);
    NumeralStep(text, i2, c, DOT, r3, 2);
    NumeralStep(text, i3, d, end, after, 1);
    NoMore(text, i3 + |d| + 1);
    var x, y, z, w := Number(Value(a), |a|), Number(Value(b), |b|), Number(Value(c), |c|), Number(Value(d), |d|);
    assert [x] + ([y] + ([z] + ([w] + []))) == [x, y, z, w];
  }

  function Numbers(a: Numeral, b: Numeral, c: Numeral, d: Numeral): (xs: seq<Number>)
    ensures |xs| == 4
  {
    [Number(Value(a), |a|), Number(Value(b), |b|), Number(Value(c), |c|), Number(Value(d), |d|)]
  }

  lemma DotIsNoDigit()
    ensures !Digit(DOT)
  {
  }

  lemma NoMore(text: seq<byte>, i: nat)
    requires i <= |text|
    ensures Numerals(text, i, 0) == Some(([], i))
  {
  }

  /**
   * Reading a printed address gives it back, wherever it stands and whatever
   * byte other than a digit follows it. The address 0.0.0.0 is the one that a
   * caller takes for a failure.
   */
  lemma PrintedIsRead(text: seq<byte>, i: nat, v: uint32, end: byte, after: seq<byte>)
    requires !(48 <= end <= 57) && i <= |text| && text[i..] == Printed(v) + ([end] + after)
    ensures var stop := i + |Printed(v)| + 1;
            Parsed(text, i) == (v, stop) && stop <= |text| && text[stop..] == after
  {
    var a, b, c, d := Decimal(Octet(v, 0)), Decimal(Octet(v, 1)), Decimal(Octet(v, 2)), Decimal(Octet(v, 3));
    assert Printed(v) == a + [DOT] + (b + [DOT] + (c + [DOT] + d));
    assert !Digit(end);
    hide *;
    Regrouped(a, b, c, d, [end] + after);
    QuadIsRead(text, i, a, b, c, d, end, after);
    PrintedNumbers(v);
    QuadIsParsed(text, i, Numbers(a, b, c, d), i + |Printed(v)| + 1);
    OctetsDetermine(v, Octet(v, 0), Octet(v, 1), Octet(v, 2), Octet(v, 3));
  }

  lemma PrintedNumbers(v: uint32)
    ensures var xs := Numbers(Decimal(Octet(v, 0)), Decimal(Octet(v, 1)), Decimal(Octet(v, 2)), Decimal(Octet(v, 3)));
            Octets(xs) && xs[0].value == Octet(v, 0) as int && xs[1].value == Octet(v, 1) as int
            && xs[2].value == Octet(v, 2) as int && xs[3].value == Octet(v, 3) as int
  {
    DecimalValue(Octet(v, 0));
    DecimalValue(Octet(v, 1));
    DecimalValue(Octet(v, 2));
    DecimalValue(Octet(v, 3));
    hide Decimal, Value, Octet;
  }

  lemma Regrouped(a: seq<byte>, b: seq<byte>, c: seq<byte>, d: seq<byte>, e: seq<byte>)
    ensures a + [DOT] + (b + [DOT] + (c + [DOT] + d)) + e == a + ([DOT] + (b + ([DOT] + (c + ([DOT] + (d + e))))))
    ensures |a + [DOT] + (b + [DOT] + (c + [DOT] + d))| == |a| + |b| + |c| + |d| + 3
  {
  }

  /** Two addresses printed alike are the same. */
  lemma PrintedDetermines(v: uint32, w: uint32)
    requires Printed(v) == Printed(w)
    ensures v == w
  {
    var text := Printed(v) + ([0] + []);
    hide Printed, Parsed;
    assert text[0..] == text;
    PrintedIsRead(text, 0, v, 0, []);
    PrintedIsRead(text, 0, w, 0, []);
  }

  /**
   * Four numerals are read exactly if they are there: digits, with dots between
   * them and behind them one byte that is no digit.
   */
  lemma SpelledOut(text: seq<byte>, i: nat, xs: seq<Number>, stop: nat)
      returns (a: Numeral, b: Numeral, c: Numeral, d: Numeral)
    requires i <= |text| && Numerals(text, i, 4) == Some((xs, stop))
    ensures a != [] && b != [] && c != [] && d != [] && xs == Numbers(a, b, c, d)
    ensures forall k :: k in a + b + c + d ==> 48 <= k <= 57
    ensures i + |a| + |b| + |c| + |d| + 4 == stop <= |text| && !(48 <= text[stop - 1] <= 57)
    ensures text[i..stop - 1] == a + [46] + b + [46] + c + [46] + d
  {
    hide *;
    var p, q, r;
    a, p := NextSpelled(text, i, 4);
    b, q := NextSpelled(text, p, 3);
    c, r := NextSpelled(text, q, 2);
    var e;
    d, e := NextSpelled(text, r, 1);
    NoMore(text, e);
    FourNumbers(a, b, c, d);
    Slices(text, i, p, q, r, e - 1);
    Flat(a, b, c, d);
    AreDigits(a);
    AreDigits(b);
    AreDigits(c);
    AreDigits(d);
  }

  lemma FourNumbers(a: Numeral, b: Numeral, c: Numeral, d: Numeral)
    ensures var x, y := Number(Value(a), |a|), Number(Value(b), |b|);
            var z, w := Number(Value(c), |c|), Number(Value(d), |d|);
            [x] + ([y] + ([z] + ([w] + []))) == Numbers(a, b, c, d)
  {
  }

  lemma Slices(text: seq<byte>, i: nat, p: nat, q: nat, r: nat, e: nat)
    requires i <= p <= q <= r <= e <= |text|
    ensures text[i..e] == text[i..p] + text[p..q] + text[q..r] + text[r..e]
  {
    assert text[i..q] == text[i..p] + text[p..q];
    assert text[i..r] == text[i..q] + text[q..r];
    assert text[i..e] == text[i..r] + text[r..e];
  }

  lemma Flat(a: seq<byte>, b: seq<byte>, c: seq<byte>, d: seq<byte>)
    ensures (a + [46]) + (b + [46]) + (c + [46]) + d == a + [46] + b + [46] + c + [46] + d
  {
    var ab := a + [46] + b + [46];
    assert (a + [46]) + (b + [46]) == ab;
    assert ab + (c + [46]) == ab + c + [46];
  }

  lemma NextSpelled(text: seq<byte>, i: nat, n: nat) returns (d: Numeral, stop: nat)
    requires i <= |text| && n > 0 && Numerals(text, i, n).Some?
    ensures d != [] && stop == i + |d| + 1 <= |text| && text[i..stop - 1] == d && !(48 <= text[stop - 1] <= 57)
    ensures n > 1 ==> text[stop - 1] == 46 && text[i..stop] == d + [46]
    ensures Numerals(text, stop, n - 1).Some?
    ensures var (xs, end) := Numerals(text, i, n).value;
            var (ys, end') := Numerals(text, stop, n - 1).value;
            xs == [Number(Value(d), |d|)] + ys && end == end'
  {
    d, stop := Run(text, i), i + |Run(text, i)| + 1;
    RunIsMaximal(text, i);
    assert text[i..stop - 1] == d;
  }

  lemma AreDigits(d: Numeral)
    ensures forall k :: k in d ==> 48 <= k <= 57
  {
  }

  /** Longer numerals wrap around: "65537.0.0.1" is read as 1.0.0.1. */
  lemma WrappedNumeral()
    ensures var text := [54, 53, 53, 51, 55, DOT, 48, DOT, 48, DOT, 49, 0];
            Parsed(text, 0) == (FromOctets(1, 0, 0, 1), |text|)
  {
    var text: seq<byte> := [54, 53, 53, 51, 55, DOT, 48, DOT, 48, DOT, 49, 0];
    var a: Numeral, zero: Numeral, one: Numeral := [54, 53, 53, 51, 55], [48], [49];
    assert text[0..] == a + ([DOT] + (zero + ([DOT] + (zero + ([DOT] + (one + ([0] + [])))))));
    hide *;
    ZeroEnds();
    QuadIsRead(text, 0, a, zero, zero, one, 0, []);
    DigitValues(a, zero, one);
    var xs := Numbers(a, zero, zero, one);
    NumbersAre(a, zero, zero, one);
    WrappedPass(xs);
    PassedIs(text, 0, xs, |text|);
    SumOfFour(xs);
    FourSteps(1, 0, 0, 1);
  }

  lemma ZeroEnds()
    ensures !Digit(0)
  {
  }

  lemma NumbersAre(a: Numeral, b: Numeral, c: Numeral, d: Numeral)
    ensures var xs := Numbers(a, b, c, d);
            && xs[0].value == Value(a) && xs[1].value == Value(b)
            && xs[2].value == Value(c) && xs[3].value == Value(d)
  {
  }

  lemma PassedIs(text: seq<byte>, at: nat, xs: seq<Number>, stop: nat)
    requires at <= |text| && Numerals(text, at, 4) == Some((xs, stop)) && AllPass(xs)
    ensures Parsed(text, at) == (Swapped(Sum(xs)), stop)
  {
  }

  lemma WrappedPass(xs: seq<Number>)
    requires |xs| == 4 && xs[0].value == 65537 && xs[1].value == xs[2].value == 0 && xs[3].value == 1
    ensures AllPass(xs)
    ensures Wrap16(xs[0].value) == Wrap16(xs[3].value) == 1 && Wrap16(xs[1].value) == Wrap16(xs[2].value) == 0
  {
  }

  lemma DigitValues(a: Numeral, zero: Numeral, one: Numeral)
    requires a == [54, 53, 53, 51, 55] && zero == [48] && one == [49]
    ensures Value(a) == 65537 && Value(zero) == 0 && Value(one) == 1
  {
    assert zero[..0] == [] && one[..0] == [];
    assert a[..4][..3] == a[..3] && a[..3][..2] == a[..2] && a[..2][..1] == a[..1] && a[..1][..0] == [];
    assert Value(a[..1]) == 6 && Value(a[..2]) == 65 && Value(a[..3]) == 655 && Value(a[..4]) == 6553;
  }

  // --- three addresses -------------------------------------------------------------------------

  /** The addresses that an `ipconfig` command sets. */
  class Settings {
    var ipaddr: uint32
    var gwaddr: uint32
    var netmask: uint32

    /**
     * The three addresses of the command. The first failure ends it, with that
     * address already overwritten and those behind it as they were.
     */
    method ReadAddresses(text: seq<byte>, at: nat) returns (ok: bool)
      requires at <= |text| && Bounded(text, at, 4)
      requires Parsed(text, at).0 != INVALID ==>
                 var p := Parsed(text, at).1;
                 Bounded(text, p, 4) && (Parsed(text, p).0 != INVALID ==> Bounded(text, Parsed(text, p).1, 4))
      modifies this
      ensures var (a, p) := Parsed(text, at);
              var (b, q) := Parsed(text, p);
              var (c, r) := Parsed(text, q);
              && ipaddr == a
              && gwaddr == (if a == INVALID then old(gwaddr) else b)
              && netmask == (if a == INVALID || b == INVALID then old(netmask) else c)
              && (ok <==> a != INVALID && b != INVALID && c != INVALID)
    {
      hide Parsed, Bounded;
      var ptr;
      ipaddr, ptr := IpToInt(text, at);
      if ipaddr == INVALID {
        return false;
      }
      gwaddr, ptr := IpToInt(text, ptr);
      if gwaddr == INVALID {
        return false;
      }
      netmask, ptr := IpToInt(text, ptr);
      ok := netmask != INVALID;
    }
  }

  /** Three printed addresses with single bytes between them are read back. */
  lemma ThreePrintedAreRead(text: seq<byte>, i: nat, a: uint32, b: uint32, c: uint32, after: seq<byte>)
    requires i <= |text|
    requires text[i..] == Printed(a) + ([32] + (Printed(b) + ([32] + (Printed(c) + ([0] + after)))))
    ensures var (v, p) := Parsed(text, i);
            v == a && p <= |text| &&
            var (w, q) := Parsed(text, p);
            w == b && q <= |text| && Parsed(text, q).0 == c
  {
    hide Parsed, Printed;
    PrintedIsRead(text, i, a, 32, Printed(b) + ([32] + (Printed(c) + ([0] + after))));
    var p := i + |Printed(a)| + 1;
    PrintedIsRead(text, p, b, 32, Printed(c) + ([0] + after));
    PrintedIsRead(text, p + |Printed(b)| + 1, c, 0, after);
  }
}
