/**
 * Division of polynomials over GF(2) by x^8 + x^5 + x^4 + 1, and the two CRC
 * routines of the firmware that both compute it: checkCRC (htu21d.c) works on
 * the most significant bit first, dsCRC8 (temperature.c) on the least.
 *
 * A polynomial is the sequence of its coefficients, the highest first.
 */
module Crc8 {

  type Poly = seq<bool>

  /** The divisor without its leading coefficient: x^5 + x^4 + 1. */
  const TAIL: Poly := [false, false, true, true, false, false, false, true]

  function Zeros(n: nat): (z: Poly)
    ensures |z| == n && forall i :: 0 <= i < n ==> !z[i]
  {
    seq(n, _ => false)
  }

  function Add(a: Poly, b: Poly): (c: Poly)
    requires |a| == |b|
    ensures |c| == |a| && forall i :: 0 <= i < |c| ==> c[i] == (a[i] != b[i])
  {
    seq(|a|, i requires 0 <= i < |a| => a[i] != b[i])
  }

  /** `a` with the tail of the divisor added to its first eight coefficients. */
  function AddTail(a: Poly): (c: Poly)
    requires |a| >= 8
    ensures |c| == |a| && forall i :: 0 <= i < |c| ==> c[i] == (a[i] != (i < 8 && TAIL[i]))
  {
    seq(|a|, i requires 0 <= i < |a| => a[i] != (i < 8 && TAIL[i]))
  }

  lemma TailTwice(a: Poly)
    requires |a| >= 8
    ensures AddTail(AddTail(a)) == a
  {
  }

  lemma TailOfSum(a: Poly, b: Poly)
    requires |a| == |b| >= 8
    ensures AddTail(Add(a, b)) == Add(AddTail(a), b)
  {
  }

  lemma TailOfRegister(x: Poly, z: Poly)
    requires |x| == 8
    ensures AddTail(x + z) == AddTail(x) + z
  {
  }

  lemma SumCons(b: bool, a: Poly, c: Poly)
    requires |a| == |c|
    ensures Add([b] + a, [false] + c) == [b] + Add(a, c)
  {
  }

  // --- division ------------------------------------------------------------------

  /** Product of `q` with the divisor. */
  function Times(q: Poly): (p: Poly)
    ensures |p| == |q| + 8
  {
    if q == [] then Zeros(8)
    else [q[0]] + (if q[0] then AddTail(Times(q[1..])) else Times(q[1..]))
  }

  /** Long division: the divisor is taken off wherever the leading coefficient is 1. */
  function Rem(s: Poly): (r: Poly)
    requires |s| >= 8
    ensures |r| == 8
    decreases |s|
  {
    if |s| == 8 then s else if s[0] then Rem(AddTail(s[1..])) else Rem(s[1..])
  }

  ghost predicate Remainder(s: Poly, r: Poly)
    requires |s| >= 8 && |r| == 8
  {
    exists q: Poly :: |q| == |s| - 8 && s == Add(Times(q), Zeros(|q|) + r)
  }

  lemma {:induction false} RemOfProduct(q: Poly, r: Poly)
    requires |r| == 8
    ensures Rem(Add(Times(q), Zeros(|q|) + r)) == r
  {
    hide Add, AddTail, Zeros;
    if q == [] {
      AddZeros(r);
      assert Zeros(0) + r == r && Times(q) == Zeros(8);
    } else {
      var p, z := Times(q[1..]), Zeros(|q| - 1) + r;
      RemOfProduct(q[1..], r);
      ZerosCons(|q| - 1, r);
      ProductStep(q[0], p, z);
    }
  }

  lemma ProductStep(b: bool, p: Poly, z: Poly)
    requires |p| == |z| >= 8
    ensures Rem(Add([b] + (if b then AddTail(p) else p), [false] + z)) == Rem(Add(p, z))
  {
    hide Add, AddTail;
    var x := if b then AddTail(p) else p;
    SumCons(b, x, z);
    assert ([b] + Add(x, z))[1..] == Add(x, z);
    if b {
      TailOfSum(x, z);
      TailTwice(p);
    }
  }

  lemma ZerosCons(n: nat, r: Poly)
    ensures Zeros(n + 1) + r == [false] + (Zeros(n) + r)
  {
  }

  lemma NoQuotient(s: Poly)
    requires |s| == 8
    ensures s == Add(Times([]), Zeros(0) + Rem(s))
  {
    hide Add;
    assert Zeros(0) + Rem(s) == s && Times([]) == Zeros(8);
    AddZeros(s);
  }

  lemma {:induction false} QuotientExists(s: Poly) returns (q: Poly)
    requires |s| >= 8
    ensures |q| == |s| - 8 && s == Add(Times(q), Zeros(|q|) + Rem(s))
    decreases |s|
  {
    hide Add, AddTail, Times, Zeros;
    if |s| == 8 {
      q := [];
      NoQuotient(s);
    } else {
      var t := if s[0] then AddTail(s[1..]) else s[1..];
      var q' := QuotientExists(t);
      q := [s[0]] + q';
      ZerosCons(|q'|, Rem(t));
      QuotientStep(s[0], q', s[1..], Zeros(|q'|) + Rem(t));
      assert s == [s[0]] + s[1..];
    }
  }

  lemma QuotientStep(b: bool, q: Poly, s: Poly, z: Poly)
    requires |s| == |z| == |q| + 8
    requires (if b then AddTail(s) else s) == Add(Times(q), z)
    ensures Add(Times([b] + q), [false] + z) == [b] + s
  {
    hide Add, AddTail;
    assert ([b] + q)[1..] == q;
    var p := if b then AddTail(Times(q)) else Times(q);
    assert Times([b] + q) == [b] + p;
    SumCons(b, p, z);
    if b {
      TailOfSum(Times(q), z);
      TailTwice(s);
    }
  }

  /** `Rem` is the remainder: the one polynomial of degree below 8 that differs from `s` by a multiple. */
  lemma RemIsTheRemainder(s: Poly, r: Poly)
    requires |s| >= 8 && |r| == 8
    ensures Remainder(s, r) <==> r == Rem(s)
  {
    if Remainder(s, r) {
      var q: Poly :| |q| == |s| - 8 && s == Add(Times(q), Zeros(|q|) + r);
      RemOfProduct(q, r);
    }
    var q := QuotientExists(s);
  }

  // --- the shift register ----------------------------------------------------------

  /** One bit into the register: what falls out decides whether the divisor is taken off. */
  function Shift(r: Poly, b: bool): (r': Poly)
    requires |r| == 8
    ensures |r'| == 8
  {
    if r[0] != b then AddTail(r[1..] + [false]) else r[1..] + [false]
  }

  function Register(r: Poly, m: Poly): (r': Poly)
    requires |r| == 8
    ensures |r'| == 8
    decreases |m|
  {
    if m == [] then r else Register(Shift(r, m[0]), m[1..])
  }

  /** The CRC of a bit string. */
  function Crc(m: Poly): (c: Poly)
    ensures |c| == 8
  {
    Register(Zeros(8), m)
  }

  lemma SumConsBits(p: bool, q: bool, a: Poly, c: Poly)
    requires |a| == |c|
    ensures Add([p] + a, [q] + c) == [p != q] + Add(a, c)
  {
  }

  lemma ShiftStep(r: Poly, b: bool, z: Poly, y: Poly)
    requires |r| == 8 && |y| == |z| + 8
    ensures Rem(Add(r + ([false] + z), [b] + y)) == Rem(Add(Shift(r, b) + z, y))
  {
    hide Add, AddTail;
    var x := r[1..] + [false];
    assert r + ([false] + z) == [r[0]] + (x + z);
    SumConsBits(r[0], b, x + z, y);
    var s := [r[0] != b] + Add(x + z, y);
    assert s[1..] == Add(x + z, y);
    if r[0] != b {
      TailOfSum(x + z, y);
      TailOfRegister(x, z);
    }
  }

  lemma NothingShifted(r: Poly, c: Poly)
    requires |r| == |c| == 8
    ensures Rem(Add(r + Zeros(0), [] + c)) == Add(r, c)
  {
    assert r + Zeros(0) == r && [] + c == c;
  }

  /** The register computes the division, the eight bits `c` after the message included. */
  lemma {:induction false} RegisterDivides(r: Poly, m: Poly, c: Poly)
    requires |r| == |c| == 8
    ensures Rem(Add(r + Zeros(|m|), m + c)) == Add(Register(r, m), c)
    decreases |m|
  {
    hide Add, Rem, Shift;
    if m == [] {
      NothingShifted(r, c);
    } else {
      var z, y := Zeros(|m| - 1), m[1..] + c;
      RegisterDivides(Shift(r, m[0]), m[1..], c);
      ShiftStep(r, m[0], z, y);
      assert Zeros(|m|) == [false] + z;
      assert m + c == [m[0]] + y;
    }
  }

  lemma AddZeros(a: Poly)
    ensures Add(Zeros(|a|), a) == a == Add(a, Zeros(|a|))
    ensures Add(a, a) == Zeros(|a|)
  {
  }

  /** The CRC is the remainder of the message times x^8; message and check bits divide iff they match. */
  lemma CrcIsRemainder(m: Poly, c: Poly)
    requires |c| == 8
    ensures Crc(m) == Rem(m + Zeros(8))
    ensures Rem(m + c) == Add(Crc(m), c)
    ensures Rem(m + c) == Zeros(8) <==> c == Crc(m)
  {
    RegisterDivides(Zeros(8), m, c);
    RegisterDivides(Zeros(8), m, Zeros(8));
    assert Zeros(8) + Zeros(|m|) == Zeros(|m + c|);
    AddZeros(m + c);
    AddZeros(m + Zeros(8));
    AddZeros(Crc(m));
    if Add(Crc(m), c) == Zeros(8) {
      forall i | 0 <= i < 8
        ensures c[i] == Crc(m)[i]
      {
        assert !Add(Crc(m), c)[i];
      }
      assert c == Crc(m);
    }
  }

  // --- what the CRC detects -----------------------------------------------------------

  lemma {:induction false} RegisterConcat(r: Poly, a: Poly, b: Poly)
    requires |r| == 8
    ensures Register(r, a + b) == Register(Register(r, a), b)
    decreases |a|
  {
    if a == [] {
      assert a + b == b;
    } else {
      RegisterConcat(Shift(r, a[0]), a[1..], b);
      assert (a + b)[1..] == a[1..] + b;
    }
  }

  /** The CRC is linear: of a sum it is the sum. */
  lemma {:induction false} RegisterIsLinear(r: Poly, r': Poly, m: Poly, m': Poly)
    requires |r| == |r'| == 8 && |m| == |m'|
    ensures Register(Add(r, r'), Add(m, m')) == Add(Register(r, m), Register(r', m'))
    decreases |m|
  {
    if m != [] {
      RegisterIsLinear(Shift(r, m[0]), Shift(r', m'[0]), m[1..], m'[1..]);
      assert Shift(Add(r, r'), m[0] != m'[0]) == Add(Shift(r, m[0]), Shift(r', m'[0]));
      assert Add(m, m')[1..] == Add(m[1..], m'[1..]);
    }
  }

  /** Feeding the register its own first bits shifts them out. */
  lemma {:induction false} RegisterOfItself(r: Poly, k: nat)
    requires |r| == 8 && k <= 8
    ensures Register(r, r[..k]) == r[k..] + Zeros(k)
    decreases k
  {
    if k == 0 {
      assert r[0..] + Zeros(0) == r;
    } else {
      var r' := r[1..] + [false];
      RegisterOfItself(r', k - 1);
      assert r[..k][1..] == r'[..k - 1];
      assert r'[k - 1..] + Zeros(k - 1) == r[k..] + Zeros(k);
    }
  }

  /** Zeros shifted in never bring a non-zero register to zero, nor a zero one away from it. */
  lemma {:induction false} ZerosKeepTheRegister(r: Poly, n: nat)
    requires |r| == 8
    ensures Register(r, Zeros(n)) == Zeros(8) <==> r == Zeros(8)
    decreases n
  {
    if n > 0 {
      var r' := Shift(r, false);
      assert Zeros(n)[1..] == Zeros(n - 1);
      ZerosKeepTheRegister(r', n - 1);
      if r == Zeros(8) {
        assert r' == Zeros(8);
      } else if r[0] {
        assert r'[7];
      } else {
        var i :| 0 <= i < 8 && r[i] != Zeros(8)[i];
        assert r'[i - 1];
      }
    }
  }

  /** At most eight bits with a 1 among them leave the register non-zero. */
  lemma ShortErrorShows(w: Poly)
    requires |w| <= 8
    ensures Crc(w) == Zeros(8) <==> w == Zeros(|w|)
  {
    var k := |w|;
    var x := w + Zeros(8 - k);
    RegisterIsLinear(Zeros(8), x, w, w);
    AddZeros(x);
    AddZeros(w);
    RegisterOfItself(x, k);
    assert x[..k] == w && x[k..] + Zeros(k) == Zeros(8);
    AddZeros(Crc(w));
    assert Register(x, Zeros(k)) == Crc(w);
    ZerosKeepTheRegister(x, k);
    if x == Zeros(8) {
      assert w == x[..k];
      assert w == Zeros(k);
    }
  }

  /** Two messages that differ, but only within eight consecutive bits, have different CRCs. */
  lemma BurstIsDetected(m: Poly, m': Poly, i: nat)
    requires |m| == |m'| && i <= |m| && m != m'
    requires forall j :: 0 <= j < |m| && m[j] != m'[j] ==> i <= j < i + 8
    ensures Crc(m) != Crc(m')
  {
    var e := Add(m, m');
    var n := if i + 8 <= |m| then i + 8 else |m|;
    var w := e[i..n];
    RegisterIsLinear(Zeros(8), Zeros(8), m, m');
    AddZeros(Zeros(8));
    assert e == Zeros(i) + (w + Zeros(|m| - n));
    RegisterConcat(Zeros(8), Zeros(i), w + Zeros(|m| - n));
    ZerosKeepTheRegister(Zeros(8), i);
    RegisterConcat(Zeros(8), w, Zeros(|m| - n));
    ZerosKeepTheRegister(Crc(w), |m| - n);
    ShortErrorShows(w);
    var j :| 0 <= j < |m| && m[j] != m'[j];
    assert w[j - i];
    AddZeros(Crc(m));
  }
}
