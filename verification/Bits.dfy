/** Bits of natural numbers, and the two bit-field operations of the ENC28J60 on bytes. */
module Bits {
  import opened Bytes

  predicate Bit(v: nat, k: nat) {
    if k == 0 then v % 2 == 1 else Bit(v / 2, k - 1)
  }

  function Or(a: nat, b: nat): nat
    decreases a + b
  {
    if a == 0 || b == 0 then a + b
    else 2 * Or(a / 2, b / 2) + (if a % 2 == 1 || b % 2 == 1 then 1 else 0)
  }

  function Masked(a: nat, b: nat): nat {
    if a == 0 then 0
    else 2 * Masked(a / 2, b / 2) + (if a % 2 == 1 && b % 2 == 1 then 1 else 0)
  }

  function AndNot(a: nat, b: nat): nat {
    if a == 0 then 0
    else 2 * AndNot(a / 2, b / 2) + (if a % 2 == 1 && b % 2 == 0 then 1 else 0)
  }

  function Pow2(n: nat): (p: nat)
    ensures p > 0
  {
    if n == 0 then 1 else 2 * Pow2(n - 1)
  }

  lemma NoBits(k: nat)
    ensures !Bit(0, k)
  {
    if k > 0 { NoBits(k - 1); }
  }

  lemma {:induction false} OrBit(a: nat, b: nat, k: nat)
    ensures Bit(Or(a, b), k) <==> Bit(a, k) || Bit(b, k)
    decreases k
  {
    if a == 0 || b == 0 {
      NoBits(k);
    } else if k > 0 {
      OrBit(a / 2, b / 2, k - 1);
      assert Or(a, b) / 2 == Or(a / 2, b / 2);
    }
  }

  lemma {:induction false} AndNotBit(a: nat, b: nat, k: nat)
    ensures Bit(AndNot(a, b), k) <==> Bit(a, k) && !Bit(b, k)
    decreases k
  {
    if a == 0 {
      NoBits(k);
    } else if k > 0 {
      AndNotBit(a / 2, b / 2, k - 1);
      assert AndNot(a, b) / 2 == AndNot(a / 2, b / 2);
    }
  }

  lemma {:induction false} Bounds(a: nat, b: nat, n: nat)
    requires a < Pow2(n) && b < Pow2(n)
    ensures Or(a, b) < Pow2(n) && AndNot(a, b) < Pow2(n)
    decreases n
  {
    if n > 0 {
      Bounds(a / 2, b / 2, n - 1);
    }
  }

  lemma ByteIsEightBits()
    ensures Pow2(8) == 256
  {
    assert Pow2(4) == 16;
  }

  function SetBits(v: byte, mask: byte): (r: byte)
    ensures forall k: nat :: Bit(r, k) <==> Bit(v, k) || Bit(mask, k)
  {
    ByteIsEightBits();
    Bounds(v, mask, 8);
    assert forall k: nat :: Bit(Or(v, mask), k) <==> Bit(v, k) || Bit(mask, k) by {
      forall k: nat { OrBit(v, mask, k); }
    }
    Or(v, mask)
  }

  function ClearBits(v: byte, mask: byte): (r: byte)
    ensures forall k: nat :: Bit(r, k) <==> Bit(v, k) && !Bit(mask, k)
  {
    ByteIsEightBits();
    Bounds(v, mask, 8);
    assert forall k: nat :: Bit(AndNot(v, mask), k) <==> Bit(v, k) && !Bit(mask, k) by {
      forall k: nat { AndNotBit(v, mask, k); }
    }
    AndNot(v, mask)
  }

  lemma LowTwoBits(v: nat)
    ensures v % 4 == (if Bit(v, 0) then 1 else 0) + (if Bit(v, 1) then 2 else 0)
  {
    assert Bit(v, 1) == Bit(v / 2, 0);
  }

  lemma {:induction false} PowerBit(n: nat, k: nat)
    ensures Bit(Pow2(n), k) <==> k == n
    decreases n
  {
    if n == 0 {
      if k > 0 { NoBits(k - 1); }
    } else if k > 0 {
      PowerBit(n - 1, k - 1);
    }
  }

  /** A mask with the single bit `n`. */
  function Mask(n: nat): (m: byte)
    requires n < 8
    ensures forall k: nat :: Bit(m, k) <==> k == n
  {
    ByteIsEightBits();
    assert forall k: nat :: Bit(Pow2(n), k) <==> k == n by {
      forall k: nat { PowerBit(n, k); }
    }
    assert Pow2(n) < 256 by { PowerGrows(n, 8); }
    Pow2(n)
  }

  lemma PowerGrows(m: nat, n: nat)
    requires m < n
    ensures Pow2(m) < Pow2(n)
  {
    if m + 1 < n { PowerGrows(m, n - 1); }
  }

  function Xor(a: nat, b: nat): nat
    decreases a + b
  {
    if a == 0 || b == 0 then a + b
    else 2 * Xor(a / 2, b / 2) + (if a % 2 != b % 2 then 1 else 0)
  }

  lemma {:induction false} XorBit(a: nat, b: nat, k: nat)
    ensures Bit(Xor(a, b), k) <==> Bit(a, k) != Bit(b, k)
    decreases k
  {
    if a == 0 || b == 0 {
      NoBits(k);
    } else if k > 0 {
      XorBit(a / 2, b / 2, k - 1);
      assert Xor(a, b) / 2 == Xor(a / 2, b / 2);
    }
  }

  lemma {:induction false} XorBound(a: nat, b: nat, n: nat)
    requires a < Pow2(n) && b < Pow2(n)
    ensures Xor(a, b) < Pow2(n)
    decreases n
  {
    if n > 0 {
      XorBound(a / 2, b / 2, n - 1);
    }
  }

  lemma {:induction false} HighBitsAreZero(v: nat, n: nat, k: nat)
    requires v < Pow2(n) && n <= k
    ensures !Bit(v, k)
    decreases n
  {
    if n == 0 {
      NoBits(k);
    } else {
      HighBitsAreZero(v / 2, n - 1, k - 1);
    }
  }

  /** Numbers below 2^n are told apart by their first n bits. */
  lemma {:induction false} BitsDetermine(v: nat, w: nat, n: nat)
    requires v < Pow2(n) && w < Pow2(n)
    requires forall k: nat :: k < n ==> (Bit(v, k) <==> Bit(w, k))
    ensures v == w
    decreases n
  {
    if n > 0 {
      assert Bit(v, 0) == Bit(w, 0);
      forall k: nat | k < n - 1
        ensures Bit(v / 2, k) == Bit(w / 2, k)
      {
        assert Bit(v, k + 1) == Bit(w, k + 1);
      }
      BitsDetermine(v / 2, w / 2, n - 1);
    }
  }

  lemma {:induction false} ShiftedBit(v: nat, n: nat, k: nat)
    ensures Bit(v * Pow2(n), k) <==> k >= n && Bit(v, k - n)
    decreases n
  {
    if n > 0 {
      assert v * Pow2(n) == 2 * (v * Pow2(n - 1));
      if k > 0 {
        ShiftedBit(v, n - 1, k - 1);
      }
    }
  }

  /** A number whose bits from m on are zero is below 2^m. */
  lemma {:induction false} SmallByBits(v: nat, n: nat, m: nat)
    requires v < Pow2(n) && m <= n
    requires forall k: nat :: m <= k < n ==> !Bit(v, k)
    ensures v < Pow2(m)
    decreases m
  {
    if m == 0 {
      forall k: nat | k < n
        ensures Bit(v, k) <==> Bit(0, k)
      {
        NoBits(k);
      }
      BitsDetermine(v, 0, n);
    } else {
      forall k: nat | m - 1 <= k < n - 1
        ensures !Bit(v / 2, k)
      {
        assert !Bit(v, k + 1);
      }
      SmallByBits(v / 2, n - 1, m - 1);
    }
  }

  /** The first n bits, the least significant first. */
  function Lsb(v: nat, n: nat): (s: seq<bool>)
    ensures |s| == n && forall i :: 0 <= i < n ==> s[i] == Bit(v, i)
  {
    seq(n, i requires 0 <= i < n => Bit(v, i))
  }

  /** The first n bits, the most significant first. */
  function Msb(v: nat, n: nat): (s: seq<bool>)
    ensures |s| == n && forall i :: 0 <= i < n ==> s[i] == Bit(v, n - 1 - i)
  {
    seq(n, i requires 0 <= i < n => Bit(v, n - 1 - i))
  }

  /** The value of the first n bits. */
  function Weighted(v: nat, n: nat): nat {
    if n == 0 then 0 else Weighted(v, n - 1) + (if Bit(v, n - 1) then Pow2(n - 1) else 0)
  }

  lemma {:induction false} WeightedHalf(v: nat, n: nat)
    ensures Weighted(v, n + 1) == v % 2 + 2 * Weighted(v / 2, n)
    decreases n
  {
    if n == 0 {
      assert Weighted(v, 1) == Weighted(v, 0) + v % 2;
    } else {
      WeightedHalf(v, n - 1);
    }
  }

  lemma {:induction false} WeightedIsValue(v: nat, n: nat)
    requires v < Pow2(n)
    ensures Weighted(v, n) == v
    decreases n
  {
    if n > 0 {
      WeightedIsValue(v / 2, n - 1);
      WeightedHalf(v, n - 1);
    }
  }

  /** Masking with 2^n - 1 keeps the part below 2^n. */
  lemma {:induction false} AndLow(h: nat, lo: nat, n: nat)
    requires lo < Pow2(n)
    ensures Masked(h * Pow2(n) + lo, Pow2(n) - 1) == lo
    decreases n
  {
    if n == 0 {
      AndZero(h);
    } else {
      var p, x := Pow2(n - 1), h * Pow2(n - 1);
      assert h * Pow2(n) == 2 * x;
      AndLow(h, lo / 2, n - 1);
      AndStep(2 * x + lo, 2 * p - 1);
      assert (2 * x + lo) / 2 == x + lo / 2 && (2 * p - 1) / 2 == p - 1;
    }
  }

  /** A mask that begins at bit n. */
  lemma {:induction false} AndHigh(h: nat, lo: nat, b: nat, n: nat)
    requires lo < Pow2(n)
    ensures Masked(h * Pow2(n) + lo, b * Pow2(n)) == Masked(h, b) * Pow2(n)
    decreases n
  {
    hide Masked;
    if n == 0 {
      assert h * Pow2(0) + lo == h && b * Pow2(0) == b;
    } else {
      Doubled(h, n);
      Doubled(b, n);
      Doubled(Masked(h, b), n);
      AndHigh(h, lo / 2, b, n - 1);
      AndDoubled(h * Pow2(n - 1), lo, b * Pow2(n - 1));
    }
  }

  lemma Doubled(h: nat, n: nat)
    requires n > 0
    ensures h * Pow2(n) == 2 * (h * Pow2(n - 1)) && Pow2(n) == 2 * Pow2(n - 1)
  {
  }

  lemma AndDoubled(x: nat, lo: nat, y: nat)
    ensures Masked(2 * x + lo, 2 * y) == 2 * Masked(x + lo / 2, y)
  {
    AndStep(2 * x + lo, 2 * y);
    assert (2 * x + lo) / 2 == x + lo / 2;
  }

  lemma AndStep(a: nat, b: nat)
    ensures Masked(a, b) == 2 * Masked(a / 2, b / 2) + (if a % 2 == 1 && b % 2 == 1 then 1 else 0)
  {
  }

  lemma {:induction false} AndZero(a: nat)
    ensures Masked(a, 0) == 0
  {
    if a > 0 { AndZero(a / 2); }
  }

  /** Numbers without a common bit, one below 2^n and one a multiple of it, are added by "or". */
  lemma {:induction false} OrIsSum(h: nat, lo: nat, n: nat)
    requires lo < Pow2(n)
    ensures Or(h * Pow2(n), lo) == h * Pow2(n) + lo
    decreases n
  {
    if n > 0 && h > 0 && lo > 0 {
      var x := h * Pow2(n - 1);
      assert h * Pow2(n) == 2 * x;
      OrIsSum(h, lo / 2, n - 1);
    }
  }

  lemma {:induction false} OrSwapped(a: nat, b: nat)
    ensures Or(a, b) == Or(b, a)
    decreases a + b
  {
    if a > 0 && b > 0 {
      OrSwapped(a / 2, b / 2);
    }
  }
}
