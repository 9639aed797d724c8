/** The two CRC routines as the firmware computes them, each against the polynomial division. */
module CrcRoutines {
  import opened Bytes
  import opened Bits
  import opened Crc8

  // --- htu21d.c: most significant bit first ------------------------------------------

  const SHIFTED_DIVISOR: nat := 0x988000

  lemma DivisorBits(k: nat)
    ensures Bit(SHIFTED_DIVISOR, k) <==> k == 23 || (15 <= k < 23 && TAIL[22 - k])
  {
    assert SHIFTED_DIVISOR == 0x131 * Pow2(15) by { assert Pow2(8) == 256; assert Pow2(15) == 32768; }
    ShiftedBit(0x131, 15, k);
    if k >= 15 {
      SmallDivisorBits(k - 15);
    }
  }

  lemma SmallDivisorBits(k: nat)
    ensures Bit(0x131, k) <==> k in {0, 4, 5, 8}
  {
    assert Pow2(9) == 512 by { assert Pow2(5) == 32; }
    if k >= 9 {
      HighBitsAreZero(0x131, 9, k);
    }
  }

  /** The bits of a message with its check value behind it. */
  function Framed(message: nat, check: byte): Poly {
    Msb(message, 16) + Msb(check, 8)
  }

  lemma PaddedMessage(message: nat, check: byte)
    requires message < 0x10000
    ensures Msb(Or(message * 256, check), 24) == Framed(message, check)
    ensures Or(message * 256, check) < Pow2(24)
  {
    var v := Or(message * 256, check);
    ByteIsEightBits();
    assert Pow2(16) == 256 * Pow2(8) && Pow2(24) == 256 * Pow2(16) by {
      assert Pow2(10) == 4 * Pow2(8) && Pow2(13) == 8 * Pow2(10) && Pow2(16) == 8 * Pow2(13);
      assert Pow2(19) == 8 * Pow2(16) && Pow2(22) == 8 * Pow2(19) && Pow2(24) == 4 * Pow2(22);
    }
    Bounds(message * 256, check, 24);
    forall k: nat | k < 24
      ensures Bit(v, k) == if k < 8 then Bit(check, k) else Bit(message, k - 8)
    {
      OrBit(message * 256, check, k);
      ShiftedBit(message, 8, k);
      if k >= 8 {
        HighBitsAreZero(check, 8, k);
      }
    }
  }

  /** One division step: the leading bit is cleared, and the remainder stays the same. */
  lemma DivideStep(b: Poly, b': Poly, i: nat)
    requires |b| == |b'| == 24 && i < 16
    requires b[i] ==> forall j :: 0 <= j < 24 ==>
               b'[j] == (b[j] != (j == i || (i < j <= i + 8 && TAIL[j - i - 1])))
    requires !b[i] ==> b' == b
    ensures !b'[i] && Rem(b'[i + 1..]) == Rem(b[i..])
    ensures forall j :: 0 <= j < i ==> b'[j] == b[j]
  {
    assert b[i..][1..] == b[i + 1..];
    if b[i] {
      assert b'[i + 1..] == AddTail(b[i + 1..]);
    }
  }

  lemma XorStep(remainder: nat, divisor: nat, i: nat)
    requires i < 16 && remainder < Pow2(24)
    requires forall k: nat :: Bit(divisor, k) <==> Bit(SHIFTED_DIVISOR, k + i)
    ensures Xor(remainder, divisor) < Pow2(24)
    ensures forall j :: 0 <= j < 24 ==>
              Msb(Xor(remainder, divisor), 24)[j]
              == (Msb(remainder, 24)[j] != (j == i || (i < j <= i + 8 && TAIL[j - i - 1])))
  {
    forall j | 0 <= j < 24
      ensures Msb(Xor(remainder, divisor), 24)[j]
              == (Msb(remainder, 24)[j] != (j == i || (i < j <= i + 8 && TAIL[j - i - 1])))
    {
      XorBit(remainder, divisor, 23 - j);
      DivisorBits(23 - j + i);
    }
    forall k: nat | k >= 24
      ensures !Bit(Xor(remainder, divisor), k)
    {
      XorBit(remainder, divisor, k);
      HighBitsAreZero(remainder, 24, k);
      DivisorBits(k + i);
    }
    BoundByBits(Xor(remainder, divisor), 24);
  }

  /** A number without bits from n on is below 2^n. */
  lemma BoundByBits(v: nat, n: nat)
    requires forall k: nat :: k >= n ==> !Bit(v, k)
    ensures v < Pow2(n)
  {
    BelowItsPower(v);
    PowerMonotone(v, v + n);
    SmallByBits(v, v + n, n);
  }

  lemma BelowItsPower(v: nat)
    ensures v < Pow2(v)
  {
    if v > 0 { BelowItsPower(v - 1); }
  }

  lemma PowerMonotone(m: nat, n: nat)
    requires m <= n
    ensures Pow2(m) <= Pow2(n)
  {
    if m < n { PowerGrows(m, n); }
  }

  /** The division after `i` positions: so many leading bits are cleared, the remainder is that of `f`. */
  ghost predicate Dividing(remainder: nat, divisor: nat, i: nat, f: Poly)
    requires |f| == 24
  {
    && i <= 16 && remainder < Pow2(24)
    && (forall k: nat :: Bit(divisor, k) <==> Bit(SHIFTED_DIVISOR, k + i))
    && (forall j :: 0 <= j < i ==> !Msb(remainder, 24)[j])
    && Rem(Msb(remainder, 24)[i..]) == Rem(f)
  }

  lemma DividingOn(remainder: nat, divisor: nat, i: nat, f: Poly)
    requires |f| == 24 && Dividing(remainder, divisor, i, f) && i < 16
    ensures Dividing(if Bit(remainder, 23 - i) then Xor(remainder, divisor) else remainder, divisor / 2, i + 1, f)
  {
    hide Rem;
    var next := if Bit(remainder, 23 - i) then Xor(remainder, divisor) else remainder;
    XorStep(remainder, divisor, i);
    DivideStep(Msb(remainder, 24), Msb(next, 24), i);
    forall k: nat
      ensures Bit(divisor / 2, k) <==> Bit(SHIFTED_DIVISOR, k + (i + 1))
    {
      assert Bit(divisor / 2, k) == Bit(divisor, k + 1);
    }
  }

  lemma DivisionStarts(message: nat, check: byte)
    requires message < 0x10000
    ensures Dividing(Or(message * 256, check), SHIFTED_DIVISOR, 0, Framed(message, check))
  {
    hide Bit, Or;
    PaddedMessage(message, check);
    assert Msb(Or(message * 256, check), 24)[0..] == Framed(message, check);
  }

  lemma Divided(remainder: nat, divisor: nat, f: Poly)
    requires |f| == 24 && Dividing(remainder, divisor, 16, f)
    ensures remainder < 256 && Msb(remainder, 8) == Rem(f)
  {
    assert forall k: nat :: 8 <= k < 24 ==> Bit(remainder, k) == Msb(remainder, 24)[23 - k];
    SmallByBits(remainder, 24, 8);
    ByteIsEightBits();
    assert Msb(remainder, 8) == Msb(remainder, 24)[16..];
  }

  /** `checkCRC`: the remainder of message and check value; 0 exactly if the check value is the CRC. */
  method CheckCrc(message: nat, check: byte) returns (r: byte)
    requires message < 0x10000
    ensures Msb(r, 8) == Rem(Framed(message, check))
    ensures r == 0 <==> Msb(check, 8) == Crc(Msb(message, 16))
  {
    hide Bit, Rem, Xor, Or, Dividing;
    ghost var f := Framed(message, check);
    DivisionStarts(message, check);
    var remainder: nat := Or(message * 256, check);
    var divisor: nat := SHIFTED_DIVISOR;
    for i := 0 to 16
      invariant Dividing(remainder, divisor, i, f)
    {
      DividingOn(remainder, divisor, i, f);
      if Bit(remainder, 23 - i) {
        remainder := Xor(remainder, divisor);
      }
      divisor := divisor / 2;
    }
    Divided(remainder, divisor, f);
    r := remainder % 256;
    CrcIsRemainder(Msb(message, 16), Msb(check, 8));
    ZeroByte(r);
  }

  lemma ZeroByte(v: byte)
    ensures v == 0 <==> Msb(v, 8) == Zeros(8)
  {
    ByteIsEightBits();
    forall k: nat | k < 8
      ensures !Bit(0, k)
    {
      NoBits(k);
    }
    if Msb(v, 8) == Zeros(8) {
      forall k: nat | k < 8
        ensures Bit(v, k) == Bit(0, k)
      {
        assert !Msb(v, 8)[7 - k];
      }
      BitsDetermine(v, 0, 8);
    }
  }

  // --- temperature.c: least significant bit first -------------------------------------

  /** The bits of a message in the order they go over the wire. */
  function MessageBits(msg: seq<byte>): Poly {
    if msg == [] then [] else Lsb(msg[0], 8) + MessageBits(msg[1..])
  }

  lemma {:induction false} MessageBitsAppend(a: seq<byte>, b: seq<byte>)
    ensures MessageBits(a + b) == MessageBits(a) + MessageBits(b)
    decreases |a|
  {
    if a == [] {
      assert a + b == b;
    } else {
      MessageBitsAppend(a[1..], b);
      assert (a + b)[1..] == a[1..] + b;
    }
  }

  lemma LowestBits(k: nat)
    ensures Bit(0x8c, k) <==> k in {2, 3, 7}
  {
    ByteIsEightBits();
    if k >= 8 {
      HighBitsAreZero(0x8c, 8, k);
    }
  }

  /** One step of the inner loop is one shift of the register, bit 0 standing for x^7. */
  lemma ReflectedStep(crc: byte, inbyte: byte)
    ensures var shifted := crc / 2;
            var next := if crc % 2 != inbyte % 2 then Xor(shifted, 0x8c) else shifted;
            next < 256 && Lsb(next, 8) == Shift(Lsb(crc, 8), Bit(inbyte, 0))
  {
    var shifted := crc / 2;
    var next := if crc % 2 != inbyte % 2 then Xor(shifted, 0x8c) else shifted;
    ByteIsEightBits();
    HighBitsAreZero(crc, 8, 8);
    XorBound(shifted, 0x8c, 8);
    var t := Lsb(crc, 8)[1..] + [false];
    forall i: nat | i < 8
      ensures Bit(shifted, i) == t[i]
      ensures Bit(next, i) == Shift(Lsb(crc, 8), Bit(inbyte, 0))[i]
    {
      assert Bit(shifted, i) == Bit(crc, i + 1);
      XorBit(shifted, 0x8c, i);
      LowestBits(i);
    }
  }

  /** The register as the firmware holds it in a byte. */
  function DsCrc8Spec(msg: seq<byte>): Poly {
    Crc(MessageBits(msg))
  }

  /** `dsCRC8` */
  method DsCrc8(addr: seq<byte>, len: nat) returns (crc: byte)
    requires len <= |addr|
    ensures Lsb(crc, 8) == DsCrc8Spec(addr[..len])
  {
    crc := 0;
    var n := 0;
    assert Lsb(0, 8) == Zeros(8) by {
      forall k: nat | k < 8 ensures !Bit(0, k) { NoBits(k); }
    }
    while n < len
      invariant 0 <= n <= len
      invariant Lsb(crc, 8) == DsCrc8Spec(addr[..n])
    {
      ghost var r, bits := Lsb(crc, 8), Lsb(addr[n], 8);
      var inbyte := addr[n];
      for i := 0 to 8
        invariant forall k: nat :: Bit(inbyte, k) <==> Bit(addr[n], k + i)
        invariant Lsb(crc, 8) == Register(r, bits[..i])
      {
        ReflectedStep(crc, inbyte);
        RegisterConcat(r, bits[..i], [bits[i]]);
        assert bits[..i + 1] == bits[..i] + [bits[i]];
        var mix := crc % 2 != inbyte % 2;
        crc := crc / 2;
        if mix {
          crc := Xor(crc, 0x8c);
        }
        forall k: nat
          ensures Bit(inbyte / 2, k) <==> Bit(addr[n], k + (i + 1))
        {
          assert Bit(inbyte / 2, k) == Bit(inbyte, k + 1);
        }
        inbyte := inbyte / 2;
      }
      assert bits[..8] == bits;
      MessageBitsAppend(addr[..n], [addr[n]]);
      assert addr[..n + 1] == addr[..n] + [addr[n]];
      assert MessageBits([addr[n]]) == bits + MessageBits([]);
      assert bits + [] == bits;
      RegisterConcat(Zeros(8), MessageBits(addr[..n]), bits);
      n := n + 1;
    }
  }

  // --- what the two have in common, and what dsCRC8 promises ---------------------------

  /** For messages of any length dsCRC8 is the remainder of the message bits times x^8. */
  lemma DsCrc8IsRemainder(msg: seq<byte>, r: Poly)
    requires |r| == 8
    ensures Remainder(MessageBits(msg) + Zeros(8), r) <==> r == DsCrc8Spec(msg)
  {
    CrcIsRemainder(MessageBits(msg), Zeros(8));
    RemIsTheRemainder(MessageBits(msg) + Zeros(8), r);
  }

  // --- reflection ---------------------------------------------------------------------

  /** The first `k` bits of the byte with its bits in the opposite order. */
  function MirrorUpTo(v: byte, k: nat): (r: byte)
    requires k <= 8
    ensures forall i: nat :: Bit(r, i) <==> i < k && Bit(v, 7 - i)
  {
    if k == 0 then
      assert forall i: nat :: !Bit(0, i) by { forall i: nat { NoBits(i); } }
      0
    else if Bit(v, 8 - k) then SetBits(MirrorUpTo(v, k - 1), Mask(k - 1))
    else MirrorUpTo(v, k - 1)
  }

  function Mirror(v: byte): (r: byte)
    ensures Lsb(r, 8) == Msb(v, 8) && Msb(r, 8) == Lsb(v, 8)
  {
    MirrorUpTo(v, 8)
  }

  /** The message of checkCRC as bytes whose bits go over the wire in the same order. */
  function Reflected(message: nat): (msg: seq<byte>)
    requires message < 0x10000
  {
    [Mirror(message / 256), Mirror(message % 256)]
  }

  lemma {:induction false} SplitBits(h: nat, lo: nat, n: nat, i: nat)
    requires lo < Pow2(n)
    ensures Bit(Pow2(n) * h + lo, i) <==> if i < n then Bit(lo, i) else Bit(h, i - n)
    decreases n
  {
    if n > 0 {
      var x := Pow2(n - 1) * h;
      assert Pow2(n) * h == 2 * x;
      assert (2 * x + lo) / 2 == x + lo / 2 && (2 * x + lo) % 2 == lo % 2;
      if i > 0 {
        SplitBits(h, lo / 2, n - 1, i - 1);
      }
    }
  }

  lemma ReflectedBits(message: nat)
    requires message < 0x10000
    ensures MessageBits(Reflected(message)) == Msb(message, 16)
  {
    var hi, lo := message / 256, message % 256;
    ByteIsEightBits();
    assert message == Pow2(8) * hi + lo;
    forall i: nat | i < 8
      ensures Bit(hi, i) == Bit(message, i + 8) && Bit(lo, i) == Bit(message, i)
    {
      SplitBits(hi, lo, 8, i + 8);
      SplitBits(hi, lo, 8, i);
    }
    var msg := Reflected(message);
    assert MessageBits(msg) == Lsb(msg[0], 8) + MessageBits(msg[1..]) && msg[1..] == [msg[1]];
    assert MessageBits([msg[1]]) == Lsb(msg[1], 8) + [] == Lsb(msg[1], 8);
    var bits := Msb(message, 16);
    assert bits[..8] == Msb(hi, 8) && bits[8..] == Msb(lo, 8);
  }

  lemma SameMsb(a: byte, b: byte)
    ensures Msb(a, 8) == Msb(b, 8) <==> a == b
  {
    ByteIsEightBits();
    if Msb(a, 8) == Msb(b, 8) {
      forall k: nat | k < 8
        ensures Bit(a, k) == Bit(b, k)
      {
        assert Msb(a, 8)[7 - k] == Msb(b, 8)[7 - k];
      }
      BitsDetermine(a, b, 8);
    }
  }

  /** For every message, checkCRC accepts exactly the reflected dsCRC8 of the reflected message. */
  lemma RoutinesAgree(message: nat, check: byte, crc: byte)
    requires message < 0x10000 && Lsb(crc, 8) == DsCrc8Spec(Reflected(message))
    ensures Rem(Framed(message, check)) == Zeros(8) <==> check == Mirror(crc)
  {
    ReflectedBits(message);
    CrcIsRemainder(Msb(message, 16), Msb(check, 8));
    SameMsb(check, Mirror(crc));
  }

  /** Splitting a message: the CRC of the first part is the register the second part starts with. */
  lemma DsCrc8Splits(a: seq<byte>, b: seq<byte>)
    ensures DsCrc8Spec(a + b) == Register(DsCrc8Spec(a), MessageBits(b))
  {
    MessageBitsAppend(a, b);
    RegisterConcat(Zeros(8), MessageBits(a), MessageBits(b));
  }

  lemma RegisterMeets(r: Poly, b: Poly)
    requires |r| == |b| == 8
    ensures Register(r, b) == Zeros(8) <==> r == b
  {
    RegisterOfItself(b, 8);
    assert b[..8] == b && b[8..] + Zeros(8) == Zeros(8);
    RegisterIsLinear(r, b, b, b);
    AddZeros(b);
    AddZeros(Register(r, b));
    ZerosKeepTheRegister(Add(r, b), 8);
    if Add(r, b) == Zeros(8) {
      forall i | 0 <= i < 8
        ensures r[i] == b[i]
      {
        assert !Add(r, b)[i];
      }
      assert r == b;
    }
  }

  /** A message with one more byte has CRC 0 exactly if that byte is its CRC. */
  lemma AppendedCrc(msg: seq<byte>, c: byte)
    ensures DsCrc8Spec(msg + [c]) == Zeros(8) <==> Lsb(c, 8) == DsCrc8Spec(msg)
  {
    DsCrc8Splits(msg, [c]);
    assert MessageBits([c]) == Lsb(c, 8) + MessageBits([]);
    assert Lsb(c, 8) + [] == Lsb(c, 8);
    RegisterMeets(DsCrc8Spec(msg), Lsb(c, 8));
  }

  function XorBytes(a: seq<byte>, b: seq<byte>): (c: seq<byte>)
    requires |a| == |b|
    ensures |c| == |a|
  {
    if a == [] then []
    else
      ByteIsEightBits();
      XorBound(a[0], b[0], 8);
      [Xor(a[0], b[0]) as byte] + XorBytes(a[1..], b[1..])
  }

  lemma XorByte(a: byte, b: byte)
    ensures Lsb(Xor(a, b), 8) == Add(Lsb(a, 8), Lsb(b, 8))
  {
    forall i: nat | i < 8
      ensures Lsb(Xor(a, b), 8)[i] == (Lsb(a, 8)[i] != Lsb(b, 8)[i])
    {
      XorBit(a, b, i);
    }
  }

  lemma AddConcat(p: Poly, q: Poly, r: Poly, s: Poly)
    requires |p| == |q| && |r| == |s|
    ensures Add(p + r, q + s) == Add(p, q) + Add(r, s)
  {
  }

  lemma {:induction false} MessageLength(msg: seq<byte>)
    ensures |MessageBits(msg)| == 8 * |msg|
  {
    if msg != [] { MessageLength(msg[1..]); }
  }

  lemma {:induction false} XorBits(a: seq<byte>, b: seq<byte>)
    requires |a| == |b|
    ensures |MessageBits(a)| == |MessageBits(b)| == 8 * |a|
    ensures MessageBits(XorBytes(a, b)) == Add(MessageBits(a), MessageBits(b))
    decreases |a|
  {
    hide Add, Xor, Lsb, Bit;
    MessageLength(a);
    MessageLength(b);
    if a == [] {
      NothingAdded();
    } else {
      XorBits(a[1..], b[1..]);
      XorByte(a[0], b[0]);
      AddConcat(Lsb(a[0], 8), Lsb(b[0], 8), MessageBits(a[1..]), MessageBits(b[1..]));
      assert XorBytes(a, b)[1..] == XorBytes(a[1..], b[1..]);
    }
  }

  lemma NothingAdded()
    ensures Add([], []) == []
  {
  }

  /** dsCRC8 is linear over byte-wise exclusive or. */
  lemma DsCrc8IsLinear(a: seq<byte>, b: seq<byte>)
    requires |a| == |b|
    ensures DsCrc8Spec(XorBytes(a, b)) == Add(DsCrc8Spec(a), DsCrc8Spec(b))
  {
    XorBits(a, b);
    AddZeros(Zeros(8));
    RegisterIsLinear(Zeros(8), Zeros(8), MessageBits(a), MessageBits(b));
  }

  /** An error within eight consecutive bits, also across a byte boundary, changes dsCRC8. */
  lemma DsCrc8DetectsBurst(a: seq<byte>, b: seq<byte>, i: nat)
    requires |a| == |b| && MessageBits(a) != MessageBits(b) && i <= |MessageBits(a)|
    requires |MessageBits(a)| == |MessageBits(b)|
    requires forall j :: 0 <= j < |MessageBits(a)| && MessageBits(a)[j] != MessageBits(b)[j] ==> i <= j < i + 8
    ensures DsCrc8Spec(a) != DsCrc8Spec(b)
  {
    BurstIsDetected(MessageBits(a), MessageBits(b), i);
  }

  lemma {:induction false} BitOfMessage(msg: seq<byte>, k: nat, i: nat)
    requires k < |msg| && i < 8
    ensures |MessageBits(msg)| == 8 * |msg| && MessageBits(msg)[8 * k + i] == Bit(msg[k], i)
    decreases |msg|
  {
    XorBits(msg, msg);
    if k > 0 {
      BitOfMessage(msg[1..], k - 1, i);
    }
  }

  /** In particular a change of a single byte is always noticed. */
  lemma DsCrc8DetectsByte(a: seq<byte>, k: nat, v: byte)
    requires k < |a| && v != a[k]
    ensures DsCrc8Spec(a[k := v]) != DsCrc8Spec(a)
  {
    var b := a[k := v];
    ByteIsEightBits();
    XorBits(a, b);
    var m, m' := MessageBits(a), MessageBits(b);
    if forall i: nat :: i < 8 ==> (Bit(a[k], i) <==> Bit(v, i)) {
      BitsDetermine(a[k], v, 8);
    }
    var i: nat :| i < 8 && Bit(a[k], i) != Bit(v, i);
    BitOfMessage(a, k, i);
    BitOfMessage(b, k, i);
    assert m[8 * k + i] != m'[8 * k + i];
    forall j | 0 <= j < |m| && m[j] != m'[j]
      ensures 8 * k <= j < 8 * k + 8
    {
      BitOfMessage(a, j / 8, j % 8);
      BitOfMessage(b, j / 8, j % 8);
      assert 8 * (j / 8) + j % 8 == j;
    }
    DsCrc8DetectsBurst(a, b, 8 * k);
  }
}
