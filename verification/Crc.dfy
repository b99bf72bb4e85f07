/** The algebra behind the checksum of src/dupemap.c: a 32-bit register that is shifted
    and reduced modulo the generator polynomial. */
module Crc {
  import opened LinearMaps

  /** Multiplies the polynomial in the register by x, modulo the generator. */
  function Shift(r: bv32): bv32 {
    if r & 0x8000_0000 != 0 then (r << 1) ^ 0x04C1_1DB7 else r << 1
  }

  function Xor(a: bv32, b: bv32): bv32 {
    a ^ b
  }

  /** One message bit enters the register at its most significant end. */
  function Feed(r: bv32, bit: bool): bv32 {
    Shift(if bit then r ^ 0x8000_0000 else r)
  }

  /** Schoolbook long division: the next bit of the dividend is appended to the remainder. */
  function DivideStep(r: bv32, bit: bool): bv32 {
    Shift(r) ^ (if bit then 1 else 0)
  }

  /** The remainder of a polynomial, given by its coefficients from the highest down. */
  function Remainder(bits: seq<bool>): bv32 {
    Fold(DivideStep, 0, bits)
  }

  // ---- Shift is linear and one-to-one ----

  lemma XorTops(a: bv32, b: bv32)
    ensures ((a ^ b) & 0x8000_0000 != 0) <==> ((a & 0x8000_0000 != 0) != (b & 0x8000_0000 != 0))
  {
  }

  lemma ReduceLeft(a: bv32, b: bv32)
    ensures ((a ^ b) << 1) ^ 0x04C1_1DB7 == ((a << 1) ^ 0x04C1_1DB7) ^ (b << 1)
  {
  }

  lemma ReduceRight(a: bv32, b: bv32)
    ensures ((a ^ b) << 1) ^ 0x04C1_1DB7 == (a << 1) ^ ((b << 1) ^ 0x04C1_1DB7)
  {
  }

  lemma ShiftLinearBoth(a: bv32, b: bv32)
    requires a & 0x8000_0000 != 0 && b & 0x8000_0000 != 0
    ensures Shift(a ^ b) == Shift(a) ^ Shift(b)
  {
    XorTops(a, b);
    assert (a ^ b) << 1 == ((a << 1) ^ 0x04C1_1DB7) ^ ((b << 1) ^ 0x04C1_1DB7);
  }

  lemma ShiftLinearLeft(a: bv32, b: bv32)
    requires a & 0x8000_0000 != 0 && b & 0x8000_0000 == 0
    ensures Shift(a ^ b) == Shift(a) ^ Shift(b)
  {
    XorTops(a, b);
    ReduceLeft(a, b);
  }

  lemma ShiftLinearRight(a: bv32, b: bv32)
    requires a & 0x8000_0000 == 0 && b & 0x8000_0000 != 0
    ensures Shift(a ^ b) == Shift(a) ^ Shift(b)
  {
    XorTops(a, b);
    ReduceRight(a, b);
  }

  lemma ShiftLinearNone(a: bv32, b: bv32)
    requires a & 0x8000_0000 == 0 && b & 0x8000_0000 == 0
    ensures Shift(a ^ b) == Shift(a) ^ Shift(b)
  {
    XorTops(a, b);
    assert (a ^ b) << 1 == (a << 1) ^ (b << 1);
  }

  lemma ShiftLinearAt(a: bv32, b: bv32)
    ensures Shift(a ^ b) == Shift(a) ^ Shift(b)
  {
    if a & 0x8000_0000 != 0 {
      if b & 0x8000_0000 != 0 { ShiftLinearBoth(a, b); } else { ShiftLinearLeft(a, b); }
    } else {
      if b & 0x8000_0000 != 0 { ShiftLinearRight(a, b); } else { ShiftLinearNone(a, b); }
    }
  }

  lemma ShiftIsLinear()
    ensures Linear(Shift, Xor)
  {
    forall a, b ensures Shift(Xor(a, b)) == Xor(Shift(a), Shift(b)) {
      ShiftLinearAt(a, b);
    }
  }

  lemma XorZero(a: bv32, b: bv32)
    ensures a ^ b == 0 <==> a == b
  {
  }

  lemma ShiftZeroOnly(r: bv32)
    requires Shift(r) == 0
    ensures r == 0
  {
  }

  lemma ShiftOneToOne(a: bv32, b: bv32)
    requires Shift(a) == Shift(b)
    ensures a == b
  {
    ShiftLinearAt(a, b);
    XorZero(Shift(a), Shift(b));
    ShiftZeroOnly(a ^ b);
    XorZero(a, b);
  }

  lemma FeedOneToOneAt(a: bv32, b: bv32, bit: bool)
    requires Feed(a, bit) == Feed(b, bit)
    ensures a == b
  {
    if bit {
      ShiftOneToOne(a ^ 0x8000_0000, b ^ 0x8000_0000);
    } else {
      ShiftOneToOne(a, b);
    }
  }

  lemma FeedIsOneToOne()
    ensures OneToOne(Feed)
  {
    forall a, b, bit | Feed(a, bit) == Feed(b, bit) ensures a == b {
      FeedOneToOneAt(a, b, bit);
    }
  }

  lemma XorNothing(a: bv32)
    ensures a ^ 0 == a
  {
  }

  lemma TopOut(r: bv32)
    requires r & 0x8000_0000 != 0
    ensures Shift(r ^ 0x8000_0000) == Shift(r) ^ 0x04C1_1DB7
  {
    XorTops(r, 0x8000_0000);
    TopShiftedOut(r);
    GeneratorTwice(r << 1);
  }

  lemma TopIn(r: bv32)
    requires r & 0x8000_0000 == 0
    ensures Shift(r ^ 0x8000_0000) == Shift(r) ^ 0x04C1_1DB7
  {
    XorTops(r, 0x8000_0000);
    TopShiftedOut(r);
  }

  lemma TopShiftedOut(r: bv32)
    ensures (r ^ 0x8000_0000) << 1 == r << 1
  {
  }

  lemma GeneratorTwice(r: bv32)
    ensures (r ^ 0x04C1_1DB7) ^ 0x04C1_1DB7 == r
  {
  }

  lemma FeedTrue(r: bv32)
    ensures Feed(r, true) == Shift(r) ^ 0x04C1_1DB7
  {
    if r & 0x8000_0000 != 0 { TopOut(r); } else { TopIn(r); }
  }

  /** A set message bit adds the generator to the shifted register. */
  lemma FeedTakesIn()
    ensures TakesIn(Feed, Shift, Xor, 0x04C1_1DB7)
  {
    forall s ensures Feed(s, true) == Xor(Shift(s), 0x04C1_1DB7) {
      FeedTrue(s);
    }
  }

  lemma DivideFalse(r: bv32)
    ensures DivideStep(r, false) == Shift(r)
  {
    XorNothing(Shift(r));
  }

  lemma DivideTakesIn()
    ensures TakesIn(DivideStep, Shift, Xor, 1)
  {
    forall s ensures DivideStep(s, false) == Shift(s) {
      DivideFalse(s);
    }
  }

  /** The register that the table driven loop keeps is the remainder of the message
      multiplied by x^32, that is, followed by 32 zero bits. */
  lemma RegisterIsRemainder(bits: seq<bool>)
    ensures Fold(Feed, 0, bits) == Remainder(bits + Zeros(32))
  {
    ShiftIsLinear();
    ThirtyTwoShifts();
    FeedTakesIn();
    DivideTakesIn();
    FeedIsAhead(Shift, Xor, 1, 0x04C1_1DB7, 32, Feed, DivideStep, 0, bits);
    FoldZeros(Shift, DivideStep, Fold(DivideStep, 0, bits), 32);
    FoldConcat(DivideStep, 0, bits, Zeros(32));
  }

  lemma {:induction false} ShiftsZeroOnly(n: nat, r: bv32)
    ensures Iterate(Shift, n, r) == 0 <==> r == 0
    decreases n
  {
    if n == 0 {
    } else {
      ShiftsZeroOnly(n - 1, Shift(r));
      if Shift(r) == 0 {
        ShiftZeroOnly(r);
      }
      assert Shift(0) == 0;
    }
  }

  /** The register is zero exactly for the multiples of the generator. */
  lemma RegisterZeroExactlyWhen(bits: seq<bool>)
    ensures Fold(Feed, 0, bits) == 0 <==> Remainder(bits) == 0
  {
    RegisterIsRemainder(bits);
    DivideTakesIn();
    FoldConcat(DivideStep, 0, bits, Zeros(32));
    FoldZeros(Shift, DivideStep, Remainder(bits), 32);
    ShiftsZeroOnly(32, Remainder(bits));
  }

  lemma ThirtyTwoShifts()
    ensures Iterate(Shift, 32, 1) == 0x04C1_1DB7 && Iterate(Shift, 32, 0) == 0
  {
    EightShifts(1, 0x100);
    EightShifts(0x100, 0x1_0000);
    EightShifts(0x1_0000, 0x100_0000);
    EightShifts(0x100_0000, 0x04C1_1DB7);
    EightShifts(0, 0);
    forall r: bv32 ensures Iterate(Shift, 32, r) == Iterate(Shift, 8, Iterate(Shift, 8, Iterate(Shift, 8, Iterate(Shift, 8, r)))) {
      IterateAdds(Shift, 8, 24, r);
      IterateAdds(Shift, 8, 16, Iterate(Shift, 8, r));
      IterateAdds(Shift, 8, 8, Iterate(Shift, 8, Iterate(Shift, 8, r)));
    }
  }

  lemma EightShifts(r: bv32, s: bv32)
    requires s == Shift(Shift(Shift(Shift(Shift(Shift(Shift(Shift(r))))))))
    ensures Iterate(Shift, 8, r) == s
  {
    var r2 := Shift(Shift(r));
    var r4 := Shift(Shift(r2));
    var r6 := Shift(Shift(r4));
    assert Iterate(Shift, 2, r6) == s;
    assert Iterate(Shift, 4, r4) == s;
    assert Iterate(Shift, 6, r2) == s;
  }

  // ---- bursts ----

  lemma XorAssociates(a: bv32, b: bv32, c: bv32)
    ensures Xor(Xor(a, b), c) == Xor(a, Xor(b, c))
  {
  }

  lemma XorCommutes(a: bv32, b: bv32)
    ensures Xor(a, b) == Xor(b, a)
  {
  }

  lemma XorIsGroup()
    ensures Group(Xor, 0)
  {
    forall a, b, c ensures Xor(Xor(a, b), c) == Xor(a, Xor(b, c)) {
      XorAssociates(a, b, c);
    }
    forall a, b ensures Xor(a, b) == Xor(b, a) {
      XorCommutes(a, b);
    }
    forall a ensures Xor(a, a) == 0 && Xor(a, 0) == a {
      XorZero(a, a);
      XorNothing(a);
    }
  }

  lemma XorRegroups(g: bv32)
    ensures forall a, b :: Regroups(Xor, g, a, b)
  {
    forall a, b ensures Regroups(Xor, g, a, b) {
      XorIsGroup();
      GroupRegroups(Xor, 0, g, a, b);
    }
  }

  lemma FeedIsLinear()
    ensures LinearFeed(Feed, Xor)
  {
    XorRegroups(0x04C1_1DB7);
    ShiftIsLinear();
    FeedTakesIn();
    TakingInIsLinear(Feed, Shift, Xor, 0x04C1_1DB7);
  }

  /** The k lowest bits. */
  function LowMask(k: nat): bv32 {
    if k == 0 then 0 else (LowMask(k - 1) << 1) | 1
  }

  lemma UnfeedLow(r: bv32, bit: bool, m: bv32)
    requires m & 0x8000_0000 == 0 && Feed(r, bit) & ((m << 1) | 1) == 0
    ensures r & m == 0
  {
  }

  lemma {:induction false} LowMaskRange(k: nat)
    requires k < 32
    ensures LowMask(k) == (0x7FFF_FFFF as bv32) >> (31 - k)
  {
    if k == 0 {
      assert (0x7FFF_FFFF as bv32) >> 31 == 0;
    } else {
      LowMaskRange(k - 1);
      WiderMask(31 - k);
    }
  }

  lemma WiderMask(n: nat)
    requires n < 31
    ensures (((0x7FFF_FFFF as bv32) >> (n + 1)) << 1) | 1 == (0x7FFF_FFFF as bv32) >> n
  {
  }

  /** To reach zero within n bits the 32 - n lowest bits of the register must be zero. */
  lemma {:induction false} ReachZero(r: bv32, bits: seq<bool>)
    requires |bits| <= 32 && Fold(Feed, r, bits) == 0
    ensures r & LowMask(32 - |bits|) == 0
    decreases |bits|
  {
    if bits == [] {
    } else {
      ReachZero(Feed(r, bits[0]), bits[1..]);
      LowMaskRange(32 - |bits|);
      UnfeedLow(r, bits[0], LowMask(32 - |bits|));
    }
  }

  /** Up to 32 bits leave the zero register zero only if they are all zero. */
  lemma {:induction false} ShortMessage(bits: seq<bool>)
    requires |bits| <= 32 && Fold(Feed, 0, bits) == 0
    ensures forall i | 0 <= i < |bits| :: !bits[i]
    decreases |bits|
  {
    if bits == [] {
    } else {
      FirstBitZero(bits);
      assert Feed(0, false) == 0;
      ShortMessage(bits[1..]);
      forall i | 0 <= i < |bits| ensures !bits[i] {
        assert i > 0 ==> bits[i] == bits[1..][i - 1];
      }
    }
  }

  lemma FirstBitZero(bits: seq<bool>)
    requires 0 < |bits| <= 32 && Fold(Feed, 0, bits) == 0
    ensures !bits[0]
  {
    ReachZero(Feed(0, bits[0]), bits[1..]);
    assert LowMask(33 - |bits|) & 1 == 1;
    LowBit(LowMask(33 - |bits|));
  }

  lemma LowBit(m: bv32)
    requires m & 1 == 1
    ensures Feed(0, true) & m != 0
  {
  }

  /** Different bursts of up to 32 bits lead to different registers. */
  lemma BurstsDiffer(r: bv32, x: seq<bool>, y: seq<bool>)
    requires |x| == |y| <= 32 && Fold(Feed, r, x) == Fold(Feed, r, y)
    ensures x == y
  {
    FeedIsLinear();
    FoldLinear(Feed, Xor, r, r, x, y);
    XorZero(r, r);
    XorZero(Fold(Feed, r, x), Fold(Feed, r, y));
    ShortMessage(XorBits(x, y));
    forall i | 0 <= i < |x| ensures x[i] == y[i] {
      assert !XorBits(x, y)[i];
    }
  }

  /** Messages that differ, but only within some 32 consecutive bits, have different
      registers in the end, whatever surrounds the difference. */
  lemma BurstDetected(before: seq<bool>, x: seq<bool>, y: seq<bool>, after: seq<bool>)
    requires |x| == |y| <= 32 && x != y
    ensures Fold(Feed, 0, before + x + after) != Fold(Feed, 0, before + y + after)
  {
    var r := Fold(Feed, 0, before);
    FoldConcat(Feed, 0, before, x);
    FoldConcat(Feed, 0, before, y);
    FoldConcat(Feed, 0, before + x, after);
    FoldConcat(Feed, 0, before + y, after);
    if Fold(Feed, 0, before + x + after) == Fold(Feed, 0, before + y + after) {
      FeedIsOneToOne();
      FoldOneToOne(Feed, Fold(Feed, r, x), Fold(Feed, r, y), after);
      BurstsDiffer(r, x, y);
    }
  }

  /** Two messages of the same length lead to the same register exactly when the generator
      divides their difference. */
  lemma CollisionExactlyWhen(x: seq<bool>, y: seq<bool>)
    requires |x| == |y|
    ensures Fold(Feed, 0, x) == Fold(Feed, 0, y) <==> Remainder(XorBits(x, y)) == 0
  {
    DifferenceRegister(x, y);
    XorZeroExactlyWhen(Fold(Feed, 0, x), Fold(Feed, 0, y));
    RegisterZeroExactlyWhen(XorBits(x, y));
  }

  lemma DifferenceRegister(x: seq<bool>, y: seq<bool>)
    requires |x| == |y|
    ensures Fold(Feed, 0, XorBits(x, y)) == Xor(Fold(Feed, 0, x), Fold(Feed, 0, y))
  {
    FeedIsLinear();
    FoldLinear(Feed, Xor, 0, 0, x, y);
    ZeroXorZero();
  }

  lemma ZeroXorZero()
    ensures Xor(0, 0) == 0
  {
  }

  lemma XorZeroExactlyWhen(a: bv32, b: bv32)
    ensures Xor(a, b) == 0 <==> a == b
  {
    XorZero(a, b);
  }

  /** What follows both of them makes no difference. */
  lemma SameAfterwards(x: seq<bool>, y: seq<bool>, after: seq<bool>)
    ensures Fold(Feed, 0, x + after) == Fold(Feed, 0, y + after) <==> Fold(Feed, 0, x) == Fold(Feed, 0, y)
  {
    FoldConcat(Feed, 0, x, after);
    FoldConcat(Feed, 0, y, after);
    if Fold(Feed, 0, x + after) == Fold(Feed, 0, y + after) {
      FeedIsOneToOne();
      FoldOneToOne(Feed, Fold(Feed, 0, x), Fold(Feed, 0, y), after);
    }
  }
}
