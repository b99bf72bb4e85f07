/** What a remainder of zero means: the bits are a multiple of the generator polynomial. */
module Polynomials {
  import opened LinearMaps
  import opened Crc

  /** x^32 + x^26 + x^23 + x^22 + x^16 + x^12 + x^11 + x^10 + x^8 + x^7 + x^5 + x^4 + x^2 +
      x + 1, from the highest coefficient down. */
  const GENERATOR: seq<bool> := [true] + HIGH_BYTE + SECOND_BYTE + THIRD_BYTE + LOW_BYTE
  const HIGH_BYTE: seq<bool> := [false, false, false, false, false, true, false, false]
  const SECOND_BYTE: seq<bool> := [true, true, false, false, false, false, false, true]
  const THIRD_BYTE: seq<bool> := [false, false, false, true, true, true, false, true]
  const LOW_BYTE: seq<bool> := [true, false, true, true, false, true, true, true]

  /** The generator or nothing, times x^n. */
  function Term(bit: bool, n: nat): (t: seq<bool>)
    ensures |t| == n + 33
  {
    (if bit then GENERATOR else Zeros(33)) + Zeros(n)
  }

  /** The generator times the polynomial q, coefficients from the highest down. */
  function Times(q: seq<bool>): (p: seq<bool>)
    ensures |p| == |q| + 32
  {
    if q == [] then Zeros(32) else XorBits(Term(q[0], |q| - 1), [false] + Times(q[1..]))
  }

  // ---- the remainder of the generator ----

  lemma EightBits(r: bv32, bits: seq<bool>, s: bv32)
    requires |bits| == 8
    requires s == DivideStep(DivideStep(DivideStep(DivideStep(DivideStep(DivideStep(DivideStep(DivideStep(
      r, bits[0]), bits[1]), bits[2]), bits[3]), bits[4]), bits[5]), bits[6]), bits[7])
    ensures Fold(DivideStep, r, bits) == s
  {
    EightFolds(DivideStep, r, bits);
  }

  lemma EightFolds<T>(feed: (T, bool) -> T, r: T, bits: seq<bool>)
    requires |bits| == 8
    ensures Fold(feed, r, bits) == feed(feed(feed(feed(feed(feed(feed(feed(
      r, bits[0]), bits[1]), bits[2]), bits[3]), bits[4]), bits[5]), bits[6]), bits[7])
  {
    assert bits == bits[..4] + bits[4..];
    FoldConcat(feed, r, bits[..4], bits[4..]);
    FourFolds(feed, r, bits[..4]);
    FourFolds(feed, Fold(feed, r, bits[..4]), bits[4..]);
  }

  lemma FourFolds<T>(feed: (T, bool) -> T, r: T, bits: seq<bool>)
    requires |bits| == 4
    ensures Fold(feed, r, bits) == feed(feed(feed(feed(r, bits[0]), bits[1]), bits[2]), bits[3])
  {
    assert bits == bits[..2] + bits[2..];
    FoldConcat(feed, r, bits[..2], bits[2..]);
    TwoFolds(feed, r, bits[..2]);
    TwoFolds(feed, Fold(feed, r, bits[..2]), bits[2..]);
  }

  lemma TwoFolds<T>(feed: (T, bool) -> T, r: T, bits: seq<bool>)
    requires |bits| == 2
    ensures Fold(feed, r, bits) == feed(feed(r, bits[0]), bits[1])
  {
    assert bits[1..] == [bits[1]] && [bits[1]][1..] == [];
    assert Fold(feed, feed(r, bits[0]), [bits[1]]) == feed(feed(r, bits[0]), bits[1]);
  }

  lemma GeneratorLeavesNothing()
    ensures Remainder(GENERATOR) == 0
  {
    EightBits(1, HIGH_BYTE, 0x104);
    EightBits(0x104, SECOND_BYTE, 0x1_04C1);
    EightBits(0x1_04C1, THIRD_BYTE, 0x104_C11D);
    EightBits(0x104_C11D, LOW_BYTE, 0);
    assert Fold(DivideStep, 0, [true]) == 1;
    FoldConcat(DivideStep, 0, [true], HIGH_BYTE);
    FoldConcat(DivideStep, 0, [true] + HIGH_BYTE, SECOND_BYTE);
    FoldConcat(DivideStep, 0, [true] + HIGH_BYTE + SECOND_BYTE, THIRD_BYTE);
    FoldConcat(DivideStep, 0, [true] + HIGH_BYTE + SECOND_BYTE + THIRD_BYTE, LOW_BYTE);
  }

  // ---- multiples leave nothing ----

  lemma ShiftsOfZero(n: nat)
    ensures Iterate(Shift, n, 0) == 0
  {
    ShiftsZeroOnly(n, 0);
  }

  lemma NoughtsLeaveNothing(n: nat)
    ensures Remainder(Zeros(n)) == 0
  {
    DivideTakesIn();
    FoldZeros(Shift, DivideStep, 0, n);
    ShiftsOfZero(n);
  }

  lemma TermLeavesNothing(bit: bool, n: nat)
    ensures Remainder(Term(bit, n)) == 0
  {
    GeneratorLeavesNothing();
    NoughtsLeaveNothing(33);
    FoldConcat(DivideStep, 0, if bit then GENERATOR else Zeros(33), Zeros(n));
    DivideTakesIn();
    FoldZeros(Shift, DivideStep, 0, n);
    ShiftsOfZero(n);
  }

  lemma RemainderOfSum(x: seq<bool>, y: seq<bool>)
    requires |x| == |y|
    ensures Remainder(XorBits(x, y)) == Xor(Remainder(x), Remainder(y))
  {
    XorRegroups(1);
    ShiftIsLinear();
    DivideTakesIn();
    TakingInIsLinear(DivideStep, Shift, Xor, 1);
    FoldLinear(DivideStep, Xor, 0, 0, x, y);
    ZeroXorZero();
  }

  lemma LeadingNought(bits: seq<bool>)
    ensures Remainder([false] + bits) == Remainder(bits)
  {
    assert DivideStep(0, false) == 0;
    assert ([false] + bits)[1..] == bits;
  }

  lemma {:induction false} TimesLeavesNothing(q: seq<bool>)
    ensures Remainder(Times(q)) == 0
    decreases |q|
  {
    if q == [] {
      NoughtsLeaveNothing(32);
    } else {
      TimesLeavesNothing(q[1..]);
      TermLeavesNothing(q[0], |q| - 1);
      LeadingNought(Times(q[1..]));
      RemainderOfSum(Term(q[0], |q| - 1), [false] + Times(q[1..]));
      ZeroXorZero();
    }
  }

  // ---- what leaves nothing is a multiple ----

  /** Long division, if it leaves nothing. */
  lemma {:induction false} Quotient(bits: seq<bool>) returns (q: seq<bool>)
    requires |bits| >= 32 && Remainder(bits) == 0
    ensures |q| == |bits| - 32 && bits == Times(q)
    decreases |bits|
  {
    if |bits| == 32 {
      RegisterZeroExactlyWhen(bits);
      ShortMessage(bits);
      q := [];
    } else {
      var n := |bits| - 33;
      var term := Term(bits[0], n);
      var left := XorBits(term, bits);
      TermLeavesNothing(bits[0], n);
      RemainderOfSum(term, bits);
      ZeroXorZero();
      assert !left[0];
      assert left == [false] + left[1..];
      LeadingNought(left[1..]);
      var rest := Quotient(left[1..]);
      q := [bits[0]] + rest;
      assert q[1..] == rest;
      XorTwice(term, bits);
    }
  }

  lemma XorTwice(a: seq<bool>, b: seq<bool>)
    requires |a| == |b|
    ensures XorBits(a, XorBits(a, b)) == b
  {
  }

  /** The remainder is zero exactly for the multiples of the generator. (The noughts in
      front only make room for short messages, of which nought is the one multiple.) */
  lemma MultipleExactlyWhen(bits: seq<bool>)
    ensures Remainder(bits) == 0 <==> IsMultiple(bits)
  {
    var padded := Zeros(32) + bits;
    NoughtsLeaveNothing(32);
    FoldConcat(DivideStep, 0, Zeros(32), bits);
    if Remainder(bits) == 0 {
      var q := Quotient(padded);
      assert IsQuotient(q, bits);
    }
    if q: seq<bool> :| IsQuotient(q, bits) {
      TimesLeavesNothing(q);
    }
  }

  ghost predicate IsMultiple(bits: seq<bool>) {
    exists q: seq<bool> :: IsQuotient(q, bits)
  }

  predicate IsQuotient(q: seq<bool>, bits: seq<bool>) {
    Zeros(32) + bits == Times(q)
  }
}
