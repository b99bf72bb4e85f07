/** Bytes, and the bitwise "and" of two non-negative machine words written on
    integers, so that masks, moduli and alignments can be compared. */
module Bits {

  type byte = x: int | 0 <= x < 256

  datatype Option<+T> = None | Some(value: T)

  function Min(a: int, b: int): int {
    if a < b then a else b
  }

  lemma SliceOfSlice<T>(s: seq<T>, lo: nat, hi: nat, a: nat, b: nat)
    requires lo <= hi <= |s| && a <= b <= hi - lo
    ensures s[lo..hi][a..b] == s[lo + a..lo + b]
  {
    forall i | 0 <= i < b - a ensures s[lo..hi][a..b][i] == s[lo + a..lo + b][i] {
    }
  }

  function Pow2(k: nat): (r: nat)
    ensures r >= 1
  {
    if k == 0 then 1 else 2 * Pow2(k - 1)
  }

  /** The C expression x & y for two non-negative operands. */
  function And(x: nat, y: nat): nat
    decreases x
  {
    if x == 0 || y == 0 then 0
    else 2 * And(x / 2, y / 2) + (if x % 2 == 1 && y % 2 == 1 then 1 else 0)
  }

  /** Bit i of x. */
  predicate Bit(x: nat, i: nat) {
    if i == 0 then x % 2 == 1 else Bit(x / 2, i - 1)
  }

  lemma {:induction false} AndSelf(x: nat)
    ensures And(x, x) == x
  {
    if x == 0 {
    } else {
      AndSelf(x / 2);
    }
  }

  /** And is what its name says: bit by bit conjunction. */
  lemma {:induction false} AndIsBitwise(x: nat, y: nat, i: nat)
    ensures Bit(And(x, y), i) <==> Bit(x, i) && Bit(y, i)
    decreases i
  {
    if x == 0 || y == 0 {
      ZeroHasNoBits(i);
    } else if i > 0 {
      assert And(x, y) / 2 == And(x / 2, y / 2);
      AndIsBitwise(x / 2, y / 2, i - 1);
    }
  }

  lemma {:induction false} ZeroHasNoBits(i: nat)
    ensures !Bit(0, i)
  {
    if i == 0 {
    } else {
      ZeroHasNoBits(i - 1);
    }
  }

  /** Numbers with the same bits are the same number. */
  lemma {:induction false} BitsDetermine(x: nat, y: nat)
    requires forall i: nat :: Bit(x, i) == Bit(y, i)
    ensures x == y
    decreases x + y
  {
    assert Bit(x, 0) == Bit(y, 0);
    if x + y > 0 {
      forall i: nat ensures Bit(x / 2, i) == Bit(y / 2, i) {
        assert Bit(x, i + 1) == Bit(y, i + 1);
      }
      BitsDetermine(x / 2, y / 2);
    }
  }

  ghost predicate AgreeOn(x: nat, y: nat, mask: nat) {
    forall i: nat :: Bit(mask, i) ==> Bit(x, i) == Bit(y, i)
  }

  /** Two words are equal under a mask when they agree on each of its bits. */
  lemma EqualUnderMask(x: nat, y: nat, mask: nat)
    ensures And(x, mask) == And(y, mask) <==> AgreeOn(x, y, mask)
  {
    forall i: nat
      ensures Bit(And(x, mask), i) == (Bit(x, i) && Bit(mask, i))
      ensures Bit(And(y, mask), i) == (Bit(y, i) && Bit(mask, i))
    {
      AndIsBitwise(x, mask, i);
      AndIsBitwise(y, mask, i);
    }
    if And(x, mask) == And(y, mask) {
      forall i: nat | Bit(mask, i) ensures Bit(x, i) == Bit(y, i) {
        assert Bit(And(x, mask), i) == Bit(And(y, mask), i);
      }
    }
    if AgreeOn(x, y, mask) {
      BitsDetermine(And(x, mask), And(y, mask));
    }
  }

  /** Masking with 2^k - 1 is the remainder modulo 2^k. */
  lemma {:induction false} AndMask(x: nat, k: nat)
    ensures And(x, Pow2(k) - 1) == x % Pow2(k)
    decreases k
  {
    if k == 0 {
      assert Pow2(k) == 1 && And(x, 0) == 0;
    } else {
      AndMask(x / 2, k - 1);
      AndMaskStep(x, Pow2(k - 1));
    }
  }

  lemma AndMaskStep(x: nat, m: nat)
    requires m > 0 && And(x / 2, m - 1) == (x / 2) % m
    ensures And(x, 2 * m - 1) == x % (2 * m)
  {
    AndOddMask(x, m);
    ModHalf(x, m);
  }

  lemma AndOddMask(x: nat, m: nat)
    requires m > 0
    ensures And(x, 2 * m - 1) == 2 * And(x / 2, m - 1) + x % 2
  {
    AndHalves(x, 2 * m - 1);
    assert (2 * m - 1) / 2 == m - 1 && (2 * m - 1) % 2 == 1;
  }

  /** The bits from k on do not matter for a mask of k bits. */
  lemma AndLow(z: nat, x: nat, hi: nat, y: nat, k: nat)
    requires x < Pow2(k) && y < Pow2(k) && z == x + hi * Pow2(k)
    ensures And(z, y) == And(x, y)
  {
    ShiftLeftIsProduct(hi, k);
    ShiftLeftIsProduct(0, k);
    AndSplits(z, hi, x, y, 0, y, k);
    AndCommutes(hi, 0);
  }

  lemma AllOnes(x: nat, k: nat)
    requires x < Pow2(k)
    ensures And(Pow2(k) - 1, x) == x
  {
    AndCommutes(Pow2(k) - 1, x);
    AndMask(x, k);
    ModUnique(x, Pow2(k), 0, x);
  }

  /** x << k */
  function ShiftLeft(x: nat, k: nat): nat {
    if k == 0 then x else 2 * ShiftLeft(x, k - 1)
  }

  lemma {:induction false} ShiftLeftIsProduct(x: nat, k: nat)
    ensures ShiftLeft(x, k) == x * Pow2(k)
  {
    if k == 0 {
    } else {
      ShiftLeftIsProduct(x, k - 1);
      DoubleProduct(x, Pow2(k - 1));
    }
  }

  /** High and low bits are taken separately. */
  lemma {:induction false} AndSplits(x: nat, xh: nat, xl: nat, y: nat, yh: nat, yl: nat, k: nat)
    requires xl < Pow2(k) && yl < Pow2(k) && x == ShiftLeft(xh, k) + xl && y == ShiftLeft(yh, k) + yl
    ensures And(x, y) == ShiftLeft(And(xh, yh), k) + And(xl, yl)
    decreases k
  {
    if k == 0 {
      assert xl == 0 && yl == 0;
    } else {
      HalvesSplit(x, xh, xl, k);
      HalvesSplit(y, yh, yl, k);
      AndSplits(x / 2, xh, xl / 2, y / 2, yh, yl / 2, k - 1);
      AndHalves(x, y);
      AndHalves(xl, yl);
    }
  }

  lemma {:induction false} BitOfJoin(x: nat, hi: nat, lo: nat, k: nat, i: nat)
    requires lo < Pow2(k) && x == ShiftLeft(hi, k) + lo
    ensures Bit(x, i) == if i < k then Bit(lo, i) else Bit(hi, i - k)
    decreases k
  {
    if k == 0 {
    } else {
      HalvesSplit(x, hi, lo, k);
      if i > 0 {
        BitOfJoin(x / 2, hi, lo / 2, k - 1, i - 1);
      }
    }
  }

  lemma {:induction false} OnesHaveAllBits(k: nat, i: nat)
    requires i < k
    ensures Bit(Pow2(k) - 1, i)
    decreases i
  {
    if i == 0 {
    } else {
      assert (Pow2(k) - 1) / 2 == Pow2(k - 1) - 1;
      OnesHaveAllBits(k - 1, i - 1);
    }
  }

  lemma HalvesSplit(x: nat, h: nat, l: nat, k: nat)
    requires k > 0 && l < Pow2(k) && x == ShiftLeft(h, k) + l
    ensures x / 2 == ShiftLeft(h, k - 1) + l / 2 && x % 2 == l % 2 && l / 2 < Pow2(k - 1)
  {
  }

  lemma {:induction false} AndCommutes(x: nat, y: nat)
    ensures And(x, y) == And(y, x)
    decreases x
  {
    if x != 0 && y != 0 {
      AndCommutes(x / 2, y / 2);
    }
  }

  lemma DoubleProduct(a: nat, b: nat)
    ensures a * (2 * b) == 2 * (a * b)
  {
  }

  lemma AndHalves(x: nat, y: nat)
    ensures And(x, y) == 2 * And(x / 2, y / 2) + (if x % 2 == 1 && y % 2 == 1 then 1 else 0)
  {
  }

  lemma ModHalf(x: nat, m: nat)
    requires m > 0
    ensures x % (2 * m) == 2 * ((x / 2) % m) + x % 2
  {
    var q, r := (x / 2) / m, (x / 2) % m;
    assert x / 2 == m * q + r;
    assert x == (2 * m) * q + (2 * r + x % 2);
    ModUnique(x, 2 * m, q, 2 * r + x % 2);
  }

  lemma ModUnique(x: nat, d: nat, q: nat, r: nat)
    requires d > 0 && x == d * q + r && r < d
    ensures x % d == r && x / d == q
  {
    var q', r' := x / d, x % d;
    if q > q' {
      MultiplesApart(d, q', q);
    } else if q < q' {
      MultiplesApart(d, q, q');
    }
  }

  lemma {:induction false} MultiplesApart(d: nat, q: nat, q': nat)
    requires q < q'
    ensures d * q + d <= d * q'
    decreases q'
  {
    assert d * q' == d * (q' - 1) + d;
    if q < q' - 1 {
      MultiplesApart(d, q, q' - 1);
    }
  }

  ghost predicate IsPowerOfTwo(b: nat) {
    exists k: nat :: b == Pow2(k)
  }

  /** The test b & (b - 1) leaves exactly the powers of two. */
  lemma {:induction false} PowerOfTwoTest(b: nat)
    requires b > 0
    ensures And(b, b - 1) == 0 <==> IsPowerOfTwo(b)
  {
    if b == 1 {
      assert b == Pow2(0);
    } else if b % 2 == 1 {
      assert b / 2 == (b - 1) / 2;
      AndSelf(b / 2);
      forall k: nat ensures b != Pow2(k) {
        assert k > 0 ==> Pow2(k) == 2 * Pow2(k - 1);
      }
    } else {
      var c := b / 2;
      assert (b - 1) / 2 == c - 1;
      PowerOfTwoTest(c);
      if IsPowerOfTwo(c) {
        var k: nat :| c == Pow2(k);
        assert b == Pow2(k + 1);
      }
      if IsPowerOfTwo(b) {
        var k: nat :| b == Pow2(k);
        assert k > 0 && c == Pow2(k - 1);
      }
    }
  }
}
