/** Match operations and recipes (src/recipe.c, src/recipe.h). */
module Recipes {
  import opened Bits

  datatype Operation =
    | OpString(offset: nat, s: seq<byte>)
    | OpInt32(offset: nat, val: nat, mask: nat)
  {
    /** The number of bytes the test may read, counted from the start of the file. */
    function Reach(): nat {
      offset + (if OpString? then |s| else 4)
    }
  }

  /** allowOverlap < 0 switches overlap checking off for the recipe. */
  datatype Recipe = Recipe(name: string, ops: seq<Operation>, allowOverlap: int)

  /** The expression s[0]<<24 | s[1]<<16 | s[2]<<8 | s[3] has type int and is then
      converted to a 64-bit unsigned long: a leading byte of 128 or more fills the
      upper half with ones. */
  function SignExtendedWord(s0: byte, s1: byte, s2: byte, s3: byte): nat {
    var word := 0x100_0000 * s0 + 0x1_0000 * s1 + 0x100 * s2 + s3;
    if s0 >= 128 then 0xFFFF_FFFF_0000_0000 + word else word
  }

  function BigEndianWord(s0: byte, s1: byte, s2: byte, s3: byte): nat {
    0x100_0000 * s0 + 0x1_0000 * s1 + 0x100 * s2 + s3
  }

  predicate OpHolds(op: Operation, data: seq<byte>, at: nat) {
    at + op.Reach() <= |data| &&
    var p := at + op.offset;
    match op
    case OpString(_, s) => data[p..p + |s|] == s
    case OpInt32(_, val, mask) =>
      And(SignExtendedWord(data[p], data[p + 1], data[p + 2], data[p + 3]), mask) == val
  }

  predicate AllHold(ops: seq<Operation>, data: seq<byte>, at: nat) {
    forall i | 0 <= i < |ops| :: OpHolds(ops[i], data, at)
  }

  /** The operations a lookahead of `reach` bytes suffices for. */
  predicate WithinReach(r: Recipe, reach: nat) {
    forall i | 0 <= i < |r.ops| :: r.ops[i].Reach() <= reach
  }

  /** Testing inside a buffer that holds data[base..] of the image is testing the image. */
  lemma OpInWindow(op: Operation, data: seq<byte>, image: seq<byte>, base: nat, at: nat)
    requires base + |data| <= |image| && data == image[base..base + |data|]
    requires at + op.Reach() <= |data|
    ensures OpHolds(op, data, at) == OpHolds(op, image, base + at)
  {
    var p := at + op.offset;
    if op.OpString? {
      SliceOfSlice(image, base, base + |data|, p, p + |op.s|);
    }
  }

  lemma Pow2Values()
    ensures Pow2(8) == 0x100 && Pow2(16) == 0x1_0000 && Pow2(32) == 0x1_0000_0000
  {
    assert Pow2(4) == 16;
    assert Pow2(8) == 0x100;
    assert Pow2(12) == 0x1000;
    assert Pow2(16) == 0x1_0000;
    assert Pow2(20) == 0x10_0000;
    assert Pow2(24) == 0x100_0000;
    assert Pow2(28) == 0x1000_0000;
  }

  /** An int32 operation whose value was masked when it was parsed accepts exactly the words
      that, sign extended, agree with the value on every bit of the mask. */
  lemma Int32Meaning(s0: byte, s1: byte, s2: byte, s3: byte, val: nat, mask: nat)
    ensures And(SignExtendedWord(s0, s1, s2, s3), mask) == And(val, mask)
        <==> AgreeOn(SignExtendedWord(s0, s1, s2, s3), val, mask)
  {
    EqualUnderMask(SignExtendedWord(s0, s1, s2, s3), val, mask);
  }

  /** The extension makes a difference exactly if the first byte is 128 or more and the mask
      has a bit above the lowest 32. */
  lemma SignExtensionVisibleExactlyWhen(s0: byte, s1: byte, s2: byte, s3: byte, mask: nat)
    requires mask < 0x1_0000_0000_0000_0000
    ensures And(SignExtendedWord(s0, s1, s2, s3), mask) != And(BigEndianWord(s0, s1, s2, s3), mask)
        <==> s0 >= 128 && mask >= 0x1_0000_0000
  {
    if s0 >= 128 {
      ExtendedAnd(SignExtendedWord(s0, s1, s2, s3), 0xFFFF_FFFF, BigEndianWord(s0, s1, s2, s3),
        mask, mask / 0x1_0000_0000, mask % 0x1_0000_0000, 32);
    }
  }

  /** ones is a word of which all the bits are set, k the number of its bits. */
  lemma ExtendedAnd(extended: nat, ones: nat, word: nat, mask: nat, high: nat, low: nat, k: nat)
    requires k == 32 && ones == 0xFFFF_FFFF
    requires extended == ones * 0x1_0000_0000 + word && mask == high * 0x1_0000_0000 + low
    requires word < 0x1_0000_0000 && high < 0x1_0000_0000 && low < 0x1_0000_0000
    ensures And(extended, mask) == high * 0x1_0000_0000 + And(word, mask)
  {
    Pow2Values();
    Shifted(ones, k);
    Shifted(high, k);
    Shifted(0, k);
    AndSplits(extended, ones, word, mask, high, low, k);
    AllOnesAre(ones, high);
    AndSplits(word, 0, word, mask, high, low, k);
    AndZero(high);
  }

  lemma Shifted(x: nat, k: nat)
    requires k == 32
    ensures ShiftLeft(x, k) == x * 0x1_0000_0000
  {
    Pow2Values();
    ShiftLeftIsProduct(x, k);
  }

  lemma AllOnesAre(ones: nat, x: nat)
    requires ones == 0xFFFF_FFFF && x <= ones
    ensures And(ones, x) == x
  {
    Pow2Values();
    AllOnes(x, 32);
  }

  lemma AndZero(x: nat)
    ensures And(0, x) == 0
  {
  }

  /** Below that it is the words themselves that agree with the value. */
  lemma ShortMaskMeaning(s0: byte, s1: byte, s2: byte, s3: byte, val: nat, mask: nat)
    requires mask < 0x1_0000_0000
    ensures And(SignExtendedWord(s0, s1, s2, s3), mask) == And(val, mask)
        <==> AgreeOn(BigEndianWord(s0, s1, s2, s3), val, mask)
  {
    SignExtensionVisibleExactlyWhen(s0, s1, s2, s3, mask);
    EqualUnderMask(BigEndianWord(s0, s1, s2, s3), val, mask);
  }

  // ---- what the operations test, byte by byte and bit by bit ----

  lemma StringHoldsExactlyWhen(o: nat, s: seq<byte>, image: seq<byte>, q: nat)
    ensures OpHolds(OpString(o, s), image, q) <==>
      q + o + |s| <= |image| && forall k | 0 <= k < |s| :: image[q + o + k] == s[k]
  {
    if q + o + |s| <= |image| {
      var there := image[q + o..q + o + |s|];
      assert forall k | 0 <= k < |s| :: there[k] == image[q + o + k];
    }
  }

  lemma LowByte(x: nat, y: nat, b: byte, i: nat)
    requires x == 256 * y + b
    ensures Bit(x, i) == if i < 8 then Bit(b, i) else Bit(y, i - 8)
  {
    Pow2Values();
    ShiftLeftIsProduct(y, 8);
    BitOfJoin(x, y, b, 8, i);
  }

  /** The first byte is the most significant one. */
  lemma WordBit(s0: byte, s1: byte, s2: byte, s3: byte, i: nat)
    requires i < 32
    ensures Bit(BigEndianWord(s0, s1, s2, s3), i) == Bit([s3, s2, s1, s0][i / 8], i % 8)
  {
    var y2, y1 := 0x1_0000 * s0 + 0x100 * s1 + s2, 0x100 * s0 + s1;
    LowByte(BigEndianWord(s0, s1, s2, s3), y2, s3, i);
    if i >= 8 {
      LowByte(y2, y1, s2, i - 8);
    }
    if i >= 16 {
      LowByte(y1, s0, s1, i - 16);
    }
  }

  /** And the bits above the word repeat its highest one. */
  lemma ExtendedBit(s0: byte, s1: byte, s2: byte, s3: byte, i: nat)
    requires i < 64
    ensures Bit(SignExtendedWord(s0, s1, s2, s3), i) ==
      if i < 32 then Bit(BigEndianWord(s0, s1, s2, s3), i) else Bit(s0, 7)
  {
    var high: nat := if s0 >= 128 then 0xFFFF_FFFF else 0;
    JoinedBit(SignExtendedWord(s0, s1, s2, s3), high, BigEndianWord(s0, s1, s2, s3), 32, i);
    HighestBit(s0);
    if i >= 32 {
      HighBits(high, i - 32);
    }
  }

  lemma JoinedBit(x: nat, high: nat, low: nat, k: nat, i: nat)
    requires k == 32 && low < 0x1_0000_0000 && x == high * 0x1_0000_0000 + low
    ensures Bit(x, i) == if i < k then Bit(low, i) else Bit(high, i - k)
  {
    Pow2Values();
    Shifted(high, k);
    BitOfJoin(x, high, low, k, i);
  }

  lemma HighBits(high: nat, i: nat)
    requires high in {0, 0xFFFF_FFFF} && i < 32
    ensures Bit(high, i) <==> high != 0
  {
    Pow2Values();
    OnesHaveAllBits(32, i);
    ZeroHasNoBits(i);
  }

  lemma HighestBit(b: byte)
    ensures Bit(b, 7) <==> b >= 128
  {
    var b2, b4, b6 := b / 2 / 2, b / 2 / 2 / 2 / 2, b / 2 / 2 / 2 / 2 / 2 / 2;
    assert Bit(b, 7) == Bit(b / 2, 6) == Bit(b2, 5);
    assert Bit(b2, 5) == Bit(b2 / 2, 4) == Bit(b4, 3);
    assert Bit(b4, 3) == Bit(b4 / 2, 2) == Bit(b6, 1);
    assert Bit(b6, 1) == Bit(b6 / 2, 0);
  }

  /** Bit i of the word at p, which has its most significant byte first and whose highest bit
      is repeated above. */
  predicate BitAt(image: seq<byte>, p: nat, i: nat)
    requires p + 4 <= |image|
  {
    if i < 32 then Bit(image[p + 3 - i / 8], i % 8) else Bit(image[p], 7)
  }

  /** On every bit of the mask. */
  ghost predicate BitsAgreeAt(image: seq<byte>, p: nat, val: nat, mask: nat)
    requires p + 4 <= |image|
  {
    forall i: nat | i < 64 && Bit(mask, i) :: Bit(val, i) == BitAt(image, p, i)
  }

  /** The int32 test on the bytes at q + o: bit i of the mask asks for bit i of the value. */
  lemma Int32HoldsExactlyWhen(o: nat, val: nat, mask: nat, image: seq<byte>, q: nat)
    requires mask < 0x1_0000_0000_0000_0000
    ensures OpHolds(OpInt32(o, And(val, mask), mask), image, q) <==>
      q + o + 4 <= |image| && BitsAgreeAt(image, q + o, val, mask)
  {
    var v := And(val, mask);
    Int32Tests(o, v, mask, image, q);
    if q + o + 4 <= |image| {
      AgreesExactlyWhen(image, q + o, WordAt(image, q + o), val, mask);
    }
  }

  lemma Int32Tests(o: nat, v: nat, mask: nat, image: seq<byte>, q: nat)
    ensures OpHolds(OpInt32(o, v, mask), image, q) <==> q + o + 4 <= |image| && And(WordAt(image, q + o), mask) == v
  {
  }

  function WordAt(image: seq<byte>, p: nat): nat
    requires p + 4 <= |image|
  {
    SignExtendedWord(image[p], image[p + 1], image[p + 2], image[p + 3])
  }

  lemma WordIsAt(image: seq<byte>, p: nat, word: nat)
    requires p + 4 <= |image| && word == WordAt(image, p)
    ensures forall i: nat | i < 64 :: Bit(word, i) == BitAt(image, p, i)
  {
    var s0, s1, s2, s3 := image[p], image[p + 1], image[p + 2], image[p + 3];
    forall i: nat | i < 64 ensures Bit(word, i) == BitAt(image, p, i) {
      ExtendedBit(s0, s1, s2, s3, i);
      if i < 32 {
        WordBit(s0, s1, s2, s3, i);
        assert [s3, s2, s1, s0][i / 8] == image[p + 3 - i / 8];
      }
    }
  }

  lemma AgreesExactlyWhen(image: seq<byte>, p: nat, word: nat, val: nat, mask: nat)
    requires p + 4 <= |image| && word == WordAt(image, p) && mask < 0x1_0000_0000_0000_0000
    ensures And(word, mask) == And(val, mask) <==> BitsAgreeAt(image, p, val, mask)
  {
    WordIsAt(image, p, word);
    EqualUnderMask(word, val, mask);
    forall i: nat | Bit(mask, i) ensures i < 64 {
      BitsBelow(mask, 64, i);
    }
  }

  lemma BitsBelow(x: nat, k: nat, i: nat)
    requires k == 64 && x < 0x1_0000_0000_0000_0000 && Bit(x, i)
    ensures i < k
  {
    if i >= k {
      JoinedBit(x, x / 0x1_0000_0000, x % 0x1_0000_0000, 32, i);
      JoinedBit(x / 0x1_0000_0000, 0, x / 0x1_0000_0000, 32, i - 32);
      ZeroHasNoBits(i - 64);
    }
  }

  /** The test of recipes/jpeg-jfif: a mask of the upper half leaves the first two bytes. */
  lemma JpegMarker(image: seq<byte>, q: nat)
    ensures OpHolds(OpInt32(0, 0xFFD8_0000, 0xFFFF_0000), image, q) <==>
      q + 4 <= |image| && image[q] == 0xFF && image[q + 1] == 0xD8
  {
    Int32Tests(0, 0xFFD8_0000, 0xFFFF_0000, image, q);
    if q + 4 <= |image| {
      var s0, s1, s2, s3 := image[q], image[q + 1], image[q + 2], image[q + 3];
      SignExtensionVisibleExactlyWhen(s0, s1, s2, s3, 0xFFFF_0000);
      var high, low := 0x100 * s0 as nat + s1 as nat, 0x100 * s2 as nat + s3 as nat;
      UpperHalf(BigEndianWord(s0, s1, s2, s3), high, low, 0xFFFF_0000, 0xFFFF, 16);
    }
  }

  lemma UpperHalf(word: nat, high: nat, low: nat, mask: nat, ones: nat, k: nat)
    requires k == 16 && ones == 0xFFFF && mask == ones * 0x1_0000 && word == high * 0x1_0000 + low
    requires high < 0x1_0000 && low < 0x1_0000
    ensures And(word, mask) == high * 0x1_0000
  {
    Pow2Values();
    ShiftLeftIsProduct(high, k);
    ShiftLeftIsProduct(ones, k);
    AndSplits(word, high, low, mask, ones, 0, k);
    AndCommutes(high, ones);
    AllOnes(high, k);
    AndCommutes(low, 0);
  }
}
