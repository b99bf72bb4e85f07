/** The checksum of a file's content (crctab and checksum_calc of src/dupemap.c). */
module Checksum {
  import opened LinearMaps
  import opened Crc
  import opened Polynomials

  // crctab, sixteen entries to a row
  const ROW_0: seq<bv32> := [
    0x00000000, 0x04C11DB7, 0x09823B6E, 0x0D4326D9, 0x130476DC, 0x17C56B6B, 0x1A864DB2, 0x1E475005,
    0x2608EDB8, 0x22C9F00F, 0x2F8AD6D6, 0x2B4BCB61, 0x350C9B64, 0x31CD86D3, 0x3C8EA00A, 0x384FBDBD]
  const ROW_1: seq<bv32> := [
    0x4C11DB70, 0x48D0C6C7, 0x4593E01E, 0x4152FDA9, 0x5F15ADAC, 0x5BD4B01B, 0x569796C2, 0x52568B75,
    0x6A1936C8, 0x6ED82B7F, 0x639B0DA6, 0x675A1011, 0x791D4014, 0x7DDC5DA3, 0x709F7B7A, 0x745E66CD]
  const ROW_2: seq<bv32> := [
    0x9823B6E0, 0x9CE2AB57, 0x91A18D8E, 0x95609039, 0x8B27C03C, 0x8FE6DD8B, 0x82A5FB52, 0x8664E6E5,
    0xBE2B5B58, 0xBAEA46EF, 0xB7A96036, 0xB3687D81, 0xAD2F2D84, 0xA9EE3033, 0xA4AD16EA, 0xA06C0B5D]
  const ROW_3: seq<bv32> := [
    0xD4326D90, 0xD0F37027, 0xDDB056FE, 0xD9714B49, 0xC7361B4C, 0xC3F706FB, 0xCEB42022, 0xCA753D95,
    0xF23A8028, 0xF6FB9D9F, 0xFBB8BB46, 0xFF79A6F1, 0xE13EF6F4, 0xE5FFEB43, 0xE8BCCD9A, 0xEC7DD02D]
  const ROW_4: seq<bv32> := [
    0x34867077, 0x30476DC0, 0x3D044B19, 0x39C556AE, 0x278206AB, 0x23431B1C, 0x2E003DC5, 0x2AC12072,
    0x128E9DCF, 0x164F8078, 0x1B0CA6A1, 0x1FCDBB16, 0x018AEB13, 0x054BF6A4, 0x0808D07D, 0x0CC9CDCA]
  const ROW_5: seq<bv32> := [
    0x7897AB07, 0x7C56B6B0, 0x71159069, 0x75D48DDE, 0x6B93DDDB, 0x6F52C06C, 0x6211E6B5, 0x66D0FB02,
    0x5E9F46BF, 0x5A5E5B08, 0x571D7DD1, 0x53DC6066, 0x4D9B3063, 0x495A2DD4, 0x44190B0D, 0x40D816BA]
  const ROW_6: seq<bv32> := [
    0xACA5C697, 0xA864DB20, 0xA527FDF9, 0xA1E6E04E, 0xBFA1B04B, 0xBB60ADFC, 0xB6238B25, 0xB2E29692,
    0x8AAD2B2F, 0x8E6C3698, 0x832F1041, 0x87EE0DF6, 0x99A95DF3, 0x9D684044, 0x902B669D, 0x94EA7B2A]
  const ROW_7: seq<bv32> := [
    0xE0B41DE7, 0xE4750050, 0xE9362689, 0xEDF73B3E, 0xF3B06B3B, 0xF771768C, 0xFA325055, 0xFEF34DE2,
    0xC6BCF05F, 0xC27DEDE8, 0xCF3ECB31, 0xCBFFD686, 0xD5B88683, 0xD1799B34, 0xDC3ABDED, 0xD8FBA05A]
  const ROW_8: seq<bv32> := [
    0x690CE0EE, 0x6DCDFD59, 0x608EDB80, 0x644FC637, 0x7A089632, 0x7EC98B85, 0x738AAD5C, 0x774BB0EB,
    0x4F040D56, 0x4BC510E1, 0x46863638, 0x42472B8F, 0x5C007B8A, 0x58C1663D, 0x558240E4, 0x51435D53]
  const ROW_9: seq<bv32> := [
    0x251D3B9E, 0x21DC2629, 0x2C9F00F0, 0x285E1D47, 0x36194D42, 0x32D850F5, 0x3F9B762C, 0x3B5A6B9B,
    0x0315D626, 0x07D4CB91, 0x0A97ED48, 0x0E56F0FF, 0x1011A0FA, 0x14D0BD4D, 0x19939B94, 0x1D528623]
  const ROW_A: seq<bv32> := [
    0xF12F560E, 0xF5EE4BB9, 0xF8AD6D60, 0xFC6C70D7, 0xE22B20D2, 0xE6EA3D65, 0xEBA91BBC, 0xEF68060B,
    0xD727BBB6, 0xD3E6A601, 0xDEA580D8, 0xDA649D6F, 0xC423CD6A, 0xC0E2D0DD, 0xCDA1F604, 0xC960EBB3]
  const ROW_B: seq<bv32> := [
    0xBD3E8D7E, 0xB9FF90C9, 0xB4BCB610, 0xB07DABA7, 0xAE3AFBA2, 0xAAFBE615, 0xA7B8C0CC, 0xA379DD7B,
    0x9B3660C6, 0x9FF77D71, 0x92B45BA8, 0x9675461F, 0x8832161A, 0x8CF30BAD, 0x81B02D74, 0x857130C3]
  const ROW_C: seq<bv32> := [
    0x5D8A9099, 0x594B8D2E, 0x5408ABF7, 0x50C9B640, 0x4E8EE645, 0x4A4FFBF2, 0x470CDD2B, 0x43CDC09C,
    0x7B827D21, 0x7F436096, 0x7200464F, 0x76C15BF8, 0x68860BFD, 0x6C47164A, 0x61043093, 0x65C52D24]
  const ROW_D: seq<bv32> := [
    0x119B4BE9, 0x155A565E, 0x18197087, 0x1CD86D30, 0x029F3D35, 0x065E2082, 0x0B1D065B, 0x0FDC1BEC,
    0x3793A651, 0x3352BBE6, 0x3E119D3F, 0x3AD08088, 0x2497D08D, 0x2056CD3A, 0x2D15EBE3, 0x29D4F654]
  const ROW_E: seq<bv32> := [
    0xC5A92679, 0xC1683BCE, 0xCC2B1D17, 0xC8EA00A0, 0xD6AD50A5, 0xD26C4D12, 0xDF2F6BCB, 0xDBEE767C,
    0xE3A1CBC1, 0xE760D676, 0xEA23F0AF, 0xEEE2ED18, 0xF0A5BD1D, 0xF464A0AA, 0xF9278673, 0xFDE69BC4]
  const ROW_F: seq<bv32> := [
    0x89B8FD09, 0x8D79E0BE, 0x803AC667, 0x84FBDBD0, 0x9ABC8BD5, 0x9E7D9662, 0x933EB0BB, 0x97FFAD0C,
    0xAFB010B1, 0xAB710D06, 0xA6322BDF, 0xA2F33668, 0xBCB4666D, 0xB8757BDA, 0xB5365D03, 0xB1F740B4]

  const CRC_TABLE: seq<seq<bv32>> := [
    ROW_0, ROW_1, ROW_2, ROW_3, ROW_4, ROW_5, ROW_6, ROW_7,
    ROW_8, ROW_9, ROW_A, ROW_B, ROW_C, ROW_D, ROW_E, ROW_F]

  /** crctab[i] */
  function Entry(i: bv8): bv32 {
    NibbleRange(i);
    CRC_TABLE[(i >> 4) as int][(i & 15) as int]
  }

  lemma NibbleRange(i: bv8)
    ensures (i >> 4) as int < 16 && (i & 15) as int < 16
    ensures |CRC_TABLE| == 16 && |CRC_TABLE[(i >> 4) as int]| == 16
  {
    assert |CRC_TABLE| == 16 && forall r | 0 <= r < 16 :: |CRC_TABLE[r]| == 16;
  }

  // ---- the table is what eight shifts make of each byte ----

  lemma RowsFrom0()
    ensures ROW_0 == AddAll(Xor, 0x00000000, ROW_0)
    ensures ROW_1 == AddAll(Xor, 0x4C11DB70, ROW_0)
    ensures ROW_2 == AddAll(Xor, 0x9823B6E0, ROW_0)
    ensures ROW_3 == AddAll(Xor, 0xD4326D90, ROW_0)
  {
  }

  lemma RowsFrom4()
    ensures ROW_4 == AddAll(Xor, 0x34867077, ROW_0)
    ensures ROW_5 == AddAll(Xor, 0x7897AB07, ROW_0)
    ensures ROW_6 == AddAll(Xor, 0xACA5C697, ROW_0)
    ensures ROW_7 == AddAll(Xor, 0xE0B41DE7, ROW_0)
  {
  }

  lemma RowsFrom8()
    ensures ROW_8 == AddAll(Xor, 0x690CE0EE, ROW_0)
    ensures ROW_9 == AddAll(Xor, 0x251D3B9E, ROW_0)
    ensures ROW_A == AddAll(Xor, 0xF12F560E, ROW_0)
    ensures ROW_B == AddAll(Xor, 0xBD3E8D7E, ROW_0)
  {
  }

  lemma RowsFromC()
    ensures ROW_C == AddAll(Xor, 0x5D8A9099, ROW_0)
    ensures ROW_D == AddAll(Xor, 0x119B4BE9, ROW_0)
    ensures ROW_E == AddAll(Xor, 0xC5A92679, ROW_0)
    ensures ROW_F == AddAll(Xor, 0x89B8FD09, ROW_0)
  {
  }

  /** Every row is the first one plus its own first entry. */
  lemma RowIsShifted(r: nat)
    requires r < 16
    ensures |CRC_TABLE| == 16 && |CRC_TABLE[r]| == 16
    ensures CRC_TABLE[r] == AddAll(Xor, CRC_TABLE[r][0], ROW_0)
  {
    RowsFrom0();
    RowsFrom4();
    RowsFrom8();
    RowsFromC();
  }

  lemma HighNibbleTo3(h: bv8)
    requires h < 4
    ensures CRC_TABLE[h as int][0] == Iterate(Shift, 8, (h as bv32) << 28)
  {
    if
    case h == 0 => EightShifts(0x0000_0000, 0x00000000);
    case h == 1 => EightShifts(0x1000_0000, 0x4C11DB70);
    case h == 2 => EightShifts(0x2000_0000, 0x9823B6E0);
    case h == 3 => EightShifts(0x3000_0000, 0xD4326D90);
  }

  lemma HighNibbleTo7(h: bv8)
    requires 4 <= h < 8
    ensures CRC_TABLE[h as int][0] == Iterate(Shift, 8, (h as bv32) << 28)
  {
    if
    case h == 4 => EightShifts(0x4000_0000, 0x34867077);
    case h == 5 => EightShifts(0x5000_0000, 0x7897AB07);
    case h == 6 => EightShifts(0x6000_0000, 0xACA5C697);
    case h == 7 => EightShifts(0x7000_0000, 0xE0B41DE7);
  }

  lemma HighNibbleFrom8(h: bv8)
    requires 8 <= h < 16
    ensures CRC_TABLE[h as int][0] == Iterate(Shift, 8, (h as bv32) << 28)
  {
    if
    case h == 8 => EightShifts(0x8000_0000, 0x690CE0EE);
    case h == 9 => EightShifts(0x9000_0000, 0x251D3B9E);
    case h == 10 => EightShifts(0xA000_0000, 0xF12F560E);
    case h == 11 => EightShifts(0xB000_0000, 0xBD3E8D7E);
    case h == 12 => EightShifts(0xC000_0000, 0x5D8A9099);
    case h == 13 => EightShifts(0xD000_0000, 0x119B4BE9);
    case h == 14 => EightShifts(0xE000_0000, 0xC5A92679);
    case h == 15 => EightShifts(0xF000_0000, 0x89B8FD09);
  }

  lemma LowNibbleTo3(l: bv8)
    requires l < 4
    ensures ROW_0[l as int] == Iterate(Shift, 8, (l as bv32) << 24)
  {
    if
    case l == 0 => EightShifts(0x0000_0000, 0x00000000);
    case l == 1 => EightShifts(0x0100_0000, 0x04C11DB7);
    case l == 2 => EightShifts(0x0200_0000, 0x09823B6E);
    case l == 3 => EightShifts(0x0300_0000, 0x0D4326D9);
  }

  lemma LowNibbleTo7(l: bv8)
    requires 4 <= l < 8
    ensures ROW_0[l as int] == Iterate(Shift, 8, (l as bv32) << 24)
  {
    if
    case l == 4 => EightShifts(0x0400_0000, 0x130476DC);
    case l == 5 => EightShifts(0x0500_0000, 0x17C56B6B);
    case l == 6 => EightShifts(0x0600_0000, 0x1A864DB2);
    case l == 7 => EightShifts(0x0700_0000, 0x1E475005);
  }

  lemma LowNibbleFrom8(l: bv8)
    requires 8 <= l < 16
    ensures ROW_0[l as int] == Iterate(Shift, 8, (l as bv32) << 24)
  {
    if
    case l == 8 => EightShifts(0x0800_0000, 0x2608EDB8);
    case l == 9 => EightShifts(0x0900_0000, 0x22C9F00F);
    case l == 10 => EightShifts(0x0A00_0000, 0x2F8AD6D6);
    case l == 11 => EightShifts(0x0B00_0000, 0x2B4BCB61);
    case l == 12 => EightShifts(0x0C00_0000, 0x350C9B64);
    case l == 13 => EightShifts(0x0D00_0000, 0x31CD86D3);
    case l == 14 => EightShifts(0x0E00_0000, 0x3C8EA00A);
    case l == 15 => EightShifts(0x0F00_0000, 0x384FBDBD);
  }

  lemma EntrySplits(i: bv8)
    ensures |CRC_TABLE| == 16 && (i >> 4) as int < 16 && (i & 15) as int < 16 && |CRC_TABLE[(i >> 4) as int]| == 16
    ensures Entry(i) == Xor(CRC_TABLE[(i >> 4) as int][0], ROW_0[(i & 15) as int])
  {
    NibbleRange(i);
    RowIsShifted((i >> 4) as int);
    AddAllAt(Xor, CRC_TABLE[(i >> 4) as int][0], ROW_0, (i & 15) as int);
  }

  lemma NibblesShifted(h: bv8, l: bv8)
    requires h < 16 && l < 16
    ensures |CRC_TABLE| == 16 && h as int < 16 && l as int < 16 && |CRC_TABLE[h as int]| == 16
    ensures CRC_TABLE[h as int][0] == Iterate(Shift, 8, (h as bv32) << 28)
    ensures ROW_0[l as int] == Iterate(Shift, 8, (l as bv32) << 24)
  {
    RowIsShifted(h as int);
    if h < 4 { HighNibbleTo3(h); } else if h < 8 { HighNibbleTo7(h); } else { HighNibbleFrom8(h); }
    if l < 4 { LowNibbleTo3(l); } else if l < 8 { LowNibbleTo7(l); } else { LowNibbleFrom8(l); }
  }

  lemma NibblesJoin(i: bv8)
    ensures Xor(((i >> 4) as bv32) << 28, ((i & 15) as bv32) << 24) == (i as bv32) << 24
    ensures i >> 4 < 16 && i & 15 < 16
  {
  }

  lemma EntryIsEightShifts(i: bv8)
    ensures Entry(i) == Iterate(Shift, 8, (i as bv32) << 24)
  {
    NibblesJoin(i);
    EntrySplits(i);
    NibblesShifted(i >> 4, i & 15);
    EightLinear(((i >> 4) as bv32) << 28, ((i & 15) as bv32) << 24);
  }

  // ---- one table step is eight message bits ----

  /** The bits of an octet, most significant first. */
  function BitsOf(b: bv8): (r: seq<bool>)
    ensures |r| == 8
  {
    [b & 0x80 != 0, b & 0x40 != 0, b & 0x20 != 0, b & 0x10 != 0,
     b & 0x08 != 0, b & 0x04 != 0, b & 0x02 != 0, b & 0x01 != 0]
  }

  /** One turn of the checksum loop on a 32-bit register. */
  function TableStep(r: bv32, b: bv8): bv32 {
    Xor(r << 8, Entry(((r >> 24) as bv8) ^ b))
  }

  predicate Top(r: bv32) {
    r & 0x8000_0000 != 0
  }

  function Double(r: bv32): bv32 {
    r << 1
  }

  lemma ShiftReduces()
    ensures Reduces(Shift, Xor, 0x04C1_1DB7, Top, Double)
  {
  }

  /** Adding an octet at the top of the register and shifting eight times is feeding its
      bits. */
  lemma FeedOctet(r: bv32, b: bv8)
    ensures Fold(Feed, r, BitsOf(b)) == Iterate(Shift, 8, Xor(r, (b as bv32) << 24))
  {
    var y := (b as bv32) << 24;
    ShiftIsLinear();
    FeedTakesIn();
    ShiftReduces();
    XorRegroups(0x04C1_1DB7);
    FeedUpFront(Shift, Xor, 0x04C1_1DB7, Feed, Top, Double, r, y, 8);
    OctetTopBits(b, y);
    XorNothing(Fold(Feed, r, BitsOf(b)));
  }

  lemma OctetTopBits(b: bv8, y: bv32)
    requires y == (b as bv32) << 24
    ensures TopBits(Top, Double, y, 8) == BitsOf(b)
    ensures Iterate(Double, 8, y) == 0
  {
    EightTopBits(Top, Double, y);
  }

  lemma SplitRegister(r: bv32, b: bv8)
    ensures Xor(r, (b as bv32) << 24) == Xor(r & 0xFF_FFFF, ((((r >> 24) as bv8) ^ b) as bv32) << 24)
  {
  }

  lemma LowBytes(r: bv32)
    ensures r & 0xFF_FFFF < 0x100_0000 && (r & 0xFF_FFFF) << 8 == r << 8
  {
  }

  lemma LowBytesShift(r: bv32)
    requires r < 0x100_0000
    ensures Iterate(Shift, 8, r) == r << 8
  {
    EightShifts(r, r << 8);
  }

  lemma LowPart(r: bv32)
    ensures Iterate(Shift, 8, r & 0xFF_FFFF) == r << 8
  {
    LowBytes(r);
    LowBytesShift(r & 0xFF_FFFF);
  }

  lemma EightLinear(a: bv32, b: bv32)
    ensures Iterate(Shift, 8, Xor(a, b)) == Xor(Iterate(Shift, 8, a), Iterate(Shift, 8, b))
  {
    ShiftIsLinear();
    IterateLinear(Shift, Xor, 8, a, b);
  }

  /** A table step has the effect of feeding the eight bits of the octet. */
  lemma TableStepIsFeed(r: bv32, b: bv8)
    ensures TableStep(r, b) == Fold(Feed, r, BitsOf(b))
  {
    var z := ((r >> 24) as bv8) ^ b;
    FeedOctet(r, b);
    SplitRegister(r, b);
    EightLinear(r & 0xFF_FFFF, (z as bv32) << 24);
    LowPart(r);
    EntryIsEightShifts(z);
  }

  // ---- the checksum as it is specified ----

  /** The length as a binary number, least significant octet first, in as few octets as
      possible. */
  function Octets(n: nat): seq<bv8> {
    if n == 0 then [] else [(n % 256) as bv8] + Octets(n / 256)
  }

  function Power256(k: nat): nat {
    if k == 0 then 1 else 256 * Power256(k - 1)
  }

  /** The number that octets spell: the sum of octets[k] * 256^k. */
  function LittleEndian(octets: seq<bv8>): nat {
    if octets == [] then 0
    else
      var last := |octets| - 1;
      LittleEndian(octets[..last]) + octets[last] as nat * Power256(last)
  }

  predicate IsShortest(octets: seq<bv8>) {
    octets != [] ==> octets[|octets| - 1] != 0
  }

  lemma {:induction false} OctetInFront(b: bv8, octets: seq<bv8>)
    ensures LittleEndian([b] + octets) == b as nat + 256 * LittleEndian(octets)
    decreases |octets|
  {
    if octets == [] {
      assert ([b] + octets)[..0] == [];
      assert Power256(0) == 1;
    } else {
      var last := |octets| - 1;
      assert ([b] + octets)[..last + 1] == [b] + octets[..last];
      OctetInFront(b, octets[..last]);
      Carry(octets[last] as nat, Power256(last));
    }
  }

  lemma Carry(d: nat, p: nat)
    ensures d * (256 * p) == 256 * (d * p)
  {
  }

  lemma Digit(n: nat)
    ensures ((n % 256) as bv8) as nat + 256 * (n / 256) == n
  {
  }

  lemma LowDigit(n: nat, b: bv8, m: nat)
    requires n == b as nat + 256 * m
    ensures n / 256 == m && (n % 256) as bv8 == b
  {
  }

  /** The octets of the trailer spell the length, and there are as few as possible. */
  lemma {:induction false} OctetsDenote(n: nat)
    ensures LittleEndian(Octets(n)) == n && IsShortest(Octets(n))
  {
    if n == 0 {
    } else {
      var low, rest := (n % 256) as bv8, Octets(n / 256);
      OctetsDenote(n / 256);
      OctetInFront(low, rest);
      Digit(n);
      assert Octets(n) == [low] + rest;
    }
  }

  /** No other octets do that. */
  lemma {:induction false} OnlyTheseOctets(n: nat, octets: seq<bv8>)
    requires LittleEndian(octets) == n && IsShortest(octets)
    ensures octets == Octets(n)
    decreases |octets|
  {
    if octets == [] {
    } else {
      var b, rest := octets[0], octets[1..];
      assert octets == [b] + rest;
      OctetInFront(b, rest);
      LowDigit(n, b, LittleEndian(rest));
      OnlyTheseOctets(n / 256, rest);
      assert n != 0;
    }
  }

  function MessageBits(octets: seq<bv8>): (bits: seq<bool>)
    ensures |bits| == 8 * |octets|
  {
    if octets == [] then [] else BitsOf(octets[0]) + MessageBits(octets[1..])
  }

  /** The cksum utility of POSIX.1-2017 (Shell & Utilities, cksum, DESCRIPTION): the bits
      of the file followed by its length, multiplied by x^32, are divided by the generator
      polynomial; the remainder is complemented. */
  function Cksum(content: seq<bv8>): bv32 {
    !Remainder(MessageBits(content + Octets(|content|)) + Zeros(32))
  }

  lemma {:induction false} MessageBitsConcat(a: seq<bv8>, b: seq<bv8>)
    ensures MessageBits(a + b) == MessageBits(a) + MessageBits(b)
    decreases |a|
  {
    if a == [] {
      assert a + b == b;
    } else {
      assert (a + b)[1..] == a[1..] + b;
      MessageBitsConcat(a[1..], b);
    }
  }

  // ---- the checksum as it is computed, in an unmasked long ----

  function Low32(c: bv64): bv32 {
    (c & 0xFFFF_FFFF) as bv32
  }

  function LowByte(c: bv64): bv8 {
    (c & 0xFF) as bv8
  }

  /** _crc >> 24 of a signed long. */
  function ArithmeticShift24(c: bv64): bv64 {
    if c & 0x8000_0000_0000_0000 != 0 then (c >> 24) | 0xFFFF_FF00_0000_0000 else c >> 24
  }

  /** A char is signed. */
  function SignExtend(b: bv8): bv64 {
    if b & 0x80 != 0 then 0xFFFF_FFFF_FFFF_FF00 | (b as bv64) else b as bv64
  }

  /** (_crc << 8) ^ crctab[((_crc >> 24) ^ word) & 0xFF] */
  function LongStep(c: bv64, word: bv64): bv64 {
    (c << 8) ^ (Entry(LowByte(ArithmeticShift24(c) ^ word)) as bv64)
  }

  lemma IndexByte(c: bv64, word: bv64)
    ensures LowByte(ArithmeticShift24(c) ^ word) == ((Low32(c) >> 24) as bv8) ^ LowByte(word)
  {
  }

  lemma LowHalf(c: bv64, e: bv32)
    ensures Low32((c << 8) ^ (e as bv64)) == Xor(Low32(c) << 8, e)
  {
  }

  lemma SignExtendLow(b: bv8)
    ensures LowByte(SignExtend(b)) == b && LowByte(b as bv64) == b
  {
  }

  /** The lower half of the long never sees the upper half. */
  lemma LongStepIsTableStep(c: bv64, word: bv64)
    ensures Low32(LongStep(c, word)) == TableStep(Low32(c), LowByte(word))
  {
    IndexByte(c, word);
    LowHalf(c, Entry(LowByte(ArithmeticShift24(c) ^ word)));
  }

  /** The register after the octets that have been read. */
  function Register(octets: seq<bv8>): bv32 {
    Fold(Feed, 0, MessageBits(octets))
  }

  lemma OneByteOn(sent: seq<bv8>, b: bv8)
    ensures Register(sent + [b]) == TableStep(Register(sent), b)
  {
    TableStepIsFeed(Register(sent), b);
    MessageBitsConcat(sent, [b]);
    assert MessageBits([b]) == BitsOf(b);
    FoldConcat(Feed, 0, MessageBits(sent), BitsOf(b));
  }

  lemma ReadOctet(c: bv64, sent: seq<bv8>, word: bv64, b: bv8)
    requires Low32(c) == Register(sent) && LowByte(word) == b
    ensures Low32(LongStep(c, word)) == Register(sent + [b])
  {
    LongStepIsTableStep(c, word);
    OneByteOn(sent, b);
  }

  lemma Complement(c: bv64)
    ensures !c & 0xFFFF_FFFF == (!Low32(c)) as bv64
  {
  }

  lemma ComplementIsCksum(c: bv64, content: seq<bv8>)
    requires Low32(c) == Register(content + Octets(|content|))
    ensures !c & 0xFFFF_FFFF == Cksum(content) as bv64
  {
    CksumIsRegister(content);
    Complement(c);
  }

  const BUFLEN := 65536

  /** A file that is not readable fails to open, or in the middle. */
  method ChecksumCalc(content: seq<bv8>, readable: bool) returns (ok: bool, crc: bv64, filesize: nat)
    ensures ok <==> readable
    ensures ok ==> crc == Cksum(content) as bv64 && filesize == |content|
  {
    ok, crc, filesize := false, 0, 0;
    var opens: bool :| readable ==> opens;
    if opens {
      var c;
      ok, c, filesize := ReadContent(content, readable);
      if ok {
        crc := FinishChecksum(c, filesize, content);
      }
    }
  }

  /** The read loop. fread may return any positive number of bytes until the end of the
      file. */
  method ReadContent(content: seq<bv8>, readable: bool) returns (ok: bool, c: bv64, length: nat)
    ensures ok <==> readable
    ensures ok ==> length == |content| && Low32(c) == Register(content)
  {
    var buf := new bv8[BUFLEN];
    c, length := 0, 0;
    while true
      invariant length <= |content| && Low32(c) == Register(content[..length])
      decreases |content| - length
    {
      var bytesRead: nat;
      bytesRead :| bytesRead <= BUFLEN && length + bytesRead <= |content| &&
        (bytesRead == 0 && readable ==> length == |content|);
      if bytesRead == 0 {
        break;
      }
      forall i | 0 <= i < bytesRead {
        buf[i] := content[length + i];
      }
      assert buf[..bytesRead] == content[length..length + bytesRead];
      c := ReadChunk(buf, bytesRead, c, content[..length]);
      assert content[..length] + buf[..bytesRead] == content[..length + bytesRead];
      length := length + bytesRead;
    }
    ok := readable; // !ferror(fp)
    assert ok ==> content[..length] == content;
  }

  /** The length, and the complement. */
  method FinishChecksum(c: bv64, length: nat, ghost content: seq<bv8>) returns (crc: bv64)
    requires length == |content| && Low32(c) == Register(content)
    ensures crc == Cksum(content) as bv64
  {
    var c' := LengthTrailer(c, length, content);
    ComplementIsCksum(c', content);
    crc := !c' & 0xFFFF_FFFF;
  }

  method ReadChunk(buf: array<bv8>, n: nat, start: bv64, ghost sent: seq<bv8>) returns (c: bv64)
    requires n <= buf.Length && Low32(start) == Register(sent)
    ensures Low32(c) == Register(sent + buf[..n])
  {
    c := start;
    assert sent + buf[..0] == sent;
    for i := 0 to n
      invariant Low32(c) == Register(sent + buf[..i])
    {
      SignExtendLow(buf[i]);
      ReadOctet(c, sent + buf[..i], SignExtend(buf[i]), buf[i]);
      assert sent + buf[..i] + [buf[i]] == sent + buf[..i + 1];
      c := LongStep(c, SignExtend(buf[i]));
    }
  }

  /** for (; _length; _length >>= 8): of _length only the lowest octet gets past the mask. */
  method LengthTrailer(start: bv64, length: nat, ghost content: seq<bv8>) returns (c: bv64)
    requires Low32(start) == Register(content)
    ensures Low32(c) == Register(content + Octets(length))
  {
    c := start;
    var rest := length;
    ghost var sent := content;
    while rest != 0
      invariant Low32(c) == Register(sent)
      invariant sent + Octets(rest) == content + Octets(length)
    {
      var octet := (rest % 256) as bv8;
      SignExtendLow(octet);
      ReadOctet(c, sent, octet as bv64, octet);
      c := LongStep(c, octet as bv64);
      assert sent + Octets(rest) == sent + [octet] + Octets(rest / 256);
      sent, rest := sent + [octet], rest / 256;
    }
    assert sent + Octets(0) == sent;
  }

  // ---- what the checksum is good for ----

  lemma CksumIsRegister(content: seq<bv8>)
    ensures Cksum(content) == !Register(content + Octets(|content|))
  {
    RegisterIsRemainder(MessageBits(content + Octets(|content|)));
  }

  lemma ComplementOneToOne(a: bv32, b: bv32)
    requires !a == !b
    ensures a == b
  {
  }

  /** Two files of the same length have the same checksum exactly when the generator
      polynomial divides their difference. */
  lemma CksumCollidesExactlyWhen(a: seq<bv8>, b: seq<bv8>)
    requires |a| == |b|
    ensures Cksum(a) == Cksum(b) <==> Collide(a, b)
  {
    CksumSameExactlyWhen(a, b);
    TrailerIsOneToOne(a, b, Octets(|a|));
    CollisionExactlyWhen(MessageBits(a), MessageBits(b));
  }

  lemma CksumSameExactlyWhen(a: seq<bv8>, b: seq<bv8>)
    requires |a| == |b|
    ensures Cksum(a) == Cksum(b) <==> Register(a + Octets(|a|)) == Register(b + Octets(|a|))
  {
    CksumIsRegister(a);
    CksumIsRegister(b);
    ComplementsSameExactlyWhen(Cksum(a), Cksum(b), Register(a + Octets(|a|)), Register(b + Octets(|a|)));
  }

  lemma ComplementsSameExactlyWhen(p: bv32, q: bv32, x: bv32, y: bv32)
    requires p == !x && q == !y
    ensures p == q <==> x == y
  {
    if p == q {
      ComplementOneToOne(x, y);
    }
  }

  lemma TrailerIsOneToOne(a: seq<bv8>, b: seq<bv8>, o: seq<bv8>)
    ensures Register(a + o) == Register(b + o) <==> Register(a) == Register(b)
  {
    MessageBitsConcat(a, o);
    MessageBitsConcat(b, o);
    SameAfterwards(MessageBits(a), MessageBits(b), MessageBits(o));
  }

  /** The files, read as polynomials over the field of two elements, differ by a multiple of
      the generator. */
  predicate Collide(a: seq<bv8>, b: seq<bv8>) {
    |a| == |b| && Remainder(XorBits(MessageBits(a), MessageBits(b))) == 0
  }

  /** That is: exactly when the difference is the generator times some polynomial. */
  lemma CollideExactlyWhenMultiple(a: seq<bv8>, b: seq<bv8>)
    ensures Collide(a, b) <==> |a| == |b| && IsMultiple(XorBits(MessageBits(a), MessageBits(b)))
  {
    if |a| == |b| {
      MultipleExactlyWhen(XorBits(MessageBits(a), MessageBits(b)));
    }
  }

  /** Two files of the same length that differ only within 32 consecutive bits, wherever
      these begin, have different checksums. */
  lemma BitBurstDetected(a: seq<bv8>, b: seq<bv8>, before: seq<bool>, x: seq<bool>, y: seq<bool>, after: seq<bool>)
    requires |a| == |b| && |x| == |y| <= 32 && x != y
    requires MessageBits(a) == before + x + after && MessageBits(b) == before + y + after
    ensures Cksum(a) != Cksum(b)
  {
    var trailer := MessageBits(Octets(|a|));
    BeforeTrailer(a, Octets(|a|), before, x, after);
    BeforeTrailer(b, Octets(|b|), before, y, after);
    BurstDetected(before, x, y, after + trailer);
    CksumIsRegister(a);
    CksumIsRegister(b);
    if Cksum(a) == Cksum(b) {
      ComplementOneToOne(Register(a + Octets(|a|)), Register(b + Octets(|b|)));
    }
  }

  lemma BeforeTrailer(a: seq<bv8>, trailer: seq<bv8>, before: seq<bool>, x: seq<bool>, after: seq<bool>)
    requires MessageBits(a) == before + x + after
    ensures MessageBits(a + trailer) == before + x + (after + MessageBits(trailer))
  {
    MessageBitsConcat(a, trailer);
  }

  lemma BitsOfOneToOne(a: bv8, b: bv8)
    requires BitsOf(a) == BitsOf(b)
    ensures a == b
  {
    assert forall i | 0 <= i < 8 :: BitsOf(a)[i] == BitsOf(b)[i];
    SameBits(a, b);
  }

  lemma SameBits(a: bv8, b: bv8)
    requires (a & 0x80 != 0) == (b & 0x80 != 0) && (a & 0x40 != 0) == (b & 0x40 != 0)
    requires (a & 0x20 != 0) == (b & 0x20 != 0) && (a & 0x10 != 0) == (b & 0x10 != 0)
    requires (a & 0x08 != 0) == (b & 0x08 != 0) && (a & 0x04 != 0) == (b & 0x04 != 0)
    requires (a & 0x02 != 0) == (b & 0x02 != 0) && (a & 0x01 != 0) == (b & 0x01 != 0)
    ensures a == b
  {
  }

  lemma {:induction false} MessageBitsOneToOne(a: seq<bv8>, b: seq<bv8>)
    requires |a| == |b| && MessageBits(a) == MessageBits(b)
    ensures a == b
  {
    if a == [] {
    } else {
      assert BitsOf(a[0]) == MessageBits(a)[..8] == BitsOf(b[0]);
      BitsOfOneToOne(a[0], b[0]);
      assert MessageBits(a[1..]) == MessageBits(a)[8..] == MessageBits(b[1..]);
      MessageBitsOneToOne(a[1..], b[1..]);
    }
  }

  /** In particular files that differ only within four consecutive bytes. */
  lemma ByteBurstDetected(a: seq<bv8>, b: seq<bv8>, i: nat, j: nat)
    requires |a| == |b| && i <= j <= |a| && j - i <= 4
    requires a != b && a[..i] == b[..i] && a[j..] == b[j..]
    ensures Cksum(a) != Cksum(b)
  {
    var x, y := a[i..j], b[i..j];
    assert a == a[..i] + x + a[j..] && b == b[..i] + y + b[j..];
    MessageBitsConcat(a[..i], x);
    MessageBitsConcat(a[..i] + x, a[j..]);
    MessageBitsConcat(b[..i], y);
    MessageBitsConcat(b[..i] + y, b[j..]);
    if MessageBits(x) == MessageBits(y) {
      MessageBitsOneToOne(x, y);
    }
    BitBurstDetected(a, b, MessageBits(a[..i]), MessageBits(x), MessageBits(y), MessageBits(a[j..]));
  }

  lemma FirstEntries()
    ensures Entry(0) == 0 && Entry(1) == 0x04C1_1DB7
  {
    assert (0 as bv8 >> 4) as int == 0 && (0 as bv8 & 15) as int == 0;
    assert (1 as bv8 >> 4) as int == 0 && (1 as bv8 & 15) as int == 1;
  }

  /** An octet that equals the top of the register cancels it. */
  lemma Cancel(sent: seq<bv8>, b: bv8, r: bv32)
    requires Register(sent) == r && (r >> 24) as bv8 == b
    ensures Register(sent + [b]) == r << 8
  {
    OneByteOn(sent, b);
    FirstEntries();
    XorNothing(r << 8);
    assert ((r >> 24) as bv8) ^ b == 0;
  }

  lemma GeneratorCancels()
    ensures Register([1, 4, 0xC1, 0x1D, 0xB7]) == 0
  {
    var a: seq<bv8> := [1, 4, 0xC1, 0x1D, 0xB7];
    OneByteOn([], 1);
    FirstEntries();
    assert [] + [1] == a[..1] && Register(a[..1]) == 0x04C1_1DB7;
    Cancel(a[..1], 4, 0x04C1_1DB7);
    assert a[..1] + [4] == a[..2];
    Cancel(a[..2], 0xC1, 0xC11D_B700);
    assert a[..2] + [0xC1] == a[..3];
    Cancel(a[..3], 0x1D, 0x1DB7_0000);
    assert a[..3] + [0x1D] == a[..4];
    Cancel(a[..4], 0xB7, 0xB700_0000);
    assert a[..4] + [0xB7] == a;
  }

  lemma {:induction false} ZerosStayZero(n: nat)
    ensures Register(seq(n, _ => 0)) == 0
  {
    if n == 0 {
    } else {
      var before: seq<bv8> := seq(n - 1, _ => 0);
      ZerosStayZero(n - 1);
      Cancel(before, 0, 0);
      assert before + [0] == seq(n, _ => 0);
    }
  }

  /** Five bytes are one too many: the generator polynomial itself, put into five bytes,
      leaves no trace in the register. */
  lemma FiveByteBurstMissed()
    ensures Cksum([1, 4, 0xC1, 0x1D, 0xB7]) == Cksum([0, 0, 0, 0, 0])
  {
    GeneratorCancels();
    ZerosStayZero(5);
    assert seq(5, _ => 0 as bv8) == [0, 0, 0, 0, 0];
    TrailerIsOneToOne([1, 4, 0xC1, 0x1D, 0xB7], [0, 0, 0, 0, 0], Octets(5));
    CksumSameExactlyWhen([1, 4, 0xC1, 0x1D, 0xB7], [0, 0, 0, 0, 0]);
  }

  // ---- what the checksum is, in the words of the standard ----

  /** The bits of the octets come in order, the most significant one of each first. */
  lemma {:induction false} MessageBitAt(octets: seq<bv8>, i: nat, j: bv8)
    requires i < |octets| && j < 8
    ensures MessageBits(octets)[8 * i + j as nat] <==> octets[i] & (0x80 >> j) != 0
  {
    if i == 0 {
      OctetBit(octets[0], j);
    } else {
      MessageBitAt(octets[1..], i - 1, j);
    }
  }

  lemma OctetBit(b: bv8, j: bv8)
    requires j < 8
    ensures BitsOf(b)[j] <==> b & (0x80 >> j) != 0
  {
    if j < 4 {
      if j == 0 {
      } else if j == 1 {
      } else if j == 2 {
      } else {
      }
    } else if j == 4 {
    } else if j == 5 {
    } else if j == 6 {
    } else {
    }
  }

  /** The checksum is the complement of the remainder of the file with the octets behind it
      that spell its length, whatever these are. */
  lemma CksumWithLength(content: seq<bv8>, length: seq<bv8>)
    requires LittleEndian(length) == |content| && IsShortest(length)
    ensures Cksum(content) == !Remainder(MessageBits(content + length) + Zeros(32))
  {
    OnlyTheseOctets(|content|, length);
  }

  /** One turn of the loop, with the entry that it looks up. */
  lemma Looked(sent: seq<bv8>, r: bv32, b: bv8, hi: bv8, lo: bv8, e: bv32)
    requires Register(sent) == r && hi < 16 && lo < 16 && ((r >> 24) as bv8) ^ b == hi * 16 + lo
    requires CRC_TABLE[hi as int][lo as int] == e
    ensures Register(sent + [b]) == Xor(r << 8, e)
  {
    OneByteOn(sent, b);
    Nibbles(hi, lo);
  }

  lemma Nibbles(hi: bv8, lo: bv8)
    requires hi < 16 && lo < 16
    ensures (hi * 16 + lo) >> 4 == hi && (hi * 16 + lo) & 15 == lo
  {
  }

  /** The empty file: its length has no octets. */
  lemma EmptyFile()
    ensures Cksum([]) == 0xFFFF_FFFF
  {
    CksumIsRegister([]);
  }

  const CHECK: seq<bv8> := [49, 50, 51, 52, 53, 54, 55, 56, 57] // "123456789"

  lemma CheckFirstHalf()
    ensures Register(CHECK[..5]) == 0xFA8A0CDB
  {
    Looked(CHECK[..0], 0x00000000, 49, 3, 1, 0xD0F37027);
    assert CHECK[..0] + [49] == CHECK[..1];
    Looked(CHECK[..1], 0xD0F37027, 50, 14, 2, 0xCC2B1D17);
    assert CHECK[..1] + [50] == CHECK[..2];
    Looked(CHECK[..2], 0x3F5B3A17, 51, 0, 12, 0x350C9B64);
    assert CHECK[..2] + [51] == CHECK[..3];
    Looked(CHECK[..3], 0x6E368C64, 52, 5, 10, 0x571D7DD1);
    assert CHECK[..3] + [52] == CHECK[..4];
    Looked(CHECK[..4], 0x619119D1, 53, 5, 4, 0x6B93DDDB);
    assert CHECK[..4] + [53] == CHECK[..5];
  }

  lemma CheckSecondHalf()
    ensures Register(CHECK[..9]) == 0x89A1897F
  {
    CheckFirstHalf();
    Looked(CHECK[..5], 0xFA8A0CDB, 54, 12, 12, 0x68860BFD);
    assert CHECK[..5] + [54] == CHECK[..6];
    Looked(CHECK[..6], 0xE28AD0FD, 55, 13, 5, 0x065E2082);
    assert CHECK[..6] + [55] == CHECK[..7];
    Looked(CHECK[..7], 0x8C8EDD82, 56, 11, 4, 0xAE3AFBA2);
    assert CHECK[..7] + [56] == CHECK[..8];
    Looked(CHECK[..8], 0x20E779A2, 57, 1, 9, 0x6ED82B7F);
    assert CHECK[..8] + [57] == CHECK[..9];
  }

  lemma CheckWithLength()
    ensures Register(CHECK + [9]) == 0xC885_9FEE
  {
    CheckSecondHalf();
    assert CHECK[..9] == CHECK;
    LastTurn(CHECK);
  }

  lemma LastTurn(sent: seq<bv8>)
    requires Register(sent) == 0x89A1_897F
    ensures Register(sent + [9]) == 0xC885_9FEE
  {
    Looked(sent, 0x89A1897F, 9, 8, 0, 0x690CE0EE);
  }

  lemma OneOctet()
    ensures Octets(9) == [9]
  {
    assert Octets(9) == [9] + Octets(0);
  }

  /** The customary check value: what the cksum utility says of a file that holds the nine
      digits 1 to 9, which is 930766865. */
  lemma CheckValue()
    ensures Cksum(CHECK) == 0x377A_6011
  {
    CheckWithLength();
    OneOctet();
    CksumIsRegister(CHECK);
  }
}
