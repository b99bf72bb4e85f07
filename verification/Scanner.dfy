/** The scan functions (src/scanner.c): each one returns the first place in a
    stretch of the buffer where a file could start. */
module Scanners {
  import opened Bits
  import opened Recipes

  /** union scan_param together with the scan function that reads it. */
  datatype ScanParam =
    | ScanChar(c: byte)
    | ScanBlock(block: nat)
    | ScanString(str: seq<byte>, magicchar: byte, magicoff: nat)
  {
    /** The bytes the scan function may look at from one position. */
    function Length(): nat {
      match this
      case ScanChar(_) => 1
      case ScanBlock(_) => 0
      case ScanString(str, _, _) => |str|
    }

    ghost predicate Valid() {
      match this
      case ScanChar(_) => true
      case ScanBlock(block) => IsPowerOfTwo(block)
      case ScanString(str, magicchar, magicoff) => magicoff < |str| && str[magicoff] == magicchar
    }
  }

  datatype Scanner = Scanner(param: ScanParam, offset: nat, recipes: seq<Recipe>)

  predicate OccursAt(str: seq<byte>, data: seq<byte>, k: nat) {
    k + |str| <= |data| && data[k..k + |str|] == str
  }

  /** Position k of data, which is position base + k of the file, is one the scan
      function stops at. */
  predicate FoundAt(param: ScanParam, data: seq<byte>, base: int, k: nat) {
    match param
    case ScanChar(c) => k < |data| && data[k] == c
    case ScanBlock(block) => block > 0 && (base + k) % block == 0
    case ScanString(str, _, _) => OccursAt(str, data, k)
  }

  /** The naive matcher on a whole image: could a file start at q? */
  predicate Hit(sc: Scanner, image: seq<byte>, q: nat) {
    FoundAt(sc.param, image, 0, q + sc.offset)
  }

  /** For a character or a string: the bytes are there, behind the offset of the scanner. For
      blocks: the place behind the offset is a multiple of the block size, whatever is
      there. */
  lemma HitExactlyWhen(sc: Scanner, image: seq<byte>, q: nat)
    requires sc.param.Valid()
    ensures Hit(sc, image, q) <==>
      match sc.param
      case ScanChar(c) => q + sc.offset < |image| && image[q + sc.offset] == c
      case ScanBlock(block) => (q + sc.offset) % block == 0
      case ScanString(str, _, _) =>
        q + sc.offset + |str| <= |image| && forall i | 0 <= i < |str| :: image[q + sc.offset + i] == str[i]
  {
    if sc.param.ScanString? && q + sc.offset + |sc.param.str| <= |image| {
      var str, there := sc.param.str, image[q + sc.offset..q + sc.offset + |sc.param.str|];
      assert forall i | 0 <= i < |str| :: there[i] == image[q + sc.offset + i];
    }
  }

  /** r is the least of the len positions from `at` on where the scan function stops. */
  ghost predicate IsFirstFound(param: ScanParam, data: seq<byte>, base: int, at: nat, len: nat, r: Option<nat>) {
    match r
    case None => forall k | at <= k < at + len :: !FoundAt(param, data, base, k)
    case Some(x) =>
      && at <= x < at + len && FoundAt(param, data, base, x)
      && forall k | at <= k < x :: !FoundAt(param, data, base, k)
  }

  lemma FoundInWindow(param: ScanParam, data: seq<byte>, image: seq<byte>, base: nat, k: nat)
    requires base + |data| <= |image| && data == image[base..base + |data|]
    requires k + param.Length() <= |data|
    ensures FoundAt(param, data, base, k) == FoundAt(param, image, 0, base + k)
  {
    if param.ScanString? {
      SliceOfSlice(image, base, base + |data|, k, k + |param.str|);
    }
  }

  /** memchr of the C library: the first c among the n bytes at p. */
  function Memchr(data: seq<byte>, p: nat, n: nat, c: byte): (r: Option<nat>)
    requires p + n <= |data|
    ensures r.None? ==> forall i | p <= i < p + n :: data[i] != c
    ensures r.Some? ==> p <= r.value < p + n && data[r.value] == c
    ensures r.Some? ==> forall i | p <= i < r.value :: data[i] != c
    decreases n
  {
    if n == 0 then None
    else if data[p] == c then Some(p)
    else Memchr(data, p + 1, n - 1, c)
  }

  function ScannerChar(data: seq<byte>, at: nat, len: nat, param: ScanParam): (r: Option<nat>)
    requires param.ScanChar? && at + len <= |data|
    ensures forall base :: IsFirstFound(param, data, base, at, len, r)
  {
    Memchr(data, at, len, param.c)
  }

  /** `offset` is the file position of data[at]. */
  function ScannerBlock(at: nat, len: nat, param: ScanParam, offset: nat): Option<nat>
    requires param.ScanBlock? && param.block > 0
  {
    var extrabytes := And(offset, param.block - 1);
    if extrabytes != 0 then
      if 0 <= param.block - extrabytes < len then Some(at + param.block - extrabytes) else None
    else
      Some(at)
  }

  lemma ScannerBlockFindsFirst(data: seq<byte>, at: nat, len: nat, param: ScanParam, offset: nat)
    requires param.ScanBlock? && IsPowerOfTwo(param.block) && len > 0
    ensures IsFirstFound(param, data, offset - at, at, len, ScannerBlock(at, len, param, offset))
  {
    var b := param.block;
    var k: nat :| b == Pow2(k);
    AndMask(offset, k);
    var e := offset % b;
    var base := offset - at;
    forall x: nat | at <= x < at + b ensures FoundAt(param, data, base, x) <==> e + (x - at) == 0 || e + (x - at) == b {
      assert base + x == offset + (x - at);
      BlockPhase(offset, b, x - at);
    }
  }

  lemma BlockPhase(x: nat, b: nat, i: nat)
    requires i < b
    ensures (x + i) % b == if x % b + i < b then x % b + i else x % b + i - b
  {
    var q, e := x / b, x % b;
    assert x == b * q + e;
    if e + i < b {
      ModUnique(x + i, b, q, e + i);
    } else {
      assert b * (q + 1) == b * q + b;
      ModUnique(x + i, b, q + 1, e + i - b);
    }
  }

  /** Searches for the rarest byte of the string and compares the whole string around
      each place where it occurs. */
  method ScannerString(data: seq<byte>, at: nat, len: nat, param: ScanParam) returns (r: Option<nat>)
    requires param.ScanString? && param.Valid() && at + len + |param.str| <= |data| + 1
    ensures forall base :: IsFirstFound(param, data, base, at, len, r)
  {
    var p := at + param.magicoff;
    var str := param.str;
    var scanbufLen := len + param.magicoff;
    while p - at < scanbufLen
      invariant at + param.magicoff <= p <= at + scanbufLen
      invariant forall k | at <= k < p - param.magicoff :: !OccursAt(str, data, k)
    {
      var found := Memchr(data, p, scanbufLen - (p - at), param.magicchar);
      forall k | p - param.magicoff <= k < (if found.Some? then found.value else at + scanbufLen) - param.magicoff
        ensures !OccursAt(str, data, k)
      {
        assert data[k..k + |str|][param.magicoff] != param.magicchar;
      }
      if found.None? {
        return None;
      }
      p := found.value - param.magicoff;
      if data[p..p + |str|] == str {
        return Some(p);
      }
      p := p + param.magicoff + 1;
    }
    return None;
  }

  /** Calls scanner->func. */
  method CallScanner(data: seq<byte>, at: nat, len: nat, param: ScanParam, offset: nat) returns (r: Option<nat>)
    requires param.Valid() && len > 0 && at + len + param.Length() <= |data| + 1
    ensures IsFirstFound(param, data, offset - at, at, len, r)
  {
    match param
    case ScanChar(_) =>
      r := ScannerChar(data, at, len, param);
    case ScanBlock(_) =>
      ScannerBlockFindsFirst(data, at, len, param, offset);
      r := ScannerBlock(at, len, param, offset);
    case ScanString(_, _, _) =>
      r := ScannerString(data, at, len, param);
  }

  /** Occurrences of each byte, in millions, on the author's disk; sixteen to a row. */
  const SCORE_TABLE: seq<seq<int>> := [
    [1747, 126, 57, 39, 66, 30, 26, 25, 63, 45, 91, 20, 35, 22, 22, 36],
    [33, 20, 21, 17, 25, 17, 16, 15, 23, 18, 16, 15, 21, 15, 15, 15],
    [318, 18, 40, 27, 86, 21, 23, 22, 36, 33, 28, 21, 38, 40, 50, 50],
    [94, 63, 45, 39, 43, 35, 34, 31, 44, 34, 30, 29, 43, 35, 41, 18],
    [29, 69, 32, 40, 59, 63, 39, 32, 27, 40, 20, 23, 41, 34, 38, 32],
    [44, 24, 40, 47, 47, 31, 26, 23, 24, 20, 25, 20, 25, 21, 16, 79],
    [18, 123, 45, 83, 79, 182, 130, 49, 54, 115, 24, 33, 86, 61, 107, 106],
    [63, 20, 111, 103, 151, 64, 36, 32, 37, 35, 20, 18, 21, 22, 15, 15],
    [29, 20, 15, 40, 21, 28, 15, 14, 17, 74, 14, 67, 16, 33, 14, 13],
    [28, 15, 14, 15, 16, 15, 13, 12, 14, 13, 14, 13, 15, 13, 14, 13],
    [17, 14, 13, 15, 16, 13, 13, 14, 15, 13, 14, 13, 14, 13, 13, 13],
    [15, 13, 12, 13, 16, 14, 18, 14, 18, 14, 14, 13, 15, 15, 14, 14],
    [28, 19, 16, 21, 22, 13, 17, 23, 15, 16, 13, 13, 14, 13, 14, 13],
    [19, 14, 16, 14, 14, 13, 13, 13, 17, 16, 13, 14, 14, 16, 14, 14],
    [18, 14, 14, 14, 15, 16, 13, 14, 39, 21, 13, 17, 20, 14, 14, 15],
    [18, 13, 13, 14, 16, 14, 17, 16, 19, 15, 16, 17, 21, 20, 24, 179]
  ]

  ghost predicate IsScoreTable(table: seq<seq<int>>) {
    |table| == 16 && forall r | 0 <= r < 16 :: |table[r]| == 16
  }

  function Score(table: seq<seq<int>>, c: byte): int
    requires IsScoreTable(table)
  {
    table[c / 16][c % 16]
  }

  lemma ScoreTableTop()
    ensures IsScoreTable(SCORE_TABLE)
    ensures SCORE_TABLE[0][0] == 1747
    ensures forall j | 0 < j < 16 :: SCORE_TABLE[0][j] < 1747
    ensures forall r, j | 0 < r < 16 && 0 <= j < 16 :: SCORE_TABLE[r][j] < 1747
  {
  }

  /** NUL is the most frequent byte of all: every other byte beats the initial winner. */
  lemma NulIsMostFrequent(table: seq<seq<int>>)
    requires table == SCORE_TABLE
    ensures IsScoreTable(table)
    ensures forall c: byte | c != 0 :: Score(table, c) < Score(table, 0)
  {
    ScoreTableTop();
  }

  /** Selects the byte of the string with the smallest score. */
  method ScannerStringInit(s: seq<byte>) returns (param: ScanParam)
    requires s != []
    ensures param.ScanString? && param.Valid() && param.str == s
    ensures IsScoreTable(SCORE_TABLE)
    ensures forall i | 0 <= i < |s| :: Score(SCORE_TABLE, param.magicchar) <= Score(SCORE_TABLE, s[i])
    ensures forall i | 0 <= i < param.magicoff :: Score(SCORE_TABLE, param.magicchar) < Score(SCORE_TABLE, s[i])
  {
    NulIsMostFrequent(SCORE_TABLE);
    param := RarestByte(SCORE_TABLE, s);
  }

  method RarestByte(table: seq<seq<int>>, s: seq<byte>) returns (param: ScanParam)
    requires s != [] && IsScoreTable(table)
    requires forall c: byte | c != 0 :: Score(table, c) < Score(table, 0)
    ensures param.ScanString? && param.Valid() && param.str == s
    ensures forall i | 0 <= i < |s| :: Score(table, param.magicchar) <= Score(table, s[i])
    ensures forall i | 0 <= i < param.magicoff :: Score(table, param.magicchar) < Score(table, s[i])
  {
    var winner: byte, winnerOff := 0, 0;
    for i := 0 to |s|
      invariant 0 <= winnerOff <= i && winnerOff < |s|
      invariant i > 0 ==> winnerOff < i && s[winnerOff] == winner
      invariant i == 0 ==> winner == 0 && winnerOff == 0
      invariant forall j | 0 <= j < i :: Score(table, winner) <= Score(table, s[j])
      invariant forall j | 0 <= j < winnerOff :: Score(table, winner) < Score(table, s[j])
    {
      var c := s[i];
      if Score(table, c) < Score(table, winner) {
        winner, winnerOff := c, i;
      }
    }
    param := ScanString(s, winner, winnerOff);
  }

  /** scanner_compare(a, b) == 0: same function, same offset, same parameter. */
  predicate ScannerEqual(a: Scanner, b: Scanner) {
    a.param == b.param && a.offset == b.offset
  }
}
