/** Hexadecimal numbers and escape sequences (src/util.c). */
module Util {
  import opened Bits

  const BACKSLASH: byte := 92
  const LETTER_X: byte := 120

  /** The value of a single hex digit, 0 on error. */
  function Hex2Num(c: byte): (r: nat)
    ensures r < 16
  {
    if 48 <= c <= 57 then c - 48
    else if 97 <= c <= 102 then c - 97 + 10
    else if 65 <= c <= 70 then c - 65 + 10
    else 0
  }

  /** The digit's spelling: '0'..'9', then 'a'..'f'. */
  function HexDigit(n: nat): (c: byte)
    requires n < 16
    ensures Hex2Num(c) == n
  {
    if n < 10 then 48 + n else 97 + n - 10
  }

  /** The C expression x | y. */
  function Or(x: nat, y: nat): int {
    x + y - And(x, y)
  }

  lemma OrDisjoint(x: nat, hi: nat, k: nat, lo: nat)
    requires lo < Pow2(k) && x == hi * Pow2(k)
    ensures Or(x, lo) == x + lo
  {
    AndLow(x, 0, hi, lo, k);
  }

  // ---- hextoll ----

  /** The number a string of hex digits stands for, by position. */
  function HexValue(s: seq<byte>): nat {
    if s == [] then 0 else 16 * HexValue(s[..|s| - 1]) + Hex2Num(s[|s| - 1])
  }

  lemma {:induction false} HexValueBound(s: seq<byte>)
    ensures HexValue(s) < Pow2(4 * |s|)
  {
    if s == [] {
    } else {
      HexValueBound(s[..|s| - 1]);
      SixteenTimes(4 * (|s| - 1));
    }
  }

  lemma {:induction false} Pow2Grows(a: nat, b: nat)
    requires a <= b
    ensures Pow2(a) <= Pow2(b)
    decreases b
  {
    if a == b {
    } else {
      Pow2Grows(a, b - 1);
    }
  }

  /** The hex digits of a number, as many as it takes. */
  function Digits(n: nat): seq<byte> {
    if n == 0 then [] else Digits(n / 16) + [HexDigit(n % 16)]
  }

  /** A number that is spelled in hex digits is read back. */
  lemma {:induction false} DigitsReadBack(n: nat)
    ensures HexValue(Digits(n)) == n
  {
    if n == 0 {
    } else {
      DigitsReadBack(n / 16);
      assert Digits(n)[..|Digits(n)| - 1] == Digits(n / 16);
    }
  }

  /** The digits, of either case; anything else counts as 0. */
  lemma DigitValues(c: byte)
    ensures forall i | 0 <= i < 10 :: c == "0123456789"[i] as int ==> Hex2Num(c) == i
    ensures forall i | 0 <= i < 6 :: c == "abcdef"[i] as int || c == "ABCDEF"[i] as int ==> Hex2Num(c) == 10 + i
    ensures Hex2Num(c) != 0 ==> '1' <= c as char <= '9' || 'a' <= c as char <= 'f' || 'A' <= c as char <= 'F'
  {
  }

  lemma {:induction false} Pow2Adds(a: nat, b: nat)
    ensures Pow2(a + b) == Pow2(a) * Pow2(b)
    decreases b
  {
    if b == 0 {
    } else {
      Pow2Adds(a, b - 1);
      assert Pow2(a + b) == 2 * (Pow2(a) * Pow2(b - 1)) == Pow2(a) * Pow2(b);
    }
  }

  /** The digits are put into place from the most significant one on. For up to 15
      digits, which is all that parse_recipe passes, a long long does not overflow. */
  method HexToLL(str: seq<byte>) returns (result: nat)
    ensures result == HexValue(str)
  {
    result := 0;
    var len := |str|;
    for i := 0 to len
      invariant Placed(HexValue(str[..i]), 4 * (len - i), result)
    {
      var shift := 4 * ((len - 1) - i);
      HexValueGrows(str, i);
      PutDigit(HexValue(str[..i]), shift, Hex2Num(str[i]), result);
      result := Or(result, Hex2Num(str[i]) * Pow2(shift));
    }
    assert str[..len] == str;
  }

  predicate Placed(value: nat, k: nat, result: nat) {
    result == value * Pow2(k)
  }

  lemma HexValueGrows(str: seq<byte>, i: nat)
    requires i < |str|
    ensures HexValue(str[..i + 1]) == 16 * HexValue(str[..i]) + Hex2Num(str[i])
  {
    assert str[..i + 1][..i] == str[..i];
  }

  lemma PutDigit(high: nat, k: nat, d: nat, result: nat)
    requires d < 16 && Placed(high, k + 4, result)
    ensures Or(result, d * Pow2(k)) >= 0 && Placed(16 * high + d, k, Or(result, d * Pow2(k)))
  {
    PutDigitIn(high, k, d, result, d * Pow2(k));
  }

  lemma PutDigitIn(high: nat, k: nat, d: nat, result: nat, digit: nat)
    requires d < 16 && result == high * Pow2(k + 4) && digit == d * Pow2(k)
    ensures Or(result, digit) == (16 * high + d) * Pow2(k) >= 0
  {
    var p := Pow2(k);
    SixteenTimes(k);
    MultiplesApart(p, d, 16);
    Distribute(high, p, d);
    OrDisjoint(result, high, k + 4, digit);
  }

  lemma SixteenTimes(k: nat)
    ensures Pow2(k + 4) == Pow2(k) * 16
  {
    assert Pow2(4) == 16;
    Pow2Adds(k, 4);
  }

  lemma Distribute(high: nat, p: nat, d: nat)
    ensures high * (p * 16) + d * p == (16 * high + d) * p
  {
  }

  // ---- string_init ----

  /** The byte that a backslash followed by c stands for. */
  function Simple(c: byte): byte {
    match c
    case 97 => 7
    case 98 => 8
    case 102 => 12
    case 110 => 10
    case 114 => 13
    case 116 => 9
    case 118 => 11
    case _ => c
  }

  /** How many bytes the first item of a non-empty source takes ... */
  function ItemLength(s: seq<byte>): (n: nat)
    requires s != []
    ensures 1 <= n <= |s|
  {
    if s[0] != BACKSLASH then 1
    else if |s| >= 4 && s[1] == LETTER_X then 4
    else if |s| == 1 then 1
    else 2
  }

  /** ... and the byte it stands for. A backslash at the very end takes the terminating
      NUL with it. */
  function Item(s: seq<byte>): byte
    requires s != []
  {
    if s[0] != BACKSLASH then s[0]
    else if |s| >= 4 && s[1] == LETTER_X then 16 * Hex2Num(s[2]) + Hex2Num(s[3])
    else if |s| == 1 then 0
    else Simple(s[1])
  }

  function Decode(s: seq<byte>): (r: seq<byte>)
    ensures |r| <= |s|
  {
    if s == [] then [] else [Item(s)] + Decode(s[ItemLength(s)..])
  }

  /** The buffer of strlen(src) bytes always suffices. */
  method StringInit(src: seq<byte>) returns (s: array<byte>, l: nat)
    ensures fresh(s) && s.Length == |src| && l <= s.Length
    ensures s[..l] == Decode(src)
  {
    var slen := |src|;
    s := new byte[slen];
    l := 0;
    var i := 0;
    while i < slen
      invariant i <= slen && l <= i
      invariant s[..l] + Decode(src[i..]) == Decode(src)
    {
      var c, next := NextItem(src, i);
      DecodeStep(s[..l], src, i, c, next);
      s[l] := c;
      assert s[..l + 1] == s[..l] + [c];
      i, l := next, l + 1;
    }
  }

  /** One turn of the loop of string_init: the byte to store, and where to go on. */
  method NextItem(src: seq<byte>, from: nat) returns (c: byte, i: nat)
    requires from < |src|
    ensures c == Item(src[from..]) && i == from + ItemLength(src[from..])
  {
    var slen := |src|;
    i := from;
    if src[i] == BACKSLASH {
      if i + 3 < slen && src[i + 1] == LETTER_X {
        c := 16 * Hex2Num(src[i + 2]) + Hex2Num(src[i + 3]);
        i := i + 3;
      } else {
        i := i + 1;
        c := if i < slen then Simple(src[i]) else 0;
      }
    } else {
      c := src[i];
    }
    i := if i < slen then i + 1 else slen;
  }

  lemma DecodeStep(done: seq<byte>, src: seq<byte>, i: nat, c: byte, next: nat)
    requires i < |src| && c == Item(src[i..]) && next == i + ItemLength(src[i..])
    ensures done + [c] + Decode(src[next..]) == done + Decode(src[i..])
  {
    assert src[i..][ItemLength(src[i..])..] == src[next..];
    assert Decode(src[i..]) == [c] + Decode(src[next..]);
    assert done + [c] + Decode(src[next..]) == done + ([c] + Decode(src[next..]));
  }

  /** No item of a is unfinished at the end of a. */
  predicate Complete(a: seq<byte>)
    decreases |a|
  {
    a == []
    || (a[0] != BACKSLASH && Complete(a[1..]))
    || (a[0] == BACKSLASH && |a| >= 2 && a[1] != LETTER_X && Complete(a[2..]))
    || (a[0] == BACKSLASH && |a| >= 4 && a[1] == LETTER_X && Complete(a[4..]))
  }

  ghost predicate DecodesPiecewise(a: seq<byte>, b: seq<byte>) {
    Decode(a + b) == Decode(a) + Decode(b)
  }

  /** A source may be cut after a exactly when a ends outside an escape. */
  lemma SplitExactlyWhenComplete(a: seq<byte>)
    ensures Complete(a) <==> forall b: seq<byte> :: DecodesPiecewise(a, b)
  {
    if Complete(a) {
      forall b: seq<byte> ensures DecodesPiecewise(a, b) {
        CompleteSplits(a, b);
      }
    } else {
      var b := IncompleteWitness(a);
      assert !DecodesPiecewise(a, b);
    }
  }

  lemma {:induction false} CompleteSplits(a: seq<byte>, b: seq<byte>)
    requires Complete(a)
    ensures DecodesPiecewise(a, b)
    decreases |a|
  {
    if a == [] {
      assert a + b == b;
    } else {
      CompleteSplits(a[ItemLength(a)..], b);
      ItemFirst(a, b, ItemLength(a));
    }
  }

  lemma {:induction false} IncompleteWitness(a: seq<byte>) returns (b: seq<byte>)
    requires !Complete(a)
    ensures !DecodesPiecewise(a, b)
    decreases |a|
  {
    if a == [BACKSLASH] {
      b := [48];
      assert Decode(a + b) == [Item(a + b)] + Decode((a + b)[2..]) == [48];
      assert Decode(a)[0] == 0;
    } else if a[0] == BACKSLASH && |a| < 4 && a[1] == LETTER_X {
      b := [48, 48, 48];
      DanglingHex(a, b);
    } else {
      var n := ItemLength(a);
      b := IncompleteWitness(a[n..]);
      ItemFirst(a, b, n);
    }
  }

  /** After \x or \xh the escape swallows what follows. */
  lemma DanglingHex(a: seq<byte>, b: seq<byte>)
    requires 2 <= |a| < 4 && a[0] == BACKSLASH && a[1] == LETTER_X && b == [48, 48, 48]
    ensures !DecodesPiecewise(a, b)
  {
    var whole := a + b;
    assert |Decode(whole)| == 1 + |Decode(whole[4..])| <= |a|;
    DecodePlain(b);
    assert |Decode(a)| == 1 + |Decode(a[2..])|;
  }

  lemma ItemFirst(a: seq<byte>, b: seq<byte>, n: nat)
    requires a != [] && n == ItemLength(a) == ItemLength(a + b) && Item(a) == Item(a + b)
    ensures DecodesPiecewise(a, b) <==> DecodesPiecewise(a[n..], b)
  {
    assert (a + b)[n..] == a[n..] + b;
    var rest := Decode(a[n..]);
    assert Decode(a + b) == [Item(a)] + Decode(a[n..] + b);
    assert Decode(a) + Decode(b) == [Item(a)] + (rest + Decode(b));
    if DecodesPiecewise(a, b) {
      assert Decode(a[n..] + b) == Decode(a + b)[1..] == rest + Decode(b);
    }
  }

  lemma {:induction false} DecodePlain(s: seq<byte>)
    requires forall i | 0 <= i < |s| :: s[i] != BACKSLASH
    ensures Decode(s) == s
  {
    if s == [] {
    } else {
      DecodePlain(s[1..]);
    }
  }

  /** A byte that is no backslash is decoded to itself, ... */
  lemma DecodePlainByte(c: byte, rest: seq<byte>)
    requires c != 92
    ensures Decode([c] + rest) == [c] + Decode(rest)
  {
    FirstItem([c] + rest, rest, 1);
  }

  /** ... a hex escape of two digits to its byte, ... */
  lemma DecodeHexEscape(h: byte, l: byte, rest: seq<byte>)
    ensures Decode([92, 120, h, l] + rest) == [16 * Hex2Num(h) + Hex2Num(l)] + Decode(rest)
  {
    FirstItem([92, 120, h, l] + rest, rest, 4);
  }

  /** ... any other escape to the byte that C has for it, or to what follows the backslash, ... */
  lemma DecodeEscape(c: byte, rest: seq<byte>)
    requires c == 'x' as int ==> |rest| < 2
    ensures c == 'a' as int ==> Decode([92, c] + rest) == [7] + Decode(rest)
    ensures c == 'b' as int ==> Decode([92, c] + rest) == [8] + Decode(rest)
    ensures c == 't' as int ==> Decode([92, c] + rest) == [9] + Decode(rest)
    ensures c == 'n' as int ==> Decode([92, c] + rest) == [10] + Decode(rest)
    ensures c == 'v' as int ==> Decode([92, c] + rest) == [11] + Decode(rest)
    ensures c == 'f' as int ==> Decode([92, c] + rest) == [12] + Decode(rest)
    ensures c == 'r' as int ==> Decode([92, c] + rest) == [13] + Decode(rest)
    ensures c as char !in "abtnvfr" ==> Decode([92, c] + rest) == [c] + Decode(rest)
  {
    FirstItem([92, c] + rest, rest, 2);
  }

  /** ... and a backslash at the very end to NUL. */
  lemma DecodeLastBackslash()
    ensures Decode([92]) == [0]
  {
    FirstItem([92], [], 1);
  }

  lemma FirstItem(s: seq<byte>, rest: seq<byte>, n: nat)
    requires s != [] && n == ItemLength(s) && s[n..] == rest
    ensures Decode(s) == [Item(s)] + Decode(rest)
  {
  }

  /** The \xHH spelling of a byte string. */
  function Spell(s: seq<byte>): seq<byte> {
    if s == [] then [] else [BACKSLASH, LETTER_X, HexDigit(s[0] / 16), HexDigit(s[0] % 16)] + Spell(s[1..])
  }

  lemma {:induction false} SpelledDecodesBack(s: seq<byte>)
    ensures Decode(Spell(s)) == s
  {
    if s == [] {
    } else {
      SpelledDecodesBack(s[1..]);
      assert Spell(s)[4..] == Spell(s[1..]);
    }
  }
}
