/** When tools/textextract.c decides that the text has ended: the running counters of
    inspect_char, described by what they say about the bytes seen so far. */
module TextScore {
  import opened Bits

  /** The options and the two tables. A positive score is bad. */
  datatype Params = Params(maxScore: int, blockScore: int, maxLine: int, maxBytes: int, score: seq<int>, rep: seq<int>)
  {
    ghost predicate Valid() {
      |score| == 256 && |rep| == 256
    }
  }

  datatype Direction = Forward | Reverse

  /** Where a pass begins, -1 if unknown, and which way it goes. */
  datatype Origin = Origin(offset: int, dir: Direction)

  predicate IsLetter(par: Params, c: byte)
    requires par.Valid()
  {
    par.score[c] <= 0
  }

  /** The offset that is compared when the i-th byte of the pass is inspected: its place in
      the file or, backwards, the place after it. */
  function OffsetOf(o: Origin, i: nat): int {
    if o.dir == Forward then o.offset + i else o.offset - i
  }

  /** What crossing a block boundary right before byte i is worth. */
  function Bonus(par: Params, o: Origin, i: nat): int {
    if par.blockScore > 0 && o.offset >= 0 && OffsetOf(o, i) >= 0 && OffsetOf(o, i) % 512 == 0
    then par.blockScore else 0
  }

  function Sum(par: Params, b: seq<byte>): int
    requires par.Valid()
  {
    if b == [] then 0 else Sum(par, b[..|b| - 1]) + par.score[b[|b| - 1]]
  }

  /** The score of the suffix that begins at i. */
  function SuffixScore(par: Params, o: Origin, b: seq<byte>, i: nat): int
    requires par.Valid() && i <= |b|
  {
    Bonus(par, o, i) + Sum(par, b[i..])
  }

  /** s is the largest score of a non-empty suffix, or 0 if that is negative. */
  ghost predicate IsMaxScore(par: Params, o: Origin, b: seq<byte>, s: int)
    requires par.Valid()
  {
    && s >= 0
    && (forall i | 0 <= i < |b| :: SuffixScore(par, o, b, i) <= s)
    && (s == 0 || exists i | 0 <= i < |b| :: SuffixScore(par, o, b, i) == s)
  }

  ghost predicate ScoreTooHigh(par: Params, o: Origin, b: seq<byte>)
    requires par.Valid()
  {
    par.maxScore < 0 || exists i | 0 <= i < |b| :: SuffixScore(par, o, b, i) > par.maxScore
  }

  /** The length of the run of equal bytes at the end. */
  function RunLength(b: seq<byte>): (n: nat)
    ensures n <= |b| && (b != [] ==> n > 0)
    ensures forall k | |b| - n <= k < |b| :: b[k] == b[|b| - 1]
    ensures n < |b| ==> b[|b| - n - 1] != b[|b| - 1]
  {
    if |b| <= 1 then |b|
    else if b[|b| - 1] == b[|b| - 2] then 1 + RunLength(b[..|b| - 1])
    else 1
  }

  predicate TooManyRepeats(par: Params, b: seq<byte>)
    requires par.Valid() && b != []
  {
    var max := par.rep[b[|b| - 1]];
    var run := RunLength([0] + b); // the byte before the first counts as NUL
    max != 0 && run > 1 && run - 1 > max
  }

  predicate IsNewline(c: byte) {
    c == 13 || c == 10
  }

  /** The number of bytes since the last newline. */
  function LineLength(b: seq<byte>): (n: nat)
    ensures n <= |b| && forall k | |b| - n <= k < |b| :: !IsNewline(b[k])
    ensures n < |b| ==> IsNewline(b[|b| - n - 1])
  {
    if b == [] || IsNewline(b[|b| - 1]) then 0 else 1 + LineLength(b[..|b| - 1])
  }

  predicate TooLong(par: Params, b: seq<byte>) {
    par.maxLine > 0 && LineLength(b) > par.maxLine
  }

  predicate TooManyBytes(par: Params, b: seq<byte>) {
    par.maxBytes > 0 && |b| > par.maxBytes
  }

  predicate TooMuch(par: Params, b: seq<byte>)
    requires par.Valid() && b != []
  {
    TooManyRepeats(par, b) || TooLong(par, b) || TooManyBytes(par, b)
  }

  /** The text ends at the last byte of b. */
  ghost predicate MustStop(par: Params, o: Origin, b: seq<byte>)
    requires par.Valid() && b != []
  {
    ScoreTooHigh(par, o, b) || TooMuch(par, b)
  }

  /** The text has not ended within the first n bytes. */
  ghost predicate GoesOn(par: Params, o: Origin, t: seq<byte>, n: nat)
    requires par.Valid() && n <= |t|
  {
    forall k {:trigger MustStop(par, o, t[..k])} | 0 < k <= n :: !MustStop(par, o, t[..k])
  }

  /** A pass over t inspects n bytes: all of t, or up to the byte where the text ends. */
  ghost predicate Inspected(par: Params, o: Origin, t: seq<byte>, n: nat, stop: bool)
    requires par.Valid()
  {
    && n <= |t|
    && (if stop then n > 0 && GoesOn(par, o, t, n - 1) && MustStop(par, o, t[..n])
        else n == |t| && GoesOn(par, o, t, n))
  }

  /** It is determined by t. */
  lemma InspectedUnique(par: Params, o: Origin, t: seq<byte>, n: nat, stop: bool, n': nat, stop': bool)
    requires par.Valid() && Inspected(par, o, t, n, stop) && Inspected(par, o, t, n', stop')
    ensures n == n' && stop == stop'
  {
    if n > 0 {
      assert n <= n' ==> stop ==> n == n' && stop';
    }
    if n' > 0 {
      assert n' <= n ==> stop' ==> n == n' && stop;
    }
  }

  /** The index of the last letter among the first n bytes, -1 if there is none. */
  function LastLetter(par: Params, t: seq<byte>, n: nat): (l: int)
    requires par.Valid() && n <= |t|
    ensures -1 <= l < n && (l >= 0 ==> IsLetter(par, t[l]))
    ensures forall k | l < k < n :: !IsLetter(par, t[k])
  {
    if n == 0 then -1
    else if IsLetter(par, t[n - 1]) then n - 1
    else LastLetter(par, t, n - 1)
  }

  // ---- the running score is a maximum ----

  lemma SuffixScoreGrows(par: Params, o: Origin, b: seq<byte>, c: byte, i: nat)
    requires par.Valid() && i <= |b|
    ensures SuffixScore(par, o, b + [c], i) == SuffixScore(par, o, b, i) + par.score[c]
  {
    assert (b + [c])[i..] == b[i..] + [c];
    assert (b[i..] + [c])[..|b| - i] == b[i..];
  }

  lemma EmptySuffix(par: Params, o: Origin, b: seq<byte>)
    requires par.Valid()
    ensures SuffixScore(par, o, b, |b|) == Bonus(par, o, |b|)
  {
    assert b[|b|..] == [];
  }

  /** The clamped running score, step by step. */
  function NextScore(par: Params, o: Origin, n: nat, s: int, c: byte): int
    requires par.Valid()
  {
    var base := if Bonus(par, o, n) > s then Bonus(par, o, n) else s;
    if base + par.score[c] < 0 then 0 else base + par.score[c]
  }

  lemma NextScoreIsMax(par: Params, o: Origin, b: seq<byte>, s: int, c: byte)
    requires par.Valid() && IsMaxScore(par, o, b, s)
    ensures IsMaxScore(par, o, b + [c], NextScore(par, o, |b|, s, c))
  {
    var more, s' := b + [c], NextScore(par, o, |b|, s, c);
    EmptySuffix(par, o, b);
    forall i | 0 <= i < |more| ensures SuffixScore(par, o, more, i) <= s' {
      SuffixScoreGrows(par, o, b, c, i);
    }
    if s' != 0 {
      SuffixScoreGrows(par, o, b, c, |b|);
      if s > Bonus(par, o, |b|) {
        var i :| 0 <= i < |b| && SuffixScore(par, o, b, i) == s;
        SuffixScoreGrows(par, o, b, c, i);
        assert SuffixScore(par, o, more, i) == s';
      } else {
        assert SuffixScore(par, o, more, |b|) == s';
      }
    }
  }

  lemma MaxScoreStops(par: Params, o: Origin, b: seq<byte>, s: int)
    requires par.Valid() && IsMaxScore(par, o, b, s)
    ensures s > par.maxScore <==> ScoreTooHigh(par, o, b)
  {
    if s > par.maxScore && par.maxScore >= 0 {
      var i :| 0 <= i < |b| && SuffixScore(par, o, b, i) == s;
      assert SuffixScore(par, o, b, i) > par.maxScore;
    }
  }

  // ---- a stretch without letters ends the text ----

  lemma {:induction false} NonLettersAddUp(par: Params, b: seq<byte>)
    requires par.Valid() && forall k | 0 <= k < |b| :: !IsLetter(par, b[k])
    ensures Sum(par, b) >= |b|
  {
    if b == [] {
    } else {
      NonLettersAddUp(par, b[..|b| - 1]);
    }
  }

  /** While the text goes on, no more than maxScore bytes in a row are not letters. */
  lemma LetterWithin(par: Params, o: Origin, t: seq<byte>, n: nat, from: nat)
    requires par.Valid() && from < n <= |t| && GoesOn(par, o, t, n)
    requires forall k | from <= k < n :: !IsLetter(par, t[k])
    ensures n - from <= par.maxScore
  {
    var b := t[..n];
    NonLettersAddUp(par, b[from..]);
    assert !MustStop(par, o, b);
    assert SuffixScore(par, o, b, from) >= |b| - from;
  }

  // ---- bounds on what is inspected ----

  lemma RunAtLeast(b: seq<byte>, n: nat)
    requires 0 < n <= |b| && forall k | |b| - n <= k < |b| :: b[k] == b[|b| - 1]
    ensures RunLength(b) >= n
  {
  }

  /** No run of one byte is longer than its limit plus two. */
  lemma RunsAreShort(par: Params, o: Origin, t: seq<byte>, n: nat, stop: bool, i: nat, j: nat, c: byte)
    requires par.Valid() && Inspected(par, o, t, n, stop)
    requires i <= j <= n && (forall k | i <= k < j :: t[k] == c) && par.rep[c] > 0
    ensures j - i <= par.rep[c] + 2
  {
    if j - i > par.rep[c] + 2 {
      var before := t[..j - 1];
      assert !MustStop(par, o, before);
      assert before[|before| - 1] == c;
      RunAtLeast([0] + before, j - 1 - i);
    }
  }

  /** No stretch without a newline is longer than the limit plus one. */
  lemma LinesAreShort(par: Params, o: Origin, t: seq<byte>, n: nat, stop: bool, i: nat, j: nat)
    requires par.Valid() && Inspected(par, o, t, n, stop) && par.maxLine > 0
    requires i <= j <= n && forall k | i <= k < j :: !IsNewline(t[k])
    ensures j - i <= par.maxLine + 1
  {
    assert j > 1 ==> !MustStop(par, o, t[..j - 1]);
  }

  /** At most one byte more than the limit is looked at. */
  lemma BytesAreFew(par: Params, o: Origin, t: seq<byte>, n: nat, stop: bool)
    requires par.Valid() && Inspected(par, o, t, n, stop) && par.maxBytes > 0
    ensures n <= par.maxBytes + 1
  {
    assert n > 1 ==> !MustStop(par, o, t[..n - 1]);
  }
}
