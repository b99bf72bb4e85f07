/** When a text of tools/textextract.c ends, said of the bytes themselves: scores of
    stretches, runs of one byte, lines, and the number of bytes. */
module TextLaws {
  import opened Bits
  import opened TextScore

  // ---- repeated bytes ----

  /** s has m bytes c from i on. */
  predicate RunAt(s: seq<byte>, i: int, m: int, c: byte) {
    0 <= i <= i + m <= |s| && forall k | i <= k < i + m :: s[k] == c
  }

  /** For a byte that may be repeated r times, the byte that makes r + 2 of them in a row ends
      the text, and no other; a NUL is thought to precede the first byte. A byte whose number
      of repeats is 0 may be repeated for ever, and one for which it is negative not at all. */
  lemma RepeatStopExactlyWhen(par: Params, b: seq<byte>, c: byte)
    requires par.Valid()
    ensures TooManyRepeats(par, b + [c]) <==>
      var m := if par.rep[c] > 0 then par.rep[c] + 2 else 2;
      par.rep[c] != 0 && RunAt([0] + b + [c], |b| + 2 - m, m, c)
  {
    var m := if par.rep[c] > 0 then par.rep[c] + 2 else 2;
    var padded := [0] + b + [c];
    assert [0] + (b + [c]) == padded;
    if RunAt(padded, |b| + 2 - m, m, c) {
      RunAtLeast(padded, m);
    }
  }

  // ---- lines ----

  /** s has m bytes from i on, none of which is CR or LF. */
  predicate UnbrokenAt(s: seq<byte>, i: int, m: int) {
    0 <= i <= i + m <= |s| && forall k | i <= k < i + m :: s[k] != 13 && s[k] != 10
  }

  lemma {:induction false} LineAtLeast(b: seq<byte>, m: nat)
    requires UnbrokenAt(b, |b| - m, m)
    ensures LineLength(b) >= m
  {
    if m == 0 {
    } else {
      LineAtLeast(b[..|b| - 1], m - 1);
    }
  }

  /** The byte that makes maxLine + 1 of them without a line break ends the text. */
  lemma LineStopExactlyWhen(par: Params, b: seq<byte>)
    ensures TooLong(par, b) <==> par.maxLine > 0 && UnbrokenAt(b, |b| - (par.maxLine + 1), par.maxLine + 1)
  {
    if par.maxLine > 0 && UnbrokenAt(b, |b| - (par.maxLine + 1), par.maxLine + 1) {
      LineAtLeast(b, par.maxLine + 1);
    }
  }

  // ---- scores ----

  function Total(points: seq<int>): int {
    if points == [] then 0 else points[0] + Total(points[1..])
  }

  /** What the bytes are worth, one by one. */
  function Points(score: seq<int>, b: seq<byte>): (points: seq<int>)
    requires |score| == 256
  {
    seq(|b|, k requires 0 <= k < |b| => score[b[k]])
  }

  lemma {:induction false} TotalAtEnd(points: seq<int>, last: int)
    ensures Total(points + [last]) == Total(points) + last
  {
    if points == [] {
      assert [last][1..] == [];
    } else {
      assert (points + [last])[1..] == points[1..] + [last];
      TotalAtEnd(points[1..], last);
    }
  }

  lemma {:induction false} SumIsTotal(par: Params, b: seq<byte>)
    requires par.Valid()
    ensures Sum(par, b) == Total(Points(par.score, b))
  {
    if b == [] {
    } else {
      var front, c := b[..|b| - 1], b[|b| - 1];
      SumIsTotal(par, front);
      TotalAtEnd(Points(par.score, front), par.score[c]);
      assert Points(par.score, b) == Points(par.score, front) + [par.score[c]];
    }
  }

  /** The stretch of t from i to j, with the block score if a block of 512 bytes begins right
      before it, is not worth more than the limit. */
  predicate StretchWithin(par: Params, o: Origin, t: seq<byte>, i: nat, j: nat)
    requires par.Valid() && i <= j <= |t|
  {
    var place := if o.dir.Forward? then o.offset + i else o.offset - i;
    var boundary := par.blockScore > 0 && o.offset >= 0 && place >= 0 && place % 512 == 0;
    (if boundary then par.blockScore else 0) + Total(Points(par.score, t[i..j])) <= par.maxScore
  }

  lemma StretchIsSuffix(par: Params, o: Origin, t: seq<byte>, i: nat, j: nat)
    requires par.Valid() && i <= j <= |t|
    ensures StretchWithin(par, o, t, i, j) <==> SuffixScore(par, o, t[..j], i) <= par.maxScore
  {
    assert t[..j][i..] == t[i..j];
    SumIsTotal(par, t[i..j]);
  }

  lemma ScoreStopExactlyWhen(par: Params, o: Origin, t: seq<byte>, j: nat)
    requires par.Valid() && j <= |t|
    ensures ScoreTooHigh(par, o, t[..j]) <==> par.maxScore < 0 || exists i | 0 <= i < j :: !StretchWithin(par, o, t, i, j)
  {
    forall i | 0 <= i < j
      ensures StretchWithin(par, o, t, i, j) <==> SuffixScore(par, o, t[..j], i) <= par.maxScore
    {
      StretchIsSuffix(par, o, t, i, j);
    }
  }

  // ---- the whole pass ----

  ghost predicate ScoresWithin(par: Params, o: Origin, t: seq<byte>, n: nat)
    requires par.Valid() && n <= |t|
  {
    forall i, j | 0 <= i < j <= n :: StretchWithin(par, o, t, i, j)
  }

  ghost predicate RunsWithin(rep: seq<int>, t: seq<byte>, n: nat)
    requires |rep| == 256 && n <= |t|
  {
    forall c: byte, i, m | rep[c] != 0 && m >= 2 && m >= rep[c] + 2 :: !RunAt([0] + t[..n], i, m, c)
  }

  ghost predicate LinesWithin(maxLine: int, t: seq<byte>, n: nat)
    requires n <= |t|
  {
    maxLine > 0 ==> forall i, m | m > maxLine :: !UnbrokenAt(t[..n], i, m)
  }

  lemma RunBefore(t: seq<byte>, n: nat, j: nat, i: int, m: int, c: byte)
    requires 0 <= j <= n <= |t| && i + m <= j + 1
    ensures RunAt([0] + t[..n], i, m, c) <==> RunAt([0] + t[..j], i, m, c)
  {
    assert forall k | 0 <= k <= j :: ([0] + t[..n])[k] == ([0] + t[..j])[k];
  }

  lemma UnbrokenBefore(t: seq<byte>, n: nat, j: nat, i: int, m: int)
    requires 0 <= j <= n <= |t| && i + m <= j
    ensures UnbrokenAt(t[..n], i, m) <==> UnbrokenAt(t[..j], i, m)
  {
    assert forall k | 0 <= k < j :: t[..n][k] == t[..j][k];
  }

  /** No byte has ended the text by its repeats exactly when no run is too long. */
  lemma RunsExactlyWhen(par: Params, t: seq<byte>, n: nat)
    requires par.Valid() && n <= |t|
    ensures (forall j {:trigger t[..j]} | 0 < j <= n :: !TooManyRepeats(par, t[..j])) <==> RunsWithin(par.rep, t, n)
  {
    forall j | 0 < j <= n
      ensures TooManyRepeats(par, t[..j]) ==> !RunsWithin(par.rep, t, n)
    {
      var c := t[j - 1];
      var m := if par.rep[c] > 0 then par.rep[c] + 2 else 2;
      StopsAt(par, t, j);
      RunBefore(t, n, j, j + 1 - m, m, c);
    }
    forall c: byte, i, longer | par.rep[c] != 0 && longer >= 2 && longer >= par.rep[c] + 2 && RunAt([0] + t[..n], i, longer, c)
      ensures exists j | 0 < j <= n :: TooManyRepeats(par, t[..j])
    {
      var m := if par.rep[c] > 0 then par.rep[c] + 2 else 2;
      assert RunAt([0] + t[..n], i, m, c);
      var j := i + m - 1;
      assert ([0] + t[..n])[j] == c == t[j - 1];
      StopsAt(par, t, j);
      RunBefore(t, n, j, i, m, c);
      assert TooManyRepeats(par, t[..j]);
    }
  }

  lemma StopsAt(par: Params, t: seq<byte>, j: nat)
    requires par.Valid() && 0 < j <= |t|
    ensures TooManyRepeats(par, t[..j]) <==>
      var c := t[j - 1];
      var m := if par.rep[c] > 0 then par.rep[c] + 2 else 2;
      par.rep[c] != 0 && RunAt([0] + t[..j], j + 1 - m, m, c)
  {
    RepeatStopExactlyWhen(par, t[..j - 1], t[j - 1]);
    assert t[..j - 1] + [t[j - 1]] == t[..j];
    assert [0] + t[..j - 1] + [t[j - 1]] == [0] + t[..j];
  }

  lemma LinesExactlyWhen(par: Params, t: seq<byte>, n: nat)
    requires n <= |t|
    ensures (forall j {:trigger t[..j]} | 0 < j <= n :: !TooLong(par, t[..j])) <==> LinesWithin(par.maxLine, t, n)
  {
    var m := par.maxLine + 1;
    forall j | 0 < j <= n
      ensures TooLong(par, t[..j]) ==> !LinesWithin(par.maxLine, t, n)
    {
      LineStopExactlyWhen(par, t[..j]);
      UnbrokenBefore(t, n, j, j - m, m);
    }
    if par.maxLine > 0 {
      forall i, longer | longer >= m && UnbrokenAt(t[..n], i, longer)
        ensures exists j | 0 < j <= n :: TooLong(par, t[..j])
      {
        assert UnbrokenAt(t[..n], i, m);
        LineStopExactlyWhen(par, t[..i + m]);
        UnbrokenBefore(t, n, i + m, i, m);
        assert TooLong(par, t[..i + m]);
      }
    }
  }

  lemma ScoresExactlyWhen(par: Params, o: Origin, t: seq<byte>, n: nat)
    requires par.Valid() && n <= |t|
    ensures (forall j {:trigger t[..j]} | 0 < j <= n :: !ScoreTooHigh(par, o, t[..j])) <==>
      (n > 0 ==> par.maxScore >= 0) && ScoresWithin(par, o, t, n)
  {
    forall j | 0 < j <= n
      ensures ScoreTooHigh(par, o, t[..j]) <==> par.maxScore < 0 || exists i | 0 <= i < j :: !StretchWithin(par, o, t, i, j)
    {
      ScoreStopExactlyWhen(par, o, t, j);
    }
    if n > 0 && par.maxScore < 0 {
      assert ScoreTooHigh(par, o, t[..n]);
    }
  }

  /** A text goes on exactly while none of the four limits has been exceeded anywhere. A
      negative limit on the score ends it at the first byte. */
  lemma GoesOnExactlyWhen(par: Params, o: Origin, t: seq<byte>, n: nat)
    requires par.Valid() && n <= |t|
    ensures GoesOn(par, o, t, n) <==>
      && (n > 0 ==> par.maxScore >= 0)
      && ScoresWithin(par, o, t, n) && RunsWithin(par.rep, t, n) && LinesWithin(par.maxLine, t, n)
      && (par.maxBytes > 0 ==> n <= par.maxBytes)
  {
    ScoresExactlyWhen(par, o, t, n);
    RunsExactlyWhen(par, t, n);
    LinesExactlyWhen(par, t, n);
    if GoesOn(par, o, t, n) {
      forall j | 0 < j <= n
        ensures !ScoreTooHigh(par, o, t[..j]) && !TooManyRepeats(par, t[..j]) && !TooLong(par, t[..j]) && !TooManyBytes(par, t[..j])
      {
        assert !MustStop(par, o, t[..j]);
      }
      assert n > 0 ==> !TooManyBytes(par, t[..n]);
    }
  }

  /** A pass stops at the first byte that ends the text, and otherwise nowhere. */
  lemma InspectedExactlyWhen(par: Params, o: Origin, t: seq<byte>, n: nat, stop: bool)
    requires par.Valid() && n <= |t|
    ensures Inspected(par, o, t, n, stop) <==>
      if stop then n > 0 && GoesOn(par, o, t, n - 1) && !GoesOn(par, o, t, n)
      else n == |t| && GoesOn(par, o, t, n)
  {
    if stop && n > 0 && GoesOn(par, o, t, n - 1) && !GoesOn(par, o, t, n) {
      var k :| 0 < k <= n && MustStop(par, o, t[..k]);
      assert k == n;
    }
  }
}
