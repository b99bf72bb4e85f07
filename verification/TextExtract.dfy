/** The text extractor (inspect_char, read_backward, read_forward and do_textextract of
    tools/textextract.c). */
module TextExtract {
  import opened Bits
  import opened TextScore
  import opened TextLaws
  import TextTables

  // ---- what a forward pass is to write ----

  /** The buffer begins with byte number `start` of the pass; when it was last flushed,
      `base` bytes had been inspected. */
  datatype FlushState = FlushState(start: nat, base: nat)

  /** The state of the buffer after n bytes: it is flushed up to the last letter whenever
      it is full. */
  function Flushed(par: Params, bufsize: nat, t: seq<byte>, n: nat): (f: FlushState)
    requires par.Valid() && n <= |t|
    ensures f.start <= f.base <= n
  {
    if n == 0 then FlushState(0, 0)
    else
      var f := Flushed(par, bufsize, t, n - 1);
      var l := LastLetter(par, t, n);
      if n - f.start == bufsize && l > f.start then FlushState(l, n) else f
  }

  /** The buffer is full after n bytes, and there is no letter that it could be flushed up
      to, or only one at its very start. */
  predicate Stuck(par: Params, bufsize: nat, t: seq<byte>, n: nat)
    requires par.Valid() && n <= |t|
  {
    n > 0 &&
    var start := Flushed(par, bufsize, t, n - 1).start;
    n - start == bufsize && LastLetter(par, t, n) <= start
  }

  ghost predicate NeverStuck(par: Params, bufsize: nat, t: seq<byte>, n: nat)
    requires par.Valid() && n <= |t|
  {
    forall m | 0 < m <= n :: !Stuck(par, bufsize, t, m)
  }

  /** How a pass over t ends: with all that it is to inspect inspected, or, if that fails,
      with the first full buffer that cannot be flushed. */
  ghost predicate Ends(par: Params, o: Origin, bufsize: nat, t: seq<byte>, n: nat, stop: bool, ok: bool)
    requires par.Valid()
  {
    if ok then
      Inspected(par, o, t, n, stop) && NeverStuck(par, bufsize, t, if stop then n - 1 else n)
    else
      !stop && 0 < n <= |t| && GoesOn(par, o, t, n) && Stuck(par, bufsize, t, n) && NeverStuck(par, bufsize, t, n - 1)
  }

  /** The bytes alone decide how, and where. */
  lemma EndsUnique(par: Params, o: Origin, bufsize: nat, t: seq<byte>, n: nat, stop: bool, ok: bool, n': nat, stop': bool, ok': bool)
    requires par.Valid() && Ends(par, o, bufsize, t, n, stop, ok) && Ends(par, o, bufsize, t, n', stop', ok')
    ensures n == n' && stop == stop' && ok == ok'
  {
    if ok && ok' {
      InspectedUnique(par, o, t, n, stop, n', stop');
    } else if ok {
      StuckIsNoEnd(par, o, bufsize, t, n, stop, n');
    } else if ok' {
      StuckIsNoEnd(par, o, bufsize, t, n', stop', n);
    }
  }

  lemma StuckIsNoEnd(par: Params, o: Origin, bufsize: nat, t: seq<byte>, n: nat, stop: bool, m: nat)
    requires par.Valid() && Ends(par, o, bufsize, t, n, stop, true)
    ensures !Ends(par, o, bufsize, t, m, false, false)
  {
    if stop && m >= n && m <= |t| {
      assert MustStop(par, o, t[..n]);
    }
  }

  /** It can only fail if the buffer is no longer than the score allows a stretch without
      letters to be. */
  lemma FailsOnlyIfShort(par: Params, o: Origin, bufsize: nat, t: seq<byte>, n: nat, stop: bool)
    requires par.Valid() && Ends(par, o, bufsize, t, n, stop, false)
    ensures par.maxScore >= bufsize - 1
  {
    if par.maxScore < bufsize - 1 {
      FullBufferHasLetter(par, o, bufsize, t, n);
    }
  }

  /** What a pass writes, whether it fails or not. */
  function Written(par: Params, bufsize: nat, t: seq<byte>, n: nat, stop: bool, ok: bool): (w: seq<byte>)
    requires par.Valid() && n <= |t| && (stop || !ok ==> n > 0)
    ensures |w| <= n && w == t[..|w|]
  {
    if ok then Emitted(par, bufsize, t, n, stop) else t[..Flushed(par, bufsize, t, n - 1).start]
  }

  /** What a pass that inspects n bytes of t writes: everything up to the last letter, if
      that came after the last flush; otherwise the letter that the flush kept back is
      lost. */
  function Emitted(par: Params, bufsize: nat, t: seq<byte>, n: nat, stop: bool): seq<byte>
    requires par.Valid() && n <= |t| && (stop ==> n > 0)
  {
    var f := Flushed(par, bufsize, t, if stop then n - 1 else n);
    var l := LastLetter(par, t, n);
    if l >= f.base then t[..l + 1] else t[..f.start]
  }

  /** What the comment on inspect_char promises: the end is after the last letter. */
  function Promised(par: Params, t: seq<byte>, n: nat): seq<byte>
    requires par.Valid() && n <= |t|
  {
    t[..LastLetter(par, t, n) + 1]
  }

  /** That is: everything up to the last byte that has no positive score. */
  lemma PromisedExactlyWhen(par: Params, t: seq<byte>, n: nat, m: nat)
    requires par.Valid() && n <= |t| && m <= n
    ensures Promised(par, t, n) == t[..m] <==>
      (m > 0 ==> par.score[t[m - 1]] <= 0) && forall k | m <= k < n :: par.score[t[k]] > 0
  {
    var l := LastLetter(par, t, n);
    assert |t[..m]| == m && |t[..l + 1]| == l + 1;
    assert forall k | l < k < n :: !IsLetter(par, t[k]);
  }

  /** The byte at the start of a flushed buffer is a letter, and the others that were
      kept are not. */
  lemma {:induction false} FlushedKeepsLetter(par: Params, bufsize: nat, t: seq<byte>, n: nat)
    requires par.Valid() && n <= |t|
    ensures var f := Flushed(par, bufsize, t, n);
      && (f.base > 0 ==> 0 < f.start < f.base && IsLetter(par, t[f.start]))
      && (f.base == 0 ==> f.start == 0)
      && forall k | f.start < k < f.base :: !IsLetter(par, t[k])
  {
    if n == 0 {
    } else {
      FlushedKeepsLetter(par, bufsize, t, n - 1);
    }
  }

  /** The extractor keeps its promise exactly when nothing was flushed or some letter came
      after the last flush; otherwise it falls one byte short. */
  lemma PromiseKeptExactlyWhen(par: Params, bufsize: nat, t: seq<byte>, n: nat, stop: bool)
    requires par.Valid() && n <= |t| && (stop ==> n > 0)
    ensures var f := Flushed(par, bufsize, t, if stop then n - 1 else n);
      var kept := f.base == 0 || exists k | f.base <= k < n :: IsLetter(par, t[k]);
      && (Emitted(par, bufsize, t, n, stop) == Promised(par, t, n) <==> kept)
      && (!kept ==> Emitted(par, bufsize, t, n, stop) + [t[f.start]] == Promised(par, t, n))
  {
    var f := Flushed(par, bufsize, t, if stop then n - 1 else n);
    var l := LastLetter(par, t, n);
    FlushedKeepsLetter(par, bufsize, t, if stop then n - 1 else n);
    if f.base > 0 && l < f.base {
      assert l == f.start;
      assert |Emitted(par, bufsize, t, n, stop)| == l && |Promised(par, t, n)| == l + 1;
    }
  }

  /** A full buffer can always be flushed, and the flush makes room, as long as the buffer
      is longer than the score allows a stretch without letters to be. */
  lemma FullBufferHasLetter(par: Params, o: Origin, bufsize: nat, t: seq<byte>, n: nat)
    requires par.Valid() && 0 < n <= |t| && GoesOn(par, o, t, n) && par.maxScore < bufsize - 1
    requires n - Flushed(par, bufsize, t, n - 1).start == bufsize
    ensures LastLetter(par, t, n) > Flushed(par, bufsize, t, n - 1).start
  {
    var f := Flushed(par, bufsize, t, n - 1);
    assert !MustStop(par, o, t[..n]);
    if LastLetter(par, t, n) <= f.start {
      LetterWithin(par, o, t, n, f.start + 1);
    }
  }

  /** The output never exceeds max_bytes, unless the byte after the last allowed one is a
      letter: that one is written too. */
  lemma ByteLimitExactlyWhen(par: Params, o: Origin, bufsize: nat, t: seq<byte>, n: nat, stop: bool)
    requires par.Valid() && Inspected(par, o, t, n, stop) && par.maxBytes > 0
    ensures |Emitted(par, bufsize, t, n, stop)| > par.maxBytes
       <==> n == par.maxBytes + 1 && IsLetter(par, t[par.maxBytes])
    ensures |Emitted(par, bufsize, t, n, stop)| <= par.maxBytes + 1
  {
    BytesAreFew(par, o, t, n, stop);
    assert !stop && n > 0 ==> !MustStop(par, o, t[..n]);
  }

  /** A byte whose score alone is too high, as that of NUL is by default, is never
      written. */
  lemma UnspeakableIsNotWritten(par: Params, o: Origin, bufsize: nat, t: seq<byte>, n: nat, stop: bool, c: byte)
    requires par.Valid() && Inspected(par, o, t, n, stop) && 0 <= par.maxScore < par.score[c]
    ensures c !in Emitted(par, bufsize, t, n, stop)
  {
    forall k | 0 <= k < n && t[k] == c ensures stop && k == n - 1 {
      var b := t[..k + 1];
      assert b[k..] == [c] && [c][..0] == [];
      assert Sum(par, [c]) == par.score[c];
      assert SuffixScore(par, o, b, k) > par.maxScore;
      assert MustStop(par, o, t[..k + 1]);
    }
  }

  function Reversed(s: seq<byte>): (r: seq<byte>)
    ensures |r| == |s|
  {
    seq(|s|, i requires 0 <= i < |s| => s[|s| - 1 - i])
  }

  /** last_letter as an index into a buffer that begins with byte number `start`; -1 is
      NULL. Letters before byte number `base` were forgotten. */
  predicate PointsAtLetter(par: Params, t: seq<byte>, n: nat, start: nat, base: nat, lastLetter: int)
    requires par.Valid() && n <= |t|
  {
    lastLetter == if LastLetter(par, t, n) >= base then LastLetter(par, t, n) - start else -1
  }

  /** struct scores, with the options it is judged by. */
  class Scores {
    const par: Params
    var direction: Direction
    var lastLetter: int
    var repeatedChar: byte
    var sumScore: int
    var sumRepeats: int
    var curLine: int
    var offset: int
    var bytesProcessed: int
    // the bytes that the counters are about, and where they begin
    ghost var seen: seq<byte>
    ghost var origin: Origin

    /** scores_init */
    constructor (par: Params, offset: int, direction: Direction)
      requires par.Valid()
      ensures this.par == par && Agrees() && seen == [] && origin == Origin(offset, direction) && lastLetter == -1
    {
      this.par, this.offset, this.direction := par, offset, direction;
      lastLetter, repeatedChar, sumScore, sumRepeats, curLine, bytesProcessed := -1, 0, 0, 0, 0, 0;
      seen, origin := [], Origin(offset, direction);
    }

    ghost predicate OffsetAgrees(n: nat)
      reads this
    {
      && origin.dir == direction
      && offset == OffsetAfter(par, origin, n)
    }

    ghost predicate RepeatsAgree(b: seq<byte>)
      requires par.Valid()
      reads this
    {
      var padded := [0] + b;
      && repeatedChar == padded[|b|]
      && sumRepeats == if par.rep[repeatedChar] == 0 then 0 else RunLength(padded) - 1
    }

    ghost predicate LinesAgree(b: seq<byte>)
      reads this
    {
      && (par.maxLine > 0 ==> curLine == LineLength(b))
      && (par.maxBytes > 0 ==> bytesProcessed == |b|)
    }

    ghost predicate LimitsAgree(b: seq<byte>)
      requires par.Valid()
      reads this
    {
      RepeatsAgree(b) && LinesAgree(b)
    }

    /** The counters say of the bytes seen what they are meant to say. */
    ghost predicate Agrees()
      reads this
    {
      par.Valid() && IsMaxScore(par, origin, seen, sumScore) && OffsetAgrees(|seen|) && LimitsAgree(seen)
    }

    /** Block offset score. */
    method HandleBlock()
      requires OffsetAgrees(|seen|) && sumScore >= 0
      modifies this`sumScore, this`offset
      ensures OffsetAgrees(|seen| + 1)
      ensures sumScore == if Bonus(par, origin, |seen|) > old(sumScore) then Bonus(par, origin, |seen|) else old(sumScore)
    {
      if offset >= 0 && par.blockScore > 0 {
        AndMask(offset, 9);
        Pow2Of9();
        if And(offset, 511) == 0 && sumScore < par.blockScore {
          sumScore := par.blockScore;
        }
        offset := offset + (if direction == Forward then 1 else -1);
      }
    }

    /** Block boundary and character score. */
    method HandleScore(c: byte, p: nat) returns (stop: bool)
      requires par.Valid() && IsMaxScore(par, origin, seen, sumScore) && OffsetAgrees(|seen|)
      modifies this`sumScore, this`offset, this`lastLetter
      ensures IsMaxScore(par, origin, seen + [c], sumScore) && OffsetAgrees(|seen| + 1)
      ensures stop == ScoreTooHigh(par, origin, seen + [c])
      ensures lastLetter == if IsLetter(par, c) then p else old(lastLetter)
    {
      NextScoreIsMax(par, origin, seen, sumScore, c);
      HandleBlock();
      sumScore := sumScore + par.score[c];
      if sumScore < 0 {
        sumScore := 0;
      }
      if par.score[c] <= 0 {
        lastLetter := p;
      }
      MaxScoreStops(par, origin, seen + [c], sumScore);
      stop := sumScore > par.maxScore;
    }

    method HandleRepeat(c: byte) returns (stop: bool)
      requires par.Valid() && RepeatsAgree(seen)
      modifies this`sumRepeats, this`repeatedChar
      ensures stop == TooManyRepeats(par, seen + [c])
      ensures stop <==>
        var m := if par.rep[c] > 0 then par.rep[c] + 2 else 2;
        par.rep[c] != 0 && RunAt([0] + seen + [c], |seen| + 2 - m, m, c)
      ensures !stop ==> RepeatsAgree(seen + [c])
    {
      RepeatStopExactlyWhen(par, seen, c);
      assert ([0] + (seen + [c]))[..|seen| + 1] == [0] + seen;
      var maxRepeats := par.rep[c];
      if repeatedChar == c && maxRepeats != 0 {
        sumRepeats := sumRepeats + 1;
        if sumRepeats > maxRepeats {
          return true;
        }
      } else {
        sumRepeats := 0;
      }
      repeatedChar := c;
      return false;
    }

    /** Line length and number of bytes. */
    method HandleLine(c: byte) returns (stop: bool)
      requires par.Valid() && LinesAgree(seen)
      modifies this`curLine, this`bytesProcessed
      ensures stop == (TooLong(par, seen + [c]) || TooManyBytes(par, seen + [c]))
      ensures !stop ==> LinesAgree(seen + [c])
    {
      assert (seen + [c])[..|seen|] == seen;
      if par.maxLine > 0 {
        if c == 13 || c == 10 {
          curLine := 0;
        } else {
          curLine := curLine + 1;
          if curLine > par.maxLine {
            return true;
          }
        }
      }
      if par.maxBytes > 0 {
        bytesProcessed := bytesProcessed + 1;
        if bytesProcessed > par.maxBytes {
          return true;
        }
      }
      return false;
    }

    method HandleLimits(c: byte) returns (stop: bool)
      requires par.Valid() && LimitsAgree(seen)
      modifies this`sumRepeats, this`repeatedChar, this`curLine, this`bytesProcessed
      ensures stop == TooMuch(par, seen + [c])
      ensures !stop ==> LimitsAgree(seen + [c])
    {
      stop := HandleRepeat(c);
      if !stop {
        stop := HandleLine(c);
      }
    }

    /** Inspects the byte c at index p of the buffer; true if the text ends here. */
    method InspectChar(c: byte, p: nat) returns (stop: bool)
      requires Agrees()
      modifies this
      ensures seen == old(seen) + [c] && origin == old(origin) && OffsetAgrees(|seen|)
      ensures stop == MustStop(par, origin, seen)
      ensures !stop ==> Agrees()
      ensures lastLetter == if IsLetter(par, c) then p else old(lastLetter)
    {
      stop := HandleScore(c, p);
      if !stop {
        stop := HandleLimits(c);
      }
      seen := seen + [c];
    }
  }

  /** The counters are those of the first n bytes of t, and the text goes on. */
  ghost predicate Follows(s: Scores, o: Origin, t: seq<byte>, n: nat, start: nat, base: nat)
    reads s
  {
    && s.Agrees() && s.origin == o && n <= |t| && s.seen == t[..n] && GoesOn(s.par, o, t, n)
    && PointsAtLetter(s.par, t, n, start, base, s.lastLetter)
  }

  /** The text ends at byte number n - 1. */
  ghost predicate Ended(s: Scores, o: Origin, t: seq<byte>, n: nat, start: nat, base: nat)
    reads s
  {
    && s.par.Valid() && s.origin == o && s.OffsetAgrees(n) && n <= |t| && s.seen == t[..n]
    && Inspected(s.par, o, t, n, true)
    && PointsAtLetter(s.par, t, n, start, base, s.lastLetter)
  }

  ghost predicate After(s: Scores, o: Origin, t: seq<byte>, n: nat, stop: bool, start: nat, base: nat)
    reads s
  {
    if stop then Ended(s, o, t, n, start, base) else Follows(s, o, t, n, start, base)
  }

  /** The state of the buffer is f, and it could always be flushed. */
  ghost predicate FlushedTo(par: Params, bufsize: nat, t: seq<byte>, n: nat, f: FlushState)
    requires par.Valid() && n <= |t|
  {
    f == Flushed(par, bufsize, t, n) && NeverStuck(par, bufsize, t, n)
  }

  lemma {:induction false} FlushedIdle(par: Params, bufsize: nat, t: seq<byte>, n: nat, k: nat, f: FlushState)
    requires par.Valid() && n <= k <= |t| && k - f.start < bufsize && FlushedTo(par, bufsize, t, n, f)
    ensures FlushedTo(par, bufsize, t, k, f)
    decreases k
  {
    if k <= n {
    } else {
      FlushedIdle(par, bufsize, t, n, k - 1, f);
      assert !Stuck(par, bufsize, t, k);
    }
  }

  lemma CanFlush(par: Params, o: Origin, bufsize: nat, t: seq<byte>, n: nat, f: FlushState)
    requires par.Valid() && 0 < n <= |t| && GoesOn(par, o, t, n)
    requires FlushedTo(par, bufsize, t, n - 1, f) && n - f.start == bufsize
    ensures Stuck(par, bufsize, t, n) <==> LastLetter(par, t, n) <= f.start
    ensures Stuck(par, bufsize, t, n) ==> Ends(par, o, bufsize, t, n, false, false)
    ensures LastLetter(par, t, n) > f.start ==>
      LastLetter(par, t, n) >= f.base && FlushedTo(par, bufsize, t, n, FlushState(LastLetter(par, t, n), n))
  {
    FlushedKeepsLetter(par, bufsize, t, n - 1);
  }

  function UpTo(lastLetter: int): nat {
    if lastLetter >= 0 then lastLetter + 1 else 0
  }

  /** At the end of a pass, what is left to write is in the buffer up to last_letter. */
  lemma RestIsEmitted(par: Params, bufsize: nat, t: seq<byte>, n: nat, stop: bool, f: FlushState, lastLetter: int)
    requires par.Valid() && n <= |t| && (stop ==> n > 0) && f == Flushed(par, bufsize, t, if stop then n - 1 else n)
    requires PointsAtLetter(par, t, n, f.start, f.base, lastLetter)
    ensures lastLetter < n - f.start
    ensures Emitted(par, bufsize, t, n, stop) == t[..f.start] + t[f.start..f.start + UpTo(lastLetter)]
  {
    FlushedKeepsLetter(par, bufsize, t, if stop then n - 1 else n);
  }

  /** A pass over t has come to its end after n bytes, and what is left to write is what
      follows byte number f.start up to the last letter. */
  ghost predicate ToWrite(par: Params, o: Origin, bufsize: nat, t: seq<byte>, n: nat, stop: bool, f: FlushState, lastLetter: int)
    requires par.Valid()
  {
    && Ends(par, o, bufsize, t, n, stop, true) && f.start <= n && lastLetter < n - f.start
    && Emitted(par, bufsize, t, n, stop) == t[..f.start] + t[f.start..f.start + UpTo(lastLetter)]
  }

  lemma EndsHere(s: Scores, o: Origin, t: seq<byte>, n: nat, stop: bool, f: FlushState, bufsize: nat)
    requires n <= |t| && s.par.Valid() && After(s, o, t, n, stop, f.start, f.base)
    requires f.start <= n && (if stop then n > 0 else n == |t|)
    requires FlushedTo(s.par, bufsize, t, if stop then n - 1 else n, f)
    ensures ToWrite(s.par, o, bufsize, t, n, stop, f, s.lastLetter)
  {
    RestIsEmitted(s.par, bufsize, t, n, stop, f, s.lastLetter);
  }

  // ---- the backward pass ----

  /** How far back the text reaches into bytes that were inspected from their end: as far
      as the last letter before its end, or all the way. */
  function Back(par: Params, bytes: seq<byte>, n: nat, stop: bool): (k: nat)
    requires par.Valid() && n <= |bytes|
    ensures k <= |bytes|
  {
    if stop then LastLetter(par, Reversed(bytes), n) + 1 else |bytes|
  }

  /** After a stop the text begins at the first byte of the inspected ones, in the order of
      the file, that has no positive score; if none has, nothing before the start belongs to
      it. Without a stop all the bytes do. */
  lemma BackExactlyWhen(par: Params, bytes: seq<byte>, n: nat, stop: bool, k: nat)
    requires par.Valid() && n <= |bytes| && k <= |bytes|
    ensures Back(par, bytes, n, stop) == k <==>
      if stop then
        && k <= n && (k > 0 ==> par.score[bytes[|bytes| - k]] <= 0)
        && forall i | |bytes| - n <= i < |bytes| - k :: par.score[bytes[i]] > 0
      else k == |bytes|
  {
    if stop {
      var t, b := Reversed(bytes), Back(par, bytes, n, stop);
      forall i | |bytes| - n <= i < |bytes| - b ensures par.score[bytes[i]] > 0 {
        assert !IsLetter(par, t[|bytes| - 1 - i]);
      }
      if b > 0 {
        assert IsLetter(par, t[b - 1]) && t[b - 1] == bytes[|bytes| - b];
      }
    }
  }

  /** In the backward pass t is what is in the buffer, in reverse. */
  ghost predicate PointsDown(par: Params, t: seq<byte>, n: nat, lastLetter: int)
    requires par.Valid() && n <= |t|
  {
    lastLetter == if LastLetter(par, t, n) >= 0 then |t| - 1 - LastLetter(par, t, n) else -1
  }

  ghost predicate FollowsDown(s: Scores, o: Origin, t: seq<byte>, n: nat)
    reads s
  {
    && s.Agrees() && s.origin == o && n <= |t| && s.seen == t[..n] && GoesOn(s.par, o, t, n)
    && PointsDown(s.par, t, n, s.lastLetter)
  }

  ghost predicate EndedDown(s: Scores, o: Origin, t: seq<byte>, n: nat)
    reads s
  {
    && s.par.Valid() && s.origin == o && s.OffsetAgrees(n) && Inspected(s.par, o, t, n, true)
    && PointsDown(s.par, t, n, s.lastLetter)
  }

  ghost predicate PassedDown(s: Scores, o: Origin, t: seq<byte>, n: nat, stop: bool)
    reads s
  {
    s.par.Valid() && s.origin == o && s.OffsetAgrees(n) && Inspected(s.par, o, t, n, stop)
  }

  lemma StartDown(s: Scores, o: Origin, t: seq<byte>)
    requires FollowsDown(s, o, [], 0)
    ensures FollowsDown(s, o, t, 0)
  {
  }

  datatype Result = Done | ReadFailed | BufferTooShort

  datatype Pass = Pass(origin: Origin, n: nat, stop: bool)

  /** The offset that scores_init is given again after n bytes. */
  function OffsetAfter(par: Params, o: Origin, n: nat): int {
    if par.blockScore <= 0 || o.offset < 0 then o.offset
    else if OffsetOf(o, n) >= -1 then OffsetOf(o, n) else -1
  }

  lemma StartForward(s: Scores, o: Origin, t: seq<byte>)
    requires s.Agrees() && s.seen == [] && s.origin == o && s.lastLetter == -1
    ensures Follows(s, o, t, 0, 0, 0)
  {
  }

  /** The text is the piece of the file that begins k bytes before position p. */
  ghost predicate IsPiece(input: seq<byte>, p: nat, k: nat, text: seq<byte>) {
    k <= p && k <= |text| && p - k + |text| <= |input| && text == input[p - k..p - k + |text|]
  }

  lemma OnePiece(input: seq<byte>, p: nat, first: seq<byte>, second: seq<byte>)
    requires |first| <= p <= |input| && |second| <= |input| - p
    requires first == input[p - |first|..p] && second == input[p..][..|second|]
    ensures IsPiece(input, p, |first|, first + second)
  {
    assert second == input[p..p + |second|];
  }

  class Extractor {
    const par: Params
    const maxReverse: int
    const input: seq<byte> // the file on standard input
    const reliable: bool   // seeking in it and reading back what is there always succeeds
    const buf: array<byte>
    var pos: nat           // and the position in it
    var out: seq<byte>     // what has been written
    var direction: Direction

    constructor (par: Params, maxReverse: int, bufsize: nat, input: seq<byte>, reliable: bool, pos: nat)
      requires par.Valid()
      ensures this.par == par && this.maxReverse == maxReverse && this.input == input && this.reliable == reliable
      ensures this.pos == pos && out == []
      ensures direction == if maxReverse > 0 then Reverse else Forward
      ensures fresh(buf) && buf.Length == if bufsize < maxReverse then maxReverse else bufsize
    {
      this.par, this.maxReverse, this.input, this.reliable, this.pos, out := par, maxReverse, input, reliable, pos, [];
      direction := if maxReverse > 0 then Reverse else Forward;
      buf := new byte[if bufsize < maxReverse then maxReverse else bufsize];
    }

    function Rest(p: nat): seq<byte> {
      if p <= |input| then input[p..] else []
    }

    ghost predicate Holds(t: seq<byte>, start: nat, n: nat)
      reads buf
    {
      n <= buf.Length && start + n <= |t| && forall p | 0 <= p < n :: buf[p] == t[start + p]
    }

    /** One turn of the inner loop of read_forward. */
    method InspectNext(s: Scores, p: nat, ghost end: nat, ghost o: Origin, ghost t: seq<byte>, ghost start: nat, ghost base: nat)
      returns (stop: bool)
      requires Holds(t, start, end) && p < end
      requires Follows(s, o, t, start + p, start, base) && start <= base <= start + p
      modifies s
      ensures After(s, o, t, start + p + 1, stop, start, base)
    {
      assert s.seen + [t[start + p]] == t[..start + p + 1];
      stop := s.InspectChar(buf[p], p);
    }

    /** The inner loop of read_forward, over the count bytes at buf[bufpos..]. The buffer
        holds t[start..]. */
    method InspectChunk(s: Scores, bufpos: nat, count: nat, ghost o: Origin, ghost t: seq<byte>, ghost start: nat, ghost base: nat)
      returns (stop: bool, ghost n: nat)
      requires Holds(t, start, bufpos + count)
      requires Follows(s, o, t, start + bufpos, start, base) && start <= base <= start + bufpos
      modifies s
      ensures (if stop then start + bufpos < n <= start + bufpos + count else n == start + bufpos + count)
      ensures After(s, o, t, n, stop, start, base)
    {
      stop := false;
      for p := bufpos to bufpos + count
        invariant !stop && After(s, o, t, start + p, stop, start, base)
      {
        stop := InspectNext(s, p, bufpos + count, o, t, start, base);
        if stop {
          n := start + p + 1;
          return;
        }
      }
      n := start + bufpos + count;
    }

    /** read(0, bufpos, bufsize - (bufpos - buf)): any number of bytes up to what there is
        room for, 0 only at the end of the input. A read that fails is taken for that by the
        loop; the input then is what came before. */
    method ReadIn(bufpos: nat, ghost t: seq<byte>, ghost start: nat) returns (count: nat)
      requires Holds(t, start, bufpos) && bufpos < buf.Length && Rest(pos) == t[start + bufpos..]
      modifies this`pos, buf
      ensures bufpos + count <= buf.Length && Holds(t, start, bufpos + count) && Rest(pos) == t[start + bufpos + count..]
      ensures count == 0 ==> start + bufpos == |t|
    {
      if pos >= |input| {
        return 0;
      }
      count :| 0 < count <= buf.Length - bufpos && count <= |input| - pos;
      assert forall i | 0 <= i < count :: input[pos..][i] == t[start + bufpos..][i];
      forall p | bufpos <= p < bufpos + count {
        buf[p] := input[pos + p - bufpos];
      }
      assert input[pos + count..] == Rest(pos)[count..] == t[start + bufpos + count..];
      pos := pos + count;
    }

    /** The bytes from f.start on are in the buffer, what came before was written behind
        out0, and the file is to be read from byte number f.start + bufpos on. */
    ghost predicate Stored(t: seq<byte>, f: FlushState, bufpos: nat, out0: seq<byte>)
      reads this, buf
    {
      && bufpos <= buf.Length && Holds(t, f.start, bufpos) && Rest(pos) == t[f.start + bufpos..]
      && out == out0 + t[..f.start]
    }

    /** Writes the first d bytes of the full buffer and memmoves the rest to its start. */
    method WriteAndMove(d: nat, ghost t: seq<byte>, ghost f: FlushState, ghost f': FlushState, ghost out0: seq<byte>)
      requires d <= buf.Length && Stored(t, f, buf.Length, out0) && f'.start == f.start + d
      modifies this`out, buf
      ensures Stored(t, f', buf.Length - d, out0)
    {
      assert buf[..d] == t[f.start..f'.start];
      assert t[..f.start] + t[f.start..f'.start] == t[..f'.start];
      out := out + buf[..d];
      forall p | 0 <= p < buf.Length - d {
        buf[p] := buf[p + d];
      }
    }

    /** Buffer full, flush; -1 if there is no letter to flush up to, or nothing before it. */
    method FlushBuffer(s: Scores, ghost o: Origin, ghost t: seq<byte>, ghost n: nat, ghost f: FlushState, ghost out0: seq<byte>)
      returns (rv: int, bufpos: nat, ghost f': FlushState)
      requires 0 < n == f.start + buf.Length && f.start <= f.base && Stored(t, f, buf.Length, out0)
      requires Follows(s, o, t, n, f.start, f.base) && FlushedTo(s.par, buf.Length, t, n - 1, f)
      modifies s`lastLetter, this`out, buf
      ensures rv == 0 ==> Follows(s, o, t, n, f'.start, f'.base) && FlushedTo(s.par, buf.Length, t, n, f')
      ensures rv == 0 ==> bufpos == n - f'.start < buf.Length && Stored(t, f', bufpos, out0)
      ensures rv in {0, -1} && (rv == -1 <==> LastLetter(s.par, t, n) <= f.start)
      ensures rv == -1 ==> f' == f && out == old(out) && Ends(s.par, o, buf.Length, t, n, false, false)
    {
      CanFlush(s.par, o, buf.Length, t, n, f);
      bufpos, f' := buf.Length, f;
      if s.lastLetter < 0 {
        return -1, bufpos, f';
      }
      if s.lastLetter == 0 { // write_all returns 0
        return -1, bufpos, f';
      }
      f' := FlushState(LastLetter(s.par, t, n), n);
      WriteAndMove(s.lastLetter, t, f, f', out0);
      bufpos := bufpos - s.lastLetter;
      s.lastLetter := -1;
      rv := 0;
    }

    /** Inspects the count bytes that were read. */
    method InspectNew(s: Scores, bufpos: nat, count: nat, ghost o: Origin, ghost t: seq<byte>, ghost n: nat, ghost f: FlushState)
      returns (stop: bool, ghost n': nat)
      requires Follows(s, o, t, n, f.start, f.base) && FlushedTo(s.par, buf.Length, t, n, f)
      requires bufpos == n - f.start && 0 < count && Holds(t, f.start, bufpos + count)
      modifies s
      ensures n < n' <= n + count && FlushedTo(s.par, buf.Length, t, n' - 1, f)
      ensures (stop || n' == n + count) && After(s, o, t, n', stop, f.start, f.base)
    {
      stop, n' := InspectChunk(s, bufpos, count, o, t, f.start, f.base);
      FlushedIdle(s.par, buf.Length, t, n, n' - 1, f);
    }

    /** Fills the buffer and inspects what is new. */
    method ReadChunk(s: Scores, bufpos: nat, ghost o: Origin, ghost t: seq<byte>, ghost n: nat, ghost f: FlushState, ghost out0: seq<byte>)
      returns (count: nat, stop: bool, ghost n': nat)
      requires Follows(s, o, t, n, f.start, f.base) && FlushedTo(s.par, buf.Length, t, n, f)
      requires bufpos == n - f.start < buf.Length && Stored(t, f, bufpos, out0)
      modifies s, this`pos, buf
      ensures n <= n' <= n + count && Stored(t, f, bufpos + count, out0)
      ensures if count == 0 then !stop && n' == |t| else n < n' && FlushedTo(s.par, buf.Length, t, n' - 1, f)
      ensures (stop || n' == n + count) && After(s, o, t, n', stop, f.start, f.base)
    {
      stop, n' := false, n;
      count := ReadIn(bufpos, t, f.start);
      if count > 0 {
        stop, n' := InspectNew(s, bufpos, count, o, t, n, f);
      }
    }

    /** Flushes the buffer if it is full. */
    method FlushIfFull(s: Scores, bufpos: nat, ghost o: Origin, ghost t: seq<byte>, ghost n: nat, ghost f: FlushState, ghost out0: seq<byte>)
      returns (rv: int, bufpos': nat, ghost f': FlushState)
      requires 0 < bufpos == n - f.start && Stored(t, f, bufpos, out0)
      requires Follows(s, o, t, n, f.start, f.base) && FlushedTo(s.par, buf.Length, t, n - 1, f)
      modifies s`lastLetter, this`out, buf
      ensures rv == 0 ==> Follows(s, o, t, n, f'.start, f'.base) && FlushedTo(s.par, buf.Length, t, n, f')
      ensures rv == 0 ==> bufpos' == n - f'.start < buf.Length && Stored(t, f', bufpos', out0)
      ensures rv in {0, -1}
      ensures rv == -1 ==> f' == f && out == old(out) && Ends(s.par, o, buf.Length, t, n, false, false)
    {
      rv, bufpos', f' := 0, bufpos, f;
      if bufpos == buf.Length {
        rv, bufpos', f' := FlushBuffer(s, o, t, n, f, out0);
      } else {
        FlushedIdle(s.par, buf.Length, t, n - 1, n, f);
      }
    }

    /** The state of read_forward when n bytes have been inspected. */
    ghost predicate Reading(s: Scores, o: Origin, t: seq<byte>, n: nat, f: FlushState, bufpos: nat, out0: seq<byte>)
      reads s, this, buf
    {
      && Follows(s, o, t, n, f.start, f.base) && FlushedTo(s.par, buf.Length, t, n, f)
      && bufpos == n - f.start < buf.Length && Stored(t, f, bufpos, out0)
    }

    /** Its outcome. */
    ghost predicate HasRead(s: Scores, o: Origin, t: seq<byte>, n: nat, stop: bool, f: FlushState, rv: int, out0: seq<byte>)
      reads s, this, buf
    {
      && s.par.Valid() && rv in {0, -1} && f.start <= n <= |t| && out == out0 + t[..f.start]
      && (rv == 0 ==> ToWrite(s.par, o, buf.Length, t, n, stop, f, s.lastLetter) && Holds(t, f.start, n - f.start))
      && (rv == -1 ==> Ends(s.par, o, buf.Length, t, n, stop, false) && f == Flushed(s.par, buf.Length, t, n - 1))
    }

    /** One turn of the loop of read_forward; its outcome, if that ends it. */
    method ReadTurn(s: Scores, bufpos: nat, ghost o: Origin, ghost t: seq<byte>, ghost n: nat, ghost f: FlushState, ghost out0: seq<byte>)
      returns (done: Option<int>, bufpos': nat, ghost n': nat, ghost stop: bool, ghost f': FlushState)
      requires Reading(s, o, t, n, f, bufpos, out0)
      modifies s, this`pos, this`out, buf
      ensures done.None? ==> n < n' <= |t| && Reading(s, o, t, n', f', bufpos', out0)
      ensures done.Some? ==> HasRead(s, o, t, n', stop, f', done.value, out0)
    {
      var count, stopped;
      count, stopped, n' := ReadChunk(s, bufpos, o, t, n, f, out0);
      bufpos' := bufpos + count;
      f', stop := f, stopped;
      if count == 0 || stopped {
        EndsHere(s, o, t, n', stopped, f, buf.Length);
        done := Some(0);
      } else {
        var rv;
        rv, bufpos', f' := FlushIfFull(s, bufpos', o, t, n', f, out0);
        done := if rv == 0 then None else Some(rv);
      }
    }

    /** Reads and inspects until the text or the file ends; n bytes of t were inspected and
        f is what is left in the buffer. */
    method ReadForward(s: Scores, ghost o: Origin, ghost t: seq<byte>) returns (rv: int, ghost n: nat, ghost stop: bool, ghost f: FlushState)
      requires buf.Length > 0 && t == Rest(pos) && Follows(s, o, t, 0, 0, 0)
      modifies s, this`pos, this`out, buf
      ensures HasRead(s, o, t, n, stop, f, rv, old(out))
    {
      ghost var out0 := out;
      var bufpos := 0;
      n, f := 0, FlushState(0, 0);
      while true
        invariant Reading(s, o, t, n, f, bufpos, out0)
        decreases |t| - n
      {
        var done;
        done, bufpos, n, stop, f := ReadTurn(s, bufpos, o, t, n, f, out0);
        if done.Some? {
          rv := done.value;
          return;
        }
      }
    }

    /** One turn of the loop of read_backward. */
    method InspectPrevious(s: Scores, p: nat, ghost o: Origin, ghost t: seq<byte>, ghost n: nat) returns (stop: bool)
      requires FollowsDown(s, o, t, n) && n < |t|
      requires p == |t| - 1 - n < buf.Length && buf[p] == t[n]
      modifies s
      ensures if stop then EndedDown(s, o, t, n + 1) else FollowsDown(s, o, t, n + 1)
    {
      assert s.seen + [t[n]] == t[..n + 1];
      stop := s.InspectChar(buf[p], p);
    }

    /** The loop of read_backward: inspects the first rc bytes of the buffer from the last
        one down. */
    method InspectDown(s: Scores, rc: nat, ghost o: Origin, ghost t: seq<byte>) returns (stop: bool, ghost n: nat)
      requires FollowsDown(s, o, t, 0)
      requires rc <= buf.Length && |t| == rc && forall k | 0 <= k < rc :: buf[k] == t[rc - 1 - k]
      modifies s
      ensures if stop then EndedDown(s, o, t, n) else n == rc && FollowsDown(s, o, t, n)
    {
      n := 0;
      var p := rc;
      while p > 0
        invariant 0 <= p <= rc && n == rc - p && FollowsDown(s, o, t, n)
      {
        p := p - 1;
        stop := InspectPrevious(s, p, o, t, n);
        n := n + 1;
        if stop {
          return;
        }
      }
      return false, n;
    }

    /** lseek and read: the rc bytes before the current position; may fail. */
    method LoadBefore(rc: nat) returns (ok: bool)
      requires rc <= buf.Length && rc <= pos
      modifies this`pos, buf
      ensures reliable && old(pos) <= |input| ==> ok
      ensures ok ==> pos == old(pos) <= |input| && forall k | 0 <= k < rc :: buf[k] == input[pos - rc..pos][k]
    {
      ok :| if pos > |input| then !ok else reliable ==> ok;
      if ok {
        forall k | 0 <= k < rc {
          buf[k] := input[pos - rc + k];
        }
      } else {
        pos := *;
      }
    }

    /** Writes the bytes from lo on. */
    method WriteSlice(lo: nat, hi: nat, ghost bytes: seq<byte>)
      requires lo <= hi == |bytes| <= buf.Length && forall k | 0 <= k < hi :: buf[k] == bytes[k]
      modifies this`out
      ensures out == old(out) + bytes[lo..]
    {
      assert buf[lo..hi] == bytes[lo..];
      out := out + buf[lo..hi];
    }

    /** Writes from the last letter on, if the text ended within the buffer and there is a
        letter; all of it if the text did not end. */
    method WriteBack(s: Scores, rc: nat, stopped: bool, ghost bytes: seq<byte>, ghost n: nat)
      requires rc == |bytes| <= buf.Length && forall k | 0 <= k < rc :: buf[k] == bytes[k]
      requires s.par.Valid() && n <= rc && PointsDown(s.par, Reversed(bytes), n, s.lastLetter)
      modifies this`out
      ensures out == old(out) + bytes[rc - Back(s.par, bytes, n, stopped)..]
    {
      if !stopped {
        WriteSlice(0, rc, bytes);
      } else if s.lastLetter >= 0 {
        WriteSlice(s.lastLetter, rc, bytes);
      } else {
        assert bytes[rc..] == [];
      }
    }

    /** Reads the rc bytes before the current position and inspects them from the end. */
    method InspectBefore(s: Scores, rc: nat, ghost o: Origin) returns (ok: bool, stop: bool, ghost n: nat)
      requires FollowsDown(s, o, [], 0) && rc <= buf.Length && rc <= pos
      modifies s, this`pos, buf
      ensures reliable && old(pos) <= |input| ==> ok
      ensures ok ==> pos == old(pos) <= |input| && forall k | 0 <= k < rc :: buf[k] == input[pos - rc..pos][k]
      ensures ok ==> var t := Reversed(input[pos - rc..pos]);
        PassedDown(s, o, t, n, stop) && PointsDown(s.par, t, n, s.lastLetter)
    {
      stop, n := false, 0;
      ok := LoadBefore(rc);
      if ok {
        ghost var t := Reversed(input[pos - rc..pos]);
        StartDown(s, o, t);
        stop, n := InspectDown(s, rc, o, t);
      }
    }

    /** What the backward pass looks at. */
    function Before(p: nat): seq<byte>
      requires p <= |input| && maxReverse > 0
    {
      input[p - Min(Min(buf.Length, p), maxReverse)..p]
    }

    /** Nothing is looked at if the position is the start of the file or unknown. */
    ghost predicate WentBack(par: Params, offset: int, p: nat, n: nat, stop: bool)
      requires par.Valid() && maxReverse > 0
    {
      if offset <= 0 then n == 0 else p <= |input| && Inspected(par, Origin(offset, Reverse), Reversed(Before(p)), n, stop)
    }

    function Behind(par: Params, offset: int, p: nat, n: nat, stop: bool): (b: seq<byte>)
      requires par.Valid() && maxReverse > 0
      requires offset > 0 ==> p <= |input| && n <= |Before(p)|
      ensures |b| <= p && |b| <= maxReverse && (p <= |input| ==> b == input[p - |b|..p])
    {
      if offset <= 0 then [] else Before(p)[|Before(p)| - Back(par, Before(p), n, stop)..]
    }

    /** Inspects the rc bytes before the current position and writes the end of them that
        belongs to the text. */
    method WriteBytesBefore(s: Scores, rc: nat, ghost o: Origin) returns (ok: bool, ghost n: nat, ghost stop: bool)
      requires FollowsDown(s, o, [], 0) && maxReverse > 0 && rc == Min(Min(buf.Length, pos), maxReverse)
      modifies s, this`pos, this`out, buf
      ensures reliable && old(pos) <= |input| ==> ok
      ensures !ok ==> out == old(out)
      ensures ok ==> pos == old(pos) <= |input| && PassedDown(s, o, Reversed(Before(pos)), n, stop)
      ensures ok ==> out == old(out) + Before(pos)[rc - Back(s.par, Before(pos), n, stop)..]
    {
      var stopped;
      ok, stopped, n := InspectBefore(s, rc, o);
      stop := stopped;
      if ok {
        WriteBack(s, rc, stopped, Before(pos), n);
      }
    }

    method ReadBytesBefore(s: Scores, rc: nat, ghost o: Origin) returns (ok: bool, ghost n: nat, ghost stop: bool)
      requires FollowsDown(s, o, [], 0) && maxReverse > 0 && rc == Min(Min(buf.Length, pos), maxReverse)
      requires o.dir == Reverse && o.offset > 0
      modifies s, this`pos, this`out, buf
      ensures reliable && old(pos) <= |input| ==> ok
      ensures if ok then WroteBack(s, o, old(pos), n, stop, old(out)) else out == old(out)
    {
      ok, n, stop := WriteBytesBefore(s, rc, o);
    }

    /** The outcome of the backward pass from position p. */
    ghost predicate WroteBack(s: Scores, o: Origin, p: nat, n: nat, stop: bool, out0: seq<byte>)
      requires maxReverse > 0
      reads s, this
    {
      && pos == p && s.par.Valid() && s.offset == OffsetAfter(s.par, o, n) && WentBack(s.par, o.offset, p, n, stop)
      && out == out0 + Behind(s.par, o.offset, p, n, stop)
    }

    /** Finds the beginning of the text before the current position, at most maxReverse
        bytes back, and writes what lies between. The position stays the same. */
    method ReadBackward(s: Scores, ghost o: Origin) returns (rv: int, ghost n: nat, ghost stop: bool)
      requires FollowsDown(s, o, [], 0) && o == Origin(s.offset, Reverse) && maxReverse > 0
      requires s.offset >= 0 ==> s.offset == pos
      modifies s, this`pos, this`out, buf
      ensures rv in {0, -1} && (reliable && old(pos) <= |input| ==> rv == 0)
      ensures if rv == 0 then WroteBack(s, o, old(pos), n, stop, old(out)) else out == old(out)
    {
      rv, n, stop := 0, 0, false;
      if s.offset > 0 {
        var readCount: nat := Min(Min(buf.Length, s.offset), maxReverse);
        var ok;
        ok, n, stop := ReadBytesBefore(s, readCount, o);
        rv := if ok then 0 else -1;
      } else {
        assert out == out + Behind(s.par, o.offset, pos, n, stop);
      }
    }

    /** Writes what is in the buffer up to the last letter. */
    method WriteRest(s: Scores, ghost t: seq<byte>, ghost start: nat, ghost n: nat, ghost out0: seq<byte>)
      requires Holds(t, start, n) && s.lastLetter < n && out == out0 + t[..start]
      modifies this`out
      ensures out == out0 + (t[..start] + t[start..start + UpTo(s.lastLetter)])
    {
      if s.lastLetter >= 0 {
        WriteSlice(0, s.lastLetter + 1, t[start..start + s.lastLetter + 1]);
      }
    }

    /** The forward pass. If the buffer is too short, what was flushed stays written. */
    method ReadAndWriteRest(s: Scores, ghost o: Origin, ghost t: seq<byte>) returns (ok: bool, ghost n: nat, ghost stop: bool)
      requires buf.Length > 0 && t == Rest(pos) && Follows(s, o, t, 0, 0, 0)
      modifies s, this`pos, this`out, buf
      ensures Ends(s.par, o, buf.Length, t, n, stop, ok)
      ensures out == old(out) + Written(s.par, buf.Length, t, n, stop, ok)
    {
      var rv;
      ghost var f;
      rv, n, stop, f := ReadForward(s, o, t);
      ok := rv == 0;
      if ok {
        WriteRest(s, t, f.start, n - f.start, old(out));
      }
    }

    /** The forward pass from the current position. */
    method WriteForward(offset: int) returns (ok: bool, ghost n: nat, ghost stop: bool)
      requires par.Valid() && buf.Length > 0
      modifies this`pos, this`out, buf
      ensures Ends(par, Origin(offset, Forward), buf.Length, Rest(old(pos)), n, stop, ok)
      ensures out == old(out) + Written(par, buf.Length, Rest(old(pos)), n, stop, ok)
    {
      var s := new Scores(par, offset, Forward);
      StartForward(s, Origin(offset, Forward), Rest(pos));
      ok, n, stop := ReadAndWriteRest(s, Origin(offset, Forward), Rest(pos));
    }

    /** The backward pass from the current position. */
    method WriteBackward(offset: int) returns (ok: bool, offset': int, ghost n: nat, ghost stop: bool)
      requires par.Valid() && maxReverse > 0 && (offset >= 0 ==> offset == pos)
      modifies this`pos, this`out, buf
      ensures reliable && old(pos) <= |input| ==> ok
      ensures if ok then pos == old(pos) && WentBack(par, offset, pos, n, stop) else out == old(out)
      ensures ok ==> out == old(out) + Behind(par, offset, pos, n, stop) && offset' == OffsetAfter(par, Origin(offset, Reverse), n)
    {
      ghost var o := Origin(offset, Reverse);
      var s := new Scores(par, offset, Reverse);
      var rv;
      rv, n, stop := ReadBackward(s, o);
      ok, offset' := rv == 0, s.offset;
    }

    /** The passes over the text around position p: the forward pass begins with the offset
        that the backward pass has moved. */
    ghost predicate Passes(dir: Direction, offset: int, p: nat, back: Pass, aheadFrom: int)
      requires par.Valid() && (dir == Reverse ==> maxReverse > 0)
    {
      if dir == Forward then aheadFrom == offset
      else WentBack(par, offset, p, back.n, back.stop) && aheadFrom == OffsetAfter(par, Origin(offset, Reverse), back.n)
    }

    /** What the backward pass, if there is one, writes. */
    ghost function FirstPart(dir: Direction, offset: int, p: nat, back: Pass, aheadFrom: int): (b: seq<byte>)
      requires par.Valid() && (dir == Reverse ==> maxReverse > 0) && Passes(dir, offset, p, back, aheadFrom)
      ensures |b| <= p && (|b| == 0 || |b| <= maxReverse) && (p <= |input| ==> b == input[p - |b|..p])
    {
      if dir == Forward then [] else Behind(par, offset, p, back.n, back.stop)
    }

    method GoBack(offset: int) returns (ok: bool, offset': int, ghost back: Pass)
      requires par.Valid() && (direction == Reverse ==> maxReverse > 0) && (offset >= 0 ==> offset == pos)
      modifies this`pos, this`out, buf
      ensures ok ==> pos == old(pos) && Passes(direction, offset, pos, back, offset')
      ensures ok ==> out == old(out) + FirstPart(direction, offset, pos, back, offset')
      ensures !ok ==> direction == Reverse && out == old(out) && !(reliable && old(pos) <= |input|)
    {
      ok, offset', back := true, offset, Pass(Origin(offset, Reverse), 0, false);
      if direction == Reverse {
        ghost var n, stop;
        ok, offset', n, stop := WriteBackward(offset);
        back := Pass(Origin(offset, Reverse), n, stop);
      }
    }

    /** What the forward pass writes. */
    ghost function SecondPart(p: nat, ahead: Pass, ok: bool): (b: seq<byte>)
      requires par.Valid() && Ends(par, ahead.origin, buf.Length, Rest(p), ahead.n, ahead.stop, ok)
      ensures |b| <= |Rest(p)| && b == Rest(p)[..|b|]
    {
      Written(par, buf.Length, Rest(p), ahead.n, ahead.stop, ok)
    }

    /** The passes for the text around position p: the backward one, if there is one, and
        the forward one, which begins with the offset that the backward one has moved. */
    ghost predicate BothPasses(dir: Direction, offset: int, p: nat, back: Pass, ahead: Pass, ok: bool)
      requires par.Valid() && (dir == Reverse ==> maxReverse > 0)
    {
      && Passes(dir, offset, p, back, ahead.origin.offset) && ahead.origin.dir == Forward
      && Ends(par, ahead.origin, buf.Length, Rest(p), ahead.n, ahead.stop, ok)
    }

    ghost function Text(dir: Direction, offset: int, p: nat, back: Pass, ahead: Pass, ok: bool): seq<byte>
      requires par.Valid() && (dir == Reverse ==> maxReverse > 0) && BothPasses(dir, offset, p, back, ahead, ok)
    {
      FirstPart(dir, offset, p, back, ahead.origin.offset) + SecondPart(p, ahead, ok)
    }

    /** It is one piece of the file around the start, reaching back at most maxReverse bytes. */
    lemma TextIsOnePiece(dir: Direction, offset: int, p: nat, back: Pass, ahead: Pass, ok: bool) returns (k: nat)
      requires par.Valid() && (dir == Reverse ==> maxReverse > 0) && BothPasses(dir, offset, p, back, ahead, ok)
      requires p <= |input|
      ensures k == 0 || k <= maxReverse
      ensures IsPiece(input, p, k, Text(dir, offset, p, back, ahead, ok))
    {
      var first := FirstPart(dir, offset, p, back, ahead.origin.offset);
      k := |first|;
      OnePiece(input, p, first, SecondPart(p, ahead, ok));
    }

    /** Whatever the sizes of the reads, the passes end alike and write the same text. */
    lemma TextIsDetermined(dir: Direction, offset: int, p: nat, back: Pass, ahead: Pass, ok: bool, back': Pass, ahead': Pass, ok': bool)
      requires par.Valid() && (dir == Reverse ==> maxReverse > 0)
      requires BothPasses(dir, offset, p, back, ahead, ok) && BothPasses(dir, offset, p, back', ahead', ok')
      ensures ok == ok' && Text(dir, offset, p, back, ahead, ok) == Text(dir, offset, p, back', ahead', ok')
    {
      if dir == Reverse && offset > 0 {
        InspectedUnique(par, Origin(offset, Reverse), Reversed(Before(p)), back.n, back.stop, back'.n, back'.stop);
      }
      assert ahead.origin == ahead'.origin;
      EndsUnique(par, ahead.origin, buf.Length, Rest(p), ahead.n, ahead.stop, ok, ahead'.n, ahead'.stop, ok');
    }

    function Known(seekable: bool, p: nat): int {
      if seekable then p else -1
    }

    method ExtractText(known: int) returns (result: Result, ghost back: Pass, ghost ahead: Pass)
      requires par.Valid() && buf.Length > 0 && (direction == Reverse ==> maxReverse > 0) && (known >= 0 ==> known == pos)
      modifies this`pos, this`out, this`direction, buf
      ensures direction == if result == ReadFailed then old(direction) else Forward
      ensures result == ReadFailed ==> old(direction) == Reverse && out == old(out) && !(reliable && old(pos) <= |input|)
      ensures result == BufferTooShort ==> par.maxScore >= buf.Length - 1
      ensures result != ReadFailed ==> BothPasses(old(direction), known, old(pos), back, ahead, result == Done)
      ensures result != ReadFailed ==> out == old(out) + Text(old(direction), known, old(pos), back, ahead, result == Done)
    {
      result, ahead := Done, Pass(Origin(-1, Forward), 0, false);
      ghost var start, dir, before := pos, direction, out;
      var ok, offset;
      ok, offset, back := GoBack(known);
      if !ok {
        result := ReadFailed;
        return;
      }
      direction := Forward;
      ghost var n, stop;
      ok, n, stop := WriteForward(offset);
      ahead := Pass(Origin(offset, Forward), n, stop);
      assert BothPasses(dir, known, start, back, ahead, ok);
      Reassociate(before, FirstPart(dir, known, start, back, offset), SecondPart(start, ahead, ok), out);
      if !ok {
        result := BufferTooShort;
        FailsOnlyIfShort(par, ahead.origin, buf.Length, Rest(start), n, stop);
      }
    }

    /** Extracts the text around the current position, which is unknown if the input cannot
        be positioned; the text begins `behind` bytes back. */
    method DoTextExtract(seekable: bool) returns (result: Result, ghost back: Pass, ghost ahead: Pass, ghost behind: nat)
      requires par.Valid() && buf.Length > 0 && (direction == Reverse ==> maxReverse > 0)
      modifies this`pos, this`out, this`direction, buf
      ensures direction == if result == ReadFailed then old(direction) else Forward
      ensures result == ReadFailed ==> old(direction) == Reverse && out == old(out) && !(reliable && old(pos) <= |input|)
      ensures result == BufferTooShort ==> par.maxScore >= buf.Length - 1
      ensures result != ReadFailed ==>
        BothPasses(old(direction), Known(seekable, old(pos)), old(pos), back, ahead, result == Done)
      ensures result != ReadFailed ==>
        out == old(out) + Text(old(direction), Known(seekable, old(pos)), old(pos), back, ahead, result == Done)
      ensures result != ReadFailed && old(pos) <= |input| ==>
        && (behind == 0 || behind <= maxReverse)
        && IsPiece(input, old(pos), behind, Text(old(direction), Known(seekable, old(pos)), old(pos), back, ahead, result == Done))
    {
      ghost var start, dir := pos, direction;
      behind := 0;
      var offset := Known(seekable, pos);
      result, back, ahead := ExtractText(offset);
      if result != ReadFailed && start <= |input| {
        behind := TextIsOnePiece(dir, offset, start, back, ahead, result == Done);
      }
    }
  }

  lemma Reassociate(before: seq<byte>, first: seq<byte>, second: seq<byte>, all: seq<byte>)
    requires all == before + first + second
    ensures all == before + (first + second)
  {
  }

  // ---- inputs on which the promises fail ----

  /** Lines of one character. */
  function Alternating(n: nat): (t: seq<byte>)
    ensures |t| == n
  {
    seq(n, i => if i % 2 == 0 then 97 else 10)
  }

  /** Both characters are letters, and crossing a block boundary alone does not end a text. */
  ghost predicate Lenient(par: Params) {
    par.Valid() && IsLetter(par, 97) && IsLetter(par, 10) && 0 <= par.maxScore && par.blockScore <= par.maxScore
  }

  /** So it is by default, whatever the limits. */
  lemma DefaultIsLenient(par: Params)
    requires par.Valid() && forall c: byte :: par.score[c] == TextTables.ScoreOf(TextTables.RULES, 10, c)
    requires par.maxScore == 9 && par.blockScore == 5
    ensures Lenient(par)
  {
    TextTables.DefaultLetters(97);
    TextTables.DefaultLetters(10);
  }

  lemma {:induction false} LettersScoreNothing(par: Params, b: seq<byte>)
    requires par.Valid() && forall k | 0 <= k < |b| :: IsLetter(par, b[k])
    ensures Sum(par, b) <= 0
  {
    if b == [] {
    } else {
      LettersScoreNothing(par, b[..|b| - 1]);
    }
  }

  lemma AlternatingGoesOn(par: Params, o: Origin, length: nat, n: nat)
    requires Lenient(par) && n <= length && (par.maxBytes > 0 ==> n <= par.maxBytes)
    ensures GoesOn(par, o, Alternating(length), n)
  {
    var t := Alternating(length);
    forall k | 0 < k <= n ensures !MustStop(par, o, t[..k]) {
      var b := t[..k];
      forall i | 0 <= i < k ensures SuffixScore(par, o, b, i) <= par.maxScore {
        LettersScoreNothing(par, b[i..]);
      }
      assert ([0] + b)[k] != ([0] + b)[k - 1];
      assert RunLength([0] + b) == 1;
      assert k > 1 && b[k - 1] == 97 ==> b[..k - 1][k - 2] == 10;
    }
  }

  lemma {:induction false} LettersAreNeverStuck(par: Params, bufsize: nat, length: nat, n: nat)
    requires Lenient(par) && bufsize >= 2 && n <= length
    ensures NeverStuck(par, bufsize, Alternating(length), n)
    ensures n > 0 ==> LastLetter(par, Alternating(length), n) == n - 1
  {
    if n == 0 {
    } else {
      LettersAreNeverStuck(par, bufsize, length, n - 1);
    }
  }

  /** A text of bufsize bytes, all of them letters, loses its last byte. */
  lemma LastByteLost(par: Params, o: Origin, bufsize: nat)
    requires Lenient(par) && bufsize >= 2 && (par.maxBytes > 0 ==> bufsize <= par.maxBytes)
    ensures var t := Alternating(bufsize);
      && Ends(par, o, bufsize, t, bufsize, false, true)
      && Emitted(par, bufsize, t, bufsize, false) == t[..bufsize - 1]
      && Promised(par, t, bufsize) == t
  {
    var t := Alternating(bufsize);
    AlternatingGoesOn(par, o, bufsize, bufsize);
    LettersAreNeverStuck(par, bufsize, bufsize, bufsize);
    FlushedIdle(par, bufsize, t, 0, bufsize - 1, FlushState(0, 0));
    assert Flushed(par, bufsize, t, bufsize) == FlushState(bufsize - 1, bufsize);
  }

  /** A text of max_bytes + 1 letters is written as a whole. */
  lemma OneByteTooMany(par: Params, o: Origin, bufsize: nat)
    requires Lenient(par) && bufsize >= 2 && par.maxBytes > 0
    ensures var t := Alternating(par.maxBytes + 1);
      && Ends(par, o, bufsize, t, par.maxBytes + 1, true, true)
      && Emitted(par, bufsize, t, par.maxBytes + 1, true) == t
  {
    var n := par.maxBytes + 1;
    var t := Alternating(n);
    AlternatingGoesOn(par, o, n, par.maxBytes);
    LettersAreNeverStuck(par, bufsize, n, n);
    assert t[..n] == t && TooManyBytes(par, t);
  }

  /** After a backward pass of n bytes the forward pass sees the block boundaries where they
      are exactly if n is a multiple of the block size, or they are worth nothing. */
  lemma BoundariesRightExactlyWhen(par: Params, offset: nat, n: nat)
    requires n <= offset
    ensures (forall i: nat :: BoundaryRight(par, offset, n, i)) <==> par.blockScore <= 0 || n % 512 == 0
  {
    if par.blockScore > 0 && n % 512 != 0 {
      var i := NextBoundary(offset);
      BoundaryRightExactlyWhen(par, offset, n, i);
      SameBlock(offset, n, i);
      assert !BoundaryRight(par, offset, n, i);
    } else {
      forall i: nat ensures BoundaryRight(par, offset, n, i) {
        BoundaryRightExactlyWhen(par, offset, n, i);
        SameBlock(offset, n, i);
      }
    }
  }

  lemma BoundaryRightExactlyWhen(par: Params, offset: nat, n: nat, i: nat)
    requires n <= offset
    ensures BoundaryRight(par, offset, n, i) <==>
      par.blockScore <= 0 || ((offset + i) % 512 == 0 <==> (offset - n + i) % 512 == 0)
  {
  }

  lemma NextBoundary(offset: nat) returns (i: nat)
    ensures (offset + i) % 512 == 0
  {
    i := 511 * offset;
    assert offset + i == 512 * offset;
  }

  lemma SameBlock(offset: nat, n: nat, i: nat)
    requires n <= offset
    ensures n % 512 == 0 ==> ((offset + i) % 512 == 0 <==> (offset - n + i) % 512 == 0)
    ensures n % 512 != 0 && (offset + i) % 512 == 0 ==> (offset - n + i) % 512 != 0
  {
  }

  ghost predicate BoundaryRight(par: Params, offset: nat, n: nat, i: nat) {
    Bonus(par, Origin(OffsetAfter(par, Origin(offset, Reverse), n), Forward), i) == Bonus(par, Origin(offset, Forward), i)
  }

  lemma Pow2Of9()
    ensures Pow2(9) == 512
  {
    assert Pow2(4) == 16;
    assert Pow2(8) == 256;
  }
}
