/** The streaming carver (scan_buf and scan_disk of src/magicrescue.c). */
module Carver {
  import opened Bits
  import opened Recipes
  import opened Scanners
  import opened Spacing
  import opened CarverSpec
  import opened CarverTheorems
  import opened RecipeFile
  import opened Util
  import opened Devices

  /** A slot of skip_ranges; begin < 0 marks a slot that is not in use. */
  datatype Range = Range(begin: int, end: int)

  predicate SlotHolds(r: Range, q: nat) {
    r.begin >= 0 && r.begin < q < r.end
  }

  predicate SlotBlocked(ranges: seq<Range>, q: nat) {
    exists i | 0 <= i < |ranges| :: SlotHolds(ranges[i], q)
  }

  /** From position w on, the slots say the same as the whole history. */
  ghost predicate SlotsAgree(ranges: seq<Range>, log: Log, w: nat) {
    forall q: nat | w <= q :: SlotBlocked(ranges, q) <==> Blocked(log, q)
  }

  ghost predicate LiveBefore(ranges: seq<Range>, w: nat) {
    forall i | 0 <= i < |ranges| && ranges[i].begin >= 0 :: ranges[i].begin < w
  }

  ghost predicate ScannerReady(sc: Scanner, overlap: nat) {
    && sc.param.Valid()
    && sc.offset + sc.param.Length() <= overlap
    && forall i | 0 <= i < |sc.recipes| :: WithinReach(sc.recipes[i], overlap)
  }

  /** data is what the image holds from base on. */
  ghost predicate IsWindow(data: seq<byte>, image: seq<byte>, base: nat) {
    base + |data| <= |image| && data == image[base..base + |data|]
  }

  ghost predicate NoHits(sc: Scanner, image: seq<byte>, from: nat, to: nat) {
    forall q: nat | from <= q < to :: !Hit(sc, image, q)
  }

  predicate IsLive(r: Range) {
    r.begin >= 0
  }

  predicate AllFree(ranges: seq<Range>) {
    forall i | 0 <= i < |ranges| :: !IsLive(ranges[i])
  }

  /** Some range that is in use ends beyond `end`. */
  predicate ReachBeyond(ranges: seq<Range>, end: nat) {
    exists i | 0 <= i < |ranges| :: IsLive(ranges[i]) && ranges[i].end > end
  }

  /** Some slots were freed, none that closes a position from w on. */
  ghost predicate OnlyFreed(before: seq<Range>, after: seq<Range>, w: int) {
    && |after| == |before|
    && forall i | 0 <= i < |before| ::
         after[i] == before[i] || (after[i].begin < 0 && before[i].end <= w)
  }

  /** The windows ws cover from..to without gap or overlap, only closed positions were
      skipped, and `run` is what scanning them window by window gives. */
  ghost predicate Scanned(m: Medium, scanners: seq<Scanner>, ws: seq<Window>, from: nat, to: nat, run: Run) {
    && Tiled(ws, from, to)
    && WellPruned(m, scanners, ws, Run([], false))
    && run == RunWindows(m, scanners, ws, Run([], false))
  }

  lemma ScannedOneMore(m: Medium, scanners: seq<Scanner>, ws: seq<Window>, from: nat, w: Window, before: Run, after: Run)
    requires Scanned(m, scanners, ws, from, w.start, before)
    requires w.start <= w.lo <= w.hi && w.start < w.hi
    requires forall q: nat | w.start <= q < w.lo :: Blocked(before.log, q)
    requires after == PassAll(m, scanners, w.lo, w.hi, before)
    ensures Scanned(m, scanners, ws + [w], from, w.hi, after)
  {
    assert (ws + [w])[..|ws|] == ws;
  }

  lemma PrunedIsBlocked(before: seq<Range>, after: seq<Range>, log: Log, filepos: nat, lo: nat, end: nat)
    requires filepos <= lo <= end && SlotsAgree(before, log, filepos) && LiveBefore(before, filepos)
    requires lo == filepos || exists i | 0 <= i < |before| :: IsLive(before[i]) && before[i].end >= lo
    requires OnlyFreed(before, after, lo)
    ensures forall q: nat | filepos <= q < lo :: Blocked(log, q)
    ensures SlotsAgree(after, log, lo) && LiveBefore(after, filepos)
  {
    forall q: nat | filepos <= q < lo ensures Blocked(log, q) {
      var i :| 0 <= i < |before| && IsLive(before[i]) && before[i].end >= lo;
      assert SlotHolds(before[i], q);
      assert SlotBlocked(before, q);
    }
    forall q: nat | lo <= q ensures SlotBlocked(after, q) <==> Blocked(log, q) {
      assert SlotBlocked(before, q) <==> Blocked(log, q);
      if SlotBlocked(before, q) {
        var i :| 0 <= i < |before| && SlotHolds(before[i], q);
        assert SlotHolds(after[i], q);
      }
    }
  }

  /** Testing a candidate in the buffer is testing it in the image. */
  lemma OpsInWindow(r: Recipe, data: seq<byte>, image: seq<byte>, base: nat, p: nat, overlap: nat)
    requires IsWindow(data, image, base) && p + overlap <= |data| && WithinReach(r, overlap)
    ensures AllHold(r.ops, data, p) == AllHold(r.ops, image, base + p)
  {
    forall j | 0 <= j < |r.ops| ensures OpHolds(r.ops[j], data, p) == OpHolds(r.ops[j], image, base + p) {
      assert r.ops[j].Reach() <= overlap;
      OpInWindow(r.ops[j], data, image, base, p);
    }
  }

  /** What the scan function finds in the buffer are the hits of the image. */
  lemma FoundAreHits(sc: Scanner, data: seq<byte>, image: seq<byte>, base: nat, p: nat, n: nat, found: Option<nat>, overlap: nat)
    requires IsWindow(data, image, base)
    requires ScannerReady(sc, overlap) && sc.offset <= p && p - sc.offset + n + overlap <= |data|
    requires IsFirstFound(sc.param, data, base, p, n, found)
    ensures var first := base + p - sc.offset;
      var stop := if found.Some? then base + found.value - sc.offset else first + n;
      && NoHits(sc, image, first, stop)
      && (found.Some? ==> Hit(sc, image, stop))
  {
    forall k | p <= k < p + n ensures FoundAt(sc.param, data, base, k) == FoundAt(sc.param, image, 0, base + k) {
      FoundInWindow(sc.param, data, image, base, k);
    }
    var first := base + p - sc.offset;
    var stop := if found.Some? then base + found.value - sc.offset else first + n;
    forall q: nat | first <= q < stop ensures !Hit(sc, image, q) {
      var k := q + sc.offset - base;
      assert p <= k < p + n && !FoundAt(sc.param, data, base, k);
    }
  }

  /** Nothing happens between a and b where nothing is found, or after a failure. */
  lemma {:induction false} PassSkips(m: Medium, sc: Scanner, lo: nat, hi: nat, a: nat, b: nat, run: Run)
    requires a <= b
    requires Pass(m, sc, lo, hi, a, run).failed
      || forall q: nat | a <= q < b :: !Hit(sc, m.image, q) || !Visits(sc, m.image, lo, hi, q)
    ensures Pass(m, sc, lo, hi, b, run) == Pass(m, sc, lo, hi, a, run)
    decreases b
  {
    if b <= a {
    } else {
      PassSkips(m, sc, lo, hi, a, b - 1, run);
    }
  }

  /** The next candidate q is the next position at which anything can happen. */
  lemma PassFinds(m: Medium, sc: Scanner, lo: nat, hi: nat, next: nat, q: nat, run: Run, before: Run, after: Run)
    requires lo <= next <= q < hi && next + sc.offset < hi
    requires next > lo ==> Hit(sc, m.image, next - 1)
    requires Hit(sc, m.image, q) && NoHits(sc, m.image, next, q)
    requires before == Pass(m, sc, lo, hi, next, run) && after == Step(m, sc, q, before)
    ensures after == Pass(m, sc, lo, hi, if after.failed then hi else q + 1, run)
  {
    PassSkips(m, sc, lo, hi, next, q, run);
    assert Visits(sc, m.image, lo, hi, q);
    if after.failed {
      PassSkips(m, sc, lo, hi, q + 1, hi, run);
    }
  }

  /** The loop guard closes the rest of the window. */
  lemma PassEnds(m: Medium, sc: Scanner, lo: nat, hi: nat, next: nat, run: Run)
    requires lo <= next <= hi <= next + sc.offset
    requires next > lo ==> Hit(sc, m.image, next - 1)
    ensures Pass(m, sc, lo, hi, hi, run) == Pass(m, sc, lo, hi, next, run)
  {
    forall q: nat | next <= q < hi ensures !Visits(sc, m.image, lo, hi, q) {
      assert next > lo ==> Hit(sc, m.image, next - 1);
    }
    PassSkips(m, sc, lo, hi, next, hi, run);
  }

  lemma {:induction false} PassAllEmpty(m: Medium, scanners: seq<Scanner>, at: nat, run: Run)
    ensures PassAll(m, scanners, at, at, run) == run
  {
    if scanners == [] {
    } else {
      PassAllEmpty(m, scanners[..|scanners| - 1], at, run);
    }
  }

  lemma {:induction false} PassAllFailed(m: Medium, scanners: seq<Scanner>, i: nat, lo: nat, hi: nat, run: Run)
    requires i <= |scanners| && PassAll(m, scanners[..i], lo, hi, run).failed
    ensures PassAll(m, scanners, lo, hi, run) == PassAll(m, scanners[..i], lo, hi, run)
    decreases |scanners|
  {
    var n := |scanners| - 1;
    if i == |scanners| {
      assert scanners[..i] == scanners;
    } else {
      assert scanners[..n][..i] == scanners[..i];
      PassAllFailed(m, scanners[..n], i, lo, hi, run);
      PassGrows(m, scanners[n], lo, hi, hi, PassAll(m, scanners[..n], lo, hi, run));
    }
  }

  /** The parts of a recipe that is being read look no further than overlap bytes. */
  ghost predicate PartsReady(scanner: Option<Scanner>, ops: seq<Operation>, overlap: nat) {
    && (scanner.Some? ==> scanner.value.param.Valid() && scanner.value.offset + scanner.value.param.Length() <= overlap)
    && forall i | 0 <= i < |ops| :: ops[i].Reach() <= overlap
  }

  /** Recipe r was added to scanner number `at`, old or new, and nothing else changed. */
  ghost predicate Installed(before: seq<Scanner>, after: seq<Scanner>, at: nat, r: Recipe)
    requires at < |after|
  {
    if at < |before| then
      after == before[at := before[at].(recipes := before[at].recipes + [r])]
    else
      at == |before| && after[..at] == before && |after| == at + 1 && after[at].recipes == [r]
  }

  lemma SameScannerSameMeaning(global: Option<Scanner>, lines: seq<Line>, sc: Scanner, other: Scanner, ops: seq<Operation>)
    requires ScannerEqual(sc, other) && SameMeaning(global, lines, Some(sc), ops)
    ensures SameMeaning(global, lines, Some(other), ops)
  {
    forall image: seq<byte>, q: nat
      ensures MaybeHit(Some(other), image, q) && AllHold(ops, image, q) <==>
              MaybeHit(global, image, q) && LinesHold(lines, image, q)
    {
      assert MaybeHit(Some(sc), image, q) == MaybeHit(Some(other), image, q);
    }
  }

  lemma MatchLineKeepsMeaning(global: Option<Scanner>, lines: seq<Line>, l: Line,
    scanner: Option<Scanner>, ops: seq<Operation>, scanner': Option<Scanner>, ops': seq<Operation>)
    requires l.MatchLine? && LineGood(l) && SameMeaning(global, lines, scanner, ops)
    requires global.Some? ==> scanner.Some?
    requires if scanner.None? && IsStringLine(l)
             then scanner'.Some? && SearchesFor(scanner'.value, l) && ops' == ops
             else scanner' == scanner && ops' == ops + [LineOp(l).value]
    ensures SameMeaning(global, lines + [l], scanner', ops')
  {
    if scanner.None? && IsStringLine(l) {
      ScannerLineKeepsMeaning(lines, l, scanner'.value, ops);
    } else {
      OpLineKeepsMeaning(global, lines, l, scanner, ops);
    }
  }

  lemma AddedRangeBlocks(ranges: seq<Range>, after: seq<Range>, slot: int, r: Range)
    requires slot < |ranges| && (slot >= 0 ==> ranges[slot].begin < 0) && r.begin >= 0
    requires after == if slot >= 0 then ranges[slot := r] else ranges + [r]
    ensures forall q: nat :: SlotBlocked(after, q) <==> SlotBlocked(ranges, q) || SlotHolds(r, q)
  {
    forall q: nat ensures SlotBlocked(after, q) <==> SlotBlocked(ranges, q) || SlotHolds(r, q) {
      if SlotBlocked(ranges, q) {
        var i :| 0 <= i < |ranges| && SlotHolds(ranges[i], q);
        assert SlotHolds(after[i], q);
      }
      if SlotHolds(r, q) {
        assert SlotHolds(after[if slot >= 0 then slot else |ranges|], q);
      }
    }
  }

  lemma BlockedAfter(log: Log, e: Extraction)
    ensures forall q: nat :: Blocked(log + [e], q) <==> Blocked(log, q) || Covers(e, q)
  {
    var more := log + [e];
    forall q: nat ensures Blocked(more, q) <==> Blocked(log, q) || Covers(e, q) {
      if Blocked(log, q) {
        BlockedGrows(log, more, q);
      }
      if Covers(e, q) {
        assert Covers(more[|log|], q);
      }
    }
  }

  // ---- the windows and the reads ----

  datatype Outcome = Finished | ReadError | ExtractFailed | SeekFailed

  /** Window number i ends overlap bytes before what the first i + 1 reads have reached. */
  ghost predicate CutByReads(ws: seq<Window>, start: nat, sizes: seq<nat>, overlap: nat) {
    |ws| <= |sizes| && forall i | 0 <= i < |ws| :: ws[i].hi == start + Total(sizes[..i + 1]) - overlap
  }

  ghost predicate OneMore(ws: seq<Window>, ws': seq<Window>, hi: nat) {
    |ws'| == |ws| + 1 && ws'[..|ws|] == ws && ws'[|ws|].hi == hi
  }

  lemma CutOneMore(ws: seq<Window>, ws': seq<Window>, hi: nat, start: nat, sizes: seq<nat>, overlap: nat)
    requires CutByReads(ws, start, sizes, overlap) && OneMore(ws, ws', hi)
    requires |ws| < |sizes| && hi == start + Total(sizes[..|ws| + 1]) - overlap
    ensures CutByReads(ws', start, sizes, overlap)
  {
    forall i | 0 <= i < |ws| ensures ws'[i] == ws[i] {
      assert ws'[..|ws|][i] == ws'[i];
    }
  }

  /** n of the reads that enter the loop have come to stop, and `now` is what is still to
      come. */
  ghost predicate Planned(plan: Reads, n: nat, start: nat, stop: nat, now: Reads) {
    n <= |plan.entered| && stop == start + Total(plan.entered[..n]) && now == Reads(plan.entered[n..], plan.last)
  }

  lemma PlanOneMore(plan: Reads, n: nat, start: nat, stop: nat, now: Reads, got: nat, next: Reads)
    requires Planned(plan, n, start, stop, now) && now == next.After(got)
    ensures Planned(plan, n + 1, start, stop + got, next)
  {
    assert plan.entered[n..][0] == plan.entered[n] && plan.entered[n..][1..] == plan.entered[n + 1..];
    TotalOneMore(plan.entered, n);
  }

  /** The reads have ended the loop at stop, after n windows. */
  predicate Exhausted(plan: Reads, n: nat, start: nat, stop: nat, pos: nat) {
    n == |plan.entered| && stop == start + Total(plan.entered) && pos == stop + (if plan.last > 0 then plan.last else 0)
  }

  lemma PlanEnds(plan: Reads, n: nat, start: nat, stop: nat, now: Reads, pos: nat)
    requires Planned(plan, n, start, stop, now) && now.entered == []
    requires pos == stop + (if now.last > 0 then now.last else 0)
    ensures Exhausted(plan, n, start, stop, pos)
  {
    assert plan.entered[..n] == plan.entered;
  }

  /** What a read of got bytes at stop means for the plan. */
  lemma PlanAfterRead(script: nat -> int, k: nat, length: nat, stop: nat, size: nat, overlap: nat,
    plan: Reads, n: nat, start: nat, got: int)
    requires size <= BUFSIZE && got == Got(script, k, Behind(length, stop), size)
    requires Planned(plan, n, start, stop, ReadLoop(script, k, Behind(length, stop), size, overlap))
    ensures got <= overlap ==> Exhausted(plan, n, start, stop, stop + (if got > 0 then got else 0)) && plan.last == got
    ensures got > overlap ==> overlap <= BUFSIZE
    ensures got > overlap ==>
      Planned(plan, n + 1, start, stop + got, ReadLoop(script, k + 1, Behind(length, stop + got), BUFSIZE - overlap, overlap))
  {
    var rest := Behind(length, stop);
    var now := ReadLoop(script, k, rest, size, overlap);
    EnteredStep(script, k, rest, size, overlap);
    if got > overlap {
      assert Behind(length, stop + got) == rest - got;
      PlanOneMore(plan, n, start, stop, now, got, ReadLoop(script, k + 1, rest - got, BUFSIZE - overlap, overlap));
    } else {
      PlanEnds(plan, n, start, stop, now, stop + (if got > 0 then got else 0));
    }
  }

  lemma WhereItEnds(script: nat -> int, k: nat, length: nat, start: nat, overlap: nat,
    ws: seq<Window>, outcome: Outcome, scanned: nat, stop: nat, pos: nat)
    requires outcome in {Finished, ReadError}
    requires var plan := ReadLoop(script, k, Behind(length, start), BUFSIZE, overlap);
      && CutByReads(ws, start, plan.entered, overlap) && Exhausted(plan, |ws|, start, stop, pos)
      && (outcome == ReadError <==> plan.last == -1)
    requires Tiled(ws, start, scanned)
    ensures scanned == if ws == [] then stop else stop - overlap
    ensures stop <= pos <= stop + overlap
    ensures NeverShort(script) ==> outcome == Finished && (start <= length ==> length - scanned == Tail(length - start, overlap))
  {
    var rest := Behind(length, start);
    var plan := ReadLoop(script, k, rest, BUFSIZE, overlap);
    assert ws != [] ==> plan.entered[..|ws|] == plan.entered;
    ReadLoopBounds(script, k, rest, BUFSIZE, overlap);
    if NeverShort(script) {
      TailIsLeft(script, k, rest, overlap);
      NoErrors(script, k, rest, BUFSIZE, overlap);
    }
  }

  /** Every hit of a window that was visited or pruned, and at which a recipe holds, is in
      the bytes of an extraction that are not to be extracted again, or that recipe was
      applied, or an earlier one whose extraction was longer than what may overlap. */
  ghost predicate NothingLeftOut(m: Medium, scanners: seq<Scanner>, ws: seq<Window>, log: Log) {
    forall i, s, q: nat, j | 0 <= i < |ws| && 0 <= s < |scanners| && ws[i].start <= q < ws[i].hi
        && Hit(scanners[s], m.image, q) && (q >= ws[i].lo ==> Visits(scanners[s], m.image, ws[i].lo, ws[i].hi, q))
        && 0 <= j < |scanners[s].recipes| && AllHold(scanners[s].recipes[j].ops, m.image, q) ::
      || (exists k | 0 <= k < |log| :: 0 <= log[k].recipe.allowOverlap < log[k].size
            && log[k].pos < q < log[k].pos + log[k].size - log[k].recipe.allowOverlap)
      || (exists k | 0 <= k < |log| :: log[k].pos == q && log[k].recipe == scanners[s].recipes[j])
      || (exists k | 0 <= k < |log| :: log[k].pos == q && log[k].recipe in scanners[s].recipes[..j]
            && 0 <= log[k].recipe.allowOverlap < log[k].size)
  }

  lemma RunLeavesNothingOut(m: Medium, scanners: seq<Scanner>, ws: seq<Window>, from: nat, to: nat)
    requires Tiled(ws, from, to) && WellPruned(m, scanners, ws, Run([], false))
    requires !RunWindows(m, scanners, ws, Run([], false)).failed
    ensures NothingLeftOut(m, scanners, ws, RunWindows(m, scanners, ws, Run([], false)).log)
  {
    forall i, s, q: nat, j | 0 <= i < |ws| && 0 <= s < |scanners| && ws[i].start <= q < ws[i].hi
        && Hit(scanners[s], m.image, q) && (q >= ws[i].lo ==> Visits(scanners[s], m.image, ws[i].lo, ws[i].hi, q))
        && 0 <= j < |scanners[s].recipes| && AllHold(scanners[s].recipes[j].ops, m.image, q)
      ensures var log := RunWindows(m, scanners, ws, Run([], false)).log;
        || (exists k | 0 <= k < |log| :: 0 <= log[k].recipe.allowOverlap < log[k].size
              && log[k].pos < q < log[k].pos + log[k].size - log[k].recipe.allowOverlap)
        || (exists k | 0 <= k < |log| :: log[k].pos == q && log[k].recipe == scanners[s].recipes[j])
        || (exists k | 0 <= k < |log| :: log[k].pos == q && log[k].recipe in scanners[s].recipes[..j]
              && 0 <= log[k].recipe.allowOverlap < log[k].size)
    {
      RunComplete(m, scanners, ws, from, to, i, s, q, j);
    }
  }

  lemma OneScanner(m: Medium, sc: Scanner, ws: seq<Window>, start: nat, scanned: nat, run: Run)
    requires sc.param.Valid() && Scanned(m, [sc], ws, start, scanned, run)
    ensures AllKeepUp(sc, ws) ==> run == Greedy(m, sc, start, scanned, Run([], false))
    ensures sc.offset == 0 ==> AllKeepUp(sc, ws)
  {
    if AllKeepUp(sc, ws) {
      forall i | 0 <= i < |ws| ensures VisitsAll(sc, m.image, ws[i].lo, ws[i].hi) {
        KeepingUpLosesNothing(sc, m.image, ws[i].lo, ws[i].hi);
      }
      StreamingRefinesGreedy(m, sc, ws, start, scanned, Run([], false));
    }
    if sc.offset == 0 {
      DistanceIsPositive(sc.param);
    }
  }

  /** No extraction begins in the bytes of an earlier one that are not to be extracted
      again. */
  ghost predicate Apart(log: Log) {
    forall i, j | 0 <= i < j < |log| && 0 <= log[i].recipe.allowOverlap < log[i].size ::
      !(log[i].pos < log[j].pos < log[i].pos + log[i].size - log[i].recipe.allowOverlap)
  }

  lemma WholeRun(m: Medium, scanners: seq<Scanner>, ws: seq<Window>, start: nat, scanned: nat, run: Run)
    requires Scanned(m, scanners, ws, start, scanned, run) && forall s | 0 <= s < |scanners| :: scanners[s].param.Valid()
    ensures History(m, scanners, start, scanned, run.log) && NoOverlap(run.log) && Apart(run.log)
    ensures FailsAtLast(run)
    ensures !run.failed ==> NothingLeftOut(m, scanners, ws, run.log)
    ensures |scanners| == 1 ==> KeepsToGreedy(m, scanners[0], ws, start, scanned, run)
  {
    RunHistory(m, scanners, ws, start, scanned);
    RunHasNoOverlap(m, scanners, ws, start, scanned);
    RunFails(m, scanners, ws);
    if !run.failed {
      RunLeavesNothingOut(m, scanners, ws, start, scanned);
    }
    if |scanners| == 1 {
      assert scanners == [scanners[0]];
      OneScanner(m, scanners[0], ws, start, scanned, run);
    }
  }

  /** A scanner that keeps up, as one without an offset does, makes the simple pass. */
  ghost predicate KeepsToGreedy(m: Medium, sc: Scanner, ws: seq<Window>, start: nat, scanned: nat, run: Run) {
    && (AllKeepUp(sc, ws) ==> run == Greedy(m, sc, start, scanned, Run([], false)))
    && (sc.offset == 0 ==> AllKeepUp(sc, ws))
  }

  /** The global variables of the program. log records the calls of extract(). */
  class MagicRescue {
    var scanners: seq<Scanner>
    var skipRanges: seq<Range>
    var overlap: nat
    var log: Log
    const extractor: (Log, nat, Recipe) -> int
    const buf: array<byte>

    constructor (extractor: (Log, nat, Recipe) -> int)
      ensures this.extractor == extractor && fresh(buf) && buf.Length == BUFSIZE
      ensures scanners == [] && skipRanges == [] && overlap == 0 && log == []
      ensures Ready()
    {
      this.extractor := extractor;
      scanners, skipRanges, overlap, log := [], [], 0, [];
      buf := new byte[BUFSIZE];
    }

    /** overlap bytes of lookahead are enough for every scanner and every operation. */
    ghost predicate Ready()
      reads this
    {
      forall i | 0 <= i < |scanners| :: ScannerReady(scanners[i], overlap)
    }

    /** The scanner of the list that equals this one; if there is none it joins the list. */
    method ScannerAddOrReuse(scanner: Scanner) returns (at: nat)
      modifies this`scanners
      ensures at < |scanners| && ScannerEqual(scanners[at], scanner)
      ensures if exists el :: el in old(scanners) && ScannerEqual(scanner, el)
              then scanners == old(scanners)
              else at == |old(scanners)| && scanners == old(scanners) + [scanner]
    {
      for i := 0 to |scanners|
        invariant forall j | 0 <= j < i :: !ScannerEqual(scanner, scanners[j])
      {
        if ScannerEqual(scanner, scanners[i]) {
          assert scanners[i] in scanners;
          return i;
        }
      }
      scanners := scanners + [scanner];
      return |scanners| - 1;
    }

    /** Makes the match line the scanner function, if there is none yet and it can be one,
        and otherwise an operation; raises overlap to what the line looks at. */
    method ParseMatchLine(l: Line, scanner: Option<Scanner>, ops: seq<Operation>)
      returns (ok: bool, scanner': Option<Scanner>, ops': seq<Operation>)
      requires l.MatchLine? && PartsReady(scanner, ops, overlap)
      modifies this`overlap
      ensures overlap >= old(overlap) && (ok <==> LineGood(l))
      ensures ok ==> PartsReady(scanner', ops', overlap)
      ensures ok ==> if scanner.None? && IsStringLine(l)
                     then scanner'.Some? && SearchesFor(scanner'.value, l) && scanner'.value.recipes == [] && ops' == ops
                     else scanner' == scanner && ops' == ops + [LineOp(l).value]
    {
      var len := 0;
      ok, scanner', ops' := false, scanner, ops;
      if scanner.None? && IsStringLine(l) {
        var s, n := StringInit(l.text);
        var str := s[..n];
        if |str| == 1 {
          scanner' := Some(Scanner(ScanChar(str[0]), l.offset, []));
          len := 1;
        } else if |str| > 1 {
          var param := ScannerStringInit(str);
          scanner' := Some(Scanner(param, l.offset, []));
          len := |str|;
        }
      }
      if len <= 0 {
        if IsStringLine(l) {
          var s, n := StringInit(l.text);
          ops' := ops' + [OpString(l.offset, s[..n])];
          len := n;
        } else if l.opname == "int32" {
          if |l.words| < 2 {
            return;
          }
          var val := HexToLL(l.words[0]);
          var mask := HexToLL(l.words[1]);
          ops' := ops' + [OpInt32(l.offset, And(val, mask), mask)];
          len := 4;
        }
      }
      if len <= 0 {
        return;
      }
      len := len + l.offset;
      if overlap < len {
        overlap := len;
      }
      ok := true;
    }

    /** Reads the lines of a recipe file; false at the first invalid one. */
    method ParseLines(lines: seq<Line>, global: Option<Scanner>)
      returns (ok: bool, scanner: Option<Scanner>, command: bool, ops: seq<Operation>, allowOverlap: int)
      requires PartsReady(global, [], overlap)
      requires global.Some? ==> global.value.recipes == []
      modifies this`overlap
      ensures overlap >= old(overlap)
      ensures ok <==> forall i | 0 <= i < |lines| :: LineGood(lines[i])
      ensures ok ==> (command <==> CommandLine in lines)
      ensures ok ==> (scanner.Some? <==> global.Some? || exists i | 0 <= i < |lines| :: IsStringLine(lines[i]))
      ensures ok ==> PartsReady(scanner, ops, overlap) && (scanner.Some? ==> scanner.value.recipes == [])
      ensures ok ==> allowOverlap == AllowOverlap(lines) && SameMeaning(global, lines, scanner, ops)
    {
      ok, scanner, command, ops, allowOverlap := false, global, false, [], 0;
      for i := 0 to |lines|
        invariant overlap >= old(overlap)
        invariant forall j | 0 <= j < i :: LineGood(lines[j])
        invariant command <==> CommandLine in lines[..i]
        invariant scanner.Some? <==> global.Some? || exists j | 0 <= j < i :: IsStringLine(lines[j])
        invariant PartsReady(scanner, ops, overlap) && (scanner.Some? ==> scanner.value.recipes == [])
        invariant allowOverlap == AllowOverlap(lines[..i])
        invariant SameMeaning(global, lines[..i], scanner, ops)
      {
        var l := lines[i];
        assert lines[..i + 1] == lines[..i] + [l];
        if l.MatchLine? {
          var good, scanner', ops' := ParseMatchLine(l, scanner, ops);
          if !good {
            return;
          }
          MatchLineKeepsMeaning(global, lines[..i], l, scanner, ops, scanner', ops');
          scanner, ops := scanner', ops';
        } else {
          OtherLineKeepsMeaning(global, lines[..i], l, scanner, ops);
          match l
          case AllowOverlapLine(bytes) => allowOverlap := bytes;
          case CommandLine => command := true;
          case InvalidLine => return;
          case _ =>
        }
      }
      assert lines[..|lines|] == lines;
      ok := true;
    }

    /** Parses a recipe file and adds the recipe to a scanner, number `at` of the list.
        If global is given it is forced to be the scanner of this recipe. */
    method ParseRecipe(name: string, lines: seq<Line>, global: Option<Scanner>) returns (ok: bool, at: nat, r: Recipe)
      requires Ready()
      requires global.Some? ==> global.value.param.ScanBlock? && ScannerReady(global.value, overlap) && global.value.recipes == []
      modifies this`scanners, this`overlap
      ensures Ready() && overlap >= old(overlap)
      ensures ok <==> Acceptable(lines, global.Some?)
      ensures ok ==> overlap % 8 == 0
      ensures ok ==> at < |scanners| && Installed(old(scanners), scanners, at, r)
      ensures ok ==> r.allowOverlap == AllowOverlap(lines) && SameMeaning(global, lines, Some(scanners[at]), r.ops)
      ensures !ok ==> scanners == old(scanners)
    {
      at := 0;
      var scanner, command, ops, allowOverlap;
      ok, scanner, command, ops, allowOverlap := ParseLines(lines, global);
      r := Recipe(name, ops, allowOverlap);
      if !ok || scanner.None? || !command {
        return false, at, r;
      }
      at := ScannerAddOrReuse(scanner.value);
      SameScannerSameMeaning(global, lines, scanner.value, scanners[at].(recipes := scanners[at].recipes + [r]), ops);
      scanners := scanners[at := scanners[at].(recipes := scanners[at].recipes + [r])];
      RoundOverlap();
    }

    /** Rounds overlap up to a machine word boundary. */
    method RoundOverlap()
      modifies this`overlap
      ensures old(overlap) <= overlap < old(overlap) + 8 && overlap % 8 == 0
    {
      var x := overlap + 7;
      AndMask(x, 3);
      assert Pow2(3) == 8;
      overlap := x - And(x, 7);
    }

    /** Calls the external program, which leaves the file position anywhere. */
    method Extract(d: Device, r: Recipe, filepos: nat) returns (size: int)
      modifies this`log, d`pos
      ensures size == extractor(old(log), filepos, r)
      ensures log == old(log) + [Extraction(filepos, r, size)]
    {
      size := extractor(log, filepos, r);
      log := log + [Extraction(filepos, r, size)];
      d.pos := *;
    }

    method OpsMatch(ops: seq<Operation>, data: seq<byte>, p: nat) returns (matched: bool)
      ensures matched == AllHold(ops, data, p)
    {
      for i := 0 to |ops|
        invariant forall j | 0 <= j < i :: OpHolds(ops[j], data, p)
      {
        if !OpHolds(ops[i], data, p) {
          return false;
        }
      }
      return true;
    }

    method IsSkipped(filepos: nat) returns (skipped: bool)
      ensures skipped == SlotBlocked(skipRanges, filepos)
    {
      for i := 0 to |skipRanges|
        invariant forall j | 0 <= j < i :: !SlotHolds(skipRanges[j], filepos)
      {
        if SlotHolds(skipRanges[i], filepos) {
          return true;
        }
      }
      return false;
    }

    /** Finds an available range, or adds one. Other ranges stay as they are. */
    method AddRange(begin: nat, end: int, ghost hi: nat)
      requires begin < hi && LiveBefore(skipRanges, hi)
      modifies this`skipRanges
      ensures forall q: nat :: SlotBlocked(skipRanges, q) <==> SlotBlocked(old(skipRanges), q) || begin < q < end
      ensures LiveBefore(skipRanges, hi)
      ensures |skipRanges| == if exists r :: r in old(skipRanges) && r.begin < 0 then |old(skipRanges)| else |old(skipRanges)| + 1
    {
      var slot := -1;
      for i := 0 to |skipRanges|
        invariant -1 <= slot < i
        invariant slot >= 0 ==> skipRanges[slot].begin < 0
        invariant slot < 0 ==> forall j | 0 <= j < i :: skipRanges[j].begin >= 0
      {
        if skipRanges[i].begin < 0 {
          slot := i;
        }
      }
      if slot >= 0 {
        assert skipRanges[slot] in skipRanges;
        skipRanges := skipRanges[slot := Range(begin, end)];
      } else {
        skipRanges := skipRanges + [Range(begin, end)];
      }
      AddedRangeBlocks(old(skipRanges), skipRanges, slot, Range(begin, end));
    }

    /** Extracts by one recipe, and closes the extracted bytes to later candidates. */
    method Apply(d: Device, r: Recipe, filepos: nat, ghost lo: nat, ghost hi: nat) returns (failed: bool, exclusive: bool)
      requires lo <= filepos < hi && SlotsAgree(skipRanges, log, lo) && LiveBefore(skipRanges, hi)
      modifies this`log, this`skipRanges, d`pos
      ensures var e := Extraction(filepos, r, extractor(old(log), filepos, r));
        log == old(log) + [e] && failed == (e.size < 0) && exclusive == Exclusive(e)
      ensures !failed ==> SlotsAgree(skipRanges, log, lo)
      ensures LiveBefore(skipRanges, hi)
      ensures var size := extractor(old(log), filepos, r); // which closes exactly these positions:
        forall q: nat :: SlotBlocked(skipRanges, q) <==>
          SlotBlocked(old(skipRanges), q) || (0 <= r.allowOverlap < size && filepos < q < filepos + size - r.allowOverlap)
    {
      var size := Extract(d, r, filepos);
      BlockedAfter(old(log), Extraction(filepos, r, size));
      if size < 0 {
        return true, false;
      }
      if r.allowOverlap >= 0 && size > r.allowOverlap {
        AddRange(filepos, filepos + size - r.allowOverlap, hi);
        return false, true;
      }
      return false, false;
    }

    /** Tries recipe number i of a scanner; done if no other is to be tried. */
    method TryOne(d: Device, ghost m: Medium, recipes: seq<Recipe>, i: nat, data: seq<byte>, base: nat, p: nat, filepos: nat,
                  ghost lo: nat, ghost hi: nat) returns (failed: bool, done: bool, matched: bool)
      requires filepos == base + p && IsWindow(data, d.image, base)
      requires i < |recipes| && p + overlap <= |data| && WithinReach(recipes[i], overlap)
      requires lo <= filepos < hi && SlotsAgree(skipRanges, log, lo) && LiveBefore(skipRanges, hi)
      requires m.image == d.image && m.extract == extractor
      modifies this`log, this`skipRanges, d`pos
      ensures TryRecipes(m, recipes[i..], filepos, Run(old(log), false)) ==
        if done then Run(log, failed) else TryRecipes(m, recipes[i + 1..], filepos, Run(log, false))
      ensures if matched then |old(log)| < |log| else !done && log == old(log) && d.pos == old(d.pos)
      ensures failed ==> done
      ensures !failed ==> SlotsAgree(skipRanges, log, lo)
      ensures LiveBefore(skipRanges, hi)
    {
      failed, done := false, false;
      var r := recipes[i];
      assert recipes[i..][0] == r && recipes[i..][1..] == recipes[i + 1..];
      OpsInWindow(r, data, d.image, base, p, overlap);
      matched := OpsMatch(r.ops, data, p);
      if matched {
        var exclusive;
        failed, exclusive := Apply(d, r, filepos, lo, hi);
        done := failed || exclusive;
      }
    }

    /** Tries all recipes of a scanner on the candidate data[p], file position filepos. */
    method TryAll(d: Device, ghost m: Medium, recipes: seq<Recipe>, data: seq<byte>, base: nat, p: nat, filepos: nat,
                  ghost lo: nat, ghost hi: nat) returns (failed: bool, changed: bool)
      requires filepos == base + p && IsWindow(data, d.image, base)
      requires p + overlap <= |data|
      requires forall i | 0 <= i < |recipes| :: WithinReach(recipes[i], overlap)
      requires lo <= filepos < hi && SlotsAgree(skipRanges, log, lo) && LiveBefore(skipRanges, hi)
      requires m.image == d.image && m.extract == extractor
      modifies this`log, this`skipRanges, d`pos
      ensures Run(log, failed) == TryRecipes(m, recipes, filepos, Run(old(log), false))
      ensures if changed then |old(log)| < |log| else !failed && log == old(log) && d.pos == old(d.pos)
      ensures !failed ==> SlotsAgree(skipRanges, log, lo)
      ensures LiveBefore(skipRanges, hi)
    {
      failed, changed := false, false;
      for i := 0 to |recipes|
        invariant TryRecipes(m, recipes, filepos, Run(old(log), false)) == TryRecipes(m, recipes[i..], filepos, Run(log, false))
        invariant !failed
        invariant if changed then |old(log)| < |log| else log == old(log) && d.pos == old(d.pos)
        invariant SlotsAgree(skipRanges, log, lo) && LiveBefore(skipRanges, hi)
      {
        var done, matched;
        failed, done, matched := TryOne(d, m, recipes, i, data, base, p, filepos, lo, hi);
        changed := changed || matched;
        if done {
          return;
        }
      }
    }

    /** The first of the n start positions from data[p - offset] on where a file could start. */
    method FindNext(sc: Scanner, data: seq<byte>, base: nat, p: nat, n: nat, ghost image: seq<byte>) returns (r: Option<nat>)
      requires IsWindow(data, image, base) && ScannerReady(sc, overlap)
      requires n > 0 && sc.offset <= p && p - sc.offset + n + overlap <= |data|
      ensures r.None? ==> NoHits(sc, image, base + p - sc.offset, base + p - sc.offset + n)
      ensures r.Some? ==> p - sc.offset <= r.value < p - sc.offset + n && Hit(sc, image, base + r.value)
      ensures r.Some? ==> NoHits(sc, image, base + p - sc.offset, base + r.value)
    {
      var found := CallScanner(data, p, n, sc.param, base + p);
      FoundAreHits(sc, data, image, base, p, n, found, overlap);
      r := if found.Some? then Some(found.value - sc.offset) else None;
    }

    /** A candidate is tried unless some range covers it. */
    method Consider(d: Device, ghost m: Medium, sc: Scanner, data: seq<byte>, base: nat, p: nat, filepos: nat,
                    ghost lo: nat, ghost hi: nat) returns (failed: bool, changed: bool)
      requires filepos == base + p && IsWindow(data, d.image, base)
      requires p + overlap <= |data| && ScannerReady(sc, overlap) && Hit(sc, d.image, filepos)
      requires lo <= filepos < hi && SlotsAgree(skipRanges, log, lo) && LiveBefore(skipRanges, hi)
      requires m.image == d.image && m.extract == extractor
      modifies this`log, this`skipRanges, d`pos
      ensures Run(log, failed) == Step(m, sc, filepos, Run(old(log), false))
      ensures if changed then |old(log)| < |log| else !failed && log == old(log) && d.pos == old(d.pos)
      ensures !failed ==> SlotsAgree(skipRanges, log, lo)
      ensures LiveBefore(skipRanges, hi)
    {
      var skipped := IsSkipped(filepos);
      assert skipped == Blocked(log, filepos);
      failed, changed := false, false;
      if !skipped {
        failed, changed := TryAll(d, m, sc.recipes, data, base, p, filepos, lo, hi);
      }
    }

    /** One turn of the candidate loop. The pass up to `next` has been made; goes to the
        first hit from there on, if there is one, and considers it. */
    method Turn(d: Device, ghost m: Medium, sc: Scanner, data: seq<byte>, base: nat, p: nat, n: nat,
                ghost lo: nat, ghost hi: nat, ghost next: nat, ghost run0: Run)
      returns (r: Option<nat>, failed: bool, changed: bool, ghost upto: nat)
      requires IsWindow(data, d.image, base) && ScannerReady(sc, overlap)
      requires n > 0 && sc.offset <= p && p - sc.offset + n + overlap <= |data|
      requires lo <= next == base + p - sc.offset && hi == next + n && next + sc.offset < hi
      requires next > lo ==> Hit(sc, d.image, next - 1)
      requires SlotsAgree(skipRanges, log, lo) && LiveBefore(skipRanges, hi)
      requires Run(log, false) == Pass(m, sc, lo, hi, next, run0)
      requires m.image == d.image && m.extract == extractor
      modifies this`log, this`skipRanges, d`pos
      ensures Run(log, failed) == Pass(m, sc, lo, hi, upto, run0)
      ensures if r.None? || failed then upto == hi
              else next < upto <= hi && upto == base + r.value + 1 && Hit(sc, d.image, upto - 1)
      ensures if changed then |old(log)| < |log| else !failed && log == old(log) && d.pos == old(d.pos)
      ensures !failed ==> SlotsAgree(skipRanges, log, lo)
      ensures LiveBefore(skipRanges, hi)
    {
      r := FindNext(sc, data, base, p, n, m.image);
      failed, changed, upto := false, false, hi;
      if r.None? {
        PassSkips(m, sc, lo, hi, next, hi, run0);
        return;
      }
      var filepos := base + r.value;
      failed, changed := Consider(d, m, sc, data, base, r.value, filepos, lo, hi);
      PassFinds(m, sc, lo, hi, next, filepos, run0, Run(old(log), false), Run(log, failed));
      upto := if failed then hi else filepos + 1;
    }

    /** Runs one scanner over the len start positions from data[scanbuf] on. */
    method RunScanner(d: Device, ghost m: Medium, sc: Scanner, data: seq<byte>, base: nat, scanbuf: nat, len: nat,
                      ghost lo: nat, ghost hi: nat) returns (failed: bool, changed: bool)
      requires IsWindow(data, d.image, base)
      requires scanbuf + len + overlap <= |data| && ScannerReady(sc, overlap)
      requires lo == base + scanbuf && hi == lo + len
      requires SlotsAgree(skipRanges, log, lo) && LiveBefore(skipRanges, hi)
      requires m.image == d.image && m.extract == extractor
      modifies this`log, this`skipRanges, d`pos
      ensures Run(log, failed) == Pass(m, sc, lo, hi, hi, Run(old(log), false))
      ensures if changed then |old(log)| < |log| else !failed && log == old(log) && d.pos == old(d.pos)
      ensures !failed ==> SlotsAgree(skipRanges, log, lo)
      ensures LiveBefore(skipRanges, hi)
    {
      ghost var run0, next := Run(log, false), lo;
      failed, changed := false, false;
      var p := scanbuf + sc.offset;
      while p - scanbuf < len
        invariant next == base + p - sc.offset && lo <= next <= hi && !failed
        invariant Run(log, failed) == Pass(m, sc, lo, hi, next, run0)
        invariant next > lo ==> Hit(sc, m.image, next - 1)
        invariant if changed then |old(log)| < |log| else log == old(log) && d.pos == old(d.pos)
        invariant SlotsAgree(skipRanges, log, lo) && LiveBefore(skipRanges, hi)
        decreases hi - next
      {
        var found, extracted;
        found, failed, extracted, next := Turn(d, m, sc, data, base, p, len - (p - scanbuf) + sc.offset, lo, hi, next, run0);
        changed := changed || extracted;
        if found.None? || failed {
          return;
        }
        p := found.value + sc.offset + 1;
      }
      PassEnds(m, sc, lo, hi, next, run0);
    }

    /** Cleans up the ranges that lie behind filepos and finds out how much of the window
        filepos..end can be skipped: all of it when a range reaches beyond its end,
        otherwise as far as the longest range reaches, if they all begin before filepos. */
    method PruneRanges(filepos: nat, end: nat) returns (lo: nat, skipAll: bool)
      requires filepos < end
      modifies this`skipRanges
      ensures skipAll <==> ReachBeyond(old(skipRanges), end)
      ensures !skipAll ==> filepos <= lo <= end
      ensures !skipAll && LiveBefore(old(skipRanges), filepos) ==> forall i | 0 <= i < |old(skipRanges)| :: IsLive(old(skipRanges)[i]) ==> old(skipRanges)[i].end <= lo
      ensures !skipAll && lo != filepos ==> exists i | 0 <= i < |old(skipRanges)| :: IsLive(old(skipRanges)[i]) && old(skipRanges)[i].end == lo
      ensures !skipAll ==> forall i | 0 <= i < |skipRanges| :: IsLive(skipRanges[i]) ==> filepos <= skipRanges[i].end
      ensures OnlyFreed(old(skipRanges), skipRanges, if skipAll then end else lo)
    {
      lo := filepos;
      var i := 0;
      while i < |skipRanges|
        invariant i <= |skipRanges| == |old(skipRanges)| && filepos <= lo <= end
        invariant forall j | i <= j < |skipRanges| :: skipRanges[j] == old(skipRanges)[j]
        invariant LiveBefore(old(skipRanges), filepos) ==>
          forall j | 0 <= j < i :: IsLive(old(skipRanges)[j]) ==> old(skipRanges)[j].end <= lo
        invariant forall j | 0 <= j < i :: IsLive(old(skipRanges)[j]) ==> old(skipRanges)[j].end <= end
        invariant forall j | 0 <= j < i :: IsLive(skipRanges[j]) ==> filepos <= skipRanges[j].end
        invariant lo != filepos ==> exists j | 0 <= j < i :: IsLive(old(skipRanges)[j]) && old(skipRanges)[j].end == lo
        invariant OnlyFreed(old(skipRanges), skipRanges, lo)
      {
        var range := skipRanges[i];
        if range.begin >= 0 {
          if range.end < lo {
            skipRanges := skipRanges[i := range.(begin := -1)];
          } else if range.end > end {
            skipAll := true;
            return;
          } else if range.begin <= lo && range.end > lo {
            lo := range.end;
          }
        }
        i := i + 1;
      }
      skipAll := false;
    }

    /** Runs all scanners over a window of scanbufLen start positions. The result is -1 after
        an extraction that failed, 1 if there were others, so that the position is anywhere,
        and 0 if there were none. lo is where the scanners really started. */
    method ScanBuf(d: Device, ghost m: Medium, data: seq<byte>, scanbufLen: nat, filepos: nat) returns (result: int, ghost lo: nat)
      requires Ready() && scanbufLen > 0 && |data| == scanbufLen + overlap
      requires IsWindow(data, d.image, filepos)
      requires SlotsAgree(skipRanges, log, filepos) && LiveBefore(skipRanges, filepos)
      requires m.image == d.image && m.extract == extractor
      modifies this`log, this`skipRanges, d`pos
      ensures result in {-1, 0, 1} && filepos <= lo <= filepos + scanbufLen
      ensures Run(log, result == -1) == PassAll(m, scanners, lo, filepos + scanbufLen, Run(old(log), false))
      ensures forall q: nat | filepos <= q < lo :: Blocked(old(log), q)
      ensures if result == 0 then log == old(log) else |old(log)| < |log|
      ensures result == 0 ==> d.pos == old(d.pos)
      ensures result != -1 ==> SlotsAgree(skipRanges, log, filepos + scanbufLen)
      ensures LiveBefore(skipRanges, filepos + scanbufLen)
    {
      var end := filepos + scanbufLen;
      var start, skipAll := PruneRanges(filepos, end);
      lo := if skipAll then end else start;
      PrunedIsBlocked(old(skipRanges), skipRanges, log, filepos, lo, end);
      if skipAll {
        PassAllEmpty(m, scanners, end, Run(log, false));
        return 0, lo;
      }
      var changed := false;
      for i := 0 to |scanners|
        invariant Run(log, false) == PassAll(m, scanners[..i], lo, end, Run(old(log), false))
        invariant if changed then |old(log)| < |log| else log == old(log) && d.pos == old(d.pos)
        invariant SlotsAgree(skipRanges, log, lo) && LiveBefore(skipRanges, end)
      {
        assert scanners[..i + 1][..i] == scanners[..i];
        var failed, extracted := RunScanner(d, m, scanners[i], data, filepos, start - filepos, end - start, lo, end);
        changed := changed || extracted;
        if failed {
          PassAllFailed(m, scanners, i + 1, lo, end, Run(old(log), false));
          return -1, lo;
        }
      }
      assert scanners[..|scanners|] == scanners;
      result := if changed then 1 else 0;
    }

    /** read(fd, readbuf, readsize), behind readbuf bytes that are there already. */
    method FillBuffer(d: Device, readbuf: nat, readsize: nat, ghost base: nat) returns (got: int)
      requires readbuf + readsize <= buf.Length && d.pos == base + readbuf
      requires readbuf == 0 || IsWindow(buf[..readbuf], d.image, base)
      modifies d`pos, d`count, buf
      ensures got == Got(d.script, old(d.count), Behind(|d.image|, old(d.pos)), readsize) && d.count == old(d.count) + 1
      ensures d.pos == (if got > 0 then old(d.pos) + got else old(d.pos)) && (got > 0 ==> d.pos <= |d.image|)
      ensures got > 0 ==> IsWindow(buf[..readbuf + got], d.image, base)
    {
      ghost var before := buf[..readbuf];
      got := d.Read(buf, readbuf, readsize);
      if got > 0 {
        assert buf[..readbuf + got] == before + d.image[base + readbuf..base + readbuf + got];
        assert buf[..readbuf + got] == d.image[base..base + readbuf + got];
      }
    }

    /** memcpy(scanbuf, readbuf + got - overlap, overlap). */
    method CarryOver(from: nat, ghost image: seq<byte>, ghost base: nat)
      requires from + overlap <= buf.Length && IsWindow(buf[..from + overlap], image, base)
      modifies buf
      ensures IsWindow(buf[..overlap], image, base + from)
    {
      ghost var before := buf[..from + overlap];
      forall i | 0 <= i < overlap {
        buf[i] := buf[from + i];
      }
      assert buf[..overlap] == before[from..from + overlap];
      SliceOfSlice(image, base, base + from + overlap, from, from + overlap);
    }

    method ResetRanges()
      modifies this`skipRanges
      ensures AllFree(skipRanges)
    {
      for i := 0 to |skipRanges|
        invariant |skipRanges| == |old(skipRanges)|
        invariant AllFree(skipRanges[..i])
      {
        skipRanges := skipRanges[i := skipRanges[i].(begin := -1)];
      }
    }

    /** The windows ws have been scanned, and the slots say what the calls so far have closed. */
    ghost predicate Progress(m: Medium, ws: seq<Window>, start: nat, at: nat)
      reads this
    {
      Scanned(m, scanners, ws, start, at, Run(log, false)) && SlotsAgree(skipRanges, log, at) && LiveBefore(skipRanges, at)
    }

    /** Scans the window in buf[..n], whose file position is filepos, and moves the
        descriptor back behind it. */
    method ScanWindow(d: Device, ghost m: Medium, n: nat, filepos: nat, ghost ws: seq<Window>, ghost start: nat, ghost hi: nat)
      returns (ended: Option<Outcome>, ghost ws': seq<Window>)
      requires Ready() && overlap < n <= buf.Length && IsWindow(buf[..n], d.image, filepos)
      requires d.pos == filepos + n && hi == filepos + n - overlap
      requires m.image == d.image && m.extract == extractor
      requires Progress(m, ws, start, filepos)
      modifies this`log, this`skipRanges, d`pos
      ensures OneMore(ws, ws', hi) && Scanned(m, scanners, ws', start, hi, Run(log, ended == Some(ExtractFailed)))
      ensures ended.None? ==> Progress(m, ws', start, hi) && d.pos == filepos + n
      ensures ended in {None, Some(ExtractFailed), Some(SeekFailed)}
      ensures ended == Some(SeekFailed) ==> !d.seeks && log != []
    {
      var result;
      ghost var lo;
      result, lo := ScanBuf(d, m, buf[..n], n - overlap, filepos);
      ScannedOneMore(m, scanners, ws, start, Window(filepos, lo, hi), Run(old(log), false), Run(log, result == -1));
      ws' := ws + [Window(filepos, lo, hi)];
      if result == -1 {
        return Some(ExtractFailed), ws';
      } else if result == 1 {
        var seekOk: bool :| d.seeks ==> seekOk;
        if !seekOk {
          return Some(SeekFailed), ws';
        }
        d.pos := filepos + n;
      }
      return None, ws';
    }

    /** Scans the window in buf[..n] and moves its last overlap bytes to the front. */
    method ScanAndCarry(d: Device, ghost m: Medium, n: nat, filepos: nat, ghost ws: seq<Window>, ghost start: nat, ghost hi: nat)
      returns (ended: Option<Outcome>, ghost ws': seq<Window>)
      requires Ready() && overlap < n <= buf.Length && IsWindow(buf[..n], d.image, filepos)
      requires d.pos == filepos + n && hi == filepos + n - overlap
      requires m.image == d.image && m.extract == extractor
      requires Progress(m, ws, start, filepos)
      modifies this`log, this`skipRanges, d`pos, buf
      ensures OneMore(ws, ws', hi) && Scanned(m, scanners, ws', start, hi, Run(log, ended == Some(ExtractFailed)))
      ensures ended.None? ==> Progress(m, ws', start, hi) && d.pos == filepos + n && IsWindow(buf[..overlap], d.image, hi)
      ensures ended in {None, Some(ExtractFailed), Some(SeekFailed)}
      ensures ended == Some(SeekFailed) ==> !d.seeks && log != []
    {
      ended, ws' := ScanWindow(d, m, n, filepos, ws, start, hi);
      if ended.None? {
        CarryOver(n - overlap, d.image, filepos);
      }
    }

    /** The buffer begins with the readbuf bytes of the image before stop, the position. */
    ghost predicate Carried(d: Device, readbuf: nat, stop: nat)
      reads d, buf
    {
      && readbuf <= stop && readbuf <= BUFSIZE == buf.Length && d.pos == stop
      && (readbuf == 0 || IsWindow(buf[..readbuf], d.image, stop - readbuf))
    }

    /** The reads from position `at` on, with readbuf bytes carried over. */
    ghost function Upcoming(d: Device, at: nat, readbuf: nat): Reads
      requires readbuf <= BUFSIZE
      reads this`overlap, d`count
    {
      ReadLoop(d.script, d.count, Behind(|d.image|, at), BUFSIZE - readbuf, overlap)
    }

    /** The bytes that have been carried over when the windows ws have been scanned. */
    function Kept(ws: seq<Window>): nat
      reads this`overlap
    {
      if ws == [] then 0 else overlap
    }

    /** The state of the read loop at stop. */
    ghost predicate Running(d: Device, m: Medium, plan: Reads, ws: seq<Window>, start: nat, stop: nat)
      reads this, d, buf
    {
      && Carried(d, Kept(ws), stop) && (ws != [] ==> stop <= |d.image|)
      && Progress(m, ws, start, stop - Kept(ws))
      && CutByReads(ws, start, plan.entered, overlap)
      && Planned(plan, |ws|, start, stop, Upcoming(d, stop, Kept(ws)))
    }

    /** And after a read of got bytes there that enters the loop. */
    ghost predicate Filled(d: Device, m: Medium, plan: Reads, ws: seq<Window>, start: nat, stop: nat, readbuf: nat, got: nat)
      reads this, d, buf
    {
      && readbuf <= stop && overlap < got && readbuf + got <= BUFSIZE == buf.Length && d.pos == stop + got <= |d.image|
      && IsWindow(buf[..readbuf + got], d.image, stop - readbuf)
      && Progress(m, ws, start, stop - readbuf)
      && CutByReads(ws, start, plan.entered, overlap)
      && Planned(plan, |ws| + 1, start, stop + got, Upcoming(d, stop + got, overlap))
    }

    /** The loop has ended. All that was scanned is in the windows ws, which end at scanned. */
    ghost predicate Stopped(d: Device, m: Medium, plan: Reads, ws: seq<Window>, start: nat, scanned: nat, stop: nat, outcome: Outcome)
      reads this, d
    {
      && Scanned(m, scanners, ws, start, scanned, Run(log, outcome == ExtractFailed))
      && CutByReads(ws, start, plan.entered, overlap) && (ws != [] ==> scanned + overlap <= |d.image|)
      && (outcome in {Finished, ReadError} ==>
            Exhausted(plan, |ws|, start, stop, d.pos) && (outcome == ReadError <==> plan.last == -1))
      && (outcome == SeekFailed ==> !d.seeks && log != [] && ws != [])
    }

    /** The next read, which is number n. If it enters the loop the buffer holds what there
        is of the image from the window's position on. */
    method ReadPlanned(d: Device, ghost plan: Reads, readbuf: nat, readsize: nat, ghost n: nat, ghost start: nat, ghost stop: nat)
      returns (got: int)
      requires Carried(d, readbuf, stop) && readsize == BUFSIZE - readbuf
      requires Planned(plan, n, start, stop, Upcoming(d, stop, readbuf))
      modifies d`pos, d`count, buf
      ensures got <= overlap ==> Exhausted(plan, n, start, stop, d.pos) && plan.last == got
      ensures got > overlap ==> readbuf + got <= BUFSIZE && d.pos == stop + got <= |d.image|
      ensures got > overlap ==> IsWindow(buf[..readbuf + got], d.image, stop - readbuf)
      ensures got > overlap ==> Planned(plan, n + 1, start, stop + got, Upcoming(d, stop + got, overlap))
    {
      ghost var k := d.count;
      got := FillBuffer(d, readbuf, readsize, stop - readbuf);
      PlanAfterRead(d.script, k, |d.image|, stop, readsize, overlap, plan, n, start, got);
    }

    method ReadNext(d: Device, ghost m: Medium, ghost plan: Reads, readbuf: nat, readsize: nat, ghost ws: seq<Window>, ghost start: nat, ghost stop: nat)
      returns (got: int)
      requires Running(d, m, plan, ws, start, stop) && readsize == BUFSIZE - readbuf
      requires readbuf == Kept(ws)
      modifies d`pos, d`count, buf
      ensures got <= overlap ==> Stopped(d, m, plan, ws, start, stop - readbuf, stop, if got == -1 then ReadError else Finished)
      ensures got > overlap ==> Filled(d, m, plan, ws, start, stop, readbuf, got)
    {
      got := ReadPlanned(d, plan, readbuf, readsize, |ws|, start, stop);
    }

    lemma BeginRunning(d: Device, m: Medium)
      requires buf.Length == BUFSIZE && AllFree(skipRanges) && log == []
      ensures Running(d, m, d.Reading(overlap), [], d.pos, d.pos)
    {
    }

    /** Scans what the read has completed. */
    method ScanRead(d: Device, ghost m: Medium, ghost plan: Reads, got: nat, readbuf: nat, stop: nat, ghost ws: seq<Window>, ghost start: nat)
      returns (ended: Option<Outcome>, stop': nat, ghost ws': seq<Window>, ghost scanned: nat)
      requires Ready() && m.image == d.image && m.extract == extractor
      requires Filled(d, m, plan, ws, start, stop, readbuf, got)
      modifies this`log, this`skipRanges, d`pos, buf
      ensures ended.Some? ==> Stopped(d, m, plan, ws', start, scanned, stop', ended.value)
      ensures ended.None? ==> stop < stop' <= |d.image| && ws' != [] && Running(d, m, plan, ws', start, stop')
    {
      scanned := stop + got - overlap;
      ended, ws' := ScanAndCarry(d, m, readbuf + got, stop - readbuf, ws, start, scanned);
      CutOneMore(ws, ws', scanned, start, plan.entered, overlap);
      stop' := if ended.None? then stop + got else stop;
    }

    /** One turn of the read loop. */
    method ScanTurn(d: Device, ghost m: Medium, ghost plan: Reads, readbuf: nat, readsize: nat, stop: nat, ghost ws: seq<Window>, ghost start: nat)
      returns (ended: Option<Outcome>, stop': nat, ghost ws': seq<Window>, ghost scanned: nat)
      requires Ready() && m.image == d.image && m.extract == extractor
      requires Running(d, m, plan, ws, start, stop) && readsize == BUFSIZE - readbuf
      requires readbuf == Kept(ws)
      modifies this`log, this`skipRanges, d`pos, d`count, buf
      ensures ended.Some? ==> Stopped(d, m, plan, ws', start, scanned, stop', ended.value)
      ensures ended.None? ==> stop < stop' <= |d.image| && ws' != [] && Running(d, m, plan, ws', start, stop')
    {
      var got := ReadNext(d, m, plan, readbuf, readsize, ws, start, stop);
      if got > overlap {
        ended, stop', ws', scanned := ScanRead(d, m, plan, got, readbuf, stop, ws, start);
      } else {
        ended, stop', ws', scanned := Some(if got == -1 then ReadError else Finished), stop, ws, stop - readbuf;
      }
    }

    /** The read loop of scan_disk. stop is offset_before_read at the end; ws are the
        windows that were scanned and scanned is where they end. */
    method ScanLoop(d: Device, ghost m: Medium) returns (outcome: Outcome, stop: nat, ghost ws: seq<Window>, ghost scanned: nat)
      requires Ready() && buf.Length == BUFSIZE && AllFree(skipRanges)
      requires m.image == d.image && m.extract == extractor
      modifies this`log, this`skipRanges, d`pos, d`count, buf
      ensures Stopped(d, m, old(d.Reading(overlap)), ws, old(d.pos), scanned, stop, outcome)
    {
      ghost var start, plan := d.pos, d.Reading(overlap);
      var readbuf, readsize, firsttime := 0, BUFSIZE, true;
      stop, ws, log := d.pos, [], [];
      BeginRunning(d, m);
      while true
        invariant readbuf == (if firsttime then 0 else overlap) && readsize == BUFSIZE - readbuf
        invariant firsttime <==> ws == []
        invariant Running(d, m, plan, ws, start, stop)
        decreases |d.image| - stop
      {
        var ended;
        ended, stop, ws, scanned := ScanTurn(d, m, plan, readbuf, readsize, stop, ws, start);
        if ended.Some? {
          outcome := ended.value;
          return;
        }
        if firsttime {
          firsttime := false;
          readbuf := readbuf + overlap;
          readsize := readsize - overlap;
        }
      }
    }

    /** Scans a device from its current position on, starting from cleared ranges. */
    method ScanDisk(d: Device) returns (outcome: Outcome, stop: nat, ghost ws: seq<Window>, ghost scanned: nat)
      requires Ready() && buf.Length == BUFSIZE && AllFree(skipRanges)
      modifies this`log, this`skipRanges, d`pos, d`count, buf
      ensures outcome in {Finished, ReadError} ==> AllFree(skipRanges)
      ensures outcome == SeekFailed ==> !d.seeks && log != [] && ws != []
      // How far it gets, whatever the sizes of the reads: one window for each read that
      // enters the loop, and all of them unless it fails.
      ensures CutByReads(ws, old(d.pos), old(d.Reading(overlap)).entered, overlap)
      ensures outcome in {Finished, ReadError} ==> Exhausted(old(d.Reading(overlap)), |ws|, old(d.pos), stop, d.pos)
      ensures outcome in {Finished, ReadError} ==> (outcome == ReadError <==> old(d.Reading(overlap)).last == -1)
      ensures outcome in {Finished, ReadError} ==> scanned == if ws == [] then stop else stop - overlap
      ensures outcome in {Finished, ReadError} ==> stop <= d.pos <= stop + overlap
      ensures ws != [] ==> scanned + overlap <= |d.image|
      // With full reads, exactly what is left.
      ensures d.FullReads() && outcome in {Finished, ReadError} ==> outcome == Finished
      ensures d.FullReads() && outcome == Finished && old(d.pos) <= |d.image| ==>
        |d.image| - scanned == Tail(|d.image| - old(d.pos), overlap)
      // The windows are adjacent and disjoint, and the log is what scanning them gives.
      ensures Scanned(Medium(d.image, extractor), scanners, ws, old(d.pos), scanned, Run(log, outcome == ExtractFailed))
      // Whatever the scanners, offsets and read sizes: sound, and free of overlaps.
      ensures History(Medium(d.image, extractor), scanners, old(d.pos), scanned, log) && NoOverlap(log)
      ensures forall i, j | 0 <= i < j < |log| && 0 <= log[i].recipe.allowOverlap < log[i].size ::
        !(log[i].pos < log[j].pos < log[i].pos + log[i].size - log[i].recipe.allowOverlap)
      // An extraction that reports a fatal error is the last one.
      ensures FailsAtLast(Run(log, outcome == ExtractFailed))
      // And nothing is left out that a window visits.
      ensures outcome in {Finished, ReadError} ==> NothingLeftOut(Medium(d.image, extractor), scanners, ws, log)
      // One scanner that keeps up: exactly the simple pass over the whole image.
      ensures |scanners| == 1 && AllKeepUp(scanners[0], ws) ==>
        Run(log, outcome == ExtractFailed) == Greedy(Medium(d.image, extractor), scanners[0], old(d.pos), scanned, Run([], false))
      ensures |scanners| == 1 && scanners[0].offset == 0 ==> AllKeepUp(scanners[0], ws)
    {
      ghost var m := Medium(d.image, extractor);
      ghost var start, k := d.pos, d.count;
      outcome, stop, ws, scanned := ScanLoop(d, m);
      if outcome in {Finished, ReadError} {
        ResetRanges();
        WhereItEnds(d.script, k, |d.image|, start, overlap, ws, outcome, scanned, stop, d.pos);
      }
      WholeRun(m, scanners, ws, start, scanned, Run(log, outcome == ExtractFailed));
    }
  }
}
