/** Whole runs of the carver: what is lost, what does not depend on the reads, and what the
    recipe files have to do with the extractions. */
module CarverRuns {
  import opened Bits
  import opened Recipes
  import opened Scanners
  import opened Spacing
  import opened CarverSpec
  import opened CarverTheorems
  import opened RecipeFile
  import opened Devices
  import opened Carver

  /** What ScanDisk guarantees of a run from the start of an image that did not fail. */
  ghost predicate IsRun(m: Medium, scanners: seq<Scanner>, script: nat -> int, overlap: nat,
    ws: seq<Window>, scanned: nat, log: Log)
  {
    var plan := ReadLoop(script, 0, |m.image|, BUFSIZE, overlap);
    && CutByReads(ws, 0, plan.entered, overlap) && |ws| == |plan.entered|
    && Scanned(m, scanners, ws, 0, scanned, Run(log, false))
  }

  // ---- a run that loses a hit ----

  const ANY: Recipe := Recipe("any", [], -1)
  const SECOND_IS_A: Scanner := Scanner(ScanChar(97), 1, [ANY])
  const ELEVEN_AS: seq<byte> := [97, 97, 97, 97, 97, 97, 97, 97, 97, 97, 97]

  /** Whenever the image "aaaaaaaaaaa" is scanned for an 'a' at offset 1, the overlap being
      8 as it is after such a recipe has been parsed, the hit at 2 is lost, although it is
      in the range that was scanned and the recipe holds there. */
  lemma OffsetLosesHits(m: Medium, script: nat -> int, ws: seq<Window>, scanned: nat, log: Log)
    requires m.image == ELEVEN_AS && forall before, q, r :: m.extract(before, q, r) == 0
    requires NeverShort(script) && IsRun(m, [SECOND_IS_A], script, 8, ws, scanned, log)
    ensures ScannerReady(SECOND_IS_A, 8)
    ensures 2 < scanned && Hit(SECOND_IS_A, m.image, 2) && AllHold(ANY.ops, m.image, 2)
    ensures !Handled(log, 2, SECOND_IS_A.recipes, 0)
  {
    OneRead(script, |m.image|, 8);
    assert [11][..1] == [11] && Total([11]) == 11;
    OneWindow(m, SECOND_IS_A, ws, 3, scanned, Run(log, false));
    ElevenAs(m, Run([], false));
  }

  lemma OneWindow(m: Medium, sc: Scanner, ws: seq<Window>, hi: nat, scanned: nat, run: Run)
    requires |ws| == 1 && ws[0].hi == hi && Scanned(m, [sc], ws, 0, scanned, run)
    ensures scanned == hi && run == Pass(m, sc, 0, hi, hi, Run([], false))
  {
    var w, none := ws[0], Run([], false);
    assert ws[..0] == [] && [sc][..0] == [];
    assert Tiled(ws[..0], 0, w.start);
    assert RunWindows(m, [sc], ws[..0], none) == none;
    assert forall q: nat | 0 <= q < w.lo :: Blocked(none.log, q);
    assert w.lo > 0 ==> Blocked([], 0);
    assert PassAll(m, [sc][..0], 0, hi, none) == none;
  }

  lemma OneRead(script: nat -> int, rest: nat, overlap: nat)
    requires NeverShort(script) && overlap < rest <= BUFSIZE
    ensures ReadLoop(script, 0, rest, BUFSIZE, overlap).entered == [rest]
  {
    assert script(0) >= BUFSIZE && script(1) >= BUFSIZE;
    EnteredStep(script, 0, rest, BUFSIZE, overlap);
  }

  lemma ElevenAs(m: Medium, run: Run)
    requires m.image == ELEVEN_AS && forall before, q, r :: m.extract(before, q, r) == 0
    requires run == Run([], false)
    ensures var log := Pass(m, SECOND_IS_A, 0, 3, 3, run).log;
      |log| == 2 && log[0] == Extraction(0, ANY, 0) && log[1] == Extraction(1, ANY, 0)
  {
    var sc := SECOND_IS_A;
    assert Hit(sc, m.image, 0) && Hit(sc, m.image, 1) && Hit(sc, m.image, 2);
    assert Visits(sc, m.image, 0, 3, 0) && Visits(sc, m.image, 0, 3, 1) && !Visits(sc, m.image, 0, 3, 2);
    var first := Pass(m, sc, 0, 3, 1, run);
    TryAny(m, 0, run);
    assert first == Step(m, sc, 0, run) == Run([Extraction(0, ANY, 0)], false);
    TryAny(m, 1, first);
    assert Pass(m, sc, 0, 3, 2, run) == Step(m, sc, 1, first);
  }

  lemma TryAny(m: Medium, q: nat, run: Run)
    requires forall before, p, r :: m.extract(before, p, r) == 0
    requires !run.failed
    ensures TryRecipes(m, [ANY], q, run) == Run(run.log + [Extraction(q, ANY, 0)], false)
  {
    var e := Extraction(q, ANY, 0);
    assert [ANY][1..] == [] && AllHold(ANY.ops, m.image, q);
    assert TryRecipes(m, [], q, Run(run.log + [e], false)) == Run(run.log + [e], false);
  }

  // ---- offsets, for whole runs ----

  ghost predicate VisitsEverything(sc: Scanner, image: seq<byte>, ws: seq<Window>) {
    forall i | 0 <= i < |ws| :: VisitsAll(sc, image, ws[i].lo, ws[i].hi)
  }

  /** A char or string scanner loses no hit of the scanned range in any run if and only if
      its offset is 0. */
  lemma RunLosesNothingExactlyWhen(sc: Scanner, overlap: nat)
    requires ScannerReady(sc, overlap) && !sc.param.ScanBlock? && overlap < BUFSIZE
    ensures sc.offset == 0 <==>
      forall m: Medium, script: nat -> int, ws: seq<Window>, scanned: nat, log: Log |
        IsRun(m, [sc], script, overlap, ws, scanned, log) :: VisitsEverything(sc, m.image, ws)
  {
    if sc.offset == 0 {
      forall m: Medium, script: nat -> int, ws: seq<Window>, scanned: nat, log: Log |
        IsRun(m, [sc], script, overlap, ws, scanned, log) ensures VisitsEverything(sc, m.image, ws)
      {
        forall i | 0 <= i < |ws| ensures VisitsAll(sc, m.image, ws[i].lo, ws[i].hi) {
          OffsetZeroLosesNothing(sc, m.image, ws[i].lo, ws[i].hi);
        }
      }
    } else {
      var m, script, ws, log := LosingRun(sc, overlap);
    }
  }

  /** With any other offset, a hit at the start of an image that is one byte longer than the
      overlap is lost. */
  lemma LosingRun(sc: Scanner, overlap: nat) returns (m: Medium, script: nat -> int, ws: seq<Window>, log: Log)
    requires ScannerReady(sc, overlap) && !sc.param.ScanBlock? && overlap < BUFSIZE && sc.offset > 0
    ensures NeverShort(script) && IsRun(m, [sc], script, overlap, ws, 1, log)
    ensures Hit(sc, m.image, 0) && log == [] && !VisitsEverything(sc, m.image, ws)
  {
    var image := OneHit(sc, 0, overlap + 1);
    m, script, ws, log := Medium(image, (before, q, r) => 0), k => BUFSIZE, [Window(0, 0, 1)], [];
    OneRead(script, overlap + 1, overlap);
    assert [overlap + 1][..1] == [overlap + 1] && Total([overlap + 1]) == overlap + 1;
    assert !Visits(sc, m.image, 0, 1, 0);
    OneScannerPass(m, sc, 0, 1, Run([], false));
    NextWindow(m, [sc], [], 0, 1, Run([], false));
    assert [] + [Window(0, 0, 1)] == ws;
  }

  lemma OneScannerPass(m: Medium, sc: Scanner, lo: nat, hi: nat, run: Run)
    ensures PassAll(m, [sc], lo, hi, run) == Pass(m, sc, lo, hi, hi, run)
  {
    assert [sc][..0] == [];
    assert PassAll(m, [sc][..0], lo, hi, run) == run;
  }

  /** One more window with nothing pruned. */
  lemma NextWindow(m: Medium, scanners: seq<Scanner>, ws: seq<Window>, lo: nat, hi: nat, run: Run)
    requires lo < hi && (if ws == [] then lo == 0 && run == Run([], false) else Scanned(m, scanners, ws, 0, lo, run))
    ensures Scanned(m, scanners, ws + [Window(lo, lo, hi)], 0, hi, PassAll(m, scanners, lo, hi, run))
  {
    ScannedOneMore(m, scanners, ws, 0, Window(lo, lo, hi), run, PassAll(m, scanners, lo, hi, run));
  }

  // ---- several scanners: where the windows are cut can matter ----

  const EXCLUSIVE: Recipe := Recipe("exclusive", [], 0)
  const FINDS_A: Scanner := Scanner(ScanChar(97), 0, [ANY])
  const FINDS_B: Scanner := Scanner(ScanChar(98), 0, [EXCLUSIVE])
  const B_THEN_A: seq<byte> := [98, 97, 0, 0, 0, 0, 0, 0, 0, 0, 0, 0, 0, 0, 0, 0, 0, 0]

  /** "ba" and sixteen noughts, scanned for 'a' and, after that, for 'b', of which the latter
      makes a file of ten bytes: a single read of 18 bytes extracts both, two reads of nine
      only the 'b', which by then has closed the place of the 'a'. */
  lemma CutsMatter(m: Medium)
    requires m.image == B_THEN_A
    requires forall before, q, r :: m.extract(before, q, r) == if r == EXCLUSIVE then 10 else 0
    ensures ScannerReady(FINDS_A, 8) && ScannerReady(FINDS_B, 8)
    ensures IsRun(m, [FINDS_A, FINDS_B], k => 18, 8, [Window(0, 0, 10)], 10,
      [Extraction(1, ANY, 0), Extraction(0, EXCLUSIVE, 10)])
    ensures IsRun(m, [FINDS_A, FINDS_B], k => 9, 8, [Window(0, 0, 1), Window(1, 10, 10)], 10,
      [Extraction(0, EXCLUSIVE, 10)])
  {
    OneCut(m);
    TwoCuts(m);
  }

  lemma OneCut(m: Medium)
    requires m.image == B_THEN_A
    requires forall before, q, r :: m.extract(before, q, r) == if r == EXCLUSIVE then 10 else 0
    ensures IsRun(m, [FINDS_A, FINDS_B], k => 18, 8, [Window(0, 0, 10)], 10,
      [Extraction(1, ANY, 0), Extraction(0, EXCLUSIVE, 10)])
  {
    ReadsOfEighteen();
    var none := Run([], false);
    PassFirstA(m, 0, 10, none);
    var both := Run([Extraction(1, ANY, 0), Extraction(0, EXCLUSIVE, 10)], false);
    PassFirstB(m, 10, Run([Extraction(1, ANY, 0)], false));
    TwoScannersPass(m, 0, 10, none);
    assert [Extraction(1, ANY, 0)] + [Extraction(0, EXCLUSIVE, 10)] == both.log;
    NextWindow(m, [FINDS_A, FINDS_B], [], 0, 10, none);
    assert [] + [Window(0, 0, 10)] == [Window(0, 0, 10)];
  }

  lemma TwoCuts(m: Medium)
    requires m.image == B_THEN_A
    requires forall before, q, r :: m.extract(before, q, r) == if r == EXCLUSIVE then 10 else 0
    ensures IsRun(m, [FINDS_A, FINDS_B], k => 9, 8, [Window(0, 0, 1), Window(1, 10, 10)], 10,
      [Extraction(0, EXCLUSIVE, 10)])
  {
    ReadsOfNine();
    var none, one := Run([], false), Run([Extraction(0, EXCLUSIVE, 10)], false);
    var scanners, first := [FINDS_A, FINDS_B], [Window(0, 0, 1)];
    NoHitNoChange(m, FINDS_A, 0, 1, none);
    PassFirstB(m, 1, none);
    TwoScannersPass(m, 0, 1, none);
    NextWindow(m, scanners, [], 0, 1, none);
    assert [] + first == first;
    assert [] + [Extraction(0, EXCLUSIVE, 10)] == one.log;
    assert Scanned(m, scanners, first, 0, 1, one);
    forall q: nat | 1 <= q < 10 ensures Blocked(one.log, q) {
      assert Covers(one.log[0], q);
    }
    PassAllEmpty(m, scanners, 10, one);
    ScannedOneMore(m, scanners, first, 0, Window(1, 10, 10), one, one);
    assert first + [Window(1, 10, 10)] == [Window(0, 0, 1), Window(1, 10, 10)];
  }

  lemma ReadsOfEighteen()
    ensures CutByReads([Window(0, 0, 10)], 0, ReadLoop(k => 18, 0, 18, BUFSIZE, 8).entered, 8)
    ensures |ReadLoop(k => 18, 0, 18, BUFSIZE, 8).entered| == 1
  {
    var script := (k: nat) => 18;
    EnteredStep(script, 0, 18, BUFSIZE, 8);
    EnteredStep(script, 1, 0, BUFSIZE - 8, 8);
    assert ReadLoop(script, 0, 18, BUFSIZE, 8).entered == [18];
    assert [18][..1] == [18] && Total([18]) == 18;
  }

  lemma ReadsOfNine()
    ensures CutByReads([Window(0, 0, 1), Window(1, 10, 10)], 0, ReadLoop(k => 9, 0, 18, BUFSIZE, 8).entered, 8)
    ensures |ReadLoop(k => 9, 0, 18, BUFSIZE, 8).entered| == 2
  {
    var script := (k: nat) => 9;
    EnteredStep(script, 0, 18, BUFSIZE, 8);
    EnteredStep(script, 1, 9, BUFSIZE - 8, 8);
    EnteredStep(script, 2, 0, BUFSIZE - 8, 8);
    var sizes := ReadLoop(script, 0, 18, BUFSIZE, 8).entered;
    assert sizes == [9] + ([9] + []) == [9, 9];
    TotalOneMore(sizes, 0);
    TotalOneMore(sizes, 1);
    assert Total(sizes[..0]) == 0 && Total(sizes[..1]) == 9 && Total(sizes[..2]) == 18;
  }

  lemma TwoScannersPass(m: Medium, lo: nat, hi: nat, run: Run)
    ensures PassAll(m, [FINDS_A, FINDS_B], lo, hi, run) == Pass(m, FINDS_B, lo, hi, hi, Pass(m, FINDS_A, lo, hi, hi, run))
  {
    assert [FINDS_A, FINDS_B][..1] == [FINDS_A];
    OneScannerPass(m, FINDS_A, lo, hi, run);
  }

  lemma NoHitNoChange(m: Medium, sc: Scanner, lo: nat, hi: nat, run: Run)
    requires lo <= hi && NoHits(sc, m.image, lo, hi)
    ensures Pass(m, sc, lo, hi, hi, run) == run
  {
    PassSkips(m, sc, lo, hi, lo, hi, run);
  }

  /** A pass in which the only hit is at q. */
  lemma OneHitPass(m: Medium, sc: Scanner, lo: nat, hi: nat, q: nat, run: Run)
    requires sc.offset == 0 && lo <= q < hi && Hit(sc, m.image, q)
    requires NoHits(sc, m.image, lo, q) && NoHits(sc, m.image, q + 1, hi)
    ensures Pass(m, sc, lo, hi, hi, run) == Step(m, sc, q, run)
  {
    PassSkips(m, sc, lo, hi, lo, q, run);
    assert Visits(sc, m.image, lo, hi, q);
    PassSkips(m, sc, lo, hi, q + 1, hi, run);
  }

  lemma PassFirstA(m: Medium, lo: nat, hi: nat, run: Run)
    requires m.image == B_THEN_A && lo <= 1 < hi && run == Run([], false)
    requires forall before, q, r :: m.extract(before, q, r) == if r == EXCLUSIVE then 10 else 0
    ensures Pass(m, FINDS_A, lo, hi, hi, run) == Run([Extraction(1, ANY, 0)], false)
  {
    OneHitPass(m, FINDS_A, lo, hi, 1, run);
    OnlyRecipe(m, ANY, 1, run);
  }

  lemma PassFirstB(m: Medium, hi: nat, run: Run)
    requires m.image == B_THEN_A && 0 < hi && !run.failed && !Blocked(run.log, 0)
    requires forall before, q, r :: m.extract(before, q, r) == if r == EXCLUSIVE then 10 else 0
    ensures Pass(m, FINDS_B, 0, hi, hi, run) == Run(run.log + [Extraction(0, EXCLUSIVE, 10)], false)
  {
    OneHitPass(m, FINDS_B, 0, hi, 0, run);
    OnlyRecipe(m, EXCLUSIVE, 0, run);
  }

  lemma OnlyRecipe(m: Medium, r: Recipe, q: nat, run: Run)
    requires r.ops == [] && !run.failed && m.extract(run.log, q, r) >= 0
    ensures TryRecipes(m, [r], q, run) == Run(run.log + [Extraction(q, r, m.extract(run.log, q, r))], false)
  {
    var next := Run(run.log + [Extraction(q, r, m.extract(run.log, q, r))], false);
    assert [r][1..] == [] && AllHold(r.ops, m.image, q);
    assert TryRecipes(m, [], q, next) == next;
  }

  // ---- several scanners: if no recipe is exclusive nothing depends on the cuts ----

  predicate NonExclusive(scanners: seq<Scanner>) {
    forall i | 0 <= i < |scanners| :: forall j | 0 <= j < |scanners[i].recipes| :: scanners[i].recipes[j].allowOverlap < 0
  }

  ghost predicate NeverFails(m: Medium) {
    forall before, q, r :: m.extract(before, q, r) >= 0
  }

  lemma {:induction false} TryRecipesSucceeds(m: Medium, recipes: seq<Recipe>, q: nat, run: Run)
    requires NeverFails(m) && !run.failed
    ensures !TryRecipes(m, recipes, q, run).failed
  {
    if recipes == [] {
    } else if !AllHold(recipes[0].ops, m.image, q) {
      TryRecipesSucceeds(m, recipes[1..], q, run);
    } else {
      var e := Extraction(q, recipes[0], m.extract(run.log, q, recipes[0]));
      TryRecipesSucceeds(m, recipes[1..], q, Run(run.log + [e], false));
    }
  }

  lemma {:induction false} PassSucceeds(m: Medium, sc: Scanner, lo: nat, hi: nat, upto: nat, run: Run)
    requires NeverFails(m) && !run.failed
    ensures !Pass(m, sc, lo, hi, upto, run).failed
    decreases upto
  {
    if upto <= lo {
    } else {
      PassSucceeds(m, sc, lo, hi, upto - 1, run);
      TryRecipesSucceeds(m, sc.recipes, upto - 1, Pass(m, sc, lo, hi, upto - 1, run));
    }
  }

  lemma {:induction false} PassAllSucceeds(m: Medium, scanners: seq<Scanner>, lo: nat, hi: nat, run: Run)
    requires NeverFails(m) && !run.failed
    ensures !PassAll(m, scanners, lo, hi, run).failed
  {
    if scanners == [] {
    } else {
      var n := |scanners| - 1;
      PassAllSucceeds(m, scanners[..n], lo, hi, run);
      PassSucceeds(m, scanners[n], lo, hi, hi, PassAll(m, scanners[..n], lo, hi, run));
    }
  }

  lemma {:induction false} RunSucceeds(m: Medium, scanners: seq<Scanner>, ws: seq<Window>)
    requires NeverFails(m)
    ensures !RunWindows(m, scanners, ws, Run([], false)).failed
  {
    if ws == [] {
    } else {
      var n := |ws| - 1;
      RunSucceeds(m, scanners, ws[..n]);
      PassAllSucceeds(m, scanners, ws[n].lo, ws[n].hi, RunWindows(m, scanners, ws[..n], Run([], false)));
    }
  }

  lemma NothingClosed(m: Medium, scanners: seq<Scanner>, ws: seq<Window>, from: nat, to: nat)
    requires NonExclusive(scanners) && Tiled(ws, from, to)
    ensures ClosesNothing(RunWindows(m, scanners, ws, Run([], false)).log)
  {
    var log := RunWindows(m, scanners, ws, Run([], false)).log;
    RunHistory(m, scanners, ws, from, to);
    forall i | 0 <= i < |log| ensures !Exclusive(log[i]) {
      assert Justified(m, scanners, from, to, log, i);
    }
  }

  predicate ClosesNothing(log: Log) {
    forall i | 0 <= i < |log| :: !Exclusive(log[i])
  }

  /** So nothing is pruned. */
  lemma {:induction false} NothingPruned(m: Medium, scanners: seq<Scanner>, ws: seq<Window>, from: nat, to: nat)
    requires NonExclusive(scanners) && Tiled(ws, from, to) && WellPruned(m, scanners, ws, Run([], false))
    ensures forall i | 0 <= i < |ws| :: ws[i].lo == ws[i].start
  {
    if ws == [] {
    } else {
      var n := |ws| - 1;
      var w := ws[n];
      NothingPruned(m, scanners, ws[..n], from, w.start);
      NothingClosed(m, scanners, ws[..n], from, w.start);
      var log := RunWindows(m, scanners, ws[..n], Run([], false)).log;
      assert !Blocked(log, w.start);
      assert w.lo == w.start;
      forall i | 0 <= i < |ws| ensures ws[i].lo == ws[i].start {
        assert i < n ==> ws[..n][i] == ws[i];
      }
    }
  }

  lemma {:induction false} WindowOf(ws: seq<Window>, from: nat, to: nat, q: nat) returns (i: nat)
    requires Tiled(ws, from, to) && from <= q < to
    ensures i < |ws| && ws[i].start <= q < ws[i].hi
  {
    var n := |ws| - 1;
    if ws[n].start <= q {
      i := n;
    } else {
      i := WindowOf(ws[..n], from, ws[n].start, q);
    }
  }

  ghost predicate Extracted(log: Log, q: nat, r: Recipe) {
    exists i | 0 <= i < |log| :: log[i].pos == q && log[i].recipe == r
  }

  /** A scanner with the recipe stops there, and the recipe holds. */
  ghost predicate Called(m: Medium, scanners: seq<Scanner>, q: nat, r: Recipe) {
    AllHold(r.ops, m.image, q) && exists sc :: sc in scanners && Hit(sc, m.image, q) && r in sc.recipes
  }

  /** If no recipe is exclusive, no extraction fails and no scanner loses a hit, what is
      extracted from a range is the same wherever the windows are cut. */
  lemma ExtractedExactlyWhen(m: Medium, scanners: seq<Scanner>, ws: seq<Window>, from: nat, to: nat, q: nat, r: Recipe)
    requires NonExclusive(scanners) && NeverFails(m)
    requires Tiled(ws, from, to) && WellPruned(m, scanners, ws, Run([], false))
    requires forall sc | sc in scanners :: VisitsEverything(sc, m.image, ws)
    ensures Extracted(RunWindows(m, scanners, ws, Run([], false)).log, q, r) <==>
      from <= q < to && Called(m, scanners, q, r)
  {
    var log := RunWindows(m, scanners, ws, Run([], false)).log;
    RunHistory(m, scanners, ws, from, to);
    if i :| 0 <= i < |log| && log[i].pos == q && log[i].recipe == r {
      assert Justified(m, scanners, from, to, log, i);
    }
    if from <= q < to && Called(m, scanners, q, r) {
      CalledIsExtracted(m, scanners, ws, from, to, q, r);
    }
  }

  lemma CalledIsExtracted(m: Medium, scanners: seq<Scanner>, ws: seq<Window>, from: nat, to: nat, q: nat, r: Recipe)
    requires NonExclusive(scanners) && NeverFails(m)
    requires Tiled(ws, from, to) && WellPruned(m, scanners, ws, Run([], false))
    requires forall sc | sc in scanners :: VisitsEverything(sc, m.image, ws)
    requires from <= q < to && Called(m, scanners, q, r)
    ensures Extracted(RunWindows(m, scanners, ws, Run([], false)).log, q, r)
  {
    var log := RunWindows(m, scanners, ws, Run([], false)).log;
    var sc :| sc in scanners && Hit(sc, m.image, q) && r in sc.recipes;
    var s :| 0 <= s < |scanners| && scanners[s] == sc;
    var j :| 0 <= j < |sc.recipes| && sc.recipes[j] == r;
    NothingPruned(m, scanners, ws, from, to);
    var i := WindowOf(ws, from, to, q);
    assert VisitsAll(sc, m.image, ws[i].lo, ws[i].hi);
    RunSucceeds(m, scanners, ws);
    RunHandles(m, scanners, ws, i, s, q, j);
    NothingClosed(m, scanners, ws, from, to);
    assert Served(log, q, sc.recipes, j);
  }

  // ---- ranges that an earlier device left behind ----

  /** If every range in use begins before the window, one that reaches beyond its end closes
      all of it, so that it is right to skip it. */
  lemma SkippedIsClosed(ranges: seq<Range>, filepos: nat, end: nat)
    requires LiveBefore(ranges, filepos) && ReachBeyond(ranges, end)
    ensures forall q: nat | filepos <= q < end :: SlotBlocked(ranges, q)
  {
    var i :| 0 <= i < |ranges| && IsLive(ranges[i]) && ranges[i].end > end;
    forall q: nat | filepos <= q < end ensures SlotBlocked(ranges, q) {
      assert SlotHolds(ranges[i], q);
    }
  }

  /** But a range from 100 to 200, left behind by a device whose scan failed, makes
      PruneRanges skip the first 50 positions of the next one, none of which it closes. */
  lemma StaleRangeHidesWindow(ranges: seq<Range>)
    requires ranges == [Range(100, 200)]
    ensures !AllFree(ranges) && ReachBeyond(ranges, 50) && forall q: nat | q < 50 :: !SlotBlocked(ranges, q)
  {
    assert IsLive(ranges[0]) && ranges[0].end > 50;
  }

  // ---- recipe files ----

  /** A recipe file, and the scanner that is forced on it. */
  datatype Source = Source(name: string, lines: seq<Line>, global: Option<Scanner>)

  ghost predicate ComesFrom(src: Source, sc: Scanner, r: Recipe) {
    SameMeaning(src.global, src.lines, Some(sc), r.ops) && r.allowOverlap == AllowOverlap(src.lines)
  }

  /** Every recipe of every scanner comes from one of the files. */
  ghost predicate AllComeFrom(scanners: seq<Scanner>, sources: seq<Source>) {
    forall s | 0 <= s < |scanners| :: forall r | r in scanners[s].recipes :: OneComesFrom(scanners[s], r, sources)
  }

  ghost predicate OneComesFrom(sc: Scanner, r: Recipe, sources: seq<Source>) {
    exists k | 0 <= k < |sources| :: ComesFrom(sources[k], sc, r)
  }

  lemma ComesFromOther(src: Source, sc: Scanner, other: Scanner, r: Recipe)
    requires ComesFrom(src, sc, r) && ScannerEqual(sc, other)
    ensures ComesFrom(src, other, r)
  {
    SameScannerSameMeaning(src.global, src.lines, sc, other, r.ops);
  }

  lemma StillComesFrom(sc: Scanner, other: Scanner, r: Recipe, sources: seq<Source>, src: Source)
    requires OneComesFrom(sc, r, sources) && ScannerEqual(sc, other)
    ensures OneComesFrom(other, r, sources + [src])
  {
    var k :| 0 <= k < |sources| && ComesFrom(sources[k], sc, r);
    ComesFromOther(sources[k], sc, other, r);
    assert (sources + [src])[k] == sources[k];
  }

  /** What earlier files mean survives the installation of another one. */
  lemma OneMoreFile(before: seq<Scanner>, after: seq<Scanner>, at: nat, r: Recipe, sources: seq<Source>, src: Source)
    requires AllComeFrom(before, sources)
    requires at < |after| && Installed(before, after, at, r) && ComesFrom(src, after[at], r)
    ensures AllComeFrom(after, sources + [src])
  {
    forall s, r' | 0 <= s < |after| && r' in after[s].recipes ensures OneComesFrom(after[s], r', sources + [src]) {
      assert s < at == |before| ==> after[..at][s] == after[s];
      if s < |before| && r' in before[s].recipes {
        StillComesFrom(before[s], after[s], r', sources, src);
      } else {
        assert s == at && r' == r && (sources + [src])[|sources|] == src;
      }
    }
  }

  /** The options -r: parses the recipe files one by one, up to the first that is invalid. */
  method LoadRecipes(program: MagicRescue, sources: seq<Source>) returns (ok: bool)
    requires program.scanners == [] && program.overlap == 0
    requires forall k | 0 <= k < |sources| && sources[k].global.Some? :: IsBlockScanner(sources[k].global.value)
    modifies program`scanners, program`overlap
    ensures ok <==> forall k | 0 <= k < |sources| :: Acceptable(sources[k].lines, sources[k].global.Some?)
    ensures ok ==> program.Ready() && AllComeFrom(program.scanners, sources) && program.overlap % 8 == 0
  {
    for k := 0 to |sources|
      invariant program.Ready() && AllComeFrom(program.scanners, sources[..k]) && program.overlap % 8 == 0
      invariant forall i | 0 <= i < k :: Acceptable(sources[i].lines, sources[i].global.Some?)
    {
      var src, before := sources[k], program.scanners;
      var at, r;
      ok, at, r := program.ParseRecipe(src.name, src.lines, src.global);
      if !ok {
        return;
      }
      OneMoreFile(before, program.scanners, at, r, sources[..k], src);
      assert sources[..k] + [src] == sources[..k + 1];
    }
    assert sources[..|sources|] == sources;
    ok := true;
  }

  /** What the option -b makes. */
  ghost predicate IsBlockScanner(sc: Scanner) {
    sc.param.ScanBlock? && sc.param.Valid() && sc.offset == 0 && sc.recipes == []
  }

  /** Every extraction of a run lies where all the lines of a recipe file hold, and where the
      forced scanner stops, if there is one; and the recipe allows the overlap that the
      file does. */
  lemma ExtractionsFollowFiles(m: Medium, scanners: seq<Scanner>, sources: seq<Source>, from: nat, to: nat, log: Log, i: nat)
    returns (k: nat)
    requires History(m, scanners, from, to, log) && i < |log| && AllComeFrom(scanners, sources)
    ensures k < |sources| && LinesHold(sources[k].lines, m.image, log[i].pos)
    ensures MaybeHit(sources[k].global, m.image, log[i].pos)
    ensures log[i].recipe.allowOverlap == AllowOverlap(sources[k].lines)
  {
    var e := log[i];
    assert Justified(m, scanners, from, to, log, i);
    var sc :| sc in scanners && Hit(sc, m.image, e.pos) && e.recipe in sc.recipes;
    var s :| 0 <= s < |scanners| && scanners[s] == sc;
    assert OneComesFrom(scanners[s], e.recipe, sources);
    k :| 0 <= k < |sources| && ComesFrom(sources[k], sc, e.recipe);
    assert MaybeHit(Some(sc), m.image, e.pos);
  }
}
