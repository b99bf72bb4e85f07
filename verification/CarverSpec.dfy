/** What a scan of a whole image is supposed to extract, without buffers, windows or
    range slots: the reference the streaming carver of Carver.dfy is proved against. */
module CarverSpec {
  import opened Bits
  import opened Recipes
  import opened Scanners
  import opened Spacing

  /** One call of extract(): where, by which recipe, and the size it returned. */
  datatype Extraction = Extraction(pos: nat, recipe: Recipe, size: int)

  type Log = seq<Extraction>

  /** The image and the outcome of extract(), which may depend on everything that has
      happened so far. A negative outcome is a fatal error. */
  datatype Medium = Medium(image: seq<byte>, extract: (Log, nat, Recipe) -> int)

  datatype Run = Run(log: Log, failed: bool)

  /** An extraction closes the positions strictly between its start and its end, less
      the bytes that the recipe allows to overlap. */
  predicate Covers(e: Extraction, q: nat) {
    Exclusive(e) && e.pos < q < e.pos + e.size - e.recipe.allowOverlap
  }

  predicate Exclusive(e: Extraction) {
    e.recipe.allowOverlap >= 0 && e.size > e.recipe.allowOverlap
  }

  predicate Blocked(log: Log, q: nat) {
    exists i | 0 <= i < |log| :: Covers(log[i], q)
  }

  /** Tries the recipes in order at q, until one makes an exclusive extraction. */
  function TryRecipes(m: Medium, recipes: seq<Recipe>, q: nat, run: Run): Run {
    if run.failed || recipes == [] then run
    else if !AllHold(recipes[0].ops, m.image, q) then TryRecipes(m, recipes[1..], q, run)
    else
      var e := Extraction(q, recipes[0], m.extract(run.log, q, recipes[0]));
      var next := Run(run.log + [e], e.size < 0);
      if Exclusive(e) then next else TryRecipes(m, recipes[1..], q, next)
  }

  /** Considers position q: history alone decides whether it is closed. */
  function Step(m: Medium, sc: Scanner, q: nat, run: Run): Run {
    if run.failed || !Hit(sc, m.image, q) || Blocked(run.log, q) then run
    else TryRecipes(m, sc.recipes, q, run)
  }

  /** The simple left-to-right pass over the positions lo..hi of the whole image. */
  function Greedy(m: Medium, sc: Scanner, lo: nat, hi: nat, run: Run): Run
    decreases hi
  {
    if hi <= lo then run else Step(m, sc, hi - 1, Greedy(m, sc, lo, hi - 1, run))
  }

  // ---- windows ----

  /** Position q is looked at when [lo, hi) is scanned: the loop goes on after a hit at
      k only if k + 1 + offset is still short of hi. */
  predicate Visits(sc: Scanner, image: seq<byte>, lo: nat, hi: nat, q: nat) {
    lo + sc.offset < hi && forall k: nat | lo <= k < q && Hit(sc, image, k) :: k + 1 + sc.offset < hi
  }

  /** One scanner over the window [lo, hi), as far as position upto. */
  function Pass(m: Medium, sc: Scanner, lo: nat, hi: nat, upto: nat, run: Run): Run
    decreases upto
  {
    if upto <= lo then run
    else
      var before := Pass(m, sc, lo, hi, upto - 1, run);
      if Visits(sc, m.image, lo, hi, upto - 1) then Step(m, sc, upto - 1, before) else before
  }

  /** The scanners run one after another over the same window. */
  function PassAll(m: Medium, scanners: seq<Scanner>, lo: nat, hi: nat, run: Run): Run {
    if scanners == [] then run
    else
      var n := |scanners| - 1;
      Pass(m, scanners[n], lo, hi, hi, PassAll(m, scanners[..n], lo, hi, run))
  }

  /** A window of start positions; the positions start..lo were skipped without a look. */
  datatype Window = Window(start: nat, lo: nat, hi: nat)

  function RunWindows(m: Medium, scanners: seq<Scanner>, ws: seq<Window>, run: Run): Run {
    if ws == [] then run
    else
      var n := |ws| - 1;
      PassAll(m, scanners, ws[n].lo, ws[n].hi, RunWindows(m, scanners, ws[..n], run))
  }

  /** Consecutive windows meet exactly: together they are the positions from..to. */
  predicate Tiled(ws: seq<Window>, from: nat, to: nat) {
    if ws == [] then from == to
    else
      var w := ws[|ws| - 1];
      w.start <= w.lo <= w.hi && w.start < w.hi && w.hi == to && Tiled(ws[..|ws| - 1], from, w.start)
  }

  /** Only positions closed by an earlier extraction are skipped without a look. */
  predicate WellPruned(m: Medium, scanners: seq<Scanner>, ws: seq<Window>, run: Run) {
    ws == [] ||
    (var n := |ws| - 1;
     WellPruned(m, scanners, ws[..n], run)
     && forall q: nat | ws[n].start <= q < ws[n].lo :: Blocked(RunWindows(m, scanners, ws[..n], run).log, q))
  }

  // ---- logs only grow, and what is closed stays closed ----

  lemma BlockedGrows(log: Log, more: Log, q: nat)
    requires log <= more && Blocked(log, q)
    ensures Blocked(more, q)
  {
    var i :| 0 <= i < |log| && Covers(log[i], q);
    assert more[i] == log[i];
  }

  lemma {:induction false} TryRecipesGrows(m: Medium, recipes: seq<Recipe>, q: nat, run: Run)
    ensures run.log <= TryRecipes(m, recipes, q, run).log
  {
    if run.failed || recipes == [] {
    } else {
      if !AllHold(recipes[0].ops, m.image, q) {
        TryRecipesGrows(m, recipes[1..], q, run);
      } else {
        var e := Extraction(q, recipes[0], m.extract(run.log, q, recipes[0]));
        TryRecipesGrows(m, recipes[1..], q, Run(run.log + [e], e.size < 0));
      }
    }
  }

  lemma {:induction false} PassGrows(m: Medium, sc: Scanner, lo: nat, hi: nat, upto: nat, run: Run)
    ensures run.log <= Pass(m, sc, lo, hi, upto, run).log
    ensures run.failed ==> Pass(m, sc, lo, hi, upto, run) == run
    decreases upto
  {
    if upto <= lo {
    } else {
      PassGrows(m, sc, lo, hi, upto - 1, run);
      TryRecipesGrows(m, sc.recipes, upto - 1, Pass(m, sc, lo, hi, upto - 1, run));
    }
  }

  lemma {:induction false} PassAllGrows(m: Medium, scanners: seq<Scanner>, lo: nat, hi: nat, run: Run)
    ensures run.log <= PassAll(m, scanners, lo, hi, run).log
    ensures run.failed ==> PassAll(m, scanners, lo, hi, run) == run
  {
    if scanners == [] {
    } else {
      var n := |scanners| - 1;
      PassAllGrows(m, scanners[..n], lo, hi, run);
      PassGrows(m, scanners[n], lo, hi, hi, PassAll(m, scanners[..n], lo, hi, run));
    }
  }

  // ---- streaming refinement ----

  lemma {:induction false} GreedySplits(m: Medium, sc: Scanner, lo: nat, mid: nat, hi: nat, run: Run)
    requires lo <= mid <= hi
    ensures Greedy(m, sc, lo, hi, run) == Greedy(m, sc, mid, hi, Greedy(m, sc, lo, mid, run))
    decreases hi
  {
    if hi <= mid {
    } else {
      GreedySplits(m, sc, lo, mid, hi - 1, run);
    }
  }

  lemma {:induction false} GreedySkips(m: Medium, sc: Scanner, lo: nat, hi: nat, run: Run)
    requires forall q: nat | lo <= q < hi :: Blocked(run.log, q)
    ensures Greedy(m, sc, lo, hi, run) == run
    decreases hi
  {
    if hi <= lo {
    } else {
      GreedySkips(m, sc, lo, hi - 1, run);
    }
  }

  /** No hit of the window is lost to the guard of the loop. */
  ghost predicate VisitsAll(sc: Scanner, image: seq<byte>, lo: nat, hi: nat) {
    forall q: nat | lo <= q < hi && Hit(sc, image, q) :: Visits(sc, image, lo, hi, q)
  }

  /** Where the guard loses nothing the pass is the simple one. */
  lemma {:induction false} PassIsGreedy(m: Medium, sc: Scanner, lo: nat, hi: nat, upto: nat, run: Run)
    requires VisitsAll(sc, m.image, lo, hi) && upto <= hi
    ensures Pass(m, sc, lo, hi, upto, run) == Greedy(m, sc, lo, upto, run)
    decreases upto
  {
    if upto <= lo {
    } else {
      PassIsGreedy(m, sc, lo, hi, upto - 1, run);
      assert Hit(sc, m.image, upto - 1) ==> Visits(sc, m.image, lo, hi, upto - 1);
    }
  }

  /** With one scanner, scanning window by window is the simple pass over the whole image,
      wherever the windows are cut and whatever was pruned, if the guard loses no hit. */
  lemma {:induction false} StreamingRefinesGreedy(
    m: Medium, sc: Scanner, ws: seq<Window>, from: nat, to: nat, run: Run)
    requires forall i | 0 <= i < |ws| :: VisitsAll(sc, m.image, ws[i].lo, ws[i].hi)
    requires Tiled(ws, from, to) && WellPruned(m, [sc], ws, run)
    ensures from <= to
    ensures RunWindows(m, [sc], ws, run) == Greedy(m, sc, from, to, run)
  {
    if ws == [] {
    } else {
      var n := |ws| - 1;
      var w := ws[n];
      StreamingRefinesGreedy(m, sc, ws[..n], from, w.start, run);
      var before := RunWindows(m, [sc], ws[..n], run);
      assert [sc][..0] == [];
      assert PassAll(m, [sc][..0], w.lo, w.hi, before) == before;
      PassIsGreedy(m, sc, w.lo, w.hi, w.hi, before);
      GreedySkips(m, sc, w.start, w.lo, before);
      GreedySplits(m, sc, w.start, w.lo, w.hi, before);
      GreedySplits(m, sc, from, w.start, w.hi, run);
    }
  }

  /** The scanner's offset is less than the least distance of two hits, and the window is
      longer than the offset. */
  predicate KeepsUp(sc: Scanner, lo: nat, hi: nat) {
    hi <= lo || (sc.offset < Distance(sc.param) && lo + sc.offset < hi)
  }

  predicate AllKeepUp(sc: Scanner, ws: seq<Window>) {
    forall i | 0 <= i < |ws| :: KeepsUp(sc, ws[i].lo, ws[i].hi)
  }

  lemma KeepingUpLosesNothing(sc: Scanner, image: seq<byte>, lo: nat, hi: nat)
    requires sc.param.Valid() && KeepsUp(sc, lo, hi)
    ensures VisitsAll(sc, image, lo, hi)
  {
    forall k: nat, q: nat | lo <= k < q < hi && Hit(sc, image, k) && Hit(sc, image, q)
      ensures k + 1 + sc.offset < hi
    {
      HitsApart(sc, image, k, q);
    }
  }

  /** With offset 0 the guard never loses anything. */
  lemma OffsetZeroLosesNothing(sc: Scanner, image: seq<byte>, lo: nat, hi: nat)
    requires sc.offset == 0
    ensures VisitsAll(sc, image, lo, hi)
  {
  }

  /** The same windows with nothing skipped. */
  function Unpruned(ws: seq<Window>): (r: seq<Window>)
    ensures |r| == |ws|
  {
    seq(|ws|, i requires 0 <= i < |ws| => Window(ws[i].start, ws[i].start, ws[i].hi))
  }

  lemma {:induction false} PassAllUnpruned(m: Medium, scanners: seq<Scanner>, start: nat, lo: nat, hi: nat, run: Run)
    requires forall i | 0 <= i < |scanners| :: scanners[i].offset == 0
    requires start <= lo <= hi && forall q: nat | start <= q < lo :: Blocked(run.log, q)
    ensures PassAll(m, scanners, start, hi, run) == PassAll(m, scanners, lo, hi, run)
  {
    if scanners == [] {
    } else {
      var n := |scanners| - 1;
      PassAllUnpruned(m, scanners[..n], start, lo, hi, run);
      var before := PassAll(m, scanners[..n], lo, hi, run);
      PassAllGrows(m, scanners[..n], lo, hi, run);
      forall q: nat | start <= q < lo ensures Blocked(before.log, q) {
        BlockedGrows(run.log, before.log, q);
      }
      OffsetZeroLosesNothing(scanners[n], m.image, start, hi);
      OffsetZeroLosesNothing(scanners[n], m.image, lo, hi);
      PassIsGreedy(m, scanners[n], start, hi, hi, before);
      PassIsGreedy(m, scanners[n], lo, hi, hi, before);
      GreedySkips(m, scanners[n], start, lo, before);
      GreedySplits(m, scanners[n], start, lo, hi, before);
    }
  }

  /** Pruning agrees with filtering: for any number of scanners at offset 0, skipping
      the closed positions up front changes nothing. */
  lemma {:induction false} PruningIsInvisible(m: Medium, scanners: seq<Scanner>, ws: seq<Window>, from: nat, to: nat, run: Run)
    requires forall i | 0 <= i < |scanners| :: scanners[i].offset == 0
    requires Tiled(ws, from, to) && WellPruned(m, scanners, ws, run)
    ensures RunWindows(m, scanners, Unpruned(ws), run) == RunWindows(m, scanners, ws, run)
  {
    if ws == [] {
    } else {
      var n := |ws| - 1;
      PruningIsInvisible(m, scanners, ws[..n], from, ws[n].start, run);
      assert Unpruned(ws)[..n] == Unpruned(ws[..n]);
      PassAllUnpruned(m, scanners, ws[n].start, ws[n].lo, ws[n].hi, RunWindows(m, scanners, ws[..n], run));
    }
  }
}
