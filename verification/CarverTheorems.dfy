/** What the log of a run says about the image: every extraction is justified, no
    later extraction starts inside an earlier exclusive one, and nothing that was
    looked at is missing. */
module CarverTheorems {
  import opened Bits
  import opened Recipes
  import opened Scanners
  import opened Spacing
  import opened CarverSpec

  /** Entry i of the log: a scanner stopped there, all operations of the recipe held, the
      outcome is the one the extractor gave at that moment, and no earlier extraction of
      the run had closed the position. */
  ghost predicate Justified(m: Medium, scanners: seq<Scanner>, from: nat, to: nat, log: Log, i: nat)
    requires i < |log|
  {
    var e := log[i];
    && from <= e.pos < to
    && AllHold(e.recipe.ops, m.image, e.pos)
    && e.size == m.extract(log[..i], e.pos, e.recipe)
    && !Blocked(log[..i], e.pos)
    && exists sc :: sc in scanners && Hit(sc, m.image, e.pos) && e.recipe in sc.recipes
  }

  ghost predicate History(m: Medium, scanners: seq<Scanner>, from: nat, to: nat, log: Log) {
    forall i | 0 <= i < |log| :: Justified(m, scanners, from, to, log, i)
  }

  /** If an extraction at b returned n > allow_overlap >= 0, no later one starts at a q
      with b < q < b + n - allow_overlap. */
  ghost predicate NoOverlap(log: Log) {
    forall i, j | 0 <= i < j < |log| :: !Covers(log[i], log[j].pos)
  }

  lemma HistoryHasNoOverlap(m: Medium, scanners: seq<Scanner>, from: nat, to: nat, log: Log)
    requires History(m, scanners, from, to, log)
    ensures NoOverlap(log)
  {
    forall i, j | 0 <= i < j < |log| ensures !Covers(log[i], log[j].pos) {
      assert Justified(m, scanners, from, to, log, j);
      assert log[..j][i] == log[i];
    }
  }

  lemma HistoryExtends(m: Medium, scanners: seq<Scanner>, from: nat, to: nat, log: Log, e: Extraction)
    requires History(m, scanners, from, to, log)
    requires Justified(m, scanners, from, to, log + [e], |log|)
    ensures History(m, scanners, from, to, log + [e])
  {
    forall i | 0 <= i < |log| ensures Justified(m, scanners, from, to, log + [e], i) {
      assert Justified(m, scanners, from, to, log, i);
      assert (log + [e])[..i] == log[..i];
    }
  }

  lemma {:induction false} TryRecipesHistory(
    m: Medium, scanners: seq<Scanner>, sc: Scanner, recipes: seq<Recipe>, from: nat, to: nat, q: nat, run: Run)
    requires sc in scanners && Hit(sc, m.image, q) && from <= q < to
    requires forall r | r in recipes :: r in sc.recipes
    requires History(m, scanners, from, to, run.log) && !Blocked(run.log, q)
    ensures History(m, scanners, from, to, TryRecipes(m, recipes, q, run).log)
  {
    if run.failed || recipes == [] {
    } else {
      var r := recipes[0];
      if !AllHold(r.ops, m.image, q) {
        TryRecipesHistory(m, scanners, sc, recipes[1..], from, to, q, run);
      } else {
        var e := Extraction(q, r, m.extract(run.log, q, r));
        var log := run.log + [e];
        assert log[..|run.log|] == run.log;
        assert r in recipes;
        HistoryExtends(m, scanners, from, to, run.log, e);
        assert !Blocked(log, q) by {
          assert forall i | 0 <= i < |log| :: log[i] == (if i < |run.log| then run.log[i] else e);
        }
        TryRecipesHistory(m, scanners, sc, recipes[1..], from, to, q, Run(log, e.size < 0));
      }
    }
  }

  lemma {:induction false} PassHistory(
    m: Medium, scanners: seq<Scanner>, sc: Scanner, from: nat, lo: nat, hi: nat, upto: nat, run: Run)
    requires sc in scanners && from <= lo && upto <= hi
    requires History(m, scanners, from, hi, run.log)
    ensures History(m, scanners, from, hi, Pass(m, sc, lo, hi, upto, run).log)
    decreases upto
  {
    if upto <= lo {
    } else {
      PassHistory(m, scanners, sc, from, lo, hi, upto - 1, run);
      var before := Pass(m, sc, lo, hi, upto - 1, run);
      if Hit(sc, m.image, upto - 1) && !Blocked(before.log, upto - 1) {
        TryRecipesHistory(m, scanners, sc, sc.recipes, from, hi, upto - 1, before);
      }
    }
  }

  lemma {:induction false} PassAllHistory(
    m: Medium, all: seq<Scanner>, scanners: seq<Scanner>, from: nat, lo: nat, hi: nat, run: Run)
    requires scanners <= all && from <= lo
    requires History(m, all, from, hi, run.log)
    ensures History(m, all, from, hi, PassAll(m, scanners, lo, hi, run).log)
  {
    if scanners == [] {
    } else {
      var n := |scanners| - 1;
      PassAllHistory(m, all, scanners[..n], from, lo, hi, run);
      assert scanners[n] == all[n];
      PassHistory(m, all, scanners[n], from, lo, hi, hi, PassAll(m, scanners[..n], lo, hi, run));
    }
  }

  lemma HistoryWidens(m: Medium, scanners: seq<Scanner>, from: nat, to: nat, to': nat, log: Log)
    requires History(m, scanners, from, to, log) && to <= to'
    ensures History(m, scanners, from, to', log)
  {
    forall i | 0 <= i < |log| ensures Justified(m, scanners, from, to', log, i) {
      assert Justified(m, scanners, from, to, log, i);
    }
  }

  /** Anti-overlap and soundness over a whole run: any scanners, offsets and windows. */
  lemma {:induction false} RunHistory(m: Medium, scanners: seq<Scanner>, ws: seq<Window>, from: nat, to: nat)
    requires Tiled(ws, from, to)
    ensures from <= to
    ensures History(m, scanners, from, to, RunWindows(m, scanners, ws, Run([], false)).log)
    ensures NoOverlap(RunWindows(m, scanners, ws, Run([], false)).log)
  {
    if ws == [] {
    } else {
      var n := |ws| - 1;
      var w := ws[n];
      RunHistory(m, scanners, ws[..n], from, w.start);
      var before := RunWindows(m, scanners, ws[..n], Run([], false));
      HistoryWidens(m, scanners, from, w.start, w.hi, before.log);
      PassAllHistory(m, scanners, scanners, from, w.lo, w.hi, before);
    }
    HistoryHasNoOverlap(m, scanners, from, to, RunWindows(m, scanners, ws, Run([], false)).log);
  }

  /** In numbers: no later extraction begins after the beginning of an earlier one and before
      its end less the bytes that may overlap. */
  lemma RunHasNoOverlap(m: Medium, scanners: seq<Scanner>, ws: seq<Window>, from: nat, to: nat)
    requires Tiled(ws, from, to)
    ensures var log := RunWindows(m, scanners, ws, Run([], false)).log;
      forall i, j | 0 <= i < j < |log| && 0 <= log[i].recipe.allowOverlap < log[i].size ::
        !(log[i].pos < log[j].pos < log[i].pos + log[i].size - log[i].recipe.allowOverlap)
  {
    RunHistory(m, scanners, ws, from, to);
    var log := RunWindows(m, scanners, ws, Run([], false)).log;
    forall i, j | 0 <= i < j < |log| ensures !Covers(log[i], log[j].pos) {
    }
  }

  // ---- completeness ----

  /** Recipe j was applied at q, or an earlier one made an exclusive extraction there. */
  predicate Served(log: Log, q: nat, recipes: seq<Recipe>, j: nat)
    requires j < |recipes|
  {
    exists i | 0 <= i < |log| :: log[i].pos == q && ServedBy(log[i], recipes, j)
  }

  predicate ServedBy(e: Extraction, recipes: seq<Recipe>, j: nat)
    requires j < |recipes|
  {
    e.recipe == recipes[j] || (Exclusive(e) && e.recipe in recipes[..j])
  }

  lemma ServedGrows(log: Log, more: Log, q: nat, recipes: seq<Recipe>, j: nat)
    requires j < |recipes| && log <= more && Served(log, q, recipes, j)
    ensures Served(more, q, recipes, j)
  {
    var i :| 0 <= i < |log| && log[i].pos == q && ServedBy(log[i], recipes, j);
    assert more[i] == log[i];
  }

  lemma {:induction false} TryRecipesServes(m: Medium, recipes: seq<Recipe>, q: nat, run: Run, j: nat)
    requires j < |recipes| && AllHold(recipes[j].ops, m.image, q)
    requires !TryRecipes(m, recipes, q, run).failed
    ensures Served(TryRecipes(m, recipes, q, run).log, q, recipes, j)
    decreases |recipes|
  {
    var done := TryRecipes(m, recipes, q, run);
    TryRecipesFailed(m, recipes, q, run);
    if !AllHold(recipes[0].ops, m.image, q) {
      TryRecipesServes(m, recipes[1..], q, run, j - 1);
      ServedByTail(done.log, q, recipes, j);
    } else {
      var e := Extraction(q, recipes[0], m.extract(run.log, q, recipes[0]));
      var next := Run(run.log + [e], e.size < 0);
      if Exclusive(e) || j == 0 {
        TryRecipesGrows(m, recipes[1..], q, next);
        assert next.log[|run.log|] == e && ServedBy(e, recipes, j) by {
          if j > 0 {
            assert recipes[..j][0] == recipes[0];
          }
        }
        assert Served(next.log, q, recipes, j);
        ServedGrows(next.log, done.log, q, recipes, j);
      } else {
        TryRecipesServes(m, recipes[1..], q, next, j - 1);
        ServedByTail(done.log, q, recipes, j);
      }
    }
  }

  lemma TryRecipesFailed(m: Medium, recipes: seq<Recipe>, q: nat, run: Run)
    ensures run.failed ==> TryRecipes(m, recipes, q, run) == run
  {
  }

  lemma ServedByTail(log: Log, q: nat, recipes: seq<Recipe>, j: nat)
    requires 0 < j < |recipes| && Served(log, q, recipes[1..], j - 1)
    ensures Served(log, q, recipes, j)
  {
    var i :| 0 <= i < |log| && log[i].pos == q && ServedBy(log[i], recipes[1..], j - 1);
    assert recipes[1..][..j - 1] == recipes[1..j];
    assert ServedBy(log[i], recipes, j) by {
      if log[i].recipe in recipes[1..j] {
        var k :| 0 <= k < j - 1 && recipes[1..j][k] == log[i].recipe;
        assert recipes[..j][k + 1] == log[i].recipe;
      }
    }
  }

  predicate Handled(log: Log, q: nat, recipes: seq<Recipe>, j: nat)
    requires j < |recipes|
  {
    Blocked(log, q) || Served(log, q, recipes, j)
  }

  lemma HandledGrows(log: Log, more: Log, q: nat, recipes: seq<Recipe>, j: nat)
    requires j < |recipes| && log <= more && Handled(log, q, recipes, j)
    ensures Handled(more, q, recipes, j)
  {
    if Blocked(log, q) {
      BlockedGrows(log, more, q);
    } else {
      ServedGrows(log, more, q, recipes, j);
    }
  }

  lemma StepServes(m: Medium, sc: Scanner, q: nat, run: Run, j: nat)
    requires Hit(sc, m.image, q) && j < |sc.recipes| && AllHold(sc.recipes[j].ops, m.image, q)
    requires !Step(m, sc, q, run).failed
    ensures Handled(Step(m, sc, q, run).log, q, sc.recipes, j)
  {
    if !run.failed && !Blocked(run.log, q) {
      TryRecipesServes(m, sc.recipes, q, run, j);
    }
  }

  /** Every hit that the loop visits was closed by an extraction or is served. */
  lemma {:induction false} PassComplete(
    m: Medium, sc: Scanner, lo: nat, hi: nat, upto: nat, run: Run, q: nat, j: nat)
    requires lo <= q < upto && Hit(sc, m.image, q) && Visits(sc, m.image, lo, hi, q)
    requires j < |sc.recipes| && AllHold(sc.recipes[j].ops, m.image, q)
    requires !Pass(m, sc, lo, hi, upto, run).failed
    ensures var log := Pass(m, sc, lo, hi, upto, run).log;
      Handled(log, q, sc.recipes, j)
    decreases upto
  {
    var before := Pass(m, sc, lo, hi, upto - 1, run);
    var after := Pass(m, sc, lo, hi, upto, run);
    if q == upto - 1 {
      StepServes(m, sc, q, before, j);
    } else {
      TryRecipesGrows(m, sc.recipes, upto - 1, before);
      TryRecipesFailed(m, sc.recipes, upto - 1, before);
      PassComplete(m, sc, lo, hi, upto - 1, run, q, j);
      HandledGrows(before.log, after.log, q, sc.recipes, j);
    }
  }

  /** The simple pass misses nothing. */
  lemma {:induction false} GreedyHandles(m: Medium, sc: Scanner, lo: nat, hi: nat, run: Run, q: nat, j: nat)
    requires lo <= q < hi && Hit(sc, m.image, q)
    requires j < |sc.recipes| && AllHold(sc.recipes[j].ops, m.image, q)
    requires !Greedy(m, sc, lo, hi, run).failed
    ensures Handled(Greedy(m, sc, lo, hi, run).log, q, sc.recipes, j)
    decreases hi
  {
    var before := Greedy(m, sc, lo, hi - 1, run);
    if q == hi - 1 {
      StepServes(m, sc, q, before, j);
    } else {
      TryRecipesGrows(m, sc.recipes, hi - 1, before);
      TryRecipesFailed(m, sc.recipes, hi - 1, before);
      GreedyHandles(m, sc, lo, hi - 1, run, q, j);
      HandledGrows(before.log, Greedy(m, sc, lo, hi, run).log, q, sc.recipes, j);
    }
  }

  predicate Ascending(log: Log) {
    forall i, j | 0 <= i < j < |log| :: log[i].pos <= log[j].pos
  }

  lemma {:induction false} TryRecipesAscending(m: Medium, recipes: seq<Recipe>, q: nat, run: Run)
    requires Ascending(run.log) && forall i | 0 <= i < |run.log| :: run.log[i].pos <= q
    ensures var log := TryRecipes(m, recipes, q, run).log;
      Ascending(log) && forall i | 0 <= i < |log| :: log[i].pos <= q
  {
    if run.failed || recipes == [] {
    } else {
      if !AllHold(recipes[0].ops, m.image, q) {
        TryRecipesAscending(m, recipes[1..], q, run);
      } else {
        var e := Extraction(q, recipes[0], m.extract(run.log, q, recipes[0]));
        TryRecipesAscending(m, recipes[1..], q, Run(run.log + [e], e.size < 0));
      }
    }
  }

  /** The simple pass extracts from left to right. */
  lemma {:induction false} GreedyAscending(m: Medium, sc: Scanner, lo: nat, hi: nat)
    ensures var log := Greedy(m, sc, lo, hi, Run([], false)).log;
      Ascending(log) && forall i | 0 <= i < |log| :: log[i].pos < hi
    decreases hi
  {
    if hi <= lo {
    } else {
      GreedyAscending(m, sc, lo, hi - 1);
      TryRecipesAscending(m, sc.recipes, hi - 1, Greedy(m, sc, lo, hi - 1, Run([], false)));
    }
  }

  /** Any scanners and windows: in a run that did not fail, every hit that some window
      visits was closed by an extraction or is served. */
  lemma {:induction false} RunHandles(
    m: Medium, scanners: seq<Scanner>, ws: seq<Window>, i: nat, s: nat, q: nat, j: nat)
    requires i < |ws| && s < |scanners| && ws[i].lo <= q < ws[i].hi
    requires Hit(scanners[s], m.image, q) && Visits(scanners[s], m.image, ws[i].lo, ws[i].hi, q)
    requires j < |scanners[s].recipes| && AllHold(scanners[s].recipes[j].ops, m.image, q)
    requires !RunWindows(m, scanners, ws, Run([], false)).failed
    ensures Handled(RunWindows(m, scanners, ws, Run([], false)).log, q, scanners[s].recipes, j)
  {
    var n := |ws| - 1;
    var before := RunWindows(m, scanners, ws[..n], Run([], false));
    var after := RunWindows(m, scanners, ws, Run([], false));
    PassAllGrows(m, scanners, ws[n].lo, ws[n].hi, before);
    if i == n {
      PassAllComplete(m, scanners, ws[n].lo, ws[n].hi, before, s, q, j);
    } else {
      RunHandles(m, scanners, ws[..n], i, s, q, j);
      HandledGrows(before.log, after.log, q, scanners[s].recipes, j);
    }
  }

  lemma {:induction false} PassAllComplete(
    m: Medium, scanners: seq<Scanner>, lo: nat, hi: nat, run: Run, s: nat, q: nat, j: nat)
    requires s < |scanners| && lo <= q < hi
    requires Hit(scanners[s], m.image, q) && Visits(scanners[s], m.image, lo, hi, q)
    requires j < |scanners[s].recipes| && AllHold(scanners[s].recipes[j].ops, m.image, q)
    requires !PassAll(m, scanners, lo, hi, run).failed
    ensures Handled(PassAll(m, scanners, lo, hi, run).log, q, scanners[s].recipes, j)
  {
    var n := |scanners| - 1;
    var before := PassAll(m, scanners[..n], lo, hi, run);
    PassGrows(m, scanners[n], lo, hi, hi, before);
    if s == n {
      PassComplete(m, scanners[n], lo, hi, hi, before, q, j);
    } else {
      PassAllComplete(m, scanners[..n], lo, hi, run, s, q, j);
      HandledGrows(before.log, PassAll(m, scanners, lo, hi, run).log, q, scanners[s].recipes, j);
    }
  }

  /** In numbers: position q lies in the bytes of an extraction that are not to be extracted
      again, behind the first of them, ... */
  lemma HandledMeans(log: Log, q: nat, recipes: seq<Recipe>, j: nat)
    requires j < |recipes| && Handled(log, q, recipes, j)
    ensures
      || (exists i | 0 <= i < |log| :: 0 <= log[i].recipe.allowOverlap < log[i].size
            && log[i].pos < q < log[i].pos + log[i].size - log[i].recipe.allowOverlap)
      // ... or recipe j was applied there, ...
      || (exists i | 0 <= i < |log| :: log[i].pos == q && log[i].recipe == recipes[j])
      // ... or an earlier one whose extraction is longer than what may overlap.
      || (exists i | 0 <= i < |log| :: log[i].pos == q && log[i].recipe in recipes[..j]
            && 0 <= log[i].recipe.allowOverlap < log[i].size)
  {
    if Blocked(log, q) {
      var i :| 0 <= i < |log| && Covers(log[i], q);
      assert 0 <= log[i].recipe.allowOverlap < log[i].size;
    } else {
      var i :| 0 <= i < |log| && log[i].pos == q && ServedBy(log[i], recipes, j);
      assert log[i].pos == q;
    }
  }

  /** Any scanners and windows, in numbers: in a run that did not fail, for every hit q of a
      window at which a recipe holds, and which the window visits unless it was pruned, ... */
  lemma RunComplete(
    m: Medium, scanners: seq<Scanner>, ws: seq<Window>, from: nat, to: nat, i: nat, s: nat, q: nat, j: nat)
    requires Tiled(ws, from, to) && WellPruned(m, scanners, ws, Run([], false))
    requires i < |ws| && s < |scanners| && ws[i].start <= q < ws[i].hi
    requires Hit(scanners[s], m.image, q)
    requires q >= ws[i].lo ==> Visits(scanners[s], m.image, ws[i].lo, ws[i].hi, q)
    requires j < |scanners[s].recipes| && AllHold(scanners[s].recipes[j].ops, m.image, q)
    requires !RunWindows(m, scanners, ws, Run([], false)).failed
    ensures var log := RunWindows(m, scanners, ws, Run([], false)).log;
      var recipes := scanners[s].recipes;
      // ... q is in the bytes of an extraction that are not to be extracted again, ...
      || (exists k | 0 <= k < |log| :: 0 <= log[k].recipe.allowOverlap < log[k].size
            && log[k].pos < q < log[k].pos + log[k].size - log[k].recipe.allowOverlap)
      // ... or the recipe was applied, or an earlier one whose extraction was too long.
      || (exists k | 0 <= k < |log| :: log[k].pos == q && log[k].recipe == recipes[j])
      || (exists k | 0 <= k < |log| :: log[k].pos == q && log[k].recipe in recipes[..j]
            && 0 <= log[k].recipe.allowOverlap < log[k].size)
  {
    var log := RunWindows(m, scanners, ws, Run([], false)).log;
    if q < ws[i].lo {
      PrunedIsClosed(m, scanners, ws, i, q);
    } else {
      RunHandles(m, scanners, ws, i, s, q, j);
    }
    HandledMeans(log, q, scanners[s].recipes, j);
  }

  lemma {:induction false} PrunedIsClosed(m: Medium, scanners: seq<Scanner>, ws: seq<Window>, i: nat, q: nat)
    requires WellPruned(m, scanners, ws, Run([], false)) && i < |ws| && ws[i].start <= q < ws[i].lo
    ensures Blocked(RunWindows(m, scanners, ws, Run([], false)).log, q)
  {
    var n := |ws| - 1;
    var before := RunWindows(m, scanners, ws[..n], Run([], false));
    PassAllGrows(m, scanners, ws[n].lo, ws[n].hi, before);
    if i < n {
      PrunedIsClosed(m, scanners, ws[..n], i, q);
    }
    BlockedGrows(before.log, RunWindows(m, scanners, ws, Run([], false)).log, q);
  }

  /** The same for the simple pass: it misses no hit of its range. */
  lemma GreedyComplete(m: Medium, sc: Scanner, lo: nat, hi: nat, run: Run, q: nat, j: nat)
    requires lo <= q < hi && Hit(sc, m.image, q)
    requires j < |sc.recipes| && AllHold(sc.recipes[j].ops, m.image, q)
    requires !Greedy(m, sc, lo, hi, run).failed
    ensures var log := Greedy(m, sc, lo, hi, run).log;
      || (exists i | 0 <= i < |log| :: 0 <= log[i].recipe.allowOverlap < log[i].size
            && log[i].pos < q < log[i].pos + log[i].size - log[i].recipe.allowOverlap)
      || (exists i | 0 <= i < |log| :: log[i].pos == q && log[i].recipe == sc.recipes[j])
      || (exists i | 0 <= i < |log| :: log[i].pos == q && log[i].recipe in sc.recipes[..j]
            && 0 <= log[i].recipe.allowOverlap < log[i].size)
  {
    GreedyHandles(m, sc, lo, hi, run, q, j);
    HandledMeans(Greedy(m, sc, lo, hi, run).log, q, sc.recipes, j);
  }

  // ---- a negative size is a fatal error ----

  /** The last extraction of a run that fails, and no other, was a fatal error. */
  ghost predicate FailsAtLast(run: Run) {
    && (forall i | 0 <= i < |run.log| - 1 :: run.log[i].size >= 0)
    && (run.failed <==> run.log != [] && run.log[|run.log| - 1].size < 0)
  }

  lemma {:induction false} TryRecipesFails(m: Medium, recipes: seq<Recipe>, q: nat, run: Run)
    requires FailsAtLast(run)
    ensures FailsAtLast(TryRecipes(m, recipes, q, run))
  {
    if run.failed || recipes == [] {
    } else if !AllHold(recipes[0].ops, m.image, q) {
      TryRecipesFails(m, recipes[1..], q, run);
    } else {
      var e := Extraction(q, recipes[0], m.extract(run.log, q, recipes[0]));
      TryRecipesFails(m, recipes[1..], q, Run(run.log + [e], e.size < 0));
    }
  }

  lemma {:induction false} PassFails(m: Medium, sc: Scanner, lo: nat, hi: nat, upto: nat, run: Run)
    requires FailsAtLast(run)
    ensures FailsAtLast(Pass(m, sc, lo, hi, upto, run))
    decreases upto
  {
    if upto > lo {
      PassFails(m, sc, lo, hi, upto - 1, run);
      TryRecipesFails(m, sc.recipes, upto - 1, Pass(m, sc, lo, hi, upto - 1, run));
    }
  }

  lemma {:induction false} PassAllFails(m: Medium, scanners: seq<Scanner>, lo: nat, hi: nat, run: Run)
    requires FailsAtLast(run)
    ensures FailsAtLast(PassAll(m, scanners, lo, hi, run))
  {
    if scanners == [] {
    } else {
      var n := |scanners| - 1;
      PassAllFails(m, scanners[..n], lo, hi, run);
      PassFails(m, scanners[n], lo, hi, hi, PassAll(m, scanners[..n], lo, hi, run));
    }
  }

  lemma {:induction false} RunFails(m: Medium, scanners: seq<Scanner>, ws: seq<Window>)
    ensures FailsAtLast(RunWindows(m, scanners, ws, Run([], false)))
  {
    if ws == [] {
    } else {
      var n := |ws| - 1;
      RunFails(m, scanners, ws[..n]);
      PassAllFails(m, scanners, ws[n].lo, ws[n].hi, RunWindows(m, scanners, ws[..n], Run([], false)));
    }
  }

  // ---- one exclusive extraction at a place ----

  /** After an extraction that is longer than what may overlap no other recipe is tried. */
  lemma {:induction false} TryRecipesStops(m: Medium, recipes: seq<Recipe>, q: nat, run: Run)
    ensures var log := TryRecipes(m, recipes, q, run).log;
      && run.log <= log
      && (forall i | |run.log| <= i < |log| :: log[i].pos == q && log[i].recipe in recipes)
      && (forall i | |run.log| <= i < |log| - 1 :: !(0 <= log[i].recipe.allowOverlap < log[i].size))
  {
    if run.failed || recipes == [] {
    } else if !AllHold(recipes[0].ops, m.image, q) {
      TryRecipesStops(m, recipes[1..], q, run);
    } else {
      var e := Extraction(q, recipes[0], m.extract(run.log, q, recipes[0]));
      var next := Run(run.log + [e], e.size < 0);
      TryRecipesStops(m, recipes[1..], q, next);
      assert next.log[|run.log|] == e;
    }
  }

  /** So with one scanner no extraction begins where an earlier one began that is longer than
      what may overlap. */
  lemma {:induction false} GreedyStops(m: Medium, sc: Scanner, lo: nat, hi: nat)
    ensures OnePerPlace(Greedy(m, sc, lo, hi, Run([], false)).log, hi)
    decreases hi
  {
    if hi <= lo {
    } else {
      var before := Greedy(m, sc, lo, hi - 1, Run([], false));
      var log := Greedy(m, sc, lo, hi, Run([], false)).log;
      GreedyStops(m, sc, lo, hi - 1);
      TryRecipesStops(m, sc.recipes, hi - 1, before);
      assert forall i | 0 <= i < |before.log| :: log[i] == before.log[i] && before.log[i].pos < hi - 1;
    }
  }

  ghost predicate OnePerPlace(log: Log, hi: nat) {
    && (forall i | 0 <= i < |log| :: log[i].pos < hi)
    && forall i, j | 0 <= i < j < |log| && 0 <= log[i].recipe.allowOverlap < log[i].size :: log[i].pos != log[j].pos
  }

  // ---- scanner offsets ----

  /** Which windows lose hits to the guard of the loop, for a char or string scanner: all
      hits are visited on every image of the given size if and only if the offset is less
      than the least distance of two hits and less than the length of the window. */
  lemma NothingLostExactlyWhen(sc: Scanner, lo: nat, hi: nat, size: nat)
    requires sc.param.Valid() && !sc.param.ScanBlock? && lo < hi
    requires hi + sc.offset + sc.param.Length() <= size
    ensures KeepsUp(sc, lo, hi) <==> forall image: seq<byte> | |image| == size :: VisitsAll(sc, image, lo, hi)
  {
    if KeepsUp(sc, lo, hi) {
      forall image: seq<byte> | |image| == size ensures VisitsAll(sc, image, lo, hi) {
        KeepingUpLosesNothing(sc, image, lo, hi);
      }
    } else {
      var image := LosingImage(sc, lo, hi, size);
      assert !VisitsAll(sc, image, lo, hi);
    }
  }

  lemma LosingImage(sc: Scanner, lo: nat, hi: nat, size: nat) returns (image: seq<byte>)
    requires sc.param.Valid() && !sc.param.ScanBlock? && lo < hi && !KeepsUp(sc, lo, hi)
    requires hi + sc.offset + sc.param.Length() <= size
    ensures |image| == size && !VisitsAll(sc, image, lo, hi)
  {
    if hi <= lo + sc.offset {
      image := OneHit(sc, lo, size);
      assert !Visits(sc, image, lo, hi, lo);
    } else {
      image := ClosestHits(sc, hi - 1, size);
      var k: nat := hi - 1 - Distance(sc.param);
      assert Hit(sc, image, k) && lo <= k && !(k + 1 + sc.offset < hi);
      assert !Visits(sc, image, lo, hi, hi - 1);
    }
  }

  /** For a single character that means: only with offset 0. */
  lemma CharLosesNothingExactlyWhen(sc: Scanner, lo: nat, hi: nat, size: nat)
    requires sc.param.ScanChar? && lo < hi && hi + sc.offset + 1 <= size
    ensures sc.offset == 0 <==> forall image: seq<byte> | |image| == size :: VisitsAll(sc, image, lo, hi)
  {
    NothingLostExactlyWhen(sc, lo, hi, size);
  }
}
