/**
 * The variant detector (backend/app/services/improved_ai_dependency_detector.py): its
 * three-row gate, the clean-row confidence with its cap, the pruned FD search, the
 * post-processing with the sort by confidence, and the three-method candidate-key search
 * with its bounded FD-closure loop. The weighted confidence score is a parameter.
 */
module ImprovedDetector {
  import opened Seqs
  import opened TableModel
  import opened Frames
  import opened Dependencies

  /** The detector's default `confidence_threshold`. */
  const Threshold: real := 0.90

  /** `min_rows_for_analysis`. */
  const MinRows: nat := 3

  /** The budget of the closure loop, `max_iterations`. */
  const MaxPasses: nat := 10

  function Min(a: real, b: real): real
  {
    if a <= b then a else b
  }

  /**
   * `round(x, 3)` on exact reals: the nearest multiple of 0.001, a tie going to the even
   * multiple as Python's `round` does.
   */
  function Round3(x: real): (r: real)
    ensures -0.0005 <= r - x <= 0.0005
  {
    var scaled := x * 1000.0;
    var n := scaled.Floor;
    var frac := scaled - n as real;
    var m := if frac > 0.5 || (frac == 0.5 && n % 2 == 1) then n + 1 else n;
    m as real / 1000.0
  }

  // ---------------------------------------------------------------------------------------
  // Confidence
  // ---------------------------------------------------------------------------------------

  /**
   * The weighted score (violation share, determination coefficient and consistency, 0.4 /
   * 0.3 / 0.3) over the rows left after dropping missing values. Only its use is modelled.
   */
  type FdScore = (seq<Row>, seq<string>, seq<string>) -> real

  /** The row has a value in every one of `cols`. */
  predicate NullFree(row: Row, cols: seq<string>)
  {
    forall i :: 0 <= i < |cols| ==> CellOf(row, cols[i]) != Null
  }

  /** `df[df[cols].notna().all(axis=1)]`: the rows without a missing value in `cols`, in order. */
  function CleanRows(rows: seq<Row>, cols: seq<string>): (clean: seq<Row>)
    ensures |clean| <= |rows|
    ensures forall r :: r in clean <==> r in rows && NullFree(r, cols)
  {
    if rows == [] then []
    else
      var init := CleanRows(rows[..|rows| - 1], cols);
      var r := rows[|rows| - 1];
      assert rows == rows[..|rows| - 1] + [r];
      if NullFree(r, cols) then init + [r] else init
  }

  /** `_calculate_fd_confidence_improved`: 0.0 without clean rows, else the score capped at 1. */
  function Confidence(rows: seq<Row>, det: seq<string>, dep: seq<string>, score: FdScore): (c: real)
    ensures c <= 1.0
  {
    var clean := CleanRows(rows, det + dep);
    if clean == [] then 0.0 else Min(score(clean, det, dep), 1.0)
  }

  /** The confidence is 0.0 exactly when no row is free of missing values in the columns concerned. */
  lemma ConfidenceCases(rows: seq<Row>, det: seq<string>, dep: seq<string>, score: FdScore)
    ensures (forall r :: r in rows ==> !NullFree(r, det + dep)) ==> Confidence(rows, det, dep, score) == 0.0
    ensures (exists r :: r in rows && NullFree(r, det + dep)) ==>
              Confidence(rows, det, dep, score) == Min(score(CleanRows(rows, det + dep), det, dep), 1.0)
  {
    var clean := CleanRows(rows, det + dep);
    if clean != [] {
      assert clean[0] in clean;
    }
  }

  /** The mask, then the capped score. */
  method CalculateConfidence(rows: seq<Row>, det: seq<string>, dep: seq<string>, score: FdScore)
    returns (confidence: real)
    ensures confidence == Confidence(rows, det, dep, score)
    ensures confidence <= 1.0
  {
    var cols := det + dep;
    var clean := [];
    var i := 0;
    while i < |rows|
      invariant 0 <= i <= |rows|
      invariant clean == CleanRows(rows[..i], cols)
    {
      assert rows[..i + 1][..i] == rows[..i];
      if NullFree(rows[i], cols) {
        clean := clean + [rows[i]];
      }
      i := i + 1;
    }
    assert rows[..i] == rows;
    if clean == [] {
      return 0.0;
    }
    confidence := Min(score(clean, det, dep), 1.0);
  }

  // ---------------------------------------------------------------------------------------
  // FD search
  // ---------------------------------------------------------------------------------------

  /** The accepted FDs `{det} -> {dep}` for the other columns `deps`, in order. */
  function SingleFdsFor(rows: seq<Row>, det: string, deps: seq<string>, score: FdScore): seq<FunctionalDependency>
  {
    if deps == [] then []
    else
      var init := SingleFdsFor(rows, det, deps[..|deps| - 1], score);
      var dep := deps[|deps| - 1];
      if det == dep then init
      else
        var confidence := Confidence(rows, [det], [dep], score);
        if confidence >= Threshold then init + [FunctionalDependency({det}, {dep}, Round3(confidence))] else init
  }

  /** A determinant with a distinct value in every row is passed over. */
  predicate AllDistinct(rows: seq<Row>, col: string)
  {
    NUnique(rows, col) == |rows|
  }

  /** The single-column phase over determinants `dets`. */
  function SingleFds(rows: seq<Row>, dets: seq<string>, cols: seq<string>, score: FdScore): seq<FunctionalDependency>
  {
    if dets == [] then []
    else
      var det := dets[|dets| - 1];
      var init := SingleFds(rows, dets[..|dets| - 1], cols, score);
      if AllDistinct(rows, det) then init else init + SingleFdsFor(rows, det, cols, score)
  }

  /** The accepted FDs `{a, b} -> {dep}` for one pair. */
  function PairFdsFor(rows: seq<Row>, pair: seq<string>, deps: seq<string>, score: FdScore): seq<FunctionalDependency>
    requires |pair| == 2
  {
    if deps == [] then []
    else
      var init := PairFdsFor(rows, pair, deps[..|deps| - 1], score);
      var dep := deps[|deps| - 1];
      if dep in pair then init
      else
        var confidence := Confidence(rows, pair, [dep], score);
        if confidence >= Threshold then init + [FunctionalDependency({pair[0], pair[1]}, {dep}, Round3(confidence))] else init
  }

  /** `combined_key.nunique() > n_rows * 0.8`, in integers. */
  predicate MostlyUnique(rows: seq<Row>, pair: seq<string>)
  {
    5 * |KeySet(rows, pair)| > 4 * |rows|
  }

  /** The pair phase over `pairs`, skipping pairs whose joined key is mostly unique. */
  function PairFds(rows: seq<Row>, pairs: seq<seq<string>>, cols: seq<string>, score: FdScore): seq<FunctionalDependency>
    requires forall p :: p in pairs ==> |p| == 2
  {
    if pairs == [] then []
    else
      PairFds(rows, pairs[..|pairs| - 1], cols, score) + GatedPairFds(rows, pairs[|pairs| - 1], cols, score)
  }

  /** One pair's FDs, none when its joined key is mostly unique. */
  function GatedPairFds(rows: seq<Row>, pair: seq<string>, cols: seq<string>, score: FdScore): seq<FunctionalDependency>
    requires |pair| == 2
  {
    if MostlyUnique(rows, pair) then [] else PairFdsFor(rows, pair, cols, score)
  }

  /** The column pairs, in `combinations` order. */
  function ColumnPairs(cols: seq<string>): (pairs: seq<seq<string>>)
    ensures forall p :: p in pairs ==> |p| == 2
  {
    CombinationMembers(cols, 2);
    Combinations(cols, 2)
  }

  /** `len(fds) < len(columns) / 2`, in integers: the pair phase runs only after few single-column FDs. */
  predicate FewFds(fds: seq<FunctionalDependency>, cols: seq<string>)
  {
    2 * |fds| < |cols|
  }

  /** Every FD the search accepts, before post-processing. */
  function CandidateFds(rows: seq<Row>, cols: seq<string>, score: FdScore): seq<FunctionalDependency>
  {
    var singles := SingleFds(rows, cols, cols, score);
    if FewFds(singles, cols) then singles + PairFds(rows, ColumnPairs(cols), cols, score) else singles
  }

  method ScanSingle(rows: seq<Row>, det: string, cols: seq<string>, score: FdScore) returns (found: seq<FunctionalDependency>)
    ensures found == SingleFdsFor(rows, det, cols, score)
  {
    found := [];
    var j := 0;
    while j < |cols|
      invariant 0 <= j <= |cols|
      invariant found == SingleFdsFor(rows, det, cols[..j], score)
    {
      var dep := cols[j];
      assert cols[..j + 1][..j] == cols[..j];
      if det != dep {
        var confidence := CalculateConfidence(rows, [det], [dep], score);
        if confidence >= Threshold {
          found := found + [FunctionalDependency({det}, {dep}, Round3(confidence))];
        }
      }
      j := j + 1;
    }
    assert cols[..j] == cols;
  }

  method ScanAllSingles(rows: seq<Row>, cols: seq<string>, score: FdScore) returns (fds: seq<FunctionalDependency>)
    ensures fds == SingleFds(rows, cols, cols, score)
  {
    fds := [];
    var i := 0;
    while i < |cols|
      invariant 0 <= i <= |cols|
      invariant fds == SingleFds(rows, cols[..i], cols, score)
    {
      var det := cols[i];
      assert cols[..i + 1][..i] == cols[..i];
      if NUnique(rows, det) != |rows| {
        var found := ScanSingle(rows, det, cols, score);
        fds := fds + found;
      }
      i := i + 1;
    }
    assert cols[..i] == cols;
  }

  method ScanPair(rows: seq<Row>, pair: seq<string>, cols: seq<string>, score: FdScore) returns (found: seq<FunctionalDependency>)
    requires |pair| == 2
    ensures found == PairFdsFor(rows, pair, cols, score)
  {
    found := [];
    var j := 0;
    while j < |cols|
      invariant 0 <= j <= |cols|
      invariant found == PairFdsFor(rows, pair, cols[..j], score)
    {
      var dep := cols[j];
      assert cols[..j + 1][..j] == cols[..j];
      if dep !in pair {
        var confidence := CalculateConfidence(rows, pair, [dep], score);
        if confidence >= Threshold {
          found := found + [FunctionalDependency({pair[0], pair[1]}, {dep}, Round3(confidence))];
        }
      }
      j := j + 1;
    }
    assert cols[..j] == cols;
  }

  method ScanGatedPair(rows: seq<Row>, pair: seq<string>, cols: seq<string>, score: FdScore)
    returns (found: seq<FunctionalDependency>)
    requires |pair| == 2
    ensures found == GatedPairFds(rows, pair, cols, score)
  {
    var unique := |Elements(JoinedKeys(rows, pair))|;
    if 5 * unique > 4 * |rows| {
      return [];
    }
    found := ScanPair(rows, pair, cols, score);
  }

  method ScanAllPairs(rows: seq<Row>, pairs: seq<seq<string>>, cols: seq<string>, score: FdScore)
    returns (fds: seq<FunctionalDependency>)
    requires forall p :: p in pairs ==> |p| == 2
    ensures fds == PairFds(rows, pairs, cols, score)
  {
    fds := [];
    var k := 0;
    while k < |pairs|
      invariant 0 <= k <= |pairs|
      invariant fds == PairFds(rows, pairs[..k], cols, score)
    {
      PairFdsNext(rows, pairs, k, cols, score);
      var found := ScanGatedPair(rows, pairs[k], cols, score);
      fds := fds + found;
      k := k + 1;
    }
    assert pairs[..k] == pairs;
  }

  /** Scanning one more pair appends that pair's FDs. */
  lemma PairFdsNext(rows: seq<Row>, pairs: seq<seq<string>>, k: nat, cols: seq<string>, score: FdScore)
    requires forall p :: p in pairs ==> |p| == 2
    requires k < |pairs|
    ensures forall p :: p in pairs[..k + 1] ==> |p| == 2
    ensures PairFds(rows, pairs[..k + 1], cols, score)
            == PairFds(rows, pairs[..k], cols, score) + GatedPairFds(rows, pairs[k], cols, score)
  {
    assert pairs[..k + 1][..k] == pairs[..k];
  }

  /** The FD `{det} -> {dep}` as the search records it. */
  function SingleFd(rows: seq<Row>, det: string, dep: string, score: FdScore): FunctionalDependency
  {
    FunctionalDependency({det}, {dep}, Round3(Confidence(rows, [det], [dep], score)))
  }

  /** The FD `{a, b} -> {dep}` as the search records it. */
  function PairFd(rows: seq<Row>, pair: seq<string>, dep: string, score: FdScore): FunctionalDependency
    requires |pair| == 2
  {
    FunctionalDependency({pair[0], pair[1]}, {dep}, Round3(Confidence(rows, pair, [dep], score)))
  }

  /** A stored confidence at or above the threshold stays there after rounding, and stays at most 1. */
  lemma Round3Accepted(x: real)
    requires Threshold <= x <= 1.0
    ensures Threshold <= Round3(x) <= 1.0
  {
    var scaled := x * 1000.0;
    var n := scaled.Floor;
    assert 900.0 <= scaled <= 1000.0;
    assert 900 <= n <= 1000;
    if n == 1000 {
      assert scaled - n as real == 0.0;
    }
  }

  /** For one determinant: exactly the other columns whose confidence reaches the threshold. */
  lemma {:induction false} SingleFdsForExact(rows: seq<Row>, det: string, deps: seq<string>, score: FdScore)
    ensures forall dep :: dep in deps && dep != det && Confidence(rows, [det], [dep], score) >= Threshold ==>
              SingleFd(rows, det, dep, score) in SingleFdsFor(rows, det, deps, score)
    ensures forall fd :: fd in SingleFdsFor(rows, det, deps, score) ==>
              exists dep :: dep in deps && dep != det && Confidence(rows, [det], [dep], score) >= Threshold &&
                fd == SingleFd(rows, det, dep, score)
  {
    if deps != [] {
      var init := deps[..|deps| - 1];
      SingleFdsForExact(rows, det, init, score);
      assert deps == init + [deps[|deps| - 1]];
    }
  }

  /** The single-column phase: exactly the accepted pairs of a not-all-distinct determinant and another column. */
  lemma {:induction false} SingleFdsExact(rows: seq<Row>, dets: seq<string>, cols: seq<string>, score: FdScore)
    ensures forall det, dep ::
              (det in dets && dep in cols && dep != det && !AllDistinct(rows, det) &&
               Confidence(rows, [det], [dep], score) >= Threshold) ==>
              SingleFd(rows, det, dep, score) in SingleFds(rows, dets, cols, score)
    ensures forall fd :: fd in SingleFds(rows, dets, cols, score) ==>
              exists det, dep :: det in dets && dep in cols && dep != det && !AllDistinct(rows, det) &&
                Confidence(rows, [det], [dep], score) >= Threshold && fd == SingleFd(rows, det, dep, score)
  {
    if dets != [] {
      var init := dets[..|dets| - 1];
      var last := dets[|dets| - 1];
      SingleFdsExact(rows, init, cols, score);
      SingleFdsForExact(rows, last, cols, score);
      assert dets == init + [last];
    }
  }

  /** For one pair: exactly the columns outside it whose confidence reaches the threshold. */
  lemma {:induction false} PairFdsForExact(rows: seq<Row>, pair: seq<string>, deps: seq<string>, score: FdScore)
    requires |pair| == 2
    ensures forall dep :: dep in deps && dep !in pair && Confidence(rows, pair, [dep], score) >= Threshold ==>
              PairFd(rows, pair, dep, score) in PairFdsFor(rows, pair, deps, score)
    ensures forall fd :: fd in PairFdsFor(rows, pair, deps, score) ==>
              exists dep :: dep in deps && dep !in pair && Confidence(rows, pair, [dep], score) >= Threshold &&
                fd == PairFd(rows, pair, dep, score)
  {
    if deps != [] {
      var init := deps[..|deps| - 1];
      PairFdsForExact(rows, pair, init, score);
      assert deps == init + [deps[|deps| - 1]];
    }
  }

  /** The pair phase: exactly the accepted FDs of pairs whose joined key is not mostly unique. */
  lemma {:induction false} PairFdsExact(rows: seq<Row>, pairs: seq<seq<string>>, cols: seq<string>, score: FdScore)
    requires forall p :: p in pairs ==> |p| == 2
    ensures forall p, dep ::
              (p in pairs && dep in cols && dep !in p && !MostlyUnique(rows, p) &&
               Confidence(rows, p, [dep], score) >= Threshold) ==>
              PairFd(rows, p, dep, score) in PairFds(rows, pairs, cols, score)
    ensures forall fd :: fd in PairFds(rows, pairs, cols, score) ==>
              exists p, dep :: p in pairs && dep in cols && dep !in p && !MostlyUnique(rows, p) &&
                Confidence(rows, p, [dep], score) >= Threshold && fd == PairFd(rows, p, dep, score)
  {
    if pairs != [] {
      var init := pairs[..|pairs| - 1];
      var last := pairs[|pairs| - 1];
      PairFdsExact(rows, init, cols, score);
      PairFdsForExact(rows, last, cols, score);
      assert pairs == init + [last];
    }
  }

  /** What every recorded FD looks like: one dependent column outside a non-empty determinant of table columns, confidence in [0.90, 1]. */
  predicate WellFormedFd(fd: FunctionalDependency, cols: seq<string>)
  {
    && Threshold <= fd.confidence <= 1.0
    && fd.determinant != {}
    && (forall c :: c in fd.determinant ==> c in cols)
    && exists dep :: dep in cols && dep !in fd.determinant && fd.dependent == {dep}
  }

  lemma CandidateFdsWellFormed(rows: seq<Row>, cols: seq<string>, score: FdScore)
    ensures forall fd :: fd in CandidateFds(rows, cols, score) ==> WellFormedFd(fd, cols)
  {
    SingleFdsExact(rows, cols, cols, score);
    var pairs := ColumnPairs(cols);
    PairFdsExact(rows, pairs, cols, score);
    CombinationMembers(cols, 2);
    forall fd | fd in CandidateFds(rows, cols, score)
      ensures WellFormedFd(fd, cols)
    {
      if fd in SingleFds(rows, cols, cols, score) {
        var det, dep :| det in cols && dep in cols && dep != det && !AllDistinct(rows, det) &&
          Confidence(rows, [det], [dep], score) >= Threshold && fd == SingleFd(rows, det, dep, score);
        Round3Accepted(Confidence(rows, [det], [dep], score));
      } else {
        var p, dep :| p in pairs && dep in cols && dep !in p && !MostlyUnique(rows, p) &&
          Confidence(rows, p, [dep], score) >= Threshold && fd == PairFd(rows, p, dep, score);
        Round3Accepted(Confidence(rows, p, [dep], score));
        assert p[0] in p && p[1] in p;
      }
    }
  }

  // ---------------------------------------------------------------------------------------
  // Post-processing: drop trivial FDs, keep the strongest per pair, sort by confidence
  // ---------------------------------------------------------------------------------------

  /** Confidences never increase along the sequence. */
  predicate Descending(fds: seq<FunctionalDependency>)
  {
    forall p, q :: 0 <= p < q < |fds| ==> fds[p].confidence >= fds[q].confidence
  }

  /** One step of the insertion: move the entry at `j` one place to the front. */
  method SwapDown(a: array<FunctionalDependency>, j: int)
    requires 0 < j < a.Length
    modifies a
    ensures a[j - 1] == old(a[j]) && a[j] == old(a[j - 1])
    ensures forall m :: 0 <= m < a.Length && m != j - 1 && m != j ==> a[m] == old(a[m])
    ensures multiset(a[..]) == multiset(old(a[..]))
  {
    a[j - 1], a[j] := a[j], a[j - 1];
  }

  /** Insert `a[i]` into the sorted prefix `a[..i]`. */
  method InsertAt(a: array<FunctionalDependency>, i: int)
    requires 0 <= i < a.Length
    requires Descending(a[..i])
    modifies a
    ensures Descending(a[..i + 1])
    ensures forall m :: i < m < a.Length ==> a[m] == old(a[m])
    ensures multiset(a[..]) == multiset(old(a[..]))
  {
    var j := i;
    while j > 0 && a[j - 1].confidence < a[j].confidence
      invariant 0 <= j <= i
      invariant forall p, q :: 0 <= p < q <= i && p != j && q != j ==> a[p].confidence >= a[q].confidence
      invariant forall q :: j < q <= i ==> a[j].confidence >= a[q].confidence
      invariant forall m :: i < m < a.Length ==> a[m] == old(a[m])
      invariant multiset(a[..]) == multiset(old(a[..]))
    {
      SwapDown(a, j);
      j := j - 1;
    }
  }

  /** `result.sort(key=confidence, reverse=True)`, as an insertion sort in place. */
  method SortByConfidence(a: array<FunctionalDependency>)
    modifies a
    ensures Descending(a[..])
    ensures multiset(a[..]) == multiset(old(a[..]))
  {
    var i := 0;
    while i < a.Length
      invariant 0 <= i <= a.Length
      invariant Descending(a[..i])
      invariant multiset(a[..]) == multiset(old(a[..]))
    {
      InsertAt(a, i);
      i := i + 1;
    }
    assert a[..i] == a[..];
  }

  /** `_remove_redundant_fds`: the strongest non-trivial FD per pair, highest confidence first. */
  method RemoveRedundantAndSort(fds: seq<FunctionalDependency>) returns (r: seq<FunctionalDependency>)
    ensures Descending(r)
    ensures multiset(r) == multiset(KeepStrongest(fds))
  {
    var kept := RemoveRedundantFds(fds);
    var a := new FunctionalDependency[|kept|](i requires 0 <= i < |kept| => kept[i]);
    assert a[..] == kept;
    SortByConfidence(a);
    r := a[..];
  }

  /** `_detect_functional_dependencies_improved`: singles, pairs only after few singles, then post-processing. */
  method DetectFunctionalDependencies(rows: seq<Row>, cols: seq<string>, score: FdScore)
    returns (fds: seq<FunctionalDependency>)
    ensures Descending(fds)
    ensures multiset(fds) == multiset(KeepStrongest(CandidateFds(rows, cols, score)))
    ensures forall fd :: fd in fds ==> WellFormedFd(fd, cols)
  {
    var singles := ScanAllSingles(rows, cols, score);
    var all := singles;
    if 2 * |singles| < |cols| {
      var pairs := ScanAllPairs(rows, ColumnPairs(cols), cols, score);
      all := singles + pairs;
    }
    fds := RemoveRedundantAndSort(all);
    CandidateFdsWellFormed(rows, cols, score);
    KeepStrongestShape(all);
    assert forall fd :: fd in fds ==> fd in multiset(KeepStrongest(all));
  }

  // ---------------------------------------------------------------------------------------
  // The closure of a column set under the detected FDs, bounded to ten passes
  // ---------------------------------------------------------------------------------------

  /** `fd` adds a column to `d`: its determinant is inside and its dependent is not. */
  predicate Fires(fd: FunctionalDependency, d: set<string>)
  {
    fd.determinant <= d && !(fd.dependent <= d)
  }

  /** One pass over the FDs in order; an FD sees the columns added by those before it. */
  function Pass(fds: seq<FunctionalDependency>, d: set<string>): set<string>
  {
    if fds == [] then d
    else
      var prev := Pass(fds[..|fds| - 1], d);
      var fd := fds[|fds| - 1];
      if Fires(fd, prev) then prev + fd.dependent else prev
  }

  /** Passes until one adds nothing, at most `budget` of them. */
  function Closure(fds: seq<FunctionalDependency>, d: set<string>, budget: nat): set<string>
    decreases budget
  {
    if budget == 0 then d
    else
      var p := Pass(fds, d);
      if p == d then d else Closure(fds, p, budget - 1)
  }

  /** The inner `for fd in fds` loop; `changed` reports whether the pass added a column. */
  method RunPass(fds: seq<FunctionalDependency>, before: set<string>) returns (determined: set<string>, changed: bool)
    ensures determined == Pass(fds, before)
    ensures changed <==> determined != before
  {
    determined := before;
    changed := false;
    var i := 0;
    while i < |fds|
      invariant 0 <= i <= |fds|
      invariant determined == Pass(fds[..i], before)
      invariant before <= determined
      invariant changed <==> determined != before
    {
      assert fds[..i + 1][..i] == fds[..i];
      var fd := fds[i];
      if fd.determinant <= determined && !(fd.dependent <= determined) {
        determined := determined + fd.dependent;
        changed := true;
      }
      i := i + 1;
    }
    assert fds[..i] == fds;
  }

  /** `while changed and iteration < max_iterations`. */
  method ComputeClosure(fds: seq<FunctionalDependency>, start: set<string>) returns (determined: set<string>)
    ensures determined == Closure(fds, start, MaxPasses)
  {
    determined := start;
    var changed := true;
    var iteration := 0;
    while changed && iteration < MaxPasses
      invariant 0 <= iteration <= MaxPasses
      invariant Closure(fds, start, MaxPasses) ==
                  if changed then Closure(fds, determined, MaxPasses - iteration) else determined
      decreases MaxPasses - iteration
    {
      determined, changed := RunPass(fds, determined);
      iteration := iteration + 1;
    }
  }

  /** A pass only adds columns, and only dependents of the FDs. */
  lemma {:induction false} PassBounds(fds: seq<FunctionalDependency>, d: set<string>)
    ensures d <= Pass(fds, d)
    ensures forall c :: c in Pass(fds, d) ==> c in d || exists fd :: fd in fds && c in fd.dependent
  {
    if fds != [] {
      var init := fds[..|fds| - 1];
      PassBounds(init, d);
      assert fds == init + [fds[|fds| - 1]];
    }
  }

  /** A set that a pass leaves unchanged is closed under every FD. */
  lemma {:induction false} PassFixpointClosed(fds: seq<FunctionalDependency>, d: set<string>)
    requires Pass(fds, d) == d
    ensures forall fd :: fd in fds ==> !Fires(fd, d)
  {
    if fds != [] {
      var init := fds[..|fds| - 1];
      var last := fds[|fds| - 1];
      PassBounds(init, d);
      assert Pass(init, d) <= Pass(fds, d);
      assert Pass(init, d) == d;
      PassFixpointClosed(init, d);
      assert fds == init + [last];
    }
  }

  /** The closure keeps the start set and adds only dependents of the FDs. */
  lemma {:induction false} ClosureBounds(fds: seq<FunctionalDependency>, d: set<string>, budget: nat)
    ensures d <= Closure(fds, d, budget)
    ensures forall c :: c in Closure(fds, d, budget) ==> c in d || exists fd :: fd in fds && c in fd.dependent
    decreases budget
  {
    if budget > 0 {
      var p := Pass(fds, d);
      PassBounds(fds, d);
      if p != d {
        ClosureBounds(fds, p, budget - 1);
      }
    }
  }

  /** Either the passes reached a fixpoint or each of the `budget` passes added at least one column. */
  lemma {:induction false} ClosureProgress(fds: seq<FunctionalDependency>, d: set<string>, budget: nat)
    ensures Pass(fds, Closure(fds, d, budget)) == Closure(fds, d, budget) || |Closure(fds, d, budget)| >= |d| + budget
    decreases budget
  {
    if budget > 0 {
      var p := Pass(fds, d);
      if p != d {
        PassBounds(fds, d);
        StrictSubsetCard(d, p);
        ClosureProgress(fds, p, budget - 1);
      }
    }
  }

  /**
   * When the start set and every dependent lie in a universe of fewer than `|d| + budget`
   * columns, the budget never cuts the loop short: the result is closed under every FD.
   */
  lemma ClosureComplete(fds: seq<FunctionalDependency>, d: set<string>, budget: nat, universe: set<string>)
    requires d <= universe
    requires forall fd :: fd in fds ==> fd.dependent <= universe
    requires |universe| < |d| + budget
    ensures forall fd :: fd in fds ==> !Fires(fd, Closure(fds, d, budget))
  {
    var c := Closure(fds, d, budget);
    ClosureBounds(fds, d, budget);
    assert c <= universe;
    SubsetCard(c, universe);
    ClosureProgress(fds, d, budget);
    PassFixpointClosed(fds, c);
  }

  // ---------------------------------------------------------------------------------------
  // Candidate keys
  // ---------------------------------------------------------------------------------------

  /** Every column outside `combo` is determined by it with confidence at least the threshold. */
  predicate DeterminesOthers(rows: seq<Row>, cols: seq<string>, combo: seq<string>, score: FdScore)
  {
    forall o :: o in cols && o !in combo ==> Confidence(rows, combo, [o], score) >= Threshold
  }

  /** Method 1: a null-free column with a distinct value in every row that determines the others. */
  predicate IsSingleKey(rows: seq<Row>, cols: seq<string>, score: FdScore, col: string)
  {
    !HasNull(rows, col) && NUnique(rows, col) == |rows| && DeterminesOthers(rows, cols, [col], score)
  }

  /** Method 2: a null-free combination whose joined key is distinct in every row and that determines the others. */
  predicate IsCompositeKey(rows: seq<Row>, cols: seq<string>, score: FdScore, combo: seq<string>)
  {
    && (forall c :: c in combo ==> !HasNull(rows, c))
    && |KeySet(rows, combo)| == |rows|
    && DeterminesOthers(rows, cols, combo, score)
  }

  /** The uniqueness test of method 3: `nunique` of the column for one column, of the joined key otherwise. */
  predicate UniqueOn(rows: seq<Row>, combo: seq<string>)
  {
    if |combo| == 1 then NUnique(rows, combo[0]) == |rows| else |KeySet(rows, combo)| == |rows|
  }

  /** Method 3: a combination whose bounded closure under the FDs is every column, and that is unique. */
  predicate IsInferredKey(rows: seq<Row>, cols: seq<string>, fds: seq<FunctionalDependency>, combo: seq<string>)
  {
    Closure(fds, Elements(combo), MaxPasses) == Elements(cols) && UniqueOn(rows, combo)
  }

  function SingleKeys(rows: seq<Row>, cols: seq<string>, score: FdScore): seq<set<string>>
  {
    Singletons(cols, c => IsSingleKey(rows, cols, score, c))
  }

  function CompositeKeysOfSize(rows: seq<Row>, cols: seq<string>, score: FdScore, size: nat): seq<set<string>>
  {
    SetsOf(Combinations(cols, size), combo => IsCompositeKey(rows, cols, score, combo))
  }

  function InferredKeysOfSize(rows: seq<Row>, cols: seq<string>, fds: seq<FunctionalDependency>, size: nat): seq<set<string>>
  {
    SetsOf(Combinations(cols, size), combo => IsInferredKey(rows, cols, fds, combo))
  }

  /** The largest key size methods 2 and 3 try: `min(len(columns), 5)`. */
  function MaxKeySize(cols: seq<string>): nat
  {
    if |cols| < 5 then |cols| else 5
  }

  /** Method 2 from `size` on: the keys of the first size up to MaxKeySize that has any. */
  function CompositeSearch(rows: seq<Row>, cols: seq<string>, score: FdScore, size: nat): seq<set<string>>
    decreases MaxKeySize(cols) - size
  {
    if size > MaxKeySize(cols) then []
    else
      var found := CompositeKeysOfSize(rows, cols, score, size);
      if found != [] then found else CompositeSearch(rows, cols, score, size + 1)
  }

  /** Method 3 from `size` on, in the same way. */
  function InferredSearch(rows: seq<Row>, cols: seq<string>, fds: seq<FunctionalDependency>, size: nat): seq<set<string>>
    decreases MaxKeySize(cols) - size
  {
    if size > MaxKeySize(cols) then []
    else
      var found := InferredKeysOfSize(rows, cols, fds, size);
      if found != [] then found else InferredSearch(rows, cols, fds, size + 1)
  }

  /** Each method runs only when those before it found nothing; method 3 only with FDs. */
  function KeyCandidates(rows: seq<Row>, cols: seq<string>, fds: seq<FunctionalDependency>, score: FdScore): seq<set<string>>
  {
    var singles := SingleKeys(rows, cols, score);
    if singles != [] then singles
    else
      var composites := CompositeSearch(rows, cols, score, 2);
      if composites != [] then composites
      else if fds == [] then []
      else InferredSearch(rows, cols, fds, 1)
  }

  /** `_detect_candidate_keys_improved`: the candidates with superkeys removed. */
  function DetectedKeys(rows: seq<Row>, cols: seq<string>, fds: seq<FunctionalDependency>, score: FdScore): seq<set<string>>
  {
    MinimalKeys(KeyCandidates(rows, cols, fds, score))
  }

  /** The `determines_all` loop, leaving at the first column below the threshold. */
  method CheckDeterminesOthers(rows: seq<Row>, cols: seq<string>, combo: seq<string>, score: FdScore) returns (all: bool)
    ensures all == DeterminesOthers(rows, cols, combo, score)
  {
    var i := 0;
    while i < |cols|
      invariant 0 <= i <= |cols|
      invariant forall o :: o in cols[..i] && o !in combo ==> Confidence(rows, combo, [o], score) >= Threshold
    {
      var other := cols[i];
      if other !in combo {
        var confidence := CalculateConfidence(rows, combo, [other], score);
        if confidence < Threshold {
          return false;
        }
      }
      assert cols[..i + 1] == cols[..i] + [other];
      i := i + 1;
    }
    assert cols[..i] == cols;
    return true;
  }

  /** Method 1 for one column: no nulls, all values distinct, then the `determines_all` loop. */
  method CheckSingleKey(rows: seq<Row>, cols: seq<string>, score: FdScore, col: string) returns (isKey: bool)
    ensures isKey == IsSingleKey(rows, cols, score, col)
  {
    if HasNull(rows, col) || NUnique(rows, col) != |rows| {
      return false;
    }
    isKey := CheckDeterminesOthers(rows, cols, [col], score);
  }

  method FindSingleKeys(rows: seq<Row>, cols: seq<string>, score: FdScore) returns (keys: seq<set<string>>)
    ensures keys == SingleKeys(rows, cols, score)
  {
    ghost var keep := c => IsSingleKey(rows, cols, score, c);
    keys := [];
    var i := 0;
    while i < |cols|
      invariant 0 <= i <= |cols|
      invariant keys == Singletons(cols[..i], keep)
    {
      var col := cols[i];
      assert cols[..i + 1] == cols[..i] + [col];
      SingletonsSnoc(cols[..i], col, keep);
      var isKey := CheckSingleKey(rows, cols, score, col);
      assert keep(col) == isKey;
      if isKey {
        keys := keys + [{col}];
      }
      i := i + 1;
    }
    assert cols[..i] == cols;
  }

  /** Method 2 for one combination: no nulls, a distinct joined key per row, then the `determines_all` loop. */
  method CheckCompositeKey(rows: seq<Row>, cols: seq<string>, score: FdScore, combo: seq<string>) returns (isKey: bool)
    ensures isKey == IsCompositeKey(rows, cols, score, combo)
  {
    if exists c :: c in combo && HasNull(rows, c) {
      return false;
    }
    if |Elements(JoinedKeys(rows, combo))| != |rows| {
      return false;
    }
    isKey := CheckDeterminesOthers(rows, cols, combo, score);
  }

  method FindCompositeKeys(rows: seq<Row>, cols: seq<string>, size: nat, score: FdScore)
    returns (keys: seq<set<string>>)
    ensures keys == CompositeKeysOfSize(rows, cols, score, size)
  {
    var combos := Combinations(cols, size);
    ghost var keep := combo => IsCompositeKey(rows, cols, score, combo);
    keys := [];
    var k := 0;
    while k < |combos|
      invariant 0 <= k <= |combos|
      invariant keys == SetsOf(combos[..k], keep)
    {
      var combo := combos[k];
      assert combos[..k + 1] == combos[..k] + [combo];
      SetsOfSnoc(combos[..k], combo, keep);
      var isKey := CheckCompositeKey(rows, cols, score, combo);
      if isKey {
        keys := keys + [Elements(combo)];
      }
      k := k + 1;
    }
    assert combos[..k] == combos;
  }

  /** `for size in range(2, min(len(columns), 5) + 1)`, leaving at the first size with keys. */
  method SearchCompositeKeys(rows: seq<Row>, cols: seq<string>, score: FdScore) returns (candidates: seq<set<string>>)
    ensures candidates == CompositeSearch(rows, cols, score, 2)
  {
    var maxSize := MaxKeySize(cols);
    var size := 2;
    while size <= maxSize
      invariant 2 <= size
      invariant CompositeSearch(rows, cols, score, 2) == CompositeSearch(rows, cols, score, size)
    {
      candidates := FindCompositeKeys(rows, cols, size, score);
      if candidates != [] {
        return;
      }
      size := size + 1;
    }
    candidates := [];
  }

  /** The closure loop for one combination, then the uniqueness test. */
  method CheckInferredKey(rows: seq<Row>, cols: seq<string>, fds: seq<FunctionalDependency>, combo: seq<string>)
    returns (isKey: bool)
    ensures isKey == IsInferredKey(rows, cols, fds, combo)
  {
    var determined := ComputeClosure(fds, Elements(combo));
    if determined != Elements(cols) {
      return false;
    }
    if |combo| == 1 {
      isKey := NUnique(rows, combo[0]) == |rows|;
    } else {
      isKey := |Elements(JoinedKeys(rows, combo))| == |rows|;
    }
  }

  method FindInferredKeys(rows: seq<Row>, cols: seq<string>, fds: seq<FunctionalDependency>, size: nat)
    returns (keys: seq<set<string>>)
    ensures keys == InferredKeysOfSize(rows, cols, fds, size)
  {
    var combos := Combinations(cols, size);
    ghost var keep := combo => IsInferredKey(rows, cols, fds, combo);
    keys := [];
    var k := 0;
    while k < |combos|
      invariant 0 <= k <= |combos|
      invariant keys == SetsOf(combos[..k], keep)
    {
      var combo := combos[k];
      assert combos[..k + 1] == combos[..k] + [combo];
      SetsOfSnoc(combos[..k], combo, keep);
      var isKey := CheckInferredKey(rows, cols, fds, combo);
      if isKey {
        keys := keys + [Elements(combo)];
      }
      k := k + 1;
    }
    assert combos[..k] == combos;
  }

  /** `for size in range(1, max_key_size)`, leaving at the first size with keys. */
  method SearchInferredKeys(rows: seq<Row>, cols: seq<string>, fds: seq<FunctionalDependency>)
    returns (candidates: seq<set<string>>)
    ensures candidates == InferredSearch(rows, cols, fds, 1)
  {
    var maxSize := MaxKeySize(cols);
    var size := 1;
    while size <= maxSize
      invariant 1 <= size
      invariant InferredSearch(rows, cols, fds, 1) == InferredSearch(rows, cols, fds, size)
    {
      candidates := FindInferredKeys(rows, cols, fds, size);
      if candidates != [] {
        return;
      }
      size := size + 1;
    }
    candidates := [];
  }

  /** The three methods in turn, then `minimal_keys if minimal_keys else candidate_keys`. */
  method DetectCandidateKeys(rows: seq<Row>, cols: seq<string>, fds: seq<FunctionalDependency>, score: FdScore)
    returns (keys: seq<set<string>>)
    ensures keys == DetectedKeys(rows, cols, fds, score)
  {
    var candidates := FindSingleKeys(rows, cols, score);
    if candidates == [] {
      candidates := SearchCompositeKeys(rows, cols, score);
    }
    if candidates == [] && fds != [] {
      candidates := SearchInferredKeys(rows, cols, fds);
    }
    var minimal := FilterMinimalKeys(candidates);
    MinimalKeysSound(candidates);
    keys := if minimal != [] then minimal else candidates;
  }

  /** A column whose non-missing values are distinct in every row has no missing value. */
  lemma AllDistinctNoNull(rows: seq<Row>, col: string)
    requires NUnique(rows, col) == |rows|
    ensures !HasNull(rows, col)
  {
    var vs := ColumnValues(rows, col);
    ElementsCard(vs);
    if Null in vs {
      assert Elements(vs) - {Null} < Elements(vs);
      StrictSubsetCard(Elements(vs) - {Null}, Elements(vs));
      assert false;
    }
  }

  lemma {:induction false} CompositeSearchAt(rows: seq<Row>, cols: seq<string>, score: FdScore, size: nat) returns (s: nat)
    ensures CompositeSearch(rows, cols, score, size) != [] ==>
              size <= s <= MaxKeySize(cols) && CompositeSearch(rows, cols, score, size) == CompositeKeysOfSize(rows, cols, score, s)
    decreases MaxKeySize(cols) - size
  {
    s := size;
    if size <= MaxKeySize(cols) && CompositeKeysOfSize(rows, cols, score, size) == [] {
      s := CompositeSearchAt(rows, cols, score, size + 1);
    }
  }

  lemma {:induction false} InferredSearchAt(rows: seq<Row>, cols: seq<string>, fds: seq<FunctionalDependency>, size: nat) returns (s: nat)
    ensures InferredSearch(rows, cols, fds, size) != [] ==>
              size <= s <= MaxKeySize(cols) && InferredSearch(rows, cols, fds, size) == InferredKeysOfSize(rows, cols, fds, s)
    decreases MaxKeySize(cols) - size
  {
    s := size;
    if size <= MaxKeySize(cols) && InferredKeysOfSize(rows, cols, fds, size) == [] {
      s := InferredSearchAt(rows, cols, fds, size + 1);
    }
  }

  /** What justifies a key: a combination of table columns accepted by one of the three methods. */
  ghost predicate KeyEvidence(rows: seq<Row>, cols: seq<string>, fds: seq<FunctionalDependency>, score: FdScore, k: set<string>)
  {
    exists combo :: Elements(combo) == k && AcceptedCombination(rows, cols, fds, score, combo)
  }

  predicate AcceptedCombination(rows: seq<Row>, cols: seq<string>, fds: seq<FunctionalDependency>, score: FdScore, combo: seq<string>)
  {
    && (forall c :: c in combo ==> c in cols)
    && ((|combo| == 1 && IsSingleKey(rows, cols, score, combo[0])) ||
        IsCompositeKey(rows, cols, score, combo) ||
        IsInferredKey(rows, cols, fds, combo))
  }

  lemma SingleKeysSound(rows: seq<Row>, cols: seq<string>, fds: seq<FunctionalDependency>, score: FdScore)
    ensures forall k :: k in SingleKeys(rows, cols, score) ==> KeyEvidence(rows, cols, fds, score, k)
  {
    var keep := c => IsSingleKey(rows, cols, score, c);
    SingletonsShape(cols, keep);
    forall k | k in SingleKeys(rows, cols, score)
      ensures KeyEvidence(rows, cols, fds, score, k)
    {
      var x :| x in cols && k == {x} && keep(x);
      SingleKeyEvidence(rows, cols, fds, score, x);
    }
  }

  lemma SingleKeyEvidence(rows: seq<Row>, cols: seq<string>, fds: seq<FunctionalDependency>, score: FdScore, x: string)
    requires x in cols && IsSingleKey(rows, cols, score, x)
    ensures KeyEvidence(rows, cols, fds, score, {x})
  {
    var combo := [x];
    assert Elements(combo) == {x};
    assert AcceptedCombination(rows, cols, fds, score, combo);
  }

  lemma CompositeSearchSound(rows: seq<Row>, cols: seq<string>, fds: seq<FunctionalDependency>, score: FdScore)
    ensures forall k :: k in CompositeSearch(rows, cols, score, 2) ==> KeyEvidence(rows, cols, fds, score, k)
  {
    var size := CompositeSearchAt(rows, cols, score, 2);
    var keep := combo => IsCompositeKey(rows, cols, score, combo);
    SetsOfShape(Combinations(cols, size), keep);
    CombinationMembers(cols, size);
    forall k | k in CompositeSearch(rows, cols, score, 2)
      ensures KeyEvidence(rows, cols, fds, score, k)
    {
      var combo :| combo in Combinations(cols, size) && k == Elements(combo) && keep(combo);
    }
  }

  lemma InferredSearchSound(rows: seq<Row>, cols: seq<string>, fds: seq<FunctionalDependency>, score: FdScore)
    ensures forall k :: k in InferredSearch(rows, cols, fds, 1) ==> KeyEvidence(rows, cols, fds, score, k)
  {
    var size := InferredSearchAt(rows, cols, fds, 1);
    var keep := combo => IsInferredKey(rows, cols, fds, combo);
    SetsOfShape(Combinations(cols, size), keep);
    CombinationMembers(cols, size);
    forall k | k in InferredSearch(rows, cols, fds, 1)
      ensures KeyEvidence(rows, cols, fds, score, k)
    {
      var combo :| combo in Combinations(cols, size) && k == Elements(combo) && keep(combo);
    }
  }

  /** Every candidate key is justified by one of the three methods. */
  lemma KeyCandidatesSound(rows: seq<Row>, cols: seq<string>, fds: seq<FunctionalDependency>, score: FdScore)
    ensures forall k :: k in KeyCandidates(rows, cols, fds, score) ==> KeyEvidence(rows, cols, fds, score, k)
  {
    SingleKeysSound(rows, cols, fds, score);
    CompositeSearchSound(rows, cols, fds, score);
    InferredSearchSound(rows, cols, fds, score);
  }

  /** Over distinct columns every candidate key has the same size. */
  lemma KeyCandidatesSameSize(rows: seq<Row>, cols: seq<string>, fds: seq<FunctionalDependency>, score: FdScore)
    returns (size: nat)
    requires Distinct(cols)
    ensures forall k :: k in KeyCandidates(rows, cols, fds, score) ==> |k| == size
  {
    var singles := SingleKeys(rows, cols, score);
    var composites := CompositeSearch(rows, cols, score, 2);
    size := 0;
    if singles != [] {
      SingletonsShape(cols, c => IsSingleKey(rows, cols, score, c));
      size := 1;
    } else if composites != [] {
      size := CompositeSearchAt(rows, cols, score, 2);
      SetsOfShape(Combinations(cols, size), combo => IsCompositeKey(rows, cols, score, combo));
      CombinationShape(cols, size);
      forall k | k in composites
        ensures |k| == size
      {
        var combo :| combo in Combinations(cols, size) && k == Elements(combo);
        DistinctCard(combo);
      }
    } else if fds != [] {
      var inferred := InferredSearch(rows, cols, fds, 1);
      size := InferredSearchAt(rows, cols, fds, 1);
      SetsOfShape(Combinations(cols, size), combo => IsInferredKey(rows, cols, fds, combo));
      CombinationShape(cols, size);
      forall k | k in inferred
        ensures |k| == size
      {
        var combo :| combo in Combinations(cols, size) && k == Elements(combo);
        DistinctCard(combo);
      }
    }
  }

  /** A method-3 key of one column passed the `nunique() == n_rows` test, so it has no missing value. */
  lemma InferredSingleNoNull(rows: seq<Row>, cols: seq<string>, fds: seq<FunctionalDependency>, combo: seq<string>, c: string)
    requires IsInferredKey(rows, cols, fds, combo) && Distinct(combo)
    requires |Elements(combo)| == 1 && c in Elements(combo)
    ensures !HasNull(rows, c)
  {
    DistinctCard(combo);
    assert combo == [combo[0]];
    AllDistinctNoNull(rows, combo[0]);
  }

  /**
   * No candidate key of one column has a missing value: method 1 skips such columns, method 2
   * only accepts null-free combinations, and method 3's uniqueness test fails on them.
   */
  lemma SingleColumnKeysNoNull(rows: seq<Row>, cols: seq<string>, fds: seq<FunctionalDependency>, score: FdScore)
    requires Distinct(cols)
    ensures forall k, c :: k in KeyCandidates(rows, cols, fds, score) && |k| == 1 && c in k ==> !HasNull(rows, c)
  {
    if SingleKeys(rows, cols, score) != [] {
      SingletonsShape(cols, c => IsSingleKey(rows, cols, score, c));
    } else if CompositeSearch(rows, cols, score, 2) != [] {
      var size := CompositeSearchAt(rows, cols, score, 2);
      SetsOfShape(Combinations(cols, size), combo => IsCompositeKey(rows, cols, score, combo));
    } else if fds != [] {
      var size := InferredSearchAt(rows, cols, fds, 1);
      SetsOfShape(Combinations(cols, size), combo => IsInferredKey(rows, cols, fds, combo));
      CombinationShape(cols, size);
      forall k, c | k in KeyCandidates(rows, cols, fds, score) && |k| == 1 && c in k
        ensures !HasNull(rows, c)
      {
        var combo :| combo in Combinations(cols, size) && k == Elements(combo) && IsInferredKey(rows, cols, fds, combo);
        InferredSingleNoNull(rows, cols, fds, combo, c);
      }
    }
  }

  /**
   * Since every candidate has the same size, the superkey filter returns its input; no key
   * strictly contains another, every key is justified by one of the methods, and a key of one
   * column never has a missing value.
   */
  lemma DetectedKeysShape(rows: seq<Row>, cols: seq<string>, fds: seq<FunctionalDependency>, score: FdScore)
    requires Distinct(cols)
    ensures DetectedKeys(rows, cols, fds, score) == KeyCandidates(rows, cols, fds, score)
    ensures forall a, b :: a in DetectedKeys(rows, cols, fds, score) && b in DetectedKeys(rows, cols, fds, score) ==> !(a < b)
    ensures forall k :: k in DetectedKeys(rows, cols, fds, score) ==> KeyEvidence(rows, cols, fds, score, k)
    ensures forall k, c :: k in DetectedKeys(rows, cols, fds, score) && |k| == 1 && c in k ==> !HasNull(rows, c)
  {
    var size := KeyCandidatesSameSize(rows, cols, fds, score);
    MinimalKeysSameSize(KeyCandidates(rows, cols, fds, score), size);
    MinimalKeysSound(KeyCandidates(rows, cols, fds, score));
    KeyCandidatesSound(rows, cols, fds, score);
    SingleColumnKeysNoNull(rows, cols, fds, score);
  }

  // ---------------------------------------------------------------------------------------
  // Entry point
  // ---------------------------------------------------------------------------------------

  /**
   * `detect_all_dependencies`: nothing below three rows; otherwise the FDs over the frame's
   * own columns (the `column_names` argument is not used), then the keys, found with those FDs.
   */
  method DetectAllDependencies(rows: seq<Row>, columnNames: seq<string>, score: FdScore)
    returns (fds: seq<FunctionalDependency>, keys: seq<set<string>>)
    ensures |rows| < MinRows ==> fds == [] && keys == []
    ensures |rows| >= MinRows ==>
              && Descending(fds)
              && multiset(fds) == multiset(KeepStrongest(CandidateFds(rows, FrameColumns(rows), score)))
              && keys == DetectedKeys(rows, FrameColumns(rows), fds, score)
  {
    if |rows| == 0 || |rows| < MinRows {
      return [], [];
    }
    var cols := FrameColumns(rows);
    fds := DetectFunctionalDependencies(rows, cols, score);
    keys := DetectCandidateKeys(rows, cols, fds, score);
  }
}
