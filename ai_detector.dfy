/**
 * The dependency detector the engine uses (backend/app/services/ai_dependency_detector.py):
 * its row-count gate, the count form of the FD confidence, the FD search order, the
 * candidate-key search, the MVD pair enumeration and the column renaming step.
 * The MVD score (mutual information) is a parameter.
 */
module AiDetector {
  import opened Strings
  import opened Seqs
  import opened TableModel
  import opened Frames
  import opened Dependencies

  /** The detector's default `confidence_threshold`. */
  const Threshold: real := 0.85

  function Min(a: real, b: real): real
  {
    if a <= b then a else b
  }

  // ---------------------------------------------------------------------------------------
  // FD confidence, count form
  // ---------------------------------------------------------------------------------------

  /** `df[det_key == k][dependent].drop_duplicates()`: the distinct dependent tuples of the rows with key `k`. */
  function DepTuplesAt(rows: seq<Row>, det: seq<string>, dep: seq<string>, k: string): set<seq<Value>>
  {
    set r | r in rows && JoinedKey(r, det) == k :: Tuple(r, dep)
  }

  /** `det_key + '_' + dep_key`, row by row. */
  function CombinedKeys(rows: seq<Row>, det: seq<string>, dep: seq<string>): (keys: seq<string>)
    ensures |keys| == |rows|
    ensures forall i :: 0 <= i < |rows| ==> keys[i] == JoinedKey(rows[i], det) + "_" + JoinedKey(rows[i], dep)
  {
    seq(|rows|, i requires 0 <= i < |rows| => JoinedKey(rows[i], det) + "_" + JoinedKey(rows[i], dep))
  }

  /** How many of the determinant values `ks` have more than one distinct dependent tuple. */
  function ViolationCount(rows: seq<Row>, det: seq<string>, dep: seq<string>, ks: seq<string>): (v: nat)
    ensures v <= |ks|
  {
    if ks == [] then 0
    else ViolationCount(rows, det, dep, ks[..|ks| - 1])
         + (if |DepTuplesAt(rows, det, dep, ks[|ks| - 1])| > 1 then 1 else 0)
  }

  /** The arithmetic of the count form: the ratio of distinct keys, times one minus the violation share, capped at 1. */
  function Scaled(ud: nat, uc: nat, v: nat): real
    requires ud > 0
  {
    var ratio := if uc > 0 then ud as real / uc as real else 0.0;
    Min(ratio * (1.0 - v as real / ud as real), 1.0)
  }

  /** `_calculate_fd_confidence`: distinct determinants over distinct combined keys, scaled down by violations, capped at 1. */
  function FdConfidence(rows: seq<Row>, det: seq<string>, dep: seq<string>): real
  {
    var ud := |KeySet(rows, det)|;
    if ud == 0 then 0.0
    else Scaled(ud, |Elements(CombinedKeys(rows, det, dep))|, ViolationCount(rows, det, dep, Dedup(JoinedKeys(rows, det))))
  }

  /** The loop over `det_key.unique()` that counts determinant values with several dependent tuples. */
  method CountViolations(rows: seq<Row>, det: seq<string>, dep: seq<string>, values: seq<string>) returns (violations: nat)
    ensures violations == ViolationCount(rows, det, dep, values)
  {
    violations := 0;
    var i := 0;
    while i < |values|
      invariant 0 <= i <= |values|
      invariant violations == ViolationCount(rows, det, dep, values[..i])
    {
      assert values[..i + 1][..i] == values[..i];
      var depVals := DepTuplesAt(rows, det, dep, values[i]);
      if |depVals| > 1 {
        violations := violations + 1;
      }
      i := i + 1;
    }
    assert values[..i] == values;
  }

  /** The confidence computation of the count form. */
  method CalculateFdConfidence(rows: seq<Row>, det: seq<string>, dep: seq<string>) returns (confidence: real)
    ensures confidence == FdConfidence(rows, det, dep)
  {
    var detKey := JoinedKeys(rows, det);
    var combined := CombinedKeys(rows, det, dep);
    var uniqueDet := |Elements(detKey)|;
    var uniqueCombined := |Elements(combined)|;
    if uniqueDet == 0 {
      return 0.0;
    }
    var violations := CountViolations(rows, det, dep, Dedup(detKey));
    confidence := ScaleConfidence(uniqueDet, uniqueCombined, violations);
  }

  /** The arithmetic steps: the ratio, the violation penalty, the cap. */
  method ScaleConfidence(uniqueDet: nat, uniqueCombined: nat, violations: nat) returns (confidence: real)
    requires uniqueDet > 0
    ensures confidence == Scaled(uniqueDet, uniqueCombined, violations)
  {
    confidence := if uniqueCombined > 0 then uniqueDet as real / uniqueCombined as real else 0.0;
    var penalty := violations as real / uniqueDet as real;
    confidence := confidence * (1.0 - penalty);
    confidence := Min(confidence, 1.0);
  }

  /** The confidence always lies in [0, 1], and is 0.0 for a frame without rows. */
  lemma FdConfidenceBounds(rows: seq<Row>, det: seq<string>, dep: seq<string>)
    ensures 0.0 <= FdConfidence(rows, det, dep) <= 1.0
    ensures rows == [] ==> FdConfidence(rows, det, dep) == 0.0
  {
    var ud := |KeySet(rows, det)|;
    if ud != 0 {
      DedupCard(JoinedKeys(rows, det));
      var v := ViolationCount(rows, det, dep, Dedup(JoinedKeys(rows, det)));
      ScaledBounds(ud, |Elements(CombinedKeys(rows, det, dep))|, v);
    }
    if rows == [] {
      assert JoinedKeys(rows, det) == [];
    }
  }

  /** The scaled ratio lies in [0, 1], and is exactly 1.0 with no violations and no more combined keys than determinant keys. */
  lemma ScaledBounds(ud: nat, uc: nat, v: nat)
    requires 0 < ud && v <= ud
    ensures 0.0 <= Scaled(ud, uc, v) <= 1.0
    ensures v == 0 && 0 < uc <= ud ==> Scaled(ud, uc, v) == 1.0
  {
    var share := v as real / ud as real;
    assert 0.0 <= share <= 1.0 by {
      assert share * ud as real == v as real;
    }
    var ratio := if uc > 0 then ud as real / uc as real else 0.0;
    assert 0.0 <= ratio * (1.0 - share) by {
      if ratio > 0.0 && share < 1.0 {
        assert ratio * (1.0 - share) > 0.0;
      }
    }
    if v == 0 && 0 < uc <= ud {
      assert ratio >= 1.0 by {
        assert uc as real * (ratio - 1.0) == ud as real - uc as real;
      }
      assert share == 0.0;
    }
  }

  /** Rows that agree on the determinant key agree on the dependent key. */
  predicate KeyFunctional(rows: seq<Row>, det: seq<string>, dep: seq<string>)
  {
    forall i, j :: 0 <= i < |rows| && 0 <= j < |rows| && JoinedKey(rows[i], det) == JoinedKey(rows[j], det)
      ==> JoinedKey(rows[i], dep) == JoinedKey(rows[j], dep)
  }

  /** A set with at most one element cannot hold two different values. */
  lemma AtMostOne<T>(s: set<T>, a: T, b: T)
    requires |s| <= 1 && a in s && b in s
    ensures a == b
  {
    SubsetCard({a, b}, s);
  }

  /** No determinant value with two distinct dependent tuples: the dependent key is a function of the determinant key. */
  lemma TuplesFixDependentKey(rows: seq<Row>, det: seq<string>, dep: seq<string>)
    requires forall k :: k in KeySet(rows, det) ==> |DepTuplesAt(rows, det, dep, k)| <= 1
    ensures KeyFunctional(rows, det, dep)
  {
    forall i, j | 0 <= i < |rows| && 0 <= j < |rows| && JoinedKey(rows[i], det) == JoinedKey(rows[j], det)
      ensures JoinedKey(rows[i], dep) == JoinedKey(rows[j], dep)
    {
      var k := JoinedKey(rows[i], det);
      assert JoinedKeys(rows, det)[i] == k;
      var s := DepTuplesAt(rows, det, dep, k);
      assert Tuple(rows[i], dep) in s by { assert rows[i] in rows; }
      assert Tuple(rows[j], dep) in s by { assert rows[j] in rows; }
      AtMostOne(s, Tuple(rows[i], dep), Tuple(rows[j], dep));
      JoinedKeyOfTuple(rows[i], rows[j], dep);
    }
  }

  /** When the determinant key fixes the dependent key, there are no more combined keys than determinant keys. */
  lemma CombinedAtMostDeterminants(rows: seq<Row>, det: seq<string>, dep: seq<string>)
    requires KeyFunctional(rows, det, dep)
    ensures |Elements(CombinedKeys(rows, det, dep))| <= |KeySet(rows, det)|
  {
    FixedByFewer(JoinedKeys(rows, det), CombinedKeys(rows, det, dep));
  }

  /** No determinant value with two distinct dependent tuples: nothing is counted. */
  lemma {:induction false} NoViolations(rows: seq<Row>, det: seq<string>, dep: seq<string>, ks: seq<string>)
    requires forall k :: k in ks ==> |DepTuplesAt(rows, det, dep, k)| <= 1
    ensures ViolationCount(rows, det, dep, ks) == 0
  {
    if ks != [] {
      NoViolations(rows, det, dep, ks[..|ks| - 1]);
    }
  }

  /**
   * When no determinant value has two distinct dependent tuples, the confidence of a
   * non-empty frame is exactly 1.0.
   */
  lemma FdConfidenceExact(rows: seq<Row>, det: seq<string>, dep: seq<string>)
    requires rows != []
    requires forall k :: k in KeySet(rows, det) ==> |DepTuplesAt(rows, det, dep, k)| <= 1
    ensures FdConfidence(rows, det, dep) == 1.0
  {
    var keys := JoinedKeys(rows, det);
    var combined := CombinedKeys(rows, det, dep);
    assert keys[0] in KeySet(rows, det);
    assert combined[0] in Elements(combined);
    NoViolations(rows, det, dep, Dedup(keys));
    TuplesFixDependentKey(rows, det, dep);
    CombinedAtMostDeterminants(rows, det, dep);
    ScaledBounds(|KeySet(rows, det)|, |Elements(combined)|, 0);
  }

  // ---------------------------------------------------------------------------------------
  // FD search
  // ---------------------------------------------------------------------------------------

  /** The single-column FDs found for one determinant column, scanning `deps` in order. */
  function SingleFdsFor(rows: seq<Row>, det: string, deps: seq<string>): seq<FunctionalDependency>
  {
    if deps == [] then []
    else
      var init := SingleFdsFor(rows, det, deps[..|deps| - 1]);
      var dep := deps[|deps| - 1];
      if dep == det then init
      else
        var c := FdConfidence(rows, [det], [dep]);
        if c >= Threshold then init + [FunctionalDependency({det}, {dep}, c)] else init
  }

  /** The single-column FDs for each determinant of `dets`, determinant after determinant. */
  function SingleFds(rows: seq<Row>, dets: seq<string>, cols: seq<string>): seq<FunctionalDependency>
  {
    if dets == [] then []
    else SingleFds(rows, dets[..|dets| - 1], cols) + SingleFdsFor(rows, dets[|dets| - 1], cols)
  }

  /** The FDs found for one determinant pair, scanning `deps` in order. */
  function PairFdsFor(rows: seq<Row>, pair: seq<string>, deps: seq<string>): seq<FunctionalDependency>
    requires |pair| == 2
  {
    if deps == [] then []
    else
      var init := PairFdsFor(rows, pair, deps[..|deps| - 1]);
      var dep := deps[|deps| - 1];
      if dep in pair then init
      else
        var c := FdConfidence(rows, pair, [dep]);
        if c >= Threshold then init + [FunctionalDependency({pair[0], pair[1]}, {dep}, c)] else init
  }

  /** The FDs found for each pair of `pairs`, pair after pair. */
  function PairFds(rows: seq<Row>, pairs: seq<seq<string>>, cols: seq<string>): seq<FunctionalDependency>
    requires forall p :: p in pairs ==> |p| == 2
  {
    if pairs == [] then []
    else PairFds(rows, pairs[..|pairs| - 1], cols) + PairFdsFor(rows, pairs[|pairs| - 1], cols)
  }

  /** Every FD the search accepts, before post-processing: single columns first, then pairs. */
  function CandidateFds(rows: seq<Row>, cols: seq<string>): seq<FunctionalDependency>
  {
    CombinationShape(cols, 2);
    SingleFds(rows, cols, cols) + PairFds(rows, Combinations(cols, 2), cols)
  }

  /** `_detect_functional_dependencies`. */
  function DetectedFds(rows: seq<Row>, cols: seq<string>): seq<FunctionalDependency>
  {
    KeepStrongest(CandidateFds(rows, cols))
  }

  /** The inner loop for one determinant column: every other column as a dependent, in order. */
  method ScanSingle(rows: seq<Row>, det: string, cols: seq<string>) returns (found: seq<FunctionalDependency>)
    ensures found == SingleFdsFor(rows, det, cols)
  {
    found := [];
    var j := 0;
    while j < |cols|
      invariant 0 <= j <= |cols|
      invariant found == SingleFdsFor(rows, det, cols[..j])
    {
      var dep := cols[j];
      assert cols[..j + 1][..j] == cols[..j];
      if det != dep {
        var confidence := CalculateFdConfidence(rows, [det], [dep]);
        if confidence >= Threshold {
          found := found + [FunctionalDependency({det}, {dep}, confidence)];
        }
      }
      j := j + 1;
    }
    assert cols[..j] == cols;
  }

  /** The inner loop for one determinant pair: every column outside the pair as a dependent, in order. */
  method ScanPair(rows: seq<Row>, pair: seq<string>, cols: seq<string>) returns (found: seq<FunctionalDependency>)
    requires |pair| == 2
    ensures found == PairFdsFor(rows, pair, cols)
  {
    found := [];
    var j := 0;
    while j < |cols|
      invariant 0 <= j <= |cols|
      invariant found == PairFdsFor(rows, pair, cols[..j])
    {
      var dep := cols[j];
      assert cols[..j + 1][..j] == cols[..j];
      if dep !in pair {
        var confidence := CalculateFdConfidence(rows, pair, [dep]);
        if confidence >= Threshold {
          found := found + [FunctionalDependency({pair[0], pair[1]}, {dep}, confidence)];
        }
      }
      j := j + 1;
    }
    assert cols[..j] == cols;
  }

  /** The outer loop over single determinant columns. */
  method ScanAllSingles(rows: seq<Row>, cols: seq<string>) returns (fds: seq<FunctionalDependency>)
    ensures fds == SingleFds(rows, cols, cols)
  {
    fds := [];
    var i := 0;
    while i < |cols|
      invariant 0 <= i <= |cols|
      invariant fds == SingleFds(rows, cols[..i], cols)
    {
      assert cols[..i + 1][..i] == cols[..i];
      var found := ScanSingle(rows, cols[i], cols);
      fds := fds + found;
      i := i + 1;
    }
    assert cols[..i] == cols;
  }

  /** The outer loop over determinant pairs. */
  method ScanAllPairs(rows: seq<Row>, pairs: seq<seq<string>>, cols: seq<string>) returns (fds: seq<FunctionalDependency>)
    requires forall p :: p in pairs ==> |p| == 2
    ensures fds == PairFds(rows, pairs, cols)
  {
    fds := [];
    var k := 0;
    while k < |pairs|
      invariant 0 <= k <= |pairs|
      invariant fds == PairFds(rows, pairs[..k], cols)
    {
      assert pairs[..k + 1][..k] == pairs[..k];
      var found := ScanPair(rows, pairs[k], cols);
      fds := fds + found;
      k := k + 1;
    }
    assert pairs[..k] == pairs;
  }

  /** The search for FDs: single determinant columns, then pairs in `combinations` order, then post-processing. */
  method DetectFunctionalDependencies(rows: seq<Row>, cols: seq<string>) returns (fds: seq<FunctionalDependency>)
    ensures fds == DetectedFds(rows, cols)
  {
    var singles := ScanAllSingles(rows, cols);
    CombinationShape(cols, 2);
    var pairs := ScanAllPairs(rows, Combinations(cols, 2), cols);
    assert singles + pairs == CandidateFds(rows, cols);
    fds := RemoveRedundantFds(singles + pairs);
  }

  /** What an accepted FD looks like: one or two determinant columns, one other dependent column, confidence at the threshold or above. */
  predicate SearchShaped(fd: FunctionalDependency, cols: seq<string>)
  {
    ((exists a :: a in cols && fd.determinant == {a})
      || (exists a, b :: a in cols && b in cols && a != b && fd.determinant == {a, b}))
    && (exists d :: d in cols && d !in fd.determinant && fd.dependent == {d})
    && Threshold <= fd.confidence <= 1.0
  }

  lemma {:induction false} SingleFdsForShape(rows: seq<Row>, det: string, deps: seq<string>, cols: seq<string>)
    requires det in cols && forall d :: d in deps ==> d in cols
    ensures forall fd :: fd in SingleFdsFor(rows, det, deps) ==> SearchShaped(fd, cols)
  {
    if deps != [] {
      var init := deps[..|deps| - 1];
      var dep := deps[|deps| - 1];
      assert forall d :: d in init ==> d in deps;
      SingleFdsForShape(rows, det, init, cols);
      if dep != det {
        var c := FdConfidence(rows, [det], [dep]);
        FdConfidenceBounds(rows, [det], [dep]);
        if c >= Threshold {
          SingleShaped(det, dep, c, cols);
        }
      }
    }
  }

  /** A recorded single-column FD has the search's shape. */
  lemma SingleShaped(det: string, dep: string, c: real, cols: seq<string>)
    requires det in cols && dep in cols && dep != det && Threshold <= c <= 1.0
    ensures SearchShaped(FunctionalDependency({det}, {dep}, c), cols)
  {
    assert dep !in {det};
  }

  lemma {:induction false} SingleFdsShape(rows: seq<Row>, dets: seq<string>, cols: seq<string>)
    requires forall d :: d in dets ==> d in cols
    ensures forall fd :: fd in SingleFds(rows, dets, cols) ==> SearchShaped(fd, cols)
  {
    if dets != [] {
      SingleFdsShape(rows, dets[..|dets| - 1], cols);
      SingleFdsForShape(rows, dets[|dets| - 1], cols, cols);
    }
  }

  lemma {:induction false} PairFdsForShape(rows: seq<Row>, pair: seq<string>, deps: seq<string>, cols: seq<string>)
    requires |pair| == 2 && pair[0] != pair[1] && pair[0] in cols && pair[1] in cols
    requires forall d :: d in deps ==> d in cols
    ensures forall fd :: fd in PairFdsFor(rows, pair, deps) ==> SearchShaped(fd, cols)
  {
    if deps != [] {
      var dep := deps[|deps| - 1];
      PairFdsForShape(rows, pair, deps[..|deps| - 1], cols);
      FdConfidenceBounds(rows, pair, [dep]);
    }
  }

  lemma {:induction false} PairFdsShape(rows: seq<Row>, pairs: seq<seq<string>>, cols: seq<string>)
    requires forall p :: p in pairs ==> |p| == 2 && Distinct(p) && forall x :: x in p ==> x in cols
    ensures forall fd :: fd in PairFds(rows, pairs, cols) ==> SearchShaped(fd, cols)
  {
    if pairs != [] {
      var p := pairs[|pairs| - 1];
      PairFdsShape(rows, pairs[..|pairs| - 1], cols);
      assert p[0] in p && p[1] in p;
      PairFdsForShape(rows, p, cols, cols);
    }
  }

  /**
   * Every detected FD has one or two determinant columns of the frame, a single dependent
   * column outside its determinant (never a column paired with itself), a confidence in
   * [0.85, 1]; at most one FD per (determinant, dependent) pair.
   */
  lemma DetectedFdsShape(rows: seq<Row>, cols: seq<string>)
    requires Distinct(cols)
    ensures forall fd :: fd in DetectedFds(rows, cols) ==> SearchShaped(fd, cols)
    ensures Distinct(PairsOf(DetectedFds(rows, cols)))
  {
    SingleFdsShape(rows, cols, cols);
    CombinationShape(cols, 2);
    PairFdsShape(rows, Combinations(cols, 2), cols);
    KeepStrongestShape(CandidateFds(rows, cols));
  }

  // ---------------------------------------------------------------------------------------
  // Candidate keys
  // ---------------------------------------------------------------------------------------

  /** `df[col].nunique() == len(df) and not df[col].isnull().any()`. */
  predicate IsSingleKey(rows: seq<Row>, col: string)
  {
    NUnique(rows, col) == |rows| && !HasNull(rows, col)
  }

  /** `{col}` for each single-column key of `cols`, in column order. */
  function SingleKeys(rows: seq<Row>, cols: seq<string>): seq<set<string>>
  {
    Singletons(cols, c => IsSingleKey(rows, c))
  }

  /** Every column outside `combo` is determined by it with confidence at the threshold or above. */
  predicate DeterminesAll(rows: seq<Row>, cols: seq<string>, combo: seq<string>)
  {
    forall o :: o in cols && o !in combo ==> FdConfidence(rows, combo, [o]) >= Threshold
  }

  /** A combination is accepted when its joined keys are all distinct and it determines every other column. */
  predicate IsCompositeKey(rows: seq<Row>, cols: seq<string>, combo: seq<string>)
  {
    |KeySet(rows, combo)| == |rows| && DeterminesAll(rows, cols, combo)
  }

  /** The accepted combinations of `combos`, as sets, in order. */
  function KeysAmong(rows: seq<Row>, cols: seq<string>, combos: seq<seq<string>>): seq<set<string>>
  {
    SetsOf(combos, c => IsCompositeKey(rows, cols, c))
  }

  /** The accepted combinations of `size` columns, in `combinations` order. */
  function KeysOfSize(rows: seq<Row>, cols: seq<string>, size: nat): seq<set<string>>
  {
    KeysAmong(rows, cols, Combinations(cols, size))
  }

  /** Sizes `size`..`maxSize` in turn; the keys of the first size that has any. */
  function CompositeSearch(rows: seq<Row>, cols: seq<string>, size: nat, maxSize: nat): seq<set<string>>
  {
    FirstNonEmpty((n: nat) => KeysOfSize(rows, cols, n), size, maxSize)
  }

  /** The keys before the superkey filter: single columns, or else composites of 2..min(n, 4) columns. */
  function KeyCandidates(rows: seq<Row>, cols: seq<string>): seq<set<string>>
  {
    var singles := SingleKeys(rows, cols);
    if singles != [] then singles else CompositeSearch(rows, cols, 2, if |cols| < 4 then |cols| else 4)
  }

  /** `_detect_candidate_keys`. */
  function DetectedKeys(rows: seq<Row>, cols: seq<string>): seq<set<string>>
  {
    MinimalKeys(KeyCandidates(rows, cols))
  }

  /** The all-check over the other columns, stopping at the first that is not determined. */
  method CheckDeterminesAll(rows: seq<Row>, cols: seq<string>, combo: seq<string>) returns (all: bool)
    ensures all == DeterminesAll(rows, cols, combo)
  {
    all := true;
    var i := 0;
    while i < |cols| && all
      invariant 0 <= i <= |cols|
      invariant all <==> forall m :: 0 <= m < i && cols[m] !in combo ==> FdConfidence(rows, combo, [cols[m]]) >= Threshold
    {
      if cols[i] !in combo {
        var confidence := CalculateFdConfidence(rows, combo, [cols[i]]);
        if confidence < Threshold {
          all := false;
        }
      }
      i := i + 1;
    }
  }

  /** The loop over single columns. */
  method FindSingleKeys(rows: seq<Row>, cols: seq<string>) returns (keys: seq<set<string>>)
    ensures keys == SingleKeys(rows, cols)
  {
    ghost var keep := c => IsSingleKey(rows, c);
    keys := [];
    var i := 0;
    while i < |cols|
      invariant 0 <= i <= |cols|
      invariant keys == Singletons(cols[..i], keep)
    {
      var col := cols[i];
      assert cols[..i + 1][..i] == cols[..i];
      if NUnique(rows, col) == |rows| && !HasNull(rows, col) {
        keys := keys + [{col}];
      }
      i := i + 1;
    }
    assert cols[..i] == cols;
  }

  /** The loop over the combinations of one size. */
  method FindKeysAmong(rows: seq<Row>, cols: seq<string>, combos: seq<seq<string>>) returns (keys: seq<set<string>>)
    ensures keys == KeysAmong(rows, cols, combos)
  {
    ghost var keep := c => IsCompositeKey(rows, cols, c);
    keys := [];
    var k := 0;
    while k < |combos|
      invariant 0 <= k <= |combos|
      invariant keys == SetsOf(combos[..k], keep)
    {
      var combo := combos[k];
      assert combos[..k + 1][..k] == combos[..k];
      var joined := JoinedKeys(rows, combo);
      if |Elements(joined)| == |rows| {
        var all := CheckDeterminesAll(rows, cols, combo);
        if all {
          keys := keys + [Elements(combo)];
        }
      }
      k := k + 1;
    }
    assert combos[..k] == combos;
  }

  /** The loop over composite sizes 2..`maxSize`, stopping at the first size that yields keys. */
  method SearchComposites(rows: seq<Row>, cols: seq<string>, maxSize: nat) returns (candidates: seq<set<string>>)
    ensures candidates == CompositeSearch(rows, cols, 2, maxSize)
  {
    ghost var f := (n: nat) => KeysOfSize(rows, cols, n);
    var size := 2;
    while size <= maxSize
      invariant 2 <= size
      invariant FirstNonEmpty(f, 2, maxSize) == FirstNonEmpty(f, size, maxSize)
    {
      candidates := FindKeysAmong(rows, cols, Combinations(cols, size));
      assert candidates == f(size);
      if candidates != [] {
        return;
      }
      size := size + 1;
    }
    candidates := [];
  }

  /** The key search: single columns, then composite sizes until one yields keys, then the superkey filter. */
  method DetectCandidateKeys(rows: seq<Row>, cols: seq<string>) returns (keys: seq<set<string>>)
    ensures keys == DetectedKeys(rows, cols)
  {
    var candidates := FindSingleKeys(rows, cols);
    if candidates == [] {
      candidates := SearchComposites(rows, cols, if |cols| < 4 then |cols| else 4);
    }
    keys := FilterMinimalKeys(candidates);
  }

  /** Over distinct columns, every candidate key has the same size. */
  lemma KeyCandidatesSameSize(rows: seq<Row>, cols: seq<string>) returns (size: nat)
    requires Distinct(cols)
    ensures forall k :: k in KeyCandidates(rows, cols) ==> |k| == size
  {
    var singles := SingleKeys(rows, cols);
    if singles != [] {
      SingletonsShape(cols, c => IsSingleKey(rows, c));
      size := 1;
    } else {
      var maxSize := if |cols| < 4 then |cols| else 4;
      var r := CompositeSearch(rows, cols, 2, maxSize);
      var s := FirstNonEmptyAt((n: nat) => KeysOfSize(rows, cols, n), 2, maxSize);
      if r == [] {
        size := 0;
      } else {
        CombinationShape(cols, s);
        SetsOfShape(Combinations(cols, s), c => IsCompositeKey(rows, cols, c));
        forall k | k in r
          ensures |k| == s
        {
          var c :| c in Combinations(cols, s) && k == Elements(c);
          DistinctCard(c);
        }
        size := s;
      }
    }
  }

  /**
   * All keys found have the same size, so the superkey filter returns its input: single
   * null-free all-distinct columns when there are any, else the accepted combinations of
   * the first size (2..min(n, 4)) that has one. No key strictly contains another.
   */
  lemma DetectedKeysUnfiltered(rows: seq<Row>, cols: seq<string>)
    requires Distinct(cols)
    ensures DetectedKeys(rows, cols) == KeyCandidates(rows, cols)
    ensures forall a, b :: a in DetectedKeys(rows, cols) && b in DetectedKeys(rows, cols) ==> !(a < b)
  {
    var size := KeyCandidatesSameSize(rows, cols);
    MinimalKeysSameSize(KeyCandidates(rows, cols), size);
    MinimalKeysSound(KeyCandidates(rows, cols));
  }

  // ---------------------------------------------------------------------------------------
  // Multi-valued dependencies: the pair enumeration
  // ---------------------------------------------------------------------------------------

  /**
   * `_calculate_mvd_confidence(df, key, a, b)`: the mutual-information score of `a` against `b`
   * given the key. Only its use is modelled, so it is a parameter of the detector.
   */
  type MvdScore = (seq<Row>, set<string>, string, string) -> real

  /** `[col for col in columns if col not in key]`. */
  function NonKeyColumns(cols: seq<string>, key: set<string>): (others: seq<string>)
    ensures forall c :: c in others <==> c in cols && c !in key
    ensures Distinct(cols) ==> Distinct(others)
  {
    if cols == [] then []
    else
      var init := NonKeyColumns(cols[..|cols| - 1], key);
      var c := cols[|cols| - 1];
      assert cols == cols[..|cols| - 1] + [c];
      if c !in key then init + [c] else init
  }

  /** The MVDs `key ->> {a}` accepted over the pairs `(a, b)`, in order. */
  function MvdsForPairs(rows: seq<Row>, key: set<string>, pairs: seq<seq<string>>, score: MvdScore): seq<MultiValuedDependency>
    requires forall p :: p in pairs ==> |p| == 2
  {
    if pairs == [] then []
    else
      var init := MvdsForPairs(rows, key, pairs[..|pairs| - 1], score);
      var p := pairs[|pairs| - 1];
      var confidence := score(rows, key, p[0], p[1]);
      if confidence >= Threshold then init + [MultiValuedDependency(key, {p[0]}, confidence)] else init
  }

  /** The non-key pairs of one key, in `combinations` order. */
  function NonKeyPairs(cols: seq<string>, key: set<string>): (pairs: seq<seq<string>>)
    ensures forall p :: p in pairs ==> |p| == 2
  {
    CombinationShape(NonKeyColumns(cols, key), 2);
    Combinations(NonKeyColumns(cols, key), 2)
  }

  /** The MVDs of every key in turn. */
  function MvdsForKeys(rows: seq<Row>, cols: seq<string>, keys: seq<set<string>>, score: MvdScore): seq<MultiValuedDependency>
  {
    if keys == [] then []
    else
      var key := keys[|keys| - 1];
      MvdsForKeys(rows, cols, keys[..|keys| - 1], score) + MvdsForPairs(rows, key, NonKeyPairs(cols, key), score)
  }

  /** `_detect_multi_valued_dependencies`: nothing without candidate keys. */
  function DetectedMvds(rows: seq<Row>, cols: seq<string>, keys: seq<set<string>>, score: MvdScore): seq<MultiValuedDependency>
  {
    if keys == [] then [] else MvdsForKeys(rows, cols, keys, score)
  }

  /** The inner loop over the non-key pairs of one key. */
  method ScanMvdPairs(rows: seq<Row>, key: set<string>, pairs: seq<seq<string>>, score: MvdScore)
    returns (found: seq<MultiValuedDependency>)
    requires forall p :: p in pairs ==> |p| == 2
    ensures found == MvdsForPairs(rows, key, pairs, score)
  {
    found := [];
    var k := 0;
    while k < |pairs|
      invariant 0 <= k <= |pairs|
      invariant found == MvdsForPairs(rows, key, pairs[..k], score)
    {
      assert pairs[..k + 1][..k] == pairs[..k];
      var a, b := pairs[k][0], pairs[k][1];
      var confidence := score(rows, key, a, b);
      if confidence >= Threshold {
        found := found + [MultiValuedDependency(key, {a}, confidence)];
      }
      k := k + 1;
    }
    assert pairs[..k] == pairs;
  }

  /** The loop over the candidate keys. */
  method DetectMultiValuedDependencies(rows: seq<Row>, cols: seq<string>, keys: seq<set<string>>, score: MvdScore)
    returns (mvds: seq<MultiValuedDependency>)
    ensures mvds == DetectedMvds(rows, cols, keys, score)
  {
    mvds := [];
    if keys == [] {
      return;
    }
    var i := 0;
    while i < |keys|
      invariant 0 <= i <= |keys|
      invariant mvds == MvdsForKeys(rows, cols, keys[..i], score)
    {
      assert keys[..i + 1][..i] == keys[..i];
      var found := ScanMvdPairs(rows, keys[i], NonKeyPairs(cols, keys[i]), score);
      mvds := mvds + found;
      i := i + 1;
    }
    assert keys[..i] == keys;
  }

  /** What an enumerated MVD looks like. */
  predicate MvdShaped(mvd: MultiValuedDependency, cols: seq<string>, keys: seq<set<string>>)
  {
    mvd.determinant in keys
    && mvd.confidence >= Threshold
    && exists i :: 0 <= i < |NonKeyColumns(cols, mvd.determinant)| - 1
                   && mvd.dependent == {NonKeyColumns(cols, mvd.determinant)[i]}
  }

  lemma {:induction false} MvdsForPairsShape(rows: seq<Row>, key: set<string>, cols: seq<string>, keys: seq<set<string>>,
                                             pairs: seq<seq<string>>, score: MvdScore)
    requires key in keys
    requires forall p :: p in pairs ==> |p| == 2 && p in Combinations(NonKeyColumns(cols, key), 2)
    ensures forall m :: m in MvdsForPairs(rows, key, pairs, score) ==> MvdShaped(m, cols, keys)
  {
    if pairs != [] {
      var p := pairs[|pairs| - 1];
      MvdsForPairsShape(rows, key, cols, keys, pairs[..|pairs| - 1], score);
      var i, j := PairPositions(NonKeyColumns(cols, key), p);
      assert p[0] == NonKeyColumns(cols, key)[i];
    }
  }

  lemma {:induction false} MvdsForKeysShape(rows: seq<Row>, cols: seq<string>, keys: seq<set<string>>,
                                            all: seq<set<string>>, score: MvdScore)
    requires forall k :: k in keys ==> k in all
    ensures forall m :: m in MvdsForKeys(rows, cols, keys, score) ==> MvdShaped(m, cols, all)
  {
    if keys != [] {
      var key := keys[|keys| - 1];
      MvdsForKeysShape(rows, cols, keys[..|keys| - 1], all, score);
      assert NonKeyPairs(cols, key) == Combinations(NonKeyColumns(cols, key), 2);
      MvdsForPairsShape(rows, key, cols, all, NonKeyPairs(cols, key), score);
    }
  }

  /**
   * No MVD without candidate keys; every MVD has a candidate key as determinant, a single
   * non-key column as dependent, never the last non-key column (it has no later partner),
   * and a score at the threshold or above.
   */
  lemma DetectedMvdsShape(rows: seq<Row>, cols: seq<string>, keys: seq<set<string>>, score: MvdScore)
    requires Distinct(cols)
    ensures keys == [] ==> DetectedMvds(rows, cols, keys, score) == []
    ensures forall m :: m in DetectedMvds(rows, cols, keys, score) ==>
              MvdShaped(m, cols, keys)
              && m.dependent != {NonKeyColumns(cols, m.determinant)[|NonKeyColumns(cols, m.determinant)| - 1]}
  {
    MvdsForKeysShape(rows, cols, keys, keys, score);
    forall m | m in DetectedMvds(rows, cols, keys, score)
      ensures m.dependent != {NonKeyColumns(cols, m.determinant)[|NonKeyColumns(cols, m.determinant)| - 1]}
    {
      var others := NonKeyColumns(cols, m.determinant);
      var i :| 0 <= i < |others| - 1 && m.dependent == {others[i]};
      assert others[i] != others[|others| - 1];
    }
  }

  /** The non-key pairs of key {"id"} over id, a, b, c. */
  lemma ExamplePairs()
    ensures NonKeyPairs(["id", "a", "b", "c"], {"id"}) == [["a", "b"], ["a", "c"], ["b", "c"]]
  {
    var cols := ["id", "a", "b", "c"];
    var key: set<string> := {"id"};
    assert NonKeyColumns(cols, key) == ["a", "b", "c"] by {
      assert cols[..1] == ["id"] && cols[..1][..0] == [];
      assert NonKeyColumns(cols[..1], key) == [];
      assert cols[..2][..1] == cols[..1];
      assert NonKeyColumns(cols[..2], key) == ["a"];
      assert cols[..3][..2] == cols[..2];
      assert NonKeyColumns(cols[..3], key) == ["a", "b"];
      assert cols[..4] == cols && cols[..4][..3] == cols[..3];
    }
    ThreePairs("a", "b", "c");
  }

  /** Over the pairs of three columns with every pair accepted, the first column is emitted twice. */
  lemma ThreePairMvds(rows: seq<Row>, key: set<string>, x: string, y: string, z: string, score: MvdScore)
    requires score(rows, key, x, y) >= Threshold && score(rows, key, x, z) >= Threshold
    requires score(rows, key, y, z) >= Threshold
    ensures MvdsForPairs(rows, key, [[x, y], [x, z], [y, z]], score)
            == [MultiValuedDependency(key, {x}, score(rows, key, x, y)),
                MultiValuedDependency(key, {x}, score(rows, key, x, z)),
                MultiValuedDependency(key, {y}, score(rows, key, y, z))]
  {
    var pairs := [[x, y], [x, z], [y, z]];
    var found := [MultiValuedDependency(key, {x}, score(rows, key, x, y)),
                  MultiValuedDependency(key, {x}, score(rows, key, x, z)),
                  MultiValuedDependency(key, {y}, score(rows, key, y, z))];
    assert pairs[..0] == [] && pairs[..1][..0] == [];
    assert MvdsForPairs(rows, key, pairs[..1], score) == found[..1];
    assert pairs[..2][..1] == pairs[..1];
    assert MvdsForPairs(rows, key, pairs[..2], score) == found[..2];
    assert pairs[..3] == pairs && pairs[..3][..2] == pairs[..2];
  }

  /**
   * The same `key ->> {a}` is emitted once per later partner `b`: with key {"id"}, non-key
   * columns a, b, c and every pair accepted, {"id"} ->> {"a"} appears twice.
   */
  lemma MvdRepeats(rows: seq<Row>, score: MvdScore)
    requires forall x, y :: score(rows, {"id"}, x, y) >= Threshold
    ensures DetectedMvds(rows, ["id", "a", "b", "c"], [{"id"}], score)
            == [MultiValuedDependency({"id"}, {"a"}, score(rows, {"id"}, "a", "b")),
                MultiValuedDependency({"id"}, {"a"}, score(rows, {"id"}, "a", "c")),
                MultiValuedDependency({"id"}, {"b"}, score(rows, {"id"}, "b", "c"))]
  {
    var cols := ["id", "a", "b", "c"];
    var key: set<string> := {"id"};
    ExamplePairs();
    ThreePairMvds(rows, key, "a", "b", "c", score);
    assert [key][..0] == [];
    assert MvdsForKeys(rows, cols, [key], score) == MvdsForPairs(rows, key, NonKeyPairs(cols, key), score);
  }

  // ---------------------------------------------------------------------------------------
  // The entry point: the row gate and the renaming step
  // ---------------------------------------------------------------------------------------

  /** `{original_to_cleaned.get(col, col) for col in names}`. */
  function Rename(names: set<string>, m: map<string, string>): set<string>
  {
    set c | c in names :: if c in m then m[c] else c
  }

  /** A map that sends every key to itself. */
  predicate IsIdentity(m: map<string, string>)
  {
    forall n :: n in m ==> m[n] == n
  }

  /** Renaming through an identity map changes nothing. */
  lemma RenameIdentity(names: set<string>, m: map<string, string>)
    requires IsIdentity(m)
    ensures Rename(names, m) == names
  {
    forall c | c in names
      ensures c in Rename(names, m)
    {
      assert (if c in m then m[c] else c) == c;
    }
  }

  /**
   * `{col.name: table.get_column_names()[i] for i, col in enumerate(table.columns)}`: both
   * sides are the same name, so the map is the identity on the column names.
   */
  method BuildRenameMap(t: Table) returns (m: map<string, string>)
    ensures forall n :: n in m <==> n in ColumnNames(t)
    ensures IsIdentity(m)
  {
    var names := ColumnNames(t);
    m := map[];
    var i := 0;
    while i < |t.columns|
      invariant 0 <= i <= |t.columns|
      invariant forall n :: n in m <==> n in names[..i]
      invariant IsIdentity(m)
    {
      assert names[..i + 1] == names[..i] + [names[i]];
      m := m[t.columns[i].name := names[i]];
      i := i + 1;
    }
    assert names[..i] == names;
  }

  /** The `cleaned_fds` loop. */
  method RenameFds(fds: seq<FunctionalDependency>, m: map<string, string>) returns (r: seq<FunctionalDependency>)
    ensures |r| == |fds|
    ensures forall i :: 0 <= i < |fds| ==>
              r[i] == FunctionalDependency(Rename(fds[i].determinant, m), Rename(fds[i].dependent, m), fds[i].confidence)
  {
    r := [];
    var i := 0;
    while i < |fds|
      invariant 0 <= i <= |fds| && |r| == i
      invariant forall j :: 0 <= j < i ==>
                  r[j] == FunctionalDependency(Rename(fds[j].determinant, m), Rename(fds[j].dependent, m), fds[j].confidence)
    {
      r := r + [FunctionalDependency(Rename(fds[i].determinant, m), Rename(fds[i].dependent, m), fds[i].confidence)];
      i := i + 1;
    }
  }

  /** The `cleaned_keys` loop. */
  method RenameKeys(keys: seq<set<string>>, m: map<string, string>) returns (r: seq<set<string>>)
    ensures |r| == |keys|
    ensures forall i :: 0 <= i < |keys| ==> r[i] == Rename(keys[i], m)
  {
    r := [];
    var i := 0;
    while i < |keys|
      invariant 0 <= i <= |keys| && |r| == i
      invariant forall j :: 0 <= j < i ==> r[j] == Rename(keys[j], m)
    {
      r := r + [Rename(keys[i], m)];
      i := i + 1;
    }
  }

  /** The `cleaned_mvds` loop. */
  method RenameMvds(mvds: seq<MultiValuedDependency>, m: map<string, string>) returns (r: seq<MultiValuedDependency>)
    ensures |r| == |mvds|
    ensures forall i :: 0 <= i < |mvds| ==>
              r[i] == MultiValuedDependency(Rename(mvds[i].determinant, m), Rename(mvds[i].dependent, m), mvds[i].confidence)
  {
    r := [];
    var i := 0;
    while i < |mvds|
      invariant 0 <= i <= |mvds| && |r| == i
      invariant forall j :: 0 <= j < i ==>
                  r[j] == MultiValuedDependency(Rename(mvds[j].determinant, m), Rename(mvds[j].dependent, m), mvds[j].confidence)
    {
      r := r + [MultiValuedDependency(Rename(mvds[i].determinant, m), Rename(mvds[i].dependent, m), mvds[i].confidence)];
      i := i + 1;
    }
  }

  /** Renamed through an identity map, the FDs, keys and MVDs come back unchanged. */
  lemma RenamedUnchanged(m: map<string, string>,
                         fds: seq<FunctionalDependency>, fds': seq<FunctionalDependency>,
                         keys: seq<set<string>>, keys': seq<set<string>>,
                         mvds: seq<MultiValuedDependency>, mvds': seq<MultiValuedDependency>)
    requires IsIdentity(m)
    requires |fds'| == |fds| && forall i :: 0 <= i < |fds| ==>
               fds'[i] == FunctionalDependency(Rename(fds[i].determinant, m), Rename(fds[i].dependent, m), fds[i].confidence)
    requires |keys'| == |keys| && forall i :: 0 <= i < |keys| ==> keys'[i] == Rename(keys[i], m)
    requires |mvds'| == |mvds| && forall i :: 0 <= i < |mvds| ==>
               mvds'[i] == MultiValuedDependency(Rename(mvds[i].determinant, m), Rename(mvds[i].dependent, m), mvds[i].confidence)
    ensures fds' == fds && keys' == keys && mvds' == mvds
  {
    forall i | 0 <= i < |fds|
      ensures fds'[i] == fds[i]
    {
      RenameIdentity(fds[i].determinant, m);
      RenameIdentity(fds[i].dependent, m);
    }
    forall i | 0 <= i < |keys|
      ensures keys'[i] == keys[i]
    {
      RenameIdentity(keys[i], m);
    }
    forall i | 0 <= i < |mvds|
      ensures mvds'[i] == mvds[i]
    {
      RenameIdentity(mvds[i].determinant, m);
      RenameIdentity(mvds[i].dependent, m);
    }
  }

  /** What `detect_all_dependencies` returns: (FDs, MVDs, candidate keys) over the frame's columns. */
  function DetectedAll(t: Table, score: MvdScore): (seq<FunctionalDependency>, seq<MultiValuedDependency>, seq<set<string>>)
  {
    if |t.data| < 2 then ([], [], [])
    else
      var cols := FrameColumns(t.data);
      var keys := DetectedKeys(t.data, cols);
      (DetectedFds(t.data, cols), DetectedMvds(t.data, cols, keys, score), keys)
  }

  /** `detect_all_dependencies`: the gate, the three searches, and the renaming, which is the identity. */
  method DetectAllDependencies(t: Table, score: MvdScore)
    returns (fds: seq<FunctionalDependency>, mvds: seq<MultiValuedDependency>, keys: seq<set<string>>)
    ensures (fds, mvds, keys) == DetectedAll(t, score)
  {
    if |t.data| < 2 {
      return [], [], [];
    }
    var cols := FrameColumns(t.data);
    var found := DetectFunctionalDependencies(t.data, cols);
    var candidates := DetectCandidateKeys(t.data, cols);
    var dependencies := DetectMultiValuedDependencies(t.data, cols, candidates, score);
    var m := BuildRenameMap(t);
    fds := RenameFds(found, m);
    keys := RenameKeys(candidates, m);
    mvds := RenameMvds(dependencies, m);
    RenamedUnchanged(m, found, fds, candidates, keys, dependencies, mvds);
  }

  /**
   * Fewer than two rows give nothing. Otherwise every FD has the search's shape (one or two
   * determinant columns, one other dependent, confidence in [0.85, 1], one per pair), the keys
   * are the unfiltered candidates and none contains another, and every MVD's determinant is
   * one of the returned keys.
   */
  lemma DetectedAllShape(t: Table, score: MvdScore)
    ensures |t.data| < 2 ==> DetectedAll(t, score) == ([], [], [])
    ensures var (fds, mvds, keys) := DetectedAll(t, score);
            var cols := FrameColumns(t.data);
            (forall fd :: fd in fds ==> SearchShaped(fd, cols))
            && (forall a, b :: a in keys && b in keys ==> !(a < b))
            && (forall m :: m in mvds ==> MvdShaped(m, cols, keys))
  {
    if |t.data| >= 2 {
      var cols := FrameColumns(t.data);
      DetectedFdsShape(t.data, cols);
      DetectedKeysUnfiltered(t.data, cols);
      DetectedMvdsShape(t.data, cols, DetectedKeys(t.data, cols), score);
    }
  }
}
