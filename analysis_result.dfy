/**
 * Normal forms and the record of an analysis: violations, steps and the overall result
 * (backend/app/models/analysis_result.py).
 */
module Analysis {
  import opened Strings
  import opened TableModel

  /** The seven normal-form levels, in declaration order. */
  datatype NormalForm = Unnormalized | FirstNF | SecondNF | ThirdNF | BCNF | FourthNF | FifthNF

  /** The enum member's value string. */
  function NfValue(nf: NormalForm): string
  {
    match nf
    case Unnormalized => "Unnormalized"
    case FirstNF => "1NF"
    case SecondNF => "2NF"
    case ThirdNF => "3NF"
    case BCNF => "BCNF"
    case FourthNF => "4NF"
    case FifthNF => "5NF"
  }

  /** `a.value < b.value`: Python compares the value strings lexicographically. */
  predicate ValueLess(a: NormalForm, b: NormalForm)
  {
    Less(NfValue(a), NfValue(b))
  }

  /** Position in declaration order, the order the levels are meant to have. */
  function Ordinal(nf: NormalForm): nat
  {
    match nf
    case Unnormalized => 0
    case FirstNF => 1
    case SecondNF => 2
    case ThirdNF => 3
    case BCNF => 4
    case FourthNF => 5
    case FifthNF => 6
  }

  /** Position in the order of the value strings: "1NF" < "2NF" < ... < "5NF" < "BCNF" < "Unnormalized". */
  function ValueRank(nf: NormalForm): nat
  {
    match nf
    case FirstNF => 0
    case SecondNF => 1
    case ThirdNF => 2
    case FourthNF => 3
    case FifthNF => 4
    case BCNF => 5
    case Unnormalized => 6
  }

  /** The first character of a value string. */
  function Head(nf: NormalForm): char
  {
    match nf
    case FirstNF => '1'
    case SecondNF => '2'
    case ThirdNF => '3'
    case FourthNF => '4'
    case FifthNF => '5'
    case BCNF => 'B'
    case Unnormalized => 'U'
  }

  /** Every value string starts with its level's character. */
  lemma ValueHead(nf: NormalForm)
    ensures |NfValue(nf)| > 0 && NfValue(nf)[0] == Head(nf)
  {
  }

  /** The first characters are distinct and ordered as the value ranks. */
  lemma HeadOrder(a: NormalForm, b: NormalForm)
    ensures Head(a) == Head(b) <==> a == b
    ensures Head(a) < Head(b) <==> ValueRank(a) < ValueRank(b)
  {
  }

  /** The seven value strings are pairwise distinct, and comparing them is comparing value ranks. */
  lemma ValueOrder(a: NormalForm, b: NormalForm)
    ensures NfValue(a) == NfValue(b) <==> a == b
    ensures ValueLess(a, b) <==> ValueRank(a) < ValueRank(b)
  {
    ValueHead(a);
    ValueHead(b);
    HeadOrder(a, b);
    if a != b {
      LessByHead(NfValue(a), NfValue(b));
    } else {
      LessIrreflexive(NfValue(a));
    }
  }

  /** The value order is not the declaration order: BCNF sorts after 4NF and 5NF, and Unnormalized last. */
  lemma ValueOrderDiffersFromDeclaration()
    ensures Ordinal(BCNF) < Ordinal(FourthNF) && ValueLess(FourthNF, BCNF)
    ensures Ordinal(BCNF) < Ordinal(FifthNF) && ValueLess(FifthNF, BCNF)
    ensures forall nf :: nf != Unnormalized ==> Ordinal(Unnormalized) < Ordinal(nf) && ValueLess(nf, Unnormalized)
  {
    ValueOrder(FourthNF, BCNF);
    ValueOrder(FifthNF, BCNF);
    forall nf | nf != Unnormalized
      ensures ValueLess(nf, Unnormalized)
    {
      ValueOrder(nf, Unnormalized);
    }
  }

  datatype Violation = Violation(
    normalForm: NormalForm,
    description: string,
    affectedColumns: seq<string>,
    explanation: string,
    resolution: string)

  datatype NormalizationStep = NormalizationStep(
    fromNf: NormalForm,
    toNf: NormalForm,
    violationsFound: seq<Violation>,
    tablesCreated: seq<Table>,
    explanation: string,
    sqlChanges: seq<string>)

  datatype AnalysisResult = AnalysisResult(
    originalTable: Table,
    currentNormalForm: NormalForm,
    targetNormalForm: NormalForm,
    normalizationSteps: seq<NormalizationStep>,
    finalTables: seq<Table>,
    analysisId: Option<string>)

  /** `AnalysisResult(original_table=..., current_normal_form=...)` with the field defaults. */
  function NewAnalysisResult(original: Table, current: NormalForm): (r: AnalysisResult)
    ensures r.originalTable == original && r.currentNormalForm == current
    ensures r.targetNormalForm == FifthNF
    ensures r.normalizationSteps == [] && r.finalTables == [] && r.analysisId == None
  {
    AnalysisResult(original, current, FifthNF, [], [], None)
  }

  /** The violations of all steps, step after step. */
  function AllViolations(steps: seq<NormalizationStep>): seq<Violation>
  {
    if steps == [] then []
    else AllViolations(steps[..|steps| - 1]) + steps[|steps| - 1].violationsFound
  }

  /** The sum of the steps' violation counts. */
  function ViolationCount(steps: seq<NormalizationStep>): nat
  {
    if steps == [] then 0
    else ViolationCount(steps[..|steps| - 1]) + |steps[|steps| - 1].violationsFound|
  }

  lemma {:induction false} AllViolationsLength(steps: seq<NormalizationStep>)
    ensures |AllViolations(steps)| == ViolationCount(steps)
  {
    if steps != [] {
      AllViolationsLength(steps[..|steps| - 1]);
    }
  }

  /** One more step appends its violations. */
  lemma AllViolationsSnoc(steps: seq<NormalizationStep>, last: NormalizationStep)
    ensures AllViolations(steps + [last]) == AllViolations(steps) + last.violationsFound
  {
    assert (steps + [last])[..|steps|] == steps;
  }

  /** Collecting over two runs of steps is collecting over each and concatenating. */
  lemma {:induction false} AllViolationsAppend(a: seq<NormalizationStep>, b: seq<NormalizationStep>)
    ensures AllViolations(a + b) == AllViolations(a) + AllViolations(b)
    decreases |b|
  {
    if b == [] {
      assert a + b == a;
    } else {
      var b' := b[..|b| - 1];
      var last := b[|b| - 1];
      assert a + b == (a + b') + [last];
      AllViolationsSnoc(a + b', last);
      AllViolationsAppend(a, b');
      assert AllViolations(b) == AllViolations(b') + last.violationsFound;
    }
  }

  /** `get_all_violations()`: extends an accumulator with each step's violations in turn. */
  method GetAllViolations(result: AnalysisResult) returns (violations: seq<Violation>)
    ensures violations == AllViolations(result.normalizationSteps)
    ensures |violations| == ViolationCount(result.normalizationSteps)
  {
    var steps := result.normalizationSteps;
    violations := [];
    var i := 0;
    while i < |steps|
      invariant 0 <= i <= |steps|
      invariant violations == AllViolations(steps[..i])
    {
      assert steps[..i + 1][..i] == steps[..i];
      violations := violations + steps[i].violationsFound;
      i := i + 1;
    }
    assert steps[..i] == steps;
    AllViolationsLength(steps);
  }

  /** `is_fully_normalized()`: there is a last step and it reached the target form. */
  predicate IsFullyNormalized(result: AnalysisResult)
  {
    if result.normalizationSteps == [] then false
    else result.normalizationSteps[|result.normalizationSteps| - 1].toNf == result.targetNormalForm
  }
}
