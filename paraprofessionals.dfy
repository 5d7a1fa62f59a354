/** analyze_substitute_paraprofessionals: the renewal metrics of the
    substitute paraprofessional roster.  The pandas masks become `Filter`
    with a named row predicate; each `iterrows` loop becomes a method proved
    against the predicate it selects by; the results dict becomes a map from
    metric name to count, specified by `ParaMetrics`. */
module Paraprofessionals {
  import opened Cells
  import opened Numbers
  import opened Counting
  import opened Classify
  import Metrics

  /** One row of the paraprofessional roster, restricted to the columns the
      analysis reads. */
  datatype ParaRow = ParaRow(
    status: Cell,
    reasonableAssurance: Cell,
    daysWorked: Cell,
    suspensionCode: Cell,
    autismWorkshop: Cell,
    childAbuseWorkshop: Cell,
    violencePrevention: Cell,
    dasaWorkshop: Cell,
    subHubTraining: Cell,
    stateExam: Cell)

  // ---------------------------------------------------------------------
  // Row classification

  /** The computed status: the Status column is first replaced by its normal
      form, and the resolver then normalises that text again. */
  function RowStatus(r: ParaRow): Completion {
    CompletionStatus(Text(Norm(r.status)))
  }

  predicate IsComplete(r: ParaRow) { RowStatus(r) == Complete }
  predicate IsOutstanding(r: ParaRow) { RowStatus(r) == Outstanding }

  /** Reasonable Assurance reads "LETTER SENT" or "NOT COMPLETE". */
  predicate RaNotComplete(r: ParaRow) {
    Norm(r.reasonableAssurance) == "LETTER SENT" || Norm(r.reasonableAssurance) == "NOT COMPLETE"
  }

  /** Reasonable Assurance reads "COMPLETE": the cohort every bucket is
      drawn from. */
  predicate RaComplete(r: ParaRow) {
    Norm(r.reasonableAssurance) == "COMPLETE"
  }

  predicate RaCompleteOutstanding(r: ParaRow) {
    RaComplete(r) && IsOutstanding(r)
  }

  /** Days worked in the school year, read with safe_int_conversion. */
  function Days(r: ParaRow): int {
    SafeIntConversion(r.daysWorked)
  }

  /** Outstanding with at most 19 days worked. */
  predicate ShortOutstanding(r: ParaRow) {
    Days(r) <= 19 && IsOutstanding(r)
  }

  /** Outstanding with at least 20 days worked. */
  predicate LongOutstanding(r: ParaRow) {
    Days(r) >= 20 && IsOutstanding(r)
  }

  /** The six requirements the days loops check, in the order they list
      them. */
  function Requirements(r: ParaRow): seq<Cell> {
    [r.childAbuseWorkshop, r.violencePrevention, r.dasaWorkshop,
     r.subHubTraining, r.stateExam, r.autismWorkshop]
  }

  /** The requirements other than the Autism Workshop. */
  function NonAutismRequirements(r: ParaRow): seq<Cell> {
    [r.childAbuseWorkshop, r.violencePrevention, r.dasaWorkshop,
     r.subHubTraining, r.stateExam]
  }

  /** The requirements other than the State Exam. */
  function NonExamRequirements(r: ParaRow): seq<Cell> {
    [r.childAbuseWorkshop, r.violencePrevention, r.dasaWorkshop,
     r.subHubTraining, r.autismWorkshop]
  }

  // ---------------------------------------------------------------------
  // Counting requirements

  /** A requirement counts as required unless it reads "NOT REQUIRED". */
  predicate IsParaRequired(v: Cell) { Norm(v) != "NOT REQUIRED" }

  predicate RequiredComplete(v: Cell) { IsParaRequired(v) && IsRequirementComplete(v) }

  predicate RequiredOutstanding(v: Cell) { IsParaRequired(v) && IsRequirementOutstanding(v) }

  predicate RequiredDecided(v: Cell) { RequiredComplete(v) || RequiredOutstanding(v) }

  function RequiredCount(items: seq<Cell>): nat { |Filter(items, IsParaRequired)| }

  function CompleteCount(items: seq<Cell>): nat { |Filter(items, RequiredComplete)| }

  function IncompleteCount(items: seq<Cell>): nat { |Filter(items, RequiredOutstanding)| }

  /** At least one requirement is required and at least 80% of the required
      ones are complete.  `complete / required >= 0.8` is written without
      division: for the at most six requirements of a row the quotient of
      Python's float division is 0.8 exactly when it is 4/5, and otherwise
      lies at least 1/30 away from it. */
  predicate MostlyComplete(items: seq<Cell>) {
    var required := RequiredCount(items);
    required > 0 && 5 * CompleteCount(items) >= 4 * required
  }

  // ---------------------------------------------------------------------
  // Buckets

  predicate OtherReqsMet(r: ParaRow) { MostlyComplete(Requirements(r)) }

  predicate AutismOutstandingOthersMet(r: ParaRow) {
    IsRequirementOutstanding(r.autismWorkshop) && MostlyComplete(NonAutismRequirements(r))
  }

  predicate ExamOutstandingOthersMet(r: ParaRow) {
    IsRequirementOutstanding(r.stateExam) && MostlyComplete(NonExamRequirements(r))
  }

  predicate MultipleIncomplete(r: ParaRow) { IncompleteCount(Requirements(r)) >= 2 }

  predicate RaCompleteShort(r: ParaRow) { RaComplete(r) && ShortOutstanding(r) }
  predicate RaCompleteLong(r: ParaRow) { RaComplete(r) && LongOutstanding(r) }

  /** Days Worked Only: at most 19 days, outstanding, and at least 80% of the
      required items complete. */
  predicate DaysWorkedOnly(r: ParaRow) { RaCompleteShort(r) && OtherReqsMet(r) }

  /** Autism Workshop Only: at least 20 days, outstanding, the Autism
      Workshop outstanding and at least 80% of the other required items
      complete. */
  predicate AutismWorkshopOnly(r: ParaRow) { RaCompleteLong(r) && AutismOutstandingOthersMet(r) }

  /** ATAS Only (the State Exam stands for ATAS): at least 20 days,
      outstanding, the State Exam outstanding and at least 80% of the other
      required items complete. */
  predicate AtasOnly(r: ParaRow) { RaCompleteLong(r) && ExamOutstandingOthersMet(r) }

  /** Days & Other Requirements: at most 19 days, outstanding, and at least
      two required items outstanding. */
  predicate DaysAndOtherRequirements(r: ParaRow) { RaCompleteShort(r) && MultipleIncomplete(r) }

  /** The suspension code, stripped but not upper-cased, is `code`. */
  predicate HasSuspensionCode(r: ParaRow, code: string) {
    Trim(Raw(r.suspensionCode)) == code
  }

  predicate Suspended2SS(r: ParaRow) { HasSuspensionCode(r, "2SS") }
  predicate Suspended2SR(r: ParaRow) { HasSuspensionCode(r, "2SR") }

  /** The metrics of a roster, each the number of rows its rule selects. */
  function ParaMetrics(rows: seq<ParaRow>): Metrics.Results {
    map[
      Metrics.TotalEligible := |rows|,
      Metrics.TotalComplete := |Filter(rows, IsComplete)|,
      Metrics.TotalOutstanding := |Filter(rows, IsOutstanding)|,
      Metrics.RaNotComplete := |Filter(rows, RaNotComplete)|,
      Metrics.RaCompleteOtherOutstanding := |Filter(rows, RaCompleteOutstanding)|,
      Metrics.DaysWorkedOnly := |Filter(rows, DaysWorkedOnly)|,
      Metrics.AutismWorkshopOnly := |Filter(rows, AutismWorkshopOnly)|,
      Metrics.AtasOnly := |Filter(rows, AtasOnly)|,
      Metrics.DaysAndOtherRequirements := |Filter(rows, DaysAndOtherRequirements)|,
      Metrics.TotalSuspended2ss := |Filter(rows, Suspended2SS)|,
      Metrics.TotalSuspended2sr := |Filter(rows, Suspended2SR)|
    ]
  }

  // ---------------------------------------------------------------------
  // The analysis

  /** The required-and-complete loop of the days-only check. */
  method CountRequiredAndComplete(items: seq<Cell>) returns (requiredAndComplete: nat, requiredCount: nat)
    ensures requiredAndComplete == CompleteCount(items)
    ensures requiredCount == RequiredCount(items)
  {
    requiredAndComplete, requiredCount := 0, 0;
    var i := 0;
    while i < |items|
      invariant 0 <= i <= |items|
      invariant requiredAndComplete == CompleteCount(items[..i])
      invariant requiredCount == RequiredCount(items[..i])
    {
      var v := items[i];
      FilterCountPrefix(items, i, IsParaRequired);
      FilterCountPrefix(items, i, RequiredComplete);
      if IsParaRequired(v) {
        requiredCount := requiredCount + 1;
        if IsRequirementComplete(v) {
          requiredAndComplete := requiredAndComplete + 1;
        }
      }
      i := i + 1;
    }
    assert items[..i] == items;
  }

  /** The required-and-outstanding loop of the days-and-others check. */
  method CountRequiredAndIncomplete(items: seq<Cell>) returns (incompleteCount: nat, requiredCount: nat)
    ensures incompleteCount == IncompleteCount(items)
    ensures requiredCount == RequiredCount(items)
  {
    incompleteCount, requiredCount := 0, 0;
    var i := 0;
    while i < |items|
      invariant 0 <= i <= |items|
      invariant incompleteCount == IncompleteCount(items[..i])
      invariant requiredCount == RequiredCount(items[..i])
    {
      var v := items[i];
      FilterCountPrefix(items, i, IsParaRequired);
      FilterCountPrefix(items, i, RequiredOutstanding);
      if IsParaRequired(v) {
        requiredCount := requiredCount + 1;
        if IsRequirementOutstanding(v) {
          incompleteCount := incompleteCount + 1;
        }
      }
      i := i + 1;
    }
    assert items[..i] == items;
  }

  /** The days-only loop: keeps the candidates with at least 80% of their
      required items complete. */
  method DaysOnlyWithOtherReqsMet(candidates: seq<ParaRow>) returns (selected: seq<ParaRow>)
    ensures selected == Filter(candidates, OtherReqsMet)
  {
    selected := [];
    var k := 0;
    while k < |candidates|
      invariant 0 <= k <= |candidates|
      invariant selected == Filter(candidates[..k], OtherReqsMet)
    {
      var row := candidates[k];
      assert candidates[..k + 1] == candidates[..k] + [row];
      FilterSnoc(candidates[..k], row, OtherReqsMet);
      var requiredAndComplete, requiredCount := CountRequiredAndComplete(Requirements(row));
      if requiredCount > 0 && 5 * requiredAndComplete >= 4 * requiredCount {
        selected := selected + [row];
      }
      k := k + 1;
    }
    assert candidates[..k] == candidates;
  }

  /** The autism-only loop: keeps the candidates whose Autism Workshop is
      outstanding and whose other required items are at least 80% complete. */
  method AutismOnlyFiltered(candidates: seq<ParaRow>) returns (selected: seq<ParaRow>)
    ensures selected == Filter(candidates, AutismOutstandingOthersMet)
  {
    selected := [];
    var k := 0;
    while k < |candidates|
      invariant 0 <= k <= |candidates|
      invariant selected == Filter(candidates[..k], AutismOutstandingOthersMet)
    {
      var row := candidates[k];
      assert candidates[..k + 1] == candidates[..k] + [row];
      FilterSnoc(candidates[..k], row, AutismOutstandingOthersMet);
      var autismIncomplete := IsRequirementOutstanding(row.autismWorkshop);
      var otherReqs := NonAutismRequirements(row);
      var otherCompleteCount := CompleteCount(otherReqs);
      var otherRequiredCount := RequiredCount(otherReqs);
      assert AutismOutstandingOthersMet(row) == (autismIncomplete && otherRequiredCount > 0 && 5 * otherCompleteCount >= 4 * otherRequiredCount);
      if autismIncomplete && otherRequiredCount > 0 && 5 * otherCompleteCount >= 4 * otherRequiredCount {
        selected := selected + [row];
      }
      k := k + 1;
    }
    assert candidates[..k] == candidates;
  }

  /** The ATAS-only loop: keeps the candidates whose State Exam is
      outstanding and whose other required items are at least 80% complete. */
  method AtasOnlyFiltered(candidates: seq<ParaRow>) returns (selected: seq<ParaRow>)
    ensures selected == Filter(candidates, ExamOutstandingOthersMet)
  {
    selected := [];
    var k := 0;
    while k < |candidates|
      invariant 0 <= k <= |candidates|
      invariant selected == Filter(candidates[..k], ExamOutstandingOthersMet)
    {
      var row := candidates[k];
      assert candidates[..k + 1] == candidates[..k] + [row];
      FilterSnoc(candidates[..k], row, ExamOutstandingOthersMet);
      var stateExamIncomplete := IsRequirementOutstanding(row.stateExam);
      var otherReqs := NonExamRequirements(row);
      var otherCompleteCount := CompleteCount(otherReqs);
      var otherRequiredCount := RequiredCount(otherReqs);
      assert ExamOutstandingOthersMet(row) == (stateExamIncomplete && otherRequiredCount > 0 && 5 * otherCompleteCount >= 4 * otherRequiredCount);
      if stateExamIncomplete && otherRequiredCount > 0 && 5 * otherCompleteCount >= 4 * otherRequiredCount {
        selected := selected + [row];
      }
      k := k + 1;
    }
    assert candidates[..k] == candidates;
  }

  /** The days-and-others loop: keeps the candidates with at least two
      required items outstanding. */
  method DaysAndMultipleIncomplete(candidates: seq<ParaRow>) returns (selected: seq<ParaRow>)
    ensures selected == Filter(candidates, MultipleIncomplete)
  {
    selected := [];
    var k := 0;
    while k < |candidates|
      invariant 0 <= k <= |candidates|
      invariant selected == Filter(candidates[..k], MultipleIncomplete)
    {
      var row := candidates[k];
      assert candidates[..k + 1] == candidates[..k] + [row];
      FilterSnoc(candidates[..k], row, MultipleIncomplete);
      var incompleteCount, requiredCount := CountRequiredAndIncomplete(Requirements(row));
      if incompleteCount >= 2 {
        selected := selected + [row];
      }
      k := k + 1;
    }
    assert candidates[..k] == candidates;
  }

  /** The staged selections of the analysis (`df[m1][m2]`) select what the
      bucket predicates select from the roster. */
  lemma StagedMasks(rows: seq<ParaRow>)
    ensures Filter(Filter(rows, RaComplete), IsOutstanding) == Filter(rows, RaCompleteOutstanding)
    ensures Filter(Filter(rows, RaComplete), ShortOutstanding) == Filter(rows, RaCompleteShort)
    ensures Filter(Filter(rows, RaComplete), LongOutstanding) == Filter(rows, RaCompleteLong)
    ensures Filter(Filter(rows, RaCompleteShort), OtherReqsMet) == Filter(rows, DaysWorkedOnly)
    ensures Filter(Filter(rows, RaCompleteLong), AutismOutstandingOthersMet) == Filter(rows, AutismWorkshopOnly)
    ensures Filter(Filter(rows, RaCompleteLong), ExamOutstandingOthersMet) == Filter(rows, AtasOnly)
    ensures Filter(Filter(rows, RaCompleteShort), MultipleIncomplete) == Filter(rows, DaysAndOtherRequirements)
  {
    assert Filter(Filter(rows, RaComplete), IsOutstanding) == Filter(rows, RaCompleteOutstanding) by {
      FilterFilter(rows, RaComplete, IsOutstanding, RaCompleteOutstanding);
    }
    assert Filter(Filter(rows, RaComplete), ShortOutstanding) == Filter(rows, RaCompleteShort) by {
      FilterFilter(rows, RaComplete, ShortOutstanding, RaCompleteShort);
    }
    assert Filter(Filter(rows, RaComplete), LongOutstanding) == Filter(rows, RaCompleteLong) by {
      FilterFilter(rows, RaComplete, LongOutstanding, RaCompleteLong);
    }
    assert Filter(Filter(rows, RaCompleteShort), OtherReqsMet) == Filter(rows, DaysWorkedOnly) by {
      FilterFilter(rows, RaCompleteShort, OtherReqsMet, DaysWorkedOnly);
    }
    assert Filter(Filter(rows, RaCompleteLong), AutismOutstandingOthersMet) == Filter(rows, AutismWorkshopOnly) by {
      FilterFilter(rows, RaCompleteLong, AutismOutstandingOthersMet, AutismWorkshopOnly);
    }
    assert Filter(Filter(rows, RaCompleteLong), ExamOutstandingOthersMet) == Filter(rows, AtasOnly) by {
      FilterFilter(rows, RaCompleteLong, ExamOutstandingOthersMet, AtasOnly);
    }
    FilterFilter(rows, RaCompleteShort, MultipleIncomplete, DaysAndOtherRequirements);
  }

  /** analyze_substitute_paraprofessionals: builds the results key by key as
      the source does, drawing every bucket from the RA-complete cohort and
      writing zeros for the buckets when that cohort is empty. */
  method AnalyzeSubstituteParaprofessionals(rows: seq<ParaRow>) returns (results: Metrics.Results)
    ensures results == ParaMetrics(rows)
  {
    // The Status column is replaced by its normal form, which is never
    // missing, so every row is active.
    var active := rows;
    StagedMasks(active);
    results := map[];
    results := results[Metrics.TotalEligible := |active|];
    results := results[Metrics.TotalComplete := |Filter(active, IsComplete)|];
    results := results[Metrics.TotalOutstanding := |Filter(active, IsOutstanding)|];
    results := results[Metrics.RaNotComplete := |Filter(active, RaNotComplete)|];
    var raCompleteGroup := Filter(active, RaComplete);
    results := results[Metrics.RaCompleteOtherOutstanding := |Filter(raCompleteGroup, IsOutstanding)|];
    // The four bucket counts: computed by the loops when the cohort is not
    // empty, zero otherwise; they enter the results in the same order.
    var daysWorkedOnly, autismWorkshopOnly, atasOnlyCount, daysAndOtherRequirements;
    if raCompleteGroup != [] {
      var daysOnlyCandidates := Filter(raCompleteGroup, ShortOutstanding);
      var daysOnly := DaysOnlyWithOtherReqsMet(daysOnlyCandidates);
      daysWorkedOnly := |daysOnly|;

      var autismOnlyCandidates := Filter(raCompleteGroup, LongOutstanding);
      var autismOnly := AutismOnlyFiltered(autismOnlyCandidates);
      autismWorkshopOnly := |autismOnly|;

      var atasOnlyCandidates := Filter(raCompleteGroup, LongOutstanding);
      var atasOnly := AtasOnlyFiltered(atasOnlyCandidates);
      atasOnlyCount := |atasOnly|;

      var daysAndOthers := Filter(raCompleteGroup, ShortOutstanding);
      var daysAndMultipleIncomplete := DaysAndMultipleIncomplete(daysAndOthers);
      daysAndOtherRequirements := |daysAndMultipleIncomplete|;
    } else {
      EmptyCohortEmptyBuckets(rows);
      daysWorkedOnly, atasOnlyCount, autismWorkshopOnly, daysAndOtherRequirements := 0, 0, 0, 0;
    }
    results := results[Metrics.DaysWorkedOnly := daysWorkedOnly];
    results := results[Metrics.AutismWorkshopOnly := autismWorkshopOnly];
    results := results[Metrics.AtasOnly := atasOnlyCount];
    results := results[Metrics.DaysAndOtherRequirements := daysAndOtherRequirements];
    results := results[Metrics.TotalSuspended2ss := |Filter(rows, Suspended2SS)|];
    results := results[Metrics.TotalSuspended2sr := |Filter(rows, Suspended2SR)|];
  }

  // ---------------------------------------------------------------------
  // Properties

  /** When no row has Reasonable Assurance complete, every bucket is empty,
      so the zeros the source writes in that case agree with the bucket
      rules. */
  lemma EmptyCohortEmptyBuckets(rows: seq<ParaRow>)
    requires Filter(rows, RaComplete) == []
    ensures Filter(rows, DaysWorkedOnly) == []
    ensures Filter(rows, AutismWorkshopOnly) == []
    ensures Filter(rows, AtasOnly) == []
    ensures Filter(rows, DaysAndOtherRequirements) == []
  {
    FilterCountMonotone(rows, DaysWorkedOnly, RaComplete);
    FilterCountMonotone(rows, AutismWorkshopOnly, RaComplete);
    FilterCountMonotone(rows, AtasOnly, RaComplete);
    FilterCountMonotone(rows, DaysAndOtherRequirements, RaComplete);
  }

  /** The computed status is that of the original Status cell: normalising
      the column first changes nothing. */
  lemma RowStatusIsStatusOfCell(r: ParaRow)
    ensures RowStatus(r) == CompletionStatus(r.status)
  {
    NormIdempotent(r.status);
  }

  /** Every eligible row is complete or outstanding, never both. */
  lemma TotalsAddUp(rows: seq<ParaRow>)
    ensures ParaMetrics(rows)[Metrics.TotalComplete] + ParaMetrics(rows)[Metrics.TotalOutstanding]
         == ParaMetrics(rows)[Metrics.TotalEligible]
  {
    FilterCountComplement(rows, IsComplete, IsOutstanding);
  }

  /** The two Reasonable Assurance cohorts are disjoint, and the outstanding
      part of the complete one is part of the outstanding total. */
  lemma ReasonableAssuranceCohorts(rows: seq<ParaRow>)
    ensures ParaMetrics(rows)[Metrics.RaNotComplete] + ParaMetrics(rows)[Metrics.RaCompleteOtherOutstanding]
         <= ParaMetrics(rows)[Metrics.TotalEligible]
    ensures ParaMetrics(rows)[Metrics.RaCompleteOtherOutstanding] <= ParaMetrics(rows)[Metrics.TotalOutstanding]
  {
    RaCohortCounts(rows);
  }

  lemma RaCohortCounts(rows: seq<ParaRow>)
    ensures |Filter(rows, RaNotComplete)| + |Filter(rows, RaCompleteOutstanding)| <= |rows|
    ensures |Filter(rows, RaCompleteOutstanding)| <= |Filter(rows, IsOutstanding)|
  {
    FilterCountDisjointUnion(rows, RaNotComplete, RaCompleteOutstanding, RaCohort);
    FilterCountMonotone(rows, RaCohort, Any);
    FilterCountMonotone(rows, RaCompleteOutstanding, IsOutstanding);
    FilterAll(rows);
  }

  predicate RaCohort(r: ParaRow) { RaNotComplete(r) || RaCompleteOutstanding(r) }
  predicate Any(r: ParaRow) { true }

  lemma {:induction false} FilterAll(rows: seq<ParaRow>)
    ensures Filter(rows, Any) == rows
    decreases |rows|
  {
    if rows != [] {
      FilterAll(rows[..|rows| - 1]);
    }
  }

  /** Of the required items, the complete and the outstanding ones are
      distinct. */
  lemma DecidedWithinRequired(items: seq<Cell>)
    ensures CompleteCount(items) + IncompleteCount(items) <= RequiredCount(items)
    ensures RequiredCount(items) <= |items|
  {
    forall v ensures !(RequiredComplete(v) && RequiredOutstanding(v)) {
      VocabulariesDisjoint(v);
    }
    FilterCountDisjointUnion(items, RequiredComplete, RequiredOutstanding, RequiredDecided);
    FilterCountMonotone(items, RequiredDecided, IsParaRequired);
  }

  /** With at least 80% of at most six required items complete, at most one
      is outstanding: no row is both Days Worked Only and Days & Other
      Requirements. */
  lemma MostlyCompleteLeavesOneOutstanding(items: seq<Cell>)
    requires |items| <= 6
    requires MostlyComplete(items)
    ensures IncompleteCount(items) <= 1
  {
    DecidedWithinRequired(items);
  }

  /** The four buckets are drawn from the RA-complete outstanding rows; the
      short buckets (at most 19 days) never meet the long ones (at least 20
      days), and Days Worked Only never meets Days & Other Requirements, so
      each of Autism Workshop Only and ATAS Only adds up with the two short
      buckets to at most the cohort. */
  lemma BucketsWithinCohort(rows: seq<ParaRow>)
    ensures var m := ParaMetrics(rows);
      m[Metrics.DaysWorkedOnly] + m[Metrics.DaysAndOtherRequirements] + m[Metrics.AutismWorkshopOnly]
        <= m[Metrics.RaCompleteOtherOutstanding]
      && m[Metrics.DaysWorkedOnly] + m[Metrics.DaysAndOtherRequirements] + m[Metrics.AtasOnly]
        <= m[Metrics.RaCompleteOtherOutstanding]
  {
    BucketCountsWithinCohort(rows);
  }

  lemma BucketCountsWithinCohort(rows: seq<ParaRow>)
    ensures |Filter(rows, DaysWorkedOnly)| + |Filter(rows, DaysAndOtherRequirements)|
      + |Filter(rows, AutismWorkshopOnly)| <= |Filter(rows, RaCompleteOutstanding)|
    ensures |Filter(rows, DaysWorkedOnly)| + |Filter(rows, DaysAndOtherRequirements)|
      + |Filter(rows, AtasOnly)| <= |Filter(rows, RaCompleteOutstanding)|
  {
    ShortBucketsDisjoint();
    FilterCountDisjointUnion(rows, DaysWorkedOnly, DaysAndOtherRequirements, ShortBucket);
    FilterCountDisjointUnion(rows, ShortBucket, AutismWorkshopOnly, ShortOrAutism);
    FilterCountDisjointUnion(rows, ShortBucket, AtasOnly, ShortOrAtas);
    FilterCountMonotone(rows, ShortOrAutism, RaCompleteOutstanding);
    FilterCountMonotone(rows, ShortOrAtas, RaCompleteOutstanding);
  }

  /** No row is both Days Worked Only and Days & Other Requirements. */
  lemma ShortBucketsDisjoint()
    ensures forall r :: DaysWorkedOnly(r) ==> !DaysAndOtherRequirements(r)
  {
    forall r | DaysWorkedOnly(r) ensures !DaysAndOtherRequirements(r) {
      MostlyCompleteLeavesOneOutstanding(Requirements(r));
    }
  }

  predicate ShortBucket(r: ParaRow) { DaysWorkedOnly(r) || DaysAndOtherRequirements(r) }
  predicate ShortOrAutism(r: ParaRow) { ShortBucket(r) || AutismWorkshopOnly(r) }
  predicate ShortOrAtas(r: ParaRow) { ShortBucket(r) || AtasOnly(r) }

  /** Autism Workshop Only and ATAS Only are not exclusive: an outstanding
      row at 20 days or more with Reasonable Assurance and the four
      workshops complete and both the Autism Workshop and the State Exam
      missing is counted in both. */
  lemma AutismAndAtasOverlap(status: Cell, done: Cell)
    requires CompletionStatus(status) == Outstanding
    requires done.Text? && Norm(done) == "COMPLETE"
    ensures var r := ParaRow(status, done, Text(Digits(25)), Missing,
                             Missing, done, done, done, done, Missing);
      AutismWorkshopOnly(r) && AtasOnly(r)
  {
    var r := ParaRow(status, done, Text(Digits(25)), Missing,
                     Missing, done, done, done, done, Missing);
    RowStatusIsStatusOfCell(r);
    SafeIntReadsDigits(25);
    MissingAndBlankAreOutstanding([]);
    FourOfFiveComplete(done);
    assert NonAutismRequirements(r) == [done, done, done, done, Missing];
    assert NonExamRequirements(r) == [done, done, done, done, Missing];
  }

  /** Four complete items and one missing one are 80% complete. */
  lemma FourOfFiveComplete(done: Cell)
    requires done.Text? && Norm(done) == "COMPLETE"
    ensures MostlyComplete([done, done, done, done, Missing])
  {
    var items := [done, done, done, done, Missing];
    MissingNormalisesToNan();
    AmongIsIn(Norm(done), CompletedIndicators);
    assert RequiredComplete(done) && !RequiredComplete(Missing) && IsParaRequired(Missing);
    assert items[..0] == [] && items[..5] == items;
    for i := 0 to 5
      invariant |Filter(items[..i], IsParaRequired)| == i
      invariant |Filter(items[..i], RequiredComplete)| == if i < 5 then i else 4
    {
      FilterCountPrefix(items, i, IsParaRequired);
      FilterCountPrefix(items, i, RequiredComplete);
    }
  }

  /** A requirement reading "NOT REQUIRED" is ignored by every count: adding
      one anywhere changes neither the required, complete nor outstanding
      count. */
  lemma NotRequiredIsIgnored(a: seq<Cell>, v: Cell, b: seq<Cell>)
    requires Norm(v) == "NOT REQUIRED"
    ensures RequiredCount(a + [v] + b) == RequiredCount(a + b)
    ensures CompleteCount(a + [v] + b) == CompleteCount(a + b)
    ensures IncompleteCount(a + [v] + b) == IncompleteCount(a + b)
    ensures MostlyComplete(a + [v] + b) == MostlyComplete(a + b)
  {
    assert a + [v] + b == (a + [v]) + b;
    FilterAppend(a + [v], b, IsParaRequired);
    FilterAppend(a + [v], b, RequiredComplete);
    FilterAppend(a + [v], b, RequiredOutstanding);
    FilterSnoc(a, v, IsParaRequired);
    FilterSnoc(a, v, RequiredComplete);
    FilterSnoc(a, v, RequiredOutstanding);
    FilterAppend(a, b, IsParaRequired);
    FilterAppend(a, b, RequiredComplete);
    FilterAppend(a, b, RequiredOutstanding);
  }

  /** A row whose six requirements all read "NOT REQUIRED" is never Days
      Worked Only: nothing is required, so the 80% test fails. */
  lemma NothingRequiredIsNotDaysOnly(r: ParaRow)
    requires forall i :: 0 <= i < 6 ==> Norm(Requirements(r)[i]) == "NOT REQUIRED"
    ensures !OtherReqsMet(r) && !DaysWorkedOnly(r)
  {
    FilterNone(Requirements(r), IsParaRequired);
  }

  /** The two suspension counts never count the same row. */
  lemma SuspensionCounts(rows: seq<ParaRow>)
    ensures ParaMetrics(rows)[Metrics.TotalSuspended2ss] + ParaMetrics(rows)[Metrics.TotalSuspended2sr]
         <= ParaMetrics(rows)[Metrics.TotalEligible]
  {
    FilterCountDisjointUnion(rows, Suspended2SS, Suspended2SR, Suspended);
    FilterCountMonotone(rows, Suspended, Any);
    FilterAll(rows);
  }

  predicate Suspended(r: ParaRow) { Suspended2SS(r) || Suspended2SR(r) }

  /** Whitespace around a suspension code does not change which count the
      row falls under: only the stripped text is compared. */
  lemma PaddedSuspensionCode(r: ParaRow, pre: string, code: string, post: string)
    requires IsBlank(pre) && IsBlank(post)
    requires r.suspensionCode == Text(pre + code + post)
    ensures Suspended2SS(r) <==> Trim(code) == "2SS"
    ensures Suspended2SR(r) <==> Trim(code) == "2SR"
  {
    PaddedTrim(pre, code, post);
  }
}
