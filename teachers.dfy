/** analyze_substitute_teachers: the renewal metrics of the substitute
    teacher roster.  As for paraprofessionals, pandas masks become `Filter`
    with a named row predicate, each `iterrows` loop becomes a method proved
    against the predicate it selects by, and the results dict is specified
    by `TeacherMetrics`.  Unlike the paraprofessional analysis, most
    comparisons here are on the raw cell (`== 'Y'`, `isin([...])`), and only
    the requirement loops and two masks normalise. */
module Teachers {
  import opened Cells
  import opened Numbers
  import opened Counting
  import opened Classify
  import Metrics

  /** One row of the teacher roster, restricted to the columns the analysis
      reads. */
  datatype TeacherRow = TeacherRow(
    status: Cell,
    certified: Cell,
    renewalClassification: Cell,
    reasonableAssurance: Cell,
    daysWorked: Cell,
    suspensionCode: Cell,
    autismWorkshop: Cell,
    childAbuseWorkshop: Cell,
    violencePrevention: Cell,
    dasaWorkshop: Cell,
    subHubTraining: Cell,
    stateExam: Cell,
    edCredits: Cell,
    teachProfile: Cell,
    bachelorDegree: Cell)

  // ---------------------------------------------------------------------
  // Cohorts

  /** Kept by the first filter: the raw Status is not exactly "Pending Term
      for FT" (a missing Status is kept). */
  predicate NotPendingTerm(r: TeacherRow) { r.status != Text("Pending Term for FT") }

  predicate HasStatus(r: TeacherRow) { r.status.Text? }

  /** Eligible: kept by the first filter and with a Status. */
  predicate Eligible(r: TeacherRow) { NotPendingTerm(r) && HasStatus(r) }

  function TeacherStatus(r: TeacherRow): Completion { CompletionStatus(r.status) }

  predicate IsComplete(r: TeacherRow) { TeacherStatus(r) == Complete }
  predicate IsOutstanding(r: TeacherRow) { TeacherStatus(r) == Outstanding }

  /** The raw Renewal Classification is neither "Retiree" nor "On Leave". */
  predicate NotSpecial(r: TeacherRow) {
    r.renewalClassification != Text("Retiree") && r.renewalClassification != Text("On Leave")
  }

  predicate CertifiedMask(r: TeacherRow) { r.certified == Text("Y") && NotSpecial(r) }
  predicate UncertifiedMask(r: TeacherRow) { r.certified == Text("N") && NotSpecial(r) }

  /** PRC: an eligible certified teacher outside the special classes. */
  predicate Prc(r: TeacherRow) { Eligible(r) && CertifiedMask(r) }

  /** PRU: an eligible uncertified teacher outside the special classes. */
  predicate Pru(r: TeacherRow) { Eligible(r) && UncertifiedMask(r) }

  predicate PrcPru(r: TeacherRow) { Prc(r) || Pru(r) }

  /** Reasonable Assurance not complete: the raw text contains "Letter Sent"
      or the normal form is "NOT COMPLETE". */
  predicate RaNotCompleteMask(r: TeacherRow) {
    Contains(Raw(r.reasonableAssurance), "Letter Sent") || Norm(r.reasonableAssurance) == "NOT COMPLETE"
  }

  /** Reasonable Assurance met: the raw text is "COMPLETE", "Letter Not Sent"
      or "PASSED". */
  predicate RaCompleteMask(r: TeacherRow) {
    r.reasonableAssurance == Text("COMPLETE") || r.reasonableAssurance == Text("Letter Not Sent")
    || r.reasonableAssurance == Text("PASSED")
  }

  function Days(r: TeacherRow): int { SafeIntConversion(r.daysWorked) }

  predicate ShortOutstanding(r: TeacherRow) { Days(r) <= 19 && IsOutstanding(r) }
  predicate LongOutstanding(r: TeacherRow) { Days(r) >= 20 && IsOutstanding(r) }

  /** The nine requirements of the days-only loop, in its order. */
  function Requirements(r: TeacherRow): seq<Cell> {
    [r.childAbuseWorkshop, r.violencePrevention, r.dasaWorkshop, r.subHubTraining,
     r.stateExam, r.edCredits, r.teachProfile, r.bachelorDegree, r.autismWorkshop]
  }

  /** The same nine requirements in the order of the days-and-others loop. */
  function DaysAndOthersRequirements(r: TeacherRow): seq<Cell> {
    [r.childAbuseWorkshop, r.violencePrevention, r.dasaWorkshop, r.subHubTraining,
     r.stateExam, r.edCredits, r.autismWorkshop, r.teachProfile, r.bachelorDegree]
  }

  /** The eight requirements other than the Autism Workshop. */
  function OtherRequirements(r: TeacherRow): seq<Cell> {
    [r.childAbuseWorkshop, r.violencePrevention, r.dasaWorkshop, r.subHubTraining,
     r.stateExam, r.edCredits, r.teachProfile, r.bachelorDegree]
  }

  // ---------------------------------------------------------------------
  // Counting requirements

  predicate RequiredPassed(v: Cell) { IsTeacherRequired(v) && IsTeacherPassed(v) }

  function RequiredCount(items: seq<Cell>): nat { |Filter(items, IsTeacherRequired)| }

  function PassedCount(items: seq<Cell>): nat { |Filter(items, RequiredPassed)| }

  function IncompleteCount(items: seq<Cell>): nat { |Filter(items, IsTeacherIncomplete)| }

  /** At least one requirement is required and at least 80% of the required
      ones passed (`completed / required >= 0.8`, exact for at most nine
      requirements as for paraprofessionals). */
  predicate MostlyComplete(items: seq<Cell>) {
    var required := RequiredCount(items);
    required > 0 && 5 * PassedCount(items) >= 4 * required
  }

  // ---------------------------------------------------------------------
  // Buckets, first as masks over the RA-complete PRC/PRU rows, then as
  // predicates on roster rows

  predicate OtherReqsMet(r: TeacherRow) { MostlyComplete(Requirements(r)) }

  predicate AutismCompleteOthersIncomplete(r: TeacherRow) {
    Norm(r.autismWorkshop) == "COMPLETE" && IncompleteCount(OtherRequirements(r)) >= 1
  }

  predicate MultipleIncomplete(r: TeacherRow) { IncompleteCount(DaysAndOthersRequirements(r)) >= 2 }

  predicate RaCompleteShortMask(r: TeacherRow) { RaCompleteMask(r) && ShortOutstanding(r) }
  predicate RaCompleteLongMask(r: TeacherRow) { RaCompleteMask(r) && LongOutstanding(r) }
  predicate RaCompleteOutstandingMask(r: TeacherRow) { RaCompleteMask(r) && IsOutstanding(r) }

  predicate DaysOnlyMask(r: TeacherRow) { RaCompleteShortMask(r) && OtherReqsMet(r) }

  predicate AutismOnlyMask(r: TeacherRow) {
    RaCompleteMask(r) && Days(r) >= 20 && Norm(r.autismWorkshop) == "NOT COMPLETE" && IsOutstanding(r)
  }

  predicate OtherOnlyMask(r: TeacherRow) { RaCompleteLongMask(r) && AutismCompleteOthersIncomplete(r) }

  predicate DaysAndOthersMask(r: TeacherRow) { RaCompleteShortMask(r) && MultipleIncomplete(r) }

  predicate PrcPruComplete(r: TeacherRow) { PrcPru(r) && IsComplete(r) }
  predicate PrcPruOutstanding(r: TeacherRow) { PrcPru(r) && IsOutstanding(r) }
  predicate PrcPruRaNotComplete(r: TeacherRow) { PrcPru(r) && RaNotCompleteMask(r) }
  predicate PrcPruRaComplete(r: TeacherRow) { PrcPru(r) && RaCompleteMask(r) }

  /** PRC/PRU with Reasonable Assurance met but the overall Status outstanding. */
  predicate MetRaOtherOutstanding(r: TeacherRow) { PrcPru(r) && RaCompleteOutstandingMask(r) }

  /** Days Worked Only: at most 19 days, outstanding, at least 80% of the
      required items passed. */
  predicate DaysWorkedOnly(r: TeacherRow) { PrcPru(r) && DaysOnlyMask(r) }

  /** Autism Workshop Only: at least 20 days, outstanding, Autism Workshop
      "NOT COMPLETE". */
  predicate AutismWorkshopOnly(r: TeacherRow) { PrcPru(r) && AutismOnlyMask(r) }

  /** Other Requirements Only: at least 20 days, outstanding, Autism Workshop
      "COMPLETE" and at least one other requirement incomplete. */
  predicate OtherRequirementsOnly(r: TeacherRow) { PrcPru(r) && OtherOnlyMask(r) }

  /** Days & Other Requirements: at most 19 days, outstanding, at least two
      requirements incomplete. */
  predicate DaysAndOtherRequirements(r: TeacherRow) { PrcPru(r) && DaysAndOthersMask(r) }

  predicate OnLeave(r: TeacherRow) { Eligible(r) && r.renewalClassification == Text("On Leave") }
  predicate Retiree(r: TeacherRow) { Eligible(r) && r.renewalClassification == Text("Retiree") }
  predicate RetireeComplete(r: TeacherRow) { Retiree(r) && IsComplete(r) }
  predicate RetireeOutstanding(r: TeacherRow) { Retiree(r) && IsOutstanding(r) }

  /** The raw suspension code is `code`; counted over every row the first
      filter keeps, with or without a Status. */
  predicate Suspended2SS(r: TeacherRow) { NotPendingTerm(r) && r.suspensionCode == Text("2SS") }
  predicate Suspended2SR(r: TeacherRow) { NotPendingTerm(r) && r.suspensionCode == Text("2SR") }

  /** The metrics of a roster, each the number of rows its rule selects. */
  function TeacherMetrics(rows: seq<TeacherRow>): Metrics.Results {
    map[
      Metrics.TotalEligible := |Filter(rows, Eligible)|,
      Metrics.TotalPrcPruEligible := |Filter(rows, PrcPru)|,
      Metrics.TotalPrcPruComplete := |Filter(rows, PrcPruComplete)|,
      Metrics.TotalPrcPruOutstanding := |Filter(rows, PrcPruOutstanding)|,
      Metrics.PrcPruRaNotComplete := |Filter(rows, PrcPruRaNotComplete)|,
      Metrics.PrcPruMetRaOtherOutstanding := |Filter(rows, MetRaOtherOutstanding)|,
      Metrics.PrcPruDaysWorkedOnly := |Filter(rows, DaysWorkedOnly)|,
      Metrics.PrcPruAutismWorkshopOnly := |Filter(rows, AutismWorkshopOnly)|,
      Metrics.PrcPruOtherRequirementsOnly := |Filter(rows, OtherRequirementsOnly)|,
      Metrics.PrcPruDaysAndOtherRequirements := |Filter(rows, DaysAndOtherRequirements)|,
      Metrics.TotalTeachersOnLeave := |Filter(rows, OnLeave)|,
      Metrics.TotalRetirees := |Filter(rows, Retiree)|,
      Metrics.TotalPrrComplete := |Filter(rows, RetireeComplete)|,
      Metrics.TotalPrrOutstanding := |Filter(rows, RetireeOutstanding)|,
      Metrics.TotalSuspended2ss := |Filter(rows, Suspended2SS)|,
      Metrics.TotalSuspended2sr := |Filter(rows, Suspended2SR)|
    ]
  }

  // ---------------------------------------------------------------------
  // The analysis

  /** The completed-and-required loop of the days-only check. */
  method CountRequiredAndPassed(items: seq<Cell>) returns (completedCount: nat, requiredCount: nat)
    ensures completedCount == PassedCount(items)
    ensures requiredCount == RequiredCount(items)
  {
    completedCount, requiredCount := 0, 0;
    var i := 0;
    while i < |items|
      invariant 0 <= i <= |items|
      invariant completedCount == PassedCount(items[..i])
      invariant requiredCount == RequiredCount(items[..i])
    {
      var v := items[i];
      FilterCountPrefix(items, i, IsTeacherRequired);
      FilterCountPrefix(items, i, RequiredPassed);
      if IsTeacherRequired(v) {
        requiredCount := requiredCount + 1;
        if IsTeacherPassed(v) {
          completedCount := completedCount + 1;
        }
      }
      i := i + 1;
    }
    assert items[..i] == items;
  }

  /** The incomplete loop of the other-only and days-and-others checks. */
  method CountIncomplete(items: seq<Cell>) returns (incompleteCount: nat)
    ensures incompleteCount == IncompleteCount(items)
  {
    incompleteCount := 0;
    var i := 0;
    while i < |items|
      invariant 0 <= i <= |items|
      invariant incompleteCount == IncompleteCount(items[..i])
    {
      var v := items[i];
      FilterCountPrefix(items, i, IsTeacherIncomplete);
      if IsTeacherIncomplete(v) {
        incompleteCount := incompleteCount + 1;
      }
      i := i + 1;
    }
    assert items[..i] == items;
  }

  /** The days-only loop. */
  method DaysOnlyFiltered(candidates: seq<TeacherRow>) returns (selected: seq<TeacherRow>)
    ensures selected == Filter(candidates, OtherReqsMet)
  {
    selected := [];
    var k := 0;
    while k < |candidates|
      invariant 0 <= k <= |candidates|
      invariant selected == Filter(candidates[..k], OtherReqsMet)
    {
      var row := candidates[k];
      assert candidates[..k + 1] == candidates[..k] + [row];
      FilterSnoc(candidates[..k], row, OtherReqsMet);
      var completedCount, requiredCount := CountRequiredAndPassed(Requirements(row));
      if requiredCount > 0 && 5 * completedCount >= 4 * requiredCount {
        selected := selected + [row];
      }
      k := k + 1;
    }
    assert candidates[..k] == candidates;
  }

  /** The other-requirements-only loop. */
  method OtherOnlyFiltered(candidates: seq<TeacherRow>) returns (selected: seq<TeacherRow>)
    ensures selected == Filter(candidates, AutismCompleteOthersIncomplete)
  {
    selected := [];
    var k := 0;
    while k < |candidates|
      invariant 0 <= k <= |candidates|
      invariant selected == Filter(candidates[..k], AutismCompleteOthersIncomplete)
    {
      var row := candidates[k];
      assert candidates[..k + 1] == candidates[..k] + [row];
      FilterSnoc(candidates[..k], row, AutismCompleteOthersIncomplete);
      var autismComplete := Norm(row.autismWorkshop) == "COMPLETE";
      if autismComplete {
        var incompleteCount := CountIncomplete(OtherRequirements(row));
        if incompleteCount >= 1 {
          selected := selected + [row];
        }
      }
      k := k + 1;
    }
    assert candidates[..k] == candidates;
  }

  /** The days-and-others loop. */
  method DaysAndOthersFiltered(candidates: seq<TeacherRow>) returns (selected: seq<TeacherRow>)
    ensures selected == Filter(candidates, MultipleIncomplete)
  {
    selected := [];
    var k := 0;
    while k < |candidates|
      invariant 0 <= k <= |candidates|
      invariant selected == Filter(candidates[..k], MultipleIncomplete)
    {
      var row := candidates[k];
      assert candidates[..k + 1] == candidates[..k] + [row];
      FilterSnoc(candidates[..k], row, MultipleIncomplete);
      var incompleteCount := CountIncomplete(DaysAndOthersRequirements(row));
      if incompleteCount >= 2 {
        selected := selected + [row];
      }
      k := k + 1;
    }
    assert candidates[..k] == candidates;
  }

  /** The staged selections of the bucket checks select what the bucket
      masks select. */
  lemma BucketMasks(x: seq<TeacherRow>)
    ensures Filter(Filter(x, RaCompleteMask), ShortOutstanding) == Filter(x, RaCompleteShortMask)
    ensures Filter(Filter(x, RaCompleteShortMask), OtherReqsMet) == Filter(x, DaysOnlyMask)
    ensures Filter(Filter(x, RaCompleteMask), LongAutismNotComplete) == Filter(x, AutismOnlyMask)
    ensures Filter(Filter(x, RaCompleteMask), LongOutstanding) == Filter(x, RaCompleteLongMask)
    ensures Filter(Filter(x, RaCompleteLongMask), AutismCompleteOthersIncomplete) == Filter(x, OtherOnlyMask)
    ensures Filter(Filter(x, RaCompleteShortMask), MultipleIncomplete) == Filter(x, DaysAndOthersMask)
    ensures Filter(Filter(x, RaCompleteMask), IsOutstanding) == Filter(x, RaCompleteOutstandingMask)
  {
    assert Filter(Filter(x, RaCompleteMask), IsOutstanding) == Filter(x, RaCompleteOutstandingMask) by {
      FilterFilter(x, RaCompleteMask, IsOutstanding, RaCompleteOutstandingMask);
    }
    assert Filter(Filter(x, RaCompleteMask), ShortOutstanding) == Filter(x, RaCompleteShortMask) by {
      FilterFilter(x, RaCompleteMask, ShortOutstanding, RaCompleteShortMask);
    }
    assert Filter(Filter(x, RaCompleteShortMask), OtherReqsMet) == Filter(x, DaysOnlyMask) by {
      FilterFilter(x, RaCompleteShortMask, OtherReqsMet, DaysOnlyMask);
    }
    assert Filter(Filter(x, RaCompleteMask), LongAutismNotComplete) == Filter(x, AutismOnlyMask) by {
      FilterFilter(x, RaCompleteMask, LongAutismNotComplete, AutismOnlyMask);
    }
    assert Filter(Filter(x, RaCompleteMask), LongOutstanding) == Filter(x, RaCompleteLongMask) by {
      FilterFilter(x, RaCompleteMask, LongOutstanding, RaCompleteLongMask);
    }
    assert Filter(Filter(x, RaCompleteLongMask), AutismCompleteOthersIncomplete) == Filter(x, OtherOnlyMask) by {
      FilterFilter(x, RaCompleteLongMask, AutismCompleteOthersIncomplete, OtherOnlyMask);
    }
    FilterFilter(x, RaCompleteShortMask, MultipleIncomplete, DaysAndOthersMask);
  }

  /** The staged selections of the analysis (`df[m1][m2]`) select what the
      row predicates select from the roster. */
  lemma StagedMasks(rows: seq<TeacherRow>)
    ensures Filter(Filter(rows, NotPendingTerm), HasStatus) == Filter(rows, Eligible)
    ensures Filter(Filter(rows, Eligible), OnLeaveMask) == Filter(rows, OnLeave)
    ensures Filter(Filter(rows, Eligible), RetireeMask) == Filter(rows, Retiree)
    ensures Filter(Filter(rows, Retiree), IsComplete) == Filter(rows, RetireeComplete)
    ensures Filter(Filter(rows, Retiree), IsOutstanding) == Filter(rows, RetireeOutstanding)
    ensures Filter(Filter(rows, NotPendingTerm), Code2SS) == Filter(rows, Suspended2SS)
    ensures Filter(Filter(rows, NotPendingTerm), Code2SR) == Filter(rows, Suspended2SR)
  {
    assert Filter(Filter(rows, NotPendingTerm), HasStatus) == Filter(rows, Eligible) by {
      FilterFilter(rows, NotPendingTerm, HasStatus, Eligible);
    }
    assert Filter(Filter(rows, Eligible), OnLeaveMask) == Filter(rows, OnLeave) by {
      FilterFilter(rows, Eligible, OnLeaveMask, OnLeave);
    }
    assert Filter(Filter(rows, Eligible), RetireeMask) == Filter(rows, Retiree) by {
      FilterFilter(rows, Eligible, RetireeMask, Retiree);
    }
    assert Filter(Filter(rows, Retiree), IsComplete) == Filter(rows, RetireeComplete) by {
      FilterFilter(rows, Retiree, IsComplete, RetireeComplete);
    }
    assert Filter(Filter(rows, Retiree), IsOutstanding) == Filter(rows, RetireeOutstanding) by {
      FilterFilter(rows, Retiree, IsOutstanding, RetireeOutstanding);
    }
    assert Filter(Filter(rows, NotPendingTerm), Code2SS) == Filter(rows, Suspended2SS) by {
      FilterFilter(rows, NotPendingTerm, Code2SS, Suspended2SS);
    }
    FilterFilter(rows, NotPendingTerm, Code2SR, Suspended2SR);
  }

  /** The bucket counts of the RA-complete PRC/PRU cohort, as the source's
      if-branch computes them from the concatenated PRC and PRU rows. */
  method BucketCounts(eligible: seq<TeacherRow>, cohort: seq<TeacherRow>)
      returns (daysOnly: nat, autismOnly: nat, otherOnly: nat, daysAndOthers: nat)
    requires cohort == Filter(Filter(eligible, CertifiedMask) + Filter(eligible, UncertifiedMask), RaCompleteMask)
    ensures daysOnly == |Filter(Filter(eligible, CertifiedMask) + Filter(eligible, UncertifiedMask), DaysOnlyMask)|
    ensures autismOnly == |Filter(Filter(eligible, CertifiedMask) + Filter(eligible, UncertifiedMask), AutismOnlyMask)|
    ensures otherOnly == |Filter(Filter(eligible, CertifiedMask) + Filter(eligible, UncertifiedMask), OtherOnlyMask)|
    ensures daysAndOthers == |Filter(Filter(eligible, CertifiedMask) + Filter(eligible, UncertifiedMask), DaysAndOthersMask)|
  {
    var prcPruEligible := Filter(eligible, CertifiedMask) + Filter(eligible, UncertifiedMask);
    BucketMasks(prcPruEligible);
    var days := Filter(cohort, ShortOutstanding);
    var daysOnlyFiltered := DaysOnlyFiltered(days);
    daysOnly := |daysOnlyFiltered|;

    var autism := Filter(cohort, LongAutismNotComplete);
    autismOnly := |autism|;

    var otherRequirementsOnly := Filter(cohort, LongOutstanding);
    var otherOnlyFiltered := OtherOnlyFiltered(otherRequirementsOnly);
    otherOnly := |otherOnlyFiltered|;

    var daysAndOthersRows := Filter(cohort, ShortOutstanding);
    var daysAndOthersFiltered := DaysAndOthersFiltered(daysAndOthersRows);
    daysAndOthers := |daysAndOthersFiltered|;
  }

  predicate LongAutismNotComplete(r: TeacherRow) {
    Days(r) >= 20 && Norm(r.autismWorkshop) == "NOT COMPLETE" && IsOutstanding(r)
  }

  /** The bucket section of the analysis: the four bucket counts, computed
      from the RA-met PRC/PRU rows when there are any and zero otherwise. */
  method PrcPruBuckets(rows: seq<TeacherRow>, eligible: seq<TeacherRow>)
      returns (daysOnly: nat, autismOnly: nat, otherOnly: nat, daysAndOthers: nat)
    requires eligible == Filter(rows, Eligible)
    ensures daysOnly == |Filter(rows, DaysWorkedOnly)|
    ensures autismOnly == |Filter(rows, AutismWorkshopOnly)|
    ensures otherOnly == |Filter(rows, OtherRequirementsOnly)|
    ensures daysAndOthers == |Filter(rows, DaysAndOtherRequirements)|
  {
    var prcPruEligible := Filter(eligible, CertifiedMask) + Filter(eligible, UncertifiedMask);
    var prcPruRaComplete := Filter(prcPruEligible, RaCompleteMask);
    PrcPruViaConcat(rows);
    if prcPruRaComplete != [] {
      daysOnly, autismOnly, otherOnly, daysAndOthers := BucketCounts(eligible, prcPruRaComplete);
    } else {
      EmptyCohortEmptyBuckets(rows);
      daysOnly, autismOnly, otherOnly, daysAndOthers := 0, 0, 0, 0;
    }
  }

  /** analyze_substitute_teachers: builds the results key by key as the
      source does, counting the PRC/PRU metrics over the concatenation of the
      PRC rows and the PRU rows, and writing zeros for the buckets when no
      PRC/PRU row has Reasonable Assurance met. */
  method AnalyzeSubstituteTeachers(rows: seq<TeacherRow>) returns (results: Metrics.Results)
    ensures results == TeacherMetrics(rows)
  {
    StagedMasks(rows);
    var filtered := Filter(rows, NotPendingTerm);
    var eligible := Filter(filtered, HasStatus);
    results := map[];
    results := results[Metrics.TotalEligible := |eligible|];

    var prcTeachers := Filter(eligible, CertifiedMask);
    var pruTeachers := Filter(eligible, UncertifiedMask);
    var prcPruEligible := prcTeachers + pruTeachers;
    PrcPruViaConcat(rows);
    results := results[Metrics.TotalPrcPruEligible := |prcPruEligible|];
    results := results[Metrics.TotalPrcPruComplete := |Filter(prcPruEligible, IsComplete)|];
    results := results[Metrics.TotalPrcPruOutstanding := |Filter(prcPruEligible, IsOutstanding)|];
    results := results[Metrics.PrcPruRaNotComplete := |Filter(prcPruEligible, RaNotCompleteMask)|];
    var prcPruRaComplete := Filter(prcPruEligible, RaCompleteMask);
    BucketMasks(prcPruEligible);
    results := results[Metrics.PrcPruMetRaOtherOutstanding := |Filter(prcPruRaComplete, IsOutstanding)|];

    var daysOnly, autismOnly, otherOnly, daysAndOthers := PrcPruBuckets(rows, eligible);
    results := results[Metrics.PrcPruDaysWorkedOnly := daysOnly];
    results := results[Metrics.PrcPruAutismWorkshopOnly := autismOnly];
    results := results[Metrics.PrcPruOtherRequirementsOnly := otherOnly];
    results := results[Metrics.PrcPruDaysAndOtherRequirements := daysAndOthers];

    var teachersOnLeave := Filter(eligible, OnLeaveMask);
    var retirees := Filter(eligible, RetireeMask);
    results := results[Metrics.TotalTeachersOnLeave := |teachersOnLeave|];
    results := results[Metrics.TotalRetirees := |retirees|];
    results := results[Metrics.TotalPrrComplete := |Filter(retirees, IsComplete)|];
    results := results[Metrics.TotalPrrOutstanding := |Filter(retirees, IsOutstanding)|];
    results := results[Metrics.TotalSuspended2ss := |Filter(filtered, Code2SS)|];
    results := results[Metrics.TotalSuspended2sr := |Filter(filtered, Code2SR)|];
  }

  predicate OnLeaveMask(r: TeacherRow) { r.renewalClassification == Text("On Leave") }
  predicate RetireeMask(r: TeacherRow) { r.renewalClassification == Text("Retiree") }
  predicate Code2SS(r: TeacherRow) { r.suspensionCode == Text("2SS") }
  predicate Code2SR(r: TeacherRow) { r.suspensionCode == Text("2SR") }

  // ---------------------------------------------------------------------
  // Properties

  /** Every count over the concatenation of the PRC rows and the PRU rows is
      the count of PRC/PRU roster rows: no teacher is both certified "Y" and
      "N", so the concatenation neither loses nor repeats a row. */
  lemma PrcPruViaConcat(rows: seq<TeacherRow>)
    ensures var eligible := Filter(rows, Eligible);
      var x := Filter(eligible, CertifiedMask) + Filter(eligible, UncertifiedMask);
      |x| == |Filter(rows, PrcPru)|
      && |Filter(x, IsComplete)| == |Filter(rows, PrcPruComplete)|
      && |Filter(x, IsOutstanding)| == |Filter(rows, PrcPruOutstanding)|
      && |Filter(x, RaNotCompleteMask)| == |Filter(rows, PrcPruRaNotComplete)|
      && |Filter(x, RaCompleteOutstandingMask)| == |Filter(rows, MetRaOtherOutstanding)|
      && |Filter(x, DaysOnlyMask)| == |Filter(rows, DaysWorkedOnly)|
      && |Filter(x, AutismOnlyMask)| == |Filter(rows, AutismWorkshopOnly)|
      && |Filter(x, OtherOnlyMask)| == |Filter(rows, OtherRequirementsOnly)|
      && |Filter(x, DaysAndOthersMask)| == |Filter(rows, DaysAndOtherRequirements)|
  {
    var eligible := Filter(rows, Eligible);
    FilterFilter(rows, Eligible, CertifiedMask, Prc);
    FilterFilter(rows, Eligible, UncertifiedMask, Pru);
    var x := Filter(rows, Prc) + Filter(rows, Pru);
    FilterCountDisjointUnion(rows, Prc, Pru, PrcPru);
    FilterConcatCount(rows, Prc, Pru, IsComplete, PrcPruComplete);
    FilterConcatCount(rows, Prc, Pru, IsOutstanding, PrcPruOutstanding);
    FilterConcatCount(rows, Prc, Pru, RaNotCompleteMask, PrcPruRaNotComplete);
    FilterConcatCount(rows, Prc, Pru, RaCompleteOutstandingMask, MetRaOtherOutstanding);
    FilterConcatCount(rows, Prc, Pru, DaysOnlyMask, DaysWorkedOnly);
    FilterConcatCount(rows, Prc, Pru, AutismOnlyMask, AutismWorkshopOnly);
    FilterConcatCount(rows, Prc, Pru, OtherOnlyMask, OtherRequirementsOnly);
    FilterConcatCount(rows, Prc, Pru, DaysAndOthersMask, DaysAndOtherRequirements);
  }

  /** When no PRC/PRU row has Reasonable Assurance met, every bucket is
      empty, so the zeros the source writes in that case agree with the
      bucket rules. */
  lemma EmptyCohortEmptyBuckets(rows: seq<TeacherRow>)
    requires var eligible := Filter(rows, Eligible);
      Filter(Filter(eligible, CertifiedMask) + Filter(eligible, UncertifiedMask), RaCompleteMask) == []
    ensures |Filter(rows, DaysWorkedOnly)| == 0
    ensures |Filter(rows, AutismWorkshopOnly)| == 0
    ensures |Filter(rows, OtherRequirementsOnly)| == 0
    ensures |Filter(rows, DaysAndOtherRequirements)| == 0
  {
    var eligible := Filter(rows, Eligible);
    FilterFilter(rows, Eligible, CertifiedMask, Prc);
    FilterFilter(rows, Eligible, UncertifiedMask, Pru);
    FilterConcatCount(rows, Prc, Pru, RaCompleteMask, PrcPruRaComplete);
    FilterCountMonotone(rows, DaysWorkedOnly, PrcPruRaComplete);
    FilterCountMonotone(rows, AutismWorkshopOnly, PrcPruRaComplete);
    FilterCountMonotone(rows, OtherRequirementsOnly, PrcPruRaComplete);
    FilterCountMonotone(rows, DaysAndOtherRequirements, PrcPruRaComplete);
  }

  /** Every PRC/PRU teacher is complete or outstanding, never both. */
  lemma PrcPruTotalsAddUp(rows: seq<TeacherRow>)
    ensures var m := TeacherMetrics(rows);
      m[Metrics.TotalPrcPruComplete] + m[Metrics.TotalPrcPruOutstanding] == m[Metrics.TotalPrcPruEligible]
  {
    FilterCountDisjointUnion(rows, PrcPruComplete, PrcPruOutstanding, PrcPru);
  }

  /** Every retiree is complete or outstanding, never both. */
  lemma RetireeTotalsAddUp(rows: seq<TeacherRow>)
    ensures var m := TeacherMetrics(rows);
      m[Metrics.TotalPrrComplete] + m[Metrics.TotalPrrOutstanding] == m[Metrics.TotalRetirees]
  {
    FilterCountDisjointUnion(rows, RetireeComplete, RetireeOutstanding, Retiree);
  }

  /** PRC/PRU teachers, teachers on leave and retirees are three disjoint
      parts of the eligible teachers: the PRC and PRU masks exclude the two
      special classes. */
  lemma EligibleSplitsIntoClasses(rows: seq<TeacherRow>)
    ensures var m := TeacherMetrics(rows);
      m[Metrics.TotalPrcPruEligible] + m[Metrics.TotalTeachersOnLeave] + m[Metrics.TotalRetirees]
        <= m[Metrics.TotalEligible]
  {
    ClassCounts(rows);
  }

  lemma ClassCounts(rows: seq<TeacherRow>)
    ensures |Filter(rows, PrcPru)| + |Filter(rows, OnLeave)| + |Filter(rows, Retiree)|
         <= |Filter(rows, Eligible)|
  {
    FilterCountDisjointUnion(rows, PrcPru, OnLeave, PrcPruOrOnLeave);
    FilterCountDisjointUnion(rows, PrcPruOrOnLeave, Retiree, Classified);
    FilterCountMonotone(rows, Classified, Eligible);
  }

  predicate PrcPruOrOnLeave(r: TeacherRow) { PrcPru(r) || OnLeave(r) }
  predicate Classified(r: TeacherRow) { PrcPruOrOnLeave(r) || Retiree(r) }

  /** No teacher is both PRC and PRU. */
  lemma PrcPruDisjoint(r: TeacherRow)
    ensures !(Prc(r) && Pru(r))
    ensures PrcPru(r) ==> Eligible(r) && r.renewalClassification != Text("Retiree")
                          && r.renewalClassification != Text("On Leave")
  {
  }

  /** A Reasonable Assurance value that counts as met never counts as not
      complete: none of "COMPLETE", "Letter Not Sent" and "PASSED" contains
      "Letter Sent" or normalises to "NOT COMPLETE". */
  lemma RaMasksDisjoint(r: TeacherRow)
    ensures !(RaCompleteMask(r) && RaNotCompleteMask(r))
  {
    if r.reasonableAssurance == Text("Letter Not Sent") {
      LetterNotSentIsNotComplete();
      LetterNotSentLacksLetterSent();
    } else if RaCompleteMask(r) {
      NormNoLonger(r.reasonableAssurance);
    }
  }

  lemma NormNoLonger(c: Cell)
    ensures |Norm(c)| <= |Raw(c)|
  {
    TrimProperties(Raw(c));
    UpperPointwise(Trim(Raw(c)));
  }

  lemma LetterNotSentIsNotComplete()
    ensures Norm(Text("Letter Not Sent")) != "NOT COMPLETE"
  {
    var t := "Letter Not Sent";
    assert !IsSpace(t[0]) && !IsSpace(t[|t| - 1]);
    NormKeepsFirstLetter(t);
  }

  /** A text that neither starts nor ends with whitespace normalises to a
      text of the same length whose first letter is its own, upper-cased. */
  lemma NormKeepsFirstLetter(s: string)
    requires s != [] && !IsSpace(s[0]) && !IsSpace(s[|s| - 1])
    ensures |Norm(Text(s))| == |s| && Norm(Text(s))[0] == UpperChar(s[0])
  {
    TrimOfTrimmed(s);
    UpperPointwise(s);
  }

  lemma LetterNotSentLacksLetterSent()
    ensures !Contains("Letter Not Sent", "Letter Sent")
  {
    forall i ensures !OccursAt("Letter Not Sent", "Letter Sent", i) {
      if 0 <= i <= 4 {
        NoLetterSentAt(i);
      }
    }
  }

  lemma NoLetterSentAt(i: int)
    requires 0 <= i <= 4
    ensures !OccursAt("Letter Not Sent", "Letter Sent", i)
  {
    var t := "Letter Not Sent";
    var sub := "Letter Sent";
    if i == 4 {
      assert t[i..i + |sub|][0] != sub[0];
    } else {
      assert t[i..i + |sub|][7] != sub[7];
    }
  }

  /** The two Reasonable Assurance cohorts of the PRC/PRU teachers are
      disjoint. */
  lemma ReasonableAssuranceCohorts(rows: seq<TeacherRow>)
    ensures var m := TeacherMetrics(rows);
      m[Metrics.PrcPruRaNotComplete] + m[Metrics.PrcPruMetRaOtherOutstanding] <= m[Metrics.TotalPrcPruEligible]
  {
    forall r ensures !(PrcPruRaNotComplete(r) && MetRaOtherOutstanding(r)) {
      RaMasksDisjoint(r);
    }
    FilterCountDisjointUnion(rows, PrcPruRaNotComplete, MetRaOtherOutstanding, RaCohort);
    FilterCountMonotone(rows, RaCohort, PrcPru);
  }

  predicate RaCohort(r: TeacherRow) { PrcPruRaNotComplete(r) || MetRaOtherOutstanding(r) }

  /** Of the required items, the passed and the incomplete ones split the
      required ones exactly. */
  lemma PassedAndIncompleteSplitRequired(items: seq<Cell>)
    ensures PassedCount(items) + IncompleteCount(items) == RequiredCount(items)
  {
    forall v ensures IsTeacherRequired(v) == (RequiredPassed(v) || IsTeacherIncomplete(v))
                 && !(RequiredPassed(v) && IsTeacherIncomplete(v)) {
      TeacherIncompleteIsRequiredNotPassed(v);
    }
    FilterCountDisjointUnion(items, RequiredPassed, IsTeacherIncomplete, IsTeacherRequired);
  }

  /** The days-and-others loop lists the same nine requirements as the
      days-only loop, in another order, so it counts the same. */
  lemma SameIncompleteCount(r: TeacherRow)
    ensures IncompleteCount(DaysAndOthersRequirements(r)) == IncompleteCount(Requirements(r))
  {
    var a := [r.childAbuseWorkshop, r.violencePrevention, r.dasaWorkshop, r.subHubTraining,
              r.stateExam, r.edCredits];
    var b := [r.teachProfile, r.bachelorDegree];
    assert DaysAndOthersRequirements(r) == a + [r.autismWorkshop] + b;
    assert Requirements(r) == a + b + [r.autismWorkshop];
    FilterCountMoveToEnd(a, r.autismWorkshop, b, IsTeacherIncomplete);
  }

  /** With at least 80% of at most nine required items passed, at most one
      is incomplete: no teacher is both Days Worked Only and Days & Other
      Requirements. */
  lemma MostlyCompleteLeavesOneIncomplete(items: seq<Cell>)
    requires RequiredCount(items) <= 9
    requires MostlyComplete(items)
    ensures IncompleteCount(items) <= 1
  {
    PassedAndIncompleteSplitRequired(items);
  }

  /** The four buckets are pairwise disjoint parts of the PRC/PRU teachers
      with Reasonable Assurance met and Status outstanding. */
  lemma BucketsWithinCohort(rows: seq<TeacherRow>)
    ensures var m := TeacherMetrics(rows);
      m[Metrics.PrcPruDaysWorkedOnly] + m[Metrics.PrcPruAutismWorkshopOnly]
      + m[Metrics.PrcPruOtherRequirementsOnly] + m[Metrics.PrcPruDaysAndOtherRequirements]
        <= m[Metrics.PrcPruMetRaOtherOutstanding]
  {
    BucketCountsWithinCohort(rows);
  }

  lemma BucketCountsWithinCohort(rows: seq<TeacherRow>)
    ensures |Filter(rows, DaysWorkedOnly)| + |Filter(rows, AutismWorkshopOnly)|
      + |Filter(rows, OtherRequirementsOnly)| + |Filter(rows, DaysAndOtherRequirements)|
        <= |Filter(rows, MetRaOtherOutstanding)|
  {
    ShortBucketsDisjoint();
    FilterCountDisjointUnion(rows, DaysWorkedOnly, DaysAndOtherRequirements, ShortBucket);
    FilterCountDisjointUnion(rows, AutismWorkshopOnly, OtherRequirementsOnly, LongBucket);
    FilterCountDisjointUnion(rows, ShortBucket, LongBucket, AnyBucket);
    FilterCountMonotone(rows, AnyBucket, MetRaOtherOutstanding);
  }

  /** No row is both Days Worked Only and Days & Other Requirements. */
  lemma ShortBucketsDisjoint()
    ensures forall r :: DaysWorkedOnly(r) ==> !DaysAndOtherRequirements(r)
  {
    forall r | DaysWorkedOnly(r) ensures !DaysAndOtherRequirements(r) {
      SameIncompleteCount(r);
      MostlyCompleteLeavesOneIncomplete(Requirements(r));
    }
  }

  predicate ShortBucket(r: TeacherRow) { DaysWorkedOnly(r) || DaysAndOtherRequirements(r) }
  predicate LongBucket(r: TeacherRow) { AutismWorkshopOnly(r) || OtherRequirementsOnly(r) }
  predicate AnyBucket(r: TeacherRow) { ShortBucket(r) || LongBucket(r) }

  /** A row whose raw Status is exactly "Pending Term for FT" changes no
      metric. */
  lemma PendingTermIsIgnored(rows: seq<TeacherRow>, r: TeacherRow)
    requires r.status == Text("Pending Term for FT")
    ensures TeacherMetrics(rows + [r]) == TeacherMetrics(rows)
  {
    FilterSnoc(rows, r, Eligible);
    FilterSnoc(rows, r, PrcPru);
    FilterSnoc(rows, r, PrcPruComplete);
    FilterSnoc(rows, r, PrcPruOutstanding);
    FilterSnoc(rows, r, PrcPruRaNotComplete);
    FilterSnoc(rows, r, MetRaOtherOutstanding);
    FilterSnoc(rows, r, DaysWorkedOnly);
    FilterSnoc(rows, r, AutismWorkshopOnly);
    FilterSnoc(rows, r, OtherRequirementsOnly);
    FilterSnoc(rows, r, DaysAndOtherRequirements);
    FilterSnoc(rows, r, OnLeave);
    FilterSnoc(rows, r, Retiree);
    FilterSnoc(rows, r, RetireeComplete);
    FilterSnoc(rows, r, RetireeOutstanding);
    FilterSnoc(rows, r, Suspended2SS);
    FilterSnoc(rows, r, Suspended2SR);
  }

  /** The suspension counts include rows without a Status, so they are
      bounded by the rows the first filter keeps rather than by the eligible
      total; the two codes never count the same row. */
  lemma SuspensionCounts(rows: seq<TeacherRow>)
    ensures var m := TeacherMetrics(rows);
      m[Metrics.TotalSuspended2ss] + m[Metrics.TotalSuspended2sr] <= |Filter(rows, NotPendingTerm)|
  {
    FilterCountDisjointUnion(rows, Suspended2SS, Suspended2SR, Suspended);
    FilterCountMonotone(rows, Suspended, NotPendingTerm);
  }

  predicate Suspended(r: TeacherRow) { Suspended2SS(r) || Suspended2SR(r) }

  /** A suspended teacher with a missing Status is counted as suspended but
      not as eligible. */
  lemma SuspendedWithoutStatus(r: TeacherRow)
    requires r.status == Missing && r.suspensionCode == Text("2SS")
    ensures TeacherMetrics([r])[Metrics.TotalSuspended2ss] == 1
    ensures TeacherMetrics([r])[Metrics.TotalEligible] == 0
  {
    FilterSnoc([], r, Suspended2SS);
    FilterSnoc([], r, Eligible);
    assert [r] == [] + [r];
  }
}
