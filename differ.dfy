/** Comparing a run against the previous one: calculate_differences on the
    metric counts, and calculate_percentage_differences /
    calculate_teacher_percentage_differences on the completion rates. */
module Differ {
  import opened Numbers
  import opened Counting
  import Paraprofessionals
  import Teachers
  import Metrics

  /** Python's dict.get(k, d). */
  function Get(m: Metrics.Results, k: Metrics.Key, d: int): (r: int)
    ensures k in m ==> r == m[k]
    ensures k !in m ==> r == d
  {
    if k in m then m[k] else d
  }

  // ---------------------------------------------------------------------
  // Count differences

  /** The printed change of a count: "+" and the grouped digits for a rise,
      the grouped digits with their '-' for a fall, "0" for no change. */
  function FormatDelta(diff: int): string {
    if diff > 0 then "+" + FormatNumber(diff)
    else if diff < 0 then FormatNumber(diff)
    else "0"
  }

  /** The differences of two runs: for every metric of the new run, the
      change from the old run, a metric the old run lacks counting from 0. */
  function Differences(newResults: Metrics.Results, oldResults: Metrics.Results): map<Metrics.Key, string> {
    map k | k in newResults :: Change(newResults, oldResults, k)
  }

  /** The printed change of one metric. */
  function Change(newResults: Metrics.Results, oldResults: Metrics.Results, k: Metrics.Key): string
    requires k in newResults
  {
    FormatDelta(newResults[k] - Get(oldResults, k, 0))
  }

  /** calculate_differences: visits the keys of the new results one by one
      (in an order the model leaves open) and records each change. */
  method CalculateDifferences(newResults: Metrics.Results, oldResults: Metrics.Results)
      returns (differences: map<Metrics.Key, string>)
    ensures differences == Differences(newResults, oldResults)
  {
    differences := map[];
    var remaining := newResults.Keys;
    while remaining != {}
      invariant remaining <= newResults.Keys
      invariant differences.Keys == newResults.Keys - remaining
      invariant forall k :: k in differences ==> differences[k] == Change(newResults, oldResults, k)
      decreases |remaining|
    {
      var key :| key in remaining;
      var newVal := Get(newResults, key, 0);
      var oldVal := Get(oldResults, key, 0);
      var diff := newVal - oldVal;
      if diff > 0 {
        differences := differences[key := "+" + FormatNumber(diff)];
      } else if diff < 0 {
        differences := differences[key := FormatNumber(diff)];
      } else {
        differences := differences[key := "0"];
      }
      remaining := remaining - {key};
    }
  }

  /** The differences have exactly the metrics of the new run. */
  lemma DifferencesKeys(newResults: Metrics.Results, oldResults: Metrics.Results)
    ensures Differences(newResults, oldResults).Keys == newResults.Keys
  {
  }

  /** The printed change reads back, with Python's int() after removing the
      commas, as the change itself. */
  lemma FormatDeltaRoundTrip(diff: int)
    ensures ParseFormatted(FormatDelta(diff)) == Some(diff)
  {
    if diff > 0 {
      PlusRoundTrip(diff);
    } else if diff < 0 {
      FormatNumberRoundTrip(diff);
    } else {
      assert Grouped(0) == "0";
      FormatNumberRoundTrip(0);
    }
  }

  lemma PlusRoundTrip(n: nat)
    ensures ParseFormatted("+" + Grouped(n)) == Some(n)
  {
    GroupedRoundTrip(n);
    var s := "+" + Grouped(n);
    assert s[0] == '+' && s[1..] == Grouped(n);
  }

  /** The first character of the printed change tells its sign: '+' for a
      rise, '-' for a fall, and the text is "0" exactly when nothing
      changed. */
  lemma FormatDeltaSign(diff: int)
    ensures FormatDelta(diff) != []
    ensures FormatDelta(diff)[0] == '+' <==> diff > 0
    ensures FormatDelta(diff)[0] == '-' <==> diff < 0
    ensures FormatDelta(diff) == "0" <==> diff == 0
  {
    if diff > 0 {
      assert IsDigit(Grouped(diff)[0]);
    } else if diff < 0 {
      assert FormatDelta(diff) == "-" + Grouped(-diff);
    } else {
      assert FormatDelta(diff) == "0";
    }
  }

  /** A rise and the equal fall print with the same digits. */
  lemma FormatDeltaOpposite(diff: int)
    requires diff > 0
    ensures FormatDelta(-diff) == "-" + FormatDelta(diff)[1..]
  {
    assert FormatDelta(diff)[1..] == Grouped(diff);
  }

  /** A run compared with itself has changed nowhere. */
  lemma SelfDifferencesAreZero(results: Metrics.Results)
    ensures forall k :: k in Differences(results, results) ==> Differences(results, results)[k] == "0"
  {
  }

  /** Swapping the runs swaps rises and falls of the metrics both have. */
  lemma SwappedDifferences(a: Metrics.Results, b: Metrics.Results, k: Metrics.Key)
    requires k in a && k in b && a[k] > b[k]
    ensures Differences(a, b)[k][0] == '+' && Differences(b, a)[k][0] == '-'
    ensures Differences(b, a)[k] == "-" + Differences(a, b)[k][1..]
  {
    var rise := a[k] - b[k];
    DifferenceAt(a, b, k);
    DifferenceAt(b, a, k);
    RiseAndFall(Differences(a, b)[k], Differences(b, a)[k], rise);
  }

  /** A rise prints with '+', the equal fall with '-' and the same digits. */
  lemma RiseAndFall(up: string, down: string, rise: int)
    requires rise > 0 && up == FormatDelta(rise) && down == FormatDelta(-rise)
    ensures up[0] == '+' && down[0] == '-'
    ensures down == "-" + up[1..]
  {
    FormatDeltaSign(rise);
    FormatDeltaSign(-rise);
    FormatDeltaOpposite(rise);
  }

  /** The entry of one metric in the differences. */
  lemma DifferenceAt(newResults: Metrics.Results, oldResults: Metrics.Results, k: Metrics.Key)
    requires k in newResults
    ensures k in Differences(newResults, oldResults)
    ensures Differences(newResults, oldResults)[k] == FormatDelta(newResults[k] - Get(oldResults, k, 0))
  {
  }

  /** The metric names both analyses report. */
  const ParaKeys: seq<Metrics.Key> := [
    Metrics.TotalEligible, Metrics.TotalComplete, Metrics.TotalOutstanding, Metrics.RaNotComplete,
    Metrics.RaCompleteOtherOutstanding, Metrics.DaysWorkedOnly, Metrics.AtasOnly,
    Metrics.AutismWorkshopOnly, Metrics.DaysAndOtherRequirements, Metrics.TotalSuspended2ss,
    Metrics.TotalSuspended2sr]

  const TeacherKeys: seq<Metrics.Key> := [
    Metrics.TotalEligible, Metrics.TotalPrcPruEligible, Metrics.TotalPrcPruComplete,
    Metrics.TotalPrcPruOutstanding, Metrics.PrcPruRaNotComplete, Metrics.PrcPruMetRaOtherOutstanding,
    Metrics.PrcPruDaysWorkedOnly, Metrics.PrcPruAutismWorkshopOnly, Metrics.PrcPruOtherRequirementsOnly,
    Metrics.PrcPruDaysAndOtherRequirements, Metrics.TotalTeachersOnLeave, Metrics.TotalRetirees,
    Metrics.TotalPrrComplete, Metrics.TotalPrrOutstanding, Metrics.TotalSuspended2ss, Metrics.TotalSuspended2sr]

  /** `{key: 0 for key in keys}`: the results the program uses in place of
      a run whose data file is absent. */
  function ZeroFilled(keys: set<Metrics.Key>): (r: Metrics.Results)
    ensures r.Keys == keys
    ensures forall k :: k in r ==> r[k] == 0
  {
    map k | k in keys :: 0
  }

  /** The zero-filled results have exactly the keys each analysis reports. */
  lemma ZeroFilledHasAnalysisKeys(rows: seq<Paraprofessionals.ParaRow>, teachers: seq<Teachers.TeacherRow>)
    ensures ZeroFilled(set k | k in ParaKeys).Keys == Paraprofessionals.ParaMetrics(rows).Keys
    ensures ZeroFilled(set k | k in TeacherKeys).Keys == Teachers.TeacherMetrics(teachers).Keys
  {
  }

  /** Compared with zero-filled old results, every metric of a run shows as
      a rise by its count, or "0" when the count is 0. */
  lemma AgainstZeroFilled(results: Metrics.Results, k: Metrics.Key)
    requires k in results && results[k] >= 0
    ensures Differences(results, ZeroFilled(results.Keys))[k] == FormatDelta(results[k])
    ensures results[k] > 0 ==> Differences(results, ZeroFilled(results.Keys))[k][0] == '+'
    ensures results[k] == 0 ==> Differences(results, ZeroFilled(results.Keys))[k] == "0"
  {
    FormatDeltaSign(results[k]);
  }

  // ---------------------------------------------------------------------
  // Completion rates

  function Max(a: int, b: int): int { if a >= b then a else b }

  /** `get(complete, 0) / max(get(eligible, 1), 1) * 100`, as an exact
      rational. */
  function CompletionRate(results: Metrics.Results, completeKey: Metrics.Key, eligibleKey: Metrics.Key): real {
    Get(results, completeKey, 0) as real / Max(Get(results, eligibleKey, 1), 1) as real * 100.0
  }

  /** The classification of a rate change that the printed form follows:
      "+{diff:.1f}%" for a rise, "{diff:.1f}%" for a fall, "0%" otherwise. */
  datatype RateChange = Rise(diff: real) | Fall(diff: real) | NoChange

  function ClassifyChange(diff: real): (c: RateChange)
    ensures c.Rise? <==> diff > 0.0
    ensures c.Fall? <==> diff < 0.0
    ensures c.NoChange? <==> diff == 0.0
    ensures !c.NoChange? ==> c.diff == diff
  {
    if diff > 0.0 then Rise(diff) else if diff < 0.0 then Fall(diff) else NoChange
  }

  function SpaRate(results: Metrics.Results): real {
    CompletionRate(results, Metrics.TotalComplete, Metrics.TotalEligible)
  }

  function SteRate(results: Metrics.Results): real {
    CompletionRate(results, Metrics.TotalPrcPruComplete, Metrics.TotalPrcPruEligible)
  }

  /** calculate_percentage_differences: the change of the paraprofessional
      completion rate, under "spa_completion_rate". */
  function CalculatePercentageDifferences(newResults: Metrics.Results, oldResults: Metrics.Results)
      : (r: map<string, RateChange>)
    ensures r.Keys == {"spa_completion_rate"}
  {
    map["spa_completion_rate" := ClassifyChange(SpaRate(newResults) - SpaRate(oldResults))]
  }

  /** calculate_teacher_percentage_differences: the change of the PRC/PRU
      completion rate, under "ste_completion_rate". */
  function CalculateTeacherPercentageDifferences(newResults: Metrics.Results, oldResults: Metrics.Results)
      : (r: map<string, RateChange>)
    ensures r.Keys == {"ste_completion_rate"}
  {
    map["ste_completion_rate" := ClassifyChange(SteRate(newResults) - SteRate(oldResults))]
  }

  /** A rate whose count lies between 0 and its total is a percentage
      between 0 and 100; a total of 0 (or a missing total) divides by 1. */
  lemma RateIsPercentage(results: Metrics.Results, completeKey: Metrics.Key, eligibleKey: Metrics.Key)
    requires 0 <= Get(results, completeKey, 0) <= Max(Get(results, eligibleKey, 1), 1)
    ensures 0.0 <= CompletionRate(results, completeKey, eligibleKey) <= 100.0
  {
    RatioIsPercentage(Get(results, completeKey, 0), Max(Get(results, eligibleKey, 1), 1));
  }

  lemma RatioIsPercentage(c: int, e: int)
    requires 0 <= c <= e && e >= 1
    ensures 0.0 <= c as real / e as real * 100.0 <= 100.0
  {
    DivideAtMostOne(c as real, e as real);
  }

  lemma DivideAtMostOne(c: real, e: real)
    requires 0.0 <= c <= e && e > 0.0
    ensures 0.0 <= c / e <= 1.0
  {
  }

  /** The paraprofessional completion rate of any roster is a percentage. */
  lemma SpaRateOfRosterIsPercentage(rows: seq<Paraprofessionals.ParaRow>)
    ensures 0.0 <= SpaRate(Paraprofessionals.ParaMetrics(rows)) <= 100.0
  {
    var m := Paraprofessionals.ParaMetrics(rows);
    Paraprofessionals.TotalsAddUp(rows);
    assert 0 <= m[Metrics.TotalComplete] <= m[Metrics.TotalEligible];
    RateIsPercentage(m, Metrics.TotalComplete, Metrics.TotalEligible);
  }

  /** The PRC/PRU completion rate of any roster is a percentage. */
  lemma SteRateOfRosterIsPercentage(rows: seq<Teachers.TeacherRow>)
    ensures 0.0 <= SteRate(Teachers.TeacherMetrics(rows)) <= 100.0
  {
    var m := Teachers.TeacherMetrics(rows);
    Teachers.PrcPruTotalsAddUp(rows);
    assert 0 <= m[Metrics.TotalPrcPruComplete] <= m[Metrics.TotalPrcPruEligible];
    RateIsPercentage(m, Metrics.TotalPrcPruComplete, Metrics.TotalPrcPruEligible);
  }

  /** A run compared with itself shows no change of either rate. */
  lemma SelfRateUnchanged(results: Metrics.Results)
    ensures CalculatePercentageDifferences(results, results)["spa_completion_rate"] == NoChange
    ensures CalculateTeacherPercentageDifferences(results, results)["ste_completion_rate"] == NoChange
  {
  }

  /** Swapping the runs turns a rise of either rate into a fall of the
      same size. */
  lemma SwappedRateChange(a: Metrics.Results, b: Metrics.Results)
    ensures CalculatePercentageDifferences(a, b)["spa_completion_rate"].Rise?
        <==> CalculatePercentageDifferences(b, a)["spa_completion_rate"].Fall?
    ensures CalculatePercentageDifferences(a, b)["spa_completion_rate"].Rise? ==>
        CalculatePercentageDifferences(a, b)["spa_completion_rate"].diff
        == -CalculatePercentageDifferences(b, a)["spa_completion_rate"].diff
    ensures CalculateTeacherPercentageDifferences(a, b)["ste_completion_rate"].Rise?
        <==> CalculateTeacherPercentageDifferences(b, a)["ste_completion_rate"].Fall?
    ensures CalculateTeacherPercentageDifferences(a, b)["ste_completion_rate"].Rise? ==>
        CalculateTeacherPercentageDifferences(a, b)["ste_completion_rate"].diff
        == -CalculateTeacherPercentageDifferences(b, a)["ste_completion_rate"].diff
  {
  }

  /** Zero-filled results have a rate of 0: a total of 0 divides by 1. */
  lemma ZeroFilledRate(keys: set<Metrics.Key>)
    ensures SpaRate(ZeroFilled(keys)) == 0.0 && SteRate(ZeroFilled(keys)) == 0.0
  {
  }
}
