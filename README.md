# Substitute renewal analytics: a verified model of the decision logic

This project models the decision logic of `substitute_renewal_analytics.py`. That script reads two CSV rosters (substitute paraprofessionals and substitute teachers) and counts who has and who has not completed the renewal requirements. It can compare a run against an older run.

The model covers five parts of the script:

* **Value classifiers.** These are:
  * the Status resolver shared by both analyses;
  * the paraprofessional "complete" and "outstanding" vocabularies;
  * the teacher vocabularies that the teacher loops spell out inline;
  * `safe_int_conversion`;
  * the integer branch of `format_number`.
* **The paraprofessional analysis** (`analyze_substitute_paraprofessionals`). It produces eleven counts: totals, the two Reasonable Assurance cohorts, four requirement buckets and two suspension codes.
* **The teacher analysis** (`analyze_substitute_teachers`). It produces sixteen counts: totals, the PRC/PRU cohort (certified `Y` or `N`), its Reasonable Assurance split and four buckets, teachers on leave, retirees and suspension codes.
* **`calculate_differences`.** It gives the signed, comma-grouped change of every count against an older run.
* **`calculate_percentage_differences` and `calculate_teacher_percentage_differences`.** They give the change of a completion rate between two runs.

## How the model is built

A CSV cell is `Cells.Cell`: either `Missing` (pandas NaN) or `Text(s)`. `str(v).strip().upper()` is `Cells.Norm`, which normalises a missing cell to `"NAN"`, as Python's `str(nan)` does.

A pandas boolean mask `df[mask]` becomes `Counting.Filter(rows, P)`, where `P` is a named row predicate, and `len(df[mask])` is the length of that selection.

Each `iterrows` loop and each counting loop is a `method` with a `while` loop. Each is proved to select (or count) exactly what its predicate selects.

A results dictionary is a `Metrics.Results`: a map from `Metrics.Key` (one constructor per key the script writes) to a count. The comment beside each constructor gives the key's text.

Each analysis method is proved equal to a specification function:

* `Paraprofessionals.ParaMetrics` for the paraprofessional analysis;
* `Teachers.TeacherMetrics` for the teacher analysis.

Each specification function defines every count as the number of roster rows that satisfy one predicate. The lemmas then relate these counts:

* totals add up;
* cohorts are disjoint;
* buckets stay within their cohort;
* ignored rows change nothing.

### Where the code differs from its own description, the model follows the code

* **Paraprofessional buckets overlap.** The comments describe the buckets as exclusive. As written, a row can be both "Autism Workshop Only" and "ATAS Only" (`Paraprofessionals.AutismAndAtasOverlap` builds one).
* **Unknown paraprofessional values.** A requirement value outside both vocabularies (for example `"PENDING"`) is neither complete nor outstanding. It is counted as required but neither done nor missing.
* **Paraprofessional Status.** Status is first replaced by `str(v).strip().upper()`, so a missing Status becomes `"NAN"`. Every row therefore stays active, and such a row resolves to Outstanding.
* **Raw teacher comparisons.** Most teacher masks compare the raw cell, not a normalised one:
  * `Certified == 'Y'`;
  * Renewal Classification `isin`;
  * Reasonable Assurance `isin` and `contains`;
  * the suspension code;
  * `Status != 'Pending Term for FT'`.
* **Teacher suspension counts.** These are taken over all rows that are not "Pending Term for FT", including rows without a Status. Such rows are not eligible (`Teachers.SuspendedWithoutStatus`).
* **Float ratio test.** The 80% test `completed / required >= 0.8` is written `5 * completed >= 4 * required` with `required > 0`. For at most nine requirements, the float quotient reaches 0.8 exactly when the rational one does.

## Model

| member | source | states |
|---|---|---|
| Cells.Norm | substitute_renewal_analytics.py:135-136 | the normal form `str(v).strip().upper()`: no contract of its own; Cells.NormIdempotent, Cells.NormIgnoresPadding, Cells.MissingNormalisesToNan and Cells.BlankNormalisesToEmpty state what it does |
| Cells.TrimProperties | substitute_renewal_analytics.py:160 | `strip()` is no longer than its input, is empty exactly when the input is all whitespace, and otherwise begins and ends with a non-space character |
| Cells.TrimStartIsSuffix | substitute_renewal_analytics.py:160 | stripping the front leaves a suffix of the text, everything dropped is whitespace, and what remains starts with a non-space character |
| Cells.TrimEndIsPrefix | substitute_renewal_analytics.py:160 | stripping the back leaves a prefix of the text, everything dropped is whitespace, and what remains ends with a non-space character |
| Cells.UpperPointwise | substitute_renewal_analytics.py:160 | `upper()` keeps the length and upper-cases each character in place |
| Cells.MissingNormalisesToNan | substitute_renewal_analytics.py:450-451 | a missing cell normalises to `"NAN"`, the text the teacher loops list as not required |
| Cells.BlankNormalisesToEmpty | substitute_renewal_analytics.py:169-171 | an all-whitespace text normalises to the empty text |
| Cells.NormIdempotent | substitute_renewal_analytics.py:126-136 | normalising an already normalised value changes nothing, so normalising Status twice is the same as once |
| Cells.UpperIdempotent | substitute_renewal_analytics.py:136 | upper-casing twice is upper-casing once |
| Cells.NormIgnoresPadding | substitute_renewal_analytics.py:160 | whitespace around a value does not change its normal form |
| Cells.Contains | substitute_renewal_analytics.py:407 | `str.contains` holds exactly when the pattern occurs at some position of the text |
| Numbers.SafeIntConversion | substitute_renewal_analytics.py:71-78 | `safe_int_conversion`: no contract of its own; Numbers.SafeIntDefaultsToZero (missing or unreadable gives 0), Numbers.SafeIntDropsFraction and Numbers.SafeIntOfDecimalText (truncation toward zero) state what it gives |
| Numbers.ParseDecimal | substitute_renewal_analytics.py:76 | a text it reads yields a well-formed decimal (sign, digits, optional point and digits) |
| Numbers.DecimalTextRoundTrip | substitute_renewal_analytics.py:76 | the text of a decimal is read back as that decimal |
| Numbers.TruncateTowardZero | substitute_renewal_analytics.py:76 | `int()` of a float truncates toward zero, for positive and negative values |
| Numbers.TruncateDecimal | substitute_renewal_analytics.py:76 | truncating a decimal keeps its signed whole part |
| Numbers.SafeIntDropsFraction | substitute_renewal_analytics.py:76 | `safe_int_conversion` of a readable text is the signed whole part of the exact decimal written; the rounding of `float()` is listed under Left out |
| Numbers.SafeIntOfDecimalText | substitute_renewal_analytics.py:76 | the conversion of a decimal's text is that exact decimal truncated toward zero; the rounding of `float()` is listed under Left out |
| Numbers.SafeIntDefaultsToZero | substitute_renewal_analytics.py:73-78 | a missing value and a text `float()` rejects both give 0 |
| Numbers.SafeIntRejectsEmptyAndNan | substitute_renewal_analytics.py:73-78 | the empty text and the text `"nan"` give 0 |
| Numbers.SafeIntReadsFloatRendering | substitute_renewal_analytics.py:76 | `"19.0"`, the way pandas renders a float day count, gives 19 |
| Numbers.SafeIntTruncatesTowardZero | substitute_renewal_analytics.py:76 | `"-3.5"` gives -3, not -4 |
| Numbers.SafeIntIgnoresPadding | substitute_renewal_analytics.py:76 | surrounding whitespace does not change the conversion |
| Numbers.SafeIntReadsDigits | substitute_renewal_analytics.py:76 | the plain digits of n convert to n |
| Numbers.Digits | substitute_renewal_analytics.py:65 | the decimal digits of n are a non-empty digit text that starts with `0` only for 0 |
| Numbers.DigitsRoundTrip | substitute_renewal_analytics.py:65 | the decimal digits of n read back as n |
| Numbers.Grouped | substitute_renewal_analytics.py:65 | the `{:,}` form of a natural number starts with a digit and has a comma exactly every fourth position from the right, with digits elsewhere; it starts with `0` only for 0, so there is no leading zero |
| Numbers.GroupedRoundTrip | substitute_renewal_analytics.py:65 | removing the commas from the grouped form leaves digits that read back as the number |
| Numbers.FormatNumber | substitute_renewal_analytics.py:63-65 | the integer branch of `format_number`: no contract of its own; Numbers.FormatNumberRoundTrip and Numbers.Grouped state what it prints |
| Numbers.FormatNumberRoundTrip | substitute_renewal_analytics.py:63-65 | `format_number` of any integer, with its commas removed, is read back by `int()` as that integer, sign included |
| Numbers.FormatNumberExamples | substitute_renewal_analytics.py:63-65 | 999 prints as `999` and -1234567 prints as `-1,234,567` |
| Counting.Filter | substitute_renewal_analytics.py:150 | a masked selection has no more rows than the table |
| Counting.FilterMembership | substitute_renewal_analytics.py:150 | a row is in `df[mask]` exactly when it is in `df` and satisfies the mask |
| Counting.FilterFilter | substitute_renewal_analytics.py:185 | masking twice (`df[m1][m2]`) selects what the conjunction of the masks selects |
| Counting.FilterCountDisjointUnion | substitute_renewal_analytics.py:174-177 | the counts of two masks that never hold together add up to the count of their disjunction |
| Counting.FilterCountComplement | substitute_renewal_analytics.py:150-151 | a mask and its negation split the rows |
| Counting.FilterCountMonotone | substitute_renewal_analytics.py:185 | a mask implied by another selects no more rows |
| Counting.FilterConcatCount | substitute_renewal_analytics.py:395-403 | masking the concatenation of two disjoint selections counts the rows that are in either selection and satisfy the mask |
| Counting.FilterCountMoveToEnd | substitute_renewal_analytics.py:512-522 | moving one item of a list to its end (the Autism Workshop in the days-and-others item list) does not change how many items a mask selects |
| Classify.CompletionStatus | substitute_renewal_analytics.py:133-142 | the status is Complete exactly when the normalised Status is `COMPL` or `COMPLETE`, and Outstanding otherwise |
| Classify.StatusDefaultsToOutstanding | substitute_renewal_analytics.py:140-142 | a missing or blank Status resolves to Outstanding |
| Classify.StatusIgnoresCaseAndPadding | substitute_renewal_analytics.py:135-136 | the resolver ignores surrounding whitespace and letter case |
| Classify.NormOfUpper | substitute_renewal_analytics.py:136 | upper-casing before normalising changes nothing |
| Classify.UpperTrimCommute | substitute_renewal_analytics.py:160 | stripping and upper-casing can be done in either order |
| Classify.AmongIsIn | substitute_renewal_analytics.py:162 | the recursive membership test is Python's `in` on a list |
| Classify.IsRequirementComplete | substitute_renewal_analytics.py:156-162 | `is_requirement_complete`: no contract of its own; Classify.VocabulariesDisjoint and Classify.MissingAndBlankAreOutstanding state that missing, blank and outstanding values are never complete |
| Classify.IsRequirementOutstanding | substitute_renewal_analytics.py:165-171 | `is_requirement_outstanding`: no contract of its own; Classify.MissingAndBlankAreOutstanding and Classify.NotRequiredIsListedOutstanding state which values it accepts |
| Classify.VocabulariesDisjoint | substitute_renewal_analytics.py:156-171 | no value is both complete and outstanding |
| Classify.MissingAndBlankAreOutstanding | substitute_renewal_analytics.py:156-171 | missing and blank values are outstanding and never complete |
| Classify.NotRequiredIsListedOutstanding | substitute_renewal_analytics.py:170 | `NOT REQUIRED` satisfies the outstanding check and not the complete one |
| Classify.TeacherIncompleteIsRequiredNotPassed | substitute_renewal_analytics.py:449-497 | a teacher value is incomplete exactly when it is required and not passed, and every passed value is required |
| Classify.TeacherIgnoresMissingAndBlank | substitute_renewal_analytics.py:451 | missing and blank teacher values are neither required nor incomplete |
| Paraprofessionals.CountRequiredAndComplete | substitute_renewal_analytics.py:214-222 | the loop counts the required items and the required complete items |
| Paraprofessionals.CountRequiredAndIncomplete | substitute_renewal_analytics.py:308-316 | the loop counts the required items and the required outstanding items |
| Paraprofessionals.DaysOnlyWithOtherReqsMet | substitute_renewal_analytics.py:201-226 | the loop keeps exactly the candidates with at least 80% of their required items complete, in order |
| Paraprofessionals.AutismOnlyFiltered | substitute_renewal_analytics.py:236-256 | the loop keeps exactly the candidates whose Autism Workshop is outstanding and whose other required items are at least 80% complete |
| Paraprofessionals.AtasOnlyFiltered | substitute_renewal_analytics.py:266-286 | the loop keeps exactly the candidates whose State Exam is outstanding and whose other required items are at least 80% complete |
| Paraprofessionals.DaysAndMultipleIncomplete | substitute_renewal_analytics.py:297-320 | the loop keeps exactly the candidates with two or more required items outstanding |
| Paraprofessionals.StagedMasks | substitute_renewal_analytics.py:181-198 | each staged selection of the analysis selects what one roster predicate selects |
| Paraprofessionals.AnalyzeSubstituteParaprofessionals | substitute_renewal_analytics.py:106-339 | the results are exactly the eleven counts of the specification, in both branches of the empty-cohort test |
| Paraprofessionals.RowStatusIsStatusOfCell | substitute_renewal_analytics.py:126-146 | normalising the Status column first does not change the computed status |
| Paraprofessionals.TotalsAddUp | substitute_renewal_analytics.py:149-151 | complete plus outstanding is the eligible total |
| Paraprofessionals.ReasonableAssuranceCohorts | substitute_renewal_analytics.py:174-186 | the two Reasonable Assurance cohorts are disjoint, so together they are at most the eligible total, and the outstanding RA-complete rows are part of the outstanding total |
| Paraprofessionals.EmptyCohortEmptyBuckets | substitute_renewal_analytics.py:323-329 | with no RA-complete row every bucket is empty, so the zeros written in that branch agree with the bucket rules |
| Paraprofessionals.DecidedWithinRequired | substitute_renewal_analytics.py:214-222 | the complete and the outstanding required items together are at most the required items |
| Paraprofessionals.MostlyCompleteLeavesOneOutstanding | substitute_renewal_analytics.py:225 | with at least 80% of at most six required items complete, at most one is outstanding |
| Paraprofessionals.ShortBucketsDisjoint | substitute_renewal_analytics.py:225-319 | no row is both Days Worked Only and Days & Other Requirements |
| Paraprofessionals.BucketsWithinCohort | substitute_renewal_analytics.py:191-322 | the two short buckets plus either long bucket fit within the outstanding RA-complete rows |
| Paraprofessionals.AutismAndAtasOverlap | substitute_renewal_analytics.py:237-286 | an outstanding row at 25 days with four workshops complete and both Autism Workshop and State Exam missing is counted in both long buckets |
| Paraprofessionals.FourOfFiveComplete | substitute_renewal_analytics.py:255 | four complete items and one missing item pass the 80% test |
| Paraprofessionals.NotRequiredIsIgnored | substitute_renewal_analytics.py:217-222 | a `NOT REQUIRED` item changes none of the counts or the 80% test |
| Paraprofessionals.NothingRequiredIsNotDaysOnly | substitute_renewal_analytics.py:225 | a row with nothing required fails the 80% test and is not Days Worked Only |
| Paraprofessionals.SuspensionCounts | substitute_renewal_analytics.py:333-334 | no row is counted under both suspension codes, so the two counts together are at most the eligible total |
| Paraprofessionals.PaddedSuspensionCode | substitute_renewal_analytics.py:333-334 | the code is compared after `strip()`: a padded cell counts under 2SS or 2SR exactly when its stripped text is that code |
| Teachers.CountRequiredAndPassed | substitute_renewal_analytics.py:446-454 | the loop counts the required items and the required passed items |
| Teachers.CountIncomplete | substitute_renewal_analytics.py:493-497 | the loop counts the items in neither the passed list nor the not-counted list |
| Teachers.DaysOnlyFiltered | substitute_renewal_analytics.py:431-458 | the loop keeps exactly the candidates with at least 80% of their required items passed |
| Teachers.OtherOnlyFiltered | substitute_renewal_analytics.py:477-500 | the loop keeps exactly the candidates whose Autism Workshop is `COMPLETE` and who have an incomplete item among the other eight |
| Teachers.DaysAndOthersFiltered | substitute_renewal_analytics.py:510-531 | the loop keeps exactly the candidates with two or more incomplete items |
| Teachers.BucketCounts | substitute_renewal_analytics.py:421-533 | the four bucket counts over the concatenated PRC and PRU rows are the counts of the bucket masks |
| Teachers.PrcPruBuckets | substitute_renewal_analytics.py:421-540 | the bucket counts, or the zeros of the empty-cohort branch, are the counts of the roster's bucket predicates |
| Teachers.AnalyzeSubstituteTeachers | substitute_renewal_analytics.py:341-556 | the results are exactly the sixteen counts of the specification |
| Teachers.PrcPruViaConcat | substitute_renewal_analytics.py:385-403 | every count over `pd.concat` of the PRC and the PRU rows is the count of PRC/PRU roster rows |
| Teachers.StagedMasks | substitute_renewal_analytics.py:357-360 | each staged selection of the analysis selects what one roster predicate selects |
| Teachers.PrcPruDisjoint | substitute_renewal_analytics.py:385-393 | no teacher is both PRC and PRU, and every PRC/PRU teacher is eligible and not a retiree |
| Teachers.PrcPruTotalsAddUp | substitute_renewal_analytics.py:397-403 | PRC/PRU complete plus outstanding is the PRC/PRU total |
| Teachers.RetireeTotalsAddUp | substitute_renewal_analytics.py:545-550 | retirees complete plus outstanding is the retiree total |
| Teachers.EligibleSplitsIntoClasses | substitute_renewal_analytics.py:385-548 | PRC/PRU teachers, teachers on leave and retirees are disjoint parts of the eligible teachers |
| Teachers.RaMasksDisjoint | substitute_renewal_analytics.py:406-415 | no Reasonable Assurance value is both met and not complete |
| Teachers.LetterNotSentLacksLetterSent | substitute_renewal_analytics.py:407 | `Letter Not Sent` does not contain `Letter Sent` |
| Teachers.ReasonableAssuranceCohorts | substitute_renewal_analytics.py:406-418 | the not-complete and the met-but-outstanding RA groups are disjoint parts of the PRC/PRU teachers |
| Teachers.EmptyCohortEmptyBuckets | substitute_renewal_analytics.py:534-540 | with no RA-met PRC/PRU teacher every bucket is empty, so the zeros written in that branch agree with the bucket rules |
| Teachers.PassedAndIncompleteSplitRequired | substitute_renewal_analytics.py:449-454 | passed plus incomplete items is the required items |
| Teachers.SameIncompleteCount | substitute_renewal_analytics.py:512-522 | the days-and-others list, in its own order, has as many incomplete items as the days-only list |
| Teachers.MostlyCompleteLeavesOneIncomplete | substitute_renewal_analytics.py:457 | with at least 80% of at most nine required items passed, at most one is incomplete |
| Teachers.ShortBucketsDisjoint | substitute_renewal_analytics.py:457-530 | no teacher is both Days Worked Only and Days & Other Requirements |
| Teachers.BucketsWithinCohort | substitute_renewal_analytics.py:421-533 | the four buckets together fit within the met-RA outstanding PRC/PRU teachers |
| Teachers.PendingTermIsIgnored | substitute_renewal_analytics.py:357 | adding a row whose Status is exactly `Pending Term for FT` changes no count |
| Teachers.SuspensionCounts | substitute_renewal_analytics.py:553-554 | the two suspension counts together are at most the rows that are not pending term |
| Teachers.SuspendedWithoutStatus | substitute_renewal_analytics.py:553-554 | a suspended row without a Status is counted as suspended but not as eligible |
| Differ.Get | substitute_renewal_analytics.py:1223-1224 | `dict.get(k, d)` is the stored value when the key is present and d otherwise |
| Differ.FormatDelta | substitute_renewal_analytics.py:1227-1232 | the printed change of a count: `+` and the grouped digits for a rise, the grouped digits with their `-` for a fall, `0` otherwise. It has no contract of its own; its meaning is stated by Differ.FormatDeltaSign, Differ.FormatDeltaRoundTrip and Differ.FormatDeltaOpposite |
| Differ.CalculateDifferences | substitute_renewal_analytics.py:1209-1234 | the loop over the new run's keys, with the three printing branches inline, records for each key the printed change from the old run, counting a missing old key as 0. The printed change carries the sign of the change and reads back as it (Differ.FormatDeltaSign, Differ.FormatDeltaRoundTrip) |
| Differ.DifferencesKeys | substitute_renewal_analytics.py:1222 | the differences have exactly the keys of the new run |
| Differ.FormatDeltaRoundTrip | substitute_renewal_analytics.py:1227-1232 | the printed change, read back by `int()` after removing commas, is the change |
| Differ.FormatDeltaSign | substitute_renewal_analytics.py:1227-1232 | the text starts with `+` exactly for a rise and `-` exactly for a fall, and is `0` exactly when nothing changed |
| Differ.FormatDeltaOpposite | substitute_renewal_analytics.py:1228-1230 | a rise and the equal fall print with the same digits |
| Differ.SelfDifferencesAreZero | substitute_renewal_analytics.py:1225-1232 | a run compared with itself shows `0` everywhere |
| Differ.SwappedDifferences | substitute_renewal_analytics.py:1225-1230 | swapping the runs turns a rise into the fall with the same digits |
| Differ.ZeroFilled | substitute_renewal_analytics.py:1351-1356 | `{key: 0 for key in keys}` has exactly those keys, all 0 |
| Differ.ZeroFilledHasAnalysisKeys | substitute_renewal_analytics.py:1351-1384 | the default results have exactly the keys each analysis reports |
| Differ.AgainstZeroFilled | substitute_renewal_analytics.py:1366 | against the zero-filled old results, every count shows as a rise by itself, or `0` |
| Differ.ClassifyChange | substitute_renewal_analytics.py:1256-1261 | a rate change is a rise exactly when positive, a fall exactly when negative and no change exactly when zero, and it carries the difference |
| Differ.CalculatePercentageDifferences | substitute_renewal_analytics.py:1236-1263 | the result holds the one key `spa_completion_rate` |
| Differ.CalculateTeacherPercentageDifferences | substitute_renewal_analytics.py:1265-1292 | the result holds the one key `ste_completion_rate` |
| Differ.CompletionRate | substitute_renewal_analytics.py:1250-1253 | `get(complete, 0) / max(get(eligible, 1), 1) * 100`: no contract of its own; Differ.RateIsPercentage and Differ.ZeroFilledRate state its range and its value for a zero total |
| Differ.RateIsPercentage | substitute_renewal_analytics.py:1250-1253 | a completion rate whose count lies between 0 and its total is between 0 and 100 |
| Differ.SpaRateOfRosterIsPercentage | substitute_renewal_analytics.py:1250-1253 | the paraprofessional completion rate of any roster is between 0 and 100 |
| Differ.SteRateOfRosterIsPercentage | substitute_renewal_analytics.py:1279-1282 | the PRC/PRU completion rate of any roster is between 0 and 100 |
| Differ.SelfRateUnchanged | substitute_renewal_analytics.py:1254-1261 | a run compared with itself shows no change of either rate |
| Differ.SwappedRateChange | substitute_renewal_analytics.py:1254-1261 | for both the paraprofessional and the PRC/PRU rate, swapping the runs turns a rise into a fall, and back, with the difference negated |
| Differ.ZeroFilledRate | substitute_renewal_analytics.py:1250-1253 | the zero-filled results have a rate of 0, because a total of 0 divides by 1 |

## Left out

- Reading the CSV files (`load_csv_data`), the charts, the HTML report, the console output and the dates: I/O and presentation. The model starts from rows of cells.
- Missing columns: every `row.get(col, '')` and `df.get(col, '')` is modelled with the column present. A roster row has one field per column the analysis reads, and the unused columns are dropped.
- Unicode: `upper()` is modelled on ASCII letters only. `strip()` uses Python's whitespace set.
- Numbers.ParseDecimal: only `[sign] digits [. digits]` is read. A finite exponent form (`1e3`), underscores or non-ASCII digits, which `float()` accepts, read as unparsable, so the model gives 0 where the source gives the number. On an infinite value (`inf`, or an exponent past the float range such as `1e400`), `int()` raises `OverflowError`, which `safe_int_conversion` does not catch, so the source stops while the model gives 0. Values beyond 2^53 and fractions longer than a double holds are read exactly, not rounded to the nearest double (see Numbers.SafeIntConversion below).
- Numbers.SafeIntConversion: the decimal text is truncated exactly, whereas `int(float(value))` first rounds it to the nearest double. A text just below a whole number with more digits than a double holds, such as `19.99999999999999999`, gives 19 in the model where the source gives 20. The same holds for negative texts.
- Numbers.SafeIntDropsFraction: promises the signed whole part of the exact decimal written. The source truncates the rounded double instead, so the two differ for a long fraction that rounds up to the next whole number.
- Numbers.SafeIntOfDecimalText: promises the exact decimal truncated toward zero. The source truncates the rounded double instead, with the same difference for long fractions.
- Differ.CalculatePercentageDifferences: the rates are exact rationals, not IEEE doubles, and the `.1f` text of the difference is not produced. The result keeps the sign class and the exact difference.
- Differ.CalculateTeacherPercentageDifferences: the rates are exact rationals, not IEEE doubles, and the `.1f` text of the difference is not produced. The result keeps the sign class and the exact difference.
- Differ.CalculateDifferences: the dictionary's key order is not modelled. The loop visits the keys in an order it leaves open.
- Counting.Filter: its own contract states only the length bound. Membership (Counting.FilterMembership), concatenation and order (Counting.FilterSnoc, Counting.FilterAppend, Counting.FilterFilter) and counts are proved in the lemmas beside it.
- Teachers.PrcPruViaConcat: `pd.concat` is modelled through the counts it yields. The order of the concatenated rows is kept, but its renumbered index is not.
- `format_number` on non-integers and `format_percentage`: the analysis passes only integers to the former, and the latter only formats text.
- `main`: beyond the zero-filled default results, the orchestration (file checks, chart and report calls) is I/O.
