/** The value classifiers: the Status resolver shared by both analyses, the
    paraprofessional requirement vocabularies and the teacher requirement
    vocabularies that the teacher loops spell out inline. */
module Classify {
  import opened Cells

  /** The computed status of a row. */
  datatype Completion = Complete | Outstanding

  /** get_completion_status and get_teacher_completion_status: "COMPL" and
      "COMPLETE" (after strip and upper-casing) are Complete; "OUT",
      "OUTSTANDING" and every other text, a blank and a missing value are
      Outstanding. */
  function CompletionStatus(status: Cell): (r: Completion)
    ensures r == Complete <==> Norm(status) == "COMPL" || Norm(status) == "COMPLETE"
  {
    var s := Norm(status);
    if s == "COMPL" || s == "COMPLETE" then Complete
    else if s == "OUT" || s == "OUTSTANDING" then Outstanding
    else Outstanding
  }

  /** A missing Status and a blank Status both resolve to Outstanding. */
  lemma StatusDefaultsToOutstanding(s: string)
    requires IsBlank(s)
    ensures CompletionStatus(Text(s)) == Outstanding
    ensures CompletionStatus(Missing) == Outstanding
  {
    BlankNormalisesToEmpty(s);
    MissingNormalisesToNan();
  }

  /** The resolver ignores case and surrounding whitespace. */
  lemma StatusIgnoresCaseAndPadding(pre: string, s: string, post: string)
    requires IsBlank(pre) && IsBlank(post)
    ensures CompletionStatus(Text(pre + s + post)) == CompletionStatus(Text(s))
    ensures CompletionStatus(Text(Upper(s))) == CompletionStatus(Text(s))
  {
    NormIgnoresPadding(pre, s, post);
    NormOfUpper(s);
  }

  /** Upper-casing a text before normalising it changes nothing. */
  lemma NormOfUpper(s: string)
    ensures Norm(Text(Upper(s))) == Norm(Text(s))
  {
    var t := Trim(s);
    UpperTrimCommute(s);
    UpperIdempotent(t);
  }

  lemma {:induction false} UpperTrimCommute(s: string)
    ensures Trim(Upper(s)) == Upper(Trim(s))
  {
    UpperTrimStart(s);
    UpperTrimEnd(TrimStart(s));
  }

  lemma {:induction false} UpperTrimStart(s: string)
    ensures TrimStart(Upper(s)) == Upper(TrimStart(s))
    decreases |s|
  {
    if s != [] {
      UpperCharKeepsSpace(s[0]);
      assert Upper(s)[1..] == Upper(s[1..]);
      UpperTrimStart(s[1..]);
    }
  }

  lemma {:induction false} UpperTrimEnd(s: string)
    ensures TrimEnd(Upper(s)) == Upper(TrimEnd(s))
    decreases |s|
  {
    if s != [] {
      UpperCharKeepsSpace(s[|s| - 1]);
      UpperPointwise(s);
      UpperPointwise(s[..|s| - 1]);
      assert Upper(s)[..|s| - 1] == Upper(s[..|s| - 1]);
      UpperTrimEnd(s[..|s| - 1]);
    }
  }

  /** `n` is one of the texts of `list` (Python's `n in list`). */
  predicate Among(n: string, list: seq<string>)
    decreases |list|
  {
    list != [] && (n == list[0] || Among(n, list[1..]))
  }

  lemma {:induction false} AmongIsIn(n: string, list: seq<string>)
    ensures Among(n, list) <==> n in list
    decreases |list|
  {
    if list != [] {
      AmongIsIn(n, list[1..]);
      assert list == [list[0]] + list[1..];
    }
  }

  // ---------------------------------------------------------------------
  // Paraprofessional vocabularies (is_requirement_complete and
  // is_requirement_outstanding)

  const CompletedIndicators: seq<string> :=
    ["COMPLETE", "PASSED", "YES", "PAID", "PASSING", "PASS", "COMPL", "Y", "EXEMPT"]

  const OutstandingIndicators: seq<string> :=
    ["NOT COMPLETE", "NOT REQUIRED", "REGISTERED", "NO", "OUTSTANDING", "LETTER SENT", "OUT", "N"]

  /** is_requirement_complete: a present value whose normal form is in the
      completion vocabulary. */
  predicate IsRequirementComplete(v: Cell) {
    v.Text? && Among(Norm(v), CompletedIndicators)
  }

  /** is_requirement_outstanding: a missing value, a blank, or a value whose
      normal form is in the outstanding vocabulary (which lists "NOT
      REQUIRED" too). */
  predicate IsRequirementOutstanding(v: Cell) {
    v.Missing? || Among(Norm(v), OutstandingIndicators) || Norm(v) == ""
  }

  /** No value is both complete and outstanding. */
  lemma VocabulariesDisjoint(v: Cell)
    ensures !(IsRequirementComplete(v) && IsRequirementOutstanding(v))
  {
    AmongIsIn(Norm(v), CompletedIndicators);
    AmongIsIn(Norm(v), OutstandingIndicators);
    IndicatorsDisjoint(Norm(v));
  }

  lemma IndicatorsDisjoint(n: string)
    ensures !(n in CompletedIndicators && (n in OutstandingIndicators || n == ""))
  {
    if n in CompletedIndicators {
      forall j | 0 <= j < |OutstandingIndicators| ensures OutstandingIndicators[j] != n {
        assert |n| > 0;
      }
    }
  }

  /** A missing value is never complete and always outstanding; a blank text
      is outstanding too. */
  lemma MissingAndBlankAreOutstanding(s: string)
    requires IsBlank(s)
    ensures !IsRequirementComplete(Missing) && IsRequirementOutstanding(Missing)
    ensures !IsRequirementComplete(Text(s)) && IsRequirementOutstanding(Text(s))
  {
    BlankNormalisesToEmpty(s);
    AmongIsIn(Norm(Text(s)), CompletedIndicators);
    IndicatorsDisjoint(Norm(Text(s)));
  }

  /** "NOT REQUIRED" satisfies the generic outstanding check; the bucket
      loops therefore test for it before consulting that check. */
  lemma NotRequiredIsListedOutstanding(v: Cell)
    requires Norm(v) == "NOT REQUIRED"
    ensures IsRequirementOutstanding(v) && !IsRequirementComplete(v)
  {
    AmongIsIn(Norm(v), CompletedIndicators);
    AmongIsIn(Norm(v), OutstandingIndicators);
    IndicatorsDisjoint(Norm(v));
  }

  // ---------------------------------------------------------------------
  // Teacher vocabularies, written inline in the teacher loops

  /** Normal forms the teacher loops do not count as required: "NOT
      REQUIRED", a missing value (whose normal form is "NAN") and a blank. */
  const TeacherNotCounted: seq<string> := ["NOT REQUIRED", "NAN", ""]

  /** Normal forms the teacher loops count as done. */
  const TeacherPassed: seq<string> := ["COMPLETE", "PASSED", "EXEMPT", "Y"]

  predicate IsTeacherRequired(v: Cell) {
    !Among(Norm(v), TeacherNotCounted)
  }

  predicate IsTeacherPassed(v: Cell) {
    Among(Norm(v), TeacherPassed)
  }

  /** The incomplete test of the other-requirements and days-and-others
      loops: the normal form is in neither list. */
  predicate IsTeacherIncomplete(v: Cell) {
    !Among(Norm(v), TeacherPassed + TeacherNotCounted)
  }

  /** A teacher requirement is incomplete exactly when it is required and
      not passed, and every passed value is required. */
  lemma TeacherIncompleteIsRequiredNotPassed(v: Cell)
    ensures IsTeacherIncomplete(v) <==> IsTeacherRequired(v) && !IsTeacherPassed(v)
    ensures IsTeacherPassed(v) ==> IsTeacherRequired(v)
  {
    AmongIsIn(Norm(v), TeacherNotCounted);
    AmongIsIn(Norm(v), TeacherPassed);
    AmongIsIn(Norm(v), TeacherPassed + TeacherNotCounted);
    TeacherListsDisjoint(Norm(v));
  }

  lemma TeacherListsDisjoint(n: string)
    ensures n !in TeacherPassed + TeacherNotCounted <==> n !in TeacherNotCounted && n !in TeacherPassed
    ensures n in TeacherPassed ==> n !in TeacherNotCounted
  {
  }

  /** A missing value and a blank are never required in the teacher loops,
      so they are neither passed nor incomplete. */
  lemma TeacherIgnoresMissingAndBlank(s: string)
    requires IsBlank(s)
    ensures !IsTeacherRequired(Missing) && !IsTeacherIncomplete(Missing)
    ensures !IsTeacherRequired(Text(s)) && !IsTeacherIncomplete(Text(s))
  {
    MissingNormalisesToNan();
    BlankNormalisesToEmpty(s);
    AmongIsIn("NAN", TeacherNotCounted);
    AmongIsIn("", TeacherNotCounted);
    AmongIsIn("NAN", TeacherPassed + TeacherNotCounted);
    AmongIsIn("", TeacherPassed + TeacherNotCounted);
  }
}
