/** Raw spreadsheet cells and the text normalisation every comparison in the
    analysis goes through: pandas' string rendering, Python's str.strip()
    and an upper-casing. */
module Cells {

  /** A cell of an input row: pandas' missing value (NaN) or a text.  A value
      that pandas parsed as a number is represented by the text that Python's
      str() gives it (12.0 is Text("12.0")). */
  datatype Cell = Missing | Text(s: string)

  /** The characters for which Python's str.isspace() holds; str.strip() and
      float() remove exactly these at both ends. */
  predicate IsSpace(c: char) {
    var n := c as int;
    (9 <= n <= 13) || (28 <= n <= 32) || n == 0x85 || n == 0xA0 || n == 0x1680
    || (0x2000 <= n <= 0x200A) || n == 0x2028 || n == 0x2029 || n == 0x202F
    || n == 0x205F || n == 0x3000
  }

  /** All characters of `s` are whitespace (vacuously so for ""). */
  predicate IsBlank(s: string) {
    forall i :: 0 <= i < |s| ==> IsSpace(s[i])
  }

  /** Python's str.lstrip(): the suffix of `s` that starts at its first
      non-whitespace character. */
  function TrimStart(s: string): string {
    if |s| > 0 && IsSpace(s[0]) then TrimStart(s[1..]) else s
  }

  /** lstrip removes whitespace only, and all of it, from the start. */
  lemma {:induction false} TrimStartIsSuffix(s: string)
    ensures var r := TrimStart(s);
      |r| <= |s| && r == s[|s| - |r|..]
      && (forall i :: 0 <= i < |s| - |r| ==> IsSpace(s[i]))
      && (r == [] || !IsSpace(r[0]))
    decreases |s|
  {
    if |s| > 0 && IsSpace(s[0]) {
      TrimStartIsSuffix(s[1..]);
    }
  }

  /** Python's str.rstrip(): the prefix of `s` that ends at its last
      non-whitespace character. */
  function TrimEnd(s: string): string {
    if |s| > 0 && IsSpace(s[|s| - 1]) then TrimEnd(s[..|s| - 1]) else s
  }

  /** rstrip removes whitespace only, and all of it, from the end. */
  lemma {:induction false} TrimEndIsPrefix(s: string)
    ensures var r := TrimEnd(s);
      |r| <= |s| && r == s[..|r|]
      && (forall i :: |r| <= i < |s| ==> IsSpace(s[i]))
      && (r == [] || !IsSpace(r[|r| - 1]))
    decreases |s|
  {
    if |s| > 0 && IsSpace(s[|s| - 1]) {
      TrimEndIsPrefix(s[..|s| - 1]);
    }
  }

  /** Python's str.strip() (pandas' Series.str.strip() behaves alike). */
  function Trim(s: string): string {
    TrimEnd(TrimStart(s))
  }

  /** A stripped text is no longer than the text, is empty exactly when the
      text is blank, and neither starts nor ends with whitespace. */
  lemma TrimProperties(s: string)
    ensures var r := Trim(s);
      |r| <= |s| && (r == [] <==> IsBlank(s))
      && (r == [] || (!IsSpace(r[0]) && !IsSpace(r[|r| - 1])))
  {
    TrimStartIsSuffix(s);
    TrimEndIsPrefix(TrimStart(s));
  }

  /** ASCII upper-casing of one character. */
  function UpperChar(c: char): char {
    if 'a' <= c <= 'z' then (c as int - 32) as char else c
  }

  /** Upper-casing of a text, character by character. */
  function Upper(s: string): string {
    if s == [] then [] else [UpperChar(s[0])] + Upper(s[1..])
  }

  /** Upper-casing maps each character by UpperChar and keeps the length. */
  lemma {:induction false} UpperPointwise(s: string)
    ensures |Upper(s)| == |s|
    ensures forall i :: 0 <= i < |s| ==> Upper(s)[i] == UpperChar(s[i])
    decreases |s|
  {
    if s != [] {
      UpperPointwise(s[1..]);
    }
  }

  /** The text pandas' astype(str) and Python's str() give a cell: a missing
      value renders as "nan". */
  function Raw(c: Cell): string {
    match c
    case Missing => "nan"
    case Text(s) => s
  }

  /** The normal form `str(v).strip().upper()` used for every vocabulary
      comparison. */
  function Norm(c: Cell): string {
    Upper(Trim(Raw(c)))
  }

  /** `sub` occurs in `s` starting at index `i`. */
  predicate OccursAt(s: string, sub: string, i: int) {
    0 <= i <= |s| - |sub| && s[i..i + |sub|] == sub
  }

  /** Python's `sub in s` (pandas' Series.str.contains with a literal). */
  function Contains(s: string, sub: string): (r: bool)
    ensures r <==> exists i :: OccursAt(s, sub, i)
    decreases |s|
  {
    if |s| < |sub| then
      assert forall i :: !OccursAt(s, sub, i);
      false
    else if s[..|sub|] == sub then
      assert OccursAt(s, sub, 0);
      true
    else
      var rest := Contains(s[1..], sub);
      assert forall i :: OccursAt(s[1..], sub, i) <==> OccursAt(s, sub, i + 1) by {
        forall i ensures OccursAt(s[1..], sub, i) <==> OccursAt(s, sub, i + 1) {
          if 0 <= i <= |s| - 1 - |sub| {
            assert s[1..][i..i + |sub|] == s[i + 1..i + 1 + |sub|];
          }
        }
      }
      assert !OccursAt(s, sub, 0);
      assert (exists i :: OccursAt(s, sub, i)) ==> exists i :: OccursAt(s[1..], sub, i) by {
        if exists i :: OccursAt(s, sub, i) {
          var i :| OccursAt(s, sub, i);
          assert OccursAt(s[1..], sub, i - 1);
        }
      }
      rest
  }

  /** A missing cell normalises to "NAN", the text of str(float('nan')). */
  lemma MissingNormalisesToNan()
    ensures Norm(Missing) == "NAN"
  {
    assert Trim("nan") == "nan";
  }

  /** A text made of whitespace only normalises to the empty text. */
  lemma BlankNormalisesToEmpty(s: string)
    requires IsBlank(s)
    ensures Norm(Text(s)) == ""
  {
    TrimProperties(s);
  }

  /** Removing whitespace from a text whose ends are not whitespace changes
      nothing. */
  lemma {:induction false} TrimOfTrimmed(s: string)
    requires s == [] || (!IsSpace(s[0]) && !IsSpace(s[|s| - 1]))
    ensures Trim(s) == s
  {
    assert TrimStart(s) == s;
    assert TrimEnd(s) == s;
  }

  /** Upper-casing never turns a character into whitespace nor whitespace
      into something else. */
  lemma UpperCharKeepsSpace(c: char)
    ensures IsSpace(UpperChar(c)) == IsSpace(c)
  {
  }

  /** Normalisation is idempotent: normalising the normal form of a cell
      gives it back.  So the paraprofessional analysis, which normalises the
      Status column and then normalises it again inside its resolver, sees
      the same text as a single normalisation would give. */
  lemma NormIdempotent(c: Cell)
    ensures Norm(Text(Norm(c))) == Norm(c)
  {
    var t := Trim(Raw(c));
    var u := Upper(t);
    TrimProperties(Raw(c));
    UpperPointwise(t);
    if u != [] {
      UpperCharKeepsSpace(t[0]);
      UpperCharKeepsSpace(t[|t| - 1]);
    }
    TrimOfTrimmed(u);
    UpperIdempotent(t);
  }

  /** Upper-casing twice is upper-casing once. */
  lemma UpperIdempotent(s: string)
    ensures Upper(Upper(s)) == Upper(s)
  {
    var u := Upper(s);
    UpperPointwise(s);
    UpperPointwise(u);
    assert forall i :: 0 <= i < |u| ==> UpperChar(u[i]) == u[i];
  }

  /** Surrounding whitespace never affects the normal form. */
  lemma {:induction false} NormIgnoresPadding(pre: string, s: string, post: string)
    requires IsBlank(pre) && IsBlank(post)
    ensures Norm(Text(pre + s + post)) == Norm(Text(s))
  {
    PaddedTrim(pre, s, post);
  }

  lemma {:induction false} PaddedTrim(pre: string, s: string, post: string)
    requires IsBlank(pre) && IsBlank(post)
    ensures Trim(pre + s + post) == Trim(s)
  {
    TrimStartPadded(pre, s + post);
    assert pre + s + post == pre + (s + post);
    TrimEndPadded(TrimStart(s), post);
    TrimStartAppend(s, post);
    TrimEndPadded(TrimStart(s), []);
  }

  lemma {:induction false} TrimStartPadded(pre: string, s: string)
    requires IsBlank(pre)
    ensures TrimStart(pre + s) == TrimStart(s)
    decreases |pre|
  {
    if pre != [] {
      assert (pre + s)[0] == pre[0];
      assert (pre + s)[1..] == pre[1..] + s;
      TrimStartPadded(pre[1..], s);
    } else {
      assert pre + s == s;
    }
  }

  lemma {:induction false} TrimEndPadded(s: string, post: string)
    requires IsBlank(post)
    ensures TrimEnd(s + post) == TrimEnd(s)
    decreases |post|
  {
    if post != [] {
      assert (s + post)[..|s + post| - 1] == s + post[..|post| - 1];
      TrimEndPadded(s, post[..|post| - 1]);
    } else {
      assert s + post == s;
    }
  }

  /** Trailing whitespace survives lstrip unless the whole text is blank. */
  lemma {:induction false} TrimStartAppend(s: string, post: string)
    requires IsBlank(post)
    ensures TrimEnd(TrimStart(s + post)) == TrimEnd(TrimStart(s))
    decreases |s|
  {
    if s == [] {
      assert s + post == post;
      TrimStartPadded(post, []);
      assert post + [] == post;
      assert TrimStart([]) == [];
    } else if IsSpace(s[0]) {
      assert (s + post)[1..] == s[1..] + post;
      TrimStartAppend(s[1..], post);
    } else {
      assert TrimStart(s + post) == s + post;
      TrimEndPadded(s, post);
    }
  }
}
