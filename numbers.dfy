/** The two numeric conversions of the analysis: reading the days-worked
    cell as an integer (safe_int_conversion, int(float(value)) with every
    failure read as 0) and printing an integer with thousands separators
    (the integer branch of format_number, Python's f"{n:,}"). */
module Numbers {
  import opened Cells

  datatype Option<T> = None | Some(value: T)

  predicate IsDigit(c: char) {
    '0' <= c <= '9'
  }

  predicate AllDigits(s: string) {
    forall i :: 0 <= i < |s| ==> IsDigit(s[i])
  }

  function DigitValue(c: char): nat
    requires IsDigit(c)
  {
    c as int - '0' as int
  }

  function DigitChar(d: nat): (c: char)
    requires d < 10
    ensures IsDigit(c) && DigitValue(c) == d
  {
    ('0' as int + d) as char
  }

  function Pow10(k: nat): (p: nat)
    ensures p >= 1
  {
    if k == 0 then 1 else 10 * Pow10(k - 1)
  }

  /** The value of a decimal digit string, most significant digit first;
      k digits never reach 10^k. */
  function DigitsValue(s: string): (n: nat)
    requires AllDigits(s)
    ensures n < Pow10(|s|)
  {
    if s == [] then 0
    else
      var prefix := DigitsValue(s[..|s| - 1]);
      assert prefix + 1 <= Pow10(|s| - 1);
      prefix * 10 + DigitValue(s[|s| - 1])
  }

  lemma AllDigitsAppend(a: string, b: string)
    requires AllDigits(a) && AllDigits(b)
    ensures AllDigits(a + b)
  {
    forall i | 0 <= i < |a + b| ensures IsDigit((a + b)[i]) {
      if i >= |a| { assert (a + b)[i] == b[i - |a|]; }
    }
  }

  lemma {:induction false} DigitsValueAppend(a: string, b: string)
    requires AllDigits(a) && AllDigits(b)
    ensures AllDigits(a + b)
    ensures DigitsValue(a + b) == DigitsValue(a) * Pow10(|b|) + DigitsValue(b)
    decreases |b|
  {
    AllDigitsAppend(a, b);
    if b == [] {
      assert a + b == a;
    } else {
      var b' := b[..|b| - 1];
      var last := b[|b| - 1];
      assert (a + b)[..|a + b| - 1] == a + b';
      assert (a + b)[|a + b| - 1] == last;
      DigitsValueAppend(a, b');
      var x, p, y, d := DigitsValue(a), Pow10(|b'|), DigitsValue(b'), DigitValue(last);
      assert DigitsValue(a + b) == DigitsValue(a + b') * 10 + d;
      assert DigitsValue(b) == y * 10 + d;
      assert Pow10(|b|) == p * 10;
      MulStep(x, p, y);
    }
  }

  lemma MulStep(x: int, p: int, y: int)
    ensures (x * p + y) * 10 == x * (p * 10) + y * 10
  {
  }

  // ---------------------------------------------------------------------
  // safe_int_conversion

  /** A number in the plain decimal notation that Python's float() accepts:
      an optional sign, the digits before the point and the digits after
      it (either part may be empty, not both). */
  datatype Decimal = Decimal(negative: bool, whole: string, fraction: string) {
    predicate Valid() {
      AllDigits(whole) && AllDigits(fraction) && |whole| + |fraction| > 0
    }
  }

  /** Index of the first '.' in `s`, or |s| when there is none. */
  function PointIndex(s: string): (k: nat)
    ensures k <= |s|
    ensures forall i :: 0 <= i < k ==> s[i] != '.'
    ensures k < |s| ==> s[k] == '.'
  {
    if s == [] then 0
    else if s[0] == '.' then 0
    else 1 + PointIndex(s[1..])
  }

  /** The sign of a stripped text and the text after it. */
  function SplitSign(t: string): (bool, string) {
    if |t| > 0 && (t[0] == '-' || t[0] == '+') then (t[0] == '-', t[1..]) else (false, t)
  }

  /** Reads an unsigned body: digits, then optionally a point and digits. */
  function ParseUnsigned(negative: bool, body: string): (r: Option<Decimal>)
    ensures r.Some? ==> r.value.Valid()
  {
    var k := PointIndex(body);
    var d := Decimal(negative, body[..k], if k < |body| then body[k + 1..] else "");
    if d.Valid() then Some(d) else None
  }

  /** Reads a stripped text in the plain decimal notation. */
  function ParseDecimal(t: string): (r: Option<Decimal>)
    ensures r.Some? ==> r.value.Valid()
  {
    var (negative, body) := SplitSign(t);
    ParseUnsigned(negative, body)
  }

  /** The text of a decimal: sign, digits, and the point only when there
      are fraction digits. */
  function DecimalText(d: Decimal): string {
    (if d.negative then "-" else "")
    + d.whole
    + (if d.fraction == [] then "" else "." + d.fraction)
  }

  /** Reading back the text of a decimal gives the decimal. */
  lemma DecimalTextRoundTrip(d: Decimal)
    requires d.Valid()
    ensures ParseDecimal(DecimalText(d)) == Some(d)
  {
    var rest := if d.fraction == [] then "" else "." + d.fraction;
    var body := d.whole + rest;
    assert DecimalText(d) == (if d.negative then "-" else "") + body;
    PointIndexOfDigits(d.whole, rest);
    assert body[..|d.whole|] == d.whole;
    assert ParseUnsigned(d.negative, body) == Some(d) by {
      if d.fraction != [] {
        assert body[|d.whole| + 1..] == d.fraction;
      }
    }
    assert SplitSign(DecimalText(d)) == (d.negative, body) by {
      var t := DecimalText(d);
      if d.negative {
        assert t == "-" + body;
        assert t[0] == '-' && t[1..] == body;
      } else {
        assert t == body;
        if d.whole != [] { assert body[0] == d.whole[0]; } else { assert body[0] == '.'; }
      }
    }
  }

  lemma {:induction false} PointIndexOfDigits(w: string, rest: string)
    requires AllDigits(w)
    requires rest == [] || rest[0] == '.'
    ensures PointIndex(w + rest) == |w|
    decreases |w|
  {
    if w == [] {
      assert w + rest == rest;
    } else {
      assert (w + rest)[0] == w[0];
      assert (w + rest)[1..] == w[1..] + rest;
      PointIndexOfDigits(w[1..], rest);
    }
  }

  /** The exact value of a decimal. */
  function DecimalValue(d: Decimal): real
    requires d.Valid()
  {
    var magnitude := DigitsValue(d.whole) as real
      + DigitsValue(d.fraction) as real / Pow10(|d.fraction|) as real;
    if d.negative then -magnitude else magnitude
  }

  /** Python's int() on a float: the integer nearest to x in the direction
      of zero. */
  function TruncateTowardZero(x: real): (n: int)
    ensures 0.0 <= x ==> n as real <= x < n as real + 1.0
    ensures x < 0.0 ==> n as real - 1.0 < x <= n as real
  {
    if x >= 0.0 then x.Floor else -((-x).Floor)
  }

  /** safe_int_conversion: a missing cell and a text that float() rejects
      give 0; any other text gives its value truncated toward zero. */
  function SafeIntConversion(v: Cell): int {
    match v
    case Missing => 0
    case Text(s) =>
      match ParseDecimal(Trim(s))
      case None => 0
      case Some(d) => TruncateTowardZero(DecimalValue(d))
  }

  /** Truncation toward zero of a decimal drops its fraction digits and
      keeps its sign: "19.9" reads as 19 and "-3.5" as -3. */
  lemma SafeIntDropsFraction(s: string)
    requires ParseDecimal(Trim(s)).Some?
    ensures var d := ParseDecimal(Trim(s)).value;
      SafeIntConversion(Text(s))
        == if d.negative then -(DigitsValue(d.whole) as int) else DigitsValue(d.whole)
  {
    var d := ParseDecimal(Trim(s)).value;
    assert SafeIntConversion(Text(s)) == TruncateTowardZero(DecimalValue(d));
    TruncateDecimal(d);
  }

  lemma TruncateDecimal(d: Decimal)
    requires d.Valid()
    ensures TruncateTowardZero(DecimalValue(d))
      == if d.negative then -(DigitsValue(d.whole) as int) else DigitsValue(d.whole)
  {
    var f := DigitsValue(d.fraction) as real / Pow10(|d.fraction|) as real;
    FractionBelowOne(DigitsValue(d.fraction), Pow10(|d.fraction|));
    TruncateWholePlusFraction(DigitsValue(d.whole), f);
  }

  lemma TruncateWholePlusFraction(w: nat, f: real)
    requires 0.0 <= f < 1.0
    ensures TruncateTowardZero(w as real + f) == w
    ensures TruncateTowardZero(-(w as real + f)) == -(w as int)
  {
    var n := TruncateTowardZero(-(w as real + f));
    if f == 0.0 && w == 0 {
      assert n == 0;
    }
  }

  lemma FractionBelowOne(num: nat, den: nat)
    requires num < den
    ensures 0.0 <= num as real / den as real < 1.0
  {
  }

  /** A missing value and an unreadable text both count as 0 days. */
  lemma SafeIntDefaultsToZero(v: Cell)
    requires v.Missing? || ParseDecimal(Trim(v.s)).None?
    ensures SafeIntConversion(v) == 0
  {
  }

  /** An empty cell text and the text "nan" both read as 0 days. */
  lemma SafeIntRejectsEmptyAndNan()
    ensures SafeIntConversion(Text("")) == 0
    ensures SafeIntConversion(Text("nan")) == 0
  {
    TrimOfTrimmed("nan");
    assert PointIndex("nan") == 3;
    assert !AllDigits("nan") by { assert !IsDigit("nan"[0]); }
    assert "nan"[..3] == "nan";
  }

  /** The text of a decimal reads, through safe_int_conversion, as its
      whole part with its sign. */
  lemma SafeIntOfDecimalText(d: Decimal)
    requires d.Valid()
    ensures SafeIntConversion(Text(DecimalText(d)))
      == if d.negative then -(DigitsValue(d.whole) as int) else DigitsValue(d.whole)
  {
    var t := DecimalText(d);
    var rest := if d.fraction == [] then "" else "." + d.fraction;
    assert t == (if d.negative then "-" else "") + d.whole + rest;
    assert !IsSpace(t[0]) by {
      if !d.negative && d.whole != [] { assert t[0] == d.whole[0]; }
    }
    assert !IsSpace(t[|t| - 1]) by {
      if d.fraction != [] {
        assert t[|t| - 1] == d.fraction[|d.fraction| - 1];
      } else {
        assert t[|t| - 1] == d.whole[|d.whole| - 1];
      }
    }
    TrimOfTrimmed(t);
    DecimalTextRoundTrip(d);
    TruncateDecimal(d);
  }

  /** The float rendering "19.0" of a days count reads as 19. */
  lemma SafeIntReadsFloatRendering()
    ensures SafeIntConversion(Text("19.0")) == 19
  {
    var d := Decimal(false, "19", "0");
    assert d.Valid() && DecimalText(d) == "19.0";
    SafeIntOfDecimalText(d);
    assert "19"[..1] == "1";
  }

  /** "-3.5" reads as -3: toward zero, not down to -4. */
  lemma SafeIntTruncatesTowardZero()
    ensures SafeIntConversion(Text("-3.5")) == -3
  {
    var d := Decimal(true, "3", "5");
    assert d.Valid() && DecimalText(d) == "-3.5";
    SafeIntOfDecimalText(d);
  }

  /** Whitespace around a days text is ignored, as float() ignores it. */
  lemma SafeIntIgnoresPadding(pre: string, s: string, post: string)
    requires IsBlank(pre) && IsBlank(post)
    ensures SafeIntConversion(Text(pre + s + post)) == SafeIntConversion(Text(s))
  {
    PaddedTrim(pre, s, post);
  }

  // ---------------------------------------------------------------------
  // format_number (integer branch): f"{n:,}"

  /** The decimal digits of n, without leading zeros. */
  function Digits(n: nat): (s: string)
    ensures |s| >= 1 && AllDigits(s)
    ensures s[0] == '0' <==> n == 0
    ensures n < 10 ==> |s| == 1
    ensures 10 <= n < 100 ==> |s| == 2
    ensures 100 <= n < 1000 ==> |s| == 3
  {
    if n < 10 then [DigitChar(n)] else Digits(n / 10) + [DigitChar(n % 10)]
  }

  lemma {:induction false} DigitsRoundTrip(n: nat)
    ensures DigitsValue(Digits(n)) == n
  {
    if n >= 10 {
      DigitsRoundTrip(n / 10);
      assert Digits(n)[..|Digits(n)| - 1] == Digits(n / 10);
    }
  }

  /** The three digits of m < 1000, zero-padded. */
  function ThreeDigits(m: nat): (s: string)
    requires m < 1000
    ensures |s| == 3 && AllDigits(s) && DigitsValue(s) == m
  {
    var s := [DigitChar(m / 100), DigitChar(m / 10 % 10), DigitChar(m % 10)];
    assert s[..2][..1] == s[..1] && s[..1][..0] == [];
    assert DigitsValue(s[..1]) == m / 100;
    assert DigitsValue(s[..2]) == m / 100 * 10 + m / 10 % 10;
    s
  }

  /** Digits grouped by commas in threes from the right: the first
      character is a digit, a comma stands exactly at the positions 4, 8,
      12, ... from the end, and every other character is a digit. */
  predicate CommaGrouped(s: string) {
    |s| >= 1 && IsDigit(s[0])
    && (forall i :: 0 <= i < |s| ==> (s[i] == ',' <==> (|s| - i) % 4 == 0))
    && (forall i :: 0 <= i < |s| && s[i] != ',' ==> IsDigit(s[i]))
  }

  /** n in decimal with a comma between each group of three digits. */
  function Grouped(n: nat): (s: string)
    ensures CommaGrouped(s)
    ensures s[0] == '0' <==> n == 0
  {
    if n < 1000 then
      DigitsAreGrouped(Digits(n));
      Digits(n)
    else
      var head := Grouped(n / 1000);
      GroupedExtend(head, ThreeDigits(n % 1000));
      head + "," + ThreeDigits(n % 1000)
  }

  lemma DigitsAreGrouped(s: string)
    requires 1 <= |s| <= 3 && AllDigits(s)
    ensures CommaGrouped(s)
  {
  }

  /** Appending a comma and three digits to a grouped text keeps it
      grouped. */
  lemma GroupedExtend(head: string, t: string)
    requires CommaGrouped(head) && |t| == 3 && AllDigits(t)
    ensures CommaGrouped(head + "," + t)
  {
    var s := head + "," + t;
    assert forall i :: 0 <= i < |head| ==> s[i] == head[i] && (|s| - i) % 4 == (|head| - i) % 4;
    assert forall i :: |head| < i < |s| ==> s[i] == t[i - |head| - 1];
  }

  /** format_number on an integer: f"{n:,}", with a leading '-' for a
      negative n. */
  function FormatNumber(n: int): string {
    if n < 0 then "-" + Grouped(-n) else Grouped(n)
  }

  /** The text with its commas removed (Python's s.replace(",", "")). */
  function WithoutCommas(s: string): string {
    if s == [] then []
    else WithoutCommas(s[..|s| - 1]) + (if s[|s| - 1] == ',' then [] else [s[|s| - 1]])
  }

  lemma {:induction false} WithoutCommasAppend(a: string, b: string)
    ensures WithoutCommas(a + b) == WithoutCommas(a) + WithoutCommas(b)
    decreases |b|
  {
    if b == [] {
      assert a + b == a;
    } else {
      assert (a + b)[..|a + b| - 1] == a + b[..|b| - 1];
      WithoutCommasAppend(a, b[..|b| - 1]);
    }
  }

  lemma {:induction false} WithoutCommasOfDigits(s: string)
    requires AllDigits(s)
    ensures WithoutCommas(s) == s
    decreases |s|
  {
    if s != [] {
      WithoutCommasOfDigits(s[..|s| - 1]);
    }
  }

  /** Python's int(s.replace(",", "")) on a sign and digit text; None where
      int() would raise. */
  function ParseFormatted(s: string): Option<int> {
    var negative := |s| > 0 && s[0] == '-';
    var body := WithoutCommas(if |s| > 0 && (s[0] == '-' || s[0] == '+') then s[1..] else s);
    if body != [] && AllDigits(body) then
      var magnitude: int := DigitsValue(body);
      Some(if negative then -magnitude else magnitude)
    else None
  }

  /** Dropping the commas of the grouped form leaves digits of value n. */
  lemma {:induction false} GroupedRoundTrip(n: nat)
    ensures AllDigits(WithoutCommas(Grouped(n)))
    ensures WithoutCommas(Grouped(n)) != []
    ensures DigitsValue(WithoutCommas(Grouped(n))) == n
  {
    if n < 1000 {
      WithoutCommasOfDigits(Digits(n));
      DigitsRoundTrip(n);
    } else {
      var q, m := n / 1000, n % 1000;
      GroupedRoundTrip(q);
      var head := WithoutCommas(Grouped(q));
      var t := ThreeDigits(m);
      assert Grouped(n) == Grouped(q) + "," + t;
      WithoutCommasJoin(Grouped(q), t);
      ValueOfGroups(head, t, q, m);
    }
  }

  /** The digits of q followed by the three digits of m stand for
      q * 1000 + m. */
  lemma ValueOfGroups(head: string, t: string, q: nat, m: nat)
    requires AllDigits(head) && head != [] && DigitsValue(head) == q
    requires |t| == 3 && AllDigits(t) && DigitsValue(t) == m
    ensures AllDigits(head + t) && head + t != []
    ensures DigitsValue(head + t) == q * 1000 + m
  {
    DigitsValueAppend(head, t);
    assert Pow10(3) == 1000;
  }

  /** Removing the commas of `h,t` where t is made of digits. */
  lemma CommaAlone()
    ensures WithoutCommas(",") == []
  {
    assert ","[..0] == [];
  }

  lemma WithoutCommasJoin(h: string, t: string)
    requires AllDigits(t)
    ensures WithoutCommas(h + "," + t) == WithoutCommas(h) + t
  {
    WithoutCommasAppend(h + ",", t);
    WithoutCommasAppend(h, ",");
    CommaAlone();
    WithoutCommasOfDigits(t);
  }

  /** The printed form of an integer reads back as that integer. */
  lemma FormatNumberRoundTrip(n: int)
    ensures ParseFormatted(FormatNumber(n)) == Some(n)
  {
    var m: nat := if n < 0 then -n else n;
    GroupedRoundTrip(m);
    ParseGroupedText(Grouped(m), m);
    if n < 0 {
      assert FormatNumber(n) == "-" + Grouped(m);
    } else {
      assert FormatNumber(n) == Grouped(m);
    }
  }

  /** A text beginning with a digit whose digits, commas dropped, stand for
      m reads back as m, and with a leading '-' as -m. */
  lemma ParseGroupedText(g: string, m: nat)
    requires g != [] && IsDigit(g[0])
    requires WithoutCommas(g) != [] && AllDigits(WithoutCommas(g)) && DigitsValue(WithoutCommas(g)) == m
    ensures ParseFormatted(g) == Some(m)
    ensures ParseFormatted("-" + g) == Some(-(m as int))
  {
    assert ("-" + g)[0] == '-' && ("-" + g)[1..] == g;
  }

  /** Examples of the printed form. */
  lemma FormatNumberExamples()
    ensures FormatNumber(999) == "999"
    ensures FormatNumber(-1234567) == "-1,234,567"
  {
    DigitsExample();
    GroupedMillions();
  }

  lemma DigitsExample()
    ensures Digits(999) == "999"
  {
    assert Digits(9) == "9";
    assert Digits(99) == "99";
  }

  lemma GroupedThousands()
    ensures Grouped(1234) == "1,234"
  {
    assert Grouped(1) == "1";
    assert ThreeDigits(234) == "234";
  }

  lemma GroupedMillions()
    ensures Grouped(1234567) == "1,234,567"
  {
    GroupedThousands();
    assert ThreeDigits(567) == "567";
    assert Grouped(1234567) == Grouped(1234) + "," + ThreeDigits(567);
  }

  /** The plain digits of n read back, through safe_int_conversion, as n. */
  lemma SafeIntReadsDigits(n: nat)
    ensures SafeIntConversion(Text(Digits(n))) == n
  {
    SafeIntReadsDigitText(Digits(n));
    DigitsRoundTrip(n);
  }

  /** A plain digit text reads as its value. */
  lemma SafeIntReadsDigitText(s: string)
    requires s != [] && AllDigits(s)
    ensures SafeIntConversion(Text(s)) == DigitsValue(s)
  {
    assert !IsSpace(s[0]) && !IsSpace(s[|s| - 1]) by {
      assert IsDigit(s[0]) && IsDigit(s[|s| - 1]);
    }
    TrimOfTrimmed(s);
    assert SplitSign(s) == (false, s) by { assert IsDigit(s[0]); }
    PointIndexOfDigits(s, []);
    assert s + [] == s && s[..|s|] == s;
    assert ParseUnsigned(false, s) == Some(Decimal(false, s, ""));
    TruncateDecimal(Decimal(false, s, ""));
  }
}
