/** The add-marks page: its validation schema, its default values, the
    `parseInt` that turns the selected enrollment back into an id, and its
    submit handler. */
module MarksForm {
  import opened Schema
  import opened Actions
  import opened Forms

  const EnrollmentRequired := "Please select a student and course"
  const ExamTypeTooShort := "Exam type must be at least 2 characters."
  const ScoreTooSmall := "Score must be at least 0."
  const MaxScoreTooSmall := "Maximum score must be at least 1."
  const MarksPath := "/marks"

  // ---------------------------------------------------------------------
  // parseInt(string) with no radix
  // ---------------------------------------------------------------------

  /** The white-space and line-terminator characters `parseInt` skips. */
  predicate IsJsSpace(c: char) {
    c in {' ', '\t', '\n', '\r', '\U{0B}', '\U{0C}', '\U{A0}', '\U{FEFF}', '\U{2028}', '\U{2029}'}
  }

  /** `s` without its leading white space. */
  function TrimStart(s: string): (r: string)
    ensures |r| <= |s| && r == s[|s| - |r|..]
    ensures r == [] || !IsJsSpace(r[0])
    ensures forall i | 0 <= i < |s| - |r| :: IsJsSpace(s[i])
  {
    if s != [] && IsJsSpace(s[0]) then TrimStart(s[1..]) else s
  }

  /** The value of a digit character in bases up to 36. */
  function DigitValue(c: char): (d: Option<nat>)
    ensures d.Some? ==> d.value < 36
    ensures '0' <= c <= '9' <==> d.Some? && d.value < 10
  {
    if '0' <= c <= '9' then Some(c as int - '0' as int)
    else if 'a' <= c <= 'z' then Some(c as int - 'a' as int + 10)
    else if 'A' <= c <= 'Z' then Some(c as int - 'A' as int + 10)
    else None
  }

  predicate IsDigitIn(c: char, radix: nat) {
    DigitValue(c).Some? && DigitValue(c).value < radix
  }

  /** The length of the longest prefix of `s` made of digits in `radix`. */
  function DigitRun(s: string, radix: nat): (n: nat)
    ensures n <= |s|
    ensures forall i | 0 <= i < n :: IsDigitIn(s[i], radix)
    ensures n < |s| ==> !IsDigitIn(s[n], radix)
  {
    if s != [] && IsDigitIn(s[0], radix) then 1 + DigitRun(s[1..], radix) else 0
  }

  /** The number a string of digits denotes in `radix`, most significant first. */
  function ValueOf(ds: string, radix: nat): nat
    requires forall i | 0 <= i < |ds| :: IsDigitIn(ds[i], radix)
  {
    if ds == [] then 0
    else
      var last := ds[|ds| - 1];
      assert IsDigitIn(last, radix);
      ValueOf(ds[..|ds| - 1], radix) * radix + DigitValue(last).value
  }

  /** The longest run of digits at the head of `w`, read in `radix`. */
  function ParseDigits(w: string, radix: nat): (r: Option<nat>)
    ensures r.None? <==> w == [] || !IsDigitIn(w[0], radix)
  {
    var n := DigitRun(w, radix);
    if n == 0 then None else Some(ValueOf(w[..n], radix))
  }

  /** What follows the sign: base 16 after `0x` or `0X`, base 10 otherwise. */
  function ParseUnsigned(u: string): (r: Option<nat>)
  {
    if |u| >= 2 && u[0] == '0' && (u[1] == 'x' || u[1] == 'X') then ParseDigits(u[2..], 16)
    else ParseDigits(u, 10)
  }

  /** `parseInt(s)`: skip leading white space, read an optional sign, read
      base 16 after a `0x` or `0X` prefix and base 10 otherwise, and take the
      longest run of digits; `None` stands for `NaN`, the result when that
      run is empty. */
  function ParseInt(s: string): (r: Option<int>)
    ensures TrimStart(s) == [] ==> r.None?
  {
    ParseTrimmed(TrimStart(s))
  }

  /** `parseInt` once the leading white space is gone. */
  function ParseTrimmed(t: string): (r: Option<int>)
    ensures t == [] ==> r.None?
  {
    if t != [] && t[0] == '-' then
      var m := ParseUnsigned(t[1..]);
      if m.None? then None else Some(-(m.value as int))
    else if t != [] && t[0] == '+' then
      var m := ParseUnsigned(t[1..]);
      if m.None? then None else Some(m.value)
    else
      var m := ParseUnsigned(t);
      if m.None? then None else Some(m.value)
  }

  /** `n.toString()` for a natural number. */
  function NatToString(n: nat): (s: string)
    ensures |s| >= 1
    ensures forall i | 0 <= i < |s| :: '0' <= s[i] <= '9'
    ensures s[0] == '0' ==> s == "0"
  {
    if n < 10 then [('0' as int + n) as char]
    else NatToString(n / 10) + [('0' as int + n % 10) as char]
  }

  /** `n.toString()` for any integer. */
  function IntToString(n: int): (s: string)
    ensures n >= 0 ==> s == NatToString(n)
    ensures n < 0 ==> s == "-" + NatToString(-n)
  {
    if n >= 0 then NatToString(n) else "-" + NatToString(-n)
  }

  lemma {:induction false} ValueOfNatToString(n: nat)
    ensures forall i | 0 <= i < |NatToString(n)| :: IsDigitIn(NatToString(n)[i], 10)
    ensures ValueOf(NatToString(n), 10) == n
  {
    var s := NatToString(n);
    if n >= 10 {
      ValueOfNatToString(n / 10);
      assert s[..|s| - 1] == NatToString(n / 10);
    }
  }

  /** A run of digits followed by something that is not a digit. */
  lemma {:induction false} DigitRunOfDigits(s: string, t: string, radix: nat)
    requires forall i | 0 <= i < |s| :: IsDigitIn(s[i], radix)
    requires t == [] || !IsDigitIn(t[0], radix)
    ensures DigitRun(s + t, radix) == |s|
  {
    if s != [] {
      assert (s + t)[1..] == s[1..] + t;
      DigitRunOfDigits(s[1..], t, radix);
    }
  }

  /** The decimal digits of `n`, followed by anything that neither extends
      them nor turns a lone `0` into a `0x` prefix, read back as `n`. */
  lemma ParseUnsignedOfDecimal(n: nat, t: string)
    requires t == [] || !IsDigitIn(t[0], 10)
    requires n == 0 ==> t == [] || (t[0] != 'x' && t[0] != 'X')
    ensures ParseUnsigned(NatToString(n) + t) == Some(n)
  {
    var d := NatToString(n);
    ValueOfNatToString(n);
    DigitRunOfDigits(d, t, 10);
    assert (d + t)[..|d|] == d;
    assert (d + t)[0] == d[0];
    if |d| >= 2 {
      assert (d + t)[1] == d[1];
    }
  }

  /** Nothing is trimmed from a string that starts with a non-space. */
  lemma TrimStartOfNonSpace(s: string)
    requires s != [] && !IsJsSpace(s[0])
    ensures TrimStart(s) == s
  {
  }

  /** `parseInt` reads back what `toString` writes for every integer, so the
      enrollment ids the page puts into its select options come back intact. */
  lemma ParseIntToString(n: int)
    ensures ParseInt(IntToString(n)) == Some(n)
  {
    var m: nat := if n >= 0 then n else -n;
    var d := NatToString(m);
    ParseUnsignedOfDecimal(m, []);
    assert d + [] == d;
    assert '0' <= d[0] <= '9';
    if n < 0 {
      var s := "-" + d;
      TrimStartOfNonSpace(s);
      assert s[1..] == d;
      assert ParseUnsigned(s[1..]) == Some(m);
    } else {
      TrimStartOfNonSpace(d);
      assert d[0] != '-' && d[0] != '+';
    }
  }

  /** `parseInt` stops at the first character that is not a digit, except
      that a lone `0` followed by `x` or `X` opens a hexadecimal number. */
  lemma ParseIntIgnoresTrailer(n: nat, t: string)
    requires t == [] || !IsDigitIn(t[0], 10)
    requires n == 0 ==> t == [] || (t[0] != 'x' && t[0] != 'X')
    ensures ParseInt(NatToString(n) + t) == Some(n)
  {
    var d := NatToString(n);
    var s := d + t;
    ParseUnsignedOfDecimal(n, t);
    assert s[0] == d[0] && '0' <= d[0] <= '9';
    TrimStartOfNonSpace(s);
    assert s[0] != '-' && s[0] != '+';
  }

  /** `0x` switches to base 16: `parseInt("0x1f")` is 31. */
  lemma ParseIntReadsHex()
    ensures ParseInt("0x1f") == Some(31)
  {
    var w := "1f";
    assert "0x1f"[2..] == w;
    assert DigitRun(w[1..], 16) == 1;
    assert DigitRun(w, 16) == 2;
    assert w[..2] == w && w[..1] == "1";
    assert ValueOf(w, 16) == 31;
    assert ParseUnsigned("0x1f") == Some(31);
    TrimStartOfNonSpace("0x1f");
  }

  /** Leading white space does not change the result. */
  lemma ParseIntSkipsSpace(c: char, s: string)
    requires IsJsSpace(c)
    ensures ParseInt([c] + s) == ParseInt(s)
  {
    assert ([c] + s)[1..] == s;
    assert TrimStart([c] + s) == TrimStart(s);
  }

  lemma ParseIntOfEmptyIsNaN()
    ensures ParseInt("") == None
  {
  }

  // ---------------------------------------------------------------------
  // The form
  // ---------------------------------------------------------------------

  datatype MarksField = EnrollmentId | ExamType | Score | MaxScore | Remarks

  /** The values the form holds after coercion; `enrollmentId` is `None`
      when the field is undefined. */
  datatype MarksFormValues = MarksFormValues(
    enrollmentId: Option<string>, examType: string, score: real, maxScore: real, remarks: Option<string>)

  /** What the schema accepts: any string as the enrollment, an exam type
      of at least 2 characters, a score of at least 0 and a maximum of at
      least 1. Nothing relates the score to the maximum. */
  predicate MarksFormValid(v: MarksFormValues) {
    v.enrollmentId.Some? && Utf16Length(v.examType) >= 2 && v.score >= 0.0 && v.maxScore >= 1.0
  }

  /** The issues the resolver reports, in field order. */
  function MarksFormErrors(v: MarksFormValues): (errs: seq<FieldError<MarksField>>)
    ensures errs == [] <==> MarksFormValid(v)
    ensures FieldError(EnrollmentId, EnrollmentRequired) in errs <==> v.enrollmentId.None?
    ensures FieldError(ExamType, ExamTypeTooShort) in errs <==> Utf16Length(v.examType) < 2
    ensures FieldError(Score, ScoreTooSmall) in errs <==> v.score < 0.0
    ensures FieldError(MaxScore, MaxScoreTooSmall) in errs <==> v.maxScore < 1.0
  {
    (if v.enrollmentId.None? then [FieldError(EnrollmentId, EnrollmentRequired)] else [])
    + MinLength(ExamType, v.examType, 2, ExamTypeTooShort)
    + (if v.score < 0.0 then [FieldError(Score, ScoreTooSmall)] else [])
    + (if v.maxScore < 1.0 then [FieldError(MaxScore, MaxScoreTooSmall)] else [])
  }

  /** The initial values, given the page's `enrollmentId` query parameter. */
  function MarksDefaults(enrollmentIdParam: Option<string>): (v: MarksFormValues)
    ensures v.enrollmentId == Some(OrEmpty(enrollmentIdParam))
    ensures v.examType == "" && v.score == 0.0 && v.maxScore == 100.0 && v.remarks == Some("")
  {
    MarksFormValues(Some(OrEmpty(enrollmentIdParam)), "", 0.0, 100.0, Some(""))
  }

  /** Starting from the defaults, an exam type is all the schema still asks
      for: the enrollment is never undefined, so its required-message is
      never shown. */
  lemma DefaultsNeedOnlyAnExamType(enrollmentIdParam: Option<string>, examType: string)
    ensures MarksFormValid(MarksDefaults(enrollmentIdParam).(examType := examType)) <==> Utf16Length(examType) >= 2
  {
  }

  /** With no query parameter and no selection, the form is accepted with an
      enrollment that `parseInt` turns into `NaN`. */
  lemma EmptySelectionIsAccepted(examType: string)
    requires Utf16Length(examType) >= 2
    ensures var v := MarksDefaults(None).(examType := examType);
            MarksFormValid(v) && ParseInt(v.enrollmentId.value) == None
  {
  }

  /** The schema accepts a score above the maximum. */
  lemma ScoreAboveMaximumIsAccepted()
    ensures MarksFormValid(MarksFormValues(Some("1"), "Midterm", 120.0, 100.0, None))
  {
  }

  /** The object handed to `addMarks` once the enrollment has been parsed. */
  function MarksPayload(v: MarksFormValues, enrollmentId: Id): (p: NewMark)
    ensures p.enrollmentId == enrollmentId && p.examType == v.examType
    ensures p.score == v.score && p.maxScore == v.maxScore && p.remarks == v.remarks
  {
    NewMark(enrollmentId, v.examType, v.score, v.maxScore, v.remarks)
  }

  /** `onSubmit`, called by the form only once the schema accepts `values`.
      An enrollment that does not parse reaches the insert as `NaN`, which
      the integer column refuses, so `addMarks` fails with its generic
      message. On success the page navigates to the marks list and stays in
      its submitting state; on failure it clears the flag. */
  method Submit(page: PageState, store: RecordStore, values: MarksFormValues, now: Timestamp)
    returns (r: Outcome<Mark>)
    requires MarksFormValid(values)
    requires store.Valid()
    modifies page, store
    ensures store.Valid()
    ensures var id := ParseInt(values.enrollmentId.value);
            r.Ok? <==> id.Some? && id.value in old(store.db.enrollments)
    ensures r.Ok? ==> && r.value == Mark(old(store.db.nextMarkId), ParseInt(values.enrollmentId.value).value, values.examType,
                                         values.score, values.maxScore, values.remarks, now, now)
                      && store.db == old(store.db).(marks := old(store.db.marks)[r.value.id := r.value],
                                                    nextMarkId := old(store.db.nextMarkId) + 1)
                      && page.isSubmitting && page.location == Some(MarksPath)
    ensures r.Failed? ==> && r.message == AddMarksFailure && store.db == old(store.db)
                          && !page.isSubmitting && page.location == old(page.location)
  {
    page.isSubmitting := true;
    var id := ParseInt(values.enrollmentId.value);
    if id.None? {
      r := Failed(AddMarksFailure);
    } else {
      r := store.AddMarks(MarksPayload(values, id.value), now);
    }
    if r.Ok? {
      page.location := Some(MarksPath);
    } else {
      page.isSubmitting := false;
    }
  }
}
