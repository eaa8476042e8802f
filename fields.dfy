/** The validated scalar fields of a contact: Phone and Birthday. A Name is
    any string and is not validated, so it has no module of its own. */
module Fields {
  import opened Base
  import opened Calendar

  predicate IsDigit(c: char) {
    '0' <= c <= '9'
  }

  /** `str.isdigit()`: at least one character, and every character a digit. */
  function IsDigitString(s: string): (r: bool)
    ensures r <==> |s| > 0 && forall i :: 0 <= i < |s| ==> IsDigit(s[i])
  {
    |s| > 0 && IsDigit(s[0]) && (|s| == 1 || IsDigitString(s[1..]))
  }

  /** The test `Phone.__init__` applies. */
  predicate IsPhoneText(s: string) {
    |s| == 10 && IsDigitString(s)
  }

  /** `Phone(value)`: the value itself when it is ten digits, ValueError otherwise. */
  function NewPhone(value: string): (r: Result<string>)
    ensures r.Success? <==> |value| == 10 && forall i :: 0 <= i < |value| ==> IsDigit(value[i])
    ensures r.Success? ==> r.value == value
    ensures r.Failure? ==> r.error == InvalidPhone
  {
    if IsPhoneText(value) then Success(value) else Failure(InvalidPhone)
  }

  // ---------------------------------------------------------------------
  // Birthday text

  function DigitValue(c: char): int
    requires IsDigit(c)
  {
    c as int - '0' as int
  }

  function DigitChar(n: int): (c: char)
    requires 0 <= n < 10
    ensures IsDigit(c) && DigitValue(c) == n
  {
    (n + '0' as int) as char
  }

  /** The character class of the regular expression `\w` (letters, digits, underscore). */
  predicate IsWordChar(c: char) {
    IsDigit(c) || ('a' <= c <= 'z') || ('A' <= c <= 'Z') || c == '_'
  }

  /** `\d{2}\.\d{2}\.\d{4}` matches the ten characters starting at `i`. */
  predicate DatePatternAt(s: string, i: int) {
    0 <= i && i + 10 <= |s| &&
    IsDigit(s[i]) && IsDigit(s[i + 1]) && s[i + 2] == '.' &&
    IsDigit(s[i + 3]) && IsDigit(s[i + 4]) && s[i + 5] == '.' &&
    IsDigit(s[i + 6]) && IsDigit(s[i + 7]) && IsDigit(s[i + 8]) && IsDigit(s[i + 9])
  }

  /** `re.search(r'\b\d{2}\.\d{2}\.\d{4}\b', s)` finds a match: the pattern
      occurs somewhere, with no word character directly before or after it. */
  predicate PatternFound(s: string) {
    exists i | 0 <= i <= |s| - 10 :: MatchAt(s, i)
  }

  /** `\b\d{2}\.\d{2}\.\d{4}\b` matches at `i`. */
  predicate MatchAt(s: string, i: int) {
    DatePatternAt(s, i) &&
    (i == 0 || !IsWordChar(s[i - 1])) && (i + 10 == |s| || !IsWordChar(s[i + 10]))
  }

  /** A `%d` field of `strptime`: `3[01]|[12]\d|0[1-9]|[1-9]| [1-9]`. */
  predicate DayField(t: string) {
    (|t| == 1 && '1' <= t[0] <= '9') ||
    (|t| == 2 &&
      ((t[0] == '3' && (t[1] == '0' || t[1] == '1')) ||
       ((t[0] == '1' || t[0] == '2') && IsDigit(t[1])) ||
       (t[0] == '0' && '1' <= t[1] <= '9') ||
       (t[0] == ' ' && '1' <= t[1] <= '9')))
  }

  /** A `%m` field of `strptime`: `1[0-2]|0[1-9]|[1-9]`. */
  predicate MonthField(t: string) {
    (|t| == 1 && '1' <= t[0] <= '9') ||
    (|t| == 2 &&
      ((t[0] == '1' && '0' <= t[1] <= '2') ||
       (t[0] == '0' && '1' <= t[1] <= '9')))
  }

  /** The number a `%d` or `%m` field stands for (a leading blank is ignored). */
  function FieldValue(t: string): int
    requires DayField(t) || MonthField(t)
  {
    if |t| == 1 then DigitValue(t[0])
    else if t[0] == ' ' then DigitValue(t[1])
    else 10 * DigitValue(t[0]) + DigitValue(t[1])
  }

  /** The number written by the four digits starting at `i`. */
  function Number4(s: string, i: int): int
    requires 0 <= i && i + 4 <= |s|
    requires IsDigit(s[i]) && IsDigit(s[i + 1]) && IsDigit(s[i + 2]) && IsDigit(s[i + 3])
  {
    1000 * DigitValue(s[i]) + 100 * DigitValue(s[i + 1]) + 10 * DigitValue(s[i + 2]) + DigitValue(s[i + 3])
  }

  /** `datetime.strptime(s, '%d.%m.%Y').date()`, with None where Python
      raises ValueError: the whole of `s` must be a day field, a dot, a month
      field, a dot and four year digits, and together they must name a real
      date. The dots fix where each field ends. */
  function StrptimeDate(s: string): (r: Option<Date>)
    ensures r.Some? ==> ValidDate(r.value) && 8 <= |s| <= 10 && s[|s| - 5] == '.'
    ensures r.Some? ==>
      IsDigit(s[|s| - 4]) && IsDigit(s[|s| - 3]) && IsDigit(s[|s| - 2]) && IsDigit(s[|s| - 1]) &&
      r.value.year == Number4(s, |s| - 4)
  {
    if |s| < 8 then None
    else
      var dayLen := if s[1] == '.' then 1 else 2;
      var monthLen := if s[dayLen + 2] == '.' then 1 else 2;
      var yearAt := dayLen + monthLen + 2;
      if |s| == yearAt + 4 && DayField(s[..dayLen]) && s[dayLen] == '.' &&
         MonthField(s[dayLen + 1..dayLen + 1 + monthLen]) && s[dayLen + 1 + monthLen] == '.' &&
         IsDigit(s[yearAt]) && IsDigit(s[yearAt + 1]) && IsDigit(s[yearAt + 2]) && IsDigit(s[yearAt + 3])
      then
        var d := Date(Number4(s, yearAt), FieldValue(s[dayLen + 1..dayLen + 1 + monthLen]), FieldValue(s[..dayLen]));
        if ValidDate(d) then Some(d) else None
      else None
  }

  /** `strptime` alone takes one-digit and blank-padded fields, which the
      search refuses: "1.1.2020" is too short for the pattern and " 1.01.2020"
      starts with a blank. */
  lemma StrptimeTakesShortFields(s: string, t: string)
    requires s == "1.1.2020" && t == " 1.01.2020"
    ensures StrptimeDate(s) == Some(Date(2020, 1, 1)) && !PatternFound(s)
    ensures StrptimeDate(t) == Some(Date(2020, 1, 1)) && !PatternFound(t)
  {
    assert s[..1] == "1" && s[2..3] == "1";
    assert t[..2] == " 1" && t[3..5] == "01";
    assert !MatchAt(t, 0);
  }

  /** The search is not anchored: a `DD.MM.YYYY` text is found anywhere in a
      longer text as long as no word character touches it. */
  lemma SearchFindsEmbeddedDate(p: string, t: string, q: string)
    requires IsDateText(t)
    requires p == [] || !IsWordChar(p[|p| - 1])
    requires q == [] || !IsWordChar(q[0])
    ensures MatchAt(p + t + q, |p|) && PatternFound(p + t + q)
  {
    var s := p + t + q;
    assert s[|p|..|p| + 10] == t;
    forall k | 0 <= k < 10 ensures s[|p| + k] == t[k] {
      assert s[|p| + k] == s[|p|..|p| + 10][k];
    }
    if p != [] {
      assert s[|p| - 1] == p[|p| - 1];
    }
    if q != [] {
      assert s[|p| + 10] == q[0];
    }
    assert 0 <= |p| <= |s| - 10 && MatchAt(s, |p|);
  }

  /** The word boundaries refuse a date glued to a letter or to more digits. */
  lemma BoundaryRefusesGluedDate(s: string, t: string)
    requires s == "a01.01.2020" && t == "01.01.20201"
    ensures !PatternFound(s) && !PatternFound(t)
  {
    assert !MatchAt(s, 0) && !MatchAt(s, 1);
    assert !MatchAt(t, 0) && !MatchAt(t, 1);
  }

  /** Text of exactly the form `DD.MM.YYYY`. */
  predicate IsDateText(s: string) {
    |s| == 10 && DatePatternAt(s, 0)
  }

  /** The date a `DD.MM.YYYY` text spells, valid or not. */
  function TextDate(s: string): Date
    requires IsDateText(s)
  {
    Date(Number4(s, 6), 10 * DigitValue(s[3]) + DigitValue(s[4]), 10 * DigitValue(s[0]) + DigitValue(s[1]))
  }

  /** Two zero-padded decimal digits. */
  function Pad2(n: int): string
    requires 0 <= n < 100
  {
    [DigitChar(n / 10), DigitChar(n % 10)]
  }

  /** Four zero-padded decimal digits. */
  function Pad4(n: int): string
    requires 0 <= n < 10000
  {
    Pad2(n / 100) + Pad2(n % 100)
  }

  lemma Pad2Value(n: int)
    requires 0 <= n < 100
    ensures |Pad2(n)| == 2 && IsDigit(Pad2(n)[0]) && IsDigit(Pad2(n)[1])
    ensures 10 * DigitValue(Pad2(n)[0]) + DigitValue(Pad2(n)[1]) == n
  {
  }

  /** `Birthday.__str__`: `date.strftime('%d.%m.%Y')`, zero-padded. */
  function FormatDate(d: Date): (s: string)
    requires ValidDate(d)
    ensures IsDateText(s) && TextDate(s) == d
  {
    Pad2Value(d.day);
    Pad2Value(d.month);
    Pad2Value(d.year / 100);
    Pad2Value(d.year % 100);
    Pad2(d.day) + "." + Pad2(d.month) + "." + Pad4(d.year)
  }

  lemma DigitRoundTrip(c: char)
    requires IsDigit(c)
    ensures DigitChar(DigitValue(c)) == c
  {
  }

  lemma Pad2Digits(s: string, i: int)
    requires 0 <= i && i + 2 <= |s| && IsDigit(s[i]) && IsDigit(s[i + 1])
    ensures Pad2(10 * DigitValue(s[i]) + DigitValue(s[i + 1])) == s[i..i + 2]
  {
    DigitRoundTrip(s[i]);
    DigitRoundTrip(s[i + 1]);
  }

  lemma Pad4Digits(s: string, i: int)
    requires 0 <= i && i + 4 <= |s|
    requires IsDigit(s[i]) && IsDigit(s[i + 1]) && IsDigit(s[i + 2]) && IsDigit(s[i + 3])
    ensures Pad4(Number4(s, i)) == s[i..i + 4]
  {
    var hi := 10 * DigitValue(s[i]) + DigitValue(s[i + 1]);
    var lo := 10 * DigitValue(s[i + 2]) + DigitValue(s[i + 3]);
    assert Number4(s, i) == 100 * hi + lo;
    assert Number4(s, i) / 100 == hi && Number4(s, i) % 100 == lo;
    Pad2Digits(s, i);
    Pad2Digits(s, i + 2);
    assert s[i..i + 4] == s[i..i + 2] + s[i + 2..i + 4];
  }

  /** The search and the parse together accept exactly the `DD.MM.YYYY`
      texts that name a real date: the search rules out the one-digit and
      blank-padded fields `strptime` would take, and `strptime` rules out any
      text around the match. */
  lemma BirthdayTextAccepted(s: string)
    ensures (PatternFound(s) && StrptimeDate(s).Some?) <==> (IsDateText(s) && ValidDate(TextDate(s)))
    ensures PatternFound(s) && StrptimeDate(s).Some? ==> StrptimeDate(s) == Some(TextDate(s))
  {
    if PatternFound(s) && StrptimeDate(s).Some? {
      var i :| 0 <= i <= |s| - 10 && MatchAt(s, i);
      assert |s| <= 10;
      assert i == 0 && |s| == 10;
      assert s[..2] == [s[0], s[1]];
      assert s[3..5] == [s[3], s[4]];
    }
    if IsDateText(s) && ValidDate(TextDate(s)) {
      assert MatchAt(s, 0);
      assert PatternFound(s);
      assert s[..2] == [s[0], s[1]];
      assert s[3..5] == [s[3], s[4]];
      assert DayField(s[..2]);
      assert MonthField(s[3..5]);
    }
  }

  /** A `DD.MM.YYYY` text is the rendering of the date it spells. */
  lemma FormatTextDate(s: string)
    requires IsDateText(s) && ValidDate(TextDate(s))
    ensures FormatDate(TextDate(s)) == s
  {
    Pad2Digits(s, 0);
    Pad2Digits(s, 3);
    Pad4Digits(s, 6);
    assert s == s[0..2] + "." + s[3..5] + "." + s[6..10];
  }

  /** `Birthday(value)` with "now" given as `today`: the date when the text
      is found by the search, parses as a real date and is not after today;
      one error kind for every way of failing. The rendering of the stored
      date gives back the text. */
  function ParseBirthday(value: string, today: Date): (r: Result<Date>)
    requires ValidDate(today)
    ensures r.Success? <==> IsDateText(value) && ValidDate(TextDate(value)) && NotAfter(TextDate(value), today)
    ensures r.Success? ==> r.value == TextDate(value) && ValidDate(r.value) && FormatDate(r.value) == value
    ensures r.Failure? ==> r.error == InvalidBirthday
  {
    BirthdayTextAccepted(value);
    if !PatternFound(value) then Failure(InvalidBirthday)
    else match StrptimeDate(value)
      case None => Failure(InvalidBirthday)
      case Some(d) =>
        if Before(today, d) then Failure(InvalidBirthday)
        else
          FormatTextDate(value);
          Success(d)
  }

  /** Rendering a birthday and parsing the text again gives the same date. */
  lemma FormatThenParse(d: Date, today: Date)
    requires ValidDate(d) && ValidDate(today) && NotAfter(d, today)
    ensures ParseBirthday(FormatDate(d), today) == Success(d)
  {
  }

  /** A date after today is refused whatever its form. */
  lemma FutureBirthdayRefused(d: Date, today: Date)
    requires ValidDate(d) && ValidDate(today) && Before(today, d)
    ensures ParseBirthday(FormatDate(d), today) == Failure(InvalidBirthday)
  {
  }
}
