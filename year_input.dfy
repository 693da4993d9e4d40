/** The publication-year checks: `validate_year_input`, the keystroke
    validator of the add and edit forms, and the year test of the edit
    dialog's save. Both rest on Python's `int(str)`, modelled here for
    ASCII input. */
module YearInput {
  import opened Records

  predicate IsDigit(c: char) { '0' <= c <= '9' }

  function DigitValue(c: char): nat
    requires IsDigit(c)
  {
    (c as int) - ('0' as int)
  }

  /** The ASCII characters that `int()` strips as whitespace: space, tab,
      line feed, vertical tab, form feed and carriage return. The
      separators 28..31 are not among them. */
  predicate IsSpace(c: char) {
    c == ' ' || 9 <= c as int <= 13
  }

  predicate AllDigits(s: string) {
    forall i :: 0 <= i < |s| ==> IsDigit(s[i])
  }

  function TrimStart(s: string): (r: string)
    ensures |r| <= |s| && r == s[|s| - |r|..]
    ensures r == [] || !IsSpace(r[0])
  {
    if s != [] && IsSpace(s[0]) then TrimStart(s[1..]) else s
  }

  function TrimEnd(s: string): (r: string)
    ensures |r| <= |s| && r == s[..|r|]
    ensures r == [] || !IsSpace(r[|r| - 1])
  {
    if s != [] && IsSpace(s[|s| - 1]) then TrimEnd(s[..|s| - 1]) else s
  }

  function Strip(s: string): string {
    TrimEnd(TrimStart(s))
  }

  /** The body of a base-10 literal: digits, with single underscores
      allowed between two digits. */
  predicate IsDigitRun(s: string)
    decreases |s|
  {
    && |s| > 0
    && IsDigit(s[0])
    && (|s| == 1 || IsDigitRun(s[1..]) || (s[1] == '_' && IsDigitRun(s[2..])))
  }

  lemma {:induction false} DigitsAreDigitRun(s: string)
    requires s != [] && AllDigits(s)
    ensures IsDigitRun(s)
  {
    if |s| > 1 {
      DigitsAreDigitRun(s[1..]);
    }
  }

  /** The number the digits of `s` spell, underscores skipped. */
  function DigitsValue(s: string): nat {
    if s == [] then 0
    else if IsDigit(s[|s| - 1]) then 10 * DigitsValue(s[..|s| - 1]) + DigitValue(s[|s| - 1])
    else DigitsValue(s[..|s| - 1])
  }

  function DigitCount(s: string): (n: nat)
    ensures n <= |s|
    ensures n == |s| ==> AllDigits(s)
  {
    if s == [] then 0
    else DigitCount(s[..|s| - 1]) + (if IsDigit(s[|s| - 1]) then 1 else 0)
  }

  function Pow10(n: nat): (p: nat)
    ensures p >= 1
  {
    if n == 0 then 1 else 10 * Pow10(n - 1)
  }

  /** The most decimal digits `int()` reads from text: the default of
      `sys.int_info.default_max_str_digits`, enforced since Python 3.11
      (and the 3.7-3.10 security releases of 2022). Leading zeros count;
      whitespace, the sign and underscores do not. */
  const MaxStrDigits := 4300

  /** Python's `int(s)` on a string: surrounding whitespace, an optional
      sign, then a digit run of at most `MaxStrDigits` digits; anything
      else raises ValueError (None). */
  function ParseInt(s: string): Option<int> {
    ParseStripped(Strip(s))
  }

  function ParseStripped(t: string): Option<int> {
    if |t| > 0 && (t[0] == '+' || t[0] == '-') then
      if IsDigitRun(t[1..]) && DigitCount(t[1..]) <= MaxStrDigits then
        var n: int := DigitsValue(t[1..]);
        Some(if t[0] == '-' then -n else n)
      else None
    else if IsDigitRun(t) && DigitCount(t) <= MaxStrDigits then Some(DigitsValue(t))
    else None
  }

  /** `validate_year_input(value)` with `datetime.now().year` passed in. */
  function ValidateYearInput(value: string, currentYear: int): bool {
    if value == "" then true
    else match ParseInt(value)
      case None => false
      case Some(year) => |value| <= 4 && 1000 <= year <= currentYear
  }

  /** The year test of the edit dialog: `int(text)` within 1000..9999. */
  function EditYear(text: string): Option<int> {
    match ParseInt(text)
    case Some(y) => if 1000 <= y <= 9999 then Some(y) else None
    case None => None
  }

  /** The edit dialog reads its year the way `int()` does: it takes
      surrounding whitespace and an underscore between digits, and refuses
      three or five digits and text with a letter in it. */
  lemma EditYearExamples()
    ensures EditYear(" 1999") == Some(1999)
    ensures EditYear("1_999") == Some(1999)
    ensures EditYear("999") == None
    ensures EditYear("10000") == None
    ensures EditYear("19a9") == None
    ensures EditYear("\U{1c}1999") == None
    ensures EditYear(seq(4297, _ => '0') + "1999") == None
  {
    EditYearPadded(" 1999");
    EditYearUnderscored("1_999");
    EditYearThreeDigits("999");
    EditYearFiveDigits("10000");
    EditYearLetter("19a9");
    EditYearSeparator("\U{1c}1999");
    EditYearOverlong(seq(4297, _ => '0') + "1999");
  }

  lemma EditYearOverlong(t: string)
    requires t == seq(4297, _ => '0') + "1999"
    ensures EditYear(t) == None
  {
    assert AllDigits(t) by {
      forall i | 0 <= i < |t|
        ensures IsDigit(t[i])
      {
        if i >= 4297 {
          assert t[i] == "1999"[i - 4297];
        }
      }
    }
    OverlongDigitsRefused(t);
  }

  /** More than `MaxStrDigits` digits make `int()` raise, even when they
      are leading zeros in front of a valid year. */
  lemma OverlongDigitsRefused(s: string)
    requires AllDigits(s) && |s| > MaxStrDigits
    ensures ParseInt(s) == None
  {
    DigitCountOfDigits(s);
    StripUnpadded(s);
    ParseUnsigned(s);
  }

  lemma {:induction false} DigitCountOfDigits(s: string)
    requires AllDigits(s)
    ensures DigitCount(s) == |s|
  {
    if s != [] {
      DigitCountOfDigits(s[..|s| - 1]);
    }
  }

  /** Text with no whitespace at either end is left alone by the strip. */
  lemma StripUnpadded(t: string)
    requires t != [] && !IsSpace(t[0]) && !IsSpace(t[|t| - 1])
    ensures Strip(t) == t
  {
  }

  /** Without a sign, `int()` reads stripped text exactly when it is a digit run. */
  lemma ParseUnsigned(t: string)
    requires Strip(t) == t && t != [] && t[0] != '+' && t[0] != '-'
    ensures ParseInt(t) == if IsDigitRun(t) && DigitCount(t) <= MaxStrDigits then Some(DigitsValue(t)) else None
  {
  }

  lemma EditYearPadded(t: string)
    requires t == " 1999"
    ensures EditYear(t) == Some(1999)
  {
    var d := t[1..];
    assert d == "1999" && IsSpace(t[0]);
    ParseIntSkipsSpace(t);
    StripUnpadded(d);
    ParseIntOfDigits(d);
    ValueOf1999(d);
    assert ParseInt(t) == Some(1999);
  }

  /** `int()` ignores a leading whitespace character. */
  lemma ParseIntSkipsSpace(t: string)
    requires t != [] && IsSpace(t[0])
    ensures ParseInt(t) == ParseInt(t[1..])
  {
    assert Strip(t) == Strip(t[1..]);
  }

  lemma ValueOf1999(d: string)
    requires d == "1999"
    ensures DigitsValue(d) == 1999
  {
    var a1, a2, a3 := d[..1], d[..2], d[..3];
    assert a1[..0] == [] && DigitsValue(a1) == 1;
    assert a2[..1] == a1 && DigitsValue(a2) == 19;
    assert a3[..2] == a2 && DigitsValue(a3) == 199;
  }

  lemma EditYearUnderscored(t: string)
    requires t == "1_999"
    ensures EditYear(t) == Some(1999)
  {
    StripUnpadded(t);
    ParseUnsigned(t);
    assert t[2..] == "999";
    UnderscoredRun(t);
    ValueOf1_999(t);
    assert ParseInt(t) == Some(1999);
  }

  /** A digit, an underscore, then digits: a digit run. */
  lemma UnderscoredRun(t: string)
    requires |t| >= 3 && IsDigit(t[0]) && t[1] == '_' && AllDigits(t[2..])
    ensures IsDigitRun(t)
  {
    DigitsAreDigitRun(t[2..]);
  }

  lemma ValueOf1_999(t: string)
    requires t == "1_999"
    ensures DigitsValue(t) == 1999
  {
    var a1, a2, a3, a4 := t[..1], t[..2], t[..3], t[..4];
    assert a1[..0] == [] && DigitsValue(a1) == 1;
    assert a2[..1] == a1 && DigitsValue(a2) == 1;
    assert a3[..2] == a2 && DigitsValue(a3) == 19;
    assert a4[..3] == a3 && DigitsValue(a4) == 199;
    assert t[..4] == a4;
  }

  lemma EditYearThreeDigits(t: string)
    requires t == "999"
    ensures EditYear(t) == None
  {
    StripUnpadded(t);
    ParseUnsigned(t);
    DigitsValueBound(t);
    Pow10Monotone(DigitCount(t), 3);
  }

  lemma EditYearFiveDigits(t: string)
    requires t == "10000"
    ensures EditYear(t) == None
  {
    StripUnpadded(t);
    ParseUnsigned(t);
    ValueOf10000(t);
  }

  lemma ValueOf10000(t: string)
    requires t == "10000"
    ensures DigitsValue(t) == 10000
  {
    var a1, a2, a3, a4 := t[..1], t[..2], t[..3], t[..4];
    assert a1[..0] == [] && DigitsValue(a1) == 1;
    assert a2[..1] == a1 && DigitsValue(a2) == 10;
    assert a3[..2] == a2 && DigitsValue(a3) == 100;
    assert a4[..3] == a3 && DigitsValue(a4) == 1000;
  }

  lemma EditYearLetter(t: string)
    requires t == "19a9"
    ensures EditYear(t) == None
  {
    StripUnpadded(t);
    ParseUnsigned(t);
    if IsDigitRun(t) {
      DigitRunChars(t, 2);
      assert false;
    }
  }

  /** A file separator in front of a year is not whitespace to `int()`. */
  lemma EditYearSeparator(t: string)
    requires t == "\U{1c}1999"
    ensures EditYear(t) == None
  {
    StripUnpadded(t);
    ParseUnsigned(t);
  }

  /** A digit run holds only digits and underscores. */
  lemma {:induction false} DigitRunChars(s: string, i: nat)
    requires IsDigitRun(s) && i < |s|
    ensures IsDigit(s[i]) || s[i] == '_'
    decreases |s|
  {
    if i > 0 {
      if IsDigitRun(s[1..]) {
        DigitRunChars(s[1..], i - 1);
      } else if i > 1 {
        DigitRunChars(s[2..], i - 2);
      }
    }
  }

  lemma {:induction false} DigitsValueBound(s: string)
    ensures DigitsValue(s) < Pow10(DigitCount(s))
  {
    if s != [] {
      DigitsValueBound(s[..|s| - 1]);
    }
  }

  lemma {:induction false} Pow10Monotone(m: nat, n: nat)
    requires m <= n
    ensures Pow10(m) <= Pow10(n)
  {
    if m < n {
      Pow10Monotone(m, n - 1);
    }
  }

  /** A string of digits is read by `int()` as the number it spells. */
  lemma ParseIntOfDigits(s: string)
    requires s != [] && AllDigits(s) && |s| <= MaxStrDigits
    ensures ParseInt(s) == Some(DigitsValue(s))
  {
    assert TrimStart(s) == s;
    assert TrimEnd(s) == s;
    DigitsAreDigitRun(s);
    DigitCountOfDigits(s);
  }

  /** The empty field is always accepted (so the user can clear it). */
  lemma AcceptsEmpty(currentYear: int)
    ensures ValidateYearInput("", currentYear)
  {
  }

  /** A non-empty value is accepted exactly when it is four ASCII digits
      spelling a year from 1000 to the current year: a sign, whitespace or
      an underscore would need a fifth character. */
  lemma {:induction false} NonEmptyYearIsFourDigits(value: string, currentYear: int)
    requires value != ""
    ensures ValidateYearInput(value, currentYear) <==>
              |value| == 4 && AllDigits(value) && 1000 <= DigitsValue(value) <= currentYear
  {
    if ValidateYearInput(value, currentYear) {
      var t := Strip(value);
      assert |t| <= |value| <= 4;
      if |t| > 0 && (t[0] == '+' || t[0] == '-') {
        var body := t[1..];
        DigitsValueBound(body);
        Pow10Monotone(DigitCount(body), 3);
        assert false;
      } else {
        DigitsValueBound(t);
        if DigitCount(t) < 4 {
          Pow10Monotone(DigitCount(t), 3);
          assert false;
        }
        assert |t| == |value|;
        assert TrimStart(value) == value;
        assert t == value;
      }
    } else if |value| == 4 && AllDigits(value) && 1000 <= DigitsValue(value) <= currentYear {
      ParseIntOfDigits(value);
      assert false;
    }
  }

  /** A value that is not a number at all is refused. */
  lemma {:induction false} RejectsNonNumeric(value: string, currentYear: int)
    requires ParseInt(value).None?
    ensures ValidateYearInput(value, currentYear) <==> value == ""
  {
  }

  /** Every non-empty year the keystroke validator lets through also
      passes the edit dialog's range test, while the current year is at
      most 9999. */
  lemma ValidatedYearPassesEdit(value: string, currentYear: int)
    requires value != "" && ValidateYearInput(value, currentYear) && currentYear <= 9999
    ensures EditYear(value) == Some(DigitsValue(value))
  {
    NonEmptyYearIsFourDigits(value, currentYear);
    ParseIntOfDigits(value);
  }

  /** A plus sign in front of a digit string is accepted by `int()`. */
  lemma ParseIntOfPlusDigits(s: string)
    requires s != [] && AllDigits(s) && |s| <= MaxStrDigits
    ensures ParseInt("+" + s) == Some(DigitsValue(s))
  {
    var t := "+" + s;
    assert t[0] == '+' && t[|t| - 1] == s[|s| - 1];
    StripUnpadded(t);
    assert t[1..] == s;
    DigitsAreDigitRun(s);
    DigitCountOfDigits(s);
    assert ParseStripped(t) == Some(DigitsValue(s));
  }

  /** The edit dialog reads its year with `int()` alone, so it takes a
      year written with a plus sign, which the keystroke validator refuses
      because it needs five characters. */
  lemma EditTakesSignedYear(digits: string, currentYear: int)
    requires |digits| == 4 && AllDigits(digits) && 1000 <= DigitsValue(digits)
    ensures EditYear("+" + digits) == Some(DigitsValue(digits))
    ensures !ValidateYearInput("+" + digits, currentYear)
  {
    ParseIntOfPlusDigits(digits);
    DigitsValueBound(digits);
    Pow10Monotone(DigitCount(digits), 4);
  }
}
