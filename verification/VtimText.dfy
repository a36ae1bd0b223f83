/** Every date, written in any of the forms that can express it, is read as the same second. */
module VtimText {
  import opened Options
  import opened Words
  import opened Ascii
  import opened Texts
  import opened Calendar
  import opened Vtim

  // ------------------------------------------------ writing

  function Ten(k: nat): (r: nat)
    ensures r >= 1
  {
    if k == 0 then 1 else 10 * Ten(k - 1)
  }

  /** The last `k` decimal digits. */
  function Dec(n: nat, k: nat): (w: seq<byte>)
    ensures |w| == k
  {
    if k == 0 then [] else Dec(n / 10, k - 1) + [ZERO + n % 10]
  }

  lemma {:induction false} DecAt(t: seq<byte>, i: nat, n: nat, k: nat)
    requires Spells(t, i, Dec(n, k)) && n < Ten(k)
    ensures AreDigits(t, i, k) && NumAt(t, i, k) == n
  {
    hide Spells;
    if k > 0 {
      SpellsCat(t, i, Dec(n / 10, k - 1), [ZERO + n % 10]);
      DecAt(t, i, n / 10, k - 1);
      SpellsOne(t, i + k - 1, ZERO + n % 10);
    }
  }

  function Blanks(n: nat): (w: seq<byte>)
    ensures |w| == n && forall k :: 0 <= k < n ==> w[k] == SPACE
  {
    if n == 0 then [] else [SPACE] + Blanks(n - 1)
  }

  lemma BlanksOver(t: seq<byte>, i: nat, n: nat)
    requires Spells(t, i, Blanks(n)) && At(t, i + n) != SPACE
    ensures i <= |t| && SkipSpaces(t, i) == i + n
  {
    var j := SkipSpaces(t, i);
    SpelledAt(t, i, Blanks(n), j);
  }

  function TimeText(c: Civil): (w: seq<byte>)
    requires c.hour >= 0 && c.min >= 0 && c.sec >= 0
    ensures |w| == 8
  {
    Dec(c.hour, 2) + ([COLON] + (Dec(c.min, 2) + ([COLON] + Dec(c.sec, 2))))
  }

  lemma Tens()
    ensures Ten(1) == 10 && Ten(2) == 100 && Ten(4) == 10000
  {
    assert Ten(3) == 1000;
  }

  lemma TimeOf(t: seq<byte>, i: nat, c: Civil)
    requires Exists(c) && Spells(t, i, TimeText(c))
    ensures TimeAt(t, i) && forall y, m, d :: WithTime(t, i, y, m, d) == Civil(y, m, d, c.hour, c.min, c.sec)
  {
    hide Spells, Dec, AreDigits, NumAt, Ten;
    Tens();
    var c5 := Dec(c.sec, 2);
    var c4 := [COLON] + c5;
    var c3 := Dec(c.min, 2) + c4;
    SpellsCat(t, i, Dec(c.hour, 2), [COLON] + c3);
    SpellsCat(t, i + 2, [COLON], c3);
    SpellsCat(t, i + 3, Dec(c.min, 2), c4);
    SpellsCat(t, i + 5, [COLON], c5);
    SpellsOne(t, i + 2, COLON);
    SpellsOne(t, i + 5, COLON);
    DecAt(t, i, c.hour, 2);
    DecAt(t, i + 3, c.min, 2);
    DecAt(t, i + 6, c.sec, 2);
  }

  ghost predicate Distinct(names: seq<seq<byte>>) {
    (forall k :: 0 <= k < |names| ==> |names[k]| == 3) && forall j, k :: 0 <= j < k < |names| ==> names[j] != names[k]
  }

  lemma {:induction false} NameOf(t: seq<byte>, i: nat, names: seq<seq<byte>>, m: nat, k: nat)
    requires Distinct(names) && k <= m < |names| && Spells(t, i, names[m])
    ensures NameAt(t, i, names, k) == Some(m)
    decreases m - k
  {
    if k < m {
      assert names[k] != names[m];
      NameOf(t, i, names, m, k + 1);
    }
  }

  lemma WeekdaysDistinct()
    ensures |WEEKDAYS| == 7 && Distinct(WEEKDAYS)
  {
    forall j, k | 0 <= j < k < 7 ensures WEEKDAYS[j] != WEEKDAYS[k] {
      assert WEEKDAYS[j][0] != WEEKDAYS[k][0] || WEEKDAYS[j][1] != WEEKDAYS[k][1];
    }
  }

  lemma MonthsDistinct()
    ensures |MONTHS| == 12 && Distinct(MONTHS)
  {
    forall j, k | 0 <= j < k < 12 ensures MONTHS[j] != MONTHS[k] {
      assert MONTHS[j][0] != MONTHS[k][0] || MONTHS[j][1] != MONTHS[k][1] || MONTHS[j][2] != MONTHS[k][2];
    }
  }

  // ------------------------------------------------ the forms

  function MonthName(c: Civil): seq<byte>
    requires 1 <= c.month <= 12
    ensures |MonthName(c)| == 3
  {
    MONTHS[c.month - 1]
  }

  function IsoText(c: Civil): seq<byte>
    requires Exists(c) && c.year >= 0
  {
    Dec(c.year, 4) + ([DASH] + (Dec(c.month, 2) + ([DASH] + (Dec(c.day, 2) + ([0x54] + TimeText(c))))))
  }

  lemma IsoOf(t: seq<byte>, i: nat, c: Civil)
    requires Exists(c) && 0 <= c.year <= 9999 && Spells(t, i, IsoText(c))
    ensures Iso(t, i) == Found(c, i + 19) && i + 19 <= |t| && IsDigit(At(t, i))
  {
    hide Spells, Dec, AreDigits, NumAt, Ten, TimeText, TimeAt, WithTime;
    Tens();
    SpellsFits(t, i, IsoText(c));
    var c5 := [0x54] + TimeText(c);
    var c4 := Dec(c.day, 2) + c5;
    var c3 := [DASH] + c4;
    var c2 := Dec(c.month, 2) + c3;
    SpellsCat(t, i, Dec(c.year, 4), [DASH] + c2);
    SpellsCat(t, i + 4, [DASH], c2);
    SpellsCat(t, i + 5, Dec(c.month, 2), c3);
    SpellsCat(t, i + 7, [DASH], c4);
    SpellsCat(t, i + 8, Dec(c.day, 2), c5);
    SpellsCat(t, i + 10, [0x54], TimeText(c));
    SpellsOne(t, i + 4, DASH);
    SpellsOne(t, i + 7, DASH);
    SpellsOne(t, i + 10, 0x54);
    DecAt(t, i, c.year, 4);
    DecAt(t, i + 5, c.month, 2);
    DecAt(t, i + 8, c.day, 2);
    TimeOf(t, i + 11, c);
    FirstIsDigit(t, i, 4);
    assert c == Civil(c.year, c.month, c.day, c.hour, c.min, c.sec);
  }

  lemma {:induction false} FirstIsDigit(t: seq<byte>, i: nat, k: nat)
    requires AreDigits(t, i, k) && k > 0
    ensures IsDigit(At(t, i))
  {
    if k > 1 { FirstIsDigit(t, i, k - 1); }
  }

  /** " Nov 1994 08:49:37 GMT" */
  function RestText(c: Civil): (w: seq<byte>)
    requires Exists(c) && c.year >= 0
    ensures |w| == 22
  {
    [SPACE] + (MonthName(c) + ([SPACE] + (Dec(c.year, 4) + ([SPACE] + (TimeText(c) + GMT)))))
  }

  lemma RestOf(t: seq<byte>, i: nat, c: Civil)
    requires Exists(c) && 0 <= c.year <= 9999 && Spells(t, i, RestText(c))
    ensures Rest1123(t, i, c.day) == Found(c, i + 22) && At(t, i) == SPACE
  {
    hide Spells, Dec, AreDigits, NumAt, Ten, TimeText, TimeAt, WithTime, NameAt, Distinct;
    Tens();
    var c5 := TimeText(c) + GMT;
    var c4 := [SPACE] + c5;
    var c3 := Dec(c.year, 4) + c4;
    var c2 := [SPACE] + c3;
    SpellsCat(t, i, [SPACE], MonthName(c) + c2);
    SpellsCat(t, i + 1, MonthName(c), c2);
    SpellsCat(t, i + 4, [SPACE], c3);
    SpellsCat(t, i + 5, Dec(c.year, 4), c4);
    SpellsCat(t, i + 9, [SPACE], c5);
    SpellsCat(t, i + 10, TimeText(c), GMT);
    SpellsOne(t, i, SPACE);
    SpellsOne(t, i + 4, SPACE);
    SpellsOne(t, i + 9, SPACE);
    DecAt(t, i + 5, c.year, 4);
    TimeOf(t, i + 10, c);
    MonthsDistinct();
    NameOf(t, i + 1, MONTHS, c.month - 1, 0);
    assert c == Civil(c.year, c.month, c.day, c.hour, c.min, c.sec);
  }

  /** ", 06 Nov 1994 08:49:37 GMT", or with a day of one digit. */
  function Text1123(c: Civil, short: bool): (w: seq<byte>)
    requires Exists(c) && c.year >= 0
    ensures |w| == if short then 25 else 26
  {
    [COMMA] + ([SPACE] + (Dec(c.day, if short then 1 else 2) + RestText(c)))
  }

  lemma Of1123(t: seq<byte>, i: nat, c: Civil, short: bool, postel: bool)
    requires Exists(c) && 0 <= c.year <= 9999 && (short ==> c.day < 10) && Spells(t, i, Text1123(c, short))
    ensures Rfc1123(t, i, postel) == (if short && !postel then NotFound else Found(c, i + |Text1123(c, short)|))
    ensures At(t, i) == COMMA
  {
    hide Spells, Dec, Ten, RestText, Rest1123;
    Tens();
    var n := if short then 1 else 2;
    SpellsCat(t, i, [COMMA], [SPACE] + (Dec(c.day, n) + RestText(c)));
    SpellsCat(t, i + 1, [SPACE], Dec(c.day, n) + RestText(c));
    SpellsCat(t, i + 2, Dec(c.day, n), RestText(c));
    SpellsOne(t, i, COMMA);
    SpellsOne(t, i + 1, SPACE);
    DecAt(t, i + 2, c.day, n);
    RestOf(t, i + 2 + n, c);
  }

  /** " Nov  6 08:49:37 1994", the first place of the day a blank or a digit. */
  function TextAsctime(c: Civil, blank: bool): (w: seq<byte>)
    requires Exists(c) && c.year >= 0
    ensures |w| == 21
  {
    [SPACE] + (MonthName(c) + ([SPACE] + (DayText(c, blank) + ([SPACE] + (TimeText(c) + ([SPACE] + Dec(c.year, 4)))))))
  }

  function DayText(c: Civil, blank: bool): (w: seq<byte>)
    requires c.day >= 0
    ensures |w| == 2
  {
    if blank then [SPACE] + Dec(c.day, 1) else Dec(c.day, 2)
  }

  lemma DayOf(t: seq<byte>, i: nat, c: Civil, blank: bool)
    requires Exists(c) && (blank ==> c.day < 10) && Spells(t, i, DayText(c, blank))
    ensures At(t, i) == SPACE <==> blank
    ensures if blank then AreDigits(t, i + 1, 1) && NumAt(t, i + 1, 1) == c.day
      else AreDigits(t, i, 2) && NumAt(t, i, 2) == c.day
  {
    hide Spells, Dec, Ten;
    Tens();
    if blank {
      SpellsCat(t, i, [SPACE], Dec(c.day, 1));
      SpellsOne(t, i, SPACE);
      DecAt(t, i + 1, c.day, 1);
    } else {
      DecAt(t, i, c.day, 2);
      FirstIsDigit(t, i, 2);
    }
  }

  lemma OfAsctime(t: seq<byte>, i: nat, c: Civil, blank: bool)
    requires Exists(c) && 0 <= c.year <= 9999 && (blank ==> c.day < 10) && Spells(t, i, TextAsctime(c, blank))
    ensures Asctime(t, i) == Found(c, i + 21) && At(t, i) == SPACE
  {
    hide Spells, Dec, AreDigits, NumAt, Ten, TimeText, TimeAt, WithTime, NameAt, DayText, Distinct;
    Tens();
    var c6 := [SPACE] + Dec(c.year, 4);
    var c5 := TimeText(c) + c6;
    var c4 := [SPACE] + c5;
    var c3 := DayText(c, blank) + c4;
    var c2 := [SPACE] + c3;
    SpellsCat(t, i, [SPACE], MonthName(c) + c2);
    SpellsCat(t, i + 1, MonthName(c), c2);
    SpellsCat(t, i + 4, [SPACE], c3);
    SpellsCat(t, i + 5, DayText(c, blank), c4);
    SpellsCat(t, i + 7, [SPACE], c5);
    SpellsCat(t, i + 8, TimeText(c), c6);
    SpellsCat(t, i + 16, [SPACE], Dec(c.year, 4));
    SpellsOne(t, i, SPACE);
    SpellsOne(t, i + 4, SPACE);
    SpellsOne(t, i + 7, SPACE);
    SpellsOne(t, i + 16, SPACE);
    DayOf(t, i + 5, c, blank);
    TimeOf(t, i + 8, c);
    DecAt(t, i + 17, c.year, 4);
    MonthsDistinct();
    NameOf(t, i + 1, MONTHS, c.month - 1, 0);
    assert c == Civil(c.year, c.month, c.day, c.hour, c.min, c.sec);
  }

  /** ", 06-Nov-94 08:49:37 GMT" */
  function Text850(c: Civil): (w: seq<byte>)
    requires Exists(c) && c.year >= 0
    ensures |w| == 24
  {
    [COMMA] + ([SPACE] + (Dec(c.day, 2) + ([DASH] + (MonthName(c) +
      ([DASH] + (Dec(c.year % 100, 2) + ([SPACE] + (TimeText(c) + GMT))))))))
  }

  lemma Of850(t: seq<byte>, i: nat, c: Civil)
    requires Exists(c) && 1969 <= c.year <= 2068 && Spells(t, i, Text850(c))
    ensures Rfc850(t, i) == Found(c, i + 24)
  {
    hide Spells, Dec, AreDigits, NumAt, Ten, TimeText, TimeAt, WithTime, NameAt, Distinct;
    Tens();
    var c8 := TimeText(c) + GMT;
    var c7 := [SPACE] + c8;
    var c6 := Dec(c.year % 100, 2) + c7;
    var c5 := [DASH] + c6;
    var c4 := MonthName(c) + c5;
    var c3 := [DASH] + c4;
    var c2 := Dec(c.day, 2) + c3;
    SpellsCat(t, i, [COMMA], [SPACE] + c2);
    SpellsCat(t, i + 1, [SPACE], c2);
    SpellsCat(t, i + 2, Dec(c.day, 2), c3);
    SpellsCat(t, i + 4, [DASH], c4);
    SpellsCat(t, i + 5, MonthName(c), c5);
    SpellsCat(t, i + 8, [DASH], c6);
    SpellsCat(t, i + 9, Dec(c.year % 100, 2), c7);
    SpellsCat(t, i + 11, [SPACE], c8);
    SpellsCat(t, i + 12, TimeText(c), GMT);
    SpellsOne(t, i, COMMA);
    SpellsOne(t, i + 1, SPACE);
    SpellsOne(t, i + 4, DASH);
    SpellsOne(t, i + 8, DASH);
    SpellsOne(t, i + 11, SPACE);
    DecAt(t, i + 2, c.day, 2);
    DecAt(t, i + 9, c.year % 100, 2);
    TimeOf(t, i + 12, c);
    MonthsDistinct();
    NameOf(t, i + 5, MONTHS, c.month - 1, 0);
    assert c == Civil(c.year, c.month, c.day, c.hour, c.min, c.sec);
  }

  // ------------------------------------------------ whole texts

  /** The forms of a date; all but the first name a day of the week. */
  datatype Form = IsoForm | Form1123(wd: nat, short: bool) | FormAsctime(wd: nat, blank: bool) | Form850(wd: nat)

  /** What a form can express. */
  predicate Expresses(f: Form, c: Civil) {
    && Exists(c) && 0 <= c.year <= 9999 && (!f.IsoForm? ==> f.wd < 7)
    && (f.FormAsctime? && f.blank ==> c.day < 10) && (f.Form1123? && f.short ==> c.day < 10)
    && (f.Form850? ==> 1969 <= c.year <= 2068)
  }

  function Body(f: Form, c: Civil): seq<byte>
    requires Expresses(f, c)
  {
    match f
    case IsoForm => IsoText(c)
    case Form1123(wd, short) => WEEKDAYS[wd] + Text1123(c, short)
    case FormAsctime(wd, blank) => WEEKDAYS[wd] + TextAsctime(c, blank)
    case Form850(wd) => WEEKDAYS[wd] + (MORE[wd] + Text850(c))
  }

  function DayGiven(f: Form): Option<nat> {
    if f.IsoForm? then None else Some(f.wd)
  }

  /** A day of one digit is for a parser told to be liberal. */
  predicate Liberal(f: Form) { f.Form1123? && f.short }

  lemma NoSpaceFirst(f: Form, c: Civil)
    requires Expresses(f, c)
    ensures |Body(f, c)| > 0 && Body(f, c)[0] != SPACE
  {
    if f.IsoForm? {
      assert |Dec(c.year, 4)| == 4;
      DecFirst(c.year, 4);
      assert Body(f, c)[0] == Dec(c.year, 4)[0];
    } else {
      WeekdaysDistinct();
      assert Body(f, c)[0] == WEEKDAYS[f.wd][0];
    }
  }

  lemma {:induction false} DecFirst(n: nat, k: nat)
    requires k > 0
    ensures IsDigit(Dec(n, k)[0])
  {
    if k > 1 {
      DecFirst(n / 10, k - 1);
      assert Dec(n, k)[0] == Dec(n / 10, k - 1)[0];
    }
  }

  /** The form is recognised and what it says is found. */
  lemma BodyOf(t: seq<byte>, i: nat, f: Form, c: Civil, postel: bool)
    requires Expresses(f, c) && Spells(t, i, Body(f, c)) && i == SkipSpaces(t, 0)
    ensures Parse(t, postel) ==
      Ended(t, if Liberal(f) && !postel then NotFound else Found(c, i + |Body(f, c)|), DayGiven(f))
  {
    hide Spells, Iso, Rfc1123, Asctime, Rfc850, Text1123, TextAsctime, Text850, IsoText, NameAt, SkipSpaces, Ended;
    hide Exists, Distinct;
    if f.IsoForm? {
      IsoOf(t, i, c);
      IsoLength(c);
      return;
    }
    Three(f.wd);
    match f {
      case Form1123(wd, short) =>
        Named(t, i, wd, Text1123(c, short));
        Of1123(t, i + 3, c, short, postel);
      case FormAsctime(wd, blank) =>
        Named(t, i, wd, TextAsctime(c, blank));
        OfAsctime(t, i + 3, c, blank);
      case Form850(wd) =>
        Named(t, i, wd, MORE[wd] + Text850(c));
        SpellsCat(t, i + 3, MORE[wd], Text850(c));
        SpellsAt(t, i + 3, MORE[wd], 0);
        Of850(t, i + 3 + |MORE[wd]|, c);
    }
  }

  lemma Named(t: seq<byte>, i: nat, wd: nat, rest: seq<byte>)
    requires wd < 7 && Spells(t, i, WEEKDAYS[wd] + rest)
    ensures NameAt(t, i, WEEKDAYS, 0) == Some(wd) && !IsDigit(At(t, i)) && Spells(t, i + 3, rest)
  {
    hide Spells, NameAt, Distinct;
    WeekdaysDistinct();
    Three(wd);
    SpellsCat(t, i, WEEKDAYS[wd], rest);
    NameOf(t, i, WEEKDAYS, wd, 0);
    SpellsAt(t, i, WEEKDAYS[wd], 0);
  }

  lemma IsoLength(c: Civil)
    requires Exists(c) && c.year >= 0
    ensures |IsoText(c)| == 19
  {}

  lemma Three(wd: nat)
    requires wd < 7
    ensures |WEEKDAYS[wd]| == 3 && !IsDigit(WEEKDAYS[wd][0]) && |MORE[wd]| > 0 && MORE[wd][0] != COMMA
    ensures MORE[wd][0] != SPACE
  {}

  /** Whatever the form, and with any spaces around it, a date that exists is read as its distance from the
      epoch; if the form names the day of the week, exactly when that is the true one; if the day of the month is
      cut short, exactly when that is allowed; and never if the year is before 1899. */
  lemma FormsAgree(f: Form, c: Civil, before: nat, after: nat, postel: bool)
    requires Expresses(f, c)
    ensures Parse(Blanks(before) + (Body(f, c) + Blanks(after)), postel) ==
      if c.year >= 1899 && (Liberal(f) ==> postel) && (f.IsoForm? || f.wd == Weekday(DayNumber(c.year, c.month, c.day)))
      then Some(Seconds(c)) else None
  {
    hide Spells, Parse, Body, Judge, Exists, Seconds, DayNumber;
    var w := Body(f, c);
    var t := Blanks(before) + (w + Blanks(after));
    assert Spells(t, 0, t) by { WholeText(t); }
    SpellsCat(t, 0, Blanks(before), w + Blanks(after));
    SpellsCat(t, before, w, Blanks(after));
    NoSpaceFirst(f, c);
    SpellsAt(t, before, w, 0);
    BlanksOver(t, 0, before);
    BodyOf(t, before, f, c, postel);
    BlanksOver(t, before + |w|, after);
    NonNegative(c);
    JudgedRight(c, DayGiven(f));
  }

  lemma WholeText(t: seq<byte>)
    ensures Spells(t, 0, t)
  {
    assert t[0..|t|] == t;
  }

  lemma NonNegative(c: Civil)
    requires Exists(c)
    ensures c.hour >= 0 && c.min >= 0 && c.sec >= 0
  {}

  // ------------------------------------------------ in letters

  /** The bytes are those of `s`. */
  ghost predicate Reads(w: seq<byte>, s: string) {
    |w| == |s| && forall i :: 0 <= i < |s| ==> w[i] == s[i] as int
  }

  lemma MonthsInLetters()
    ensures Reads(MONTHS[0], "Jan") && Reads(MONTHS[1], "Feb") && Reads(MONTHS[2], "Mar") && Reads(MONTHS[3], "Apr")
    ensures Reads(MONTHS[4], "May") && Reads(MONTHS[5], "Jun") && Reads(MONTHS[6], "Jul") && Reads(MONTHS[7], "Aug")
    ensures Reads(MONTHS[8], "Sep") && Reads(MONTHS[9], "Oct") && Reads(MONTHS[10], "Nov") && Reads(MONTHS[11], "Dec")
  {}

  lemma DaysInLetters()
    ensures Reads(WEEKDAYS[0] + MORE[0], "Sunday") && Reads(WEEKDAYS[1] + MORE[1], "Monday")
    ensures Reads(WEEKDAYS[2] + MORE[2], "Tuesday") && Reads(WEEKDAYS[3] + MORE[3], "Wednesday")
    ensures Reads(WEEKDAYS[4] + MORE[4], "Thursday") && Reads(WEEKDAYS[5] + MORE[5], "Friday")
    ensures Reads(WEEKDAYS[6] + MORE[6], "Saturday")
  {}

  lemma TwoDigits(n: nat)
    requires n < 100
    ensures Dec(n, 2) == [0x30 + n / 10, 0x30 + n % 10] && Dec(n % 10, 1) == [0x30 + n % 10]
  {
    assert Dec(n / 10, 1) == Dec(n / 10 / 10, 0) + [0x30 + n / 10 % 10];
  }

  lemma FourDigits()
    ensures Dec(1994, 4) == [0x31, 0x39, 0x39, 0x34]
  {
    assert Dec(199, 3) == Dec(19, 2) + [0x39];
    TwoDigits(19);
  }

  const MOMENT: Civil := Civil(1994, 11, 6, 8, 49, 37)

  lemma TimeInLetters()
    ensures Exists(MOMENT) && Reads(TimeText(MOMENT), "08:49:37")
  {
    hide Dec;
    TwoDigits(8);
    TwoDigits(49);
    TwoDigits(37);
  }

  /** 6 November 1994, 08:49:37 in every form. */
  lemma IsoInLetters()
    ensures Reads(Body(IsoForm, MOMENT), "1994-11-06T08:49:37")
  {
    hide Dec, TimeText;
    TimeInLetters();
    FourDigits();
    TwoDigits(11);
    TwoDigits(6);
    TwoDigits(94);
  }

  lemma RestInLetters()
    ensures Reads(RestText(MOMENT), " Nov 1994 08:49:37 GMT")
  {
    hide Dec, TimeText;
    TimeInLetters();
    FourDigits();
  }

  lemma ReadsCat(a: seq<byte>, s: string, b: seq<byte>, t: string)
    requires Reads(a, s) && Reads(b, t)
    ensures Reads(a + b, s + t)
  {}

  lemma Rfc1123InLetters()
    ensures Reads(Body(Form1123(0, false), MOMENT), "Sun, 06 Nov 1994 08:49:37 GMT")
  {
    hide Dec, RestText, Reads;
    TimeInLetters();
    RestInLetters();
    var front := WEEKDAYS[0] + ([COMMA] + ([SPACE] + Dec(6, 2)));
    assert Reads(front, "Sun, 06") by { FrontInLetters(); }
    ReadsCat(front, "Sun, 06", RestText(MOMENT), " Nov 1994 08:49:37 GMT");
    assert front + RestText(MOMENT) == Body(Form1123(0, false), MOMENT);
    assert "Sun, 06" + " Nov 1994 08:49:37 GMT" == "Sun, 06 Nov 1994 08:49:37 GMT";
  }

  lemma LiberalInLetters()
    ensures Reads(Body(Form1123(0, true), MOMENT), "Sun, 6 Nov 1994 08:49:37 GMT")
  {
    hide Dec, RestText, Reads;
    TimeInLetters();
    RestInLetters();
    var front := WEEKDAYS[0] + ([COMMA] + ([SPACE] + Dec(6, 1)));
    assert Reads(front, "Sun, 6") by { FrontInLetters(); }
    ReadsCat(front, "Sun, 6", RestText(MOMENT), " Nov 1994 08:49:37 GMT");
    assert front + RestText(MOMENT) == Body(Form1123(0, true), MOMENT);
    assert "Sun, 6" + " Nov 1994 08:49:37 GMT" == "Sun, 6 Nov 1994 08:49:37 GMT";
  }

  lemma FrontInLetters()
    ensures Reads(WEEKDAYS[0] + ([COMMA] + ([SPACE] + Dec(6, 2))), "Sun, 06")
    ensures Reads(WEEKDAYS[0] + ([COMMA] + ([SPACE] + Dec(6, 1))), "Sun, 6")
  {
    hide Dec;
    TwoDigits(6);
  }

  lemma AsctimeInLetters()
    ensures Reads(Body(FormAsctime(0, true), MOMENT), "Sun Nov  6 08:49:37 1994")
  {
    hide Dec, TimeText;
    TimeInLetters();
    FourDigits();
    TwoDigits(11);
    TwoDigits(6);
    TwoDigits(94);
  }

  /** "-94 08:49:37 GMT" */
  function Tail850(): (w: seq<byte>)
    ensures |w| == 16
  {
    [DASH] + (Dec(94, 2) + ([SPACE] + (TimeText(MOMENT) + GMT)))
  }

  lemma Tail850InLetters()
    ensures Reads(Tail850(), "-94 08:49:37 GMT")
  {
    hide Dec, TimeText;
    TimeInLetters();
    TwoDigits(94);
  }

  lemma Rfc850InLetters()
    ensures Reads(Body(Form850(0), MOMENT), "Sunday, 06-Nov-94 08:49:37 GMT")
  {
    hide Dec, Tail850;
    TimeInLetters();
    Tail850InLetters();
    TwoDigits(6);
    assert Body(Form850(0), MOMENT) ==
      WEEKDAYS[0] + (MORE[0] + ([COMMA] + ([SPACE] + (Dec(6, 2) + ([DASH] + (MONTHS[10] + Tail850())))))) by {
      TailIs();
    }
  }

  lemma TailIs()
    ensures [DASH] + (Dec(1994 % 100, 2) + ([SPACE] + (TimeText(MOMENT) + GMT))) == Tail850()
  {}

  /** And it is read as that many seconds since 1970. */
  lemma MomentRead(f: Form, postel: bool)
    requires f.IsoForm? || f.wd == 0
    requires Liberal(f) ==> postel
    ensures Expresses(f, MOMENT) && Parse(Body(f, MOMENT), postel) == Some(784111777)
  {
    hide Parse, Body, DayNumber;
    Thursday();
    DaysRight(1994, 11, 6);
    FormsAgree(f, MOMENT, 0, 0, postel);
    assert Blanks(0) + (Body(f, MOMENT) + Blanks(0)) == Body(f, MOMENT);
  }
}
