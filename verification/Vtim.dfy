/** Reading dates in their four textual forms (VTIM_parse of lib/vtim.c). */
module Vtim {
  import opened Options
  import opened Words
  import opened Ascii
  import opened Texts
  import opened Calendar

  const WEEKDAYS: seq<seq<byte>> := [
    [0x53, 0x75, 0x6e],
    [0x4d, 0x6f, 0x6e],
    [0x54, 0x75, 0x65],
    [0x57, 0x65, 0x64],
    [0x54, 0x68, 0x75],
    [0x46, 0x72, 0x69],
    [0x53, 0x61, 0x74]]

  /** What follows of the full names of the days. */
  const MORE: seq<seq<byte>> := [
    [0x64, 0x61, 0x79],
    [0x64, 0x61, 0x79],
    [0x73, 0x64, 0x61, 0x79],
    [0x6e, 0x65, 0x73, 0x64, 0x61, 0x79],
    [0x72, 0x73, 0x64, 0x61, 0x79],
    [0x64, 0x61, 0x79],
    [0x75, 0x72, 0x64, 0x61, 0x79]]

  const MONTHS: seq<seq<byte>> := [
    [0x4a, 0x61, 0x6e],
    [0x46, 0x65, 0x62],
    [0x4d, 0x61, 0x72],
    [0x41, 0x70, 0x72],
    [0x4d, 0x61, 0x79],
    [0x4a, 0x75, 0x6e],
    [0x4a, 0x75, 0x6c],
    [0x41, 0x75, 0x67],
    [0x53, 0x65, 0x70],
    [0x4f, 0x63, 0x74],
    [0x4e, 0x6f, 0x76],
    [0x44, 0x65, 0x63]]

  const GMT: seq<byte> := [0x20, 0x47, 0x4d, 0x54]
  const COLON: byte := 0x3a
  const DASH: byte := 0x2d

  // ------------------------------------------------ parts of a text

  function SkipSpaces(t: seq<byte>, i: nat): (j: nat)
    requires i <= |t|
    ensures i <= j <= |t| && At(t, j) != SPACE && forall k :: i <= k < j ==> t[k] == SPACE
    decreases |t| - i
  {
    if At(t, i) == SPACE then SkipSpaces(t, i + 1) else i
  }

  predicate AreDigits(t: seq<byte>, i: nat, n: nat) {
    n == 0 || (AreDigits(t, i, n - 1) && IsDigit(At(t, i + n - 1)))
  }

  function NumAt(t: seq<byte>, i: nat, n: nat): nat
    requires AreDigits(t, i, n)
  {
    if n == 0 then 0 else 10 * NumAt(t, i, n - 1) + (At(t, i + n - 1) - ZERO)
  }

  /** The first of `names` that stands at `i`. */
  function NameAt(t: seq<byte>, i: nat, names: seq<seq<byte>>, k: nat): (r: Option<nat>)
    requires k <= |names|
    ensures r.Some? ==> r.value < |names| && Spells(t, i, names[r.value])
    decreases |names| - k
  {
    if k == |names| then None
    else if Spells(t, i, names[k]) then Some(k)
    else NameAt(t, i, names, k + 1)
  }

  /** hh:mm:ss */
  predicate TimeAt(t: seq<byte>, i: nat) {
    && AreDigits(t, i, 2) && At(t, i + 2) == COLON && AreDigits(t, i + 3, 2)
    && At(t, i + 5) == COLON && AreDigits(t, i + 6, 2)
  }

  function WithTime(t: seq<byte>, i: nat, year: int, month: int, day: int): Civil
    requires TimeAt(t, i)
  {
    Civil(year, month, day, NumAt(t, i, 2), NumAt(t, i + 3, 2), NumAt(t, i + 6, 2))
  }

  /** What a text says, and where it ends. */
  datatype Found = Found(c: Civil, next: nat) | NotFound

  /** 1994-11-06T08:49:37 */
  function Iso(t: seq<byte>, i: nat): Found {
    if AreDigits(t, i, 4) && At(t, i + 4) == DASH && AreDigits(t, i + 5, 2) && At(t, i + 7) == DASH
      && AreDigits(t, i + 8, 2) && At(t, i + 10) == 0x54 && TimeAt(t, i + 11)
    then Found(WithTime(t, i + 11, NumAt(t, i, 4), NumAt(t, i + 5, 2), NumAt(t, i + 8, 2)), i + 19)
    else NotFound
  }

  /** From behind the day of the month: " Nov 1994 08:49:37 GMT". */
  function Rest1123(t: seq<byte>, i: nat, day: int): Found {
    var month := NameAt(t, i + 1, MONTHS, 0);
    if At(t, i) == SPACE && month.Some? && At(t, i + 4) == SPACE && AreDigits(t, i + 5, 4) && At(t, i + 9) == SPACE
      && TimeAt(t, i + 10) && Spells(t, i + 18, GMT)
    then Found(WithTime(t, i + 10, NumAt(t, i + 5, 4), month.value + 1, day), i + 22)
    else NotFound
  }

  /** From behind the name of the day: ", 06 Nov 1994 08:49:37 GMT"; a day of one digit if `postel` is set. */
  function Rfc1123(t: seq<byte>, i: nat, postel: bool): Found {
    if At(t, i) != COMMA || At(t, i + 1) != SPACE then NotFound
    else if postel && At(t, i + 2) != 0 && At(t, i + 3) == SPACE then
      if AreDigits(t, i + 2, 1) then Rest1123(t, i + 3, NumAt(t, i + 2, 1)) else NotFound
    else if AreDigits(t, i + 2, 2) then Rest1123(t, i + 4, NumAt(t, i + 2, 2))
    else NotFound
  }

  /** From behind the name of the day: " Nov  6 08:49:37 1994". */
  function Asctime(t: seq<byte>, i: nat): Found {
    var month := NameAt(t, i + 1, MONTHS, 0);
    if At(t, i) == SPACE && month.Some? && At(t, i + 4) == SPACE
      && (if At(t, i + 5) == SPACE then AreDigits(t, i + 6, 1) else AreDigits(t, i + 5, 2))
      && At(t, i + 7) == SPACE && TimeAt(t, i + 8) && At(t, i + 16) == SPACE && AreDigits(t, i + 17, 4)
    then
      var day := if At(t, i + 5) == SPACE then NumAt(t, i + 6, 1) else NumAt(t, i + 5, 2);
      Found(WithTime(t, i + 8, NumAt(t, i + 17, 4), month.value + 1, day), i + 21)
    else NotFound
  }

  /** Two digits stand for a year from 1969 to 2068. */
  function FullYear(y: nat): int {
    if y + 1900 < 1969 then y + 2000 else y + 1900
  }

  /** From behind the full name of the day: ", 06-Nov-94 08:49:37 GMT". */
  function Rfc850(t: seq<byte>, i: nat): Found {
    var month := NameAt(t, i + 5, MONTHS, 0);
    if At(t, i) == COMMA && At(t, i + 1) == SPACE && AreDigits(t, i + 2, 2) && At(t, i + 4) == DASH && month.Some?
      && At(t, i + 8) == DASH && AreDigits(t, i + 9, 2) && At(t, i + 11) == SPACE && TimeAt(t, i + 12)
      && Spells(t, i + 20, GMT)
    then Found(WithTime(t, i + 12, FullYear(NumAt(t, i + 9, 2)), month.value + 1, NumAt(t, i + 2, 2)), i + 24)
    else NotFound
  }

  // ------------------------------------------------ what is accepted

  predicate WithinRange(c: Civil) {
    && c.sec <= 60 && c.min <= 59 && c.hour <= 23 && 1 <= c.month <= 12
    && 1 <= c.day <= [31, 29, 31, 30, 31, 30, 31, 31, 30, 31, 30, 31][c.month - 1]
    && c.year >= 1899 && !(c.month == 2 && c.day > 28 && !IsLeap(c.year))
  }

  /** The checks and the sums at the end of VTIM_parse. */
  function Judge(c: Civil, weekday: Option<nat>): Option<int> {
    if !WithinRange(c) then None
    else
      var d := CodeDays(c.year, c.month, c.day);
      if weekday.Some? && (d + 6 + 7 * 10000) % 7 != weekday.value then None
      else Some((c.hour * 60 + c.min) * 60 + (if c.sec == 60 then 59 else c.sec) + d * 86400 + 10957 * 86400)
  }

  /** A date is accepted exactly when it exists and any weekday given is the true one; the result
      is its distance from the epoch by the calendar. */
  lemma JudgedRight(c: Civil, weekday: Option<nat>)
    requires c.hour >= 0 && c.min >= 0 && c.sec >= 0
    ensures Judge(c, weekday) ==
      if c.year >= 1899 && Exists(c) && (weekday.None? || weekday.value == Weekday(DayNumber(c.year, c.month, c.day)))
      then Some(Seconds(c)) else None
  {
    hide CodeDays, DayNumber;
    if WithinRange(c) { DaysRight(c.year, c.month, c.day); }
  }

  /** VTIM_parse; None is the 0 it returns on failure. */
  function Parse(t: seq<byte>, postel: bool): Option<int> {
    var i := SkipSpaces(t, 0);
    if IsDigit(At(t, i)) then Ended(t, Iso(t, i), None)
    else
      var wd := NameAt(t, i, WEEKDAYS, 0);
      if wd.None? then None
      else if At(t, i + 3) == COMMA then Ended(t, Rfc1123(t, i + 3, postel), wd)
      else if At(t, i + 3) == SPACE then Ended(t, Asctime(t, i + 3), wd)
      else if Spells(t, i + 3, MORE[wd.value]) then Ended(t, Rfc850(t, i + 3 + |MORE[wd.value]|), wd)
      else None
  }

  /** Nothing but spaces may follow. */
  function Ended(t: seq<byte>, f: Found, wd: Option<nat>): Option<int> {
    if f.NotFound? || f.next > |t| || At(t, SkipSpaces(t, f.next)) != 0 then None else Judge(f.c, wd)
  }

  // ------------------------------------------------ the code's way through a text

  /** The pointer of VTIM_parse.  `ok` is cleared where the code returns at once. */
  class Scanner {
    const text: seq<byte>
    var p: nat
    var ok: bool

    constructor (text: seq<byte>)
      ensures this.text == text && p == 0 && ok
    {
      this.text, p, ok := text, 0, true;
    }

    method SkipSpace()
      requires p <= |text|
      modifies `p
      ensures p == SkipSpaces(text, old(p))
    {
      while At(text, p) == SPACE
        invariant p <= |text| && SkipSpaces(text, p) == SkipSpaces(text, old(p))
        decreases |text| - p
      {
        p := p + 1;
      }
    }

    /** MUSTBE */
    method MustBe(c: byte)
      requires c != 0
      modifies this
      ensures ok == (old(ok) && At(text, old(p)) == c)
      ensures ok ==> p == old(p) + 1 <= |text|
    {
      if ok {
        ok := At(text, p) == c;
        p := p + 1;
      }
    }

    /** `n` times DIGIT, with falling powers of ten. */
    method Number(n: nat) returns (v: nat)
      modifies this
      ensures ok == (old(ok) && AreDigits(text, old(p), n))
      ensures ok ==> p == old(p) + n && v == NumAt(text, old(p), n)
      ensures ok && n > 0 ==> p <= |text|
    {
      v := 0;
      var k, start := 0, p;
      while k < n && ok
        invariant 0 <= k <= n
        invariant ok ==> old(ok) && p == start + k && (k > 0 ==> p <= |text|)
        invariant ok ==> AreDigits(text, start, k) && v == NumAt(text, start, k)
        invariant !ok ==> !(old(ok) && AreDigits(text, start, n))
        decreases n - k
      {
        if IsDigit(At(text, p)) {
          v := 10 * v + (At(text, p) - ZERO);
          p := p + 1;
        } else {
          ok := false;
          NotAllDigits(text, start, k, n);
        }
        k := k + 1;
      }
    }

    /** WEEKDAY and MONTH */
    method Name(names: seq<seq<byte>>) returns (r: nat)
      requires forall k :: 0 <= k < |names| ==> |names[k]| == 3
      modifies this
      ensures ok == (old(ok) && NameAt(text, old(p), names, 0).Some?)
      ensures ok ==> p == old(p) + 3 <= |text| && NameAt(text, old(p), names, 0) == Some(r)
    {
      r := 0;
      while r < |names| && !Spells(text, p, names[r])
        invariant 0 <= r <= |names| && NameAt(text, p, names, 0) == NameAt(text, p, names, r)
      {
        r := r + 1;
      }
      if ok {
        ok := r < |names|;
        p := p + 3;
      }
    }

    /** TIMESTAMP */
    method Time() returns (hour: nat, min: nat, sec: nat)
      modifies this
      ensures ok == (old(ok) && TimeAt(text, old(p)))
      ensures ok ==> p == old(p) + 8 <= |text|
      ensures ok ==> forall y, m, d :: WithTime(text, old(p), y, m, d) == Civil(y, m, d, hour, min, sec)
    {
      hide AreDigits, NumAt;
      hour := Number(2);
      MustBe(COLON);
      min := Number(2);
      MustBe(COLON);
      sec := Number(2);
    }

    method Word(w: seq<byte>)
      requires |w| > 0 && forall k :: 0 <= k < |w| ==> w[k] != 0
      modifies this
      ensures ok == (old(ok) && Spells(text, old(p), w))
      ensures ok ==> p == old(p) + |w| <= |text|
    {
      var k, start := 0, p;
      while k < |w|
        invariant 0 <= k <= |w|
        invariant ok ==>
          old(ok) && p == start + k && (k > 0 ==> p <= |text|) && (p <= |text| ==> text[start..p] == w[..k])
        invariant !ok ==> !(old(ok) && Spells(text, start, w))
      {
        NotSpelled(text, start, w, k);
        if ok && At(text, p) == w[k] { SpelledMore(text, start, w, k); }
        MustBe(w[k]);
        k := k + 1;
      }
      assert w[..k] == w;
    }
  
    method ReadIso() returns (c: Civil)
      requires ok && p <= |text|
      modifies this
      ensures if ok then Iso(text, old(p)) == Found(c, p) && p <= |text| else Iso(text, old(p)).NotFound?
    {
      hide AreDigits, NumAt, TimeAt, WithTime;
      var year := Number(4);
      MustBe(DASH);
      var month := Number(2);
      MustBe(DASH);
      var day := Number(2);
      MustBe(0x54);
      var hour, min, sec := Time();
      c := Civil(year, month, day, hour, min, sec);
    }

    method ReadRest1123(day: int) returns (c: Civil)
      modifies this
      ensures if ok then old(ok) && Rest1123(text, old(p), day) == Found(c, p) && p <= |text|
        else !old(ok) || Rest1123(text, old(p), day).NotFound?
    {
      hide AreDigits, NumAt, TimeAt, WithTime, NameAt, Spells;
      MustBe(SPACE);
      var month := Name(MONTHS);
      MustBe(SPACE);
      var year := Number(4);
      MustBe(SPACE);
      var hour, min, sec := Time();
      Word(GMT);
      c := Civil(year, month + 1, day, hour, min, sec);
    }

    method ReadRfc1123(postel: bool) returns (c: Civil)
      requires ok && At(text, p) == COMMA
      modifies this
      ensures if ok then Rfc1123(text, old(p), postel) == Found(c, p) && p <= |text|
        else Rfc1123(text, old(p), postel).NotFound?
    {
      hide AreDigits, NumAt, Rest1123;
      p := p + 1;
      MustBe(SPACE);
      var day;
      if postel && At(text, p) != 0 && At(text, p + 1) == SPACE {
        day := Number(1);
      } else {
        day := Number(2);
      }
      c := ReadRest1123(day);
    }

    method ReadAsctime() returns (c: Civil)
      requires ok && At(text, p) == SPACE
      modifies this
      ensures if ok then Asctime(text, old(p)) == Found(c, p) && p <= |text| else Asctime(text, old(p)).NotFound?
    {
      hide TimeAt, WithTime, NameAt, AreDigits, NumAt;
      p := p + 1;
      var month := Name(MONTHS);
      MustBe(SPACE);
      var day := ReadPadded();
      MustBe(SPACE);
      var hour, min, sec := Time();
      MustBe(SPACE);
      var year := Number(4);
      c := Civil(year, month + 1, day, hour, min, sec);
    }

    /** A day of the month in two places, the first of which may be blank. */
    method ReadPadded() returns (v: nat)
      modifies this
      ensures ok == (old(ok) && if At(text, old(p)) == SPACE then AreDigits(text, old(p) + 1, 1)
        else AreDigits(text, old(p), 2))
      ensures ok ==> p == old(p) + 2 <= |text| && v == if At(text, old(p)) == SPACE then NumAt(text, old(p) + 1, 1)
        else NumAt(text, old(p), 2)
    {
      v := 0;
      if !ok {
        return;
      }
      if At(text, p) != SPACE {
        v := Number(2);
      } else {
        p := p + 1;
        v := Number(1);
      }
    }

    method ReadRfc850() returns (c: Civil)
      requires ok
      modifies this
      ensures if ok then Rfc850(text, old(p)) == Found(c, p) && p <= |text| else Rfc850(text, old(p)).NotFound?
    {
      hide AreDigits, NumAt, TimeAt, WithTime, NameAt, Spells;
      MustBe(COMMA);
      MustBe(SPACE);
      var day := Number(2);
      MustBe(DASH);
      var month := Name(MONTHS);
      MustBe(DASH);
      var y := Number(2);
      var year := y + 1900;
      if year < 1969 {
        year := year + 100;
      }
      MustBe(SPACE);
      var hour, min, sec := Time();
      Word(GMT);
      c := Civil(year, month + 1, day, hour, min, sec);
    }
  }

  /** VTIM_parse */
  method ParseDate(text: seq<byte>, postel: bool) returns (r: Option<int>)
    ensures r == Parse(text, postel)
  {
    hide Iso, Rfc1123, Asctime, Rfc850, SkipSpaces, NameAt, Judge, Spells;
    var s := new Scanner(text);
    s.SkipSpace();
    var i := s.p;
    var c;
    var weekday: Option<nat> := None;
    if IsDigit(At(text, i)) {
      c := s.ReadIso();
    } else {
      var wd := s.Name(WEEKDAYS);
      if !s.ok {
        return None;
      }
      weekday := Some(wd);
      if At(text, s.p) == COMMA {
        c := s.ReadRfc1123(postel);
      } else if At(text, s.p) == SPACE {
        c := s.ReadAsctime();
      } else if Spells(text, s.p, MORE[wd]) {
        s.p := s.p + |MORE[wd]|;
        c := s.ReadRfc850();
      } else {
        return None;
      }
    }
    if !s.ok {
      return None;
    }
    s.SkipSpace();
    if At(text, s.p) != 0 {
      return None;
    }
    r := Sum(c, weekday);
  }

  /** The last part of VTIM_parse, step by step. */
  method Sum(c: Civil, weekday: Option<nat>) returns (r: Option<int>)
    ensures r == Judge(c, weekday)
  {
    if c.sec > 60 || c.min > 59 || c.hour > 23 || c.month < 1 || c.month > 12 {
      return None;
    }
    if c.day < 1 || c.day > [31, 29, 31, 30, 31, 30, 31, 31, 30, 31, 30, 31][c.month - 1] || c.year < 1899 {
      return None;
    }
    var leap := c.year % 4 == 0 && (c.year % 100 != 0 || c.year % 400 == 0);
    if c.month == 2 && c.day > 28 && !leap {
      return None;
    }
    var sec := if c.sec == 60 then c.sec - 1 else c.sec;
    var t := (c.hour * 60 + c.min) * 60 + sec;
    var d := (c.day - 1) + DaysBeforeMonth(c.month);
    if c.month > 2 && leap {
      d := d + 1;
    }
    d := d + c.year % 100 * 365;
    if c.year % 100 > 0 {
      d := d + (c.year % 100 - 1) / 4;
    }
    d := d + (c.year / 100 - 20) * (100 * 365 + 24);
    d := d + ((c.year - 1) / 400 - 4);
    NoNegativeModulus(c.year, c.month, c.day);
    assert d + 6 + 7 * 10000 >= 0;
    if weekday.Some? && (d + 6 + 7 * 10000) % 7 != weekday.value {
      return None;
    }
    t := t + d * 86400;
    t := t + 10957 * 86400;
    return Some(t);
  }

  /** The remainder is never that of a negative number. */
  lemma NoNegativeModulus(y: int, m: int, d: int)
    requires y >= 1899 && 1 <= m <= 12 && d >= 1
    ensures CodeDays(y, m, d) + 6 + 7 * 10000 >= 0
  {
    hide DaysToYear, YearDays, YearLength;
    YearsRight(y);
    YearsRight(1899);
    YearsGrow(1899, y);
    assert YearDays(1899) == -36889 by { In1899(); }
  }

  lemma In1899()
    ensures YearDays(1899) == -36889
  {}

  lemma {:induction false} NotAllDigits(t: seq<byte>, i: nat, k: nat, n: nat)
    requires k < n && !IsDigit(At(t, i + k))
    ensures !AreDigits(t, i, n)
  {
    if k < n - 1 { NotAllDigits(t, i, k, n - 1); }
  }
}
