/** Julian days and time adjustment (crypto/o_time.c), in C's truncating division. */
module Calendar {
  // C division: toward zero
  function Div(a: int, b: int): int
    requires b > 0
  {
    if a >= 0 then a / b else -((-a) / b)
  }

  datatype Date = Date(y: int, m: int, d: int)

  // date_to_julian
  function ToJulian(t: Date): int {
    var a := Div(t.m - 14, 12);
    Div(1461 * (t.y + 4800 + a), 4) + Div(367 * (t.m - 2 - 12 * a), 12) - Div(3 * Div(t.y + 4900 + a, 100), 4) + t.d - 32075
  }

  // julian_to_date
  method JulianToDate(jd: int) returns (y: int, m: int, d: int)
    ensures Date(y, m, d) == FromJulian(jd)
  {
    hide Div;
    var l := jd + 68569;
    var n := Div(4 * l, 146097);
    l := l - Div(146097 * n + 3, 4);
    var i := Div(4000 * (l + 1), 1461001);
    l := l - Div(1461 * i, 4) + 31;
    var j := Div(80 * l, 2447);
    d := l - Div(2447 * j, 80);
    l := Div(j, 11);
    m := j + 2 - 12 * l;
    y := 100 * (n - 49) + i + l;
  }

  function FromJulian(jd: int): Date {
    var l := jd + 68569;
    var n := Div(4 * l, 146097);
    var l2 := l - Div(146097 * n + 3, 4);
    var i := Div(4000 * (l2 + 1), 1461001);
    var l3 := l2 - Div(1461 * i, 4) + 31;
    var j := Div(80 * l3, 2447);
    Date(100 * (n - 49) + i + Div(j, 11), j + 2 - 12 * Div(j, 11), l3 - Div(2447 * j, 80))
  }

  // ---------- the Gregorian calendar ----------

  predicate Leap(y: int) { y % 4 == 0 && (y % 100 != 0 || y % 400 == 0) }

  function MonthDays(y: int, m: int): int {
    if m == 2 then (if Leap(y) then 29 else 28) else if m == 4 || m == 6 || m == 9 || m == 11 then 30 else 31
  }

  predicate ValidDate(t: Date) { 1 <= t.m <= 12 && 1 <= t.d <= MonthDays(t.y, t.m) }

  // ---------- counting from 1 March ----------

  // Days before century n, before year i of a century, before month j of a year (March is 1), less 30.
  function Centuries(n: int): int { (146097 * n + 3) / 4 }

  function Years(i: int): int { 1461 * i / 4 }

  function Months(j: int): int { 2447 * j / 80 }

  // A day as century, year, month and day of the March calendar.
  predicate Place(l: int, n: int, i: int, j: int, d: int) {
    && n >= 0 && 0 <= i < 100 && 1 <= j <= 12 && d >= 1
    && l == Centuries(n) + Years(i) + Months(j) + d - 31
    && Months(j) + d <= Months(j + 1)
    && Years(i) + Months(j) + d - 31 < Years(i + 1)
    && Centuries(n) + Years(i) + Months(j) + d - 31 < Centuries(n + 1)
  }

  lemma CenturyOf(l: int, n: int)
    requires l >= 0 && n == 4 * l / 146097
    ensures n >= 0 && Centuries(n) <= l < Centuries(n + 1)
  {}

  lemma CenturyLength(n: int)
    requires n >= 0
    ensures Centuries(n + 1) - Centuries(n) == if n % 4 == 0 then 36525 else 36524
  {
    var k := n / 4;
    assert n == 4 * k + n % 4;
    assert Centuries(n) == 146097 * k + Centuries(n % 4);
  }

  lemma YearSplit(i: int)
    requires i >= 0
    ensures Years(i) == 1461 * (i / 4) + (if i % 4 == 0 then 0 else if i % 4 == 1 then 365 else if i % 4 == 2 then 730 else 1095)
  {}

  lemma YearOf(l2: int, i: int)
    requires 0 <= l2 < 36525 && i == 4000 * (l2 + 1) / 1461001
    ensures 0 <= i < 100 && Years(i) <= l2 < Years(i + 1)
  {
    YearSplit(i);
    YearSplit(i + 1);
  }

  lemma MonthOf(l3: int, j: int)
    requires 31 <= l3 <= 396 && j == 80 * l3 / 2447
    ensures 1 <= j <= 12 && Months(j) < l3 <= Months(j + 1)
  {}

  // The three divisions of julian_to_date find the place of a day.
  lemma PlaceOf(jd: int) returns (n: int, i: int, j: int, d: int)
    requires jd >= 0
    ensures Place(jd + 68569, n, i, j, d)
    ensures FromJulian(jd) == Date(100 * (n - 49) + i + j / 11, j + 2 - 12 * (j / 11), d)
  {
    var l := jd + 68569;
    n := 4 * l / 146097;
    CenturyOf(l, n);
    CenturyLength(n);
    var l2 := l - Centuries(n);
    i := 4000 * (l2 + 1) / 1461001;
    YearOf(l2, i);
    YearSplit(i);
    YearSplit(i + 1);
    var l3 := l2 - Years(i) + 31;
    j := 80 * l3 / 2447;
    MonthOf(l3, j);
    d := l3 - Months(j);
    DivisionsOf(jd, n, l2, i, l3, j);
  }

  // On days from 0 on the truncating divisions are Euclidean.
  lemma DivisionsOf(jd: int, n: int, l2: int, i: int, l3: int, j: int)
    requires jd >= 0 && n == 4 * (jd + 68569) / 146097 && l2 == jd + 68569 - Centuries(n) && 0 <= l2 < 36525
    requires i == 4000 * (l2 + 1) / 1461001 && i >= 0 && l3 == l2 - Years(i) + 31 && l3 >= 31 && j == 80 * l3 / 2447 && j >= 1
    ensures FromJulian(jd) == Date(100 * (n - 49) + i + j / 11, j + 2 - 12 * (j / 11), l3 - Months(j))
  {}

  // A day has one place.
  lemma PlaceUnique(l: int, n: int, i: int, j: int, d: int, n': int, i': int, j': int, d': int)
    requires Place(l, n, i, j, d) && Place(l, n', i', j', d')
    ensures n == n' && i == i' && j == j' && d == d'
  {
    MonthsMono(j, j');
    CenturiesMono(n, n');
    YearsMono(i, i');
    CenturiesMono(n', n);
    YearsMono(i', i);
    MonthsMono(j', j);
    YearStart(i, j, d);
    YearStart(i', j', d');
  }

  lemma YearStart(i: int, j: int, d: int)
    requires i >= 0 && 1 <= j && d >= 1
    ensures Years(i) + Months(j) + d - 31 >= 0
  {}

  lemma CenturiesMono(n: int, n': int)
    ensures n < n' ==> Centuries(n + 1) <= Centuries(n')
  {}

  lemma YearsMono(i: int, i': int)
    ensures i < i' ==> Years(i + 1) <= Years(i')
  {}

  lemma MonthsMono(j: int, j': int)
    ensures j < j' ==> Months(j + 1) <= Months(j')
  {}

  // ---------- dates and places ----------

  // The March year, century and month of a date.
  function March(t: Date): (int, int, int)
    requires 1 <= t.m <= 12
  {
    var a := if t.m <= 2 then -1 else 0;
    var y := t.y + 4800 + a;
    (y / 100 + 1, y % 100, t.m - 2 - 12 * a)
  }

  lemma MonthTable(j: int)
    requires 1 <= j <= 12
    ensures 367 * j / 12 == Months(j)
    ensures j < 12 ==> Months(j + 1) - Months(j) == if j == 2 || j == 4 || j == 7 || j == 9 then 30 else 31
  {}

  // date_to_julian counts the days before the place.
  lemma JulianOfPlace(t: Date)
    requires 1 <= t.m <= 12 && t.y + 4800 + (if t.m <= 2 then -1 else 0) >= 0
    ensures var (n, i, j) := March(t); n >= 1 && 0 <= i < 100 && 1 <= j <= 12 && ToJulian(t) + 68569 == Centuries(n) + Years(i) + Months(j) + t.d - 31
  {
    var a := if t.m <= 2 then -1 else 0;
    assert Div(t.m - 14, 12) == a;
    var y := t.y + 4800 + a;
    var (n, i, j) := March(t);
    MonthTable(j);
    assert y == 100 * (n - 1) + i;
    assert Div(1461 * y, 4) == 36525 * (n - 1) + Years(i);
    assert Div(t.y + 4900 + a, 100) == n;
    assert Centuries(n) == 36525 * n - 3 * n / 4;
  }

  // Whether the March year is followed by a leap day.
  lemma LeapLength(y: int)
    requires y + 4800 >= 0
    ensures var n, i := (y + 4799) / 100 + 1, (y + 4799) % 100;
            Leap(y) <==> Years(i + 1) - Years(i) == 366 && (i == 99 ==> Centuries(n + 1) - Centuries(n) == 36525)
  {
    var n, i := (y + 4799) / 100 + 1, (y + 4799) % 100;
    YearSplit(i);
    YearSplit(i + 1);
    assert y == 100 * (n - 49) + i + 1;
    assert n >= 0;
    CenturyLength(n);
    FourthYear(n, i, y);
  }

  lemma FourthYear(n: int, i: int, y: int)
    requires 0 <= i < 100 && y == 100 * (n - 49) + i + 1
    ensures y % 4 == (i + 1) % 4 && (y % 100 == 0 <==> i == 99) && (i == 99 ==> (y % 400 == 0 <==> n % 4 == 0))
  {
    Modulo4(i + 1, 25 * (n - 49));
    Modulo100(i + 1, n - 49);
    if i == 99 {
      var a, r := (n - 48) / 4, (n - 48) % 4;
      assert y == 400 * a + 100 * r;
      Modulo400(100 * r, a);
      Modulo4(n - 48, 12);
    }
  }

  lemma Modulo4(c: int, k: int)
    ensures (c + 4 * k) % 4 == c % 4
  {}

  lemma Modulo100(c: int, k: int)
    requires 0 < c <= 100
    ensures (100 * k + c) % 100 == 0 <==> c == 100
  {}

  lemma Modulo400(c: int, k: int)
    requires 0 <= c < 400
    ensures (400 * k + c) % 400 == c
  {}

  // A date is valid exactly when its March numbers are a place.
  lemma ValidIsPlace(t: Date)
    requires 1 <= t.m <= 12 && t.y + 4800 + (if t.m <= 2 then -1 else 0) >= 0
    ensures var (n, i, j) := March(t);
            ValidDate(t) <==> Place(Centuries(n) + Years(i) + Months(j) + t.d - 31, n, i, j, t.d)
  {
    var (n, i, j) := March(t);
    MonthTable(j);
    YearSplit(i);
    YearSplit(i + 1);
    CenturyLength(n);
    if t.m == 2 { LeapLength(t.y); }
    assert Months(12) == 367 && Months(13) == 397;
    YearsUpTo(i);
  }

  lemma YearsUpTo(i: int)
    requires 0 <= i < 100
    ensures i < 99 ==> Years(i + 1) <= 36159
    ensures i == 99 ==> Years(i) == 36159
  {}

  /** A day is after the start of the March year 0 for every date in range. */
  lemma EarlyDates(t: Date)
    requires ValidDate(t) && ToJulian(t) >= 0
    ensures t.y + 4800 + (if t.m <= 2 then -1 else 0) >= 0
  {
    var a := if t.m <= 2 then -1 else 0;
    var y := t.y + 4800 + a;
    assert Div(t.m - 14, 12) == a;
    if y < 0 { NegativeYears(y, t.m - 2 - 12 * a, t.d); }
  }

  lemma NegativeYears(y: int, j: int, d: int)
    requires y < 0 && 1 <= j <= 12 && d <= 31
    ensures Div(1461 * y, 4) + Div(367 * j, 12) - Div(3 * Div(y + 100, 100), 4) + d - 32075 < 0
  {
    var c := Div(y + 100, 100);
    assert Div(1461 * y, 4) <= 365 * y + 1;
    assert c >= y;
    assert Div(3 * c, 4) >= y;
  }

  // ---------- the days in order ----------

  function NextDate(t: Date): Date {
    if t.d < MonthDays(t.y, t.m) then Date(t.y, t.m, t.d + 1)
    else if t.m < 12 then Date(t.y, t.m + 1, 1)
    else Date(t.y + 1, 1, 1)
  }

  // The month ends: the next March numbers.
  lemma NextMonth(t: Date)
    requires ValidDate(t) && t.d == MonthDays(t.y, t.m) && t.y + 4800 + (if t.m <= 2 then -1 else 0) >= 0
    ensures var t' := NextDate(t); var (n, i, j), (n', i', j') := March(t), March(t');
            if t.m != 2 then j < 12 && n' == n && i' == i && j' == j + 1
            else j == 12 && j' == 1 && if i < 99 then n' == n && i' == i + 1 else n' == n + 1 && i' == 0
  {
    if t.m == 2 {
      var y := t.y + 4799;
      NextCentury(y);
    }
  }

  lemma NextCentury(y: int)
    requires y >= 0
    ensures if y % 100 < 99 then (y + 1) / 100 == y / 100 && (y + 1) % 100 == y % 100 + 1 else (y + 1) / 100 == y / 100 + 1 && (y + 1) % 100 == 0
  {}

  /** The day number grows by one from each valid date to the next. */
  lemma NextDay(t: Date)
    requires ValidDate(t) && ToJulian(t) >= 0
    ensures ValidDate(NextDate(t)) && ToJulian(NextDate(t)) == ToJulian(t) + 1
  {
    hide ToJulian, March, Centuries, Leap, Years, Months;
    EarlyDates(t);
    var t' := NextDate(t);
    JulianOfPlace(t);
    NextMonths(t);
    JulianOfPlace(t');
    if t.d < MonthDays(t.y, t.m) {
      SameMonth(t);
    } else {
      NextMonth(t);
      MonthTable(March(t).2);
      if t.m == 2 {
        FebruaryEnd(t, March(t).0, March(t).1);
      } else {
        MonthLengths(t);
      }
    }
  }

  lemma NextMonths(t: Date)
    requires ValidDate(t) && t.y + 4800 + (if t.m <= 2 then -1 else 0) >= 0
    ensures var t' := NextDate(t); ValidDate(t') && t'.y + 4800 + (if t'.m <= 2 then -1 else 0) >= 0
  {}

  lemma SameMonth(t: Date)
    requires ValidDate(t) && t.d < MonthDays(t.y, t.m)
    ensures March(NextDate(t)) == March(t) && NextDate(t).d == t.d + 1
  {}

  // The March months have the lengths of their months.
  lemma MonthLengths(t: Date)
    requires 1 <= t.m <= 12 && t.m != 2
    ensures var j := March(t).2; MonthDays(t.y, t.m) == if j == 2 || j == 4 || j == 7 || j == 9 then 30 else 31
  {}

  lemma FebruaryEnd(t: Date, n: int, i: int)
    requires t.m == 2 && t.y + 4799 >= 0 && (n, i, 12) == March(t) && t.d == MonthDays(t.y, 2)
    ensures Months(1) == 30 && Months(12) == 367 && Years(0) == 0
    ensures if i < 99 then Years(i + 1) - Years(i) == t.d + 337 else Centuries(n + 1) - Centuries(n) - Years(i) == t.d + 337
  {
    LeapLength(t.y);
    YearSplit(i);
    YearSplit(i + 1);
    YearsUpTo(i);
    CenturyLength(n);
  }

  /** Day 0 of the seconds count has the Julian number 2440588. */
  lemma EpochDay()
    ensures ToJulian(Date(1970, 1, 1)) == 2440588
  {
    JulianOfPlace(Date(1970, 1, 1));
    EpochMarch();
    hide ToJulian, March;
  }

  lemma EpochMarch()
    ensures March(Date(1970, 1, 1)) == (68, 69, 11) && Centuries(68) == 2483649 && Years(69) == 25202 && Months(11) == 336
  {}

  /** julian_to_date gives a valid date and date_to_julian takes it back, for every day from 0 on. */
  lemma {:induction false} DayRoundTrip(jd: int)
    requires jd >= 0
    ensures ValidDate(FromJulian(jd)) && ToJulian(FromJulian(jd)) == jd
  {
    hide FromJulian, ToJulian, ValidDate;
    var n, i, j, d := PlaceOf(jd);
    var t := FromJulian(jd);
    CenturyAtLeastOne(jd, n, i, j, d);
    MarchOfPlace(t, n, i, j, d);
    JulianOfPlace(t);
    ValidIsPlace(t);
  }

  lemma CenturyAtLeastOne(jd: int, n: int, i: int, j: int, d: int)
    requires jd >= 0 && Place(jd + 68569, n, i, j, d)
    ensures n >= 1
  {}

  lemma MarchOfPlace(t: Date, n: int, i: int, j: int, d: int)
    requires n >= 1 && 0 <= i < 100 && 1 <= j <= 12 && t == Date(100 * (n - 49) + i + j / 11, j + 2 - 12 * (j / 11), d)
    ensures 1 <= t.m <= 12 && March(t) == (n, i, j) && t.y + 4800 + (if t.m <= 2 then -1 else 0) >= 0
  {
    assert j / 11 == if j >= 11 then 1 else 0;
    assert t.y + 4800 + (if t.m <= 2 then -1 else 0) == 100 * (n - 1) + i;
  }

  /** date_to_julian loses nothing: julian_to_date gives back every valid date from day 0 on. */
  lemma {:induction false} DateRoundTrip(t: Date)
    requires ValidDate(t) && ToJulian(t) >= 0
    ensures FromJulian(ToJulian(t)) == t
  {
    hide FromJulian, ToJulian;
    EarlyDates(t);
    JulianOfPlace(t);
    ValidIsPlace(t);
    var (n, i, j) := March(t);
    var n', i', j', d' := PlaceOf(ToJulian(t));
    PlaceUnique(ToJulian(t) + 68569, n, i, j, t.d, n', i', j', d');
    DateOfMarch(t);
  }

  lemma DateOfMarch(t: Date)
    requires 1 <= t.m <= 12
    ensures var (n, i, j) := March(t); t == Date(100 * (n - 49) + i + j / 11, j + 2 - 12 * (j / 11), t.d)
  {
    var a := if t.m <= 2 then -1 else 0;
    var y := t.y + 4800 + a;
    assert y == 100 * (y / 100) + y % 100;
    var j := t.m - 2 - 12 * a;
    assert j / 11 == if j >= 11 then 1 else 0;
  }

  // ---------- adjusting a time ----------

  const DAY := 86400

  class Tm {
    var year: int   // since 1900
    var mon: int    // from 0
    var mday: int
    var hour: int
    var min: int
    var sec: int

    constructor (year: int, mon: int, mday: int, hour: int, min: int, sec: int)
      ensures this.year == year && this.mon == mon && this.mday == mday && this.hour == hour && this.min == min && this.sec == sec
    {
      this.year, this.mon, this.mday, this.hour, this.min, this.sec := year, mon, mday, hour, min, sec;
    }

    function DateOf(): Date reads this { Date(year + 1900, mon + 1, mday) }

    // A calendar date and a time of day; a leap second is accepted on the way in.
    predicate Valid(lastSecond: int) reads this {
      ValidDate(DateOf()) && 0 <= hour < 24 && 0 <= min < 60 && 0 <= sec <= lastSecond
    }

    // Seconds since Julian day 0
    function Epoch(): int reads this { DAY * ToJulian(DateOf()) + 3600 * hour + 60 * min + sec }

    /** OPENSSL_gmtime_adj: success moves the time by exactly the offset and leaves every field in range;
        failure leaves it alone and means that the new time is not in the years 1900 to 9999. */
    method GmtimeAdj(offDay: int, offsetSec: int) returns (ok: bool)
      requires Valid(60)
      modifies this
      ensures ok ==> Valid(59) && 0 <= year && year + 1900 <= 9999 && Epoch() == old(Epoch()) + DAY * offDay + offsetSec
      ensures !ok ==> unchanged(this)
      ensures ok <==> var jd := (old(Epoch()) + DAY * offDay + offsetSec) / DAY; jd >= 0 && 1900 <= FromJulian(jd).y <= 9999
    {
      hide ToJulian, FromJulian, ValidDate;
      ghost var target := Epoch() + DAY * offDay + offsetSec;
      var offsetDay := Div(offsetSec, DAY);
      var offsetHms := offsetSec - offsetDay * DAY;
      DivRemainder(offsetSec);
      offsetDay := offsetDay + offDay;
      offsetHms := offsetHms + (hour * 3600 + min * 60 + sec);
      if offsetHms >= DAY {
        offsetDay := offsetDay + 1;
        offsetHms := offsetHms - DAY;
      } else if offsetHms < 0 {
        offsetDay := offsetDay - 1;
        offsetHms := offsetHms + DAY;
      }
      var timeJd := ToJulian(Date(year + 1900, mon + 1, mday));
      timeJd := timeJd + offsetDay;
      assert target == DAY * timeJd + offsetHms && 0 <= offsetHms < DAY;
      assert target / DAY == timeJd;
      if timeJd < 0 { return false; }
      var y, m, d := JulianToDate(timeJd);
      if y < 1900 || y > 9999 { return false; }
      DayRoundTrip(timeJd);
      ClockParts(offsetHms);
      year := y - 1900;
      mon := m - 1;
      mday := d;
      hour := Div(offsetHms, 3600);
      min := Div(offsetHms, 60) % 60;
      sec := offsetHms % 60;
      assert DateOf() == FromJulian(timeJd);
      ok := true;
    }
  }

  lemma DivRemainder(s: int)
    ensures -DAY < s - Div(s, DAY) * DAY < DAY
  {}

  lemma ClockParts(s: int)
    requires 0 <= s < DAY
    ensures 0 <= s / 3600 < 24 && 0 <= s / 60 % 60 < 60 && 3600 * (s / 3600) + 60 * (s / 60 % 60) + s % 60 == s
  {
    assert s / 60 / 60 == s / 3600;
  }

  /** A time with its fields in range is determined by its epoch second, so adjustments compose. */
  lemma {:induction false} EpochInjective(a: Tm, b: Tm)
    requires a.Valid(59) && b.Valid(59) && a.Epoch() == b.Epoch() && a.Epoch() >= 0
    ensures a.DateOf() == b.DateOf() && a.hour == b.hour && a.min == b.min && a.sec == b.sec
  {
    hide ToJulian, FromJulian, ValidDate;
    var j, k := ToJulian(a.DateOf()), ToJulian(b.DateOf());
    var s, t := 3600 * a.hour + 60 * a.min + a.sec, 3600 * b.hour + 60 * b.min + b.sec;
    assert 0 <= s < DAY && 0 <= t < DAY;
    assert j == k && s == t;
    DateRoundTrip(a.DateOf());
    DateRoundTrip(b.DateOf());
  }

  ghost predicate SameTime(a: Tm, b: Tm)
    reads a, b
  {
    a.DateOf() == b.DateOf() && a.hour == b.hour && a.min == b.min && a.sec == b.sec
  }

  /** Two adjustments that succeed leave the fields that one by the sum leaves, which then succeeds too. */
  method AdjustTwice(tm: Tm, one: Tm, off1: int, sec1: int, off2: int, sec2: int) returns (ok: bool, okOne: bool)
    requires tm != one && tm.Valid(60) && SameTime(tm, one)
    modifies tm, one
    ensures ok ==> okOne && SameTime(tm, one) && tm.Epoch() == old(tm.Epoch()) + DAY * (off1 + off2) + (sec1 + sec2)
  {
    hide ToJulian, FromJulian, ValidDate;
    okOne := one.GmtimeAdj(off1 + off2, sec1 + sec2);
    ok := tm.GmtimeAdj(off1, sec1);
    if ok {
      ok := tm.GmtimeAdj(off2, sec2);
      if ok {
        DayNonnegative(tm.Epoch());
        EpochInjective(tm, one);
      }
    }
  }

  lemma DayNonnegative(e: int)
    requires e / DAY >= 0
    ensures e >= 0
  {}
}
