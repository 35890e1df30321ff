/** The proleptic Gregorian calendar: day numbers from dates and back, and instants from fields and back.
    Years are counted from 1 March inside eras of 400 years, so that the leap day is the last day of its year.
    Division truncates toward zero as in the code; with its corrections for negative numbers it is the floor.
    Sums and products that can pass 64 bits wrap as they do in a release build, and years are cut to 32 bits. */
module Calendar {

  /** Division that truncates toward zero, as the machine's does. */
  function Trunc(a: int, b: int): int
    requires b > 0
  {
    if a >= 0 then a / b else -(-a / b)
  }

  /** Keeping the low 32 bits as a signed number. */
  function Wrap32(x: int): (r: int)
    ensures -0x8000_0000 <= r < 0x8000_0000 && (x - r) % 0x1_0000_0000 == 0
  {
    (x + 0x8000_0000) % 0x1_0000_0000 - 0x8000_0000
  }

  const TWO63 := 0x8000_0000_0000_0000

  type i64 = x: int | -TWO63 <= x < TWO63

  predicate FitsI64(x: int) {
    -TWO63 <= x < TWO63
  }

  /** Keeping the low 64 bits as a signed number. */
  function Wrap64(x: int): (r: i64)
    ensures (x - r) % (2 * TWO63) == 0
  {
    (x + TWO63) % (2 * TWO63) - TWO63
  }

  datatype Date = Date(year: int, month: int, day: int)

  predicate Leap(y: int) {
    (y % 4 == 0 && y % 100 != 0) || y % 400 == 0
  }

  function DaysInMonth(y: int, m: int): int {
    if m in {1, 3, 5, 7, 8, 10, 12} then 31
    else if m in {4, 6, 9, 11} then 30
    else if m == 2 then (if Leap(y) then 29 else 28)
    else 30
  }

  predicate IsDate(t: Date) {
    1 <= t.month <= 12 && 1 <= t.day <= DaysInMonth(t.year, t.month)
  }

  /** The day after. */
  function Next(t: Date): Date {
    if t.day < DaysInMonth(t.year, t.month) then Date(t.year, t.month, t.day + 1)
    else if t.month < 12 then Date(t.year, t.month + 1, 1)
    else Date(t.year + 1, 1, 1)
  }

  // ----- the code

  function EraOfYear(y: int): int {
    Trunc(if y >= 0 then y else y - 399, 400)
  }

  function DaysFromCivil(y: int, m: int, d: int): int {
    var y2 := y - if m <= 2 then 1 else 0;
    var era := EraOfYear(y2);
    var yoe := y2 - era * 400;
    var mp := (m + 9) % 12;
    var doy := (153 * mp + 2) / 5 + d - 1;
    var doe := yoe * 365 + yoe / 4 - yoe / 100 + doy;
    era * 146097 + doe - 719468
  }

  function Day(t: Date): int {
    DaysFromCivil(t.year, t.month, t.day)
  }

  function EraOfDay(z: int): int {
    Trunc(if z >= 0 then z else z - 146096, 146097)
  }

  function YearOfEra(doe: int): int {
    (doe - doe / 1460 + doe / 36524 - doe / 146096) / 365
  }

  /** The date of a day of an era. */
  function DateOf(era: int, doe: int): Date {
    var yoe := YearOfEra(doe);
    var y := yoe + era * 400;
    var doy := doe - (365 * yoe + yoe / 4 - yoe / 100);
    var mp := Trunc(5 * doy + 2, 153);
    var d := doy - Trunc(153 * mp + 2, 5) + 1;
    var m := if mp < 10 then mp + 3 else mp - 9;
    Date(if m <= 2 then y + 1 else y, m, d)
  }

  /** The date of day `z0` without any limit. */
  function WideDate(z0: int): Date {
    var z := z0 + 719468;
    DateOf(EraOfDay(z), z - EraOfDay(z) * 146097)
  }

  function CivilFromDays(z0: i64): Date {
    var z: int := Wrap64(z0 + 719468);
    var era := Trunc(if z >= 0 then z else Wrap64(z - 146096), 146097);
    var t := DateOf(era, Wrap64(z - era * 146097));
    Date(Wrap32(t.year), t.month % 256, t.day % 256)
  }

  function YearFromDays(z: i64): int {
    CivilFromDays(z).year
  }

  function DowFromDays(days: int): int {
    (days + 4) % 7
  }

  const THURSDAY := 4

  /** Weekdays from Sunday on: day 0 is a Thursday, and each day is followed by the next weekday. */
  lemma Weekdays(z: int)
    ensures DowFromDays(0) == THURSDAY && 0 <= DowFromDays(z) < 7
    ensures DowFromDays(z + 1) == if DowFromDays(z) == 6 then 0 else DowFromDays(z) + 1
  {
  }

  // ----- eras, years and months counted from March

  lemma EraIsFloor(y: int, z: int)
    ensures 0 <= y - 400 * EraOfYear(y) < 400
    ensures 0 <= z - 146097 * EraOfDay(z) < 146097
  {
  }

  lemma EraUnique(y: int, z: int, e: int)
    ensures 0 <= y - 400 * e < 400 ==> EraOfYear(y) == e
    ensures 0 <= z - 146097 * e < 146097 ==> EraOfDay(z) == e
  {
    EraIsFloor(y, z);
  }

  /** The first day of March year `k` of an era. */
  function YearStart(k: int): int {
    365 * k + k / 4 - k / 100 + k / 400
  }

  function YearLength(k: int): int {
    if Leap(k + 1) then 366 else 365
  }

  /** Quotient and remainder are unique. */
  lemma Quotient(n: int, m: int, q: int, r: int)
    requires m > 0 && n == m * q + r && 0 <= r < m
    ensures n / m == q && n % m == r
  {
    var a := n / m - q;
    assert m * a == r - n % m;
  }

  /** A March year of an era by its century, four-year block and year. */
  lemma YearParts(c: int, b: int, e: int)
    requires 0 <= c < 4 && 0 <= b < 25 && 0 <= e < 4
    ensures var k := 100 * c + 4 * b + e;
            && k / 4 == 25 * c + b && k / 100 == c && k / 400 == 0
            && (Leap(k + 1) <==> e == 3 && (b != 24 || c == 3))
  {
    var k := 100 * c + 4 * b + e;
    Quotient(k, 4, 25 * c + b, e);
    Quotient(k, 100, c, 4 * b + e);
    Quotient(k, 400, 0, k);
    if e == 3 {
      Quotient(k + 1, 4, 25 * c + b + 1, 0);
      if b == 24 {
        Quotient(k + 1, 100, c + 1, 0);
        if c == 3 {
          Quotient(k + 1, 400, 1, 0);
        } else {
          Quotient(k + 1, 400, 0, k + 1);
        }
      } else {
        Quotient(k + 1, 100, c, 4 * b + e + 1);
      }
    } else {
      Quotient(k + 1, 4, 25 * c + b, e + 1);
    }
  }

  /** The year formula inverts `YearStart`. */
  lemma YearOfPart(c: int, b: int, e: int, doy: int)
    requires 0 <= c < 4 && 0 <= b < 25 && 0 <= e < 4
    requires 0 <= doy < if e == 3 && (b != 24 || c == 3) then 366 else 365
    ensures var doe := 36524 * c + 1461 * b + 365 * e + doy;
            0 <= doe < 146097 && YearOfEra(doe) == 100 * c + 4 * b + e
  {
    var doe := 36524 * c + 1461 * b + 365 * e + doy;
    var s := 24 * c + b + 365 * e + doy;
    var late := if s >= 1460 then 1 else 0;
    Quotient(doe, 1460, 25 * c + b + late, s - 1460 * late);
    var r := 1461 * b + 365 * e + doy;
    var lastDay := if r == 36524 then 1 else 0;
    Quotient(doe, 36524, c + lastDay, r - 36524 * lastDay);
    Quotient(doe, 146096, lastDay, doe - 146096 * lastDay);
    Quotient(36500 * c + 1460 * b + 365 * e + doy - late, 365, 100 * c + 4 * b + e, doy - late);
  }

  lemma YearOfEraCorrect(k: int, doy: int)
    requires 0 <= k < 400 && 0 <= doy < YearLength(k)
    ensures 0 <= YearStart(k) + doy < 146097 && YearOfEra(YearStart(k) + doy) == k && k / 400 == 0
  {
    hide YearOfEra, Leap;
    var c, b, e := k / 100, k % 100 / 4, k % 4;
    Parts(k);
    YearParts(c, b, e);
    YearOfPart(c, b, e, doy);
  }

  lemma Parts(k: int)
    requires 0 <= k < 400
    ensures var c, b, e := k / 100, k % 100 / 4, k % 4;
            k == 100 * c + 4 * b + e && 0 <= c < 4 && 0 <= b < 25 && 0 <= e < 4
  {
  }

  lemma YearStartNext(k: int)
    requires 0 <= k < 400
    ensures YearStart(k + 1) == YearStart(k) + YearLength(k)
  {
    hide Leap;
    var c, b, e := k / 100, k % 100 / 4, k % 4;
    Parts(k);
    YearParts(c, b, e);
    if e < 3 {
      YearParts(c, b, e + 1);
    } else if b < 24 {
      YearParts(c, b + 1, 0);
    } else if c < 3 {
      YearParts(c + 1, 0, 0);
    }
  }

  /** Every day of an era falls in exactly one of its years. */
  lemma {:induction false} DayInYear(doe: int, k: int)
    requires 0 <= k <= 400 && 0 <= doe < YearStart(k)
    ensures exists j :: 0 <= j < k && YearStart(j) <= doe < YearStart(j) + YearLength(j)
  {
    hide YearStart, YearLength;
    StartOfEra();
    YearStartNext(k - 1);
    if doe < YearStart(k - 1) {
      DayInYear(doe, k - 1);
    }
  }

  lemma StartOfEra()
    ensures YearStart(0) == 0 && YearStart(400) == 146097
  {
  }

  lemma YearOfEraInverts(doe: int)
    requires 0 <= doe < 146097
    ensures var k := YearOfEra(doe); 0 <= k < 400 && 0 <= doe - YearStart(k) < YearLength(k) && k / 400 == 0
  {
    hide YearStart, YearLength, YearOfEra;
    StartOfEra();
    DayInYear(doe, 400);
    var k :| 0 <= k < 400 && YearStart(k) <= doe < YearStart(k) + YearLength(k);
    YearOfEraCorrect(k, doe - YearStart(k));
  }

  /** The first day of March month `mp` in its year. */
  function MonthStart(mp: int): int {
    (153 * mp + 2) / 5
  }

  function MonthLength(mp: int, leap: bool): int {
    if mp in {0, 2, 4, 5, 7, 9, 10} then 31 else if mp == 11 then (if leap then 29 else 28) else 30
  }

  lemma MonthCorrect(mp: int, d: int, leap: bool)
    requires 0 <= mp < 12 && 1 <= d <= MonthLength(mp, leap)
    ensures var doy := MonthStart(mp) + d - 1;
            0 <= doy < (if leap then 366 else 365) && (5 * doy + 2) / 153 == mp
  {
    var doy := MonthStart(mp) + d - 1;
    Quotient(5 * doy + 2, 153, mp, 5 * doy + 2 - 153 * mp);
  }

  lemma MonthInverts(doy: int, leap: bool)
    requires 0 <= doy < if leap then 366 else 365
    ensures var mp := (5 * doy + 2) / 153;
            0 <= mp < 12 && 1 <= doy - MonthStart(mp) + 1 <= MonthLength(mp, leap)
  {
  }

  // ----- dates and day numbers

  /** A date as March year of an era, March month and day. */
  ghost predicate Placed(t: Date, era: int, k: int, mp: int, doy: int) {
    && 0 <= k < 400 && 0 <= mp < 12 && 0 <= doy < YearLength(k)
    && t.month == (if mp < 10 then mp + 3 else mp - 9)
    && t.year == k + 400 * era + (if mp < 10 then 0 else 1)
    && t.day == doy - MonthStart(mp) + 1
    && 1 <= t.day <= MonthLength(mp, Leap(k + 1))
    && k / 400 == 0
  }

  lemma LeapOfYear(era: int, k: int)
    ensures Leap(k + 400 * era) == Leap(k)
  {
    Shift(k, 4, 100 * era);
    Shift(k, 100, 4 * era);
    Shift(k, 400, era);
  }

  lemma Shift(a: int, m: int, q: int)
    requires m > 0
    ensures (a + m * q) % m == a % m
  {
    Quotient(a + m * q, m, a / m + q, a % m);
  }

  lemma PlacedIsDate(t: Date, era: int, k: int, mp: int, doy: int)
    requires Placed(t, era, k, mp, doy)
    ensures IsDate(t)
  {
    hide Leap, MonthStart;
    LeapOfYear(era, k + 1);
  }

  lemma PlacedDay(t: Date, era: int, k: int, mp: int, doy: int)
    requires Placed(t, era, k, mp, doy)
    ensures Day(t) == 146097 * era + YearStart(k) + doy - 719468
  {
    hide Leap, EraOfYear, MonthLength;
    EraUnique(k + 400 * era, 0, era);
    Quotient(t.month + 9, 12, if mp < 10 then 1 else 0, mp);
  }

  lemma DatePlaced(t: Date) returns (era: int, k: int, mp: int, doy: int)
    requires IsDate(t)
    ensures Placed(t, era, k, mp, doy)
  {
    hide Leap, EraOfYear;
    mp := if t.month >= 3 then t.month - 3 else t.month + 9;
    var y2 := if mp < 10 then t.year else t.year - 1;
    era := EraOfYear(y2);
    EraIsFloor(y2, 0);
    k := y2 - 400 * era;
    doy := MonthStart(mp) + t.day - 1;
    LeapOfYear(era, k + 1);
    MonthCorrect(mp, t.day, Leap(k + 1));
    Quotient(k, 400, 0, k);
  }

  lemma WidePlaced(z: int) returns (era: int, k: int, mp: int, doy: int)
    ensures Placed(WideDate(z), era, k, mp, doy)
    ensures z == 146097 * era + YearStart(k) + doy - 719468
  {
    hide Leap, EraOfDay, MonthLength, MonthStart, YearOfEra, YearStart, WideDate;
    era := EraOfDay(z + 719468);
    EraIsFloor(0, z + 719468);
    var doe := z + 719468 - 146097 * era;
    YearOfEraInverts(doe);
    k := YearOfEra(doe);
    doy := doe - YearStart(k);
    mp := (5 * doy + 2) / 153;
    MonthInverts(doy, Leap(k + 1));
    WideDateIs(z);
  }

  lemma WideDateIs(z: int)
    ensures var era := EraOfDay(z + 719468);
            var k := YearOfEra(z + 719468 - 146097 * era);
            var doy := z + 719468 - 146097 * era - YearStart(k);
            var mp := (5 * doy + 2) / 153;
            0 <= k < 400 && 0 <= mp < 12 ==>
              WideDate(z) == Date(k + 400 * era + if mp < 10 then 0 else 1, if mp < 10 then mp + 3 else mp - 9,
                                  doy - MonthStart(mp) + 1)
  {
    hide EraOfDay, YearOfEra, Leap;
    var k := YearOfEra(z + 719468 - 146097 * EraOfDay(z + 719468));
    if 0 <= k < 400 {
      Quotient(k, 400, 0, k);
    }
  }

  lemma WideOfPlaced(t: Date, era: int, k: int, mp: int, doy: int)
    requires Placed(t, era, k, mp, doy)
    ensures WideDate(146097 * era + YearStart(k) + doy - 719468) == t
  {
    hide Leap, EraOfDay, YearOfEra;
    YearOfEraCorrect(k, doy);
    EraUnique(0, 146097 * era + YearStart(k) + doy, era);
    MonthCorrect(mp, t.day, Leap(k + 1));
  }

  /** Every day number has a date, and it is the date's day number. */
  lemma WideDateInverts(z: int)
    ensures IsDate(WideDate(z)) && Day(WideDate(z)) == z
  {
    hide *;
    var era, k, mp, doy := WidePlaced(z);
    PlacedIsDate(WideDate(z), era, k, mp, doy);
    PlacedDay(WideDate(z), era, k, mp, doy);
  }

  /** Every date comes back from its day number. */
  lemma DayInverts(t: Date)
    requires IsDate(t)
    ensures WideDate(Day(t)) == t
  {
    hide *;
    var era, k, mp, doy := DatePlaced(t);
    PlacedDay(t, era, k, mp, doy);
    WideOfPlaced(t, era, k, mp, doy);
  }

  // ----- one day after another

  function MarchYear(t: Date): int {
    if t.month >= 3 then t.year else t.year - 1
  }

  function MarchMonth(t: Date): int {
    if t.month >= 3 then t.month - 3 else t.month + 9
  }

  lemma YearStartShift(k: int, e: int)
    ensures YearStart(k + 400 * e) == YearStart(k) + 146097 * e
  {
    Quotient(k + 400 * e, 4, k / 4 + 100 * e, k % 4);
    Quotient(k + 400 * e, 100, k / 100 + 4 * e, k % 100);
    Quotient(k + 400 * e, 400, k / 400 + e, k % 400);
  }

  lemma YearStep(y: int)
    ensures YearStart(y + 1) == YearStart(y) + YearLength(y)
  {
    hide YearStart, Leap, EraOfYear;
    var e := EraOfYear(y);
    EraIsFloor(y, 0);
    var k := y - 400 * e;
    YearStartNext(k);
    YearStartShift(k, e);
    YearStartShift(k + 1, e);
    LeapOfYear(e, k + 1);
  }

  /** A date's number, counting days from March. */
  lemma DayFromMarch(t: Date)
    requires 1 <= t.month <= 12
    ensures Day(t) == YearStart(MarchYear(t)) + MonthStart(MarchMonth(t)) + t.day - 1 - 719468
  {
    hide YearStart, MonthStart, EraOfYear;
    var y2 := MarchYear(t);
    var era := EraOfYear(y2);
    EraIsFloor(y2, 0);
    var k := y2 - 400 * era;
    YearStartShift(k, era);
    YearStartInEra(k);
    MonthStartIs(t);
  }

  lemma YearStartInEra(k: int)
    requires 0 <= k < 400
    ensures YearStart(k) == k * 365 + k / 4 - k / 100
  {
    Quotient(k, 400, 0, k);
  }

  lemma MonthStartIs(t: Date)
    requires 1 <= t.month <= 12
    ensures (153 * ((t.month + 9) % 12) + 2) / 5 == MonthStart(MarchMonth(t))
  {
    Quotient(t.month + 9, 12, if t.month >= 3 then 1 else 0, MarchMonth(t));
  }

  /** Day numbers count days one by one. */
  lemma NextDay(t: Date)
    requires IsDate(t)
    ensures IsDate(Next(t)) && Day(Next(t)) == Day(t) + 1
  {
    hide YearStart, Leap, Day;
    DayFromMarch(t);
    DayFromMarch(Next(t));
    YearStep(MarchYear(t));
  }

  lemma EpochDay()
    ensures Day(Date(1970, 1, 1)) == 0 && IsDate(Date(1970, 1, 1))
  {
  }

  /** Walking forward from 1 January 1970 meets the dates in order. */
  lemma DatesInOrder(z: int)
    ensures WideDate(0) == Date(1970, 1, 1)
    ensures WideDate(z + 1) == Next(WideDate(z))
  {
    hide WideDate, Next, IsDate, Leap;
    EpochDay();
    DayInverts(Date(1970, 1, 1));
    WideDateInverts(z);
    NextDay(WideDate(z));
    DayInverts(Next(WideDate(z)));
  }

  // ----- years

  /** The number of 1 January. */
  function NewYear(y: int): int {
    DaysFromCivil(y, 1, 1)
  }

  lemma YearSpan(t: Date)
    requires IsDate(t)
    ensures NewYear(t.year) <= Day(t) < NewYear(t.year + 1)
  {
    hide YearStart, Leap, Day;
    DayFromMarch(t);
    NewYearFromMarch(t.year);
    NewYearFromMarch(t.year + 1);
    YearStep(t.year - 1);
  }

  lemma NewYearFromMarch(y: int)
    ensures NewYear(y) == YearStart(y - 1) + 306 - 719468
  {
    hide YearStart;
    DayFromMarch(Date(y, 1, 1));
  }

  lemma NewYearNext(y: int)
    ensures NewYear(y) + 365 <= NewYear(y + 1) <= NewYear(y) + 366
  {
    hide YearStart, NewYear, Leap;
    NewYearFromMarch(y);
    NewYearFromMarch(y + 1);
    YearStep(y - 1);
  }

  lemma {:induction false} NewYearMonotone(a: int, b: int)
    requires a <= b
    ensures NewYear(a) <= NewYear(b)
    decreases b - a
  {
    hide NewYear;
    if a < b {
      NewYearMonotone(a, b - 1);
      NewYearNext(b - 1);
    }
  }

  /** The year of a day is the one whose 1 Januaries enclose it. */
  lemma YearOfDay(z: int, y: int)
    ensures WideDate(z).year == y <==> NewYear(y) <= z < NewYear(y + 1)
  {
    hide *;
    var t := WideDate(z);
    WideDateInverts(z);
    YearSpan(t);
    if t.year < y {
      NewYearMonotone(t.year + 1, y);
    } else if y < t.year {
      NewYearMonotone(y + 1, t.year);
    }
  }

  predicate FitsI32(y: int) {
    -0x8000_0000 <= y < 0x8000_0000
  }

  lemma Wrap32Fits(y: int)
    ensures FitsI32(y) <==> Wrap32(y) == y
  {
  }

  predicate InRange(z: int) {
    NewYear(-0x8000_0000) <= z < NewYear(0x8000_0000)
  }

  lemma YearFits(z: int)
    ensures InRange(z) <==> FitsI32(WideDate(z).year)
  {
    hide NewYear, WideDate, IsDate, Day;
    var t := WideDate(z);
    WideDateInverts(z);
    YearSpan(t);
    if t.year < -0x8000_0000 {
      NewYearMonotone(t.year + 1, -0x8000_0000);
    } else {
      NewYearMonotone(-0x8000_0000, t.year);
    }
    if t.year < 0x8000_0000 {
      NewYearMonotone(t.year + 1, 0x8000_0000);
    } else {
      NewYearMonotone(0x8000_0000, t.year);
    }
  }

  /** Even a 29 February that does not exist stays inside its year. */
  lemma LooseSpan(t: Date)
    requires 1 <= t.month <= 12 && 1 <= t.day <= DaysInMonth(0, t.month)
    ensures NewYear(t.year) <= Day(t) < NewYear(t.year + 1)
  {
    hide NewYear, Leap, Day;
    assert Leap(0) by { LeapZero(); }
    if t.month == 2 && t.day == 29 && !Leap(t.year) {
      var u := Date(t.year, 3, 1);
      YearSpan(u);
      NextDay(Date(t.year, 2, 28));
      DayFromMarch(t);
      DayFromMarch(Date(t.year, 2, 28));
    } else {
      YearSpan(t);
    }
  }

  lemma LeapZero()
    ensures Leap(0)
  {
  }

  const FAR := 1_000_000_000_000

  /** Whatever the month and the day, the day number of a 32-bit year is small. */
  lemma DayBounded(t: Date)
    requires FitsI32(t.year) && 0 <= t.month < 256 && 0 <= t.day < 256
    ensures -FAR < Day(t) < FAR
  {
    var y2 := t.year - if t.month <= 2 then 1 else 0;
    EraIsFloor(y2, 0);
  }

  lemma RangeBounded(z: int)
    requires InRange(z)
    ensures -FAR < z < FAR
  {
    hide NewYear, WideDate, Day, IsDate;
    YearFits(z);
    WideDateInverts(z);
    DateBounds(WideDate(z));
    DayBounded(WideDate(z));
  }

  lemma DateBounds(t: Date)
    requires IsDate(t)
    ensures 0 <= t.month < 256 && 0 <= t.day < 256
  {
  }

  lemma Wrap64Fits(x: int)
    ensures FitsI64(x) ==> Wrap64(x) == x
  {
  }

  /** No step wraps but the last. */
  lemma NearDate(z: i64)
    requires -FAR < z < FAR
    ensures CivilFromDays(z) == WideDate(z).(year := Wrap32(WideDate(z).year))
  {
    hide DateOf, IsDate, Day, Wrap64, Wrap32;
    var w := z + 719468;
    Wrap64Fits(w);
    Wrap64Fits(w - 146096);
    EraIsFloor(0, w);
    Wrap64Fits(w - EraOfDay(w) * 146097);
    WideDateInverts(z);
    DateBounds(WideDate(z));
  }

  /** Day to date to day is the identity exactly on the days whose year fits in 32 bits, of all 64-bit numbers. */
  lemma CivilRoundTrip(z: i64)
    ensures Day(CivilFromDays(z)) == z <==> InRange(z)
    ensures InRange(z) ==> IsDate(CivilFromDays(z)) && CivilFromDays(z) == WideDate(z)
  {
    hide CivilFromDays, Day, IsDate, InRange, WideDate, Wrap32;
    if -FAR < z < FAR {
      NearRoundTrip(z);
    } else {
      if InRange(z) {
        RangeBounded(z);
      }
      CivilBounds(z);
      DayBounded(CivilFromDays(z));
    }
  }

  lemma CivilBounds(z: i64)
    ensures var t := CivilFromDays(z); FitsI32(t.year) && 0 <= t.month < 256 && 0 <= t.day < 256
  {
    hide DateOf, Wrap64;
  }

  lemma NearRoundTrip(z: i64)
    requires -FAR < z < FAR
    ensures Day(CivilFromDays(z)) == z <==> InRange(z)
    ensures InRange(z) ==> IsDate(CivilFromDays(z)) && CivilFromDays(z) == WideDate(z)
  {
    hide NewYear, WideDate, Wrap32, Day, IsDate, Leap, CivilFromDays, InRange;
    NearDate(z);
    var t := WideDate(z);
    WideDateInverts(z);
    YearFits(z);
    Wrap32Fits(t.year);
    if !InRange(z) {
      OtherYear(t, Wrap32(t.year));
    }
  }

  lemma OtherYear(t: Date, w: int)
    requires IsDate(t) && w != t.year
    ensures Day(t.(year := w)) != Day(t)
  {
    hide NewYear, Day, Leap;
    LeapZero();
    LooseSpan(t.(year := w));
    YearSpan(t);
    if w < t.year {
      NewYearMonotone(w + 1, t.year);
    } else {
      NewYearMonotone(t.year + 1, w);
    }
  }

  /** Date to day to date is the identity on every date with a 32-bit year. */
  lemma DayRoundTrip(t: Date)
    requires IsDate(t) && FitsI32(t.year)
    ensures FitsI64(Day(t)) && CivilFromDays(Day(t)) == t && YearFromDays(Day(t)) == t.year && InRange(Day(t))
  {
    hide NewYear, WideDate, Wrap32, Day, IsDate, InRange, CivilFromDays;
    DateBounds(t);
    DayBounded(t);
    DayInverts(t);
    Wrap32Fits(t.year);
    YearFits(Day(t));
    CivilRoundTrip(Day(t));
  }

  // ----- instants

  const MS_SEC := 1000
  const MS_MIN := 60_000
  const MS_HOUR := 3_600_000
  const MS_DAY := 86_400_000

  /** The instant of the fields without any limit. */
  ghost function Instant(t: Date, h: int, mi: int, s: int, ms: int): int {
    Day(t) * MS_DAY + h * MS_HOUR + mi * MS_MIN + s * MS_SEC + ms
  }

  function EpochMs(t: Date, h: int, mi: int, s: int, ms: int): i64 {
    Wrap64(Wrap64(Wrap64(Wrap64(Wrap64(Day(t) * MS_DAY) + h * MS_HOUR) + mi * MS_MIN) + s * MS_SEC) + ms)
  }

  datatype Civil = Civil(date: Date, hour: int, minute: int, second: int, dow: int)

  function CivilOf(unixMs: i64, offMin: int): Civil {
    var local: int := Wrap64(unixMs + offMin * MS_MIN);
    var days := local / MS_DAY;
    var rem := local % MS_DAY;
    Civil(CivilFromDays(days), rem / MS_HOUR, rem % MS_HOUR / MS_MIN, rem % MS_MIN / 1000, DowFromDays(days))
  }

  predicate IsTime(h: int, mi: int, s: int, ms: int) {
    0 <= h < 24 && 0 <= mi < 60 && 0 <= s < 60 && 0 <= ms < 1000
  }

  lemma Clock(days: int, h: int, mi: int, s: int, ms: int)
    requires IsTime(h, mi, s, ms)
    ensures var t := days * MS_DAY + h * MS_HOUR + mi * MS_MIN + s * MS_SEC + ms;
            var rem := t % MS_DAY;
            t / MS_DAY == days && rem / MS_HOUR == h && rem % MS_HOUR / MS_MIN == mi && rem % MS_MIN / 1000 == s
  {
    var rem := h * MS_HOUR + mi * MS_MIN + s * MS_SEC + ms;
    Quotient(days * MS_DAY + rem, MS_DAY, days, rem);
    Quotient(rem, MS_HOUR, h, rem - h * MS_HOUR);
    Quotient(rem - h * MS_HOUR, MS_MIN, mi, s * MS_SEC + ms);
    Quotient(rem, MS_MIN, 60 * h + mi, s * MS_SEC + ms);
    Quotient(s * MS_SEC + ms, 1000, s, ms);
  }

  /** Wrapping early or late makes no difference. */
  lemma WrapSum(a: int, b: int)
    ensures Wrap64(Wrap64(a) + b) == Wrap64(a + b)
  {
    Shift(Wrap64(a) + b + TWO63, 2 * TWO63, (a + TWO63) / (2 * TWO63));
  }

  lemma EpochIsWrap(t: Date, h: int, mi: int, s: int, ms: int)
    ensures EpochMs(t, h, mi, s, ms) == Wrap64(Instant(t, h, mi, s, ms))
  {
    hide Day, Wrap64;
    var a := Day(t) * MS_DAY;
    WrapSum(a, h * MS_HOUR);
    WrapSum(a + h * MS_HOUR, mi * MS_MIN);
    WrapSum(a + h * MS_HOUR + mi * MS_MIN, s * MS_SEC);
    WrapSum(a + h * MS_HOUR + mi * MS_MIN + s * MS_SEC, ms);
  }

  /** The days of 64-bit instants have 32-bit years. */
  lemma InstantInRange(local: i64)
    ensures InRange(local / MS_DAY)
  {
    hide NewYear;
    NewYearBounds();
  }

  lemma NewYearBounds()
    ensures NewYear(-0x8000_0000) < -TWO63 / MS_DAY - 1 && TWO63 / MS_DAY + 1 < NewYear(0x8000_0000)
  {
  }

  /** Reading a clock and setting it: the fields of a 64-bit local time make that time. */
  lemma LocalRoundTrip(local: i64)
    ensures var c := CivilOf(local, 0);
            && IsDate(c.date) && IsTime(c.hour, c.minute, c.second, local % 1000) && 0 <= c.dow < 7
            && Instant(c.date, c.hour, c.minute, c.second, local % 1000) == local
  {
    hide CivilFromDays, Day, IsDate, InRange, Wrap64;
    Wrap64Fits(local);
    InstantInRange(local);
    CivilRoundTrip(local / MS_DAY);
    Digits(local);
  }

  /** Only the local time matters. */
  lemma CivilOfLocal(unixMs: i64, off: int)
    ensures CivilOf(unixMs, off) == CivilOf(Wrap64(unixMs + off * MS_MIN), 0)
  {
    hide CivilFromDays, DowFromDays, Wrap64;
    Wrap64Fits(Wrap64(unixMs + off * MS_MIN));
  }

  /** The fields of an instant are the fields it was made from, under any offset, exactly when the local time of the
      fields fits in 64 bits. */
  lemma CivilOfEpoch(t: Date, h: int, mi: int, s: int, ms: int, off: int)
    requires IsDate(t) && FitsI32(t.year) && IsTime(h, mi, s, ms)
    ensures CivilOf(Wrap64(EpochMs(t, h, mi, s, ms) - off * MS_MIN), off) == Civil(t, h, mi, s, DowFromDays(Day(t)))
       <==> FitsI64(Instant(t, h, mi, s, ms))
  {
    hide CivilFromDays, CivilOf, EpochMs, Instant, Day, IsDate, DowFromDays, Wrap64;
    var x := Instant(t, h, mi, s, ms);
    var local := Wrap64(x);
    EpochIsWrap(t, h, mi, s, ms);
    WrapSum(local - off * MS_MIN, off * MS_MIN);
    CivilOfLocal(Wrap64(local - off * MS_MIN), off);
    Wrap64Fits(local);
    Wrap64Fits(x);
    if FitsI64(x) {
      FieldsOfInstant(t, h, mi, s, ms);
    } else if CivilOf(local, 0).date == t {
      LocalRoundTrip(local);
      NotNear(t, h, mi, s, ms, local % 1000);
    }
  }

  lemma FieldsOfInstant(t: Date, h: int, mi: int, s: int, ms: int)
    requires IsDate(t) && FitsI32(t.year) && IsTime(h, mi, s, ms) && FitsI64(Instant(t, h, mi, s, ms))
    ensures CivilOf(Instant(t, h, mi, s, ms), 0) == Civil(t, h, mi, s, DowFromDays(Day(t)))
  {
    hide CivilFromDays, Day, IsDate, DowFromDays, Wrap64;
    Wrap64Fits(Instant(t, h, mi, s, ms));
    DayRoundTrip(t);
    Clock(Day(t), h, mi, s, ms);
  }

  /** A wrapped instant is not one that differs in the milliseconds alone. */
  lemma NotNear(t: Date, h: int, mi: int, s: int, ms: int, ms2: int)
    requires 0 <= ms < 1000 && 0 <= ms2 < 1000 && !FitsI64(Instant(t, h, mi, s, ms))
    ensures Wrap64(Instant(t, h, mi, s, ms)) != Instant(t, h, mi, s, ms2)
  {
    hide Day;
    var x := Instant(t, h, mi, s, ms);
    var k := (x + TWO63) / (2 * TWO63);
    assert Wrap64(x) == x - 2 * TWO63 * k && k != 0;
  }

  /** And the instant is the one its fields make, down to the milliseconds, exactly when the local time fits. */
  lemma EpochOfCivil(unixMs: i64, off: int)
    ensures var c := CivilOf(unixMs, off);
            && IsDate(c.date) && 0 <= c.dow < 7 && IsTime(c.hour, c.minute, c.second, unixMs % 1000)
            && (EpochMs(c.date, c.hour, c.minute, c.second, unixMs % 1000) == unixMs + off * MS_MIN
                <==> FitsI64(unixMs + off * MS_MIN))
  {
    hide CivilOf, EpochMs, Instant, IsDate, Wrap64;
    var x := unixMs + off * MS_MIN;
    var c := CivilOf(unixMs, off);
    CivilOfLocal(unixMs, off);
    LocalRoundTrip(Wrap64(x));
    EpochIsWrap(c.date, c.hour, c.minute, c.second, unixMs % 1000);
    Wrap64Fits(x);
    Shift(unixMs, 1000, 60 * off);
  }

  /** 1 January of the year 300,000,000 does not come back. */
  lemma FarNewYear()
    ensures var t := Date(300_000_000, 1, 1);
            IsDate(t) && FitsI32(t.year) && CivilOf(EpochMs(t, 0, 0, 0, 0), 0).date != t
  {
    var t := Date(300_000_000, 1, 1);
    assert Day(t) * MS_DAY >= TWO63;
    hide CivilOf, EpochMs, Day, DowFromDays, Wrap64;
    CivilOfEpoch(t, 0, 0, 0, 0, 0);
    LocalRoundTrip(EpochMs(t, 0, 0, 0, 0));
  }

  lemma Digits(local: int)
    ensures var rem := local % MS_DAY;
            var h, mi, s := rem / MS_HOUR, rem % MS_HOUR / MS_MIN, rem % MS_MIN / 1000;
            IsTime(h, mi, s, local % 1000)
            && local == local / MS_DAY * MS_DAY + h * MS_HOUR + mi * MS_MIN + s * MS_SEC + local % 1000
  {
    var rem := local % MS_DAY;
    Shift(rem, 1000, 86400 * (local / MS_DAY));
    assert rem % MS_MIN == rem % MS_HOUR % MS_MIN;
    assert rem % MS_MIN % 1000 == rem % 1000;
  }
}
