/** Time-zone offsets: weekday rules, their two transitions a year, and the one-entry memo in front of them. */
module Tz {
  import opened Words
  import opened Calendar

  datatype Transition = Transition(month: int, week: int, weekday: int, hour: int)
  datatype Rule = Rule(dstAddMin: int, start: Transition, end: Transition)
  datatype ZoneCore = ZoneCore(stdMin: int, rule: nat, emb: nat, pre: int)
  datatype EmbTable = EmbTable(ts: seq<int>, off: seq<int>)

  const RULE_NONE := 0xFFFF

  const RULES: seq<Rule> := [
    Rule(60, Transition(3, -1, 0, 2), Transition(10, -1, 0, 3)),
    Rule(60, Transition(3, 2, 0, 2), Transition(11, 1, 0, 2)),
    Rule(60, Transition(3, 2, 0, 0), Transition(11, 1, 0, 1)),
    Rule(60, Transition(3, -2, 6, 23), Transition(10, -1, 0, 0)),
    Rule(60, Transition(10, 1, 0, 2), Transition(4, 1, 0, 3)),
    Rule(60, Transition(9, -1, 0, 2), Transition(4, 1, 0, 3)),
    Rule(120, Transition(3, -1, 0, 1), Transition(10, -1, 0, 3)),
    Rule(60, Transition(3, -1, 0, 0), Transition(10, -1, 0, 0)),
    Rule(60, Transition(3, -1, 0, 3), Transition(10, -1, 0, 4)),
    Rule(60, Transition(3, -2, 5, 2), Transition(10, -1, 0, 2)),
    Rule(60, Transition(3, -1, 0, 0), Transition(10, -1, 0, 1)),
    Rule(60, Transition(3, -1, 0, 1), Transition(10, -1, 0, 2)),
    Rule(30, Transition(10, 1, 0, 2), Transition(4, 1, 0, 2))
  ]

  // ----- the n-th weekday of a month

  function NthWeekdayOfMonth(year: int, month: int, week: int, weekday: int): int {
    var first := DaysFromCivil(year, month, 1);
    var dim := DaysInMonth(year, month);
    first + NthOffset(DowFromDays(first), dim, week, weekday)
  }

  /** Days after the first of a month that has `dim` days and starts on `firstDow`. */
  function NthOffset(firstDow: int, dim: int, week: int, weekday: int): int {
    if week >= 1 then
      var delta := (weekday + 7 - firstDow) % 7 + (week - 1) * 7;
      if 1 + delta > dim then delta - 7 else delta
    else
      var lastDow := (firstDow + dim - 1) % 7;
      var back := (lastDow + 7 - weekday) % 7;
      dim - 1 - back - (-week - 1) * 7
  }

  /** How many of the days from `a` up to `b` fall on weekday `w`. */
  function CountDow(a: int, b: int, w: int): nat
    decreases b - a
  {
    if b <= a then 0 else CountDow(a, b - 1, w) + if DowFromDays(b - 1) == w then 1 else 0
  }

  lemma {:induction false} CountClosed(a: int, b: int, w: int)
    requires 0 <= w < 7 && a <= b
    ensures CountDow(a, b, w) == if Latest(b, w) < a then 0 else (Latest(b, w) - a) / 7 + 1
    decreases b - a
  {
    hide Latest;
    if a < b {
      CountClosed(a, b - 1, w);
      LatestMoves(b, w);
    } else {
      LatestIsBefore(b, w);
    }
  }

  /** The last day before `b` on weekday `w`. */
  function Latest(b: int, w: int): int {
    b - 1 - (DowFromDays(b - 1) - w) % 7
  }

  lemma LatestIsBefore(b: int, w: int)
    ensures b - 7 <= Latest(b, w) < b
  {
  }

  lemma LatestMoves(b: int, w: int)
    requires 0 <= w < 7
    ensures DowFromDays(b - 1) == w ==> Latest(b, w) == b - 1 && Latest(b - 1, w) == b - 8
    ensures DowFromDays(b - 1) != w ==> Latest(b, w) == Latest(b - 1, w)
  {
    var q, d := (b + 3) / 7, (b + 3) % 7;
    if d == 0 {
      Quotient(b + 2, 7, q - 1, 6);
    } else {
      Quotient(b + 2, 7, q, d - 1);
    }
  }

  predicate WeekOk(week: int) {
    1 <= week <= 5 || -4 <= week <= -1
  }

  /** The day chosen is in the month, on that weekday, and as many occurrences in (or from the end) as asked for;
      a fifth that does not exist becomes the last. */
  lemma NthWeekday(year: int, month: int, week: int, weekday: int)
    requires 1 <= month <= 12 && 0 <= weekday < 7 && WeekOk(week)
    ensures var first, dim := DaysFromCivil(year, month, 1), DaysInMonth(year, month);
            var z := NthWeekdayOfMonth(year, month, week, weekday);
            && first <= z < first + dim && DowFromDays(z) == weekday
            && (week > 0 ==> var all := CountDow(first, first + dim, weekday);
                             CountDow(first, z + 1, weekday) == if week < all then week else all)
            && (week < 0 ==> CountDow(z, first + dim, weekday) == -week)
  {
    hide CountDow, DaysFromCivil, NthOffset;
    var first, dim := DaysFromCivil(year, month, 1), DaysInMonth(year, month);
    var z := NthWeekdayOfMonth(year, month, week, weekday);
    NthInMonth(first, dim, week, weekday);
    CountAround(first, z, first + dim, weekday);
  }

  lemma {:induction false} CountSplit(a: int, b: int, c: int, w: int)
    requires a <= b <= c
    ensures CountDow(a, c, w) == CountDow(a, b, w) + CountDow(b, c, w)
    decreases c - b
  {
    if b < c {
      CountSplit(a, b, c - 1, w);
    }
  }

  /** Occurrences up to, from and around a day that is one of them. */
  lemma CountAround(a: int, z: int, b: int, w: int)
    requires a <= z < b && DowFromDays(z) == w
    ensures CountDow(a, z + 1, w) == (z - a) / 7 + 1
    ensures CountDow(z, b, w) == (b - 1 - z) / 7 + 1
    ensures CountDow(a, b, w) == (z - a) / 7 + 1 + (b - 1 - z) / 7
  {
    hide CountDow;
    CountClosed(a, z + 1, w);
    CountOne(z);
    CountSplit(z, z + 1, b, w);
    CountSplit(a, z + 1, b, w);
    CountFrom(z, b, w);
  }

  lemma CountOne(z: int)
    ensures CountDow(z, z + 1, DowFromDays(z)) == 1
  {
    assert CountDow(z, z, DowFromDays(z)) == 0;
  }

  lemma CountFrom(z: int, b: int, w: int)
    requires z < b && DowFromDays(z) == w
    ensures CountDow(z, b, w) == (b - 1 - z) / 7 + 1
  {
    hide CountDow;
    CountClosed(z, b, w);
    var n, r := (b - 1 - z) / 7, (b - 1 - z) % 7;
    var q := (z + 4) / 7;
    var carry := if w + r >= 7 then 1 else 0;
    Quotient(b - 1 + 4, 7, q + n + carry, w + r - 7 * carry);
    Quotient(DowFromDays(b - 1) - w, 7, -carry, r);
    Quotient(7 * n, 7, n, 0);
  }

  lemma NthInMonth(first: int, dim: int, week: int, weekday: int)
    requires 28 <= dim <= 31 && 0 <= weekday < 7 && WeekOk(week)
    ensures var z := first + NthOffset(DowFromDays(first), dim, week, weekday);
            && first <= z < first + dim && DowFromDays(z) == weekday
            && (week > 0 ==> (z - first) / 7 + 1 == week || (week == 5 && (z - first) / 7 + 1 == 4 && z + 7 >= first + dim))
            && (week < 0 ==> (first + dim - 1 - z) / 7 + 1 == -week)
  {
    hide DowFromDays;
    if week >= 1 {
      NthFromStart(first, dim, week, weekday);
    } else {
      NthFromEnd(first, dim, week, weekday);
    }
  }

  /** Which multiple of seven lies between two weekdays. */
  lemma Ahead(day: int, weekday: int, d: int, k: int)
    requires 0 <= weekday < 7 && d == (weekday + 7 - DowFromDays(day)) % 7
    ensures 0 <= d < 7 && DowFromDays(day + d + 7 * k) == weekday
  {
    var q, r := (day + 4) / 7, (day + 4) % 7;
    var carry := if r + d >= 7 then 1 else 0;
    Quotient(day + d + 7 * k + 4, 7, q + k + carry, r + d - 7 * carry);
  }

  lemma NthFromStart(first: int, dim: int, week: int, weekday: int)
    requires 28 <= dim <= 31 && 0 <= weekday < 7 && 1 <= week <= 5
    ensures var z := first + NthOffset(DowFromDays(first), dim, week, weekday);
            && first <= z < first + dim && DowFromDays(z) == weekday
            && ((z - first) / 7 + 1 == week || (week == 5 && (z - first) / 7 + 1 == 4 && z + 7 >= first + dim))
  {
    hide DowFromDays;
    var d := (weekday + 7 - DowFromDays(first)) % 7;
    var k := if 1 + d + (week - 1) * 7 > dim then week - 2 else week - 1;
    Ahead(first, weekday, d, k);
    Quotient(d + 7 * k, 7, k, d);
  }

  lemma NthFromEnd(first: int, dim: int, week: int, weekday: int)
    requires 28 <= dim <= 31 && 0 <= weekday < 7 && -4 <= week <= -1
    ensures var z := first + NthOffset(DowFromDays(first), dim, week, weekday);
            && first <= z < first + dim && DowFromDays(z) == weekday && (first + dim - 1 - z) / 7 + 1 == -week
  {
    var dow, q := DowFromDays(first), (first + 4) / 7;
    var lastDow := (dow + dim - 1) % 7;
    var back := (lastDow + 7 - weekday) % 7;
    assert 0 <= back < 7;
    var p := (dow + dim - 1) / 7;
    var carry := if lastDow < weekday then 1 else 0;
    Quotient(lastDow + 7 - weekday, 7, 1 - carry, back);
    var z := first + dim - 1 - back - (-week - 1) * 7;
    Quotient(z + 4, 7, q + p - carry - (-week - 1), weekday);
    Quotient(back + 7 * (-week - 1), 7, -week - 1, back);
  }

  // ----- transitions

  /** The instant of a transition without any limit. */
  ghost function TransitionInstant(year: int, t: Transition, frameOffMin: int): int {
    NthWeekdayOfMonth(year, t.month, t.week, t.weekday) * MS_DAY + t.hour * MS_HOUR - frameOffMin * MS_MIN
  }

  function TransitionMsUtc(year: int, t: Transition, frameOffMin: int): i64 {
    var wall: int := Wrap64(Wrap64(NthWeekdayOfMonth(year, t.month, t.week, t.weekday) * MS_DAY) + t.hour * MS_HOUR);
    Wrap64(wall - frameOffMin * MS_MIN)
  }

  lemma TransitionIsWrap(year: int, t: Transition, frameOffMin: int)
    ensures TransitionMsUtc(year, t, frameOffMin) == Wrap64(TransitionInstant(year, t, frameOffMin))
  {
    hide NthWeekdayOfMonth, Wrap64;
    var a := NthWeekdayOfMonth(year, t.month, t.week, t.weekday) * MS_DAY;
    WrapSum(a, t.hour * MS_HOUR);
    WrapSum(a + t.hour * MS_HOUR, -frameOffMin * MS_MIN);
  }

  predicate TransitionOk(t: Transition) {
    3 <= t.month <= 11 && WeekOk(t.week) && 0 <= t.weekday < 7 && 0 <= t.hour < 24
  }

  predicate RuleOk(r: Rule) {
    TransitionOk(r.start) && TransitionOk(r.end) && 0 < r.dstAddMin <= 120
    && (r.start.month + 5 <= r.end.month || r.end.month + 5 <= r.start.month)
  }

  lemma RulesOk(i: nat)
    requires i < |RULES|
    ensures RuleOk(RULES[i])
  {
  }

  predicate FitsI16(x: int) {
    -0x8000 <= x < 0x8000
  }

  /** The first and last day a transition can fall on. */
  lemma MonthBounds(year: int, t: Transition)
    requires TransitionOk(t)
    ensures var z := NthWeekdayOfMonth(year, t.month, t.week, t.weekday);
            var m := NewYear(year + 1) - 306 + MonthStart(t.month - 3);
            m <= z < m + 31 && NewYear(year) + 59 <= z < NewYear(year + 1) - 30
  {
    hide NewYear, NthWeekdayOfMonth, CountDow, DaysFromCivil;
    NthWeekday(year, t.month, t.week, t.weekday);
    FirstOfMonth(year, t.month);
  }

  lemma FirstOfMonth(year: int, month: int)
    requires 3 <= month <= 11
    ensures DaysFromCivil(year, month, 1) == NewYear(year + 1) - 306 + MonthStart(month - 3)
    ensures NewYear(year) + 59 <= NewYear(year + 1) - 306
  {
    hide NewYear, YearStart, MonthStart, Leap, DaysFromCivil;
    DayFromMarch(Date(year, month, 1));
    NewYearFromMarch(year + 1);
    NewYearNext(year);
  }

  /** Whatever the standard offset, both transitions are strictly inside the UTC year, in the order of their months. */
  lemma TransitionsInside(rule: Rule, std: int, year: int)
    requires RuleOk(rule) && FitsI16(std)
    ensures var on, off := TransitionInstant(year, rule.start, std), TransitionInstant(year, rule.end, std + rule.dstAddMin);
            && NewYear(year) * MS_DAY < on < NewYear(year + 1) * MS_DAY
            && NewYear(year) * MS_DAY < off < NewYear(year + 1) * MS_DAY
            && on != off && (on < off <==> rule.start.month < rule.end.month)
  {
    hide NewYear, NthWeekdayOfMonth, WeekOk;
    MonthBounds(year, rule.start);
    MonthBounds(year, rule.end);
  }

  /** Clocks that run `frameOffMin` ahead show the rule's hour when a transition happens, on the rule's weekday and in
      its month. */
  ghost predicate Shows(unixMs: i64, frameOffMin: int, year: int, t: Transition) {
    var c := CivilOf(unixMs, frameOffMin);
    && c.hour == t.hour && c.minute == 0 && c.second == 0 && c.dow == t.weekday
    && c.date.year == year && c.date.month == t.month && IsDate(c.date)
    && Day(c.date) == NthWeekdayOfMonth(year, t.month, t.week, t.weekday)
  }

  lemma TransitionShows(year: int, t: Transition, frameOffMin: int, unixMs: i64)
    requires TransitionOk(t) && FitsI32(year) && unixMs == TransitionInstant(year, t, frameOffMin)
    requires FitsI64(unixMs + frameOffMin * MS_MIN)
    ensures Shows(unixMs, frameOffMin, year, t)
  {
    var z := NthWeekdayOfMonth(year, t.month, t.week, t.weekday);
    NthWeekday(year, t.month, t.week, t.weekday);
    var date := Date(year, t.month, z - DaysFromCivil(year, t.month, 1) + 1);
    DayInMonth(date);
    hide NthWeekdayOfMonth, DaysFromCivil, DowFromDays, CivilOf, CountDow, IsDate, CivilFromDays, Wrap64;
    var local := unixMs + frameOffMin * MS_MIN;
    assert local == Instant(date, t.hour, 0, 0, 0);
    FieldsOfInstant(date, t.hour, 0, 0, 0);
    CivilOfLocal(unixMs, frameOffMin);
    Wrap64Fits(local);
  }

  /** Days of a month follow its first. */
  lemma DayInMonth(t: Date)
    ensures Day(t) == DaysFromCivil(t.year, t.month, 1) + t.day - 1
  {
  }

  // ----- offsets

  datatype YearRule = YearRule(on: int, off: int, dst: int)

  function YearRuleOf(std: int, rule: Rule, year: int): YearRule {
    YearRule(TransitionMsUtc(year, rule.start, std), TransitionMsUtc(year, rule.end, std + rule.dstAddMin),
             std + rule.dstAddMin)
  }

  /** The same without any limit. */
  ghost function ExactRule(std: int, rule: Rule, year: int): YearRule {
    YearRule(TransitionInstant(year, rule.start, std), TransitionInstant(year, rule.end, std + rule.dstAddMin),
             std + rule.dstAddMin)
  }

  /** Daylight time starts when clocks on standard time show the hour of the rule, and ends when clocks on daylight time
      show it. */
  lemma RuleShows(std: int, rule: Rule, year: int)
    requires RuleOk(rule) && FitsI16(std) && FitsI32(year)
    ensures var r := ExactRule(std, rule, year);
            && r.dst == std + rule.dstAddMin
            && (FitsI64(r.on) && FitsI64(r.on + std * MS_MIN) ==> Shows(r.on, std, year, rule.start))
            && (FitsI64(r.off) && FitsI64(r.off + r.dst * MS_MIN) ==> Shows(r.off, r.dst, year, rule.end))
  {
    hide TransitionInstant, Shows;
    var r := ExactRule(std, rule, year);
    if FitsI64(r.on) && FitsI64(r.on + std * MS_MIN) {
      TransitionShows(year, rule.start, std, r.on);
    }
    if FitsI64(r.off) && FitsI64(r.off + r.dst * MS_MIN) {
      TransitionShows(year, rule.end, r.dst, r.off);
    }
  }

  predicate InDst(r: YearRule, unixMs: int) {
    if r.on <= r.off then r.on <= unixMs < r.off else unixMs >= r.on || unixMs < r.off
  }

  function RuleOffset(std: int, rule: Rule, unixMs: i64): int {
    var r := YearRuleOf(std, rule, YearFromDays(unixMs / MS_DAY));
    if InDst(r, unixMs) then r.dst else std
  }

  /** The test goes round the year, so it survives transitions that wrap. */
  lemma WrapKeepsDst(on: int, off: int, dst: int, unixMs: i64)
    requires -TWO63 / 2 < on - unixMs < TWO63 / 2 && -TWO63 / 2 < off - unixMs < TWO63 / 2
    ensures InDst(YearRule(Wrap64(on), Wrap64(off), dst), unixMs) <==> InDst(YearRule(on, off, dst), unixMs)
  {
    WrapNear(on);
    WrapNear(off);
  }

  lemma WrapNear(x: int)
    requires -2 * TWO63 <= x < 2 * TWO63
    ensures Wrap64(x) == if x < -TWO63 then x + 2 * TWO63 else if x < TWO63 then x else x - 2 * TWO63
  {
  }

  lemma YearOfInstant(unixMs: i64, y: int)
    ensures YearFromDays(unixMs / MS_DAY) == y <==> NewYear(y) * MS_DAY <= unixMs < NewYear(y + 1) * MS_DAY
  {
    hide NewYear, InRange, CivilFromDays, WideDate, IsDate, Day;
    InstantInRange(unixMs);
    CivilRoundTrip(unixMs / MS_DAY);
    YearOfDay(unixMs / MS_DAY, y);
  }

  /** In the first and the last year of 64-bit instants a transition may wrap; the offset is still the exact one. */
  lemma RuleOffsetExact(std: int, rule: Rule, unixMs: i64)
    requires RuleOk(rule) && FitsI16(std)
    ensures var r := ExactRule(std, rule, YearFromDays(unixMs / MS_DAY));
            RuleOffset(std, rule, unixMs) == if InDst(r, unixMs) then r.dst else std
  {
    hide NewYear, TransitionMsUtc, TransitionInstant, YearFromDays, TransitionOk, InDst, Wrap64;
    var y := YearFromDays(unixMs / MS_DAY);
    var r := ExactRule(std, rule, y);
    TransitionsInside(rule, std, y);
    YearOfInstant(unixMs, y);
    NewYearNext(y);
    TransitionIsWrap(y, rule.start, std);
    TransitionIsWrap(y, rule.end, std + rule.dstAddMin);
    WrapKeepsDst(r.on, r.off, r.dst, unixMs);
  }

  /** The offset changes exactly at the two transitions of the year, and so never where two years meet. */
  lemma OffsetChanges(std: int, rule: Rule, unixMs: i64)
    requires RuleOk(rule) && FitsI16(std) && FitsI64(unixMs - 1)
    ensures var r := ExactRule(std, rule, YearFromDays(unixMs / MS_DAY));
            RuleOffset(std, rule, unixMs) != RuleOffset(std, rule, unixMs - 1) <==> unixMs == r.on || unixMs == r.off
  {
    hide NewYear, TransitionInstant, YearFromDays, TransitionOk, RuleOffset;
    var y, before := YearFromDays(unixMs / MS_DAY), YearFromDays((unixMs - 1) / MS_DAY);
    YearOfInstant(unixMs, y);
    YearOfInstant(unixMs - 1, before);
    YearOfInstant(unixMs - 1, y);
    YearOfInstant(unixMs - 1, y - 1);
    NewYearNext(y - 1);
    TransitionsInside(rule, std, y);
    TransitionsInside(rule, std, before);
    RuleOffsetExact(std, rule, unixMs);
    RuleOffsetExact(std, rule, unixMs - 1);
  }

  /** At a start the offset goes from standard to daylight time, at an end back. */
  lemma OffsetAtTransitions(std: int, rule: Rule, year: int)
    requires RuleOk(rule) && FitsI16(std)
    ensures var r := ExactRule(std, rule, year);
            && (FitsI64(r.on - 1) && FitsI64(r.on) ==>
                  RuleOffset(std, rule, r.on - 1) == std && RuleOffset(std, rule, r.on) == std + rule.dstAddMin)
            && (FitsI64(r.off - 1) && FitsI64(r.off) ==>
                  RuleOffset(std, rule, r.off - 1) == std + rule.dstAddMin && RuleOffset(std, rule, r.off) == std)
  {
    hide NewYear, TransitionInstant, YearFromDays, TransitionOk, RuleOffset;
    var r := ExactRule(std, rule, year);
    TransitionsInside(rule, std, year);
    forall u: i64 | u == r.on - 1 || u == r.on || u == r.off - 1 || u == r.off
      ensures RuleOffset(std, rule, u) == if InDst(r, u) then r.dst else std
    {
      YearOfInstant(u, year);
      RuleOffsetExact(std, rule, u);
    }
  }

  // ----- tables of listed offsets

  predicate TableOk(e: EmbTable) {
    |e.ts| == |e.off| && forall i, j | 0 <= i < j < |e.ts| :: e.ts[i] < e.ts[j]
  }

  /** The number of listed instants up to `sec`. */
  function Passed(ts: seq<int>, sec: int): (n: nat)
    ensures n <= |ts|
  {
    if ts == [] || sec < ts[0] then 0 else 1 + Passed(ts[1..], sec)
  }

  lemma {:induction false} PassedAt(ts: seq<int>, sec: int, i: nat)
    requires forall i, j | 0 <= i < j < |ts| :: ts[i] < ts[j]
    requires i <= |ts| && (i > 0 ==> ts[i - 1] <= sec) && (i < |ts| ==> sec < ts[i])
    ensures Passed(ts, sec) == i
  {
    if i > 0 {
      PassedAt(ts[1..], sec, i - 1);
    }
  }

  datatype Search = Found(at: nat) | Missing(at: nat)

  /** Binary search: where `x` is, or where it would go. */
  function BinarySearch(ts: seq<int>, x: int, lo: nat, hi: nat): (r: Search)
    requires forall i, j | 0 <= i < j < |ts| :: ts[i] < ts[j]
    requires lo <= hi <= |ts| && (lo > 0 ==> ts[lo - 1] < x) && (hi < |ts| ==> x < ts[hi])
    ensures r.Found? ==> r.at < |ts| && ts[r.at] == x
    ensures r.Missing? ==> r.at <= |ts| && (r.at > 0 ==> ts[r.at - 1] < x) && (r.at < |ts| ==> x < ts[r.at])
    decreases hi - lo
  {
    if lo == hi then Missing(lo) else
      var mid := (lo + hi) / 2;
      if ts[mid] == x then Found(mid)
      else if ts[mid] < x then BinarySearch(ts, x, mid + 1, hi)
      else BinarySearch(ts, x, lo, mid)
  }

  /** The offset listed last at or before the instant. */
  method EmbOffset(emb: EmbTable, unixMs: int) returns (off: int)
    requires TableOk(emb) && emb.ts != [] && emb.ts[0] <= unixMs / MS_SEC
    ensures 0 < Passed(emb.ts, unixMs / MS_SEC) && off == emb.off[Passed(emb.ts, unixMs / MS_SEC) - 1]
  {
    var sec := unixMs / MS_SEC;
    var i;
    match BinarySearch(emb.ts, sec, 0, |emb.ts|) {
      case Found(k) =>
        i := k;
      case Missing(k) =>
        i := if k == 0 then 0 else k - 1;
    }
    PassedAt(emb.ts, sec, i + 1);
    off := emb.off[i];
  }

  // ----- the offset of a zone

  /** The zone and offset tables. */
  datatype Zones = Zones(cores: seq<ZoneCore>, embs: seq<EmbTable>) {
    predicate Ok() {
      && |cores| < 0xFFFF
      && (forall i | 0 <= i < |embs| :: TableOk(embs[i]))
      && forall i | 0 <= i < |cores| ::
           FitsI16(cores[i].stdMin) && cores[i].emb < |embs| && (cores[i].rule == RULE_NONE || cores[i].rule < |RULES|)
    }

    /** Without the memo. */
    function Offset(zone: nat, unixMs: i64): int
      requires Ok() && zone < |cores|
    {
      var c := cores[zone];
      if c.emb != 0 then
        var n := Passed(embs[c.emb].ts, unixMs / MS_SEC);
        if n == 0 then c.pre else embs[c.emb].off[n - 1]
      else if c.rule == RULE_NONE then c.stdMin
      else RuleOffset(c.stdMin, RULES[c.rule], unixMs)
    }
  }

  /** In a zone with a rule and no listed offsets the offset changes exactly at the two transitions of each year. */
  lemma ZoneChanges(z: Zones, zone: nat, unixMs: i64)
    requires z.Ok() && zone < |z.cores| && z.cores[zone].emb == 0 && z.cores[zone].rule != RULE_NONE
    requires FitsI64(unixMs - 1)
    ensures var c := z.cores[zone];
            var r := ExactRule(c.stdMin, RULES[c.rule], YearFromDays(unixMs / MS_DAY));
            z.Offset(zone, unixMs) != z.Offset(zone, unixMs - 1) <==> unixMs == r.on || unixMs == r.off
  {
    hide RuleOffset, ExactRule, YearFromDays, RuleOk;
    var c := z.cores[zone];
    RulesOk(c.rule);
    OffsetChanges(c.stdMin, RULES[c.rule], unixMs);
  }

  /** There it goes to daylight time at a start and back at an end, wherever the instants fit in 64 bits. */
  lemma ZoneAtTransitions(z: Zones, zone: nat, year: int)
    requires z.Ok() && zone < |z.cores| && z.cores[zone].emb == 0 && z.cores[zone].rule != RULE_NONE
    ensures var c := z.cores[zone];
            var rule := RULES[c.rule];
            var r := ExactRule(c.stdMin, rule, year);
            && (FitsI64(r.on - 1) && FitsI64(r.on) ==>
                  z.Offset(zone, r.on - 1) == c.stdMin && z.Offset(zone, r.on) == c.stdMin + rule.dstAddMin)
            && (FitsI64(r.off - 1) && FitsI64(r.off) ==>
                  z.Offset(zone, r.off - 1) == c.stdMin + rule.dstAddMin && z.Offset(zone, r.off) == c.stdMin)
  {
    hide RuleOffset, ExactRule, RuleOk;
    var c := z.cores[zone];
    RulesOk(c.rule);
    OffsetAtTransitions(c.stdMin, RULES[c.rule], year);
  }

  class Offsets {
    const z: Zones
    var zone: nat
    var year: int
    var memo: YearRule

    /** The memo is empty or holds what the rule gives for its zone and year. */
    ghost predicate Valid()
      reads this
    {
      && z.Ok()
      && (zone == 0xFFFF
          || (zone < |z.cores| && z.cores[zone].rule < |RULES|
              && memo == YearRuleOf(z.cores[zone].stdMin, RULES[z.cores[zone].rule], year)))
    }

    constructor (z: Zones)
      requires z.Ok()
      ensures Valid() && this.z == z
    {
      this.z := z;
      zone := 0xFFFF;
      year := 0;
      memo := YearRule(0, 0, 0);
    }

    /** After any calls before it, the answer is the one computed without the memo. */
    method TzOffsetMin(zone: nat, unixMs: i64) returns (off: int)
      requires Valid() && zone < |z.cores|
      modifies this
      ensures Valid() && off == z.Offset(zone, unixMs)
    {
      hide YearRuleOf, YearFromDays;
      var c := z.cores[zone];
      if c.emb != 0 {
        var t := z.embs[c.emb];
        var sec := unixMs / MS_SEC;
        if t.ts == [] || sec < t.ts[0] {
          return c.pre;
        }
        off := EmbOffset(t, unixMs);
        return;
      }
      if c.rule == RULE_NONE {
        return c.stdMin;
      }
      var y := YearFromDays(unixMs / MS_DAY);
      if !(this.zone == zone && year == y) {
        this.zone := zone;
        year := y;
        memo := YearRuleOf(c.stdMin, RULES[c.rule], y);
      }
      off := if InDst(memo, unixMs) then memo.dst else c.stdMin;
    }
  }
}
