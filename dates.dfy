/** The publication-date parser `_parse_pub_date` (identical in the news and
    the blog module): five `strptime` formats tried in order on the stripped
    text, then a search for a `Y년 M월 D일` date. */
module Dates {
  import opened Options
  import opened Text

  /** A `datetime` without microseconds; `offset` is the UTC offset in seconds
      of an aware value and `None` for a naive one. */
  datatype DateTime = DateTime(year: int, month: int, day: int,
                               hour: int, minute: int, second: int,
                               offset: Option<int>)

  predicate IsLeap(y: int) {
    y % 4 == 0 && (y % 100 != 0 || y % 400 == 0)
  }

  function DaysInMonth(y: int, m: int): (n: int)
    requires 1 <= m <= 12
    ensures 28 <= n <= 31
  {
    if m == 2 then (if IsLeap(y) then 29 else 28)
    else if m == 4 || m == 6 || m == 9 || m == 11 then 30
    else 31
  }

  predicate ValidDate(y: int, m: int, d: int) {
    1 <= y <= 9999 && 1 <= m <= 12 && 1 <= d <= DaysInMonth(y, m)
  }

  /** What the `datetime` and `timezone` constructors accept. */
  predicate Valid(t: DateTime) {
    && ValidDate(t.year, t.month, t.day)
    && 0 <= t.hour <= 23 && 0 <= t.minute <= 59 && 0 <= t.second <= 59
    && (t.offset.Some? ==> -86400 < t.offset.value < 86400)
  }

  // ---------------------------------------------------------------------
  // The pieces of the compiled `strptime` patterns. Each returns the value
  // read and the position after it, or `None` where the pattern fails.

  /** A literal of the format, compared ignoring ASCII case (`lit` is lower case). */
  function Lit(s: string, i: nat, lit: string): (r: Option<nat>)
    ensures r.Some? ==> r.value == i + |lit| <= |s|
  {
    if i + |lit| <= |s| && Lower(s[i..i + |lit|]) == lit then Some(i + |lit|) else None
  }

  /** `\s+`, which every space of a format becomes. */
  function Blanks(s: string, i: nat): (r: Option<nat>)
    requires i <= |s|
    ensures r.Some? ==> i < r.value <= |s|
  {
    var j := RunEnd(s, i, IsSpace);
    if j > i then Some(j) else None
  }

  /** A numeric field: the digit run at `i`, `minLen` to `maxLen` digits long,
      with a value between `lo` and `hi`. The alternatives of each field's
      pattern accept exactly these runs, because in every format a field is
      followed by a non-digit or by the end of the text. */
  function Field(s: string, i: nat, minLen: nat, maxLen: nat, lo: int, hi: int): (r: Option<(int, nat)>)
    requires i <= |s|
    ensures r.Some? ==> i < r.value.1 <= |s| && lo <= r.value.0 <= hi
  {
    var j := RunEnd(s, i, IsDigit);
    if 1 <= minLen <= j - i <= maxLen && lo <= DigitsValue(s[i..j]) <= hi
    then Some((DigitsValue(s[i..j]), j))
    else None
  }

  /** `%d`, whose last alternative also accepts a space and one digit. */
  function DayField(s: string, i: nat): (r: Option<(int, nat)>)
    requires i <= |s|
    ensures r.Some? ==> i < r.value.1 <= |s| && 1 <= r.value.0 <= 31
  {
    if i < |s| && s[i] == ' ' then
      (if i + 1 < |s| && '1' <= s[i + 1] <= '9' && RunEnd(s, i + 1, IsDigit) == i + 2
       then Some((s[i + 1] as int - '0' as int, i + 2)) else None)
    else Field(s, i, 1, 2, 1, 31)
  }

  const WeekdayNames: seq<string> := ["mon", "tue", "wed", "thu", "fri", "sat", "sun"]

  const MonthNames: seq<string> :=
    ["jan", "feb", "mar", "apr", "may", "jun", "jul", "aug", "sep", "oct", "nov", "dec"]

  /** `%a` or `%b`: the first of `names` found at `i`, as its index from 1. */
  function NameField(s: string, i: nat, names: seq<string>, k: nat): (r: Option<(int, nat)>)
    requires k <= |names|
    ensures r.Some? ==> k < r.value.0 <= |names| && r.value.1 <= |s|
    decreases |names| - k
  {
    if k == |names| then None
    else match Lit(s, i, names[k])
      case Some(j) => Some((k + 1, j))
      case None => NameField(s, i, names, k + 1)
  }

  /** `%Z`: of the zone names, UTC and GMT (see the README on local names). */
  function ZoneField(s: string, i: nat): (r: Option<nat>)
    ensures r.Some? ==> r.value <= |s|
  {
    if Lit(s, i, "utc").Some? then Lit(s, i, "utc") else Lit(s, i, "gmt")
  }

  function TwoDigits(s: string, i: nat): (v: int)
    requires i + 2 <= |s| && IsDigit(s[i]) && IsDigit(s[i + 1])
    ensures 0 <= v <= 99
  {
    (s[i] as int - '0' as int) * 10 + (s[i + 1] as int - '0' as int)
  }

  /** `%z`: `Z`, or a sign, two hour digits, an optional colon and two minute
      digits, then optional seconds and a fraction of up to six digits; the
      two colons must be used alike. The value is in seconds; the fraction is
      read but not kept. */
  function OffsetField(s: string, i: nat): (r: Option<(int, nat)>)
    ensures r.Some? ==> i < r.value.1 <= |s|
  {
    if i < |s| && s[i] == 'Z' then Some((0, i + 1))
    else if i + 5 <= |s| && (s[i] == '+' || s[i] == '-') && IsDigit(s[i + 1]) && IsDigit(s[i + 2]) then
      var colon := s[i + 3] == ':';
      var m := if colon then i + 4 else i + 3;
      if m + 2 <= |s| && '0' <= s[m] <= '5' && IsDigit(s[m + 1]) then
        var sign := if s[i] == '-' then -1 else 1;
        var base := TwoDigits(s, i + 1) * 3600 + TwoDigits(s, m) * 60;
        var p := m + 2;
        var colon2 := p < |s| && s[p] == ':';
        var q := if colon2 then p + 1 else p;
        if q + 2 <= |s| && '0' <= s[q] <= '5' && IsDigit(s[q + 1]) then
          var f := q + 2;
          var end := if f < |s| && s[f] == '.' && RunEnd(s, f + 1, IsDigit) > f + 1
                     then (if RunEnd(s, f + 1, IsDigit) > f + 7 then f + 7 else RunEnd(s, f + 1, IsDigit))
                     else f;
          if colon == colon2 then Some((sign * (base + TwoDigits(s, q)), end)) else None
        else Some((sign * base, p))
      else None
    else None
  }

  /** The calendar and clock fields as `strptime` leaves them. */
  datatype Fields = Fields(year: int, month: int, day: int, hour: int, minute: int, second: int)

  /** `%Y-%m-%d` from `i`. */
  function IsoDay(s: string, i: nat): (r: Option<(Fields, nat)>)
    requires i <= |s|
    ensures r.Some? ==> r.value.1 <= |s|
  {
    var (y, a) :- Field(s, i, 4, 4, 0, 9999);
    var b :- Lit(s, a, "-");
    var (m, c) :- Field(s, b, 1, 2, 1, 12);
    var d0 :- Lit(s, c, "-");
    var (d, e) :- DayField(s, d0);
    Some((Fields(y, m, d, 0, 0, 0), e))
  }

  /** `%H:%M:%S` from `i`. */
  function Clock(s: string, i: nat): (r: Option<(int, int, int, nat)>)
    requires i <= |s|
    ensures r.Some? ==> r.value.3 <= |s|
  {
    var (h, a) :- Field(s, i, 1, 2, 0, 23);
    var b :- Lit(s, a, ":");
    var (mi, c) :- Field(s, b, 1, 2, 0, 59);
    var d :- Lit(s, c, ":");
    var (sec, e) :- Field(s, d, 1, 2, 0, 61);
    Some((h, mi, sec, e))
  }

  /** `%a, %d %b %Y %H:%M:%S ` (the common head of the two RSS formats). */
  function RssHead(s: string): (r: Option<(Fields, nat)>)
    ensures r.Some? ==> r.value.1 <= |s|
  {
    var (_, a) :- NameField(s, 0, WeekdayNames, 0);
    var b :- Lit(s, a, ",");
    var c :- Blanks(s, b);
    var (d, e) :- DayField(s, c);
    var f :- Blanks(s, e);
    var (m, g) :- NameField(s, f, MonthNames, 0);
    var h :- Blanks(s, g);
    var (y, k) :- Field(s, h, 4, 4, 0, 9999);
    var l :- Blanks(s, k);
    var (hh, mi, sec, n) :- Clock(s, l);
    var p :- Blanks(s, n);
    Some((Fields(y, m, d, hh, mi, sec), p))
  }

  /** The value `strptime` builds, if the constructors accept it. */
  function Build(f: Fields, offset: Option<int>): (r: Option<DateTime>)
    ensures r.Some? ==> Valid(r.value)
  {
    var t := DateTime(f.year, f.month, f.day, f.hour, f.minute, f.second, offset);
    if Valid(t) then Some(t) else None
  }

  /** `%a, %d %b %Y %H:%M:%S %Z` (naive) or, with `aware`, `... %z`. */
  function ParseRss(s: string, aware: bool): (r: Option<DateTime>)
    ensures r.Some? ==> Valid(r.value) && (r.value.offset.Some? <==> aware)
  {
    var (f, p) :- RssHead(s);
    if aware then
      var (z, q) :- OffsetField(s, p);
      if q == |s| then Build(f, Some(z)) else None
    else
      var q :- ZoneField(s, p);
      if q == |s| then Build(f, None) else None
  }

  /** `%Y-%m-%dT%H:%M:%S%z`. */
  function ParseIsoT(s: string): (r: Option<DateTime>)
    ensures r.Some? ==> Valid(r.value) && r.value.offset.Some?
  {
    var (f, a) :- IsoDay(s, 0);
    var b :- Lit(s, a, "t");
    var (hh, mi, sec, c) :- Clock(s, b);
    var (z, q) :- OffsetField(s, c);
    if q == |s| then Build(f.(hour := hh, minute := mi, second := sec), Some(z)) else None
  }

  /** `%Y-%m-%d %H:%M:%S`. */
  function ParseStamp(s: string): (r: Option<DateTime>)
    ensures r.Some? ==> Valid(r.value) && r.value.offset.None?
  {
    var (f, a) :- IsoDay(s, 0);
    var b :- Blanks(s, a);
    var (hh, mi, sec, c) :- Clock(s, b);
    if c == |s| then Build(f.(hour := hh, minute := mi, second := sec), None) else None
  }

  /** `%Y-%m-%d`. */
  function ParseDay(s: string): (r: Option<DateTime>)
    ensures r.Some? ==> Valid(r.value) && r.value.offset.None?
  {
    var (f, a) :- IsoDay(s, 0);
    if a == |s| then Build(f, None) else None
  }

  /** `datetime.strptime(s, formats[k])`, `None` standing for `ValueError`:
      0 `%a, %d %b %Y %H:%M:%S %Z`, 1 `%a, %d %b %Y %H:%M:%S %z`,
      2 `%Y-%m-%dT%H:%M:%S%z`, 3 `%Y-%m-%d %H:%M:%S`, 4 `%Y-%m-%d`. */
  function ParseFormat(k: nat, s: string): (r: Option<DateTime>)
    requires k < 5
    ensures r.Some? ==> Valid(r.value)
    ensures r.Some? ==> (r.value.offset.Some? <==> k == 1 || k == 2)
  {
    if k == 0 then ParseRss(s, false)
    else if k == 1 then ParseRss(s, true)
    else if k == 2 then ParseIsoT(s)
    else if k == 3 then ParseStamp(s)
    else ParseDay(s)
  }

  /** The first of the formats `k..4` that parses `s`. */
  function FirstFormat(s: string, k: nat): (r: Option<DateTime>)
    requires k <= 5
    decreases 5 - k
  {
    if k == 5 then None
    else if ParseFormat(k, s).Some? then ParseFormat(k, s)
    else FirstFormat(s, k + 1)
  }

  /** `(\d{4})년\s*(\d{1,2})월\s*(\d{1,2})일` matched at `p`: year, month, day. */
  function KoreanAt(s: string, p: nat): (r: Option<(int, int, int)>)
    requires p <= |s|
  {
    if p + 5 <= |s| && (forall k | p <= k < p + 4 :: IsDigit(s[k])) && s[p + 4] == '년' then
      var a := RunEnd(s, p + 5, IsSpace);
      var b := RunEnd(s, a, IsDigit);
      if 1 <= b - a <= 2 && b < |s| && s[b] == '월' then
        var c := RunEnd(s, b + 1, IsSpace);
        var d := RunEnd(s, c, IsDigit);
        if 1 <= d - c <= 2 && d < |s| && s[d] == '일'
        then Some((DigitsValue(s[p..p + 4]), DigitsValue(s[a..b]), DigitsValue(s[c..d])))
        else None
      else None
    else None
  }

  /** `re.search` of the Korean pattern from `p`: the leftmost match. */
  function KoreanFrom(s: string, p: nat): (r: Option<(int, int, int)>)
    requires p <= |s|
    decreases |s| - p
  {
    if p == |s| then None
    else if KoreanAt(s, p).Some? then KoreanAt(s, p)
    else KoreanFrom(s, p + 1)
  }

  /** The Korean fallback: the leftmost match, as a naive midnight, or
      `None` when `datetime` rejects its fields (no later match is tried). */
  function KoreanDate(s: string): (r: Option<DateTime>)
    ensures r.Some? ==> Valid(r.value) && r.value.offset.None?
  {
    match KoreanFrom(s, 0)
    case None => None
    case Some((y, m, d)) =>
      if ValidDate(y, m, d) then Some(DateTime(y, m, d, 0, 0, 0, None)) else None
  }

  /** `_parse_pub_date`. */
  function PubDate(raw: string): (r: Option<DateTime>)
  {
    if raw == [] then None
    else match FirstFormat(Strip(raw), 0)
      case Some(t) => Some(t)
      case None => KoreanDate(raw)
  }

  /** The loop over the formats with its early return. */
  method ParsePubDate(raw: string) returns (r: Option<DateTime>)
    ensures r == PubDate(raw)
  {
    if raw == [] {
      return None;
    }
    var s := Strip(raw);
    for k := 0 to 5
      invariant FirstFormat(s, 0) == FirstFormat(s, k)
    {
      var parsed := ParseFormat(k, s);
      if parsed.Some? {
        return parsed;
      }
    }
    r := KoreanDate(raw);
  }

  /** Every parsed date is one the `datetime` constructors accept. */
  lemma {:induction false} PubDateValid(raw: string)
    ensures PubDate(raw).Some? ==> Valid(PubDate(raw).value)
  {
    if raw != [] {
      FirstFormatValid(Strip(raw), 0);
    }
  }

  lemma {:induction false} FirstFormatValid(s: string, k: nat)
    requires k <= 5
    ensures FirstFormat(s, k).Some? ==> Valid(FirstFormat(s, k).value)
    ensures FirstFormat(s, k).Some? && FirstFormat(s, k).value.offset.Some? ==>
      exists j :: k <= j < 5 && (j == 1 || j == 2) && FirstFormat(s, k) == ParseFormat(j, s)
    decreases 5 - k
  {
    if k < 5 && ParseFormat(k, s).None? {
      FirstFormatValid(s, k + 1);
    }
  }

  /** An empty string gives no date. */
  lemma PubDateEmpty()
    ensures PubDate("") == None
  {
  }

  /** A format wins exactly when it parses and every earlier one fails. */
  lemma {:induction false} FirstFormatWins(s: string, k: nat)
    requires k < 5
    requires ParseFormat(k, s).Some?
    requires forall j :: 0 <= j < k ==> ParseFormat(j, s).None?
    ensures FirstFormat(s, 0) == ParseFormat(k, s)
  {
    FirstFormatFrom(s, 0, k);
  }

  lemma {:induction false} FirstFormatFrom(s: string, i: nat, k: nat)
    requires i <= k < 5
    requires ParseFormat(k, s).Some?
    requires forall j :: i <= j < k ==> ParseFormat(j, s).None?
    ensures FirstFormat(s, i) == ParseFormat(k, s)
    decreases k - i
  {
    if i < k {
      FirstFormatFrom(s, i + 1, k);
    }
  }

  /** An aware result (one with a UTC offset) only comes from the two formats
      with `%z`. */
  lemma PubDateAware(raw: string)
    requires PubDate(raw).Some? && PubDate(raw).value.offset.Some?
    ensures exists j :: (j == 1 || j == 2) && PubDate(raw) == ParseFormat(j, Strip(raw))
  {
    FirstFormatValid(Strip(raw), 0);
  }

  // ---------------------------------------------------------------------
  // Comparison and display of naive values.

  function DaysInYear(y: int): int {
    if IsLeap(y) then 366 else 365
  }

  /** The days of the proleptic Gregorian calendar before 1 January of `y`. */
  function DaysBeforeYear(y: int): int
    requires y >= 1
  {
    var p := y - 1;
    p * 365 + p / 4 - p / 100 + p / 400
  }

  /** The days of year `y` before the first of month `m` (13 for the year's end). */
  function DaysBeforeMonth(y: int, m: int): (n: int)
    requires 1 <= m <= 13
    ensures n >= 0
    decreases m
  {
    if m == 1 then 0 else DaysBeforeMonth(y, m - 1) + DaysInMonth(y, m - 1)
  }

  /** `date.toordinal()`: day 1 is 1 January of year 1. */
  function Ordinal(t: DateTime): int
    requires Valid(t)
  {
    DaysBeforeYear(t.year) + DaysBeforeMonth(t.year, t.month) + t.day
  }

  /** The seconds since `datetime.min`, the sort key of a naive value. */
  function Seconds(t: DateTime): int
    requires Valid(t)
  {
    (Ordinal(t) - 1) * 86400 + TimeOfDay(t)
  }

  /** `a < b` between naive `datetime` values: the fields compared in order. */
  predicate Before(a: DateTime, b: DateTime) {
    if a.year != b.year then a.year < b.year
    else if a.month != b.month then a.month < b.month
    else if a.day != b.day then a.day < b.day
    else if a.hour != b.hour then a.hour < b.hour
    else if a.minute != b.minute then a.minute < b.minute
    else a.second < b.second
  }

  function TimeOfDay(t: DateTime): int {
    t.hour * 3600 + t.minute * 60 + t.second
  }

  /** One year on, `p / 4` grows by one exactly when 4 divides the new year. */
  lemma Quarters(p: int)
    requires p >= 0
    ensures (p + 1) / 4 == p / 4 + (if (p + 1) % 4 == 0 then 1 else 0)
  {
  }

  lemma Centuries(p: int)
    requires p >= 0
    ensures (p + 1) / 100 == p / 100 + (if (p + 1) % 100 == 0 then 1 else 0)
  {
  }

  lemma FourCenturies(p: int)
    requires p >= 0
    ensures (p + 1) / 400 == p / 400 + (if (p + 1) % 400 == 0 then 1 else 0)
  {
  }

  lemma Divisors(y: int)
    ensures y % 400 == 0 ==> y % 100 == 0
    ensures y % 100 == 0 ==> y % 4 == 0
  {
    if y % 400 == 0 {
      var k := y / 400;
      assert y == 100 * (4 * k);
      Hundreds(4 * k);
    }
    if y % 100 == 0 {
      var k := y / 100;
      assert y == 4 * (25 * k);
      Fours(25 * k);
    }
  }

  lemma Hundreds(j: int)
    ensures (100 * j) % 100 == 0
  {
  }

  lemma Fours(j: int)
    ensures (4 * j) % 4 == 0
  {
  }

  lemma {:induction false} YearStep(y: int)
    requires y >= 1
    ensures DaysBeforeYear(y + 1) == DaysBeforeYear(y) + DaysInYear(y)
  {
    Quarters(y - 1);
    Centuries(y - 1);
    FourCenturies(y - 1);
    Divisors(y);
  }

  lemma {:induction false} YearsOrdered(a: int, b: int)
    requires 1 <= a < b
    ensures DaysBeforeYear(a) + DaysInYear(a) <= DaysBeforeYear(b)
    decreases b - a
  {
    YearStep(a);
    if a + 1 < b {
      YearsOrdered(a + 1, b);
      YearStep(a + 1);
    }
  }

  lemma {:induction false} MonthsOrdered(y: int, a: int, b: int)
    requires 1 <= a < b <= 13
    ensures DaysBeforeMonth(y, a) + DaysInMonth(y, a) <= DaysBeforeMonth(y, b)
    decreases b - a
  {
    if a + 1 < b {
      MonthsOrdered(y, a + 1, b);
    }
  }

  lemma YearLength(y: int)
    ensures DaysBeforeMonth(y, 13) == DaysInYear(y)
  {
  }

  lemma TimeOfDayBounds(t: DateTime)
    requires Valid(t)
    ensures 0 <= TimeOfDay(t) < 86400
  {
  }

  /** The day numbers of two valid dates follow the calendar order. */
  lemma {:induction false} OrdinalOrdered(a: DateTime, b: DateTime)
    requires Valid(a) && Valid(b)
    requires a.year < b.year || (a.year == b.year && (a.month < b.month || (a.month == b.month && a.day < b.day)))
    ensures Ordinal(a) < Ordinal(b)
  {
    var da := DaysBeforeMonth(a.year, a.month) + a.day;
    var db := DaysBeforeMonth(b.year, b.month) + b.day;
    assert Ordinal(a) == DaysBeforeYear(a.year) + da;
    assert Ordinal(b) == DaysBeforeYear(b.year) + db;
    if a.year < b.year {
      MonthsOrdered(a.year, a.month, 13);
      YearLength(a.year);
      assert da <= DaysInYear(a.year);
      YearsOrdered(a.year, b.year);
    } else if a.month < b.month {
      MonthsOrdered(a.year, a.month, b.month);
    }
  }

  /** The integer key orders naive values exactly as `datetime` compares them,
      so sorting by it sorts by publication time. */
  lemma {:induction false} SecondsOrder(a: DateTime, b: DateTime)
    requires Valid(a) && Valid(b)
    ensures Seconds(a) < Seconds(b) <==> Before(a, b)
    ensures Seconds(a) == Seconds(b) <==> a.(offset := b.offset) == b
  {
    TimeOfDayBounds(a);
    TimeOfDayBounds(b);
    if a.year != b.year || a.month != b.month || a.day != b.day {
      if Before(a, b) {
        OrdinalOrdered(a, b);
      } else {
        OrdinalOrdered(b, a);
      }
    }
  }

  /** `datetime.min`, the key of an undated item, lies before every date. */
  lemma SecondsNonNegative(t: DateTime)
    requires Valid(t)
    ensures Seconds(t) >= 0
  {
    assert DaysBeforeYear(t.year) >= 0;
  }

  /** `strftime("%Y-%m-%d")`; the year is not zero-padded (as with glibc). */
  function DayText(t: DateTime): string
    requires Valid(t)
  {
    NatToString(t.year) + "-" + Pad2(t.month) + "-" + Pad2(t.day)
  }

  /** `strftime("%Y-%m-%d %H:%M")`, the shown publication time: the full
      time stamp without its seconds (`DisplayReadsBack`). */
  function Display(t: DateTime): (r: string)
    requires Valid(t)
    ensures |r| == |NatToString(t.year)| + 12
    ensures r + ":" + Pad2(t.second) == StampText(t)
  {
    ClockAssoc(DayText(t), Pad2(t.hour), Pad2(t.minute), Pad2(t.second));
    DayText(t) + " " + Pad2(t.hour) + ":" + Pad2(t.minute)
  }

  lemma ClockAssoc(day: string, h: string, mi: string, sec: string)
    ensures day + " " + h + ":" + mi + ":" + sec == day + (" " + h + ":" + mi + ":" + sec)
  {
  }

  /** The shown time reads back as the date, the hour and the minute. */
  lemma {:induction false} DisplayReadsBack(t: DateTime)
    requires Valid(t) && 1000 <= t.year
    ensures var s := Display(t);
      && |s| == 16
      && IsoDay(s, 0) == Some((Fields(t.year, t.month, t.day, 0, 0, 0), 10))
      && s[10] == ' ' && s[13] == ':'
      && Field(s, 11, 1, 2, 0, 23) == Some((t.hour, 13))
      && Field(s, 14, 1, 2, 0, 59) == Some((t.minute, 16))
  {
    var s := Display(t);
    DisplayShape(t);
    IsoDayRoundTrip(t, s[10..]);
    assert s == DayText(t) + s[10..];
    PaddedClockField(s, 11, t.hour, 23);
    PaddedClockField(s, 14, t.minute, 59);
  }

  /** Where the pieces of the shown time lie. */
  lemma DisplayShape(t: DateTime)
    requires Valid(t) && 1000 <= t.year
    ensures var s := Display(t);
      && |s| == 16 && s[10] == ' ' && s[13] == ':'
      && s == DayText(t) + s[10..]
      && s[11..13] == Pad2(t.hour) && s[14..16] == Pad2(t.minute)
  {
    var rest := " " + Pad2(t.hour) + ":" + Pad2(t.minute);
    var s := Display(t);
    assert s == DayText(t) + rest;
    DayTextShape(t, rest);
    assert s[11..13] == rest[1..3];
    assert s[14..16] == rest[4..6];
  }

  /** `strftime("%Y-%m-%d %H:%M:%S")`. */
  function StampText(t: DateTime): string
    requires Valid(t)
  {
    DayText(t) + TimeText(t)
  }

  /** The `" %H:%M:%S"` part of `StampText`. */
  function TimeText(t: DateTime): string
    requires Valid(t)
  {
    " " + Pad2(t.hour) + ":" + Pad2(t.minute) + ":" + Pad2(t.second)
  }

  lemma RunEndAt(s: string, i: nat, j: nat, p: char -> bool)
    requires i <= j <= |s|
    requires forall k :: i <= k < j ==> p(s[k])
    requires j == |s| || !p(s[j])
    ensures RunEnd(s, i, p) == j
  {
  }

  /** A two-digit field written by `Pad2` reads back as its value. */
  lemma {:induction false} PaddedField(s: string, i: nat, n: nat, lo: int, hi: int)
    requires lo <= n <= hi && n < 100 && 1 <= lo
    requires i + 2 <= |s| && s[i..i + 2] == Pad2(n)
    requires i + 2 == |s| || !IsDigit(s[i + 2])
    ensures Field(s, i, 1, 2, lo, hi) == Some((n, i + 2))
  {
    RunEndAt(s, i, i + 2, IsDigit);
    DigitsValueOfPad2(n);
  }

  lemma PaddedClockField(s: string, i: nat, n: nat, hi: int)
    requires 0 <= n <= hi && n < 100
    requires i + 2 <= |s| && s[i..i + 2] == Pad2(n)
    requires i + 2 == |s| || !IsDigit(s[i + 2])
    ensures Field(s, i, 1, 2, 0, hi) == Some((n, i + 2))
  {
    RunEndAt(s, i, i + 2, IsDigit);
    DigitsValueOfPad2(n);
  }

  /** Where the pieces of `DayText` lie. */
  lemma DayTextShape(t: DateTime, rest: string)
    requires Valid(t) && 1000 <= t.year
    ensures var s := DayText(t) + rest;
      && |DayText(t)| == 10 && |s| == 10 + |rest| && s[10..] == rest
      && s[..4] == NatToString(t.year) && s[4] == '-' && s[7] == '-'
      && s[5..7] == Pad2(t.month) && s[8..10] == Pad2(t.day)
  {
    var s := DayText(t) + rest;
    var y := NatToString(t.year);
    assert DayText(t) == y + "-" + Pad2(t.month) + "-" + Pad2(t.day);
    assert s[..4] == y;
  }

  /** A one-character literal matches where that character stands. */
  lemma LitAt(s: string, i: nat, c: char)
    requires i < |s| && s[i] == c && LowerChar(c) == c
    ensures Lit(s, i, [c]) == Some(i + 1)
  {
    assert Lower(s[i..i + 1]) == [LowerChar(s[i])];
  }

  /** The four-digit year at the start reads back. */
  lemma {:induction false} YearRead(s: string, year: nat)
    requires 1000 <= year <= 9999
    requires 4 <= |s| && s[..4] == NatToString(year)
    requires |s| == 4 || !IsDigit(s[4])
    ensures Field(s, 0, 4, 4, 0, 9999) == Some((year, 4))
  {
    assert s[0..4] == s[..4];
    RunEndAt(s, 0, 4, IsDigit);
    DigitsValueOfNatToString(year);
  }

  /** The date part reads back through `%Y-%m-%d`. */
  lemma {:induction false} IsoDayRoundTrip(t: DateTime, rest: string)
    requires Valid(t) && 1000 <= t.year
    requires rest == [] || !IsDigit(rest[0])
    ensures IsoDay(DayText(t) + rest, 0) == Some((Fields(t.year, t.month, t.day, 0, 0, 0), 10))
  {
    var s := DayText(t) + rest;
    DayTextShape(t, rest);
    YearRead(s, t.year);
    LitAt(s, 4, '-');
    PaddedField(s, 5, t.month, 1, 12);
    LitAt(s, 7, '-');
    assert s[8] != ' ' by {
      assert s[8] == Pad2(t.day)[0];
    }
    assert s[10..] == rest;
    PaddedField(s, 8, t.day, 1, 31);
  }

  /** The two RSS formats need a weekday name at the start. */
  lemma RssNeedsName(s: string)
    requires s != [] && IsDigit(s[0])
    ensures ParseFormat(0, s) == None && ParseFormat(1, s) == None
  {
    NamesNeedLetter(s, WeekdayNames, 0);
    assert RssHead(s) == None;
    assert ParseRss(s, false) == None;
  }

  /** No format but `%Y-%m-%d` reads a bare date. */
  lemma {:induction false} DayTextParses(t: DateTime)
    requires Valid(t) && 1000 <= t.year && t.offset.None?
    ensures PubDate(DayText(t)) == Some(t.(hour := 0, minute := 0, second := 0))
  {
    var s := DayText(t);
    var f := Fields(t.year, t.month, t.day, 0, 0, 0);
    assert s == s + [];
    IsoDayRoundTrip(t, []);
    DayTextShape(t, []);
    assert Build(f, None) == Some(t.(hour := 0, minute := 0, second := 0));
    DayParses(s, f);
  }

  /** A text that is a date and nothing more is published on that date. */
  lemma DayParses(s: string, f: Fields)
    requires s != [] && IsDigit(s[0]) && IsDigit(s[|s| - 1])
    requires IsoDay(s, 0) == Some((f, |s|)) && Build(f, None).Some?
    ensures PubDate(s) == Build(f, None)
  {
    DayOnlyFormats(s, f);
    FirstFormatWins(s, 4);
    StripUnchanged(s);
  }

  /** A text that is a date and nothing more is neither of the formats with
      a time, and reads back through `%Y-%m-%d`. */
  lemma DayOnlyFormats(s: string, f: Fields)
    requires s != [] && IsDigit(s[0])
    requires IsoDay(s, 0) == Some((f, |s|))
    ensures forall j :: 0 <= j < 4 ==> ParseFormat(j, s).None?
    ensures ParseFormat(4, s) == Build(f, None)
  {
    RssNeedsName(s);
    assert Lit(s, |s|, "t") == None;
    RunEndAt(s, |s|, |s|, IsSpace);
    assert Blanks(s, |s|) == None;
  }

  /** A time stamp printed with seconds reads back through `%Y-%m-%d %H:%M:%S`. */
  lemma {:induction false} StampTextParses(t: DateTime)
    requires Valid(t) && 1000 <= t.year && t.offset.None?
    ensures PubDate(StampText(t)) == Some(t)
  {
    var s := StampText(t);
    StampFormats(t);
    FirstFormatWins(s, 3);
    assert s[0] == DayText(t)[0];
    StripUnchanged(s);
  }

  lemma {:induction false} StampFormats(t: DateTime)
    requires Valid(t) && 1000 <= t.year && t.offset.None?
    ensures forall j :: 0 <= j < 3 ==> ParseFormat(j, StampText(t)).None?
    ensures ParseFormat(3, StampText(t)) == Some(t)
  {
    var s := StampText(t);
    assert s[0] == DayText(t)[0];
    RssNeedsName(s);
    StampNotIsoT(t);
    StampReadsBack(t);
  }

  lemma {:induction false} StampNotIsoT(t: DateTime)
    requires Valid(t) && 1000 <= t.year
    ensures ParseIsoT(StampText(t)) == None
  {
    var s := StampText(t);
    IsoDayRoundTrip(t, TimeText(t));
    StampSpace(t);
    SpaceIsNotLit(s, 10, "t");
  }

  /** The date and the clock of a time stamp are parted by one space. */
  lemma StampSpace(t: DateTime)
    requires Valid(t) && 1000 <= t.year
    ensures |StampText(t)| == 19 && StampText(t)[10] == ' '
    ensures IsSpace(StampText(t)[10]) && !IsSpace(StampText(t)[11])
  {
    var s := StampText(t);
    assert |DayText(t)| == 10;
    assert s[10] == TimeText(t)[0];
    assert s[11] == TimeText(t)[1] == Pad2(t.hour)[0];
  }

  /** A literal that does not start with a space misses at a space. */
  lemma SpaceIsNotLit(s: string, i: nat, lit: string)
    requires i < |s| && s[i] == ' ' && lit != [] && lit[0] != ' '
    ensures Lit(s, i, lit) == None
  {
    if i + |lit| <= |s| {
      assert Lower(s[i..i + |lit|])[0] == LowerChar(s[i]) == ' ';
    }
  }

  lemma {:induction false} StampReadsBack(t: DateTime)
    requires Valid(t) && 1000 <= t.year && t.offset.None?
    ensures ParseStamp(StampText(t)) == Some(t)
  {
    var s := StampText(t);
    var f := Fields(t.year, t.month, t.day, 0, 0, 0);
    StampDay(t);
    StampClock(t, s);
    StampSpace(t);
    BlankAt(s, 10);
    StampPieces(s, f, t.hour, t.minute, t.second);
    assert f.(hour := t.hour, minute := t.minute, second := t.second)
      == Fields(t.year, t.month, t.day, t.hour, t.minute, t.second);
  }

  lemma StampDay(t: DateTime)
    requires Valid(t) && 1000 <= t.year
    ensures IsoDay(StampText(t), 0) == Some((Fields(t.year, t.month, t.day, 0, 0, 0), 10))
  {
    assert TimeText(t)[0] == ' ';
    IsoDayRoundTrip(t, TimeText(t));
  }

  /** A single whitespace character is a run of blanks. */
  lemma BlankAt(s: string, i: nat)
    requires i + 1 < |s| && IsSpace(s[i]) && !IsSpace(s[i + 1])
    ensures Blanks(s, i) == Some(i + 1)
  {
    RunEndAt(s, i, i + 1, IsSpace);
  }

  /** `ParseStamp` assembles the day, the blanks and the clock it reads. */
  lemma StampPieces(s: string, f: Fields, hh: int, mi: int, sec: int)
    requires |s| > 10 && IsoDay(s, 0) == Some((f, 10)) && Blanks(s, 10) == Some(11)
    requires 11 <= |s| && Clock(s, 11) == Some((hh, mi, sec, |s|))
    ensures ParseStamp(s) == Build(f.(hour := hh, minute := mi, second := sec), None)
  {
  }

  lemma {:induction false} StampClock(t: DateTime, s: string)
    requires Valid(t) && 1000 <= t.year && s == StampText(t)
    ensures Clock(s, 11) == Some((t.hour, t.minute, t.second, |s|))
  {
    StampShape(t, s);
    PaddedClockField(s, 11, t.hour, 23);
    LitAt(s, 13, ':');
    PaddedClockField(s, 14, t.minute, 59);
    LitAt(s, 16, ':');
    PaddedClockField(s, 17, t.second, 61);
  }

  /** Where the clock fields stand in a printed time stamp. */
  lemma StampShape(t: DateTime, s: string)
    requires Valid(t) && 1000 <= t.year && s == StampText(t)
    ensures |s| == 19 && s[13] == ':' && s[16] == ':'
    ensures s[11..13] == Pad2(t.hour) && s[14..16] == Pad2(t.minute) && s[17..19] == Pad2(t.second)
  {
    var tt := TimeText(t);
    assert |DayText(t)| == 10;
    assert |tt| == 9;
    SliceRight(DayText(t), tt, 11, 2);
    SliceRight(DayText(t), tt, 14, 2);
    SliceRight(DayText(t), tt, 17, 2);
    assert s[13] == tt[3] && s[16] == tt[6];
  }

  /** `%a` cannot match where the text does not start with a letter. */
  lemma {:induction false} NamesNeedLetter(s: string, names: seq<string>, k: nat)
    requires k <= |names|
    requires forall j :: 0 <= j < |names| ==> names[j] != [] && IsLowerLetter(names[j][0])
    requires s != [] && IsDigit(s[0])
    ensures NameField(s, 0, names, k) == None
    decreases |names| - k
  {
    if k < |names| {
      assert Lit(s, 0, names[k]) == None by {
        if |names[k]| <= |s| {
          assert Lower(s[0..|names[k]|])[0] == LowerChar(s[0]);
        }
      }
      NamesNeedLetter(s, names, k + 1);
    }
  }
}
