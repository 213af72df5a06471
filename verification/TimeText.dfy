/** The SQLite driver's stored times: "YYYY-MM-DD HH:MM:SS" in UTC. */
module TimeText {
  import opened Wrappers
  import opened TextOrder
  import Jobs

  // ----- the calendar -----

  predicate Leap(y: nat) {
    y % 4 == 0 && (y % 100 != 0 || y % 400 == 0)
  }

  function YearLength(y: nat): nat {
    if Leap(y) then 366 else 365
  }

  function MonthLength(y: nat, m: nat): nat
    requires 1 <= m <= 12
  {
    if m == 2 then (if Leap(y) then 29 else 28)
    else if m == 4 || m == 6 || m == 9 || m == 11 then 30
    else 31
  }

  /** Days from 1 January of year 0 to 1 January of year y. */
  function YearStart(y: nat): nat {
    if y == 0 then 0 else YearStart(y - 1) + YearLength(y - 1)
  }

  /** Days from 1 January to the first of month m. */
  function MonthStart(y: nat, m: nat): nat
    requires 1 <= m <= 13
  {
    if m == 1 then 0 else MonthStart(y, m - 1) + MonthLength(y, m - 1)
  }

  lemma MonthsFillYear(y: nat)
    ensures MonthStart(y, 13) == YearLength(y)
  {
    var feb := YearLength(y) - 337;
    assert MonthStart(y, 2) == 31;
    assert MonthStart(y, 4) == 62 + feb;
    assert MonthStart(y, 6) == 123 + feb;
    assert MonthStart(y, 8) == 184 + feb;
    assert MonthStart(y, 10) == 245 + feb;
    assert MonthStart(y, 12) == 306 + feb;
  }

  lemma {:induction false} YearStartMonotone(a: nat, b: nat)
    requires a <= b
    ensures YearStart(a) <= YearStart(b)
    decreases b
  {
    if a < b {
      YearStartMonotone(a, b - 1);
    }
  }

  lemma {:induction false} MonthStartMonotone(y: nat, a: nat, b: nat)
    requires 1 <= a <= b <= 13
    ensures MonthStart(y, a) <= MonthStart(y, b)
    decreases b
  {
    if a < b {
      MonthStartMonotone(y, a, b - 1);
    }
  }

  datatype Civil = Civil(year: nat, month: nat, day: nat, hour: nat, minute: nat, second: nat)

  predicate ValidCivil(c: Civil) {
    c.year <= 9999 && 1 <= c.month <= 12 && 1 <= c.day <= MonthLength(c.year, c.month)
    && c.hour < 24 && c.minute < 60 && c.second < 60
  }

  function DayNumber(c: Civil): nat
    requires ValidCivil(c)
  {
    YearStart(c.year) + MonthStart(c.year, c.month) + c.day - 1
  }

  /** Seconds since the start of year 0. */
  function Seconds(c: Civil): nat
    requires ValidCivil(c)
  {
    DayNumber(c) * 86400 + c.hour * 3600 + c.minute * 60 + c.second
  }

  /** Field by field, years first. */
  predicate CivilLt(a: Civil, b: Civil) {
    a.year < b.year || (a.year == b.year &&
    (a.month < b.month || (a.month == b.month &&
    (a.day < b.day || (a.day == b.day &&
    (a.hour < b.hour || (a.hour == b.hour &&
    (a.minute < b.minute || (a.minute == b.minute && a.second < b.second)))))))))
  }

  lemma DateOrder(a: Civil, b: Civil)
    requires ValidCivil(a) && ValidCivil(b)
    requires a.year < b.year || (a.year == b.year && (a.month < b.month || (a.month == b.month && a.day < b.day)))
    ensures DayNumber(a) < DayNumber(b)
  {
    if a.year < b.year {
      YearStartMonotone(a.year + 1, b.year);
      MonthsFillYear(a.year);
      MonthStartMonotone(a.year, a.month + 1, 13);
    } else if a.month < b.month {
      MonthStartMonotone(a.year, a.month + 1, b.month);
    }
  }

  lemma CivilOrder(a: Civil, b: Civil)
    requires ValidCivil(a) && ValidCivil(b) && CivilLt(a, b)
    ensures Seconds(a) < Seconds(b)
  {
    if a.year < b.year || (a.year == b.year && (a.month < b.month || (a.month == b.month && a.day < b.day))) {
      DateOrder(a, b);
    }
  }

  // ----- from seconds to fields -----

  function FindYear(day: nat, y: nat): (r: nat)
    requires YearStart(y) <= day
    ensures y <= r && YearStart(r) <= day < YearStart(r + 1)
    decreases day - YearStart(y)
  {
    if day < YearStart(y + 1) then y else FindYear(day, y + 1)
  }

  function FindMonth(y: nat, day: nat, m: nat): (r: nat)
    requires 1 <= m <= 12 && MonthStart(y, m) <= day < YearLength(y)
    ensures 1 <= r <= 12 && MonthStart(y, r) <= day < MonthStart(y, r + 1)
    decreases 12 - m
  {
    MonthsFillYear(y);
    if m == 12 || day < MonthStart(y, m + 1) then m else FindMonth(y, day, m + 1)
  }

  /** The second lies in the years 0000 to 9999. */
  predicate InRange(sec: nat) {
    FindYear(sec / 86400, 0) <= 9999
  }

  function FromSeconds(sec: nat): (c: Civil)
    requires InRange(sec)
    ensures ValidCivil(c) && Seconds(c) == sec
  {
    var days, rest := sec / 86400, sec % 86400;
    var y := FindYear(days, 0);
    var m := FindMonth(y, days - YearStart(y), 1);
    Civil(y, m, days - YearStart(y) - MonthStart(y, m) + 1, rest / 3600, rest % 3600 / 60, rest % 60)
  }

  /** The range is exactly the dates of those years, and the fields of an instant are its only ones. */
  lemma EveryDateInRange(c: Civil)
    requires ValidCivil(c)
    ensures InRange(Seconds(c)) && FromSeconds(Seconds(c)) == c
  {
    var days := Seconds(c) / 86400;
    assert days == DayNumber(c);
    MonthsFillYear(c.year);
    MonthStartMonotone(c.year, c.month + 1, 13);
    var y := FindYear(days, 0);
    if y < c.year {
      YearStartMonotone(y + 1, c.year);
    } else if c.year < y {
      YearStartMonotone(c.year + 1, y);
    }
    var back := FromSeconds(Seconds(c));
    if CivilLt(back, c) {
      CivilOrder(back, c);
    } else if CivilLt(c, back) {
      CivilOrder(c, back);
    }
  }

  // ----- digits -----

  function Pow10(w: nat): nat {
    if w == 0 then 1 else 10 * Pow10(w - 1)
  }

  function Digit(n: nat): char
    requires n < 10
  {
    ('0' as int + n) as char
  }

  /** n in decimal, zero-padded to w digits. */
  function Digits(n: nat, w: nat): (s: string)
    ensures |s| == w
  {
    if w == 0 then "" else Digits(n / 10, w - 1) + [Digit(n % 10)]
  }

  lemma {:induction false} DigitsOrder(a: nat, b: nat, w: nat)
    requires a < Pow10(w) && b < Pow10(w)
    ensures LexLe(Digits(a, w), Digits(b, w)) <==> a <= b
    ensures Digits(a, w) == Digits(b, w) <==> a == b
  {
    if w > 0 {
      var x, y := Digits(a / 10, w - 1), Digits(b / 10, w - 1);
      DigitsOrder(a / 10, b / 10, w - 1);
      LexConcat(x, [Digit(a % 10)], y, [Digit(b % 10)]);
      assert x == (x + [Digit(a % 10)])[..w - 1] && y == (y + [Digit(b % 10)])[..w - 1];
      assert Digits(a, w)[w - 1] == Digit(a % 10) && Digits(b, w)[w - 1] == Digit(b % 10);
    }
  }

  function ParseDigits(s: string): Option<nat> {
    if s == "" then Some(0)
    else
      var high, last := ParseDigits(s[..|s| - 1]), s[|s| - 1];
      if high.None? || !('0' <= last <= '9') then None else Some(10 * high.value + (last as nat - '0' as nat))
  }

  lemma {:induction false} ParseDigitsBack(n: nat, w: nat)
    requires n < Pow10(w)
    ensures ParseDigits(Digits(n, w)) == Some(n)
  {
    if w > 0 {
      ParseDigitsBack(n / 10, w - 1);
      assert Digits(n, w)[..w - 1] == Digits(n / 10, w - 1);
    }
  }

  // ----- the text -----

  function Format(c: Civil): string {
    Digits(c.year, 4) + ("-" + (Digits(c.month, 2) + ("-" + (Digits(c.day, 2) + (" " +
    (Digits(c.hour, 2) + (":" + (Digits(c.minute, 2) + (":" + Digits(c.second, 2))))))))))
  }

  /** One numeric field followed by a separator and the rest. */
  lemma FieldOrder(a: nat, b: nat, w: nat, sep: string, restA: string, restB: string)
    requires a < Pow10(w) && b < Pow10(w)
    ensures LexLe(Digits(a, w) + (sep + restA), Digits(b, w) + (sep + restB)) <==>
      a < b || (a == b && LexLe(restA, restB))
  {
    DigitsOrder(a, b, w);
    LexConcat(Digits(a, w), sep + restA, Digits(b, w), sep + restB);
    LexConcat(sep, restA, sep, restB);
  }

  lemma MonthShort(y: nat, m: nat)
    requires 1 <= m <= 12
    ensures MonthLength(y, m) <= 31
  {
  }

  /** The stored texts compare as their fields do. */
  lemma FormatOrder(a: Civil, b: Civil)
    requires ValidCivil(a) && ValidCivil(b)
    ensures LexLe(Format(a), Format(b)) <==> CivilLt(a, b) || a == b
  {
    assert Pow10(2) == 100 && Pow10(4) == 10000;
    MonthShort(a.year, a.month);
    MonthShort(b.year, b.month);
    var sa, sb := Digits(a.second, 2), Digits(b.second, 2);
    var ma, mb := Digits(a.minute, 2) + (":" + sa), Digits(b.minute, 2) + (":" + sb);
    var ha, hb := Digits(a.hour, 2) + (":" + ma), Digits(b.hour, 2) + (":" + mb);
    var da, db := Digits(a.day, 2) + (" " + ha), Digits(b.day, 2) + (" " + hb);
    var oa, ob := Digits(a.month, 2) + ("-" + da), Digits(b.month, 2) + ("-" + db);
    DigitsOrder(a.second, b.second, 2);
    FieldOrder(a.minute, b.minute, 2, ":", sa, sb);
    FieldOrder(a.hour, b.hour, 2, ":", ma, mb);
    FieldOrder(a.day, b.day, 2, " ", ha, hb);
    FieldOrder(a.month, b.month, 2, "-", da, db);
    FieldOrder(a.year, b.year, 4, "-", oa, ob);
  }

  function TwoDigits(t: string, i: nat): Option<nat>
    requires i + 2 <= |t|
  {
    ParseDigits(t[i..i + 2])
  }

  /** parseTime: the instant the text names, none when it is not in the format. */
  function ParseTime(t: string): Option<nat> {
    if |t| != 19 || t[4] != '-' || t[7] != '-' || t[10] != ' ' || t[13] != ':' || t[16] != ':' then None
    else
      var y, mo, d := ParseDigits(t[..4]), TwoDigits(t, 5), TwoDigits(t, 8);
      var h, mi, s := TwoDigits(t, 11), TwoDigits(t, 14), TwoDigits(t, 17);
      if y.None? || mo.None? || d.None? || h.None? || mi.None? || s.None? then None
      else
        var c := Civil(y.value, mo.value, d.value, h.value, mi.value, s.value);
        if ValidCivil(c) then Some(Seconds(c)) else None
  }

  lemma FormatLayout(c: Civil)
    ensures var t := Format(c);
      && |t| == 19 && t[4] == '-' && t[7] == '-' && t[10] == ' ' && t[13] == ':' && t[16] == ':'
      && t[..4] == Digits(c.year, 4) && t[5..7] == Digits(c.month, 2) && t[8..10] == Digits(c.day, 2)
      && t[11..13] == Digits(c.hour, 2) && t[14..16] == Digits(c.minute, 2) && t[17..19] == Digits(c.second, 2)
  {
    var t, sec := Format(c), Digits(c.second, 2);
    assert t[17] == sec[0] && t[18] == sec[1];
    assert t[17..19] == [sec[0], sec[1]] == sec;
  }

  lemma FormatParsesBack(c: Civil)
    requires ValidCivil(c)
    ensures ParseTime(Format(c)) == Some(Seconds(c))
  {
    assert Pow10(2) == 100 && Pow10(4) == 10000;
    MonthShort(c.year, c.month);
    FormatLayout(c);
    ParseDigitsBack(c.year, 4);
    ParseDigitsBack(c.month, 2);
    ParseDigitsBack(c.day, 2);
    ParseDigitsBack(c.hour, 2);
    ParseDigitsBack(c.minute, 2);
    ParseDigitsBack(c.second, 2);
  }

  /** The stored text of an instant in milliseconds since the start of year 0. */
  function Text(ms: nat): string
    requires InRange(ms / 1000)
  {
    Format(FromSeconds(ms / 1000))
  }

  lemma LtIsNotLe(a: string, b: string)
    ensures LexLt(a, b) <==> !LexLe(b, a)
  {
    LexTotal(a, b);
    LexReflexive(a);
    if LexLe(a, b) && LexLe(b, a) {
      LexAntisymmetric(a, b);
    }
  }

  lemma TextLe(a: nat, b: nat)
    requires InRange(a / 1000) && InRange(b / 1000)
    ensures LexLe(Text(a), Text(b)) <==> a / 1000 <= b / 1000
  {
    var x, y := FromSeconds(a / 1000), FromSeconds(b / 1000);
    FormatOrder(x, y);
    if CivilLt(x, y) {
      CivilOrder(x, y);
    } else if CivilLt(y, x) {
      CivilOrder(y, x);
    }
  }

  /** For years 0000 to 9999, comparing stored texts is comparing whole-second instants. */
  lemma TextOrderIsTimeOrder(a: nat, b: nat)
    requires InRange(a / 1000) && InRange(b / 1000)
    ensures LexLe(Text(a), Text(b)) <==> a / 1000 <= b / 1000
    ensures LexLt(Text(a), Text(b)) <==> a / 1000 < b / 1000
  {
    TextLe(a, b);
    TextLe(b, a);
    LtIsNotLe(Text(a), Text(b));
  }

  /** parseTime of a stored text is the instant truncated to the second. */
  lemma ParseTimeTruncates(ms: nat)
    requires InRange(ms / 1000)
    ensures ParseTime(Text(ms)) == Some(ms / 1000)
  {
    FormatParsesBack(FromSeconds(ms / 1000));
  }

  // ----- the store's clock -----

  /** The SQLite comparisons scheduled_at <= CURRENT_TIMESTAMP and lock_expires_at < CURRENT_TIMESTAMP, made on the
      stored texts of instants x and y, are the comparisons of stamps the driver model makes; its clock counts from
      the whole second `origin`. */
  lemma StampsCompareAsText(origin: nat, a: nat, b: nat, x: nat, y: nat)
    requires origin % 1000 == 0 && x == origin + a && y == origin + b
    requires InRange(x / 1000) && InRange(y / 1000)
    ensures LexLe(Text(x), Text(y)) <==> Jobs.Stamp(Jobs.SQLite, a) <= Jobs.Stamp(Jobs.SQLite, b)
    ensures LexLt(Text(x), Text(y)) <==> Jobs.Stamp(Jobs.SQLite, a) < Jobs.Stamp(Jobs.SQLite, b)
  {
    TextOrderIsTimeOrder(x, y);
    assert x / 1000 == origin / 1000 + a / 1000;
    assert y / 1000 == origin / 1000 + b / 1000;
  }

  // ----- the last second -----

  /** Multiples of 4, 100 and 400 below y, by integer division. */
  function Fours(y: nat): nat {
    (y + 3) / 4
  }

  function Hundreds(y: nat): nat {
    (y + 99) / 100
  }

  function FourHundreds(y: nat): nat {
    (y + 399) / 400
  }

  lemma NextFour(y: nat)
    ensures Fours(y + 1) == Fours(y) + if y % 4 == 0 then 1 else 0
  {
  }

  lemma NextHundred(y: nat)
    ensures Hundreds(y + 1) == Hundreds(y) + if y % 100 == 0 then 1 else 0
  {
  }

  lemma NextFourHundred(y: nat)
    ensures FourHundreds(y + 1) == FourHundreds(y) + if y % 400 == 0 then 1 else 0
  {
  }

  lemma RoundYears(y: nat)
    ensures y % 400 == 0 ==> y % 100 == 0
    ensures y % 100 == 0 ==> y % 4 == 0
  {
    if y % 400 == 0 {
      assert y == 100 * (4 * (y / 400));
    }
    if y % 100 == 0 {
      assert y == 4 * (25 * (y / 100));
    }
  }

  lemma NextYearStart(y: nat)
    ensures YearStart(y + 1) == YearStart(y) + 365 + (if y % 4 == 0 then 1 else 0)
      - (if y % 100 == 0 then 1 else 0) + (if y % 400 == 0 then 1 else 0)
  {
    RoundYears(y);
  }

  lemma {:induction false} YearStartCounts(y: nat)
    ensures YearStart(y) == 365 * y + Fours(y) - Hundreds(y) + FourHundreds(y)
  {
    if y > 0 {
      YearStartCounts(y - 1);
      NextYearStart(y - 1);
      NextFour(y - 1);
      NextHundred(y - 1);
      NextFourHundred(y - 1);
    }
  }

  lemma YearStarts(first: nat, last: nat)
    requires first == 1970 && last == 9999
    ensures YearStart(first) == 719_528 && YearStart(last) == 3_652_060
  {
    YearStartCounts(first);
    YearStartCounts(last);
  }

  lemma LastDay(y: nat)
    requires !Leap(y)
    ensures MonthStart(y, 12) == 334
  {
    MonthsFillYear(y);
    assert MonthStart(y, 13) == MonthStart(y, 12) + 31;
  }

  lemma SecondsOfLast(epoch: Civil, last: Civil)
    requires epoch == Civil(1970, 1, 1, 0, 0, 0) && last == Civil(9999, 12, 31, 23, 59, 59)
    ensures ValidCivil(epoch) && ValidCivil(last) && Seconds(last) == Seconds(epoch) + Jobs.LAST_SECOND
  {
    YearStarts(epoch.year, last.year);
    LastDay(last.year);
  }

  lemma UpToLast(x: nat, last: Civil, end: nat)
    requires last == Civil(9999, 12, 31, 23, 59, 59) && ValidCivil(last) && end == Seconds(last) && InRange(end)
    ensures InRange(x) <==> x <= end
  {
    if InRange(x) {
      NotAfterLast(FromSeconds(x), last);
    }
    if x <= end {
      EarlierInRange(x, end);
    }
  }

  lemma NotAfterLast(c: Civil, last: Civil)
    requires ValidCivil(c) && last == Civil(9999, 12, 31, 23, 59, 59)
    ensures ValidCivil(last) && Seconds(c) <= Seconds(last)
  {
    MonthShort(c.year, c.month);
    assert c == last || CivilLt(c, last);
    if c != last {
      CivilOrder(c, last);
    }
  }

  lemma EarlierInRange(a: nat, b: nat)
    requires a <= b && InRange(b)
    ensures InRange(a)
  {
    var x, y := FindYear(a / 86400, 0), FindYear(b / 86400, 0);
    if y < x {
      YearStartMonotone(y + 1, x);
    }
  }

  /** Counting from 1970, the instants that have a text are exactly those up to LAST_SECOND, beyond which datetime
      returns NULL. */
  lemma LastSecondIsLast(epoch: Civil, last: Civil, start: nat, x: nat)
    requires epoch == Civil(1970, 1, 1, 0, 0, 0) && last == Civil(9999, 12, 31, 23, 59, 59)
    requires ValidCivil(epoch) && start == Seconds(epoch)
    ensures InRange(x) <==> x - start <= Jobs.LAST_SECOND
  {
    var end := EndOfTime(epoch, last);
    UpToLast(x, last, end);
  }

  lemma EndOfTime(epoch: Civil, last: Civil) returns (end: nat)
    requires epoch == Civil(1970, 1, 1, 0, 0, 0) && last == Civil(9999, 12, 31, 23, 59, 59) && ValidCivil(epoch)
    ensures ValidCivil(last) && end == Seconds(last) == Seconds(epoch) + Jobs.LAST_SECOND && InRange(end)
  {
    SecondsOfLast(epoch, last);
    EveryDateInRange(last);
    end := Seconds(last);
  }
}
