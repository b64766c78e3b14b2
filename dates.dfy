/**
 * Date stamps of the prize log: the Controller's formatDateTime, formatDate and formatTime,
 * and the parseYYYYMMDD / parseDDMMYYYY / filterDates helpers of the main process.
 * A JavaScript Date is replaced by the integer fields its getters return.
 */
module Dates {
  import opened Wrappers
  import opened Text

  /** getFullYear(), getMonth() (0-based, as JavaScript has it), getDate(), getHours(), getMinutes(), getSeconds(). */
  datatype DateTime = DateTime(year: nat, month0: nat, day: nat, hour: nat, minute: nat, second: nat)

  /** What new Date(year, month - 1, day) stands for when compared: a day, or an invalid date (NaN). */
  datatype CalendarDate = Invalid | Day(year: int, month: int, day: int)

  /** String(n).padStart(2, "0"). */
  function Pad2(n: nat): string
  {
    PadStart(NatToString(n), 2)
  }

  /** formatDateTime: DD-MM-YYYY HH:MM:SS. */
  function FormatDateTime(d: DateTime): string
  {
    Pad2(d.day) + "-" + Pad2(d.month0 + 1) + "-" + NatToString(d.year) + " "
      + Pad2(d.hour) + ":" + Pad2(d.minute) + ":" + Pad2(d.second)
  }

  /** formatDate: DD-MM-YYYY. */
  function FormatDate(d: DateTime): string
  {
    Pad2(d.day) + "-" + Pad2(d.month0 + 1) + "-" + NatToString(d.year)
  }

  /** formatTime: HH:MM:SS. */
  function FormatTime(d: DateTime): string
  {
    Pad2(d.hour) + ":" + Pad2(d.minute) + ":" + Pad2(d.second)
  }

  /** The three numbers of a dash-separated date, in the order written; fewer than three parts or a non-numeral part give NaN. */
  function DateParts(s: string): (r: Option<(int, int, int)>)
  {
    var p := Split(s, '-');
    if |p| < 3 then None
    else match (JsNumber(p[0]), JsNumber(p[1]), JsNumber(p[2]))
      case (Some(a), Some(b), Some(c)) => Some((a, b, c))
      case _ => None
  }

  /** parseYYYYMMDD: null for "", otherwise new Date(year, month - 1, day). */
  function ParseYYYYMMDD(s: string): (r: Option<CalendarDate>)
    ensures r.None? <==> s == ""
  {
    if s == "" then None
    else match DateParts(s)
      case Some((y, m, d)) => Some(Day(y, m, d))
      case None => Some(Invalid)
  }

  /** parseDDMMYYYY: null for "", otherwise new Date(year, month - 1, day). */
  function ParseDDMMYYYY(s: string): (r: Option<CalendarDate>)
    ensures r.None? <==> s == ""
  {
    if s == "" then None
    else match DateParts(s)
      case Some((d, m, y)) => Some(Day(y, m, d))
      case None => Some(Invalid)
  }

  /** a <= b on dates: false as soon as either is invalid, as every comparison with NaN is. */
  predicate OnOrBefore(a: CalendarDate, b: CalendarDate)
  {
    a.Day? && b.Day? &&
    (a.year < b.year || (a.year == b.year && (a.month < b.month || (a.month == b.month && a.day <= b.day))))
  }

  /** The date part (before the first blank) of a run_dt stamp, as filterDates reads it. */
  function StampDate(runDt: string): Option<CalendarDate>
  {
    ParseDDMMYYYY(Split(runDt, ' ')[0])
  }

  /** currentDate >= fromDate && currentDate <= toDate for one log row. */
  predicate Within(runDt: string, from: CalendarDate, to: CalendarDate)
  {
    var c := StampDate(runDt);
    c.Some? && OnOrBefore(from, c.value) && OnOrBefore(c.value, to)
  }

  /** logData.filter(...) of filterDates, keeping the rows whose stamp lies between the bounds, in order. */
  function KeepWithin<R>(logs: seq<R>, runDt: R -> string, from: CalendarDate, to: CalendarDate): seq<R>
  {
    if logs == [] then []
    else
      var rest := KeepWithin(logs[1..], runDt, from, to);
      if Within(runDt(logs[0]), from, to) then [logs[0]] + rest else rest
  }

  /**
   * filterDates with both bounds empty (null) or both given. The case with exactly one bound
   * empty compares a Date with null, which JavaScript does through epoch milliseconds.
   */
  function FilterDates<R(!new)>(logs: seq<R>, runDt: R -> string, fromStr: string, toStr: string): (r: Option<seq<R>>)
    requires (fromStr == "") == (toStr == "")
    ensures r.None? <==> fromStr == ""
    ensures r.Some? ==> forall x :: x in r.value <==>
      x in logs && Within(runDt(x), ParseYYYYMMDD(fromStr).value, ParseYYYYMMDD(toStr).value)
    ensures r.Some? ==> r.value == KeepWithin(logs, runDt, ParseYYYYMMDD(fromStr).value, ParseYYYYMMDD(toStr).value)
  {
    var from := ParseYYYYMMDD(fromStr);
    var to := ParseYYYYMMDD(toStr);
    if from.None? && to.None? then None
    else
      KeepWithinMembers(logs, runDt, from.value, to.value);
      Some(KeepWithin(logs, runDt, from.value, to.value))
  }

  // ---------------------------------------------------------------------------------------
  // Properties

  /** The filter keeps exactly the rows whose stamp lies between the bounds, and adds none. */
  lemma {:induction false} KeepWithinMembers<R(!new)>(logs: seq<R>, runDt: R -> string, from: CalendarDate, to: CalendarDate)
    ensures |KeepWithin(logs, runDt, from, to)| <= |logs|
    ensures forall x :: x in KeepWithin(logs, runDt, from, to) <==> x in logs && Within(runDt(x), from, to)
  {
    if logs != [] {
      KeepWithinMembers(logs[1..], runDt, from, to);
      assert forall x :: x in logs <==> x == logs[0] || x in logs[1..];
    }
  }

  /**
   * The filter keeps repeats: a row inside the bounds is kept as often as the log holds it,
   * any other row never.
   */
  lemma {:induction false} KeepWithinMultiplicity<R(!new)>(logs: seq<R>, runDt: R -> string, from: CalendarDate, to: CalendarDate)
    ensures forall x :: multiset(KeepWithin(logs, runDt, from, to))[x] ==
                        (if Within(runDt(x), from, to) then multiset(logs)[x] else 0)
  {
    if logs != [] {
      KeepWithinMultiplicity(logs[1..], runDt, from, to);
      var h := if Within(runDt(logs[0]), from, to) then [logs[0]] else [];
      assert logs == [logs[0]] + logs[1..];
      assert KeepWithin(logs, runDt, from, to) == h + KeepWithin(logs[1..], runDt, from, to);
    }
  }

  /** The filter keeps order: two logs one after the other filter to the first's rows, then the second's. */
  lemma {:induction false} KeepWithinAppend<R(!new)>(a: seq<R>, b: seq<R>, runDt: R -> string, from: CalendarDate, to: CalendarDate)
    ensures KeepWithin(a + b, runDt, from, to) == KeepWithin(a, runDt, from, to) + KeepWithin(b, runDt, from, to)
  {
    if a == [] {
      assert a + b == b;
    } else {
      var x, t := a[0], a[1..];
      var h := if Within(runDt(x), from, to) then [x] else [];
      assert a == [x] + t && a + b == [x] + (t + b);
      KeepWithinCons(x, t, runDt, from, to);
      KeepWithinCons(x, t + b, runDt, from, to);
      KeepWithinAppend(t, b, runDt, from, to);
      assert h + (KeepWithin(t, runDt, from, to) + KeepWithin(b, runDt, from, to))
        == (h + KeepWithin(t, runDt, from, to)) + KeepWithin(b, runDt, from, to);
    }
  }

  /** Filtering a row followed by more rows: that row if it is kept, then the filtered rest. */
  lemma KeepWithinCons<R(!new)>(x: R, rest: seq<R>, runDt: R -> string, from: CalendarDate, to: CalendarDate)
    ensures KeepWithin([x] + rest, runDt, from, to)
      == (if Within(runDt(x), from, to) then [x] else []) + KeepWithin(rest, runDt, from, to)
  {
    var l := [x] + rest;
    assert l[0] == x && l[1..] == rest;
  }

  /** A single row is kept exactly when its stamp lies between the bounds. */
  lemma KeepWithinSingle<R(!new)>(x: R, runDt: R -> string, from: CalendarDate, to: CalendarDate)
    ensures KeepWithin([x], runDt, from, to) == if Within(runDt(x), from, to) then [x] else []
  {
    assert [x][1..] == [];
  }

  /** formatDateTime is formatDate and formatTime joined by one blank. */
  lemma FormatDateTimeJoinsDateAndTime(d: DateTime)
    ensures FormatDateTime(d) == FormatDate(d) + " " + FormatTime(d)
  {
  }

  predicate TwoDigitFields(d: DateTime)
  {
    d.day < 100 && d.month0 + 1 < 100 && d.hour < 100 && d.minute < 100 && d.second < 100
  }

  /** Pad2 of a value below 100 is two digits that read back as the value. */
  lemma Pad2Shape(n: nat)
    requires n < 100
    ensures |Pad2(n)| == 2 && AllDigits(Pad2(n)) && DecimalValue(Pad2(n)) == n
  {
    if n >= 10 {
      NatToStringLengthMonotone(n, 99);
      assert NatToString(99) == NatToString(9) + [DigitChar(9)];
    }
    JsNumberOfPaddedNat(n, 2);
  }

  lemma FourDigitYear(y: nat)
    requires 1000 <= y <= 9999
    ensures |NatToString(y)| == 4
  {
    NatToStringLengthMonotone(1000, y);
    NatToStringLengthMonotone(y, 9999);
    assert NatToString(1000) == NatToString(100) + "0";
    assert NatToString(100) == NatToString(10) + "0";
    assert NatToString(9999) == NatToString(999) + "9";
    assert NatToString(999) == NatToString(99) + "9";
    assert NatToString(99) == NatToString(9) + "9";
  }

  /** Three fields joined by a separator, the first two of them two characters long. */
  lemma JoinedFields(a: string, b: string, c: string, sep: char)
    requires |a| == 2 && |b| == 2
    ensures var r := a + [sep] + b + [sep] + c;
      && |r| == 6 + |c| && r[2] == sep && r[5] == sep
      && r[0..2] == a && r[3..5] == b && r[6..] == c
  {
  }

  /** Splitting three separator-free fields joined by the separator gives the three fields back. */
  lemma SplitThree(a: string, b: string, c: string, sep: char)
    requires sep !in a && sep !in b && sep !in c
    ensures Split(a + [sep] + b + [sep] + c, sep) == [a, b, c]
  {
    assert a + [sep] + b + [sep] + c == a + [sep] + (b + [sep] + c);
    SplitAtFirst(a, b + [sep] + c, sep);
    SplitAtFirst(b, c, sep);
    SplitWithoutSeparator(c, sep);
  }

  /** formatDate of two-digit day and month and a four-digit year: DD-MM-YYYY in ten characters. */
  lemma FormatDateLayout(d: DateTime)
    requires d.day < 100 && d.month0 + 1 < 100 && 1000 <= d.year <= 9999
    ensures var r := FormatDate(d);
      && |r| == 10 && r[2] == '-' && r[5] == '-'
      && r[0..2] == Pad2(d.day) && r[3..5] == Pad2(d.month0 + 1) && r[6..10] == NatToString(d.year)
  {
    Pad2Shape(d.day);
    Pad2Shape(d.month0 + 1);
    FourDigitYear(d.year);
    JoinedFields(Pad2(d.day), Pad2(d.month0 + 1), NatToString(d.year), '-');
  }

  /** formatTime of two-digit fields: HH:MM:SS in eight characters. */
  lemma FormatTimeLayout(d: DateTime)
    requires d.hour < 100 && d.minute < 100 && d.second < 100
    ensures var r := FormatTime(d);
      && |r| == 8 && r[2] == ':' && r[5] == ':'
      && r[0..2] == Pad2(d.hour) && r[3..5] == Pad2(d.minute) && r[6..8] == Pad2(d.second)
  {
    Pad2Shape(d.hour);
    Pad2Shape(d.minute);
    Pad2Shape(d.second);
    JoinedFields(Pad2(d.hour), Pad2(d.minute), Pad2(d.second), ':');
  }

  /**
   * For the field values a Date produces and a four-digit year, formatDateTime is exactly
   * DD-MM-YYYY HH:MM:SS: nineteen characters, separators in place, each field zero-padded
   * to two digits and the month shown 1-based.
   */
  lemma FormatDateTimeLayout(d: DateTime)
    requires TwoDigitFields(d) && 1000 <= d.year <= 9999
    ensures var r := FormatDateTime(d);
      && |r| == 19
      && r[2] == '-' && r[5] == '-' && r[10] == ' ' && r[13] == ':' && r[16] == ':'
      && r[0..2] == Pad2(d.day) && DecimalValue(Pad2(d.day)) == d.day
      && r[3..5] == Pad2(d.month0 + 1) && DecimalValue(Pad2(d.month0 + 1)) == d.month0 + 1
      && r[6..10] == NatToString(d.year)
      && r[11..13] == Pad2(d.hour) && DecimalValue(Pad2(d.hour)) == d.hour
      && r[14..16] == Pad2(d.minute) && DecimalValue(Pad2(d.minute)) == d.minute
      && r[17..19] == Pad2(d.second) && DecimalValue(Pad2(d.second)) == d.second
  {
    var date, time := FormatDate(d), FormatTime(d);
    FormatDateLayout(d);
    FormatTimeLayout(d);
    Pad2Shape(d.day);
    Pad2Shape(d.month0 + 1);
    Pad2Shape(d.hour);
    Pad2Shape(d.minute);
    Pad2Shape(d.second);
    SpaceJoined(date, time);
    assert FormatDateTime(d) == date + [' '] + time;
  }

  /** A ten-character date and an eight-character time joined by a blank, field by field. */
  lemma SpaceJoined(date: string, time: string)
    requires |date| == 10 && |time| == 8
    ensures var r := date + [' '] + time;
      && |r| == 19 && r[10] == ' '
      && r[2] == date[2] && r[5] == date[5] && r[13] == time[2] && r[16] == time[5]
      && r[0..2] == date[0..2] && r[3..5] == date[3..5] && r[6..10] == date[6..10]
      && r[11..13] == time[0..2] && r[14..16] == time[3..5] && r[17..19] == time[6..8]
  {
  }

  lemma DigitsHaveNo(s: string, c: char)
    requires AllDigits(s) && !IsDigit(c)
    ensures c !in s
  {
  }

  lemma Pad2AllDigits(n: nat)
    ensures AllDigits(Pad2(n))
  {
    var s := NatToString(n);
    if |s| < 2 {
      DecimalValueLeadingZeros(2 - |s|, s);
    }
  }

  /** The date part of a stamp is its formatDate, and it splits at the dashes into day, month and year. */
  lemma StampDatePart(d: DateTime)
    ensures Split(FormatDateTime(d), ' ')[0] == FormatDate(d)
    ensures Split(FormatDate(d), '-') == [Pad2(d.day), Pad2(d.month0 + 1), NatToString(d.year)]
  {
    var dd, mm, yy := Pad2(d.day), Pad2(d.month0 + 1), NatToString(d.year);
    Pad2AllDigits(d.day);
    Pad2AllDigits(d.month0 + 1);
    DigitsHaveNo(dd, '-');
    DigitsHaveNo(mm, '-');
    DigitsHaveNo(yy, '-');
    DigitsHaveNo(dd, ' ');
    DigitsHaveNo(mm, ' ');
    DigitsHaveNo(yy, ' ');
    var date := FormatDate(d);
    assert date == dd + ['-'] + mm + ['-'] + yy;
    SplitThree(dd, mm, yy, '-');
    assert ' ' !in date;
    assert FormatDateTime(d) == date + [' '] + FormatTime(d);
    SplitAtFirst(date, FormatTime(d), ' ');
  }

  /**
   * A prize row's run_dt, read back the way filterDates reads it (the part before the blank,
   * split at the dashes, each part through Number), gives the day, month and year it was
   * stamped with; the month comes back 1-based.
   */
  lemma StampReadsBack(d: DateTime)
    ensures StampDate(FormatDateTime(d)) == Some(Day(d.year, d.month0 + 1, d.day))
  {
    StampDatePart(d);
    JsNumberOfPaddedNat(d.day, 2);
    JsNumberOfPaddedNat(d.month0 + 1, 2);
    JsNumberOfPaddedNat(d.year, 0);
    assert FormatDate(d) != "";
  }

  /** Both bounds empty: filterDates returns null whatever the logs. */
  lemma NoBoundsGiveNull<R(!new)>(logs: seq<R>, runDt: R -> string)
    ensures FilterDates(logs, runDt, "", "") == None
  {
  }

  /**
   * A row stamped on day d is kept by a filter whose bounds are that same day written as
   * YYYY-MM-DD, so a report for the day of a draw finds the draw's rows.
   */
  lemma SameDayIsKept(d: DateTime)
    ensures var bound := NatToString(d.year) + "-" + Pad2(d.month0 + 1) + "-" + Pad2(d.day);
      ParseYYYYMMDD(bound) == Some(Day(d.year, d.month0 + 1, d.day))
      && Within(FormatDateTime(d), Day(d.year, d.month0 + 1, d.day), Day(d.year, d.month0 + 1, d.day))
  {
    var dd, mm, yy := Pad2(d.day), Pad2(d.month0 + 1), NatToString(d.year);
    Pad2AllDigits(d.day);
    Pad2AllDigits(d.month0 + 1);
    DigitsHaveNo(dd, '-');
    DigitsHaveNo(mm, '-');
    DigitsHaveNo(yy, '-');
    var bound := yy + "-" + mm + "-" + dd;
    assert bound == yy + ['-'] + mm + ['-'] + dd;
    SplitThree(yy, mm, dd, '-');
    JsNumberOfPaddedNat(d.day, 2);
    JsNumberOfPaddedNat(d.month0 + 1, 2);
    JsNumberOfPaddedNat(d.year, 0);
    assert bound != "";
    StampReadsBack(d);
  }
}
