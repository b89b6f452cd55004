/** The 12-hour time picker of the task form: an hour, a minute and a period, the
    arrow buttons that step them with wrap-around, the `H:MM AM|PM` text a task
    stores, and the parse that reads that text back when a task is opened for editing. */
module TimePicker {
  import opened JsText

  datatype Period = AM | PM

  /** The picker's three values, in the order they appear in the stored text. */
  datatype Time = Time(hour: int, minute: int, period: Period)

  predicate ValidHour(h: int) {
    1 <= h <= 12
  }

  /** The minute arrows move in steps of ten, so the picker only ever shows 00..50. */
  predicate ValidMinute(m: int) {
    0 <= m <= 50 && m % 10 == 0
  }

  predicate ValidTime(t: Time) {
    ValidHour(t.hour) && ValidMinute(t.minute)
  }

  /** The values the form starts with and is reset to: 12:00 AM. */
  const DefaultTime := Time(12, 0, AM)

  /** JavaScript's `%`, whose remainder takes the sign of the dividend: for a negative
      dividend it is the negated remainder of the dividend's magnitude. */
  function JsRem(a: int, b: int): (r: int)
    requires b > 0
    ensures -b < r < b
    ensures a >= 0 ==> r == a % b
    ensures a < 0 ==> r <= 0 && r == -JsRem(-a, b)
    decreases if a < 0 then 1 else 0
  {
    if a >= 0 then a % b else -((-a) % b)
  }

  /** The hour's up arrow: 12 wraps to 1; on 1..12 it is one step forward around a
      12-cycle. */
  function NextHour(h: int): (r: int)
    ensures ValidHour(h) ==> ValidHour(r) && (r - h) % 12 == 1
  {
    if h == 12 then 1 else h + 1
  }

  /** The hour's down arrow: 1 wraps to 12; on 1..12 it is one step back around a
      12-cycle. */
  function PrevHour(h: int): (r: int)
    ensures ValidHour(h) ==> ValidHour(r) && (h - r) % 12 == 1
  {
    if h == 1 then 12 else h - 1
  }

  /** The minute's up arrow, `(m + 10) % 60`: on the picker's minutes it adds ten
      around a 60-cycle, so 50 wraps to 0. */
  function NextMinute(m: int): (r: int)
    ensures ValidMinute(m) ==> ValidMinute(r) && (r - m) % 60 == 10
  {
    JsRem(m + 10, 60)
  }

  /** For every integer minute, even one outside the picker's range, the up arrow's
      result and m + 10 differ by a multiple of 60. */
  lemma NextMinuteCongruent(m: int)
    ensures (NextMinute(m) - (m + 10)) % 60 == 0
  {
  }

  /** The minute's down arrow: 0 wraps to 50, otherwise ten less. */
  function PrevMinute(m: int): (r: int)
    ensures ValidMinute(m) ==> ValidMinute(r) && (m - r) % 60 == 10
  {
    if m == 0 then 50 else m - 10
  }

  /** The period button: AM becomes PM and PM becomes AM. */
  function TogglePeriod(p: Period): (r: Period)
    ensures r != p
  {
    if p == AM then PM else AM
  }

  /** Each arrow undoes the other on the picker's domain, and the period button is an
      involution. */
  lemma StepsUndoEachOther(t: Time)
    requires ValidTime(t)
    ensures PrevHour(NextHour(t.hour)) == t.hour && NextHour(PrevHour(t.hour)) == t.hour
    ensures PrevMinute(NextMinute(t.minute)) == t.minute
    ensures NextMinute(PrevMinute(t.minute)) == t.minute
    ensures TogglePeriod(TogglePeriod(t.period)) == t.period
  {
  }

  function PeriodText(p: Period): string {
    match p
    case AM => "AM"
    case PM => "PM"
  }

  /** Reads the period text back; any other text has no period. */
  function ParsePeriod(s: string): (r: Option<Period>)
    ensures r.Some? ==> PeriodText(r.value) == s
  {
    if s == "AM" then Some(AM) else if s == "PM" then Some(PM) else None
  }

  /** The period text reads back as the period. */
  lemma ParsePeriodText(p: Period)
    ensures ParsePeriod(PeriodText(p)) == Some(p)
  {
    match p
    case AM =>
    case PM => assert "PM" != "AM" by { assert "PM"[0] != "AM"[0]; }
  }

  /** The minute as shown: a minute below ten gets a leading "0". On the picker's
      minutes it is always two decimal digits. */
  function MinuteText(m: int): (r: string)
    ensures ValidMinute(m) ==> |r| == 2 && AllDigits(r)
  {
    if m < 10 then "0" + IntToString(m) else IntToString(m)
  }

  /** The two minute digits read back as the minute. */
  lemma MinuteTextValue(m: int)
    requires ValidMinute(m)
    ensures DigitsValue(MinuteText(m)) == m
  {
    if m == 0 {
      assert MinuteText(m) == "00";
      assert "00"[..1] == "0";
    } else {
      DigitsValueOfNatToString(m);
    }
  }

  /** The stored time text `H:MM AM|PM`, hour without padding. */
  function Format(t: Time): string {
    IntToString(t.hour) + ":" + MinuteText(t.minute) + " " + PeriodText(t.period)
  }

  /** The edit handler's reading of a stored time: split on the space, split the first
      piece on ':', and parseInt the hour and minute. A missing piece, a piece that
      parseInt cannot read, or a period other than AM and PM gives None. */
  function ParseTime(s: string): Option<Time> {
    var parts := Split(s, ' ');
    if |parts| < 2 then None else ParseClock(parts[0], parts[1])
  }

  /** The second half of ParseTime: `H:MM` and the period text. */
  function ParseClock(clock: string, period: string): Option<Time> {
    var hm := Split(clock, ':');
    if |hm| < 2 then None else Combine(ParseInt(hm[0]), ParseInt(hm[1]), ParsePeriod(period))
  }

  function Combine(h: Option<int>, m: Option<int>, p: Option<Period>): Option<Time> {
    if h.Some? && m.Some? && p.Some? then Some(Time(h.value, m.value, p.value)) else None
  }

  /** Format is Join applied twice: the hour and minute joined by ':', then that and
      the period joined by ' '. */
  lemma FormatAsJoin(t: Time)
    requires ValidTime(t)
    ensures Format(t) == Join([Join([NatToString(t.hour), MinuteText(t.minute)], ':'),
                               PeriodText(t.period)], ' ')
  {
    var h, m, p := NatToString(t.hour), MinuteText(t.minute), PeriodText(t.period);
    assert Join([m], ':') == m;
    assert Join([h, m], ':') == h + [':'] + m;
    assert Join([h + [':'] + m, p], ' ') == h + [':'] + m + [' '] + p;
  }

  /** The first split, on the space, separates the hour-and-minute text from the period. */
  lemma SplitFormatOnSpace(t: Time)
    requires ValidTime(t)
    ensures Split(Format(t), ' ') == [NatToString(t.hour) + ":" + MinuteText(t.minute), PeriodText(t.period)]
  {
    var h, m, p := NatToString(t.hour), MinuteText(t.minute), PeriodText(t.period);
    FormatAsJoin(t);
    assert Join([h, m], ':') == h + [':'] + m;
    assert forall i :: 0 <= i < |h| ==> IsDigit(h[i]);
    assert forall i :: 0 <= i < |m| ==> IsDigit(m[i]);
    assert ' ' !in h + [':'] + m;
    SplitJoin([h + [':'] + m, p], ' ');
  }

  /** The second split, on ':', separates the hour digits from the minute digits. */
  lemma SplitClockOnColon(t: Time)
    requires ValidTime(t)
    ensures Split(NatToString(t.hour) + ":" + MinuteText(t.minute), ':') == [NatToString(t.hour), MinuteText(t.minute)]
  {
    var h, m := NatToString(t.hour), MinuteText(t.minute);
    assert Join([m], ':') == m;
    assert Join([h, m], ':') == h + [':'] + m;
    assert forall i :: 0 <= i < |h| ==> IsDigit(h[i]);
    assert forall i :: 0 <= i < |m| ==> IsDigit(m[i]);
    SplitJoin([h, m], ':');
  }

  /** The format/parse round trip: reading back the text the form stores recovers the
      picker's hour, minute and period, for every value the picker can hold. */
  lemma ParseFormat(t: Time)
    requires ValidTime(t)
    ensures ParseTime(Format(t)) == Some(t)
  {
    SplitFormatOnSpace(t);
    ParseClockFormat(t);
  }

  /** The clock half of the round trip. */
  lemma ParseClockFormat(t: Time)
    requires ValidTime(t)
    ensures ParseClock(NatToString(t.hour) + ":" + MinuteText(t.minute), PeriodText(t.period)) == Some(t)
  {
    var h, m := NatToString(t.hour), MinuteText(t.minute);
    var hm := Split(h + ":" + m, ':');
    SplitClockOnColon(t);
    assert hm == [h, m];
    ParseIntOfNatToString(t.hour);
    assert ParseInt(hm[0]) == Some(t.hour);
    ParseIntOfDigits(m);
    MinuteTextValue(t.minute);
    assert ParseInt(hm[1]) == Some(t.minute);
    ParsePeriodText(t.period);
  }

  /** A stored time is canonical when it reads back as a picker value that formats to
      the same text: this is what every task's time looks like. */
  predicate Canonical(s: string) {
    match ParseTime(s)
    case Some(t) => ValidTime(t) && Format(t) == s
    case None => false
  }

  /** Every text the form produces from a picker value is canonical. */
  lemma FormatIsCanonical(t: Time)
    requires ValidTime(t)
    ensures Canonical(Format(t))
  {
    ParseFormat(t);
  }

  /** The picker at 9:30 AM stores "9:30 AM". */
  lemma NineThirtyText()
    ensures Format(Time(9, 30, AM)) == "9:30 AM"
  {
    assert NatToString(9) == "9";
    assert MinuteText(30) == "30";
  }

  /** Different picker values are stored as different texts. */
  lemma FormatInjective(t1: Time, t2: Time)
    requires ValidTime(t1) && ValidTime(t2)
    requires Format(t1) == Format(t2)
    ensures t1 == t2
  {
    ParseFormat(t1);
    ParseFormat(t2);
  }
}
