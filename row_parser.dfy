/** The per-row parse of `GeneratePlayoutList`: one already tokenised CSV row
    and the configured millisecond offset give a `Playout`, or nothing when
    any step of the parse throws. */
module RowParser {
  import opened Wrappers
  import opened Text
  import opened Playouts

  /** One CSV row as the reader delivers it: its fields, positionally
      addressed, and the outcome of the reader's enum conversion of column 3
      (`None` when that conversion failed). */
  datatype Row = Row(fields: seq<string>, decodedType: Option<AudioType>)

  /** `TryGetField(column, out string)`: the field, or `None` past the end of the row. */
  function Field(row: Row, column: nat): Option<string> {
    if column < |row.fields| then Some(row.fields[column]) else None
  }

  const MsPerSecond: int := 1000
  const MsPerMinute: int := 60_000
  const MsPerHour: int := 3_600_000
  const MsPerHalfDay: int := 43_200_000
  const MsPerDay: int := 86_400_000

  /** The hour, minute and second given to the `DateTime` constructor. */
  datatype Clock = Clock(hour: int, minute: int, second: int) {

    /** The ranges the `DateTime` constructor accepts. */
    predicate Valid() {
      0 <= hour <= 23 && 0 <= minute <= 59 && 0 <= second <= 59
    }

    /** Milliseconds since midnight. */
    function Milliseconds(): int {
      hour * MsPerHour + minute * MsPerMinute + second * MsPerSecond
    }
  }

  /** Column 1 split on ':' and its first three pieces parsed as integers
      and range-checked. A missing column (a null string), fewer than three
      pieces, a piece that is not an integer or a value out of range all
      throw; pieces beyond the third are never looked at. */
  function ParseClock(text: Option<string>): (c: Option<Clock>)
    ensures c.Some? ==> c.value.Valid()
    ensures text.None? || Occurrences(text.value, ':') < 2 ==> c.None?
  {
    if text.None? then None
    else
      var parts := Split(text.value, ':');
      if |parts| < 3 then None
      else
        match (ParseInt(parts[0]), ParseInt(parts[1]), ParseInt(parts[2]))
        case (Some(h), Some(m), Some(s)) =>
          var clock := Clock(h, m, s);
          if clock.Valid() then Some(clock) else None
        case _ => None
  }

  /** The time of day after `AddMilliseconds(offset)`: the date part is
      dropped, so the time wraps around midnight in both directions. */
  function TimeOfDay(clock: Clock, offset: int): (ms: int)
    ensures 0 <= ms < MsPerDay
  {
    (clock.Milliseconds() + offset) % MsPerDay
  }

  /** The `h` format specifier: the hour on a 12-hour dial, 12 for the hours
      0 and 12, with no AM/PM designator. */
  function Hour12(hour: int): (h: nat)
    ensures 1 <= h <= 12
  {
    if hour % 12 == 0 then 12 else hour % 12
  }

  /** `ToString("h:mm:ss")` of a time of day: hour without leading zero,
      minute and second on two digits, milliseconds dropped. */
  function FormatClock(ms: int): string
    requires 0 <= ms < MsPerDay
  {
    NatToString(Hour12(ms / MsPerHour)) + ":" + TwoDigits(ms / MsPerMinute % 60) + ":" + TwoDigits(ms / MsPerSecond % 60)
  }

  /** Column 6 as a duration: no column or an empty one is zero; otherwise
      "M:S" is split on ':' and its first two pieces parsed as integers (the
      seconds are not capped at 59 and either part may be negative); fewer
      than two pieces or a piece that is not an integer throws. */
  function ParseLength(text: Option<string>): (seconds: Option<int>)
    ensures text.None? || text.value == "" ==> seconds == Some(0)
    ensures text.Some? && text.value != "" && Occurrences(text.value, ':') == 0 ==> seconds.None?
  {
    if text.None? || text.value == "" then Some(0)
    else
      var parts := Split(text.value, ':');
      if |parts| < 2 then None
      else
        match (ParseInt(parts[0]), ParseInt(parts[1]))
        case (Some(m), Some(s)) => Some(m * 60 + s)
        case _ => None
  }

  /** The body of the `try` block: a record exactly when both the time of day
      and the duration parse. The category falls back to `Song` (the
      enumeration's default) when the reader could not convert column 3,
      because the result of that `TryGetField` is ignored. */
  function ParseRow(row: Row, offset: int): (r: Option<Playout>)
    ensures r.Some? <==> ParseClock(Field(row, 1)).Some? && ParseLength(Field(row, 6)).Some?
    ensures r.Some? ==> r.value.id.None? && r.value.status == Playing
    ensures r.Some? ==> r.value.audioType == row.decodedType.GetOr(Song)
    ensures r.Some? ==> r.value.title == Field(row, 4) && r.value.artist == Field(row, 5) && r.value.category == Field(row, 7)
    ensures r.Some? ==> r.value.lengthInSeconds == ParseLength(Field(row, 6)).value
    ensures r.Some? ==> r.value.playedTime == FormatClock(TimeOfDay(ParseClock(Field(row, 1)).value, offset))
  {
    match (ParseClock(Field(row, 1)), ParseLength(Field(row, 6)))
    case (Some(clock), Some(length)) =>
      Some(Playout(
        id := None,
        audioType := row.decodedType.GetOr(Song),
        status := Playing,
        playedTime := FormatClock(TimeOfDay(clock, offset)),
        lengthInSeconds := length,
        title := Field(row, 4),
        artist := Field(row, 5),
        category := Field(row, 7)))
    case _ => None
  }

  /** The row parser of a converter constructed with `offset`. */
  function RowParse(offset: int): Row -> Option<Playout> {
    row => ParseRow(row, offset)
  }

  // ---------------------------------------------------------------------
  // Properties of the time of day

  /** Quotient and remainder are determined by any decomposition. */
  lemma DivMod(a: int, d: int, q: int, r: int)
    requires d > 0 && 0 <= r < d && a == q * d + r
    ensures a / d == q && a % d == r
  {
    var q', r' := a / d, a % d;
    assert (q - q') * d == r' - r;
    if q > q' {
      MulAtLeast(q - q', d);
    } else if q < q' {
      MulAtLeast(q' - q, d);
    }
  }

  lemma MulAtLeast(x: int, d: int)
    requires x >= 1 && d > 0
    ensures x * d >= d
  {
  }

  /** A digit string has no ':' in it. */
  lemma DigitsHaveNoColon(s: string)
    requires AllDigits(s)
    ensures ':' !in s
  {
  }

  lemma JoinTwo(a: string, b: string)
    ensures Join([a, b], ':') == a + ":" + b
  {
    assert [a, b][1..] == [b];
  }

  lemma JoinThree(a: string, b: string, c: string)
    ensures Join([a, b, c], ':') == a + ":" + b + ":" + c
  {
    assert [a, b, c][1..] == [b, c];
    JoinTwo(b, c);
  }

  /** The formatted time splits into exactly three pieces: the 12-hour value
      without leading zero, then the minute and the second on two digits,
      each of which parses back to its value. */
  lemma {:induction false} FormatClockReadsBack(ms: int)
    requires 0 <= ms < MsPerDay
    ensures var parts := Split(FormatClock(ms), ':');
      && |parts| == 3
      && parts[0][0] != '0' && |parts[1]| == 2 && |parts[2]| == 2
      && ParseInt(parts[0]) == Some(Hour12(ms / MsPerHour))
      && ParseInt(parts[1]) == Some(ms / MsPerMinute % 60)
      && ParseInt(parts[2]) == Some(ms / MsPerSecond % 60)
  {
    var h := NatToString(Hour12(ms / MsPerHour));
    var m := TwoDigits(ms / MsPerMinute % 60);
    var s := TwoDigits(ms / MsPerSecond % 60);
    DigitsHaveNoColon(h);
    DigitsHaveNoColon(m);
    DigitsHaveNoColon(s);
    JoinThree(h, m, s);
    SplitJoin([h, m, s], ':');
    ParseDigits(h);
    ParseDigits(m);
    ParseDigits(s);
  }

  /** Read on a 12-hour dial, the three printed values give back the time of
      day modulo twelve hours, truncated to the second. */
  lemma DialReading(ms: int)
    requires 0 <= ms < MsPerDay
    ensures (Hour12(ms / MsPerHour) % 12) * MsPerHour + (ms / MsPerMinute % 60) * MsPerMinute
              + (ms / MsPerSecond % 60) * MsPerSecond
            == ms % MsPerHalfDay - ms % MsPerSecond
  {
    var h, r1 := ms / MsPerHour, ms % MsPerHour;
    var m, r2 := r1 / MsPerMinute, r1 % MsPerMinute;
    var s, r3 := r2 / MsPerSecond, r2 % MsPerSecond;
    assert ms == h * MsPerHour + m * MsPerMinute + s * MsPerSecond + r3;
    assert 0 <= m < 60 && 0 <= s < 60;
    DivMod(ms, MsPerMinute, h * 60 + m, s * MsPerSecond + r3);
    DivMod(h * 60 + m, 60, h, m);
    DivMod(ms, MsPerSecond, h * 3600 + m * 60 + s, r3);
    DivMod(h * 3600 + m * 60 + s, 60, h * 60 + m, s);
    DivMod(ms, MsPerHalfDay, h / 12, (h % 12) * MsPerHour + m * MsPerMinute + s * MsPerSecond + r3);
  }

  /** With no offset the source clock is printed unchanged, apart from the
      12-hour dial. */
  lemma NoOffsetPrintsClock(c: Clock)
    requires c.Valid()
    ensures FormatClock(TimeOfDay(c, 0))
         == NatToString(Hour12(c.hour)) + ":" + TwoDigits(c.minute) + ":" + TwoDigits(c.second)
  {
    var ms := c.Milliseconds();
    DivMod(ms, MsPerDay, 0, ms);
    DivMod(ms, MsPerHour, c.hour, c.minute * MsPerMinute + c.second * MsPerSecond);
    DivMod(ms, MsPerMinute, c.hour * 60 + c.minute, c.second * MsPerSecond);
    DivMod(c.hour * 60 + c.minute, 60, c.hour, c.minute);
    DivMod(ms, MsPerSecond, c.hour * 3600 + c.minute * 60 + c.second, 0);
    DivMod(c.hour * 3600 + c.minute * 60 + c.second, 60, c.hour * 60 + c.minute, c.second);
  }

  /** Offsets compose: shifting by `a + b` is shifting by `a`, then by `b`, on
      the 24-hour circle; a whole day of offset changes nothing. */
  lemma OffsetsCompose(c: Clock, a: int, b: int)
    ensures TimeOfDay(c, a + b) == (TimeOfDay(c, a) + b) % MsPerDay
    ensures TimeOfDay(c, a + MsPerDay) == TimeOfDay(c, a)
  {
    var x := c.Milliseconds() + a;
    DivMod(x + b, MsPerDay, x / MsPerDay + (x % MsPerDay + b) / MsPerDay, (x % MsPerDay + b) % MsPerDay);
    DivMod(x + MsPerDay, MsPerDay, x / MsPerDay + 1, x % MsPerDay);
  }

  /** The 12-hour dial shows 12 exactly for midnight and noon. */
  lemma Hour12Twelve(hour: int)
    requires 0 <= hour <= 23
    ensures Hour12(hour) == 12 <==> hour == 0 || hour == 12
    ensures hour != 0 && hour != 12 ==> Hour12(hour) == hour % 12
  {
  }

  // ---------------------------------------------------------------------
  // Acceptance of the time and duration columns

  /** Column 1 built from three integer spellings and any further
      ':'-separated pieces: accepted exactly when the values are in range,
      and then the extra pieces do not matter. */
  lemma {:induction false} ParseClockOfPieces(ph: string, pm: string, ps: string, extra: seq<string>, c: Clock)
    requires ParseInt(ph) == Some(c.hour) && ParseInt(pm) == Some(c.minute) && ParseInt(ps) == Some(c.second)
    requires ':' !in ph && ':' !in pm && ':' !in ps
    requires forall i :: 0 <= i < |extra| ==> ':' !in extra[i]
    ensures ParseClock(Some(Join([ph, pm, ps] + extra, ':'))) == if c.Valid() then Some(c) else None
  {
    var parts := [ph, pm, ps] + extra;
    assert forall i :: 0 <= i < |parts| ==> ':' !in parts[i];
    SplitJoin(parts, ':');
    var text := Join(parts, ':');
    assert parts[0] == ph && parts[1] == pm && parts[2] == ps;
    ParseClockOfSplit(text, c);
  }

  lemma {:induction false} ParseClockOfSplit(text: string, c: Clock)
    requires |Split(text, ':')| >= 3
    requires ParseInt(Split(text, ':')[0]) == Some(c.hour)
    requires ParseInt(Split(text, ':')[1]) == Some(c.minute)
    requires ParseInt(Split(text, ':')[2]) == Some(c.second)
    ensures ParseClock(Some(text)) == if c.Valid() then Some(c) else None
  {
  }

  /** Column 1 with a piece among the first three that is not an integer is rejected. */
  lemma ParseClockRejectsNonInteger(text: string, k: nat)
    requires k < 3 && k < |Split(text, ':')| && ParseInt(Split(text, ':')[k]).None?
    ensures ParseClock(Some(text)).None?
  {
    var parts := Split(text, ':');
    if k == 0 {
      assert ParseInt(parts[0]).None?;
    } else if k == 1 {
      assert ParseInt(parts[1]).None?;
    } else {
      assert ParseInt(parts[2]).None?;
    }
  }

  /** Column 6 built from two integer spellings and any further pieces: the
      duration is sixty times the first plus the second. */
  lemma {:induction false} ParseLengthOfPieces(pm: string, ps: string, extra: seq<string>, minutes: int, seconds: int)
    requires ParseInt(pm) == Some(minutes) && ParseInt(ps) == Some(seconds)
    requires ':' !in pm && ':' !in ps
    requires forall i :: 0 <= i < |extra| ==> ':' !in extra[i]
    ensures ParseLength(Some(Join([pm, ps] + extra, ':'))) == Some(60 * minutes + seconds)
  {
    var parts := [pm, ps] + extra;
    assert forall i :: 0 <= i < |parts| ==> ':' !in parts[i];
    SplitJoin(parts, ':');
    var text := Join(parts, ':');
    assert text != "" by {
      assert Occurrences(text, ':') == |parts| - 1;
    }
    ParseLengthOfSplit(text, minutes, seconds);
  }

  lemma {:induction false} ParseLengthOfSplit(text: string, minutes: int, seconds: int)
    requires text != "" && |Split(text, ':')| >= 2
    requires ParseInt(Split(text, ':')[0]) == Some(minutes)
    requires ParseInt(Split(text, ':')[1]) == Some(seconds)
    ensures ParseLength(Some(text)) == Some(60 * minutes + seconds)
  {
  }

  /** Column 6 with a non-integer among its first two pieces is rejected. */
  lemma ParseLengthRejectsNonInteger(text: string, k: nat)
    requires text != "" && k < 2 && k < |Split(text, ':')| && ParseInt(Split(text, ':')[k]).None?
    ensures ParseLength(Some(text)).None?
  {
  }

  // ---------------------------------------------------------------------
  // A row as the playout system's log writes it

  /** The "HH:MM:SS" time-of-day column of the source log. */
  function ClockText(c: Clock): string
    requires c.Valid()
  {
    TwoDigits(c.hour) + ":" + TwoDigits(c.minute) + ":" + TwoDigits(c.second)
  }

  /** The "M:S" duration column of the source log. */
  function DurationText(minutes: nat, seconds: nat): string {
    NatToString(minutes) + ":" + NatToString(seconds)
  }

  /** The log's time-of-day column parses back to its clock. */
  lemma ParseClockText(c: Clock)
    requires c.Valid()
    ensures ParseClock(Some(ClockText(c))) == Some(c)
  {
    var h, m, s := TwoDigits(c.hour), TwoDigits(c.minute), TwoDigits(c.second);
    DigitsHaveNoColon(h);
    DigitsHaveNoColon(m);
    DigitsHaveNoColon(s);
    ParseDigits(h);
    ParseDigits(m);
    ParseDigits(s);
    JoinThree(h, m, s);
    assert [h, m, s] + [] == [h, m, s];
    ParseClockOfPieces(h, m, s, [], c);
  }

  /** A full eight-column row as the source log writes it. */
  function LogRow(date: string, c: Clock, code: string, title: string, artist: string,
                  minutes: nat, seconds: nat, category: string, decoded: Option<AudioType>): Row
    requires c.Valid()
  {
    Row([date, ClockText(c), "", code, title, artist, DurationText(minutes, seconds), category], decoded)
  }

  /** Parsing a row written by the log gives back everything it wrote: the
      clock (shifted and printed), the duration in seconds, the text columns
      and the category. */
  lemma {:induction false} ParseLogRow(date: string, c: Clock, code: string, title: string, artist: string,
                    minutes: nat, seconds: nat, category: string, decoded: Option<AudioType>, offset: int)
    requires c.Valid() && minutes <= Int32Max && seconds <= Int32Max
    ensures ParseRow(LogRow(date, c, code, title, artist, minutes, seconds, category, decoded), offset)
         == Some(Playout(None, decoded.GetOr(Song), Playing, FormatClock(TimeOfDay(c, offset)),
                         60 * minutes + seconds, Some(title), Some(artist), Some(category)))
  {
    var row := LogRow(date, c, code, title, artist, minutes, seconds, category, decoded);
    assert Field(row, 1) == Some(ClockText(c));
    assert Field(row, 6) == Some(DurationText(minutes, seconds));
    assert ParseClock(Field(row, 1)) == Some(c) by {
      ParseClockText(c);
    }
    assert ParseLength(Some(DurationText(minutes, seconds))) == Some(60 * minutes + seconds) by {
      var pm, ps := NatToString(minutes), NatToString(seconds);
      DigitsHaveNoColon(pm);
      DigitsHaveNoColon(ps);
      ParseDigits(pm);
      ParseDigits(ps);
      JoinTwo(pm, ps);
      assert [pm, ps] + [] == [pm, ps];
      ParseLengthOfPieces(pm, ps, [], minutes, seconds);
    }
    var r := ParseRow(row, offset);
    assert r.Some?;
    var p := r.value;
    assert p.playedTime == FormatClock(TimeOfDay(c, offset));
    assert p.lengthInSeconds == 60 * minutes + seconds;
    assert p.title == Some(title) && p.artist == Some(artist) && p.category == Some(category);
    assert p == Playout(None, decoded.GetOr(Song), Playing, FormatClock(TimeOfDay(c, offset)),
                        60 * minutes + seconds, Some(title), Some(artist), Some(category));
  }

  // ---------------------------------------------------------------------
  // Worked examples

  /** 23:59:30 with 90 seconds of offset wraps past midnight and prints on
      the 12-hour dial; 13:05:07 without offset prints as 1 o'clock. */
  lemma PlayedTimeExamples()
    ensures FormatClock(TimeOfDay(Clock(23, 59, 30), 90_000)) == "12:01:00"
    ensures FormatClock(TimeOfDay(Clock(13, 5, 7), 0)) == "1:05:07"
  {
    assert TimeOfDay(Clock(23, 59, 30), 90_000) == TimeOfDay(Clock(0, 1, 0), 0) == 60_000;
    NoOffsetPrintsClock(Clock(0, 1, 0));
    assert NatToString(12) == "12" by {
      assert NatToString(12) == NatToString(1) + [DigitChar(2)];
    }
    assert TwoDigits(1) == "01" && TwoDigits(0) == "00";
    NoOffsetPrintsClock(Clock(13, 5, 7));
    assert NatToString(1) == "1" && TwoDigits(5) == "05" && TwoDigits(7) == "07";
  }

  /** A zero-padded duration: "05:30" is 330 seconds. */
  lemma PaddedLengthExample()
    ensures ParseLength(Some("05:30")) == Some(330)
  {
    assert TwoDigits(5) == "05" && TwoDigits(30) == "30";
    LengthExample("05", "30", 5, 30);
    assert "05" + ":" + "30" == "05:30";
  }

  /** The seconds are not capped at 59: "5:75" is 375 seconds. */
  lemma UncappedLengthExample()
    ensures ParseLength(Some("5:75")) == Some(375)
  {
    assert TwoDigits(75) == "75" && NatToString(5) == "5";
    LengthExample("5", "75", 5, 75);
    assert "5" + ":" + "75" == "5:75";
  }

  /** An empty duration column is zero seconds; one without a ':' fails the row. */
  lemma DegenerateLengthExamples()
    ensures ParseLength(Some("")) == Some(0)
    ensures ParseLength(Some("5")) == None
  {
    assert ':' !in "5";
    SplitNoSeparator("5", ':');
  }

  lemma {:induction false} LengthExample(pm: string, ps: string, minutes: nat, seconds: nat)
    requires minutes < 100 && seconds < 100
    requires pm == NatToString(minutes) || pm == TwoDigits(minutes)
    requires ps == TwoDigits(seconds)
    ensures ParseLength(Some(pm + ":" + ps)) == Some(60 * minutes + seconds)
  {
    DigitsHaveNoColon(pm);
    DigitsHaveNoColon(ps);
    ParseDigits(pm);
    ParseDigits(ps);
    JoinTwo(pm, ps);
    assert [pm, ps] + [] == [pm, ps];
    ParseLengthOfPieces(pm, ps, [], minutes, seconds);
  }
}
