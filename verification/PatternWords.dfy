/** The words that log patterns show, which flag shows which, and the offset from UTC. */
module PatternWords {
  import opened Decimal
  import opened Powers
  import opened IntPadding
  import opened PatternFlags
  import opened PatternLaws
  import opened PatternDates

  // ----- Words -----

  lemma LevelsAre()
    ensures LevelName(Trace) == "trace" && LevelName(Debug) == "debug" && LevelName(Info) == "info"
    ensures LevelName(Notice) == "notice" && LevelName(Warn) == "warning" && LevelName(Err) == "error"
    ensures LevelName(Critical) == "critical" && LevelName(Alert) == "alert" && LevelName(Emerg) == "emerg"
    ensures LevelName(Off) == "off"
  {
  }

  function Capital(c: char): char
    requires 'a' <= c <= 'z'
  {
    (c as int - 'a' as int + 'A' as int) as char
  }

  /** The short names are capitals: the first letter of the name, but for `emerg`, whose first letter `error` has. */
  lemma ShortLevels(level: Level)
    ensures LevelName(level) != "" && 'a' <= LevelName(level)[0] <= 'z'
    ensures ShortLevelName(level) == if level == Emerg then "M" else [Capital(LevelName(level)[0])]
  {
  }

  lemma LevelsDiffer(a: Level, b: Level)
    ensures ShortLevelName(a) == ShortLevelName(b) ==> a == b
    ensures LevelName(a) == LevelName(b) ==> a == b
  {
    ShortLevels(a);
    ShortLevels(b);
  }

  /** Short names of days and months begin the full ones; those of June, July and September have four letters. */
  lemma ShortNames(tm: Tm)
    ensures Day(tm.wday) == FullDay(tm.wday)[..3]
    ensures Month(tm.mon) <= FullMonth(tm.mon)
    ensures |Month(tm.mon)| == if tm.mon == 5 || tm.mon == 6 || tm.mon == 8 then 4 else 3
  {
  }

  lemma DaysAre(tm: Tm)
    ensures FullDay(tm.wday) == if tm.wday == 0 then "Sunday" else if tm.wday == 1 then "Monday"
                                else if tm.wday == 2 then "Tuesday" else if tm.wday == 3 then "Wednesday"
                                else if tm.wday == 4 then "Thursday" else if tm.wday == 5 then "Friday" else "Saturday"
  {
  }

  lemma MonthsAre(tm: Tm)
    ensures tm.mon < 6 ==>
              FullMonth(tm.mon) == if tm.mon == 0 then "January" else if tm.mon == 1 then "February"
                                   else if tm.mon == 2 then "March" else if tm.mon == 3 then "April"
                                   else if tm.mon == 4 then "May" else "June"
    ensures tm.mon >= 6 ==>
              FullMonth(tm.mon) == if tm.mon == 6 then "July" else if tm.mon == 7 then "August"
                                   else if tm.mon == 8 then "September" else if tm.mon == 9 then "October"
                                   else if tm.mon == 10 then "November" else "December"
  {
  }

  lemma HalvesAre(msg: Msg, tm: Tm)
    ensures ShowFlag('p', msg, tm) == if tm.hour < 12 then "AM" else "PM"
  {
    ShowsAmPm(msg, tm);
  }

  /** Which flag shows which word. */
  lemma MessageWords(msg: Msg, tm: Tm)
    ensures ShowFlag('n', msg, tm) == msg.loggerName && ShowFlag('v', msg, tm) == msg.raw
    ensures ShowFlag('l', msg, tm) == LevelName(msg.level) && ShowFlag('L', msg, tm) == ShortLevelName(msg.level)
  {
    Shows('n', Word(msg.loggerName), msg, tm);
    Shows('v', Word(msg.raw), msg, tm);
    Shows('l', Word(LevelName(msg.level)), msg, tm);
    Shows('L', Word(ShortLevelName(msg.level)), msg, tm);
  }

  lemma DateWords(msg: Msg, tm: Tm)
    ensures ShowFlag('a', msg, tm) == Day(tm.wday) && ShowFlag('A', msg, tm) == FullDay(tm.wday)
    ensures ShowFlag('b', msg, tm) == ShowFlag('h', msg, tm) == Month(tm.mon)
    ensures ShowFlag('B', msg, tm) == FullMonth(tm.mon)
  {
    Shows('a', Word(Day(tm.wday)), msg, tm);
    Shows('A', Word(FullDay(tm.wday)), msg, tm);
    Shows('b', Word(Month(tm.mon)), msg, tm);
    Shows('h', Word(Month(tm.mon)), msg, tm);
    Shows('B', Word(FullMonth(tm.mon)), msg, tm);
  }

  lemma ThreadShows(msg: Msg, tm: Tm)
    ensures ShowFlag('t', msg, tm) == Numeral(msg.threadId)
  {
    Shows('t', Number(msg.threadId, 0), msg, tm);
    var spec := Spec(0, '0', Default, false, false, false, '\0');
    PaddedNarrow(spec, Prefix(msg.threadId, spec), Numeral(msg.threadId));
  }

  // ----- %z -----

  /** The offset as ISO 8601 writes it: a sign, hours and minutes. */
  function IsoOffset(offset: int): string {
    var size := if offset < 0 then -offset else offset;
    (if offset < 0 then "-" else "+") + (Fixed(size / 60, 2) + (":" + Fixed(size % 60, 2)))
  }

  /** A number with a minus sign, padded to two places, which the sign uses up. */
  lemma PadNegative(v: int)
    requires 0 < v < 100
    ensures Pad(-v, 2) == "-" + Numeral(v) && |Numeral(v)| == if v < 10 then 1 else 2
    ensures v >= 10 ==> Numeral(v) == Fixed(v, 2)
  {
    var spec := Spec(2, '0', Default, false, false, false, '\0');
    assert Prefix(-v, spec) == "-";
    PaddedNarrow(spec, "-", Numeral(v));
    assert Pow10(1) == 10 && Pow10(2) == 100;
    NumeralLength(v, 1);
    NumeralLength(v, 2);
    if v >= 10 {
      PadIsFixed(v, 2);
      PaddedNarrow(spec, Prefix(v, spec), Numeral(v));
    }
  }

  /** What the flag writes for hours and minutes. */
  function Offset2(h: int, m: int): string {
    (if h >= 0 then "+" else "") + Join2(h, m, ':')
  }

  lemma OffsetEast(offset: nat)
    requires offset < 6000
    ensures Offset2(offset / 60, offset % 60) == IsoOffset(offset)
  {
    assert Pow10(2) == 100;
    PadIsFixed(offset / 60, 2);
    PadIsFixed(offset % 60, 2);
  }

  /** The minutes have a minus sign of their own. */
  lemma WestMinutes(h: string, m: string, m2: string)
    requires |h| == 2 && |m2| == 2 && m != "" && forall k :: 0 <= k < 2 ==> IsDigit(m2[k])
    ensures "" + ("-" + h + ([':'] + ("-" + m))) != "-" + (h + (":" + m2))
  {
    assert ("" + ("-" + h + ([':'] + ("-" + m))))[4] == '-';
    assert ("-" + (h + (":" + m2)))[4] == m2[0];
  }

  /** The hours have a single place. */
  lemma WestHours(h: string, m: string, h2: string, m2: string)
    requires |h| == 1 && |h2| == 2 && forall k :: 0 <= k < 2 ==> IsDigit(h2[k])
    ensures "" + ("-" + h + ([':'] + m)) != "-" + (h2 + (":" + m2))
  {
    assert ("" + ("-" + h + ([':'] + m)))[2] == ':';
    assert ("-" + (h2 + (":" + m2)))[2] == h2[1];
  }

  lemma WestIso(h: int, m: int)
    requires 0 <= h < 100 && 0 <= m < 60 && h + m > 0
    ensures IsoOffset(-(60 * h + m)) == "-" + (Fixed(h, 2) + (":" + Fixed(m, 2)))
  {
    assert (60 * h + m) / 60 == h && (60 * h + m) % 60 == m;
  }

  lemma WestShown(h: int, m: int)
    requires 0 < h < 100 && 0 <= m < 60
    ensures Offset2(-h, -m) == "" + ("-" + Numeral(h) + ([':'] + Pad(-m, 2)))
  {
    PadNegative(h);
  }

  lemma WholeHours(h: int)
    requires 10 <= h < 100
    ensures "" + ("-" + Numeral(h) + ([':'] + Pad(0, 2))) == "-" + (Fixed(h, 2) + (":" + Fixed(0, 2)))
  {
    PadNegative(h);
    assert Pow10(2) == 100;
    PadIsFixed(0, 2);
  }

  lemma OffsetWest(h: int, m: int)
    requires 0 <= h < 100 && 0 <= m < 60 && h + m > 0
    ensures Offset2(-h, -m) == IsoOffset(-(60 * h + m)) <==> h >= 10 && m == 0
  {
    WestIso(h, m);
    if h == 0 {
      assert Offset2(0, -m)[0] == '+';
    } else {
      WestShown(h, m);
      PadNegative(h);
      if h < 10 {
        WestHours(Numeral(h), Pad(-m, 2), Fixed(h, 2), Fixed(m, 2));
      } else if m > 0 {
        PadNegative(m);
        WestMinutes(Numeral(h), Numeral(m), Fixed(m, 2));
      } else {
        WholeHours(h);
      }
    }
  }

  lemma ZoneShows(msg: Msg, tm: Tm)
    ensures ShowFlag('z', msg, tm) == Offset2(TruncDiv(tm.offset, 60), TruncMod(tm.offset, 60))
  {
    Shows('z', Zone, msg, tm);
  }

  lemma WestParts(offset: int) returns (h: int, m: int)
    requires -6000 < offset < 0
    ensures 0 <= h < 100 && 0 <= m < 60 && offset == -(60 * h + m)
    ensures TruncDiv(offset, 60) == -h && TruncMod(offset, 60) == -m
    ensures h >= 10 && m == 0 <==> offset <= -600 && offset % 60 == 0
  {
    h, m := -offset / 60, -offset % 60;
  }

  /** `%z` is the offset of ISO 8601 exactly to the east of UTC, and ten or more whole hours to the west of it. */
  lemma OffsetIsIsoIff(msg: Msg, tm: Tm)
    requires -6000 < tm.offset < 6000
    ensures ShowFlag('z', msg, tm) == IsoOffset(tm.offset) <==>
            tm.offset >= 0 || (tm.offset <= -600 && tm.offset % 60 == 0)
  {
    ZoneShows(msg, tm);
    if tm.offset >= 0 {
      OffsetEast(tm.offset);
    } else {
      var h, m := WestParts(tm.offset);
      OffsetWest(h, m);
    }
  }
}
