/** Which flags stand for longer patterns, as the comments of pattern_formatter_impl.h say they do. */
module PatternLaws {
  import opened Decimal
  import opened Powers
  import opened IntPadding
  import opened PatternFlags
  import opened PatternCompiler

  /** A pattern as a list of characters and flags. */
  datatype Tokens = End | Chr(c: char, rest: Tokens) | Flag(flag: char, rest: Tokens)

  function Spelled(tokens: Tokens): string {
    match tokens
    case End => ""
    case Chr(c, rest) => [c] + Spelled(rest)
    case Flag(flag, rest) => ['%'] + ([flag] + Spelled(rest))
  }

  predicate Proper(tokens: Tokens) {
    match tokens
    case End => true
    case Chr(c, rest) => c != '%' && Proper(rest)
    case Flag(flag, rest) => IsFlag(flag) && Proper(rest)
  }

  function Meaning(tokens: Tokens, shown: Shown): string {
    match tokens
    case End => ""
    case Chr(c, rest) => [c] + Meaning(rest, shown)
    case Flag(flag, rest) => shown(flag) + Meaning(rest, shown)
  }

  /** A pattern means what its tokens mean, and can be continued. */
  lemma {:induction false} InterpretSpelled(tokens: Tokens, shown: Shown)
    requires Proper(tokens)
    ensures Complete(Spelled(tokens)) && Interpret(Spelled(tokens), shown) == Meaning(tokens, shown)
  {
    match tokens
    case End =>
    case Chr(c, rest) =>
      InterpretSpelled(rest, shown);
      assert ([c] + Spelled(rest))[1..] == Spelled(rest);
    case Flag(flag, rest) =>
      InterpretSpelled(rest, shown);
      assert (['%'] + ([flag] + Spelled(rest)))[2..] == Spelled(rest);
  }

  // ----- What single flags show -----

  lemma Shows(flag: char, output: Output, msg: Msg, tm: Tm)
    requires IsFlag(flag) && OutputOf(flag, msg, tm) == output
    ensures ShownFor(msg, tm)(flag) == ShowFlag(flag, msg, tm) == Text(output, msg, tm)
  {
  }

  lemma ShowsYear(msg: Msg, tm: Tm)
    ensures ShownFor(msg, tm)('Y') == Plain(tm.year + 1900)
  {
    Shows('Y', Number(tm.year + 1900, 0), msg, tm);
  }

  lemma ShowsMonth(msg: Msg, tm: Tm)
    ensures ShownFor(msg, tm)('m') == Pad(tm.mon + 1, 2)
  {
    Shows('m', Number(tm.mon + 1, 2), msg, tm);
  }

  lemma ShowsMday(msg: Msg, tm: Tm)
    ensures ShownFor(msg, tm)('d') == Pad(tm.mday, 2)
  {
    Shows('d', Number(tm.mday, 2), msg, tm);
  }

  lemma ShowsHour(msg: Msg, tm: Tm)
    ensures ShownFor(msg, tm)('H') == Pad(tm.hour, 2)
  {
    Shows('H', Number(tm.hour, 2), msg, tm);
  }

  lemma ShowsHour12(msg: Msg, tm: Tm)
    ensures ShownFor(msg, tm)('I') == ShowFlag('I', msg, tm) == Pad(To12h(tm), 2)
  {
    Shows('I', Number(To12h(tm), 2), msg, tm);
  }

  lemma ShowsMinute(msg: Msg, tm: Tm)
    ensures ShownFor(msg, tm)('M') == Pad(tm.min, 2)
  {
    Shows('M', Number(tm.min, 2), msg, tm);
  }

  lemma ShowsSecond(msg: Msg, tm: Tm)
    ensures ShownFor(msg, tm)('S') == Pad(tm.sec, 2)
  {
    Shows('S', Number(tm.sec, 2), msg, tm);
  }

  lemma ShowsCentury(msg: Msg, tm: Tm)
    ensures ShownFor(msg, tm)('C') == Pad(TruncMod(tm.year, 100), 2)
  {
    Shows('C', Number(TruncMod(tm.year, 100), 2), msg, tm);
  }

  lemma ShowsMillis(msg: Msg, tm: Tm)
    ensures ShownFor(msg, tm)('e') == ShowFlag('e', msg, tm) == Pad(Millis(msg), 3)
  {
    Shows('e', Number(Millis(msg), 3), msg, tm);
  }

  lemma ShowsMicros(msg: Msg, tm: Tm)
    ensures ShowFlag('f', msg, tm) == Pad(TruncMod(TruncDiv(msg.nanos, 1000), 1000000), 6)
  {
    Shows('f', Number(TruncMod(TruncDiv(msg.nanos, 1000), 1000000), 6), msg, tm);
  }

  lemma ShowsNanos(msg: Msg, tm: Tm)
    ensures ShowFlag('F', msg, tm) == Pad(TruncMod(msg.nanos, 1000000000), 9)
  {
    Shows('F', Number(TruncMod(msg.nanos, 1000000000), 9), msg, tm);
  }

  lemma ShowsDayName(msg: Msg, tm: Tm)
    ensures ShownFor(msg, tm)('a') == Day(tm.wday)
  {
    Shows('a', Word(Day(tm.wday)), msg, tm);
  }

  lemma ShowsMonthName(msg: Msg, tm: Tm)
    ensures ShownFor(msg, tm)('b') == Month(tm.mon)
  {
    Shows('b', Word(Month(tm.mon)), msg, tm);
  }

  lemma ShowsAmPm(msg: Msg, tm: Tm)
    ensures ShownFor(msg, tm)('p') == AmPm(tm)
  {
    Shows('p', Word(AmPm(tm)), msg, tm);
  }

  lemma ShowsName(msg: Msg, tm: Tm)
    ensures ShownFor(msg, tm)('n') == msg.loggerName
  {
    Shows('n', Word(msg.loggerName), msg, tm);
  }

  lemma ShowsLevelName(msg: Msg, tm: Tm)
    ensures ShownFor(msg, tm)('l') == LevelName(msg.level)
  {
    Shows('l', Word(LevelName(msg.level)), msg, tm);
  }

  lemma ShowsRaw(msg: Msg, tm: Tm)
    ensures ShownFor(msg, tm)('v') == msg.raw
  {
    Shows('v', Word(msg.raw), msg, tm);
  }

  lemma ShowsHourMinute(msg: Msg, tm: Tm)
    ensures ShowFlag('R', msg, tm) == Join2(tm.hour, tm.min, ':')
  {
    Shows('R', Pair(tm.hour, tm.min, ':'), msg, tm);
  }

  lemma ShowsTime(msg: Msg, tm: Tm)
    ensures ShownFor(msg, tm)('T') == ShowFlag('T', msg, tm) == Join3(tm.hour, tm.min, tm.sec, ':')
  {
    Shows('T', Triple(tm.hour, tm.min, tm.sec, ':'), msg, tm);
  }

  lemma ShowsTimeX(msg: Msg, tm: Tm)
    ensures ShowFlag('X', msg, tm) == Join3(tm.hour, tm.min, tm.sec, ':')
  {
    Shows('X', Triple(tm.hour, tm.min, tm.sec, ':'), msg, tm);
  }

  lemma ShowsDate(msg: Msg, tm: Tm)
    ensures ShowFlag('D', msg, tm) == Join3(tm.mon + 1, tm.mday, TruncMod(tm.year, 100), '/')
  {
    Shows('D', Triple(tm.mon + 1, tm.mday, TruncMod(tm.year, 100), '/'), msg, tm);
  }

  lemma ShowsDateX(msg: Msg, tm: Tm)
    ensures ShowFlag('x', msg, tm) == Join3(tm.mon + 1, tm.mday, TruncMod(tm.year, 100), '/')
  {
    Shows('x', Triple(tm.mon + 1, tm.mday, TruncMod(tm.year, 100), '/'), msg, tm);
  }

  lemma ShowsClock(msg: Msg, tm: Tm)
    ensures ShowFlag('r', msg, tm) == Join3(To12h(tm), tm.min, tm.sec, ':') + (" " + AmPm(tm))
  {
    Shows('r', Clock, msg, tm);
  }

  lemma ShowsCtime(msg: Msg, tm: Tm)
    ensures ShowFlag('c', msg, tm) == Ctime(tm, Plain(tm.mday))
  {
    Shows('c', DateAndTime, msg, tm);
  }

  lemma ShowsFull(msg: Msg, tm: Tm)
    ensures ShowFlag('+', msg, tm) == Full(msg, tm)
  {
    Shows('+', Line, msg, tm);
  }

  // ----- %R and %T -----

  const HM: Tokens := Flag('H', Chr(':', Flag('M', End)))
  const HMS: Tokens := Flag('H', Chr(':', Flag('M', Chr(':', Flag('S', End)))))

  // ----- %+ -----

  const DATE: Tokens := Chr('[', Flag('Y', Chr('-', Flag('m', Chr('-', Flag('d', Chr(' ', End)))))))
  const TIME: Tokens := Flag('H', Chr(':', Flag('M', Chr(':', Flag('S', Chr('.', Flag('e', End)))))))
  const REST: Tokens :=
    Chr(']', Chr(' ', Chr('[', Flag('n', Chr(']', Chr(' ', Chr('[', Flag('l', Chr(']', Chr(' ', Flag('v', End)))))))))))

  lemma SpelledShort()
    ensures Spelled(HM) == "%H:%M" && Spelled(HMS) == "%H:%M:%S"
  {
  }

  lemma SpelledDate()
    ensures Spelled(DATE) == "[%Y-%m-%d "
  {
  }

  lemma SpelledTime()
    ensures Spelled(TIME) == "%H:%M:%S.%e"
  {
  }

  lemma SpelledRest()
    ensures Spelled(REST) == "] [%n] [%l] %v"
  {
  }

  lemma MeaningDate(shown: Shown, year: string, mon: string, mday: string)
    requires shown('Y') == year && shown('m') == mon && shown('d') == mday
    ensures Meaning(DATE, shown) == "[" + year + "-" + mon + "-" + mday + " "
  {
    assert Meaning(DATE, shown) == ['['] + (year + (['-'] + (mon + (['-'] + (mday + ([' '] + ""))))));
  }

  lemma MeaningTime(shown: Shown, hour: string, min: string, sec: string, millis: string)
    requires shown('H') == hour && shown('M') == min && shown('S') == sec && shown('e') == millis
    ensures Meaning(TIME, shown) == hour + ":" + min + ":" + sec + "." + millis
  {
    assert Meaning(TIME, shown) == hour + ([':'] + (min + ([':'] + (sec + (['.'] + (millis + ""))))));
  }

  lemma MeaningRest(shown: Shown, name: string, level: string, raw: string)
    requires shown('n') == name && shown('l') == level && shown('v') == raw
    ensures Meaning(REST, shown) == "] " + "[" + name + "] " + "[" + level + "] " + raw
  {
    assert Meaning(REST, shown) ==
           [']'] + ([' '] + (['['] + (name + ([']'] + ([' '] + (['['] + (level + ([']'] + ([' '] + (raw + ""))))))))));
  }

  lemma InterpretThree(a: string, b: string, c: string, shown: Shown)
    requires Complete(a) && Complete(b)
    ensures Interpret(a + b + c, shown) == Interpret(a, shown) + Interpret(b, shown) + Interpret(c, shown)
  {
    Assoc(a, b, c);
    InterpretConcat(a, b + c, shown);
    InterpretConcat(b, c, shown);
    Assoc(Interpret(a, shown), Interpret(b, shown), Interpret(c, shown));
  }

  lemma DatePart(date: string, shown: Shown)
    requires date == "[%Y-%m-%d "
    ensures Complete(date)
    ensures Interpret(date, shown) == "[" + shown('Y') + "-" + shown('m') + "-" + shown('d') + " "
  {
    SpelledDate();
    InterpretSpelled(DATE, shown);
    MeaningDate(shown, shown('Y'), shown('m'), shown('d'));
  }

  lemma TimePart(time: string, shown: Shown)
    requires time == "%H:%M:%S.%e"
    ensures Complete(time)
    ensures Interpret(time, shown) == shown('H') + ":" + shown('M') + ":" + shown('S') + "." + shown('e')
  {
    SpelledTime();
    InterpretSpelled(TIME, shown);
    MeaningTime(shown, shown('H'), shown('M'), shown('S'), shown('e'));
  }

  lemma RestPart(rest: string, shown: Shown)
    requires rest == "] [%n] [%l] %v"
    ensures Interpret(rest, shown) == "] " + "[" + shown('n') + "] " + "[" + shown('l') + "] " + shown('v')
  {
    SpelledRest();
    InterpretSpelled(REST, shown);
    MeaningRest(shown, shown('n'), shown('l'), shown('v'));
  }

  lemma DateShows(date: string, msg: Msg, tm: Tm)
    requires date == "[%Y-%m-%d "
    ensures Complete(date) && Interpret(date, ShownFor(msg, tm)) == DateText(tm.year + 1900, tm.mon + 1, tm.mday)
  {
    DatePart(date, ShownFor(msg, tm));
    ShowsYear(msg, tm);
    ShowsMonth(msg, tm);
    ShowsMday(msg, tm);
  }

  lemma TimeShows(time: string, msg: Msg, tm: Tm)
    requires time == "%H:%M:%S.%e"
    ensures Complete(time) && Interpret(time, ShownFor(msg, tm)) == TimeText(tm.hour, tm.min, tm.sec, Millis(msg))
  {
    TimePart(time, ShownFor(msg, tm));
    ShowsHour(msg, tm);
    ShowsMinute(msg, tm);
    ShowsSecond(msg, tm);
    ShowsMillis(msg, tm);
  }

  lemma RestShows(rest: string, msg: Msg, tm: Tm)
    requires rest == "] [%n] [%l] %v"
    ensures Interpret(rest, ShownFor(msg, tm)) == RestText(msg)
  {
    RestPart(rest, ShownFor(msg, tm));
    ShowsName(msg, tm);
    ShowsLevelName(msg, tm);
    ShowsRaw(msg, tm);
  }

  /** The full line with its numbers as they are. */
  function LongText(msg: Msg, tm: Tm): string {
    DateText(tm.year + 1900, tm.mon + 1, tm.mday) + TimeText(tm.hour, tm.min, tm.sec, Millis(msg)) + RestText(msg)
  }

  lemma InterpretParts(a: string, b: string, c: string, date: string, time: string, rest: string, shown: Shown)
    requires Complete(a) && Interpret(a, shown) == date && Complete(b) && Interpret(b, shown) == time
    requires Interpret(c, shown) == rest
    ensures Interpret(a + b + c, shown) == date + time + rest
  {
    InterpretThree(a, b, c, shown);
  }

  /** What the long pattern, given in three parts, shows. */
  lemma LongShows(date: string, time: string, rest: string, msg: Msg, tm: Tm)
    requires date == "[%Y-%m-%d " && time == "%H:%M:%S.%e" && rest == "] [%n] [%l] %v"
    ensures Interpret(date + time + rest, ShownFor(msg, tm)) == LongText(msg, tm)
  {
    DateShows(date, msg, tm);
    TimeShows(time, msg, tm);
    RestShows(rest, msg, tm);
    InterpretParts(date, time, rest, DateText(tm.year + 1900, tm.mon + 1, tm.mday),
                   TimeText(tm.hour, tm.min, tm.sec, Millis(msg)), RestText(msg), ShownFor(msg, tm));
  }

  lemma PadLength(v: int, width: nat)
    ensures |Pad(v, width)| ==
            var digits := |Numeral(Abs(v))| + if v < 0 then 1 else 0; if digits < width then width else digits
  {
    PaddedLength(Spec(width, '0', Default, false, false, false, '\0'),
                 Prefix(v, Spec(width, '0', Default, false, false, false, '\0')), Numeral(Abs(v)));
  }

  /** A negative remainder is printed by `%e` in four characters, and by `%+` in ten. */
  lemma NegativeMillis(millis: int)
    requires -1000 < millis < 0
    ensures |Pad(millis, 3)| <= 4 && |Pad(ToUnsigned(millis), 3)| == 10
  {
    var small, large := -millis, ToUnsigned(millis);
    assert large == millis + LIMIT_32;
    PadLength(millis, 3);
    PadLength(large, 3);
    assert Pow10(3) == 1000 && Pow10(9) == 1000000000 && Pow10(10) == 10000000000;
    NumeralLength(large, 10);
    NumeralLength(small, 1);
    NumeralLength(small, 2);
    NumeralLength(small, 3);
    assert Pow10(1) == 10 && Pow10(2) == 100;
  }

  lemma TimeLength(hour: int, min: int, sec: int, millis: int)
    ensures |TimeText(hour, min, sec, millis)| ==
            |Pad(hour, 2)| + |Pad(min, 2)| + |Pad(sec, 2)| + 3 + |Pad(millis, 3)|
  {
  }

  lemma FullIff(date: string, hour: int, min: int, sec: int, millis: int, rest: string)
    requires -1000 < millis < 1000
    ensures date + TimeText(hour, min, sec, ToUnsigned(millis)) + rest == date + TimeText(hour, min, sec, millis) + rest
            <==> millis >= 0
  {
    if millis < 0 {
      NegativeMillis(millis);
      TimeLength(hour, min, sec, millis);
      TimeLength(hour, min, sec, ToUnsigned(millis));
      assert |date + TimeText(hour, min, sec, ToUnsigned(millis)) + rest| >
             |date + TimeText(hour, min, sec, millis) + rest|;
    } else {
      assert ToUnsigned(millis) == millis;
    }
  }

  lemma UnsignedFields(tm: Tm)
    ensures tm.year + 1900 >= 0 ==> ToUnsigned(tm.year + 1900) == tm.year + 1900
    ensures ToUnsigned(tm.mon + 1) == tm.mon + 1 && ToUnsigned(tm.mday) == tm.mday
    ensures ToUnsigned(tm.hour) == tm.hour && ToUnsigned(tm.min) == tm.min && ToUnsigned(tm.sec) == tm.sec
  {
  }

  lemma PlainSign(v: int)
    ensures Plain(v) != "" && (Plain(v)[0] == '-' <==> v < 0)
  {
    var spec := Spec(0, '0', Default, false, false, false, '\0');
    FirstCharacter(v, spec);
    PaddedNarrow(spec, Prefix(v, spec), Numeral(Abs(v)));
  }

  lemma BehindBracket(year: string, mon: string, mday: string, later: string)
    requires year != ""
    ensures ("[" + year + "-" + mon + "-" + mday + " " + later)[1] == year[0]
  {
  }

  /** Only a negative year puts a minus sign behind the bracket. */
  lemma YearSign(year: int, mon: int, mday: int, later: string)
    ensures var line := DateText(year, mon, mday) + later; |line| > 1 && (line[1] == '-' <==> year < 0)
  {
    PlainSign(year);
    BehindBracket(Plain(year), Pad(mon, 2), Pad(mday, 2), later);
  }

  lemma NegativeYearDiffers(year: int, mon: int, mday: int, time: string, time': string, rest: string)
    requires year < 0
    ensures DateText(ToUnsigned(year), mon, mday) + time + rest != DateText(year, mon, mday) + time' + rest
  {
    YearSign(ToUnsigned(year), mon, mday, time + rest);
    YearSign(year, mon, mday, time' + rest);
    Assoc(DateText(ToUnsigned(year), mon, mday), time, rest);
    Assoc(DateText(year, mon, mday), time', rest);
  }

  lemma FullLaterIff(msg: Msg, tm: Tm)
    requires tm.year + 1900 >= 0
    ensures Full(msg, tm) == LongText(msg, tm) <==> Millis(msg) >= 0
  {
    UnsignedFields(tm);
    FullIff(DateText(tm.year + 1900, tm.mon + 1, tm.mday), tm.hour, tm.min, tm.sec, Millis(msg), RestText(msg));
  }

  lemma FullEarlier(msg: Msg, tm: Tm)
    requires tm.year + 1900 < 0
    ensures Full(msg, tm) != LongText(msg, tm)
  {
    UnsignedFields(tm);
    NegativeYearDiffers(tm.year + 1900, tm.mon + 1, tm.mday,
                        TimeText(tm.hour, tm.min, tm.sec, ToUnsigned(Millis(msg))),
                        TimeText(tm.hour, tm.min, tm.sec, Millis(msg)), RestText(msg));
  }

  lemma FullTextIff(msg: Msg, tm: Tm)
    ensures Full(msg, tm) == LongText(msg, tm) <==> tm.year + 1900 >= 0 && Millis(msg) >= 0
  {
    if tm.year + 1900 >= 0 {
      FullLaterIff(msg, tm);
    } else {
      FullEarlier(msg, tm);
    }
  }

  /**
  `%+` is the long pattern exactly when neither the year nor the millisecond part of the time is
  negative.
  */
  lemma FullIsLongIff(date: string, time: string, rest: string, msg: Msg, tm: Tm)
    requires date == "[%Y-%m-%d " && time == "%H:%M:%S.%e" && rest == "] [%n] [%l] %v"
    ensures ShowFlag('+', msg, tm) == Interpret(date + time + rest, ShownFor(msg, tm))
            <==> tm.year + 1900 >= 0 && Millis(msg) >= 0
  {
    LongShows(date, time, rest, msg, tm);
    ShowsFull(msg, tm);
    FullTextIff(msg, tm);
  }

  /** Times since the epoch are among them. */
  lemma SinceEpoch(msg: Msg)
    requires msg.nanos >= 0
    ensures Millis(msg) >= 0
  {
  }

  // ----- %R and %T -----

  lemma MeaningShort(shown: Shown, hour: string, min: string, sec: string)
    requires shown('H') == hour && shown('M') == min && shown('S') == sec
    ensures Meaning(HM, shown) == hour + ([':'] + min)
    ensures Meaning(HMS, shown) == hour + ([':'] + (min + ([':'] + sec)))
  {
    assert Meaning(HM, shown) == hour + ([':'] + (min + ""));
    assert Meaning(HMS, shown) == hour + ([':'] + (min + ([':'] + (sec + ""))));
    assert min + "" == min && sec + "" == sec;
  }

  /** `%R` is `%H:%M`, and `%T` and `%X` are `%H:%M:%S`. */
  lemma TimeOfDay(short: string, long: string, msg: Msg, tm: Tm)
    requires short == "%H:%M" && long == "%H:%M:%S"
    ensures ShowFlag('R', msg, tm) == Interpret(short, ShownFor(msg, tm))
    ensures ShowFlag('T', msg, tm) == ShowFlag('X', msg, tm) == Interpret(long, ShownFor(msg, tm))
  {
    var shown := ShownFor(msg, tm);
    SpelledShort();
    InterpretSpelled(HM, shown);
    InterpretSpelled(HMS, shown);
    ShowsHour(msg, tm);
    ShowsMinute(msg, tm);
    ShowsSecond(msg, tm);
    MeaningShort(shown, Pad(tm.hour, 2), Pad(tm.min, 2), Pad(tm.sec, 2));
    ShowsHourMinute(msg, tm);
    ShowsTime(msg, tm);
    ShowsTimeX(msg, tm);
  }
}
