/** More flags that stand for longer patterns, and the fractions of a second. */
module PatternDates {
  import opened Decimal
  import opened Powers
  import opened IntPadding
  import opened PatternFlags
  import opened PatternCompiler
  import opened PatternLaws

  // ----- %r, %D and %c -----

  const CLOCK12: Tokens := Flag('I', Chr(':', Flag('M', Chr(':', Flag('S', Chr(' ', Flag('p', End)))))))
  const MDC: Tokens := Flag('m', Chr('/', Flag('d', Chr('/', Flag('C', End)))))
  const CTIME: Tokens :=
    Flag('a', Chr(' ', Flag('b', Chr(' ', Flag('d', Chr(' ', Flag('T', Chr(' ', Flag('Y', End)))))))))

  lemma SpelledClock()
    ensures Spelled(CLOCK12) == "%I:%M:%S %p"
  {
  }

  lemma SpelledShortDate()
    ensures Spelled(MDC) == "%m/%d/%C"
  {
  }

  lemma SpelledCtime()
    ensures Spelled(CTIME) == "%a %b %d %T %Y"
  {
  }

  lemma MeaningClock(shown: Shown)
    ensures Meaning(CLOCK12, shown) ==
            shown('I') + ([':'] + (shown('M') + ([':'] + shown('S')))) + ([' '] + shown('p'))
  {
    var i, m, s, p := shown('I'), shown('M'), shown('S'), shown('p');
    assert Meaning(CLOCK12, shown) == i + ([':'] + (m + ([':'] + (s + ([' '] + (p + ""))))));
    assert p + "" == p;
    assert i + ([':'] + (m + ([':'] + (s + ([' '] + p))))) == i + ([':'] + (m + ([':'] + s))) + ([' '] + p);
  }

  lemma MeaningShortDate(shown: Shown)
    ensures Meaning(MDC, shown) == shown('m') + (['/'] + (shown('d') + (['/'] + shown('C'))))
  {
    assert Meaning(MDC, shown) == shown('m') + (['/'] + (shown('d') + (['/'] + (shown('C') + ""))));
    assert shown('C') + "" == shown('C');
  }

  lemma MeaningCtime(shown: Shown)
    ensures Meaning(CTIME, shown) ==
            shown('a') + (" " + (shown('b') + (" " + (shown('d') + (" " + (shown('T') + (" " + shown('Y'))))))))
  {
    assert shown('Y') + "" == shown('Y');
  }

  lemma ClockPart(clock: string, msg: Msg, tm: Tm)
    requires clock == "%I:%M:%S %p"
    ensures ShowFlag('r', msg, tm) == Interpret(clock, ShownFor(msg, tm))
  {
    var shown := ShownFor(msg, tm);
    SpelledClock();
    InterpretSpelled(CLOCK12, shown);
    MeaningClock(shown);
    ShowsHour12(msg, tm);
    ShowsMinute(msg, tm);
    ShowsSecond(msg, tm);
    ShowsAmPm(msg, tm);
    ShowsClock(msg, tm);
  }

  lemma ShortDate(date: string, msg: Msg, tm: Tm)
    requires date == "%m/%d/%C"
    ensures ShowFlag('D', msg, tm) == ShowFlag('x', msg, tm) == Interpret(date, ShownFor(msg, tm))
  {
    var shown := ShownFor(msg, tm);
    SpelledShortDate();
    InterpretSpelled(MDC, shown);
    MeaningShortDate(shown);
    ShowsMonth(msg, tm);
    ShowsMday(msg, tm);
    ShowsCentury(msg, tm);
    ShowsDate(msg, tm);
    ShowsDateX(msg, tm);
  }

  /** `%r` is `%I:%M:%S %p`, and `%D` and `%x` are `%m/%d/%C`. */
  lemma ClockAndDate(clock: string, date: string, msg: Msg, tm: Tm)
    requires clock == "%I:%M:%S %p" && date == "%m/%d/%C"
    ensures ShowFlag('r', msg, tm) == Interpret(clock, ShownFor(msg, tm))
    ensures ShowFlag('D', msg, tm) == ShowFlag('x', msg, tm) == Interpret(date, ShownFor(msg, tm))
  {
    ClockPart(clock, msg, tm);
    ShortDate(date, msg, tm);
  }

  lemma CtimeLength(tm: Tm, mday: string)
    ensures |Ctime(tm, mday)| == |Ctime(tm, "")| + |mday|
  {
  }

  lemma PaddedDay(mday: int)
    requires 1 <= mday <= 31
    ensures if mday >= 10 then Pad(mday, 2) == Plain(mday) else |Plain(mday)| == 1 && |Pad(mday, 2)| == 2
  {
    PadLength(mday, 2);
    PadLength(mday, 0);
    if mday >= 10 {
      assert Numeral(mday) == Numeral(mday / 10) + [Digit(mday % 10)];
      PaddedNarrow(Spec(2, '0', Default, false, false, false, '\0'), "", Numeral(mday));
      PaddedNarrow(Spec(0, '0', Default, false, false, false, '\0'), "", Numeral(mday));
    }
  }

  lemma PaddedCtime(pattern: string, msg: Msg, tm: Tm)
    requires pattern == "%a %b %d %T %Y"
    ensures Interpret(pattern, ShownFor(msg, tm)) == Ctime(tm, Pad(tm.mday, 2))
  {
    var shown := ShownFor(msg, tm);
    SpelledCtime();
    InterpretSpelled(CTIME, shown);
    MeaningCtime(shown);
    ShowsDayName(msg, tm);
    ShowsMonthName(msg, tm);
    ShowsMday(msg, tm);
    ShowsTime(msg, tm);
    ShowsYear(msg, tm);
  }

  /** `%c` does not pad the day, so it is `%a %b %d %T %Y` exactly from the tenth of a month on. */
  lemma CtimeIff(pattern: string, msg: Msg, tm: Tm)
    requires pattern == "%a %b %d %T %Y"
    ensures ShowFlag('c', msg, tm) == Interpret(pattern, ShownFor(msg, tm)) <==> tm.mday >= 10
  {
    PaddedCtime(pattern, msg, tm);
    ShowsCtime(msg, tm);
    PaddedDay(tm.mday);
    CtimeLength(tm, Plain(tm.mday));
    CtimeLength(tm, Pad(tm.mday, 2));
  }

  // ----- %e, %f and %F -----

  /** Exactly `w` digits, leading zeros included. */
  function Fixed(v: nat, w: nat): (s: string)
    ensures |s| == w
  {
    if w == 0 then "" else Fixed(v / 10, w - 1) + [Digit(v % 10)]
  }

  /** A padded number that fits its width is its fixed-width numeral. */
  lemma {:induction false} FixedIsPadded(v: nat, w: nat)
    requires w >= 1 && v < Pow10(w)
    ensures |Numeral(v)| <= w && Fixed(v, w) == Repeat('0', w - |Numeral(v)|) + Numeral(v)
  {
    if w == 1 {
      assert Pow10(1) == 10 && Fixed(v / 10, 0) == "";
      assert Repeat('0', 0) == "";
    } else if v < 10 {
      FixedIsPadded(0, w - 1);
      assert v / 10 == 0 && Fixed(v, w) == Repeat('0', w - 2) + "0" + [Digit(v)];
      assert Repeat('0', w - 2) + "0" == Repeat('0', w - 1);
    } else {
      FixedIsPadded(v / 10, w - 1);
      assert Numeral(v) == Numeral(v / 10) + [Digit(v % 10)];
    }
  }

  lemma ZerosInFront(spec: Spec, digits: string)
    requires spec == Spec(spec.width, '0', Default, false, false, false, '\0') && |digits| <= spec.width
    ensures Padded(spec, "", digits) == Repeat('0', spec.width - |digits|) + digits
  {
  }

  lemma PadIsFixed(v: nat, w: nat)
    requires w >= 1 && v < Pow10(w)
    ensures Pad(v, w) == Fixed(v, w)
  {
    FixedIsPadded(v, w);
    var spec := Spec(w, '0', Default, false, false, false, '\0');
    assert Prefix(v, spec) == "";
    ZerosInFront(spec, Numeral(v));
  }

  /** Dropping three digits is dividing by a thousand. */
  lemma FixedPrefix(v: nat, w: nat)
    requires w >= 3
    ensures Fixed(v, w)[..w - 3] == Fixed(v / 1000, w - 3)
  {
    assert v / 10 / 10 / 10 == v / 1000;
    assert Fixed(v / 10, w - 1) == Fixed(v / 10 / 10, w - 2) + [Digit(v / 10 % 10)];
    assert Fixed(v / 10 / 10, w - 2) == Fixed(v / 10 / 10 / 10, w - 3) + [Digit(v / 10 / 10 % 10)];
  }

  lemma CutMicros(n: nat, q: nat, a: nat, b: nat)
    requires n == 1000000000 * q + 1000 * a + b && a < 1000000 && b < 1000
    ensures n % 1000000000 / 1000 == a
  {
    assert n % 1000000000 == 1000 * a + b;
  }

  lemma CutMillis(n: nat, q: nat, a: nat, b: nat)
    requires n == 1000000 * q + 1000 * a + b && a < 1000 && b < 1000
    ensures n % 1000000 / 1000 == a
  {
    assert n % 1000000 == 1000 * a + b;
  }

  lemma Fractions(nanos: nat)
    ensures var ns, us, ms := nanos % 1000000000, nanos / 1000 % 1000000, nanos / 1000000 % 1000;
            ns / 1000 == us && us / 1000 == ms && ns < Pow10(9) && us < Pow10(6) && ms < Pow10(3)
  {
    assert Pow10(9) == 1000000000 && Pow10(6) == 1000000 && Pow10(3) == 1000;
    var us0 := nanos / 1000;
    assert us0 / 1000 == nanos / 1000000;
    CutMicros(nanos, us0 / 1000000, us0 % 1000000, nanos % 1000);
    CutMillis(us0, us0 / 1000 / 1000, us0 / 1000 % 1000, us0 % 1000);
  }

  lemma FractionTexts(msg: Msg, tm: Tm, n: nat)
    requires msg.nanos == n
    ensures ShowFlag('F', msg, tm) == Fixed(n % 1000000000, 9)
    ensures ShowFlag('f', msg, tm) == Fixed(n / 1000 % 1000000, 6)
    ensures ShowFlag('e', msg, tm) == Fixed(n / 1000000 % 1000, 3)
  {
    Fractions(n);
    ShowsNanos(msg, tm);
    ShowsMicros(msg, tm);
    ShowsMillis(msg, tm);
    PadIsFixed(n % 1000000000, 9);
    PadIsFixed(n / 1000 % 1000000, 6);
    PadIsFixed(n / 1000000 % 1000, 3);
  }

  lemma FractionsCut(n: nat)
    ensures Fixed(n % 1000000000, 9)[..6] == Fixed(n / 1000 % 1000000, 6)
    ensures Fixed(n / 1000 % 1000000, 6)[..3] == Fixed(n / 1000000 % 1000, 3)
  {
    Fractions(n);
    var ns, us := n % 1000000000, n / 1000 % 1000000;
    FixedPrefix(ns, 9);
    FixedPrefix(us, 6);
  }

  /** Since the epoch `%F` starts with `%f`, and `%f` with `%e`: they are one fraction, cut at 9, 6 and 3 digits. */
  lemma FractionsAgree(msg: Msg, tm: Tm)
    requires msg.nanos >= 0
    ensures var ns, us := ShowFlag('F', msg, tm), ShowFlag('f', msg, tm);
            |ns| == 9 && us == ns[..6] && ShowFlag('e', msg, tm) == us[..3]
  {
    FractionTexts(msg, tm, msg.nanos);
    FractionsCut(msg.nanos);
  }

  // ----- The 12-hour clock -----

  lemma {:induction false} FixedInjective(v: nat, v': nat, w: nat)
    requires v < Pow10(w) && v' < Pow10(w) && Fixed(v, w) == Fixed(v', w)
    ensures v == v'
  {
    if w > 0 {
      var s, s' := Fixed(v, w), Fixed(v', w);
      assert s[..w - 1] == Fixed(v / 10, w - 1) && s'[..w - 1] == Fixed(v' / 10, w - 1);
      assert s[w - 1] == Digit(v % 10) && s'[w - 1] == Digit(v' % 10);
      FixedInjective(v / 10, v' / 10, w - 1);
    }
  }

  /** The clock as a text of fixed places. */
  function ClockText(h: nat, m: nat, s: nat, half: string): string {
    Fixed(h, 2) + ([':'] + (Fixed(m, 2) + ([':'] + Fixed(s, 2)))) + (" " + half)
  }

  lemma ClockTextParts(h: nat, m: nat, s: nat, half: string)
    ensures var t := ClockText(h, m, s, half);
            && |t| == 9 + |half|
            && t[..2] == Fixed(h, 2) && t[3..5] == Fixed(m, 2) && t[6..8] == Fixed(s, 2) && t[9..] == half
  {
  }

  lemma ClockFlagText(msg: Msg, tm: Tm)
    ensures ShowFlag('r', msg, tm) == ClockText(To12h(tm), tm.min, tm.sec, AmPm(tm))
  {
    ShowsClock(msg, tm);
    assert Pow10(2) == 100;
    PadIsFixed(To12h(tm), 2);
    PadIsFixed(tm.min, 2);
    PadIsFixed(tm.sec, 2);
  }

  /** `%r` shows two times of day alike only if they are the same to the second. */
  lemma ClockIsInjective(msg: Msg, tm: Tm, msg': Msg, tm': Tm)
    requires ShowFlag('r', msg, tm) == ShowFlag('r', msg', tm')
    ensures tm.hour == tm'.hour && tm.min == tm'.min && tm.sec == tm'.sec
  {
    ClockFlagText(msg, tm);
    ClockFlagText(msg', tm');
    ClockTextParts(To12h(tm), tm.min, tm.sec, AmPm(tm));
    ClockTextParts(To12h(tm'), tm'.min, tm'.sec, AmPm(tm'));
    assert Pow10(2) == 100;
    FixedInjective(To12h(tm), To12h(tm'), 2);
    FixedInjective(tm.min, tm'.min, 2);
    FixedInjective(tm.sec, tm'.sec, 2);
    assert "AM" != "PM";
  }

  lemma HourFlag(msg: Msg, tm: Tm)
    ensures ShowFlag('I', msg, tm) == Fixed(To12h(tm), 2)
  {
    ShowsHour12(msg, tm);
    assert Pow10(2) == 100;
    PadIsFixed(To12h(tm), 2);
  }

  /** `%I` shows an hour from 1 to 12 exactly outside the first hour of the day, which it shows as 00. */
  lemma TwelveHourIff(msg: Msg, tm: Tm)
    ensures (exists h: nat :: 1 <= h <= 12 && ShowFlag('I', msg, tm) == Fixed(h, 2)) <==> tm.hour != 0
    ensures tm.hour == 0 ==> ShowFlag('I', msg, tm) == "00"
  {
    HourFlag(msg, tm);
    assert Pow10(2) == 100;
    if h: nat :| 1 <= h <= 12 && Fixed(To12h(tm), 2) == Fixed(h, 2) {
      FixedInjective(To12h(tm), h, 2);
    }
    assert Fixed(0, 0) == "" && Fixed(0, 1) == "0" && Fixed(0, 2) == "00";
  }
}
