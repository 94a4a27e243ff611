/** The flags of a log pattern (pattern_formatter_impl.h): what each formatter appends to a message. */
module PatternFlags {
  import opened Powers
  import opened IntPadding

  /** `level::level_enum` */
  datatype Level = Trace | Debug | Info | Notice | Warn | Err | Critical | Alert | Emerg | Off

  function LevelName(level: Level): string {
    match level
    case Trace => "trace"
    case Debug => "debug"
    case Info => "info"
    case Notice => "notice"
    case Warn => "warning"
    case Err => "error"
    case Critical => "critical"
    case Alert => "alert"
    case Emerg => "emerg"
    case Off => "off"
  }

  function ShortLevelName(level: Level): string {
    match level
    case Trace => "T"
    case Debug => "D"
    case Info => "I"
    case Notice => "N"
    case Warn => "W"
    case Err => "E"
    case Critical => "C"
    case Alert => "A"
    case Emerg => "M"
    case Off => "O"
  }

  /** A message; the time is nanoseconds since the epoch. */
  datatype Msg = Msg(loggerName: string, level: Level, nanos: int, threadId: nat, raw: string)

  /** `std::tm`, with years since 1900 and the offset from UTC in minutes. */
  datatype Fields = Fields(sec: int, min: int, hour: int, mday: int, mon: int, year: int, wday: int, offset: int)

  /** What localtime guarantees; the year after 1900 is added is an `int`. */
  predicate ValidTm(tm: Fields) {
    && 0 <= tm.sec <= 60 && 0 <= tm.min < 60 && 0 <= tm.hour < 24
    && 1 <= tm.mday <= 31 && 0 <= tm.mon < 12 && 0 <= tm.wday < 7
    && -0x8000_0000 <= tm.year && tm.year + 1900 < 0x8000_0000
  }

  type Tm = tm: Fields | ValidTm(tm) witness Fields(0, 0, 0, 1, 0, 0, 0, 0)

  /** The tables of names, by `tm_wday` and `tm_mon`. */
  function Day(wday: int): string
    requires 0 <= wday < 7
  {
    ["Sun", "Mon", "Tue", "Wed", "Thu", "Fri", "Sat"][wday]
  }

  function FullDay(wday: int): string
    requires 0 <= wday < 7
  {
    ["Sunday", "Monday", "Tuesday", "Wednesday", "Thursday", "Friday", "Saturday"][wday]
  }

  function Month(mon: int): string
    requires 0 <= mon < 12
  {
    ["Jan", "Feb", "Mar", "Apr", "May", "June", "July", "Aug", "Sept", "Oct", "Nov", "Dec"][mon]
  }

  function FullMonth(mon: int): string
    requires 0 <= mon < 12
  {
    ["January", "February", "March", "April", "May", "June", "July", "August", "September", "October", "November",
     "December"][mon]
  }

  // ----- Arithmetic as in C++ -----

  /** Division that truncates toward zero, and its remainder. */
  function TruncDiv(a: int, b: int): int
    requires b > 0
  {
    if a >= 0 then a / b else -(-a / b)
  }

  function TruncMod(a: int, b: int): (r: int)
    requires b > 0
    ensures -b < r < b && (a >= 0 ==> r >= 0)
  {
    if a >= 0 then a % b else -(-a % b)
  }

  /** `static_cast<unsigned int>` */
  function ToUnsigned(v: int): nat {
    v % LIMIT_32
  }

  function Millis(msg: Msg): int {
    TruncMod(TruncDiv(msg.nanos, 1000000), 1000)
  }

  /** `pad(v, width, '0')` */
  function Pad(v: int, width: nat): string {
    Written(v, Spec(width, '0', Default, false, false, false, '\0'))
  }

  function Plain(v: int): string {
    Pad(v, 0)
  }

  function Join2(a: int, b: int, sep: char): string {
    Pad(a, 2) + ([sep] + Pad(b, 2))
  }

  function Join3(a: int, b: int, c: int, sep: char): string {
    Pad(a, 2) + ([sep] + (Pad(b, 2) + ([sep] + Pad(c, 2))))
  }

  function AmPm(tm: Tm): string {
    if tm.hour >= 12 then "PM" else "AM"
  }

  function To12h(tm: Tm): int {
    if tm.hour > 12 then tm.hour - 12 else tm.hour
  }

  // ----- The formatters -----

  /** `flag_formatter` and its subclasses: one for each flag, text, and a single character. */
  datatype Formatter = FlagFormatter(flag: char) | TextFormatter(text: string) | CharFormatter(c: char)

  predicate IsFlag(c: char) {
    match c
    case 'n' | 'l' | 'L' | 't' | 'v' | 'a' | 'A' | 'b' | 'h' | 'B' | 'c' | 'C' | 'Y' | 'D' | 'x' | 'm' => true
    case 'd' | 'H' | 'I' | 'M' | 'S' | 'e' | 'f' | 'F' | 'p' | 'r' | 'R' | 'T' | 'X' | 'z' | '+' => true
    case _ => false
  }

  function Offset(tm: Tm): string {
    var h, m := TruncDiv(tm.offset, 60), TruncMod(tm.offset, 60);
    (if h >= 0 then "+" else "") + Join2(h, m, ':')
  }

  /** What `%c` prints, given how the day of the month is printed. */
  function Ctime(tm: Tm, mday: string): string
  {
    Day(tm.wday) + (" " + (Month(tm.mon) + (" " + (mday + (" "
      + (Join3(tm.hour, tm.min, tm.sec, ':') + (" " + Plain(tm.year + 1900))))))))
  }

  /** The parts of a full line. */
  function DateText(year: int, mon: int, mday: int): string {
    "[" + Plain(year) + "-" + Pad(mon, 2) + "-" + Pad(mday, 2) + " "
  }

  function TimeText(hour: int, min: int, sec: int, millis: int): string {
    Pad(hour, 2) + ":" + Pad(min, 2) + ":" + Pad(sec, 2) + "." + Pad(millis, 3)
  }

  function RestText(msg: Msg): string {
    "] " + "[" + msg.loggerName + "] " + "[" + LevelName(msg.level) + "] " + msg.raw
  }

  /** `full_formatter`, which prints unsigned numbers. */
  function Full(msg: Msg, tm: Tm): string {
    DateText(ToUnsigned(tm.year + 1900), ToUnsigned(tm.mon + 1), ToUnsigned(tm.mday)) +
    TimeText(ToUnsigned(tm.hour), ToUnsigned(tm.min), ToUnsigned(tm.sec), ToUnsigned(Millis(msg))) +
    RestText(msg)
  }

  /** What a formatter has to write: a word, a padded number, numbers joined, or a longer text. */
  datatype Output =
    | Word(text: string)
    | Number(v: int, width: nat)
    | Pair(first: int, second: int, sep: char)
    | Triple(first: int, second: int, third: int, sep: char)
    | Clock | DateAndTime | Zone | Line

  function OutputOf(flag: char, msg: Msg, tm: Tm): Output
    requires IsFlag(flag)
  {
    match flag
    case 'n' => Word(msg.loggerName)
    case 'l' => Word(LevelName(msg.level))
    case 'L' => Word(ShortLevelName(msg.level))
    case 't' => Number(msg.threadId, 0)
    case 'v' => Word(msg.raw)
    case 'a' => Word(Day(tm.wday))
    case 'A' => Word(FullDay(tm.wday))
    case 'b' | 'h' => Word(Month(tm.mon))
    case 'B' => Word(FullMonth(tm.mon))
    case 'c' => DateAndTime
    case 'C' => Number(TruncMod(tm.year, 100), 2)
    case 'Y' => Number(tm.year + 1900, 0)
    case 'D' | 'x' => Triple(tm.mon + 1, tm.mday, TruncMod(tm.year, 100), '/')
    case 'm' => Number(tm.mon + 1, 2)
    case 'd' => Number(tm.mday, 2)
    case 'H' => Number(tm.hour, 2)
    case 'I' => Number(To12h(tm), 2)
    case 'M' => Number(tm.min, 2)
    case 'S' => Number(tm.sec, 2)
    case 'e' => Number(Millis(msg), 3)
    case 'f' => Number(TruncMod(TruncDiv(msg.nanos, 1000), 1000000), 6)
    case 'F' => Number(TruncMod(msg.nanos, 1000000000), 9)
    case 'p' => Word(AmPm(tm))
    case 'r' => Clock
    case 'R' => Pair(tm.hour, tm.min, ':')
    case 'T' | 'X' => Triple(tm.hour, tm.min, tm.sec, ':')
    case 'z' => Zone
    case '+' => Line
  }

  function Text(output: Output, msg: Msg, tm: Tm): string
  {
    match output
    case Word(text) => text
    case Number(v, width) => Pad(v, width)
    case Pair(a, b, sep) => Join2(a, b, sep)
    case Triple(a, b, c, sep) => Join3(a, b, c, sep)
    case Clock => Join3(To12h(tm), tm.min, tm.sec, ':') + (" " + AmPm(tm))
    case DateAndTime => Ctime(tm, Plain(tm.mday))
    case Zone => Offset(tm)
    case Line => Full(msg, tm)
  }

  /** What the formatter of a flag appends. */
  function ShowFlag(flag: char, msg: Msg, tm: Tm): string
    requires IsFlag(flag)
  {
    Text(OutputOf(flag, msg, tm), msg, tm)
  }

  /** What each flag shows for one message. */
  type Shown = char -> string

  function ShownFor(msg: Msg, tm: Tm): Shown
  {
    flag => if IsFlag(flag) then ShowFlag(flag, msg, tm) else ""
  }

  function Show(f: Formatter, shown: Shown): string {
    match f
    case FlagFormatter(flag) => shown(flag)
    case TextFormatter(text) => text
    case CharFormatter(c) => [c]
  }
}
