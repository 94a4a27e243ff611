/** Decimal output two digits at a time, FormatInt, and reading a number back (format.h). */
module IntFormat {
  import opened Decimal
  import opened Powers
  import opened DigitTable

  /** `Data::DIGITS[index]` */
  function TableDigit(index: nat): (c: char)
    requires index < 200
    ensures c == Digit(if index % 2 == 0 then index / 2 / 10 else index / 2 % 10)
  {
    DigitPair(index / 2);
    DIGITS[index]
  }

  /** The two characters that the table has for `n`. */
  function Pair(n: nat): (pair: string)
    requires n < 100
    ensures pair == [Digit(n / 10), Digit(n % 10)]
  {
    var (even, odd) := (n * 2, n * 2 + 1);
    assert even / 2 == n && odd / 2 == n && even % 2 == 0 && odd % 2 == 1;
    [TableDigit(even), TableDigit(odd)]
  }

  lemma Regroup(head: string, a: char, b: char, tail: string)
    ensures head + [a] + [b] + tail == head + ([a, b] + tail)
  {
  }

  lemma TwoDigits(n: nat, tail: string)
    requires n >= 100
    ensures Numeral(n) + tail == Numeral(n / 100) + (Pair(n % 100) + tail)
    ensures |Numeral(n)| == |Numeral(n / 100)| + 2
  {
    assert n / 10 / 10 == n / 100 && n / 10 % 10 == n % 100 / 10 && n % 10 == n % 100 % 10;
    var a, b := Digit(n % 100 / 10), Digit(n % 10);
    assert Numeral(n) == Numeral(n / 10) + [b];
    assert Numeral(n / 10) == Numeral(n / 100) + [a];
    Regroup(Numeral(n / 100), a, b, tail);
  }

  /** The last one or two digits. */
  lemma LastDigits(n: nat)
    requires n < 100
    ensures Numeral(n) == if n < 10 then [('0' as int + n) as char] else Pair(n)
  {
    assert n >= 10 ==> Numeral(n) == Numeral(n / 10) + [Digit(n % 10)];
  }

  /** `*--p = ...`: the characters go in front of what has been written from `start` on. */
  method PutBefore(buffer: array<char>, start: nat, text: string, ghost pre: string, ghost tail: string, ghost post: string)
    requires |text| <= 2 && |text| <= start <= buffer.Length && start <= |pre|
    requires buffer[..] == pre[..start] + tail + post
    modifies buffer
    ensures buffer[..] == pre[..start - |text|] + (text + tail) + post
  {
    ghost var before := buffer[..];
    if |text| >= 1 {
      buffer[start - 1] := text[|text| - 1];
    }
    if |text| == 2 {
      buffer[start - 2] := text[0];
    }
    assert buffer[..] == before[..start - |text|] + text + before[start..];
    assert before[..start - |text|] == pre[..start - |text|] && before[start..] == tail + post;
  }

  /** The digits in front: one character, or a pair. */
  method PutLast(buffer: array<char>, end: nat, rest: nat, ghost pre: string, ghost tail: string, ghost post: string)
    returns (start: nat)
    requires rest < 100 && |Numeral(rest)| <= end <= buffer.Length && end <= |pre|
    requires buffer[..] == pre[..end] + tail + post
    modifies buffer
    ensures start == end - |Numeral(rest)|
    ensures buffer[..] == pre[..start] + (Numeral(rest) + tail) + post
  {
    LastDigits(rest);
    if rest < 10 {
      PutBefore(buffer, end, [('0' as int + rest) as char], pre, tail, post);
      start := end - 1;
    } else {
      PutBefore(buffer, end, Pair(rest), pre, tail, post);
      start := end - 2;
    }
  }

  /**
  Writes the digits of `value` backwards so that they end before `end`, and says where they
  start.  The rest of the buffer is left as it was.
  */
  method FormatDecimal(buffer: array<char>, end: nat, value: nat) returns (start: nat)
    requires |Numeral(value)| <= end <= buffer.Length
    modifies buffer
    ensures start == end - |Numeral(value)|
    ensures buffer[..] == old(buffer[..start]) + Numeral(value) + old(buffer[end..])
  {
    ghost var pre, tail, post := buffer[..end], "", buffer[end..];
    var rest := value;
    start := end;
    while rest >= 100
      invariant |Numeral(rest)| <= start <= end && |tail| == end - start
      invariant Numeral(value) == Numeral(rest) + tail
      invariant buffer[..] == pre[..start] + tail + post
    {
      TwoDigits(rest, tail);
      ghost var pair := Pair(rest % 100);
      PutBefore(buffer, start, Pair(rest % 100), pre, tail, post);
      rest, tail, start := rest / 100, pair + tail, start - 2;
    }
    start := PutLast(buffer, start, rest, pre, tail, post);
    assert pre[..start] == old(buffer[..start]);
  }

  // ----- FormatInt -----

  const DIGITS10: nat := 19
  const BUFFER_SIZE: nat := DIGITS10 + 3

  /** The numeral with a sign in front of a negative number. */
  function SignedNumeral(value: int): string {
    if value < 0 then "-" + Numeral(-value) else Numeral(value)
  }

  /** It starts with a minus sign exactly for a negative number, and its digits are the absolute value. */
  lemma SignedNumeralReads(value: int)
    ensures var text := SignedNumeral(value);
            var digits := if value < 0 then text[1..] else text;
            && text != "" && (text[0] == '-' <==> value < 0)
            && IsNumeral(digits) && Value(digits) == (if value < 0 then -value else value)
  {
    var size := if value < 0 then -value else value;
    ValueOfNumeral(size);
    assert IsDigit(Numeral(size)[0]);
    assert ("-" + Numeral(size))[1..] == Numeral(size);
  }

  /** Conversion to an unsigned 64-bit word. */
  function ToWord(value: int): nat {
    value % LIMIT_64
  }

  lemma WordOf(value: int)
    requires -LIMIT_64 <= value < LIMIT_64
    ensures ToWord(value) == if value < 0 then value + LIMIT_64 else value
  {
  }

  /** The absolute value, computed in 64-bit words: `abs_value = 0 - abs_value` when negative. */
  function Magnitude(value: int): (absValue: nat)
    requires -LIMIT_64 / 2 <= value < LIMIT_64
    ensures absValue == if value < 0 then -value else value
    ensures absValue < LIMIT_64
  {
    WordOf(value);
    if value < 0 then
      WordOf(0 - ToWord(value));
      ToWord(0 - ToWord(value))
    else ToWord(value)
  }

  lemma {:induction false} Pow10Grows(a: nat, b: nat)
    requires a == 20 <= b
    ensures Pow10(b) >= 100000000000000000000
    decreases b
  {
    if b > a {
      Pow10Grows(a, b - 1);
    } else {
      assert Pow10(10) == 10000000000 && Pow10(20) == 10000000000 * Pow10(10);
    }
  }

  lemma FewDigits(n: nat, k: nat)
    requires k >= 1 && n < LIMIT_64 && (k == 1 || Pow10(k - 1) <= n)
    ensures k <= 20
  {
    if k > 20 {
      Pow10Grows(20, k - 1);
    }
  }

  lemma FitsBuffer(n: nat)
    requires n < LIMIT_64
    ensures |Numeral(n)| <= DIGITS10 + 1
  {
    NumeralLength(n, |Numeral(n)|);
    FewDigits(n, |Numeral(n)|);
  }

  class FormatInt {
    const buffer: array<char>
    var str: nat

    predicate Valid()
      reads this, buffer
    {
      buffer.Length == BUFFER_SIZE && str < BUFFER_SIZE
    }

    function Text(): string
      requires Valid()
      reads this, buffer
    {
      buffer[str..BUFFER_SIZE - 1]
    }

    constructor Signed(value: int)
      requires -LIMIT_64 / 2 <= value < LIMIT_64 / 2
      ensures Valid() && fresh(buffer) && Text() == SignedNumeral(value)
    {
      buffer := new char[BUFFER_SIZE];
      new;
      var absValue := Magnitude(value);
      FitsBuffer(absValue);
      str := FormatDecimal(buffer, BUFFER_SIZE - 1, absValue);
      assert buffer[str..BUFFER_SIZE - 1] == Numeral(absValue);
      if value < 0 {
        str := str - 1;
        buffer[str] := '-';
        assert buffer[str + 1..BUFFER_SIZE - 1] == Numeral(absValue);
      }
    }

    constructor Unsigned(value: nat)
      requires value < LIMIT_64
      ensures Valid() && fresh(buffer) && Text() == Numeral(value)
    {
      buffer := new char[BUFFER_SIZE];
      new;
      FitsBuffer(value);
      str := FormatDecimal(buffer, BUFFER_SIZE - 1, value);
      assert buffer[str..BUFFER_SIZE - 1] == Numeral(value);
    }

    method Size() returns (size: nat)
      requires Valid()
      ensures size == |Text()|
    {
      size := BUFFER_SIZE - 1 - str;
    }

    /** A NUL follows the text in the buffer. */
    method CStr() returns (start: nat)
      requires Valid()
      modifies buffer
      ensures Valid() && Text() == old(Text()) && start == str
      ensures buffer[start..] == Text() + ['\0']
    {
      buffer[BUFFER_SIZE - 1] := '\0';
      start := str;
    }
  }
}
