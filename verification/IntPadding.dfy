/** What write_int of format.h promises: sign or base prefix, digits in a base, and field padding. */
module IntPadding {
  import opened Decimal

  datatype Alignment = Default | AlignLeft | AlignRight | Center | Numeric

  /** `FormatSpec` without a precision. */
  datatype Spec = Spec(width: nat, fill: char, align: Alignment, sign: bool, plus: bool, hash: bool, kind: char)

  // ----- Digits -----

  function DigitIn(d: nat, upper: bool): char
    requires d < 16
  {
    if d < 10 then ('0' as int + d) as char
    else if upper then ('A' as int + (d - 10)) as char else ('a' as int + (d - 10)) as char
  }

  predicate IsBase(base: nat) {
    base == 2 || base == 8 || base == 16
  }

  /** All digits but the last: a shift. */
  function Quot(n: nat, base: nat): (q: nat)
    requires IsBase(base)
    ensures n >= base ==> q < n
  {
    if base == 2 then n / 2 else if base == 8 then n / 8 else n / 16
  }

  /** The last digit: a mask. */
  function Rem(n: nat, base: nat): (r: nat)
    requires IsBase(base)
    ensures r < base && (n < base ==> r == n)
  {
    if base == 2 then n % 2 else if base == 8 then n % 8 else n % 16
  }

  function Times(v: int, base: nat): int
    requires IsBase(base)
  {
    if base == 2 then 2 * v else if base == 8 then 8 * v else 16 * v
  }

  /** The shortest numeral of `n` in base 2, 8 or 16. */
  function InBase(n: nat, base: nat, upper: bool): (s: string)
    requires IsBase(base)
    ensures |s| >= 1
  {
    if n < base then [DigitIn(n, upper)]
    else InBase(Quot(n, base), base, upper) + [DigitIn(Rem(n, base), upper)]
  }

  function DigitOf(c: char): int {
    if '0' <= c <= '9' then c as int - '0' as int
    else if 'a' <= c <= 'f' then c as int - 'a' as int + 10
    else if 'A' <= c <= 'F' then c as int - 'A' as int + 10
    else 0
  }

  function ValueIn(s: string, base: nat): int
    requires IsBase(base)
  {
    if s == "" then 0 else Times(ValueIn(s[..|s| - 1], base), base) + DigitOf(s[|s| - 1])
  }

  lemma ValueInLast(s: string, c: char, base: nat)
    requires IsBase(base)
    ensures ValueIn(s + [c], base) == Times(ValueIn(s, base), base) + DigitOf(c)
  {
    assert (s + [c])[..|s|] == s;
  }

  lemma DigitOfDigit(d: nat, upper: bool)
    requires d < 16
    ensures DigitOf(DigitIn(d, upper)) == d
  {
  }

  lemma NextDigit(s: string, n: nat, base: nat, upper: bool)
    requires IsBase(base) && ValueIn(s, base) == Quot(n, base)
    ensures ValueIn(s + [DigitIn(Rem(n, base), upper)], base) == n
  {
    ValueInLast(s, DigitIn(Rem(n, base), upper), base);
    DigitOfDigit(Rem(n, base), upper);
  }

  /** In every base and in either case. */
  lemma {:induction false} ValueOfInBase(n: nat, base: nat, upper: bool)
    requires IsBase(base)
    ensures ValueIn(InBase(n, base, upper), base) == n
  {
    if n < base {
      DigitOfDigit(n, upper);
      ValueInLast("", DigitIn(n, upper), base);
      assert "" + [DigitIn(n, upper)] == [DigitIn(n, upper)];
    } else {
      ValueOfInBase(Quot(n, base), base, upper);
      NextDigit(InBase(Quot(n, base), base, upper), n, base, upper);
    }
  }

  /** The type characters that write_int knows; none is decimal. */
  predicate IsKind(kind: char) {
    kind in ['\0', 'd', 'x', 'X', 'b', 'B', 'o']
  }

  /** 10 stands for the decimal types. */
  function BaseOf(kind: char): (base: nat)
    requires IsKind(kind)
    ensures base != 10 ==> IsBase(base)
  {
    if kind == 'x' || kind == 'X' then 16 else if kind == 'b' || kind == 'B' then 2 else if kind == 'o' then 8 else 10
  }

  function Digits(n: nat, kind: char): string
    requires IsKind(kind)
  {
    if BaseOf(kind) == 10 then Numeral(n) else InBase(n, BaseOf(kind), kind == 'X')
  }

  /** The digits determine the number. */
  lemma DigitsInjective(m: nat, n: nat, kind: char)
    requires IsKind(kind) && Digits(m, kind) == Digits(n, kind)
    ensures m == n
  {
    if BaseOf(kind) == 10 {
      NumeralInjective(m, n);
    } else {
      ValueOfInBase(m, BaseOf(kind), kind == 'X');
      ValueOfInBase(n, BaseOf(kind), kind == 'X');
    }
  }

  // ----- Prefix -----

  function SignOf(value: int, spec: Spec): string {
    if value < 0 then "-" else if spec.sign then (if spec.plus then "+" else " ") else ""
  }

  function BasePrefix(spec: Spec): string {
    if !spec.hash then ""
    else if spec.kind in ['x', 'X', 'b', 'B'] then ['0', spec.kind]
    else if spec.kind == 'o' then "0" else ""
  }

  function Prefix(value: int, spec: Spec): (prefix: string)
    ensures |prefix| <= 3
  {
    SignOf(value, spec) + BasePrefix(spec)
  }

  // ----- Padding -----

  function Repeat(c: char, n: nat): (s: string)
    ensures |s| == n && forall k :: 0 <= k < n ==> s[k] == c
  {
    seq(n, _ => c)
  }

  function Missing(spec: Spec, size: nat): nat {
    if spec.width <= size then 0 else spec.width - size
  }

  /** The field is exactly as wide as asked for, or as the prefix and the digits need. */
  function FieldSize(spec: Spec, prefix: string, n: nat): nat {
    if spec.width <= |prefix| + n then |prefix| + n else spec.width
  }

  /** What stands before `n` digits, and what stands behind them. */
  function Left(spec: Spec, prefix: string, n: nat): string {
    var missing := Missing(spec, |prefix| + n);
    match spec.align
    case AlignLeft => prefix
    case Center => Repeat(spec.fill, missing / 2) + prefix
    case Numeric => prefix + Repeat(spec.fill, missing)
    case _ => Repeat(spec.fill, missing) + prefix
  }

  function Right(spec: Spec, prefix: string, n: nat): string {
    var missing := Missing(spec, |prefix| + n);
    match spec.align
    case AlignLeft => Repeat(spec.fill, missing)
    case Center => Repeat(spec.fill, missing - missing / 2)
    case _ => ""
  }

  function Padded(spec: Spec, prefix: string, digits: string): string {
    Left(spec, prefix, |digits|) + digits + Right(spec, prefix, |digits|)
  }

  function Abs(value: int): nat {
    if value < 0 then -value else value
  }

  /** What write_int appends. */
  function Written(value: int, spec: Spec): string
    requires IsKind(spec.kind)
  {
    Padded(spec, Prefix(value, spec), Digits(Abs(value), spec.kind))
  }

  lemma PaddedLength(spec: Spec, prefix: string, digits: string)
    ensures |Padded(spec, prefix, digits)| == FieldSize(spec, prefix, |digits|)
  {
  }

  /** With no padding the field is the prefix and the digits. */
  lemma PaddedNarrow(spec: Spec, prefix: string, digits: string)
    requires spec.width <= |prefix| + |digits|
    ensures Padded(spec, prefix, digits) == prefix + digits
  {
  }

  // ----- Padding adds nothing but fill characters -----

  /** `s` without the character `c`. */
  function Without(s: string, c: char): string {
    if s == "" then "" else (if s[0] == c then "" else [s[0]]) + Without(s[1..], c)
  }

  lemma {:induction false} WithoutConcat(a: string, b: string, c: char)
    ensures Without(a + b, c) == Without(a, c) + Without(b, c)
  {
    if a == "" {
      assert a + b == b;
    } else {
      assert (a + b)[1..] == a[1..] + b;
      WithoutConcat(a[1..], b, c);
    }
  }

  lemma {:induction false} WithoutFill(c: char, n: nat)
    ensures Without(Repeat(c, n), c) == ""
  {
    if n > 0 {
      assert Repeat(c, n)[1..] == Repeat(c, n - 1);
      WithoutFill(c, n - 1);
    }
  }

  lemma {:induction false} WithoutNone(s: string, c: char)
    requires c !in s
    ensures Without(s, c) == s
  {
    if s != "" {
      WithoutNone(s[1..], c);
    }
  }

  lemma LeftWithout(spec: Spec, prefix: string, n: nat)
    requires spec.fill !in prefix
    ensures Without(Left(spec, prefix, n), spec.fill) == prefix
  {
    var c, missing := spec.fill, Missing(spec, |prefix| + n);
    var before := if spec.align == Center then missing / 2 else missing;
    WithoutNone(prefix, c);
    WithoutFill(c, before);
    WithoutConcat(Repeat(c, before), prefix, c);
    WithoutConcat(prefix, Repeat(c, before), c);
  }

  lemma RightWithout(spec: Spec, prefix: string, n: nat)
    ensures Without(Right(spec, prefix, n), spec.fill) == ""
  {
    var missing := Missing(spec, |prefix| + n);
    WithoutFill(spec.fill, missing);
    WithoutFill(spec.fill, missing - missing / 2);
  }

  /** Take the fill characters away, and the prefix and the digits remain. */
  lemma PaddingIsFill(spec: Spec, prefix: string, digits: string)
    requires spec.fill !in prefix && spec.fill !in digits
    ensures Without(Padded(spec, prefix, digits), spec.fill) == prefix + digits
  {
    var left, right := Left(spec, prefix, |digits|), Right(spec, prefix, |digits|);
    WithoutConcat(left + digits, right, spec.fill);
    WithoutConcat(left, digits, spec.fill);
    LeftWithout(spec, prefix, |digits|);
    RightWithout(spec, prefix, |digits|);
    WithoutNone(digits, spec.fill);
  }

  lemma {:induction false} FirstDigit(n: nat, base: nat, upper: bool)
    requires IsBase(base)
    ensures InBase(n, base, upper)[0] !in ['-', '+', ' ']
  {
    if n >= base {
      FirstDigit(Quot(n, base), base, upper);
    }
  }

  /** A minus sign in front, and only that, tells negative numbers apart. */
  lemma FirstCharacter(v: int, spec: Spec)
    requires IsKind(spec.kind)
    ensures (Prefix(v, spec) + Digits(Abs(v), spec.kind))[0] == '-' <==> v < 0
    ensures |Prefix(v, spec)| == |BasePrefix(spec)| + if v < 0 || spec.sign then 1 else 0
    ensures Digits(Abs(v), spec.kind) != "" && Digits(Abs(v), spec.kind)[0] != '-'
  {
    if BaseOf(spec.kind) == 10 {
      assert IsDigit(Numeral(Abs(v))[0]);
    } else {
      FirstDigit(Abs(v), BaseOf(spec.kind), spec.kind == 'X');
    }
  }

  /** Sign and digits determine the value. */
  lemma UnpaddedInjective(v: int, w: int, spec: Spec)
    requires IsKind(spec.kind)
    requires Prefix(v, spec) + Digits(Abs(v), spec.kind) == Prefix(w, spec) + Digits(Abs(w), spec.kind)
    ensures v == w
  {
    FirstCharacter(v, spec);
    FirstCharacter(w, spec);
    var n := |Prefix(v, spec)|;
    var a, b := Prefix(v, spec) + Digits(Abs(v), spec.kind), Prefix(w, spec) + Digits(Abs(w), spec.kind);
    assert a[n..] == Digits(Abs(v), spec.kind) && b[n..] == Digits(Abs(w), spec.kind);
    DigitsInjective(Abs(v), Abs(w), spec.kind);
  }

  /** Different values are written differently, whatever the format, if no digit or sign is used as fill. */
  lemma WrittenInjective(v: int, w: int, spec: Spec)
    requires IsKind(spec.kind) && Written(v, spec) == Written(w, spec)
    requires forall x :: x in [v, w] ==> spec.fill !in Prefix(x, spec) && spec.fill !in Digits(Abs(x), spec.kind)
    ensures v == w
  {
    assert v in [v, w] && w in [v, w];
    PaddingIsFill(spec, Prefix(v, spec), Digits(Abs(v), spec.kind));
    PaddingIsFill(spec, Prefix(w, spec), Digits(Abs(w), spec.kind));
    UnpaddedInjective(v, w, spec);
  }

  // ----- Zeros in front of the digits -----

  lemma {:induction false} ValueWithZeros(n: nat, s: string)
    requires IsNumeral(s)
    ensures IsNumeral(Repeat('0', n) + s) && Value(Repeat('0', n) + s) == Value(s)
  {
    if s != "" {
      var init, last := s[..|s| - 1], s[|s| - 1];
      ValueWithZeros(n, init);
      ValueLast(Repeat('0', n) + init, last);
      assert Repeat('0', n) + s == Repeat('0', n) + init + [last];
    } else if n > 0 {
      ValueWithZeros(n - 1, "");
      ValueLast(Repeat('0', n - 1) + "", '0');
      assert Repeat('0', n) + "" == Repeat('0', n - 1) + "" + ['0'];
    } else {
      assert Repeat('0', 0) + "" == "";
    }
  }

  lemma {:induction false} ValueInWithZeros(n: nat, s: string, base: nat)
    requires IsBase(base)
    ensures ValueIn(Repeat('0', n) + s, base) == ValueIn(s, base)
  {
    if s != "" {
      var init, last := s[..|s| - 1], s[|s| - 1];
      ValueInWithZeros(n, init, base);
      ValueInLast(Repeat('0', n) + init, last, base);
      assert Repeat('0', n) + s == Repeat('0', n) + init + [last];
    } else if n > 0 {
      ValueInWithZeros(n - 1, "", base);
      ValueInLast(Repeat('0', n - 1) + "", '0', base);
      assert Repeat('0', n) + "" == Repeat('0', n - 1) + "" + ['0'];
    } else {
      assert Repeat('0', 0) + "" == "";
    }
  }

  lemma ZeroedDigitsInjective(zeros: nat, m: nat, zeros': nat, n: nat, kind: char)
    requires IsKind(kind) && Repeat('0', zeros) + Digits(m, kind) == Repeat('0', zeros') + Digits(n, kind)
    ensures m == n
  {
    var base, upper := BaseOf(kind), kind == 'X';
    if base == 10 {
      ValueWithZeros(zeros, Numeral(m));
      ValueWithZeros(zeros', Numeral(n));
      ValueOfNumeral(m);
      ValueOfNumeral(n);
    } else {
      ValueInWithZeros(zeros, InBase(m, base, upper), base);
      ValueInWithZeros(zeros', InBase(n, base, upper), base);
      ValueOfInBase(m, base, upper);
      ValueOfInBase(n, base, upper);
    }
  }

  lemma ZerosBetween(spec: Spec, prefix: string, digits: string) returns (zeros: nat)
    requires spec.align == Numeric && spec.fill == '0'
    ensures Padded(spec, prefix, digits) == prefix + (Repeat('0', zeros) + digits)
  {
    zeros := Missing(spec, |prefix| + |digits|);
    assert prefix + Repeat('0', zeros) + digits + "" == prefix + (Repeat('0', zeros) + digits);
  }

  lemma FirstAsBefore(prefix: string, zeros: nat, digits: string)
    requires digits != "" && digits[0] != '-'
    ensures (prefix + (Repeat('0', zeros) + digits))[0] == '-' <==> (prefix + digits)[0] == '-'
  {
  }

  /** The zeros stand between the prefix and the digits; a minus sign still tells negative numbers apart. */
  lemma ZeroPadded(v: int, spec: Spec) returns (zeros: nat)
    requires IsKind(spec.kind) && spec.align == Numeric && spec.fill == '0'
    ensures var text := Written(v, spec);
            && text == Prefix(v, spec) + (Repeat('0', zeros) + Digits(Abs(v), spec.kind))
            && text != "" && (text[0] == '-' <==> v < 0)
  {
    var prefix, digits := Prefix(v, spec), Digits(Abs(v), spec.kind);
    zeros := ZerosBetween(spec, prefix, digits);
    FirstCharacter(v, spec);
    FirstAsBefore(prefix, zeros, digits);
  }

  /** With the '0' flag, too, different values are written differently. */
  lemma ZeroPaddedInjective(v: int, w: int, spec: Spec)
    requires IsKind(spec.kind) && spec.align == Numeric && spec.fill == '0'
    requires Written(v, spec) == Written(w, spec)
    ensures v == w
  {
    var zeros := ZeroPadded(v, spec);
    var zeros' := ZeroPadded(w, spec);
    FirstCharacter(v, spec);
    FirstCharacter(w, spec);
    var n := |Prefix(v, spec)|;
    assert Written(v, spec)[n..] == Repeat('0', zeros) + Digits(Abs(v), spec.kind);
    assert Written(w, spec)[n..] == Repeat('0', zeros') + Digits(Abs(w), spec.kind);
    ZeroedDigitsInjective(zeros, Abs(v), zeros', Abs(w), spec.kind);
  }

  // ----- The definitions, in characters -----

  /** Where the fill goes: behind the content, in front of it, half and half, or behind the prefix. */
  lemma PaddedIs(spec: Spec, prefix: string, digits: string)
    requires |prefix| + |digits| <= spec.width
    ensures var fill := Repeat(spec.fill, spec.width - |prefix| - |digits|);
            var half := (spec.width - |prefix| - |digits|) / 2;
            match spec.align
            case AlignLeft => Padded(spec, prefix, digits) == prefix + digits + fill
            case Center => Padded(spec, prefix, digits) == fill[..half] + prefix + digits + fill[half..]
            case Numeric => Padded(spec, prefix, digits) == prefix + fill + digits
            case _ => Padded(spec, prefix, digits) == fill + prefix + digits
  {
    if spec.align == Center {
      var missing := spec.width - |prefix| - |digits|;
      var half := missing / 2;
      assert Repeat(spec.fill, missing)[..half] == Repeat(spec.fill, half);
      assert Repeat(spec.fill, missing)[half..] == Repeat(spec.fill, missing - half);
    }
  }

  predicate Among(digits: string, alphabet: string) {
    forall k :: 0 <= k < |digits| ==> digits[k] in alphabet
  }

  lemma AmongLower(d: nat)
    requires d < 16
    ensures DigitIn(d, false) == "0123456789abcdef"[d]
  {
  }

  lemma AmongUpper(d: nat)
    requires d < 16
    ensures DigitIn(d, true) == "0123456789ABCDEF"[d]
  {
  }

  /** A numeral in base 2, 8 or 16 uses the first digits of its alphabet, and no leading zero. */
  lemma {:induction false} InBaseIs(n: nat, base: nat, upper: bool)
    requires IsBase(base)
    ensures var alphabet := if upper then "0123456789ABCDEF" else "0123456789abcdef";
            Among(InBase(n, base, upper), alphabet[..base])
    ensures InBase(n, base, upper)[0] == '0' ==> n == 0
  {
    var last := Rem(n, base);
    AmongLower(last);
    AmongUpper(last);
    if n >= base {
      InBaseIs(Quot(n, base), base, upper);
      assert Quot(n, base) != 0;
    }
  }

  /** The numeral of `n` in a base: its digits are among the first of the alphabet, and it has no leading zero. */
  predicate IsNumeralIn(digits: string, n: nat, base: nat, alphabet: string)
    requires IsBase(base) && |alphabet| >= base
  {
    digits != "" && Among(digits, alphabet[..base]) && ValueIn(digits, base) == n && (digits[0] == '0' ==> n == 0)
  }

  lemma InBaseIsNumeral(n: nat, base: nat, upper: bool)
    requires IsBase(base)
    ensures IsNumeralIn(InBase(n, base, upper), n, base, if upper then "0123456789ABCDEF" else "0123456789abcdef")
  {
    ValueOfInBase(n, base, upper);
    InBaseIs(n, base, upper);
  }

  /** Which digits each type character writes. */
  lemma DigitsAre(n: nat, kind: char)
    requires IsKind(kind)
    ensures kind == 'x' ==> IsNumeralIn(Digits(n, kind), n, 16, "0123456789abcdef")
    ensures kind == 'X' ==> IsNumeralIn(Digits(n, kind), n, 16, "0123456789ABCDEF")
    ensures kind == 'b' || kind == 'B' ==> IsNumeralIn(Digits(n, kind), n, 2, "0123456789abcdef")
    ensures kind == 'o' ==> IsNumeralIn(Digits(n, kind), n, 8, "0123456789abcdef")
    ensures kind == '\0' || kind == 'd' ==> Digits(n, kind) == Numeral(n)
  {
    if kind == 'x' || kind == 'X' {
      InBaseIsNumeral(n, 16, kind == 'X');
    } else if kind == 'b' || kind == 'B' {
      InBaseIsNumeral(n, 2, false);
    } else if kind == 'o' {
      InBaseIsNumeral(n, 8, false);
    }
  }

  /** The signs and base prefixes. */
  lemma PrefixIs(value: int, spec: Spec)
    ensures var base := if spec.kind == 'x' then "0x" else if spec.kind == 'X' then "0X"
                        else if spec.kind == 'b' then "0b" else if spec.kind == 'B' then "0B"
                        else if spec.kind == 'o' then "0" else "";
            var sign := if value < 0 then "-" else if spec.sign && spec.plus then "+" else if spec.sign then " " else "";
            Prefix(value, spec) == if spec.hash then sign + base else sign
  {
  }
}
