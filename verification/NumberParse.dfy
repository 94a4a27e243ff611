/** parse_nonnegative_int of format.h: reading a decimal number into a 32-bit unsigned word. */
module NumberParse {
  import opened Wrappers
  import opened Decimal
  import opened Powers

  const UINT_MAX: nat := 0xFFFF_FFFF
  const INT_MAX: nat := 0x7FFF_FFFF

  /** Where the digits that start at `i` end; the character after the text is NUL. */
  function RunEnd(text: string, i: nat): (end: nat)
    requires i <= |text|
    ensures i <= end <= |text| && IsNumeral(text[i..end])
    ensures end < |text| ==> !IsDigit(text[end])
    decreases |text| - i
  {
    if i < |text| && IsDigit(text[i]) then
      var end := RunEnd(text, i + 1);
      assert text[i..end] == [text[i]] + text[i + 1..end];
      end
    else i
  }

  /** The value of the first `k` digits, as a 32-bit word. */
  function PrefixWord(d: string, k: nat): nat
    requires IsNumeral(d) && k <= |d|
  {
    Value(d[..k]) % LIMIT_32
  }

  /** The word never gets smaller while the digits are read, so the wrap test never fires. */
  ghost predicate Ascending(d: string)
    requires IsNumeral(d)
  {
    forall k :: 0 <= k < |d| ==> PrefixWord(d, k) <= PrefixWord(d, k + 1)
  }

  lemma ModAdd(x: nat, k: nat)
    ensures (x + k * LIMIT_32) % LIMIT_32 == x % LIMIT_32
  {
  }

  lemma WordStep(v: nat, c: nat)
    ensures (v * 10 + c) % LIMIT_32 == (v % LIMIT_32 * 10 + c) % LIMIT_32
  {
    var q, r := v / LIMIT_32, v % LIMIT_32;
    assert v * 10 + c == (r * 10 + c) + q * 10 * LIMIT_32;
    ModAdd(r * 10 + c, q * 10);
  }

  /** One digit more, computed in words. */
  lemma NextWord(d: string, k: nat)
    requires IsNumeral(d) && k < |d|
    ensures PrefixWord(d, k + 1) == (PrefixWord(d, k) * 10 + DigitValue(d[k])) % LIMIT_32
  {
    ValueLast(d[..k], d[k]);
    assert d[..k + 1] == d[..k] + [d[k]];
    WordStep(Value(d[..k]), DigitValue(d[k]));
  }

  lemma RunGoesOn(text: string, start: nat, s: nat)
    requires start <= |text| && start <= s <= RunEnd(text, start)
    ensures s < RunEnd(text, start) <==> s < |text| && IsDigit(text[s])
  {
    if s < RunEnd(text, start) {
      assert text[start..RunEnd(text, start)][s - start] == text[s];
    }
  }

  method ParseNonnegativeInt(text: string, start: nat) returns (r: Result<nat, string>, s: nat)
    requires start < |text| && IsDigit(text[start])
    ensures var d := text[start..RunEnd(text, start)];
            && (r.Ok? <==> Ascending(d) && Value(d) % LIMIT_32 <= INT_MAX)
            && (r.Ok? ==> r.value == Value(d) % LIMIT_32 && s == RunEnd(text, start))
  {
    ghost var end := RunEnd(text, start);
    ghost var d := text[start..end];
    var value, more := 0, true;
    s := start;
    while more
      invariant start <= s <= end && (more <==> s < end)
      invariant value == PrefixWord(d, s - start)
      invariant forall k :: 0 <= k < s - start ==> PrefixWord(d, k) <= PrefixWord(d, k + 1)
      decreases end - s
    {
      NextWord(d, s - start);
      var newValue := (value * 10 + DigitValue(text[s])) % LIMIT_32;
      s := s + 1;
      if newValue < value {
        assert PrefixWord(d, s - 1 - start) > PrefixWord(d, s - 1 - start + 1);
        value := UINT_MAX;
        break;
      }
      value := newValue;
      RunGoesOn(text, start, s);
      more := s < |text| && IsDigit(text[s]);
    }
    assert s == end ==> d[..s - start] == d;
    r := if value > INT_MAX then Err("number is too big") else Ok(value);
  }

  lemma {:induction false} PrefixValue(d: string, k: nat)
    requires IsNumeral(d) && k <= |d|
    ensures Value(d[..k]) <= Value(d)
    decreases |d|
  {
    if k < |d| {
      PrefixValue(d[..|d| - 1], k);
      assert d[..|d| - 1][..k] == d[..k];
    } else {
      assert d[..k] == d;
    }
  }

  lemma SmallWord(v: nat)
    requires v < LIMIT_32
    ensures v % LIMIT_32 == v
  {
  }

  /** Numbers that fit into 32 bits never wrap. */
  lemma SmallAscends(d: string)
    requires IsNumeral(d) && Value(d) < LIMIT_32
    ensures Ascending(d)
  {
    forall k | 0 <= k < |d| ensures PrefixWord(d, k) <= PrefixWord(d, k + 1) {
      PrefixValue(d, k + 1);
      PrefixValue(d[..k + 1], k);
      assert d[..k + 1][..k] == d[..k];
      SmallWord(Value(d[..k]));
      SmallWord(Value(d[..k + 1]));
    }
  }

  /** What the function is for: exactly the numbers up to INT_MAX are read, with their value. */
  ghost predicate ReadsCorrectly(d: string)
    requires IsNumeral(d)
  {
    var accepted := Ascending(d) && Value(d) % LIMIT_32 <= INT_MAX;
    (accepted <==> Value(d) <= INT_MAX) && (accepted ==> Value(d) % LIMIT_32 == Value(d))
  }

  // ----- Which numbers are misread -----

  /** Appending digit `c` to the word `w` does not make it smaller, so the wrap test does not see it. */
  predicate Unnoticed(w: nat, c: nat) {
    9 * w + c >= (10 * w + c) / LIMIT_32 * LIMIT_32
  }

  lemma UnnoticedIff(w: nat, c: nat)
    ensures (w * 10 + c) % LIMIT_32 >= w <==> Unnoticed(w, c)
  {
  }

  /** The wrap test does not see any digit of the number. */
  predicate Slips(n: nat) {
    n < LIMIT_32 || (Slips(n / 10) && Unnoticed(n / 10 % LIMIT_32, n % 10))
  }

  predicate Misread(n: nat) {
    n >= LIMIT_32 && Slips(n) && n % LIMIT_32 <= INT_MAX
  }

  lemma AscendingLast(d: string)
    requires IsNumeral(d) && d != ""
    ensures var init := d[..|d| - 1];
            Ascending(d) <==> Ascending(init) && PrefixWord(d, |d| - 1) <= PrefixWord(d, |d|)
  {
    var init := d[..|d| - 1];
    forall k | 0 <= k <= |init| ensures PrefixWord(d, k) == PrefixWord(init, k) {
      assert init[..k] == d[..k];
    }
  }

  lemma {:induction false} AscendingIffSlips(d: string)
    requires IsNumeral(d)
    ensures Ascending(d) <==> Slips(Value(d))
  {
    if Value(d) < LIMIT_32 {
      SmallAscends(d);
    } else {
      var init, c := d[..|d| - 1], DigitValue(d[|d| - 1]);
      AscendingIffSlips(init);
      AscendingLast(d);
      NextWord(d, |d| - 1);
      UnnoticedIff(Value(init) % LIMIT_32, c);
      assert Value(d) / 10 == Value(init) && Value(d) % 10 == c;
    }
  }

  /** A numeral is read correctly exactly unless its number is misread; leading zeros do not matter. */
  lemma ReadsCorrectlyIff(d: string)
    requires IsNumeral(d)
    ensures ReadsCorrectly(d) <==> !Misread(Value(d))
  {
    AscendingIffSlips(d);
  }

  /** Of the numbers with up to ten digits these are misread. */
  lemma MisreadTenDigits(n: nat)
    ensures n < Pow10(10) ==> (Misread(n) <==> 4772185884 <= n <= 6442450943 || 9544371768 <= n)
  {
    assert Pow10(10) == 10000000000;
    if LIMIT_32 <= n < Pow10(10) {
      var q := n / LIMIT_32;
      assert q == 1 || q == 2;
      assert n / 10 % LIMIT_32 == n / 10 && 10 * (n / 10) + n % 10 == n;
      assert Slips(n / 10) && (Slips(n) <==> n - n / 10 >= q * LIMIT_32);
    }
  }

  /** 477218588 with `k` fours behind it. */
  function Fours(k: nat): nat {
    if k == 0 then 477218588 else 10 * Fours(k - 1) + 4
  }

  /** There are misread numbers of every length from ten digits on: all of these are read as 477218588. */
  lemma {:induction false} MisreadAtEveryLength(k: nat)
    ensures Fours(k) % LIMIT_32 == 477218588 && Slips(Fours(k))
    ensures Pow10(8 + k) <= Fours(k) < Pow10(9 + k)
    ensures k > 0 ==> Misread(Fours(k))
  {
    if k == 0 {
      assert Pow10(8) == 100000000 && Pow10(9) == 1000000000;
    } else {
      MisreadAtEveryLength(k - 1);
      var before, w := Fours(k - 1), 477218588;
      WordStep(before, 4);
      assert Fours(k) / 10 == before && Fours(k) % 10 == 4;
      assert (w * 10 + 4) % LIMIT_32 == w;
    }
  }

  /** Every number up to INT_MAX is read back from its numeral. */
  lemma NumeralReadsBack(n: nat)
    requires n <= INT_MAX
    ensures ReadsCorrectly(Numeral(n)) && Ascending(Numeral(n)) && Value(Numeral(n)) == n
  {
    ValueOfNumeral(n);
    SmallAscends(Numeral(n));
  }

  /** The wrap test misses 5000000000, which is read as 705032704. */
  lemma TooBigAccepted()
    ensures var n, d := 5000000000, Numeral(5000000000);
            && Value(d) == n > INT_MAX && !ReadsCorrectly(d)
            && Ascending(d) && Value(d) % LIMIT_32 == 705032704 <= INT_MAX
  {
    ValueOfNumeral(5000000000);
    MisreadTenDigits(5000000000);
    AscendingIffSlips(Numeral(5000000000));
    assert Pow10(10) == 10000000000;
  }
}
