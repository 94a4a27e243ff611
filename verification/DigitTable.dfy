/** The table of digit pairs of format.cc. */
module DigitTable {
  import opened Decimal

  const DIGITS_0: string := "00010203040506070809"
  const DIGITS_10: string := "10111213141516171819"
  const DIGITS_20: string := "20212223242526272829"
  const DIGITS_30: string := "30313233343536373839"
  const DIGITS_40: string := "40414243444546474849"
  const DIGITS_50: string := "50515253545556575859"
  const DIGITS_60: string := "60616263646566676869"
  const DIGITS_70: string := "70717273747576777879"
  const DIGITS_80: string := "80818283848586878889"
  const DIGITS_90: string := "90919293949596979899"

  const ROWS: seq<string> := [
    DIGITS_0, DIGITS_10, DIGITS_20, DIGITS_30, DIGITS_40, DIGITS_50, DIGITS_60, DIGITS_70, DIGITS_80, DIGITS_90
  ]

  function Flat(rows: seq<string>): string {
    if rows == [] then "" else rows[0] + Flat(rows[1..])
  }

  /** The table: the rows one after another. */
  const DIGITS: string := Flat(ROWS)

  lemma {:induction false} FlatAt(rows: seq<string>, i: nat, j: nat)
    requires i < |rows| && j < 20 && forall k :: 0 <= k < |rows| ==> |rows[k]| == 20
    ensures |Flat(rows)| == 20 * |rows| && Flat(rows)[20 * i + j] == rows[i][j]
  {
    if |rows| == 1 {
      assert rows[1..] == [];
    } else {
      FlatAt(rows[1..], if i == 0 then 0 else i - 1, j);
    }
  }

  /** Entry `k` of a row of the table is the pair of digits of `10 * tens + k`. */
  ghost predicate IsPair(row: string, tens: nat, k: nat)
    requires tens < 10 && k < 10
  {
    |row| == 20 && row[2 * k] == Digit(tens) && row[2 * k + 1] == Digit(k)
  }

  lemma Rows0(k: nat)
    requires k < 10
    ensures IsPair(DIGITS_0, 0, k) && IsPair(DIGITS_10, 1, k)
  {
    match k { case 0 => case 1 => case 2 => case 3 => case 4 => case 5 => case 6 => case 7 => case 8 => case _ => }
  }

  lemma Rows20(k: nat)
    requires k < 10
    ensures IsPair(DIGITS_20, 2, k) && IsPair(DIGITS_30, 3, k)
  {
    match k { case 0 => case 1 => case 2 => case 3 => case 4 => case 5 => case 6 => case 7 => case 8 => case _ => }
  }

  lemma Rows40(k: nat)
    requires k < 10
    ensures IsPair(DIGITS_40, 4, k) && IsPair(DIGITS_50, 5, k)
  {
    match k { case 0 => case 1 => case 2 => case 3 => case 4 => case 5 => case 6 => case 7 => case 8 => case _ => }
  }

  lemma Rows60(k: nat)
    requires k < 10
    ensures IsPair(DIGITS_60, 6, k) && IsPair(DIGITS_70, 7, k)
  {
    match k { case 0 => case 1 => case 2 => case 3 => case 4 => case 5 => case 6 => case 7 => case 8 => case _ => }
  }

  lemma Rows80(k: nat)
    requires k < 10
    ensures IsPair(DIGITS_80, 8, k) && IsPair(DIGITS_90, 9, k)
  {
    match k { case 0 => case 1 => case 2 => case 3 => case 4 => case 5 => case 6 => case 7 => case 8 => case _ => }
  }

  lemma RowPair(tens: nat, k: nat)
    requires tens < 10 && k < 10
    ensures IsPair(ROWS[tens], tens, k)
  {
    Rows0(k);
    Rows20(k);
    Rows40(k);
    Rows60(k);
    Rows80(k);
  }

  lemma RowLengths(rows: seq<string>)
    requires rows == ROWS
    ensures |rows| == 10 && forall r :: 0 <= r < |rows| ==> |rows[r]| == 20
  {
    forall r | 0 <= r < 10 ensures |rows[r]| == 20 {
      RowPair(r, 0);
    }
  }

  lemma TableAt(rows: seq<string>, table: string, tens: nat, k: nat)
    requires rows == ROWS && table == Flat(rows) && tens < 10 && k < 10
    ensures |table| == 200 && table[20 * tens + 2 * k] == Digit(tens) && table[20 * tens + 2 * k + 1] == Digit(k)
  {
    RowLengths(rows);
    FlatAt(rows, tens, 2 * k);
    FlatAt(rows, tens, 2 * k + 1);
    RowPair(tens, k);
  }

  /** Entries 2i and 2i + 1 of the table are the two digits of i. */
  lemma DigitPair(i: nat)
    requires i < 100
    ensures |DIGITS| == 200 && DIGITS[2 * i] == Digit(i / 10) && DIGITS[2 * i + 1] == Digit(i % 10)
  {
    TableAt(ROWS, DIGITS, i / 10, i % 10);
    assert 20 * (i / 10) + 2 * (i % 10) == 2 * i;
  }
}
