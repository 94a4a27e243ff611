/** The growing buffer of format.h, and write_int on it. */
module MemoryBuffer {
  import opened Decimal
  import opened Powers
  import opened DigitCount
  import opened IntPadding
  import IntFormat

  // ----- Plain copies -----

  /** `s1` is `s0` with `text` copied to `at`. */
  ghost predicate Copied(s0: string, at: nat, text: string, s1: string) {
    at + |text| <= |s0| && s1 == s0[..at] + text + s0[at + |text|..]
  }

  lemma CopiedParts(s0: string, at: nat, text: string, s1: string)
    requires Copied(s0, at, text, s1)
    ensures |s1| == |s0| && s1[..at] == s0[..at] && s1[..at + |text|] == s0[..at] + text
    ensures s1[at..at + |text|] == text && s1[at + |text|..] == s0[at + |text|..]
  {
  }

  method CopyInto(a: array<char>, at: nat, text: string)
    requires at + |text| <= a.Length
    modifies a
    ensures Copied(old(a[..]), at, text, a[..])
  {
    ghost var s0 := a[..];
    for i := 0 to |text|
      invariant a[..] == s0[..at] + text[..i] + s0[at + i..]
    {
      a[at + i] := text[i];
    }
  }

  /** std::uninitialized_fill */
  method FillRange(a: array<char>, from: nat, to: nat, c: char)
    requires from <= to <= a.Length
    modifies a
    ensures Copied(old(a[..]), from, Repeat(c, to - from), a[..])
  {
    ghost var s0 := a[..];
    for i := from to to
      invariant a[..] == s0[..from] + Repeat(c, i - from) + s0[i..]
    {
      a[i] := c;
    }
  }

  // ----- The layout of a field, given its place `a[at..at + spec.width]` -----

  /**
  `s1` is `s0` with padding in `[at, end)` around `contentSize` characters at `content`, the
  smaller half in front.
  */
  ghost predicate FilledAround(s0: string, at: nat, content: nat, contentSize: nat, end: nat, fill: char, s1: string) {
    && at <= content && content + contentSize <= end <= |s0| == |s1|
    && content - at == (end - at - contentSize) / 2
    && s1[..content] == s0[..at] + Repeat(fill, content - at)
    && s1[content + contentSize..end] == Repeat(fill, end - content - contentSize)
  }

  /** Padding on both sides; says where the content goes. */
  method FillPadding(a: array<char>, at: nat, total: nat, contentSize: nat, fill: char) returns (content: nat)
    requires contentSize <= total && at + total <= a.Length
    modifies a
    ensures FilledAround(old(a[..]), at, content, contentSize, at + total, fill, a[..])
  {
    var padding := total - contentSize;
    var leftPadding := padding / 2;
    ghost var s0 := a[..];
    FillRange(a, at, at + leftPadding, fill);
    ghost var s1 := a[..];
    content := at + leftPadding;
    FillRange(a, content + contentSize, content + contentSize + padding - leftPadding, fill);
    CopiedParts(s0, at, Repeat(fill, leftPadding), s1);
    CopiedParts(s1, content + contentSize, Repeat(fill, padding - leftPadding), a[..]);
    assert a[..][..content] == s1[..content];
  }

  // The buffers below are compared as values: `s0` before, `s1` and `s2` after each copy.

  /** Everything but the `n` digits before `end` is in place. */
  ghost predicate LaidOut(s: string, before: string, spec: Spec, prefix: string, n: nat, end: nat) {
    && n <= end <= |before| + FieldSize(spec, prefix, n) <= |s|
    && s[..end - n] == before + Left(spec, prefix, n)
    && s[end..|before| + FieldSize(spec, prefix, n)] == Right(spec, prefix, n)
  }

  lemma LaidNarrow(s0: string, at: nat, s1: string, spec: Spec, prefix: string, n: nat)
    requires at + FieldSize(spec, prefix, n) <= |s0| && spec.width <= |prefix| + n && Copied(s0, at, prefix, s1)
    ensures LaidOut(s1, s0[..at], spec, prefix, n, at + |prefix| + n)
  {
    CopiedParts(s0, at, prefix, s1);
    PaddedNarrow(spec, prefix, Repeat('0', n));
  }

  lemma LaidLeft(s0: string, at: nat, s1: string, s2: string, spec: Spec, prefix: string, n: nat, end: nat)
    requires at + spec.width <= |s0| && spec.width > |prefix| + n && spec.align == AlignLeft
    requires Copied(s0, at, prefix, s1) && end == at + |prefix| + n
    requires Copied(s1, end, Repeat(spec.fill, at + spec.width - end), s2)
    ensures LaidOut(s2, s0[..at], spec, prefix, n, end)
  {
    CopiedParts(s0, at, prefix, s1);
    CopiedParts(s1, end, Repeat(spec.fill, at + spec.width - end), s2);
    assert s2[..at + |prefix|] == s1[..at + |prefix|];
  }

  lemma Slice(s1: string, s2: string, k: nat, i: nat, j: nat)
    requires k <= i <= j <= |s1| == |s2| && s1[k..] == s2[k..]
    ensures s1[i..j] == s2[i..j]
  {
    forall x | i <= x < j ensures s1[x] == s2[x] {
      assert s1[x] == s1[k..][x - k] && s2[x] == s2[k..][x - k];
    }
  }

  lemma LaidCenter(s0: string, at: nat, content: nat, s1: string, s2: string, spec: Spec, prefix: string, n: nat)
    requires spec.width > |prefix| + n && spec.align == Center
    requires FilledAround(s0, at, content, |prefix| + n, at + spec.width, spec.fill, s1)
    requires Copied(s1, content, prefix, s2)
    ensures LaidOut(s2, s0[..at], spec, prefix, n, content + |prefix| + n)
  {
    CopiedParts(s1, content, prefix, s2);
    Slice(s1, s2, content + |prefix|, content + |prefix| + n, at + spec.width);
    var left := Repeat(spec.fill, content - at);
    assert Left(spec, prefix, n) == left + prefix;
    assert s0[..at] + left + prefix == s0[..at] + (left + prefix);
  }

  lemma LaidNumeric(s0: string, at: nat, s1: string, s2: string, spec: Spec, prefix: string, n: nat, end: nat)
    requires end == at + spec.width <= |s0| && spec.width > |prefix| + n && spec.align == Numeric
    requires Copied(s0, at, prefix, s1)
    requires Copied(s1, at + |prefix|, Repeat(spec.fill, end - n - (at + |prefix|)), s2)
    ensures LaidOut(s2, s0[..at], spec, prefix, n, end)
  {
    var pad := Repeat(spec.fill, end - n - (at + |prefix|));
    CopiedParts(s0, at, prefix, s1);
    CopiedParts(s1, at + |prefix|, pad, s2);
    assert s0[..at] + prefix + pad == s0[..at] + (prefix + pad);
  }

  lemma Joined(s: string, i: nat, j: nat, before: string, between: string)
    requires i <= j <= |s| && s[..i] == before && s[i..j] == between
    ensures s[..j] == before + between
  {
  }

  lemma LaidRight(s0: string, at: nat, from: nat, s1: string, s2: string, spec: Spec, prefix: string, n: nat)
    requires from + |prefix| + n == at + spec.width <= |s0| && from > at && spec.align in [AlignRight, Default]
    requires Copied(s0, from, prefix, s1) && Copied(s1, at, Repeat(spec.fill, from - at), s2)
    ensures LaidOut(s2, s0[..at], spec, prefix, n, at + spec.width)
  {
    var pad := Repeat(spec.fill, from - at);
    CopiedParts(s0, from, prefix, s1);
    CopiedParts(s1, at, pad, s2);
    assert s1[..at] == s0[..at];
    Slice(s1, s2, from, from, from + |prefix|);
    Joined(s2, from, from + |prefix|, s0[..at] + pad, prefix);
    assert s0[..at] + pad + prefix == s0[..at] + (pad + prefix);
    assert Left(spec, prefix, n) == pad + prefix;
  }

  method LayNarrow(a: array<char>, at: nat, spec: Spec, prefix: string, n: nat) returns (end: nat)
    requires n >= 1 && at + FieldSize(spec, prefix, n) <= a.Length
    requires spec.width <= |prefix| + n
    modifies a
    ensures LaidOut(a[..], old(a[..])[..at], spec, prefix, n, end)
  {
    ghost var s0 := a[..];
    CopyInto(a, at, prefix);
    end := at + |prefix| + n;
    LaidNarrow(s0, at, a[..], spec, prefix, n);
  }

  method LayLeft(a: array<char>, at: nat, spec: Spec, prefix: string, n: nat) returns (end: nat)
    requires n >= 1 && at + FieldSize(spec, prefix, n) <= a.Length
    requires spec.width > |prefix| + n && spec.align == AlignLeft
    modifies a
    ensures LaidOut(a[..], old(a[..])[..at], spec, prefix, n, end)
  {
    ghost var s0 := a[..];
    CopyInto(a, at, prefix);
    ghost var s1 := a[..];
    end := at + |prefix| + n;
    FillRange(a, end, at + spec.width, spec.fill);
    LaidLeft(s0, at, s1, a[..], spec, prefix, n, end);
  }

  method LayCenter(a: array<char>, at: nat, spec: Spec, prefix: string, n: nat) returns (end: nat)
    requires n >= 1 && at + FieldSize(spec, prefix, n) <= a.Length
    requires spec.width > |prefix| + n && spec.align == Center
    modifies a
    ensures LaidOut(a[..], old(a[..])[..at], spec, prefix, n, end)
  {
    ghost var s0 := a[..];
    var content := FillPadding(a, at, spec.width, |prefix| + n, spec.fill);
    ghost var s1 := a[..];
    CopyInto(a, content, prefix);
    end := content + |prefix| + n;
    LaidCenter(s0, at, content, s1, a[..], spec, prefix, n);
  }

  method LayNumeric(a: array<char>, at: nat, spec: Spec, prefix: string, n: nat) returns (end: nat)
    requires n >= 1 && at + FieldSize(spec, prefix, n) <= a.Length
    requires spec.width > |prefix| + n && spec.align == Numeric
    modifies a
    ensures LaidOut(a[..], old(a[..])[..at], spec, prefix, n, end)
  {
    ghost var s0 := a[..];
    CopyInto(a, at, prefix);
    ghost var s1 := a[..];
    end := at + spec.width;
    FillRange(a, at + |prefix|, end - n, spec.fill);
    LaidNumeric(s0, at, s1, a[..], spec, prefix, n, end);
  }

  method LayRight(a: array<char>, at: nat, spec: Spec, prefix: string, n: nat) returns (end: nat)
    requires n >= 1 && at + FieldSize(spec, prefix, n) <= a.Length
    requires spec.width > |prefix| + n && spec.align in [AlignRight, Default]
    modifies a
    ensures LaidOut(a[..], old(a[..])[..at], spec, prefix, n, end)
  {
    ghost var s0 := a[..];
    end := at + spec.width;
    var from := end - n - |prefix|;
    CopyInto(a, from, prefix);
    ghost var s1 := a[..];
    FillRange(a, at, from, spec.fill);
    LaidRight(s0, at, from, s1, a[..], spec, prefix, n);
  }

  /** Fills in everything but the digits, which end before `end`. */
  method LayField(a: array<char>, at: nat, spec: Spec, prefix: string, n: nat) returns (end: nat)
    requires n >= 1 && at + FieldSize(spec, prefix, n) <= a.Length
    modifies a
    ensures LaidOut(a[..], old(a[..])[..at], spec, prefix, n, end)
  {
    if spec.width <= |prefix| + n {
      end := LayNarrow(a, at, spec, prefix, n);
    } else if spec.align == AlignLeft {
      end := LayLeft(a, at, spec, prefix, n);
    } else if spec.align == Center {
      end := LayCenter(a, at, spec, prefix, n);
    } else if spec.align == Numeric {
      end := LayNumeric(a, at, spec, prefix, n);
    } else {
      end := LayRight(a, at, spec, prefix, n);
    }
  }

  // ----- Digits in a base, backwards -----

  method CountInBase(n: nat, base: nat, upper: bool) returns (count: nat)
    requires IsBase(base)
    ensures count == |InBase(n, base, upper)|
  {
    count := 1;
    var rest: nat := n;
    while rest >= base
      invariant |InBase(n, base, upper)| == count - 1 + |InBase(rest, base, upper)|
    {
      rest := Quot(rest, base);
      count := count + 1;
    }
  }

  lemma Regroup(x: string, y: string, z: string)
    ensures x + y + z == x + (y + z)
  {
  }

  /** The digits in front of the last one. */
  function Front(n: nat, base: nat, upper: bool): string
    requires IsBase(base)
  {
    if n < base then "" else InBase(Quot(n, base), base, upper)
  }

  lemma MoveDigit(n: nat, base: nat, upper: bool, tail: string)
    requires IsBase(base)
    ensures InBase(n, base, upper) + tail == Front(n, base, upper) + ([DigitIn(Rem(n, base), upper)] + tail)
    ensures |InBase(n, base, upper)| == |Front(n, base, upper)| + 1
  {
    assert InBase(n, base, upper) == Front(n, base, upper) + [DigitIn(Rem(n, base), upper)];
    Regroup(Front(n, base, upper), [DigitIn(Rem(n, base), upper)], tail);
  }

  /** `*p-- = digits[n & mask]` until nothing is left of n. */
  method WriteDigits(a: array<char>, end: nat, n: nat, base: nat, upper: bool)
    requires IsBase(base) && |InBase(n, base, upper)| <= end <= a.Length
    modifies a
    ensures a[..] == old(a[..end - |InBase(n, base, upper)|]) + InBase(n, base, upper) + old(a[end..])
  {
    ghost var pre, tail, post := a[..end], "", a[end..];
    ghost var ahead := InBase(n, base, upper);
    var rest: nat, start, more := n, end, true;
    while more
      invariant |tail| == end - start && |ahead| <= start <= end
      invariant ahead == if more then InBase(rest, base, upper) else ""
      invariant InBase(n, base, upper) == ahead + tail
      invariant a[..] == pre[..start] + tail + post
      decreases more, rest
    {
      MoveDigit(rest, base, upper, tail);
      ahead := Front(rest, base, upper);
      var digit := DigitIn(Rem(rest, base), upper);
      IntFormat.PutBefore(a, start, [digit], pre, tail, post);
      more := rest >= base;
      rest, start, tail := Quot(rest, base), start - 1, [digit] + tail;
    }
  }

  method CountDecimal(absValue: nat) returns (numDigits: nat)
    requires absValue < LIMIT_64
    ensures numDigits == |Numeral(absValue)|
  {
    CountDigits64IsLength(absValue);
    numDigits := CountDigits64(absValue);
  }

  /** With the digits in place the field is complete. */
  lemma FieldDone(s0: string, s1: string, size: nat, before: string, spec: Spec, prefix: string, digits: string, end: nat)
    requires |digits| <= end <= size <= |s0|
    requires s0[..end - |digits|] == before + Left(spec, prefix, |digits|)
    requires s0[end..size] == Right(spec, prefix, |digits|)
    requires s1 == s0[..end - |digits|] + digits + s0[end..]
    ensures |s1| == |s0| && s1[..size] == before + Padded(spec, prefix, digits)
  {
    var left, right := Left(spec, prefix, |digits|), Right(spec, prefix, |digits|);
    assert s1[..size] == s0[..end - |digits|] + digits + s0[end..size];
    assert before + left + digits + right == before + (left + digits + right);
  }

  class Buffer {
    /** `ptr_` with `capacity_` characters, of which `size` are in use. */
    var store: array<char>
    var size: nat

    predicate Valid()
      reads this
    {
      size <= store.Length
    }

    function Contents(): string
      requires Valid()
      reads this, store
    {
      store[..size]
    }

    constructor (inlineCapacity: nat)
      ensures Valid() && fresh(store) && Contents() == ""
    {
      store, size := new char[inlineCapacity], 0;
    }

    /** At least half as much again, and at least what is asked for. */
    method Grow(capacity: nat)
      requires Valid() && capacity > store.Length
      modifies `store
      ensures Valid() && fresh(store) && Contents() == old(Contents())
      ensures var grown := old(store.Length) + old(store.Length) / 2;
              store.Length == if capacity > grown then capacity else grown
    {
      var newCapacity := store.Length + store.Length / 2;
      if capacity > newCapacity {
        newCapacity := capacity;
      }
      var bigger := new char[newCapacity];
      forall i | 0 <= i < size {
        bigger[i] := store[i];
      }
      store := bigger;
    }

    /** Appends `n` characters that are not initialised, and says where they start. */
    method GrowBuffer(n: nat) returns (p: nat)
      requires Valid()
      modifies this
      ensures Valid() && p == old(size) && size == p + n && (store == old(store) || fresh(store))
      ensures store[..p] == old(Contents())
    {
      p := size;
      if size + n > store.Length {
        Grow(size + n);
      }
      size := size + n;
    }

    method Append(text: string)
      requires Valid()
      modifies this, store
      ensures Valid() && (store == old(store) || fresh(store)) && Contents() == old(Contents()) + text
    {
      var newSize := size + |text|;
      if newSize > store.Length {
        Grow(newSize);
      }
      CopyInto(store, size, text);
      size := newSize;
    }

    // ----- write_int -----

    /**
    Makes room for a field of `numDigits` digits and fills in everything but the digits;
    `last` is where the last digit goes.
    */
    method PrepareIntBuffer(numDigits: nat, spec: Spec, prefix: string) returns (last: nat)
      requires Valid() && numDigits >= 1
      modifies this, store
      ensures Valid() && (store == old(store) || fresh(store)) && numDigits <= last + 1 <= size
      ensures store[..last + 1 - numDigits] == old(Contents()) + Left(spec, prefix, numDigits)
      ensures store[last + 1..size] == Right(spec, prefix, numDigits)
    {
      var p := GrowBuffer(FieldSize(spec, prefix, numDigits));
      var end := LayField(store, p, spec, prefix, numDigits);
      last := end - 1;
    }

    /**
    Appends a 32 or 64 bit integer in the field that the format asks for; nothing is written
    if the type character is unknown.
    */
    method WriteInt(value: int, spec: Spec) returns (known: bool)
      requires Valid() && -LIMIT_64 / 2 <= value < LIMIT_64
      modifies this, store
      ensures Valid() && (store == old(store) || fresh(store)) && (known <==> IsKind(spec.kind))
      ensures Contents() == old(Contents()) + if known then Written(value, spec) else ""
    {
      var absValue := IntFormat.Magnitude(value);
      var prefix := Prefix(value, spec);
      known := IsKind(spec.kind);
      if known {
        if BaseOf(spec.kind) == 10 {
          WriteDecimal(absValue, spec, prefix);
        } else {
          WriteInBase(absValue, spec, prefix, BaseOf(spec.kind), spec.kind == 'X');
        }
      }
    }

    method WriteDecimal(absValue: nat, spec: Spec, prefix: string)
      requires Valid() && absValue < LIMIT_64
      modifies this, store
      ensures Valid() && (store == old(store) || fresh(store))
      ensures Contents() == old(Contents()) + Padded(spec, prefix, Numeral(absValue))
    {
      var numDigits := CountDecimal(absValue);
      var last := PrepareIntBuffer(numDigits, spec, prefix);
      ghost var prepared := store[..];
      var _ := IntFormat.FormatDecimal(store, last + 1, absValue);
      FieldDone(prepared, store[..], size, old(Contents()), spec, prefix, Numeral(absValue), last + 1);
    }

    method WriteInBase(absValue: nat, spec: Spec, prefix: string, base: nat, upper: bool)
      requires Valid() && IsBase(base)
      modifies this, store
      ensures Valid() && (store == old(store) || fresh(store))
      ensures Contents() == old(Contents()) + Padded(spec, prefix, InBase(absValue, base, upper))
    {
      var numDigits := CountInBase(absValue, base, upper);
      var last := PrepareIntBuffer(numDigits, spec, prefix);
      ghost var prepared := store[..];
      WriteDigits(store, last + 1, absValue, base, upper);
      FieldDone(prepared, store[..], size, old(Contents()), spec, prefix, InBase(absValue, base, upper), last + 1);
    }
  }
}
