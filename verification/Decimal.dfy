/** Integer parsing and printing (az_span.c), proved against the value of a digit string. */
module Decimal {
  import opened Bytes

  const UINT32_MAX: int := 0xFFFF_FFFF
  const UINT64_MAX: int := 0xFFFF_FFFF_FFFF_FFFF
  const INT32_MAX: int := 0x7FFF_FFFF
  const INT64_MAX: int := 0x7FFF_FFFF_FFFF_FFFF

  const MAX_SIZE_FOR_UINT32: nat := 10
  const MAX_SIZE_FOR_UINT64: nat := 20
  const MAX_SIZE_FOR_INT32: nat := 11
  const MAX_SIZE_FOR_INT64: nat := 20

  // ---------------------------------------------------------------- reference definitions

  /** The number a digit string denotes in base ten. */
  ghost function Value(s: Text): (v: int)
    ensures AllDigits(s) ==> v >= 0
  {
    if s == [] then 0 else Value(s[..|s| - 1]) * 10 + (s[|s| - 1] as int - 0x30)
  }

  ghost predicate Canonical(s: Text) {
    s != [] && AllDigits(s) && (s[0] == ZERO ==> |s| == 1)
  }

  /** The digits after an optional '+', or after an optional '-' as well when signs are allowed. */
  ghost function Magnitude(s: Text, signed: bool): Text {
    if s != [] && (s[0] == PLUS || (signed && s[0] == MINUS)) then s[1..] else s
  }

  /** What an unsigned number of at most "max" looks like: optionally signed digits in range. */
  ghost function UnsignedMeaning(s: Text, max: int): Option<int> {
    var digits := Magnitude(s, false);
    if digits != [] && AllDigits(digits) && Value(digits) <= max then Some(Value(digits)) else None
  }

  /** The same for a two's complement type whose largest value is "max". */
  ghost function SignedMeaning(s: Text, max: int): Option<int> {
    var digits := Magnitude(s, true);
    if digits == [] || !AllDigits(digits) then None
    else
      var v := if s[0] == MINUS then -Value(digits) else Value(digits);
      if -max - 1 <= v <= max then Some(v) else None
  }

  function Pow10(k: nat): (p: nat)
    ensures p >= 1
  {
    if k == 0 then 1 else 10 * Pow10(k - 1)
  }

  // ---------------------------------------------------------------- parsing

  lemma {:induction false} PrefixIsNotLarger(s: Text, i: nat)
    requires i <= |s| && AllDigits(s)
    ensures Value(s[..i]) <= Value(s)
  {
    if i == |s| {
      assert s[..i] == s;
    } else {
      var front := s[..|s| - 1];
      assert front[..i] == s[..i];
      PrefixIsNotLarger(front, i);
    }
  }

  lemma AppendDigit(s: Text, d: Byte)
    ensures Value(s + [d]) == Value(s) * 10 + (d as int - 0x30)
  {
    assert (s + [d])[..|s|] == s;
  }

  /** A digit that the division test rejects makes every continuation too large. */
  lemma OverflowRejects(digits: Text, i: nat, max: int)
    requires i < |digits| && AllDigits(digits)
    requires Value(digits[..i + 1]) > max
    ensures Value(digits) > max
  {
    PrefixIsNotLarger(digits, i + 1);
  }

  /** The loop that az_span_atou64/atou32 and, on the magnitude, az_span_atoi64/atoi32 share.
      "max" is the largest magnitude that the type allows. */
  method ParseDigits(source: Text, start: nat, max: int) returns (r: Option<int>)
    requires start < |source| && max >= 9
    ensures r == if AllDigits(source[start..]) && Value(source[start..]) <= max
                 then Some(Value(source[start..])) else None
  {
    ghost var digits := source[start..];
    var value := 0;
    var i := start;
    while i < |source|
      invariant start <= i <= |source|
      invariant AllDigits(digits[..i - start])
      invariant value == Value(digits[..i - start])
      invariant 0 <= value <= max
    {
      var nextByte := source[i];
      assert digits[i - start] == nextByte;
      if !IsDigit(nextByte) {
        return None;
      }
      var d := nextByte - 0x30;
      assert digits[..i - start + 1] == digits[..i - start] + [nextByte];
      AppendDigit(digits[..i - start], nextByte);
      if (max - d) / 10 < value {
        if AllDigits(digits) {
          OverflowRejects(digits, i - start, max);
        }
        return None;
      }
      value := value * 10 + d;
      i := i + 1;
    }
    assert digits[..i - start] == digits;
    return Some(value);
  }

  /** az_span_atou64 (max UINT64_MAX) and az_span_atou32 (max UINT32_MAX). */
  method ParseUnsigned(source: Text, max: int) returns (r: Option<int>)
    requires max >= 9
    ensures r == UnsignedMeaning(source, max)
  {
    if |source| < 1 {
      return None;
    }
    var start := 0;
    if !IsDigit(source[0]) {
      if source[0] != PLUS || |source| < 2 {
        assert source[0] != PLUS ==> !AllDigits(Magnitude(source, false));
        return None;
      }
      start := 1;
    }
    assert source[start..] == Magnitude(source, false);
    r := ParseDigits(source, start, max);
  }

  /** Conversion to a two's complement type with largest value "max", for the operands that one
      modulus brings into range. */
  function Wrap(x: int, max: int): (w: int)
    requires max >= 0 && -2 * max - 2 <= x <= 2 * max + 1
    ensures -max - 1 <= w <= max
    ensures w == x || w == x - (2 * max + 2) || w == x + (2 * max + 2)
  {
    if x > max then x - (2 * max + 2) else if x < -max - 1 then x + (2 * max + 2) else x
  }

  /** az_span_atoi64 (max INT64_MAX) and az_span_atoi32 (max INT32_MAX). The last product, which
      overflows in C for the smallest value, wraps. */
  method ParseSigned(source: Text, max: int) returns (r: Option<int>)
    requires max >= 9
    ensures r == SignedMeaning(source, max)
  {
    if |source| < 1 {
      return None;
    }
    var start := 0;
    var sign := 1;
    if !IsDigit(source[0]) {
      if source[0] != PLUS {
        if source[0] != MINUS {
          assert !AllDigits(Magnitude(source, true));
          return None;
        }
        sign := -1;
      }
      if |source| < 2 {
        return None;
      }
      start := 1;
    }
    assert source[start..] == Magnitude(source, true);
    var signFactor := (-1 * sign + 1) / 2;
    var magnitude := ParseDigits(source, start, max + signFactor);
    if magnitude == None {
      return None;
    }
    return Some(Wrap(Wrap(magnitude.value, max) * sign, max));
  }

  // ---------------------------------------------------------------- printing

  /** Canonical decimal text of a natural number. */
  function Digits(n: nat): (s: Text)
    ensures Canonical(s) && Value(s) == n
  {
    if n < 10 then
      [0x30 + n]
    else
      AppendDigit(Digits(n / 10), 0x30 + n % 10);
      LeadingDigit(Digits(n / 10));
      Digits(n / 10) + [0x30 + n % 10]
  }

  lemma LeadingDigit(s: Text)
    requires Canonical(s)
    ensures Value(s) > 0 <==> s[0] != ZERO
  {
    if |s| == 1 {
      assert s[..0] == [];
    } else {
      assert s[..1] == [s[0]];
      assert s[..1][..0] == [];
      PrefixIsNotLarger(s, 1);
    }
  }

  /** Digit strings of one length are determined by their value. */
  lemma {:induction false} SameLengthSameValue(s: Text, t: Text)
    requires |s| == |t| && AllDigits(s) && AllDigits(t) && Value(s) == Value(t)
    ensures s == t
  {
    if s != [] {
      var n := |s| - 1;
      assert s[n] == t[n] && Value(s[..n]) == Value(t[..n]);
      SameLengthSameValue(s[..n], t[..n]);
      assert s == s[..n] + [s[n]] && t == t[..n] + [t[n]];
    }
  }

  lemma {:induction false} ValueBounds(s: Text)
    requires AllDigits(s)
    ensures Value(s) < Pow10(|s|)
    ensures s != [] && s[0] != ZERO ==> Pow10(|s| - 1) <= Value(s)
  {
    if s != [] {
      var n := |s| - 1;
      ValueBounds(s[..n]);
      if n > 0 {
        assert s[..n][0] == s[0];
      }
    }
  }

  lemma {:induction false} Pow10Monotone(i: nat, j: nat)
    requires i <= j
    ensures Pow10(i) <= Pow10(j)
    decreases j
  {
    if i < j {
      Pow10Monotone(i, j - 1);
    }
  }

  lemma LengthFromValue(s: Text, t: Text)
    requires Canonical(s) && Canonical(t) && Value(s) == Value(t)
    ensures |s| <= |t|
  {
    ValueBounds(s);
    ValueBounds(t);
    LeadingDigit(t);
    if |t| < |s| {
      Pow10Monotone(|t|, |s| - 1);
    }
  }

  /** A canonical text is the only one for its value: no other digits print the same number. */
  lemma CanonicalUnique(s: Text, t: Text)
    requires Canonical(s) && Canonical(t) && Value(s) == Value(t)
    ensures s == t
  {
    LengthFromValue(s, t);
    LengthFromValue(t, s);
    SameLengthSameValue(s, t);
  }

  /** A digit string split after its leading digit. */
  lemma {:induction false} SplitLeading(s: Text)
    requires AllDigits(s) && s != []
    ensures Value(s) == (s[0] as int - 0x30) * Pow10(|s| - 1) + Value(s[1..])
  {
    var n := |s| - 1;
    if n == 0 {
      assert s[..0] == [] && s[1..] == [];
    } else {
      var front := s[..n];
      SplitLeading(front);
      assert s[1..] == front[1..] + [s[n]];
      AppendDigit(front[1..], s[n]);
      TenTimes(s[0] as int - 0x30, Pow10(n - 1), Value(front[1..]));
    }
  }

  lemma TenTimes(d: int, p: int, rest: int)
    ensures 10 * (d * p + rest) == d * (10 * p) + 10 * rest
  {
  }

  lemma ProductMonotone(a: nat, b: nat, div: nat)
    requires a <= b
    ensures a * div <= b * div
  {
  }

  lemma QuotientIs(n: nat, div: nat, q: nat, rest: nat)
    requires div >= 1 && n == q * div + rest && rest < div
    ensures n / div == q && n % div == rest
  {
    var r := n / div;
    if r < q {
      ProductMonotone(r + 1, q, div);
    } else if r > q {
      ProductMonotone(q + 1, r, div);
    }
  }

  /** Dividing by the place value of the leading digit yields that digit and the rest. */
  lemma DivideLeading(s: Text)
    requires AllDigits(s) && s != []
    ensures Value(s) / Pow10(|s| - 1) == s[0] as int - 0x30
    ensures Value(s) % Pow10(|s| - 1) == Value(s[1..])
  {
    SplitLeading(s);
    ValueBounds(s[1..]);
    QuotientIs(Value(s), Pow10(|s| - 1), s[0] as int - 0x30, Value(s[1..]));
  }

  /** One step of the printing loop: the leading digit, the remaining number and its divisor. */
  method TakeDigit(nn: nat, div: nat, ghost rest: Text) returns (digit: Byte, nn': nat, div': nat)
    requires rest != [] && AllDigits(rest) && nn == Value(rest) && div == Pow10(|rest| - 1) > 1
    ensures |rest| > 1 && digit == rest[0] && nn' == Value(rest[1..]) && div' == Pow10(|rest| - 2)
  {
    DivideLeading(rest);
    digit := 0x30 + nn / div;
    nn' := nn % div;
    div' := div / 10;
  }

  lemma LastDigit(rest: Text)
    requires rest != [] && Pow10(|rest| - 1) <= 1
    ensures |rest| == 1 && Value(rest) == rest[0] as int - 0x30
  {
    PowIsOne(|rest| - 1);
    assert rest[..0] == [];
  }

  /** The loop that prints a number from its leading divisor down. */
  method PrintDigits(destination: array<Byte>, at: nat, n: nat, divisor: nat, ghost digits: Text)
    requires digits == Digits(n) && divisor == Pow10(|digits| - 1) && at + |digits| <= destination.Length
    modifies destination
    ensures destination[..at] == old(destination[..at])
    ensures destination[at + |digits|..] == old(destination[at + |digits|..])
    ensures destination[at..at + |digits|] == digits
  {
    var div, nn, end := divisor, n, at;
    ghost var rest := digits;
    while div > 1
      invariant at <= end < at + |digits| && rest == digits[end - at..]
      invariant AllDigits(rest) && nn == Value(rest) && div == Pow10(|rest| - 1)
      invariant forall i :: 0 <= i < end - at ==> destination[at + i] == digits[i]
      invariant forall i :: 0 <= i < at || end <= i < destination.Length ==> destination[i] == old(destination[i])
      decreases |rest|
    {
      var digit;
      digit, nn, div := TakeDigit(nn, div, rest);
      destination[end] := digit;
      end := end + 1;
      rest := rest[1..];
    }
    LastDigit(rest);
    destination[end] := 0x30 + nn;
  }

  lemma QuotientZero(n: nat, div: nat)
    requires div >= 1
    ensures n / div == 0 <==> n < div
  {
    if n < div {
      QuotientIs(n, div, 0, n);
    }
  }

  /** The loop that finds the number of digits, starting from the type's largest. */
  method LeadingDivisor(n: nat, size: nat) returns (div: nat, digitCount: nat)
    requires 1 <= size && 1 <= n < Pow10(size)
    ensures digitCount == |Digits(n)| >= 1 && div == Pow10(digitCount - 1)
  {
    div := Pow10(size - 1);
    digitCount := size;
    QuotientZero(n, div);
    while n / div == 0
      invariant 1 <= digitCount <= size && div == Pow10(digitCount - 1) && n < Pow10(digitCount)
      invariant n / div == 0 <==> n < div
      decreases digitCount
    {
      digitCount := digitCount - 1;
      div := div / 10;
      QuotientZero(n, div);
    }
    DigitCount(n, digitCount);
  }

  /** _az_span_builder_append_uint64 / _az_span_builder_append_u32toa: "size" is the largest number
      of digits of the type, and the first divisor is the smallest number with that many. Returns the
      index after the last byte written. */
  method AppendUnsigned(destination: array<Byte>, at: nat, n: nat, size: nat)
    returns (r: AzResult, end: nat)
    requires at <= destination.Length && 1 <= size && n < Pow10(size)
    modifies destination
    ensures r == if destination.Length - at >= |Digits(n)| then Ok else NotEnoughSpace
    ensures r.Ok? ==> end == at + |Digits(n)| <= destination.Length && destination[at..end] == Digits(n)
    ensures !r.Ok? ==> end == at
    ensures destination[..at] == old(destination[..at]) && destination[end..] == old(destination[end..])
  {
    end := at;
    if destination.Length - at < 1 {
      return NotEnoughSpace, end;
    }
    if n == 0 {
      destination[at] := ZERO;
      end := at + 1;
      return Ok, end;
    }
    var div, digitCount := LeadingDivisor(n, size);
    if destination.Length - at < digitCount {
      return NotEnoughSpace, end;
    }
    PrintDigits(destination, at, n, div, Digits(n));
    end := at + digitCount;
    r := Ok;
  }

  lemma PowIsOne(k: nat)
    requires Pow10(k) <= 1
    ensures k == 0
  {
  }

  lemma DigitCount(n: nat, count: nat)
    requires count >= 1 && Pow10(count - 1) <= n < Pow10(count)
    ensures |Digits(n)| == count
  {
    var s := Digits(n);
    ValueBounds(s);
    LeadingDigit(s);
    if |s| < count {
      Pow10Monotone(|s|, count - 1);
    } else if |s| > count {
      Pow10Monotone(count, |s| - 1);
    }
  }

  /** The text of a signed number. */
  function SignedDigits(v: int): Text {
    if v < 0 then [MINUS] + Digits(-v) else Digits(v)
  }

  /** No 32-bit number prints longer than the sign and ten digits. */
  lemma Int32Size(v: int)
    requires -INT32_MAX - 1 <= v <= INT32_MAX
    ensures |SignedDigits(v)| <= MAX_SIZE_FOR_INT32
  {
    var n := if v < 0 then -v else v;
    var s := Digits(n);
    FitsTenDigits(n);
    ValueBounds(s);
    LeadingDigit(s);
    if |s| > 10 {
      Pow10Monotone(10, |s| - 1);
    }
  }

  /** az_span_i32toa. Negating the smallest value, which C leaves undefined, wraps. */
  method PrintInt32(destination: array<Byte>, at: nat, source: int) returns (r: AzResult, end: nat)
    requires at <= destination.Length && -INT32_MAX - 1 <= source <= INT32_MAX
    modifies destination
    ensures r == if destination.Length - at >= |SignedDigits(source)| then Ok else NotEnoughSpace
    ensures r.Ok? ==> end == at + |SignedDigits(source)| <= destination.Length
    ensures r.Ok? ==> destination[at..end] == SignedDigits(source) && destination[end..] == old(destination[end..])
    ensures destination[..at] == old(destination[..at])
  {
    var magnitude := source;
    end := at;
    if source < 0 {
      if destination.Length - at < 1 {
        return NotEnoughSpace, at;
      }
      destination[at] := MINUS;
      end := at + 1;
      magnitude := Wrap(-source, INT32_MAX);
    }
    // the cast from int32_t to uint32_t
    var unsigned := if magnitude < 0 then magnitude + UINT32_MAX + 1 else magnitude;
    assert unsigned == if source < 0 then -source else source;
    FitsTenDigits(unsigned);
    var start := end;
    ghost var before := destination[..];
    r, end := AppendUnsigned(destination, start, unsigned, MAX_SIZE_FOR_UINT32);
    if start != at {
      AfterSign(before, destination[..], at, end);
    }
  }

  lemma AfterSign(before: Text, after: Text, at: nat, end: nat)
    requires at + 1 <= end <= |after| == |before| && after[..at + 1] == before[..at + 1]
    ensures after[at..end] == [before[at]] + after[at + 1..end] && after[..at] == before[..at]
  {
    assert after[..at + 1][at] == before[..at + 1][at];
    assert after[..at] == after[..at + 1][..at];
  }

  lemma FitsTenDigits(n: nat)
    requires n <= UINT32_MAX
    ensures n < Pow10(MAX_SIZE_FOR_UINT32)
  {
    assert Pow10(5) == 100_000;
  }

  // ---------------------------------------------------------------- round trips

  /** Parsing what was printed gives the number back, for every unsigned value of the type. */
  lemma UnsignedRoundTrip(n: nat, max: int)
    requires n <= max
    ensures UnsignedMeaning(Digits(n), max) == Some(n)
  {
    assert IsDigit(Digits(n)[0]);
  }

  /** The same for signed values, the smallest one included. */
  lemma SignedRoundTrip(v: int, max: int)
    requires -max - 1 <= v <= max
    ensures SignedMeaning(SignedDigits(v), max) == Some(v)
  {
    if v < 0 {
      assert SignedDigits(v)[1..] == Digits(-v);
    } else {
      assert IsDigit(Digits(v)[0]);
    }
  }

  /** Conversely a canonical text that parses is the text its value prints as. */
  lemma PrintsBack(s: Text, max: int)
    requires Canonical(s) && Value(s) <= max
    ensures UnsignedMeaning(s, max) == Some(Value(s)) && Digits(Value(s)) == s
  {
    assert IsDigit(s[0]);
    CanonicalUnique(s, Digits(Value(s)));
  }
}
