/** What the accessors of a token may rely on, and the integer getters (az_json_token.c). */
module JsonTokenNumber {
  import opened Bytes
  import opened ReaderSpec
  import opened JsonToken
  import opened JsonStrings
  import opened JsonTokenValue
  import opened JsonGrammar
  import opened BitStack
  import Decimal

  // ---------------------------------------------------------------- what the reader promises

  /** A string token is well escaped and its flag is right; a number token is a JSON number. */
  ghost predicate Ready(token: Token) {
    && (token.kind.StringToken? || token.kind.PropertyName? ==>
          WellEscaped(token.bytes, false) && (token.escaped <==> BACKSLASH in token.bytes))
    && (token.kind.NumberToken? ==> IsNumber(token.bytes))
  }

  ghost predicate IsNumber(s: Text) {
    exists n :: ValidNumber(n) && s == SpellNumber(n)
  }

  lemma EscapedChar(c: StringChar, rest: Text)
    requires ValidChar(c)
    ensures WellEscaped(SpellChar(c) + rest, false) <==> WellEscaped(rest, false)
    ensures BACKSLASH in SpellChar(c) <==> !c.Plain?
  {
    var w := SpellChar(c);
    WellEscapedStep(w, rest, false);
    if c.Plain? {
      assert w[1..] + rest == rest;
    } else {
      assert w[0] == BACKSLASH;
      WellEscapedStep(w[1..], rest, true);
      if c.Escape? {
        assert w[1..][1..] + rest == rest;
      } else {
        WellEscapedStep(w[2..], rest, false);
        WellEscapedStep(w[3..], rest, false);
        WellEscapedStep(w[4..], rest, false);
        WellEscapedStep(w[5..], rest, false);
        assert w[1..][1..] == w[2..] && w[2..][1..] == w[3..] && w[3..][1..] == w[4..] && w[4..][1..] == w[5..];
        assert w[5..][1..] + rest == rest;
      }
    }
  }

  lemma {:induction false} EscapedChars(cs: seq<StringChar>)
    requires ValidChars(cs)
    ensures WellEscaped(SpellChars(cs), false)
    ensures BACKSLASH in SpellChars(cs) <==> HasEscape(cs)
  {
    hide WellEscaped, SpellChar;
    if cs == [] {
      assert SpellChars(cs) == [];
      NothingEscaped();
    } else {
      var c, rest := cs[0], cs[1..];
      assert cs == [c] + rest;
      EscapedChars(rest);
      EscapedChar(c, SpellChars(rest));
      EscapeInChars(c, rest);
    }
  }

  lemma NothingEscaped()
    ensures WellEscaped([], false)
  {
  }

  lemma StringIsReady(t: Text, p: nat)
    requires ScanString(t, p, false).Found?
    ensures var scan := ScanString(t, p, false);
            WellEscaped(t[p..scan.end], false) && (scan.escaped <==> BACKSLASH in t[p..scan.end])
  {
    var cs := CharsScanned(t, p, false);
    ScansChars(t, p, cs, false);
    EscapedChars(cs);
    HasBoth(t, p, SpellChars(cs), [QUOTE]);
    SliceOfWord(t, p, SpellChars(cs));
  }

  lemma NumberIsReady(t: Text, p: nat, complex: bool)
    requires p < |t| && (IsDigit(t[p]) || t[p] == MINUS) && ScanNumber(t, p, complex).Found?
    ensures IsNumber(t[p..ScanNumber(t, p, complex).end])
  {
    var n := NumberScanned(t, p, complex);
    SliceOfWord(t, p, SpellNumber(n));
  }

  lemma ValueIsReady(t: Text, p: nat, s: State)
    requires p < |t| && ValueStep(t, p, s).Next?
    ensures Ready(ValueStep(t, p, s).token)
  {
    hide ScanString, ScanNumber, ScanLiteral, IsNumber, WellEscaped;
    var b := t[p];
    if b == QUOTE {
      StringIsReady(t, p + 1);
    } else if IsDigit(b) || b == MINUS {
      NumberIsReady(t, p, s.complex);
    }
  }

  lemma NameIsReady(t: Text, p: nat, s: State)
    requires p < |t| && t[p] == QUOTE && s.stack != [] && Top(s.stack).Object?
    requires PropertyNameStep(t, p, s).Next?
    ensures Ready(PropertyNameStep(t, p, s).token)
  {
    hide ScanString, IsNumber, WellEscaped;
    StringIsReady(t, p + 1);
  }

  lemma TokenIsReady(t: Text, s: State)
    requires s.pos <= |t| && WellFormed(s) && NextToken(t, s).Next?
    ensures Ready(NextToken(t, s).token)
  {
    hide ValueStep, PropertyNameStep, Ready;
    var p := SkipWhitespace(t, s.pos);
    if s.stack != [] {
      EndIsReady(t, p, s);
    }
    if s.kind.NoToken? || s.kind.PropertyName? {
      ValueIsReady(t, p, s);
    } else if s.kind.BeginObject? {
      if t[p] == QUOTE {
        NameIsReady(t, p, s);
      }
    } else if s.kind.BeginArray? {
      if t[p] != CLOSE_BRACKET {
        ValueIsReady(t, p, s);
      }
    } else if t[p] == COMMA {
      var q := SkipWhitespace(t, p + 1);
      if Top(s.stack).Array? {
        ValueIsReady(t, q, s);
      } else {
        NameIsReady(t, q, s);
      }
    }
  }

  lemma EndIsReady(t: Text, p: nat, s: State)
    requires p < |t| && s.stack != []
    ensures EndStep(t, p, s, Object).Next? ==> Ready(EndStep(t, p, s, Object).token)
    ensures EndStep(t, p, s, Array).Next? ==> Ready(EndStep(t, p, s, Array).token)
  {
  }

  /** Every token of every run of the reader is fit for the accessors. */
  lemma {:induction false} TokensAreReady(t: Text, s: State)
    requires s.pos <= |t| && WellFormed(s)
    ensures forall i :: 0 <= i < |Run(t, s).0| ==> Ready(Run(t, s).0[i])
    decreases |t| - s.pos
  {
    hide NextToken, Ready;
    var step := NextToken(t, s);
    if step.Next? {
      TokenIsReady(t, s);
      TokensAreReady(t, step.state);
    }
  }

  /** The accessors' preconditions hold of every token that stands for one of the reader's. */
  lemma AccessorsAreReady(token: JsonToken, spec: Token)
    requires token.Represents(spec) && Ready(spec)
    ensures IsString(token) ==> StringReady(token) && WellEscaped(token.Content(), false)
    ensures NumberReady(token)
  {
  }

  // ---------------------------------------------------------------- integer getters

  ghost predicate NumberReady(token: JsonToken) {
    && token.WellFormed()
    && token.size == |token.Content()|
    && (token.kind.NumberToken? ==> IsNumber(token.Content()))
  }

  /** A JSON number that is an integer has canonical digits, after an optional minus. */
  lemma IntegerDigits(s: Text)
    requires IsNumber(s)
    ensures s != [] && s[0] != PLUS
    ensures var digits := if s[0] == MINUS then s[1..] else s;
            AllDigits(digits) ==> Decimal.Canonical(digits)
  {
    var n :| ValidNumber(n) && s == SpellNumber(n);
    var digits := SpellUnsigned(n);
    assert digits[0] == n.integer[0];
    if n.minus {
      assert s == [MINUS] + digits && s[1..] == digits;
    } else {
      assert s == digits;
    }
    if n.fraction != [] || n.mark != [] {
      NotInteger(n);
    } else {
      assert digits == n.integer;
    }
  }

  lemma NotInteger(n: NumberParts)
    requires ValidNumber(n) && (n.fraction != [] || n.mark != [])
    ensures !AllDigits(SpellUnsigned(n))
  {
    assert !IsDigit(SpellUnsigned(n)[|n.integer|]);
  }

  /** An integer of more digits than the largest value is too large. */
  lemma TooManyDigits(digits: Text, size: nat)
    requires AllDigits(digits) ==> Decimal.Canonical(digits)
    requires size >= 1 && |digits| > size
    ensures AllDigits(digits) ==> Decimal.Value(digits) >= Decimal.Pow10(size)
  {
    if AllDigits(digits) {
      Decimal.ValueBounds(digits);
      Decimal.Pow10Monotone(size, |digits| - 1);
    }
  }

  /** A JSON number longer than the scratch buffer is rejected anyway: as an overflow, or because it
      is not an integer. */
  lemma LongIsRejected(s: Text, max: int, size: nat)
    requires IsNumber(s) && size >= 2 && |s| > size && max >= 0
    ensures max < Decimal.Pow10(size) ==> Decimal.UnsignedMeaning(s, max) == None
    ensures max + 1 < Decimal.Pow10(size - 1) ==> Decimal.SignedMeaning(s, max) == None
  {
    IntegerDigits(s);
    if s[0] == MINUS {
      TooManyDigits(s[1..], size - 1);
    } else {
      TooManyDigits(s, size);
      TooManyDigits(s, size - 1);
    }
  }

  /** The largest values that the getters' scratch buffers are made for. */
  lemma ScratchBuffersSuffice()
    ensures Decimal.UINT64_MAX < Decimal.Pow10(Decimal.MAX_SIZE_FOR_UINT64)
    ensures Decimal.UINT32_MAX < Decimal.Pow10(Decimal.MAX_SIZE_FOR_UINT32)
    ensures Decimal.INT64_MAX + 1 < Decimal.Pow10(Decimal.MAX_SIZE_FOR_INT64 - 1)
    ensures Decimal.INT32_MAX + 1 < Decimal.Pow10(Decimal.MAX_SIZE_FOR_INT32 - 1)
  {
    assert Decimal.Pow10(5) == 100_000;
    assert Decimal.Pow10(10) == 100_000_00000;
    assert Decimal.Pow10(15) == 100_000_00000_00000;
    assert Decimal.Pow10(19) == 10_00000_00000_00000_000;
  }

  /** The text that the getters parse: the slice, or a copy of the pieces when they fit. */
  method NumberText(token: JsonToken, size: nat) returns (text: Option<Text>)
    requires NumberReady(token)
    ensures text == if token.isMultisegment && |token.Content()| > size then None else Some(token.Content())
  {
    if !token.isMultisegment {
      return Some(token.slice);
    }
    if token.size > size {
      return None;
    }
    var scratch := new Byte[size];
    var end := CopyIntoSpan(token, scratch);
    text := Some(scratch[..end]);
  }

  ghost predicate NumberGot(token: JsonToken, meaning: Option<int>, r: AzResult, value: int)
  {
    if !token.kind.NumberToken? then r.InvalidState?
    else if meaning.Some? then r.Ok? && value == meaning.value
    else r.UnexpectedChar?
  }

  /** az_json_token_get_uint64 (UINT64_MAX, 20 digits) and az_json_token_get_uint32 (UINT32_MAX, 10):
      the same result however the token is split over buffers. */
  method GetUnsigned(token: JsonToken, max: int, size: nat) returns (r: AzResult, value: int)
    requires NumberReady(token) && 9 <= max < Decimal.Pow10(size) && size >= 2
    ensures NumberGot(token, Decimal.UnsignedMeaning(token.Content(), max), r, value)
  {
    hide Decimal.UnsignedMeaning;
    value := 0;
    if !token.kind.NumberToken? {
      return InvalidState, value;
    }
    var text := NumberText(token, size);
    if text.None? {
      LongIsRejected(token.Content(), max, size);
      return UnexpectedChar, value;
    }
    var parsed := Decimal.ParseUnsigned(text.value, max);
    if parsed.None? {
      return UnexpectedChar, value;
    }
    r, value := Ok, parsed.value;
  }

  /** az_json_token_get_int64 (INT64_MAX, 20 bytes) and az_json_token_get_int32 (INT32_MAX, 11). */
  method GetSigned(token: JsonToken, max: int, size: nat) returns (r: AzResult, value: int)
    requires NumberReady(token) && 9 <= max && size >= 2 && max + 1 < Decimal.Pow10(size - 1)
    ensures NumberGot(token, Decimal.SignedMeaning(token.Content(), max), r, value)
  {
    hide Decimal.SignedMeaning;
    value := 0;
    if !token.kind.NumberToken? {
      return InvalidState, value;
    }
    var text := NumberText(token, size);
    if text.None? {
      LongIsRejected(token.Content(), max, size);
      return UnexpectedChar, value;
    }
    var parsed := Decimal.ParseSigned(text.value, max);
    if parsed.None? {
      return UnexpectedChar, value;
    }
    r, value := Ok, parsed.value;
  }
}
