/** Why the reader stops: UNEXPECTED_END exactly on texts that are not JSON but can be continued to JSON. */
module JsonErrors {
  import opened Bytes
  import opened BitStack
  import opened ReaderSpec
  import opened JsonGrammar
  import opened JsonAcceptance
  import opened JsonNesting

  // ---------------------------------------------------------------- longer texts

  /** The text w starts with t. */
  ghost predicate Starts(t: Text, w: Text) {
    |t| <= |w| && forall i {:trigger t[i]} {:trigger w[i]} :: 0 <= i < |t| ==> w[i] == t[i]
  }

  /** The scan did not depend on where the text ends. */
  predicate Settled(r: Scan) {
    r.Bad? ==> !r.code.UnexpectedEnd?
  }

  /** Nor did the scan of a number that stopped before the end of the text. */
  predicate SettledBefore(r: Scan, end: nat) {
    if r.Bad? then !r.code.UnexpectedEnd? else r.end < end
  }

  lemma {:induction false} BlankGoesOn(t: Text, w: Text, p: nat)
    requires Starts(t, w) && p <= |t|
    ensures SkipWhitespace(t, p) < |t| ==> SkipWhitespace(w, p) == SkipWhitespace(t, p)
    decreases |t| - p
  {
    if p < |t| {
      assert w[p] == t[p];
      BlankGoesOn(t, w, p + 1);
    }
  }

  lemma {:induction false} DigitsGoOn(t: Text, w: Text, p: nat)
    requires Starts(t, w) && p <= |t|
    ensures EndOfDigits(t, p) < |t| ==> EndOfDigits(w, p) == EndOfDigits(t, p)
    decreases |t| - p
  {
    if p < |t| {
      assert w[p] == t[p];
      DigitsGoOn(t, w, p + 1);
    }
  }

  lemma {:induction false} HexGoesOn(t: Text, w: Text, p: nat, count: nat)
    requires Starts(t, w) && Settled(ScanHex(t, p, count))
    ensures ScanHex(w, p, count) == ScanHex(t, p, count)
    decreases count
  {
    if count > 0 && p < |t| {
      assert w[p] == t[p];
      if IsHexDigit(t[p]) {
        HexGoesOn(t, w, p + 1, count - 1);
      }
    }
  }

  lemma CharGoesOn(t: Text, w: Text, p: nat)
    requires Starts(t, w) && p < |t| && Settled(ScanCharacter(t, p))
    ensures ScanCharacter(w, p) == ScanCharacter(t, p)
  {
    hide ScanHex;
    assert w[p] == t[p];
    if t[p] == BACKSLASH && p + 1 < |t| {
      assert w[p + 1] == t[p + 1];
      if t[p + 1] == LOWER_U {
        HexGoesOn(t, w, p + 2, 4);
      }
    }
  }

  lemma {:induction false} StringGoesOn(t: Text, w: Text, p: nat, escaped: bool)
    requires Starts(t, w) && Settled(ScanString(t, p, escaped))
    ensures ScanString(w, p, escaped) == ScanString(t, p, escaped)
    decreases |t| - p
  {
    hide ScanCharacter;
    assert w[p] == t[p];
    if t[p] != QUOTE {
      CharGoesOn(t, w, p);
      var scan := ScanCharacter(t, p);
      if scan.Found? {
        StringGoesOn(t, w, scan.end, escaped || scan.escaped);
      }
    }
  }

  lemma ExponentGoesOn(t: Text, w: Text, p: nat, complex: bool)
    requires Starts(t, w) && p <= |t| && SettledBefore(ScanExponent(t, p, complex), |t|)
    ensures ScanExponent(w, p, complex) == ScanExponent(t, p, complex)
  {
    assert p < |t| && w[p] == t[p];
    assert p + 1 < |t| ==> w[p + 1] == t[p + 1];
    var q := if IsSign(t[p]) then p + 1 else p;
    if q < |t| {
      DigitsGoOn(t, w, q);
      var end := EndOfDigits(t, q);
      assert end < |t| ==> w[end] == t[end];
    }
  }

  lemma FractionGoesOn(t: Text, w: Text, p: nat, complex: bool)
    requires Starts(t, w) && p <= |t| && SettledBefore(ScanFraction(t, p, complex), |t|)
    ensures ScanFraction(w, p, complex) == ScanFraction(t, p, complex)
  {
    hide ScanExponent;
    assert p < |t| && w[p] == t[p];
    if IsDigit(t[p]) {
      DigitsGoOn(t, w, p);
      var end := EndOfDigits(t, p);
      assert end < |t| ==> w[end] == t[end];
      if AfterDigits(t, end, complex, ExponentMark).None? {
        ExponentGoesOn(t, w, end + 1, complex);
      }
    }
  }

  lemma IntegerGoesOn(t: Text, w: Text, p: nat, complex: bool)
    requires Starts(t, w) && p < |t| && IsDigit(t[p]) && SettledBefore(ScanInteger(t, p, complex), |t|)
    ensures w[p] == t[p] && ScanInteger(w, p, complex) == ScanInteger(t, p, complex)
  {
    hide ScanExponent, ScanFraction;
    DigitsGoOn(t, w, p);
    var end := if t[p] == ZERO then p + 1 else EndOfDigits(t, p);
    assert w[p] == t[p] && (end < |t| ==> w[end] == t[end]);
    if AfterDigits(t, end, complex, PointOrExponent).None? {
      if t[end] == DOT {
        FractionGoesOn(t, w, end + 1, complex);
      } else {
        ExponentGoesOn(t, w, end + 1, complex);
      }
    }
  }

  lemma NumberGoesOn(t: Text, w: Text, p: nat, complex: bool)
    requires Starts(t, w) && p < |t| && (IsDigit(t[p]) || t[p] == MINUS)
    requires SettledBefore(ScanNumber(t, p, complex), |t|)
    ensures w[p] == t[p] && ScanNumber(w, p, complex) == ScanNumber(t, p, complex)
  {
    hide ScanInteger;
    assert w[p] == t[p];
    if t[p] != MINUS {
      IntegerGoesOn(t, w, p, complex);
    } else if p + 1 < |t| {
      assert w[p + 1] == t[p + 1];
      if IsDigit(t[p + 1]) {
        IntegerGoesOn(t, w, p + 1, complex);
      }
    }
  }

  lemma LiteralGoesOn(t: Text, w: Text, p: nat, literal: Text)
    requires Starts(t, w) && p <= |t| && Settled(ScanLiteral(t, p, literal))
    ensures ScanLiteral(w, p, literal) == ScanLiteral(t, p, literal)
  {
    var n := Min(|t| - p, |literal|);
    var m := Min(|w| - p, |literal|);
    assert w[p..p + n] == t[p..p + n];
    assert w[p..p + m][..n] == w[p..p + n] && literal[..m][..n] == literal[..n];
  }

  // ---------------------------------------------------------------- tokens of longer texts

  /** The step did not depend on where the text ends. */
  predicate Decided(r: Step, end: nat) {
    if r.Stop? then r.code.UnexpectedChar? || r.code.NestingOverflow?
    else r.state.kind.NumberToken? ==> r.state.pos < end
  }

  lemma SameSlice(t: Text, w: Text, p: nat, q: nat)
    requires Starts(t, w) && p <= q <= |t|
    ensures w[p..q] == t[p..q]
  {
  }

  lemma StringStepGoesOn(t: Text, w: Text, p: nat, s: State)
    requires Starts(t, w) && p < |t| && t[p] == QUOTE && Decided(StringStep(t, p, s), |t|)
    ensures w[p] == QUOTE && StringStep(w, p, s) == StringStep(t, p, s)
  {
    hide ScanString;
    StringGoesOn(t, w, p + 1, false);
    var scan := ScanString(t, p + 1, false);
    if scan.Found? {
      SameSlice(t, w, p + 1, scan.end);
    }
  }

  lemma NameStepGoesOn(t: Text, w: Text, p: nat, s: State)
    requires Starts(t, w) && p < |t| && t[p] == QUOTE && s.stack != [] && Top(s.stack).Object?
    requires Decided(PropertyNameStep(t, p, s), |t|)
    ensures w[p] == QUOTE && PropertyNameStep(w, p, s) == PropertyNameStep(t, p, s)
  {
    hide StringStep, SkipWhitespace;
    StringKind(t, p, s);
    StringStepGoesOn(t, w, p, s);
    if StringStep(t, p, s).Next? {
      BlankGoesOn(t, w, StringStep(t, p, s).state.pos);
    }
  }

  lemma StringKind(t: Text, p: nat, s: State)
    requires p < |t| && t[p] == QUOTE
    ensures StringStep(t, p, s).Next? ==> StringStep(t, p, s).state.kind.StringToken?
  {
  }

  lemma ValueStepGoesOn(t: Text, w: Text, p: nat, s: State)
    requires Starts(t, w) && p < |t| && Decided(ValueStep(t, p, s), |t|)
    ensures ValueStep(w, p, s) == ValueStep(t, p, s)
  {
    hide ScanNumber, ScanLiteral, StringStep;
    assert w[p] == t[p];
    if t[p] == QUOTE {
      StringStepGoesOn(t, w, p, s);
    } else if IsDigit(t[p]) || t[p] == MINUS {
      NumberGoesOn(t, w, p, s.complex);
      var scan := ScanNumber(t, p, s.complex);
      if scan.Found? {
        SameSlice(t, w, p, scan.end);
      }
    } else if t[p] == 0x66 {
      LiteralGoesOn(t, w, p, FALSE_TEXT);
    } else if t[p] == 0x74 {
      LiteralGoesOn(t, w, p, TRUE_TEXT);
    } else if t[p] == 0x6E {
      LiteralGoesOn(t, w, p, NULL_TEXT);
    }
  }

  lemma AfterCommaGoesOn(t: Text, w: Text, p: nat, s: State)
    requires Starts(t, w) && p <= |t| && s.stack != [] && Decided(AfterComma(t, p, s), |t|)
    ensures AfterComma(w, p, s) == AfterComma(t, p, s)
  {
    hide ValueStep, PropertyNameStep, SkipWhitespace;
    BlankGoesOn(t, w, p);
    var q := SkipWhitespace(t, p);
    assert w[q] == t[q];
    if Top(s.stack).Array? {
      ValueStepGoesOn(t, w, q, s);
    } else if t[q] == QUOTE {
      NameStepGoesOn(t, w, q, s);
    }
  }

  lemma NextGoesOn(t: Text, w: Text, s: State)
    requires Starts(t, w) && s.pos <= |t| && WellFormed(s) && Decided(NextToken(t, s), |t|)
    ensures NextToken(w, s) == NextToken(t, s)
  {
    hide ValueStep, PropertyNameStep, AfterComma, SkipWhitespace;
    BlankGoesOn(t, w, s.pos);
    var p := SkipWhitespace(t, s.pos);
    assert p < |t| && w[p] == t[p];
    match s.kind {
      case BeginObject =>
        if t[p] == QUOTE {
          NameStepGoesOn(t, w, p, s);
        }
      case BeginArray =>
        if t[p] != CLOSE_BRACKET {
          ValueStepGoesOn(t, w, p, s);
        }
      case NoToken => ValueStepGoesOn(t, w, p, s);
      case PropertyName => ValueStepGoesOn(t, w, p, s);
      case _ =>
        if s.stack != [] && t[p] == COMMA {
          AfterCommaGoesOn(t, w, p + 1, s);
        }
    }
  }

  // ---------------------------------------------------------------- runs of longer texts

  lemma EndStops(t: Text, s: State)
    requires s.pos == |t| && WellFormed(s)
    ensures NextToken(t, s).Stop? && !Decided(NextToken(t, s), |t|)
  {
  }

  lemma StepCodes(t: Text, s: State)
    requires s.pos <= |t| && WellFormed(s) && NextToken(t, s).Stop?
    ensures var code := NextToken(t, s).code;
            code.UnexpectedEnd? || code.UnexpectedChar? || code.NestingOverflow? || code.ReaderDone?
  {
    hide NextToken;
    assert Forward(t, s, s.pos, NextToken(t, s)) || NextToken(t, s) == Stop(ReaderDone);
  }

  predicate IsFatal(code: AzResult) {
    code.UnexpectedChar? || code.NestingOverflow?
  }

  /** A run that stops at a byte, or at a container, stops there whatever follows. */
  lemma {:induction false} RunGoesOn(t: Text, w: Text, s: State)
    requires Starts(t, w) && s.pos <= |t| && WellFormed(s) && IsFatal(Run(t, s).1)
    ensures Run(w, s) == Run(t, s)
    decreases |t| - s.pos
  {
    hide NextToken, Starts;
    assert |t| <= |w| by { Longer(t, w); }
    var step := NextToken(t, s);
    if step.Next? {
      if step.state.pos == |t| {
        EndStops(t, step.state);
        StepCodes(t, step.state);
      }
      NextGoesOn(t, w, s);
      RunGoesOn(t, w, step.state);
    } else {
      NextGoesOn(t, w, s);
    }
  }

  lemma Longer(t: Text, w: Text)
    requires Starts(t, w)
    ensures |t| <= |w|
  {
  }

  // ---------------------------------------------------------------- completing scans

  /** The scan ends one byte before the end of the text. */
  predicate EndsBeforeLast(r: Scan, t: Text) {
    r.Found? && r.end == |t| - 1
  }

  lemma {:induction false} CompleteHex(t: Text, p: nat, count: nat) returns (x: Text)
    requires p <= |t| && ScanHex(t, p, count) == Bad(UnexpectedEnd)
    ensures ScanHex(t + x, p, count) == Found(|t + x|, true)
    decreases count
  {
    if p < |t| {
      x := CompleteHex(t, p + 1, count - 1);
      assert (t + x)[p] == t[p];
    } else {
      x := Zeros(t, count);
    }
  }

  lemma {:induction false} Zeros(t: Text, count: nat) returns (x: Text)
    ensures ScanHex(t + x, |t|, count) == Found(|t + x|, true)
    decreases count
  {
    x := [];
    if count > 0 {
      var rest := Zeros(t + [ZERO], count - 1);
      x := [ZERO] + rest;
      assert (t + [ZERO]) + rest == t + x;
      assert (t + x)[|t|] == ZERO;
    }
  }

  lemma CompleteChar(t: Text, p: nat) returns (x: Text)
    requires p < |t| && ScanCharacter(t, p) == Bad(UnexpectedEnd)
    ensures ScanCharacter(t + x, p) == Found(|t + x|, true)
  {
    hide ScanHex;
    if p + 1 < |t| {
      x := CompleteHex(t, p + 2, 4);
      assert (t + x)[p] == t[p] && (t + x)[p + 1] == t[p + 1];
    } else {
      x := [BACKSLASH];
      assert (t + x)[p] == t[p] && (t + x)[p + 1] == BACKSLASH;
    }
  }

  lemma {:induction false} CompleteString(t: Text, p: nat, escaped: bool) returns (x: Text)
    requires p <= |t| && ScanString(t, p, escaped) == Bad(UnexpectedEnd)
    ensures EndsBeforeLast(ScanString(t + x, p, escaped), t + x)
    decreases |t| - p
  {
    hide ScanCharacter;
    x := [QUOTE];
    if p < |t| {
      var scan := ScanCharacter(t, p);
      if scan.Found? {
        x := CompleteString(t, scan.end, escaped || scan.escaped);
        CharGoesOn(t, t + x, p);
      } else {
        var c := CompleteChar(t, p);
        x := c + [QUOTE];
        assert (t + c) + [QUOTE] == t + x;
        CharGoesOn(t + c, t + x, p);
      }
      assert (t + x)[p] == t[p];
    }
  }

  /** A digit unless there is one already, and a space. */
  function NumberRest(t: Text): Text {
    if t != [] && IsDigit(t[|t| - 1]) then [SPACE] else [ZERO, SPACE]
  }

  lemma {:induction false} DigitsEnd(t: Text, p: nat, x: Text)
    requires p <= |t| && EndOfDigits(t, p) == |t| && x == NumberRest(t)
    ensures EndOfDigits(t + x, p) == |t + x| - 1
    decreases |t| - p
  {
    var w := t + x;
    if p < |t| {
      assert w[p] == t[p];
      DigitsEnd(t, p + 1, x);
    } else if |x| == 2 {
      assert w[p] == ZERO && w[p + 1] == SPACE;
      assert EndOfDigits(w, p + 1) == p + 1;
    } else {
      assert w[p] == SPACE;
    }
  }

  lemma LastIsSpace(t: Text, w: Text)
    requires w == t + NumberRest(t)
    ensures |w| > |t| && w[|w| - 1] == SPACE && Starts(t, w)
    ensures w[|t|] == SPACE || w[|t|] == ZERO
    ensures t != [] && !IsDigit(t[|t| - 1]) ==> w[|t|] == ZERO
  {
  }

  lemma CompleteExponent(t: Text, w: Text, p: nat, complex: bool)
    requires w == t + NumberRest(t) && 0 < p <= |t| && !IsDigit(t[p - 1])
    requires ScanExponent(t, p, complex) == Bad(UnexpectedEnd)
    ensures EndsBeforeLast(ScanExponent(w, p, complex), w)
  {
    LastIsSpace(t, w);
    hide NumberRest;
    assert p < |t| ==> w[p] == t[p];
    assert p + 1 < |t| ==> w[p + 1] == t[p + 1];
    var q := if p < |t| && IsSign(t[p]) then p + 1 else p;
    assert EndOfDigits(t, q) == |t|;
    DigitsEnd(t, q, NumberRest(t));
    assert ScanSign(w, p) == Found(q, false);
  }

  lemma SpaceEnds(w: Text, p: nat, complex: bool)
    requires p < |w| && w[p] == SPACE
    ensures ScanAfterFraction(w, p, complex) == ScanAfterInteger(w, p, complex) == Found(p, false)
  {
  }

  lemma CompleteFraction(t: Text, w: Text, p: nat, complex: bool)
    requires w == t + NumberRest(t) && 0 < p <= |t| && !IsDigit(t[p - 1])
    requires ScanFraction(t, p, complex) == Bad(UnexpectedEnd)
    ensures EndsBeforeLast(ScanFraction(w, p, complex), w)
  {
    hide ScanAfterFraction;
    LastIsSpace(t, w);
    assert p < |t| ==> w[p] == t[p];
    var end := EndOfDigits(t, p);
    if end < |t| {
      CompleteAfterFraction(t, w, end, complex);
      DigitsGoOn(t, w, p);
    } else {
      DigitsEnd(t, p, NumberRest(t));
      SpaceEnds(w, |w| - 1, complex);
    }
  }

  lemma CompleteAfterFraction(t: Text, w: Text, p: nat, complex: bool)
    requires w == t + NumberRest(t) && p < |t| && ScanAfterFraction(t, p, complex) == Bad(UnexpectedEnd)
    ensures EndsBeforeLast(ScanAfterFraction(w, p, complex), w)
  {
    hide NumberRest, ScanExponent;
    assert w[p] == t[p];
    CompleteExponent(t, w, p + 1, complex);
  }

  lemma CompleteAfterInteger(t: Text, w: Text, p: nat, complex: bool)
    requires w == t + NumberRest(t) && p < |t| && ScanAfterInteger(t, p, complex) == Bad(UnexpectedEnd)
    ensures EndsBeforeLast(ScanAfterInteger(w, p, complex), w)
  {
    hide NumberRest, ScanExponent, ScanFraction;
    assert w[p] == t[p];
    if t[p] == DOT {
      CompleteFraction(t, w, p + 1, complex);
    } else {
      CompleteExponent(t, w, p + 1, complex);
    }
  }

  lemma CompleteInteger(t: Text, w: Text, p: nat, complex: bool)
    requires w == t + NumberRest(t) && p < |t| && IsDigit(t[p])
    requires ScanInteger(t, p, complex) == Bad(UnexpectedEnd)
    ensures w[p] == t[p] && EndsBeforeLast(ScanInteger(w, p, complex), w)
  {
    hide ScanAfterInteger;
    LastIsSpace(t, w);
    assert w[p] == t[p];
    var end := if t[p] == ZERO then p + 1 else EndOfDigits(t, p);
    if end < |t| {
      CompleteAfterInteger(t, w, end, complex);
      DigitsGoOn(t, w, p);
    } else {
      if t[p] != ZERO {
        DigitsEnd(t, p, NumberRest(t));
      }
      SpaceEnds(w, |w| - 1, complex);
    }
  }

  lemma CompleteNumber(t: Text, p: nat, complex: bool) returns (x: Text)
    requires p < |t| && (IsDigit(t[p]) || t[p] == MINUS) && ScanNumber(t, p, complex) == Bad(UnexpectedEnd)
    ensures (t + x)[p] == t[p] && EndsBeforeLast(ScanNumber(t + x, p, complex), t + x)
    ensures x != [] && x[|x| - 1] == SPACE
  {
    hide ScanInteger;
    x := NumberRest(t);
    var w := t + x;
    assert w[p] == t[p];
    if t[p] != MINUS {
      CompleteInteger(t, w, p, complex);
    } else if p + 1 < |t| {
      assert w[p + 1] == t[p + 1];
      CompleteInteger(t, w, p + 1, complex);
    } else {
      assert t + x == t + [ZERO, SPACE];
      assert w[p + 1] == ZERO && w[p + 2] == SPACE;
      assert ScanInteger(w, p + 1, complex) == Found(p + 2, false) by {
        ZeroEnds(w, p + 1, complex);
      }
    }
  }

  lemma ZeroEnds(w: Text, p: nat, complex: bool)
    requires p + 1 < |w| && w[p] == ZERO && w[p + 1] == SPACE
    ensures ScanInteger(w, p, complex) == Found(p + 1, false)
  {
  }

  lemma CompleteLiteral(t: Text, p: nat, literal: Text) returns (x: Text)
    requires p <= |t| && ScanLiteral(t, p, literal) == Bad(UnexpectedEnd)
    ensures ScanLiteral(t + x, p, literal) == Found(|t + x|, false)
  {
    var n := |t| - p;
    x := literal[n..];
    assert t[p..p + n] == t[p..];
    assert (t + x)[p..] == t[p..] + x == literal[..n] + literal[n..] == literal;
  }

  // ---------------------------------------------------------------- completing tokens

  /** The next token of the text ends it, but for white space, and more text does not change that. */
  ghost predicate EndsText(t: Text, r: Step) {
    r.Next? && Decided(r, |t|) && r.state.pos <= |t| && SkipWhitespace(t, r.state.pos) == |t|
  }

  lemma BlankAtEnd(t: Text)
    ensures SkipWhitespace(t, |t|) == |t|
    ensures t != [] && t[|t| - 1] == SPACE ==> SkipWhitespace(t, |t| - 1) == |t|
  {
  }

  lemma CompleteValue(t: Text, p: nat, s: State) returns (x: Text)
    requires p < |t| && ValueStep(t, p, s) == Stop(UnexpectedEnd)
    ensures (t + x)[p] == t[p] && EndsText(t + x, ValueStep(t + x, p, s))
  {
    hide ScanString, ScanNumber, ScanLiteral, SkipWhitespace;
    if t[p] == QUOTE {
      x := CompleteString(t, p + 1, false);
    } else if IsDigit(t[p]) || t[p] == MINUS {
      x := CompleteNumber(t, p, s.complex);
    } else if t[p] == 0x66 {
      x := CompleteLiteral(t, p, FALSE_TEXT);
    } else if t[p] == 0x74 {
      x := CompleteLiteral(t, p, TRUE_TEXT);
    } else {
      x := CompleteLiteral(t, p, NULL_TEXT);
    }
    BlankAtEnd(t + x);
  }

  lemma CompleteName(t: Text, p: nat, s: State) returns (x: Text)
    requires p < |t| && t[p] == QUOTE && s.stack != [] && Top(s.stack).Object?
    requires PropertyNameStep(t, p, s) == Stop(UnexpectedEnd)
    ensures (t + x)[p] == QUOTE && EndsText(t + x, PropertyNameStep(t + x, p, s))
  {
    hide ScanString;
    var scan := ScanString(t, p + 1, false);
    if scan.Bad? {
      var c := CompleteString(t, p + 1, false);
      x := c + [COLON];
      assert (t + c) + [COLON] == t + x;
      StringGoesOn(t + c, t + x, p + 1, false);
      assert (t + x)[|t + c|] == COLON;
    } else {
      x := [COLON];
      StringGoesOn(t, t + x, p + 1, false);
      BlankBefore(t, scan.end + 1, COLON);
    }
  }

  lemma {:induction false} BlankBefore(t: Text, p: nat, b: Byte)
    requires p <= |t| && SkipWhitespace(t, p) == |t| && !IsWhitespace(b)
    ensures SkipWhitespace(t + [b], p) == |t| && (t + [b])[|t|] == b
    decreases |t| - p
  {
    if p < |t| {
      assert (t + [b])[p] == t[p];
      BlankBefore(t, p + 1, b);
    }
  }

  /** The shortest value and the shortest name. */
  const EMPTY_STRING: Text := [QUOTE, QUOTE]
  const EMPTY_NAME: Text := [QUOTE, QUOTE, COLON]

  lemma BlankBeforeQuote(t: Text, p: nat, x: Text)
    requires p <= |t| && SkipWhitespace(t, p) == |t| && x != [] && x[0] == QUOTE
    ensures SkipWhitespace(t + x, p) == |t| && (t + x)[|t|] == QUOTE
  {
    BlankBefore(t, p, QUOTE);
    assert t + x == (t + [QUOTE]) + x[1..];
    BlankGoesOn(t + [QUOTE], t + x, p);
  }

  lemma EmptyValue(t: Text, s: State)
    ensures var w := t + EMPTY_STRING;
            EndsText(w, ValueStep(w, |t|, s)) && ValueStep(w, |t|, s).state.kind.StringToken?
  {
    var w := t + EMPTY_STRING;
    assert w[|t|] == w[|t| + 1] == QUOTE;
    assert ScanString(w, |t| + 1, false) == Found(|t| + 1, false);
    BlankAtEnd(w);
  }

  lemma EmptyName(t: Text, s: State)
    requires s.stack != [] && Top(s.stack).Object?
    ensures var w := t + EMPTY_NAME;
            |t| < |w| && w[|t|] == QUOTE && EndsText(w, PropertyNameStep(w, |t|, s))
  {
    var w := t + EMPTY_NAME;
    assert w[|t|] == w[|t| + 1] == QUOTE && w[|t| + 2] == COLON;
    assert ScanString(w, |t| + 1, false) == Found(|t| + 1, false);
    assert SkipWhitespace(w, |t| + 2) == |t| + 2;
    BlankAtEnd(w);
  }

  lemma CompleteAfterComma(t: Text, p: nat, s: State) returns (x: Text)
    requires p <= |t| && s.stack != [] && AfterComma(t, p, s) == Stop(UnexpectedEnd)
    ensures EndsText(t + x, AfterComma(t + x, p, s))
  {
    hide ValueStep, PropertyNameStep, EndsText;
    var q := SkipWhitespace(t, p);
    if q == |t| {
      x := if Top(s.stack).Array? then EMPTY_STRING else EMPTY_NAME;
      BlankBeforeQuote(t, p, x);
      if Top(s.stack).Array? {
        EmptyValue(t, s);
      } else {
        EmptyName(t, s);
      }
    } else {
      if Top(s.stack).Array? {
        x := CompleteValue(t, q, s);
      } else {
        x := CompleteName(t, q, s);
      }
      BlankGoesOn(t, t + x, p);
    }
  }

  /** A token that the end of the text cuts off can be completed. */
  lemma CompleteToken(t: Text, s: State) returns (x: Text)
    requires s.pos <= |t| && WellFormed(s) && SkipWhitespace(t, s.pos) < |t|
    requires NextToken(t, s) == Stop(UnexpectedEnd)
    ensures EndsText(t + x, NextToken(t + x, s))
  {
    hide ValueStep, PropertyNameStep, AfterComma, SkipWhitespace, EndsText;
    var p := SkipWhitespace(t, s.pos);
    match s.kind {
      case BeginObject => x := CompleteName(t, p, s);
      case BeginArray => x := CompleteValue(t, p, s);
      case NoToken => x := CompleteValue(t, p, s);
      case PropertyName => x := CompleteValue(t, p, s);
      case _ => x := CompleteAfterComma(t, p + 1, s);
    }
    BlankGoesOn(t, t + x, s.pos);
    assert (t + x)[p] == t[p];
  }

  // ---------------------------------------------------------------- completing texts

  /** If x completes the next token and u what comes after it, both together complete the text. */
  lemma GoesOn(t: Text, x: Text, s: State, u: Text)
    requires s.pos <= |t| && WellFormed(s) && EndsText(t + x, NextToken(t + x, s))
    requires Accepts((t + x) + u, NextToken(t + x, s).state)
    ensures Accepts(t + (x + u), s)
  {
    hide NextToken, SkipWhitespace;
    assert (t + x) + u == t + (x + u);
    NextGoesOn(t + x, t + (x + u), s);
  }

  lemma NextIsValue(t: Text, s: State, p: nat)
    requires s.pos <= |t| && WellFormed(s) && (s.kind.NoToken? || s.kind.PropertyName?)
    requires p == SkipWhitespace(t, s.pos) < |t|
    ensures NextToken(t, s) == ValueStep(t, p, s)
  {
  }

  /** A value can still follow where one is due, and an open container can be closed. */
  lemma {:induction false} Finish(t: Text, s: State) returns (u: Text)
    requires s.pos <= |t| && WellFormed(s) && SkipWhitespace(t, s.pos) == |t|
    ensures Accepts(t + u, s)
    decreases |s.stack|, if s.kind.NoToken? || s.kind.PropertyName? then 1 else 0
  {
    if s.kind.NoToken? || s.kind.PropertyName? {
      EmptyValue(t, s);
      BlankBeforeQuote(t, s.pos, EMPTY_STRING);
      hide Run, NextToken, ValueStep, SkipWhitespace;
      var w := t + EMPTY_STRING;
      NextIsValue(w, s, |t|);
      var rest := Finish(w, NextToken(w, s).state);
      GoesOn(t, EMPTY_STRING, s, rest);
      u := EMPTY_STRING + rest;
    } else if s.stack == [] {
      u := [];
      assert t + u == t;
      assert NextToken(t, s) == Stop(ReaderDone);
    } else {
      var close := [CloseByte(Top(s.stack))];
      BlankBefore(t, s.pos, close[0]);
      var w := t + close;
      BlankAtEnd(w);
      hide Run, SkipWhitespace;
      assert NextToken(w, s) == EndStep(w, |t|, s, Top(s.stack));
      var rest := Finish(w, NextToken(w, s).state);
      GoesOn(t, close, s, rest);
      u := close + rest;
    }
  }

  lemma {:induction false} CompleteRun(t: Text, s: State) returns (u: Text)
    requires s.pos <= |t| && WellFormed(s) && Run(t, s).1.UnexpectedEnd?
    ensures Accepts(t + u, s)
    decreases |t| - s.pos
  {
    hide NextToken, SkipWhitespace;
    var step := NextToken(t, s);
    if step.Next? {
      if !Decided(step, |t|) {
        LastNumber(t, s);
      }
      u := CompleteRun(t, step.state);
      NextGoesOn(t, t + u, s);
    } else if SkipWhitespace(t, s.pos) == |t| {
      u := Finish(t, s);
    } else {
      var x := CompleteToken(t, s);
      var rest := Finish(t + x, NextToken(t + x, s).state);
      GoesOn(t, x, s, rest);
      u := x + rest;
    }
  }

  /** A number at the end of the text is the whole of it. */
  lemma LastNumber(t: Text, s: State)
    requires s.pos <= |t| && WellFormed(s) && NextToken(t, s).Next? && !Decided(NextToken(t, s), |t|)
    ensures Run(t, NextToken(t, s).state).1.ReaderDone?
  {
    var q := ValuePlace(t, s);
    assert NextToken(t, s) == NumberStep(t, q, s) by {
      NumberIsRead(t, q, s);
    }
    var n := NumberScanned(t, q, s.complex);
    hide NextToken, ScanNumber;
    var step := NumberStep(t, q, s);
    assert step.state.stack == [] && step.state.pos == |t|;
    BlankAtEnd(t);
    assert NextToken(t, step.state) == Stop(ReaderDone);
  }

  lemma NumberIsRead(t: Text, q: nat, s: State)
    requires q < |t| && ValueStep(t, q, s).Next? && ValueStep(t, q, s).state.kind.NumberToken?
    ensures (IsDigit(t[q]) || t[q] == MINUS) && ValueStep(t, q, s) == NumberStep(t, q, s)
  {
    hide ScanNumber, ScanString, ScanLiteral;
  }

  // ---------------------------------------------------------------- the theorem

  /** A text that is not JSON stops the reader with UNEXPECTED_END if and only if it can be continued to a
      JSON text. */
  lemma EndsExactlyIfContinuable(t: Text)
    ensures Run(t, INITIAL).1.UnexpectedEnd? <==> !IsJson(t) && exists u :: IsJson(t + u)
  {
    hide Run, IsJson;
    AcceptsExactlyJson(t);
    if Run(t, INITIAL).1.UnexpectedEnd? {
      var u := CompleteRun(t, INITIAL);
      AcceptsExactlyJson(t + u);
    }
    if u :| !IsJson(t) && IsJson(t + u) {
      AcceptsExactlyJson(t + u);
      RunCodes(t, INITIAL);
      if IsFatal(Run(t, INITIAL).1) {
        RunGoesOn(t, t + u, INITIAL);
      }
    }
  }

  lemma {:induction false} RunCodes(t: Text, s: State)
    requires s.pos <= |t| && WellFormed(s)
    ensures var code := Run(t, s).1; code.ReaderDone? || code.UnexpectedEnd? || IsFatal(code)
    decreases |t| - s.pos
  {
    hide NextToken;
    if NextToken(t, s).Next? {
      RunCodes(t, NextToken(t, s).state);
    } else {
      StepCodes(t, s);
    }
  }
}
