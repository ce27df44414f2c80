/** Reading back what the writer wrote. */
module JsonRoundTrip {
  import opened Bytes
  import opened BitStack
  import opened ReaderSpec
  import opened JsonGrammar
  import opened WriterSpec
  import JsonAcceptance
  import JsonStrings
  import Decimal

  // ---------------------------------------------------------------- the states of writer and reader

  predicate StartsItem(kind: TokenKind) {
    kind.NoToken? || kind.BeginObject? || kind.BeginArray? || kind.PropertyName?
  }

  /** What holds of the writer after any run: in particular a comma is due exactly after a value. */
  ghost predicate Sensible(w: Progress) {
    && |w.stack| <= MAX_DEPTH
    && (w.needComma <==> !StartsItem(w.kind))
    && (w.kind.NoToken? ==> w.stack == [])
    && (w.kind.BeginObject? || w.kind.PropertyName? ==> w.stack != [] && Top(w.stack).Object?)
    && (w.kind.BeginArray? ==> w.stack != [] && Top(w.stack).Array?)
  }

  lemma StaysSensible(w: Progress, e: Append)
    requires Sensible(w) && CanAppend(w, e) && !Overflows(w, e)
    ensures Sensible(Advance(w, e))
  {
  }

  /** The reader where the writer was with p bytes written. */
  ghost function ReaderAt(w: Progress, p: nat): State {
    State(p, w.kind, w.stack, w.stack != [] || w.kind.EndObject? || w.kind.EndArray?)
  }

  /** The token that an append is read back as. */
  ghost function TokenOf(e: Append): Token {
    match e
    case Name(name) => TextToken(PropertyName, name)
    case Str(text) => TextToken(StringToken, text)
    case _ => Token(KindOf(e), Body(e), false)
  }

  ghost function TextToken(kind: TokenKind, s: Text): Token {
    Token(kind, JsonStrings.Escape(s), BACKSLASH in JsonStrings.Escape(s))
  }

  // ---------------------------------------------------------------- strings

  /** How the grammar sees the writer's spelling of a byte. */
  ghost function CharOf(b: Byte): StringChar {
    if JsonStrings.EscapeLetter(b).Some? then Escape(JsonStrings.EscapeLetter(b).value)
    else if b < SPACE then Unicode(ZERO, ZERO, JsonStrings.UpperHex(b / 16), JsonStrings.UpperHex(b % 16))
    else Plain(b)
  }

  ghost function CharsOf(s: Text): seq<StringChar> {
    if s == [] then [] else [CharOf(s[0])] + CharsOf(s[1..])
  }

  lemma CharIsValid(b: Byte)
    ensures ValidChar(CharOf(b)) && SpellChar(CharOf(b)) == JsonStrings.EscapeByte(b)
    ensures BACKSLASH in JsonStrings.EscapeByte(b) <==> !CharOf(b).Plain?
  {
    var w := JsonStrings.EscapeByte(b);
    assert |w| > 1 ==> w[0] == BACKSLASH;
  }

  lemma {:induction false} CharsAreValid(s: Text)
    ensures ValidChars(CharsOf(s)) && SpellChars(CharsOf(s)) == JsonStrings.Escape(s)
    ensures HasEscape(CharsOf(s)) <==> BACKSLASH in JsonStrings.Escape(s)
  {
    hide CharOf, ValidChar, SpellChar, JsonStrings.EscapeByte;
    if s != [] {
      CharIsValid(s[0]);
      CharsAreValid(s[1..]);
      EscapeInChars(CharOf(s[0]), CharsOf(s[1..]));
      assert CharsOf(s)[1..] == CharsOf(s[1..]);
    }
  }

  lemma StringRead(t: Text, q: nat, text: Text)
    requires Has(t, q, Quoted(text))
    ensures q < |t| && t[q] == QUOTE
    ensures var end := q + 1 + |JsonStrings.Escape(text)|;
            && end < |t| && t[q + 1..end] == JsonStrings.Escape(text)
            && ScanString(t, q + 1, false) == Found(end, BACKSLASH in JsonStrings.Escape(text))
  {
    var w := JsonStrings.Escape(text);
    assert Quoted(text) == [QUOTE] + (w + [QUOTE]);
    HasBoth(t, q, [QUOTE], w + [QUOTE]);
    HasOne(t, q, QUOTE);
    HasBoth(t, q + 1, w, [QUOTE]);
    SliceOfWord(t, q + 1, w);
    CharsAreValid(text);
    ScansChars(t, q + 1, CharsOf(text), false);
  }

  // ---------------------------------------------------------------- numbers

  ghost function PartsOf(v: int): NumberParts {
    NumberParts(v < 0, Decimal.Digits(if v < 0 then -v else v), [], [], [], [])
  }

  lemma PartsAreValid(v: int)
    ensures ValidNumber(PartsOf(v)) && SpellNumber(PartsOf(v)) == Decimal.SignedDigits(v)
    ensures !BareExponent(PartsOf(v))
  {
    var n := PartsOf(v);
    assert SpellExponent(n) == [];
    assert SpellUnsigned(n) == n.integer;
  }

  // ---------------------------------------------------------------- one append

  /** The reader can tell where the append's text ends; only a number needs what follows for that. */
  ghost predicate Ends(t: Text, end: nat, w: Progress, e: Append) {
    e.Int32? ==> if end < |t| then IsDelimiter(t[end]) else end == |t| && w.stack == [] && w.kind.NoToken?
  }

  lemma LiteralRead(t: Text, q: nat, w: Text)
    requires Has(t, q, w) && w != []
    ensures q < |t| && t[q] == w[0] && ScanLiteral(t, q, w) == Found(q + |w|, false)
  {
    assert t[q + 0] == w[0];
    assert t[q..][..|w|] == w;
  }

  lemma StringValueRead(t: Text, q: nat, w: Progress, e: Append, s: State)
    requires Sensible(w) && CanAppend(w, e) && e.Str? && Has(t, q, Body(e)) && s == ReaderAt(w, s.pos)
    ensures q < |t| && t[q] == QUOTE
    ensures StringStep(t, q, s) == Next(ReaderAt(Advance(w, e), q + |Body(e)|), TokenOf(e))
  {
    hide Has, ScanString;
    StringRead(t, q, e.text);
  }

  lemma NumberValueRead(t: Text, q: nat, w: Progress, e: Append, s: State)
    requires Sensible(w) && CanAppend(w, e) && e.Int32? && Has(t, q, Body(e)) && s == ReaderAt(w, s.pos)
    requires Ends(t, q + |Body(e)|, w, e)
    ensures q < |t| && (IsDigit(t[q]) || t[q] == MINUS)
    ensures NumberStep(t, q, s) == Next(ReaderAt(Advance(w, e), q + |Body(e)|), TokenOf(e))
  {
    hide Has, ScanNumber, SpellNumber, Decimal.SignedDigits;
    PartsAreValid(e.number);
    ScansNumber(t, q, PartsOf(e.number), s.complex);
    SliceOfWord(t, q, Body(e));
  }

  lemma ValueRead(t: Text, q: nat, w: Progress, e: Append, s: State)
    requires Sensible(w) && CanAppend(w, e) && CanAppendValue(w) && !e.Close? && !e.Name? && !Overflows(w, e)
    requires Has(t, q, Body(e)) && Ends(t, q + |Body(e)|, w, e)
    requires s == ReaderAt(w, s.pos)
    ensures q < |t| && !IsWhitespace(t[q]) && t[q] != CLOSE_BRACKET
    ensures ValueStep(t, q, s) == Next(ReaderAt(Advance(w, e), q + |Body(e)|), TokenOf(e))
  {
    hide StringStep, NumberStep, ScanLiteral, Has, Decimal.SignedDigits, Quoted;
    match e {
      case Open(item) => HasOne(t, q, OpenByte(item));
      case Str(_) => StringValueRead(t, q, w, e, s);
      case Lit(kind) => LiteralRead(t, q, LiteralText(kind));
      case Int32(_) => NumberValueRead(t, q, w, e, s);
    }
  }

  lemma NameRead(t: Text, q: nat, w: Progress, e: Append, s: State)
    requires Sensible(w) && CanAppend(w, e) && e.Name? && Has(t, q, Body(e))
    requires s == ReaderAt(w, s.pos)
    ensures q < |t| && t[q] == QUOTE
    ensures PropertyNameStep(t, q, s) == Next(ReaderAt(Advance(w, e), q + |Body(e)|), TokenOf(e))
  {
    hide Has, ScanString;
    HasBoth(t, q, Quoted(e.name), [COLON]);
    HasOne(t, q + |Quoted(e.name)|, COLON);
    StringRead(t, q, e.name);
  }

  lemma CloseRead(t: Text, q: nat, w: Progress, e: Append, s: State)
    requires Sensible(w) && CanAppend(w, e) && e.Close? && Has(t, q, Body(e))
    requires s == ReaderAt(w, s.pos)
    ensures q < |t| && t[q] == CloseByte(e.item)
    ensures EndStep(t, q, s, e.item) == Next(ReaderAt(Advance(w, e), q + |Body(e)|), TokenOf(e))
  {
    HasOne(t, q, CloseByte(e.item));
  }

  /** The reader's next token after the text of one append is that append. */
  lemma AppendRead(t: Text, p: nat, w: Progress, e: Append)
    requires Sensible(w) && CanAppend(w, e) && !Overflows(w, e)
    requires Has(t, p, Emit(w, e)) && Ends(t, p + |Emit(w, e)|, w, e)
    ensures p + |Emit(w, e)| <= |t|
    ensures NextToken(t, ReaderAt(w, p)) == Next(ReaderAt(Advance(w, e), p + |Emit(w, e)|), TokenOf(e))
  {
    hide ScanString, ScanNumber, ScanLiteral, Body, ValueStep, PropertyNameStep, EndStep, Has, Advance, TokenOf;
    var s := ReaderAt(w, p);
    if e.Close? {
      assert Emit(w, e) == Body(e);
      CloseRead(t, p, w, e, s);
    } else {
      HasBoth(t, p, Comma(w.needComma), Body(e));
      var q := p + |Comma(w.needComma)|;
      if w.needComma {
        HasOne(t, p, COMMA);
      }
      if e.Name? {
        NameRead(t, q, w, e, s);
      } else {
        ValueRead(t, q, w, e, s);
      }
    }
  }

  // ---------------------------------------------------------------- whole runs

  ghost function TokensOf(run: seq<Append>): seq<Token> {
    if run == [] then [] else [TokenOf(run[0])] + TokensOf(run[1..])
  }

  /** A number inside a container is followed by a delimiter. */
  lemma NextDelimits(t: Text, q: nat, w: Progress, f: Append)
    requires Sensible(w) && w.needComma && CanAppend(w, f) && Has(t, q, Emit(w, f))
    ensures q < |t| && IsDelimiter(t[q])
  {
    hide Has, Quoted, Decimal.SignedDigits;
    if f.Close? {
      assert Emit(w, f) == [CloseByte(f.item)];
      HasOne(t, q, CloseByte(f.item));
    } else {
      HasBoth(t, q, Comma(w.needComma), Body(f));
      HasOne(t, q, COMMA);
    }
  }

  /** Every append but the last is followed by the text of the next. */
  lemma NextEnds(t: Text, p: nat, w: Progress, run: seq<Append>)
    requires Sensible(w) && run != [] && ValidRun(w, run) && After(w, run).stack == []
    requires Has(t, p, Written(w, run)) && p + |Written(w, run)| == |t|
    ensures Ends(t, p + |Emit(w, run[0])|, w, run[0])
  {
    hide Has, Emit, IsDelimiter;
    var e, rest := run[0], run[1..];
    var w' := Advance(w, e);
    HasBoth(t, p, Emit(w, e), Written(w', rest));
    if e.Int32? && rest != [] {
      var q := p + |Emit(w, e)|;
      StaysSensible(w, e);
      HasBoth(t, q, Emit(w', rest[0]), Written(Advance(w', rest[0]), rest[1..]));
      NextDelimits(t, q, w', rest[0]);
    }
  }

  lemma {:induction false} RunReads(t: Text, p: nat, w: Progress, run: seq<Append>)
    requires Sensible(w) && ValidRun(w, run) && After(w, run).stack == [] && !After(w, run).kind.NoToken?
    requires Has(t, p, Written(w, run)) && p + |Written(w, run)| == |t|
    ensures Run(t, ReaderAt(w, p)) == (TokensOf(run), ReaderDone)
    decreases |run|
  {
    hide Has, Emit, CanAppend, Overflows, Advance, TokenOf, NextToken;
    if run == [] {
      NothingLeft(t, w);
    } else {
      var e := run[0];
      NextEnds(t, p, w, run);
      HasBoth(t, p, Emit(w, e), Written(Advance(w, e), run[1..]));
      AppendRead(t, p, w, e);
      StaysSensible(w, e);
      RunReads(t, p + |Emit(w, e)|, Advance(w, e), run[1..]);
    }
  }

  lemma NothingLeft(t: Text, w: Progress)
    requires Sensible(w) && w.stack == [] && !w.kind.NoToken?
    ensures NextToken(t, ReaderAt(w, |t|)) == Stop(ReaderDone)
  {
  }

  /** Any run of successful appends that leaves no container open writes a text that is JSON and that
      the reader tokenises into exactly the appended tokens. */
  lemma ReadsBackWhatWasWritten(run: seq<Append>)
    requires run != [] && ValidRun(BLANK, run) && After(BLANK, run).stack == []
    ensures Run(Written(BLANK, run), INITIAL) == (TokensOf(run), ReaderDone)
    ensures IsJson(Written(BLANK, run))
  {
    hide Run;
    var t := Written(BLANK, run);
    KindAfter(BLANK, run);
    RunReads(t, 0, BLANK, run);
    JsonAcceptance.AcceptsExactlyJson(t);
  }

  lemma {:induction false} KindAfter(w: Progress, run: seq<Append>)
    requires run != [] && ValidRun(w, run) && Sensible(w)
    ensures !After(w, run).kind.NoToken?
    decreases |run|
  {
    StaysSensible(w, run[0]);
    assert !Advance(w, run[0]).kind.NoToken?;
    if run[1..] != [] {
      KindAfter(Advance(w, run[0]), run[1..]);
    }
  }

  /** Any 32-bit number reads back as it was. */
  lemma NumberReadsBack(v: int)
    requires -Decimal.INT32_MAX - 1 <= v <= Decimal.INT32_MAX
    ensures Decimal.SignedMeaning(TokenOf(Int32(v)).bytes, Decimal.INT32_MAX) == Some(v)
  {
    Decimal.SignedRoundTrip(v, Decimal.INT32_MAX);
  }

  /** A string or a name reads back as it was exactly when its only bytes below the space are those
      with an escape of their own, and not at all otherwise. */
  lemma TextReadsBack(text: Text)
    ensures JsonStrings.Unescape(TokenOf(Str(text)).bytes, false) ==
            if JsonStrings.AllReadable(text) then Some(text) else None
    ensures TokenOf(Name(text)).bytes == TokenOf(Str(text)).bytes
  {
    JsonStrings.EscapeRoundTrip(text);
  }
}
