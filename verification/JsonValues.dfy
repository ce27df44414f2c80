/** What a caller gets who reads a JSON text token by token and asks for the value of each, however the
    text is split over buffers, and that it is what was written. */
module JsonValues {
  import opened Bytes
  import opened Segments
  import opened ReaderSpec
  import opened JsonToken
  import opened JsonStrings
  import opened JsonTokenValue
  import opened JsonTokenNumber
  import opened JsonReading
  import opened WriterSpec
  import Decimal
  import JsonRoundTrip

  /** The answers of the accessors for one token: its text, whether it is the text that was looked for,
      and its value as a 32-bit number. */
  datatype Reading = Reading(kind: TokenKind, text: Option<Text>, matches: bool, number: Option<int>)

  ghost function TextOf(token: Token): Option<Text> {
    if token.kind.StringToken? || token.kind.PropertyName? then Unescape(token.bytes, false) else None
  }

  ghost function NumberOf(token: Token): Option<int> {
    if token.kind.NumberToken? then Decimal.SignedMeaning(token.bytes, Decimal.INT32_MAX) else None
  }

  /** The answers that the token's bytes call for, if there is room for "capacity" bytes of text with the
      terminating zero. */
  ghost function MeaningOf(token: Token, wanted: Text, capacity: nat): Reading {
    var text := TextOf(token);
    Reading(
      token.kind,
      if text.Some? && |text.value| < capacity then text else None,
      text == Some(wanted),
      NumberOf(token))
  }

  /** az_json_token_get_string and az_json_token_is_text_equal, which agree. */
  method ReadText(token: JsonToken, wanted: Text, buffer: array<Byte>, ghost spec: Token)
    returns (text: Option<Text>, matches: bool)
    requires token.Represents(spec) && Ready(spec) && buffer.Length >= 1
    modifies buffer
    ensures var value := TextOf(spec);
            && text == (if value.Some? && |value.value| < buffer.Length then value else None)
            && (matches <==> value == Some(wanted))
    ensures text.Some? ==> (matches <==> text.value == wanted)
  {
    AccessorsAreReady(token, spec);
    hide Unescape, WellEscaped, JsonToken.Content, IsNumber;
    var result, length := GetString(token, buffer, buffer.Length);
    text := if result.Ok? then Some(buffer[..length]) else None;
    matches := IsTextEqual(token, wanted);
  }

  /** az_json_token_get_int32 */
  method ReadNumber(token: JsonToken, ghost spec: Token) returns (number: Option<int>)
    requires token.Represents(spec) && Ready(spec)
    ensures number == NumberOf(spec)
  {
    AccessorsAreReady(token, spec);
    ScratchBuffersSuffice();
    hide Decimal.SignedMeaning, Decimal.Pow10, JsonToken.Content, IsNumber, WellEscaped;
    var result, value := GetSigned(token, Decimal.INT32_MAX, Decimal.MAX_SIZE_FOR_INT32);
    number := if result.Ok? then Some(value) else None;
  }

  /** All the answers for one token. */
  method ReadToken(token: JsonToken, wanted: Text, buffer: array<Byte>, ghost spec: Token) returns (reading: Reading)
    requires token.Represents(spec) && Ready(spec) && buffer.Length >= 1
    modifies buffer
    ensures reading == MeaningOf(spec, wanted, buffer.Length)
    ensures reading.text.Some? ==> (reading.matches <==> reading.text.value == wanted)
  {
    assert token.kind == spec.kind;
    hide TextOf, NumberOf, JsonToken.Represents, Ready;
    var text, matches := ReadText(token, wanted, buffer, spec);
    var number := ReadNumber(token, spec);
    reading := Reading(token.kind, text, matches, number);
  }

  ghost predicate Means(readings: seq<Reading>, tokens: seq<Token>, wanted: Text, capacity: nat) {
    |readings| == |tokens| && forall i :: 0 <= i < |tokens| ==> readings[i] == MeaningOf(tokens[i], wanted, capacity)
  }

  /** Reads a text to its end and the value of each of its tokens; neither depends on how the text is
      split over buffers. */
  method ReadValues(buffers: seq<Text>, wanted: Text, capacity: nat) returns (r: AzResult, readings: seq<Reading>)
    requires |buffers| >= 1 && forall k :: 0 <= k < |buffers| ==> buffers[k] != []
    requires capacity >= 1
    ensures r == Run(Flatten(buffers), INITIAL).1
    ensures Means(readings, Run(Flatten(buffers), INITIAL).0, wanted, capacity)
  {
    hide Flatten, Run, JsonToken.Represents, Ready, MeaningOf;
    var tokens;
    r, tokens := ReadTokens(buffers);
    ghost var specs := Run(Flatten(buffers), INITIAL).0;
    TokensAreReady(Flatten(buffers), INITIAL);
    var buffer := new Byte[capacity];
    readings := [];
    for i := 0 to |tokens|
      invariant |readings| == i && forall j :: 0 <= j < i ==> readings[j] == MeaningOf(specs[j], wanted, capacity)
    {
      var reading := ReadToken(tokens[i], wanted, buffer, specs[i]);
      readings := readings + [reading];
    }
  }

  // ---------------------------------------------------------------- what was written

  /** What a reader should get for an append. */
  ghost function ReadingOf(e: Append, wanted: Text, capacity: nat): Reading {
    match e
    case Name(text) => TextReading(PropertyName, text, wanted, capacity)
    case Str(text) => TextReading(StringToken, text, wanted, capacity)
    case Int32(v) => Reading(NumberToken, None, false, Some(v))
    case _ => Reading(KindOf(e), None, false, None)
  }

  /** A text reads back if none of its bytes needs a \u escape and there is room for it. */
  ghost function TextReading(kind: TokenKind, text: Text, wanted: Text, capacity: nat): Reading {
    Reading(kind, if AllReadable(text) && |text| < capacity then Some(text) else None,
            AllReadable(text) && text == wanted, None)
  }

  lemma AppendMeans(w: Progress, e: Append, wanted: Text, capacity: nat)
    requires CanAppend(w, e)
    ensures MeaningOf(JsonRoundTrip.TokenOf(e), wanted, capacity) == ReadingOf(e, wanted, capacity)
  {
    hide Unescape, Escape, Decimal.SignedMeaning, Decimal.SignedDigits, AllReadable;
    match e {
      case Name(text) => JsonRoundTrip.TextReadsBack(text);
      case Str(text) => JsonRoundTrip.TextReadsBack(text);
      case Int32(v) => JsonRoundTrip.NumberReadsBack(v);
      case _ =>
    }
  }

  lemma {:induction false} RunMeans(w: Progress, run: seq<Append>, wanted: Text, capacity: nat)
    requires ValidRun(w, run)
    ensures |JsonRoundTrip.TokensOf(run)| == |run|
    ensures forall i :: 0 <= i < |run| ==>
              MeaningOf(JsonRoundTrip.TokensOf(run)[i], wanted, capacity) == ReadingOf(run[i], wanted, capacity)
    decreases |run|
  {
    hide MeaningOf, ReadingOf, CanAppend, Advance, Overflows;
    if run != [] {
      AppendMeans(w, run[0], wanted, capacity);
      RunMeans(Advance(w, run[0]), run[1..], wanted, capacity);
    }
  }

  /** A text that a run of appends has written, split anywhere, reads back as what was appended: the same
      numbers, and the same strings and names as far as their bytes need no \u escape. */
  method ReadBack(buffers: seq<Text>, wanted: Text, capacity: nat, ghost run: seq<Append>)
    returns (r: AzResult, readings: seq<Reading>)
    requires |buffers| >= 1 && forall k :: 0 <= k < |buffers| ==> buffers[k] != []
    requires capacity >= 1 && run != [] && ValidRun(BLANK, run) && After(BLANK, run).stack == []
    requires Flatten(buffers) == Written(BLANK, run)
    ensures r.ReaderDone? && |readings| == |run|
    ensures forall i :: 0 <= i < |run| ==> readings[i] == ReadingOf(run[i], wanted, capacity)
  {
    hide Flatten, Run, MeaningOf, ReadingOf, ValidRun, Written, After;
    JsonRoundTrip.ReadsBackWhatWasWritten(run);
    RunMeans(BLANK, run, wanted, capacity);
    r, readings := ReadValues(buffers, wanted, capacity);
  }
}
