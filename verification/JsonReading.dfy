/** Whole runs of the reader: reading any split of a text until the reader stops. */
module JsonReading {
  import opened Bytes
  import opened Segments
  import opened ReaderSpec
  import opened JsonToken
  import opened JsonReader
  import opened JsonGrammar
  import opened JsonAcceptance

  /** The tokens that the reader hands out are those of the contiguous reader. */
  ghost predicate Represent(tokens: seq<JsonToken>, specs: seq<Token>) {
    |tokens| == |specs| && forall i :: 0 <= i < |tokens| ==> tokens[i].Represents(specs[i])
  }

  lemma RepresentNone()
    ensures Represent([], [])
  {
  }

  lemma RepresentMore(tokens: seq<JsonToken>, specs: seq<Token>, token: JsonToken, spec: Token)
    requires Represent(tokens, specs) && token.Represents(spec)
    ensures Represent(tokens + [token], specs + [spec])
  {
  }

  /** What remains of a run after one more token. */
  lemma RunStep(t: Text, s: State, before: seq<Token>)
    requires s.pos <= |t| && WellFormed(s)
    ensures var step := NextToken(t, s);
            if step.Stop? then before + Run(t, s).0 == before && Run(t, s).1 == step.code
            else before + Run(t, s).0 == (before + [step.token]) + Run(t, step.state).0
                 && Run(t, s).1 == Run(t, step.state).1
  {
    hide NextToken;
  }

  /** az_json_reader_next_token until it does not return OK, over discontiguous buffers. Neither the
      result nor the tokens depend on how the text is split: they are those of the contiguous text. */
  method ReadTokens(buffers: seq<Text>) returns (r: AzResult, tokens: seq<JsonToken>)
    requires |buffers| >= 1 && forall k :: 0 <= k < |buffers| ==> buffers[k] != []
    ensures Represent(tokens, Run(Flatten(buffers), INITIAL).0)
    ensures r == Run(Flatten(buffers), INITIAL).1
    ensures r.ReaderDone? <==> IsJson(Flatten(buffers))
  {
    hide NextToken, Flatten, Run, Represent, JsonToken.Represents;
    var reader := new JsonReader(buffers);
    ghost var text := reader.allText;
    AcceptsExactlyJson(text);
    ghost var run, specs := Run(text, INITIAL), [];
    tokens := [];
    RepresentNone();
    r := Ok;
    while r.Ok?
      invariant reader.Valid() && fresh(reader) && fresh(reader.bitStack) && reader.allText == text
      invariant Represent(tokens, specs)
      invariant run.0 == if r.Ok? then specs + Run(text, reader.CurrentState()).0 else specs
      invariant run.1 == if r.Ok? then Run(text, reader.CurrentState()).1 else r
      decreases if r.Ok? then |text| - reader.Position() + 1 else 0
    {
      ghost var goal := NextToken(text, reader.CurrentState());
      RunStep(text, reader.CurrentState(), specs);
      r := reader.NextToken();
      if r.Ok? {
        RepresentMore(tokens, specs, reader.token, goal.token);
        tokens, specs := tokens + [reader.token], specs + [goal.token];
      }
    }
  }

  // ---------------------------------------------------------------- validation

  lemma FirstKind(t: Text)
    requires NextToken(t, INITIAL).Next?
    ensures var kind := NextToken(t, INITIAL).token.kind;
            !kind.NoToken? && !kind.EndArray? && !kind.EndObject? && !kind.PropertyName?
  {
  }

  /** _az_validate_json: reads the whole text, and accepts exactly the JSON texts. */
  method ValidateJson(jsonText: Text) returns (r: AzResult, first: TokenKind, last: TokenKind)
    requires |jsonText| >= 1
    ensures r.Ok? <==> IsJson(jsonText)
    ensures !r.Ok? ==> IsScanError(r) || r.NestingOverflow?
    ensures r.Ok? ==> !first.NoToken? && !first.EndArray? && !first.EndObject? && !first.PropertyName?
    ensures r.Ok? ==> !last.NoToken? && !IsBegin(last) && !last.PropertyName?
  {
    hide NextToken;
    first, last := NoToken, NoToken;
    var reader := new JsonReader([jsonText]);
    FlattenOne(jsonText);
    AcceptsExactlyJson(jsonText);
    RunStep(jsonText, INITIAL, []);
    r := reader.NextToken();
    if !r.Ok? {
      return;
    }
    FirstKind(jsonText);
    first := reader.token.kind;
    while r.Ok?
      invariant reader.Valid() && fresh(reader) && fresh(reader.bitStack) && reader.allText == jsonText
      invariant r.Ok? || r.ReaderDone? || IsScanError(r) || r.NestingOverflow?
      invariant r.Ok? || r.ReaderDone? ==> !reader.token.kind.NoToken?
      invariant Run(jsonText, INITIAL).1 == if r.Ok? then Run(jsonText, reader.CurrentState()).1 else r
      invariant r.ReaderDone? ==> reader.CurrentState().stack == []
      decreases if r.Ok? then |jsonText| - reader.Position() + 1 else 0
    {
      RunStep(jsonText, reader.CurrentState(), []);
      r := reader.NextToken();
    }
    if !r.ReaderDone? {
      return;
    }
    last := reader.token.kind;
    r := Ok;
  }
}
