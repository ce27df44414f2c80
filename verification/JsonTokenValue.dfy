/** Comparing and copying the value of a token that may straddle buffers (az_json_token.c). */
module JsonTokenValue {
  import opened Bytes
  import opened Segments
  import opened JsonToken
  import opened JsonStrings

  /** The part of the token that buffer i holds. */
  function Piece(token: JsonToken, i: int): Text
    requires token.WellFormed() && token.isMultisegment
    requires token.startBufferIndex <= i <= token.endBufferIndex
  {
    if i == token.startBufferIndex then token.buffers[i][token.startBufferOffset..]
    else if i == token.endBufferIndex then token.buffers[i][..token.endBufferOffset]
    else token.buffers[i]
  }

  ghost function AllPieces(token: JsonToken): seq<Text>
    requires token.WellFormed() && token.isMultisegment
  {
    Pieces(token.buffers, token.startBufferIndex, token.startBufferOffset, token.endBufferIndex, token.endBufferOffset)
  }

  /** What the buffers from i on hold of the token. */
  ghost function From(token: JsonToken, i: int): Text
    requires token.WellFormed() && token.isMultisegment
    requires token.startBufferIndex <= i <= token.endBufferIndex + 1
  {
    Flatten(AllPieces(token)[i - token.startBufferIndex..])
  }

  lemma {:induction false} FlattenHead(first: Text, rest: seq<Text>)
    ensures Flatten([first] + rest) == first + Flatten(rest)
    decreases |rest|
  {
    hide Flatten;
    if rest == [] {
      FlattenNone();
      FlattenOne(first);
      assert [first] + rest == [first];
    } else {
      var front, last := rest[..|rest| - 1], rest[|rest| - 1];
      FlattenHead(first, front);
      FlattenLast(front, last);
      FlattenLast([first] + front, last);
      assert rest == front + [last] && [first] + rest == ([first] + front) + [last];
      assert (first + Flatten(front)) + last == first + (Flatten(front) + last);
    }
  }

  lemma FlattenFirst(pieces: seq<Text>)
    requires pieces != []
    ensures Flatten(pieces) == pieces[0] + Flatten(pieces[1..])
  {
    assert pieces == [pieces[0]] + pieces[1..];
    FlattenHead(pieces[0], pieces[1..]);
  }

  lemma FromStart(token: JsonToken)
    requires token.WellFormed() && token.isMultisegment
    ensures From(token, token.startBufferIndex) == token.Content()
    ensures From(token, token.endBufferIndex + 1) == []
  {
    hide Flatten;
    assert AllPieces(token)[0..] == AllPieces(token);
    assert AllPieces(token)[|AllPieces(token)|..] == [];
    FlattenNone();
  }

  lemma FromNext(token: JsonToken, i: int)
    requires token.WellFormed() && token.isMultisegment
    requires token.startBufferIndex <= i <= token.endBufferIndex
    ensures From(token, i) == Piece(token, i) + From(token, i + 1)
  {
    hide Flatten;
    var k := i - token.startBufferIndex;
    var pieces := AllPieces(token);
    assert pieces[k] == Piece(token, i);
    assert pieces[k..][1..] == pieces[k + 1..];
    FlattenFirst(pieces[k..]);
  }

  // ---------------------------------------------------------------- comparing

  /** What the helpers of is_text_equal and get_string read at the next byte of a piece: a byte of the
      value, a \u escape, or a backslash at the end of the piece. */
  datatype Character = Value(b: Byte) | NotSupported | Unfinished

  method ReadCharacter(piece: Text, tokenIdx: nat, nextCharEscaped: bool, ghost rest: Text)
    returns (c: Character, tokenIdx': nat)
    requires tokenIdx < |piece|
    ensures tokenIdx <= tokenIdx' <= |piece|
    ensures var u := Unescape(piece[tokenIdx..] + rest, nextCharEscaped);
            match c
            case Value(b) => tokenIdx < tokenIdx' && u == Prepend([b], Unescape(piece[tokenIdx'..] + rest, false))
            case NotSupported => u == None
            case Unfinished => u == Unescape(rest, true) && !nextCharEscaped && tokenIdx' == |piece|
    ensures c.Value? ==> (WellEscaped(piece[tokenIdx..] + rest, nextCharEscaped) <==>
                          WellEscaped(piece[tokenIdx'..] + rest, false))
    ensures c.Unfinished? ==> (WellEscaped(piece[tokenIdx..] + rest, nextCharEscaped) <==> WellEscaped(rest, true))
  {
    hide Unescape, WellEscaped;
    tokenIdx' := tokenIdx;
    var tokenByte := piece[tokenIdx'];
    UnescapeStep(piece[tokenIdx'..], rest, nextCharEscaped);
    WellEscapedStep(piece[tokenIdx'..], rest, nextCharEscaped);
    assert piece[tokenIdx'..][1..] == piece[tokenIdx' + 1..];
    if tokenByte == BACKSLASH || nextCharEscaped {
      if nextCharEscaped {
        tokenByte := UnescapeByte(tokenByte);
      } else {
        tokenIdx' := tokenIdx' + 1;
        if tokenIdx' >= |piece| {
          assert piece[tokenIdx'..] + rest == rest;
          return Unfinished, tokenIdx';
        }
        UnescapeStep(piece[tokenIdx'..], rest, true);
        WellEscapedStep(piece[tokenIdx'..], rest, true);
        assert piece[tokenIdx'..][1..] == piece[tokenIdx' + 1..];
        tokenByte := UnescapeByte(piece[tokenIdx']);
      }
      if tokenByte == LOWER_U {
        return NotSupported, tokenIdx';
      }
    }
    return Value(tokenByte), tokenIdx' + 1;
  }

  /** _az_json_token_is_text_equal_helper: compares one piece. The caller tells by "remaining" whether
      the comparison is decided, which it is when the result is false and nothing remains. */
  method IsPieceEqual(piece: Text, expected: Text, nextCharEscaped: bool, ghost rest: Text)
    returns (r: bool, remaining: Text, nextCharEscaped': bool)
    requires nextCharEscaped ==> expected != []
    ensures nextCharEscaped' ==> remaining != []
    ensures r ==> remaining == []
    ensures !r && remaining == [] ==> Unescape(piece + rest, nextCharEscaped) != Some(expected)
    ensures r || remaining != [] ==>
              (Unescape(piece + rest, nextCharEscaped) == Some(expected) <==>
               Unescape(rest, nextCharEscaped') == Some(remaining))
  {
    hide Unescape;
    ghost var goal := Unescape(piece + rest, nextCharEscaped) == Some(expected);
    nextCharEscaped' := nextCharEscaped;
    var tokenIdx := 0;
    var i := 0;
    assert piece[0..] == piece && expected[0..] == expected;
    while i < |expected|
      invariant 0 <= i <= |expected| && 0 <= tokenIdx <= |piece|
      invariant nextCharEscaped' ==> i < |expected|
      invariant goal <==> Unescape(piece[tokenIdx..] + rest, nextCharEscaped') == Some(expected[i..])
    {
      if tokenIdx >= |piece| {
        assert piece[tokenIdx..] + rest == rest;
        return false, expected[i..], nextCharEscaped';
      }
      var c;
      c, tokenIdx := ReadCharacter(piece, tokenIdx, nextCharEscaped', rest);
      if c.Unfinished? {
        return false, expected[i..], true;
      }
      nextCharEscaped' := false;
      if c.NotSupported? {
        return false, [], nextCharEscaped';
      }
      PrependOne(c.b, Unescape(piece[tokenIdx..] + rest, false), expected[i..]);
      if c.b != expected[i] {
        return false, [], nextCharEscaped';
      }
      assert expected[i..][1..] == expected[i + 1..];
      i := i + 1;
    }
    remaining := [];
    r := tokenIdx == |piece|;
    assert expected[i..] == [];
    if r {
      assert piece[tokenIdx..] + rest == rest;
    } else {
      NotEmpty(piece[tokenIdx..] + rest, nextCharEscaped');
    }
  }

  lemma NotEmpty(raw: Text, pending: bool)
    requires raw != []
    ensures Unescape(raw, pending) != Some([])
  {
    UnescapedSize(raw, pending);
  }

  /** A string token as the reader produces it: size and flag are those of the text. */
  ghost predicate StringReady(token: JsonToken) {
    && token.WellFormed()
    && token.size == |token.Content()|
    && (token.stringHasEscapedChars <==> BACKSLASH in token.Content())
  }

  predicate IsString(token: JsonToken) {
    token.kind.StringToken? || token.kind.PropertyName?
  }

  /** The loop of az_json_token_is_text_equal over the pieces of a token without escapes. */
  method ArePiecesEqual(token: JsonToken, expectedText: Text) returns (r: bool)
    requires token.WellFormed() && token.isMultisegment
    ensures r <==> token.Content() == expectedText
  {
    hide Flatten;
    FromStart(token);
    var expected := expectedText;
    var i := token.startBufferIndex;
    while i <= token.endBufferIndex
      invariant token.startBufferIndex <= i <= token.endBufferIndex + 1
      invariant token.Content() == expectedText <==> From(token, i) == expected
    {
      FromNext(token, i);
      var source := Piece(token, i);
      Peel(source, From(token, i + 1), expected);
      if |expected| < |source| || source != expected[..|source|] {
        return false;
      }
      expected := expected[|source|..];
      i := i + 1;
    }
    return |expected| == 0;
  }

  lemma Peel(first: Text, rest: Text, whole: Text)
    ensures first + rest == whole <==> |first| <= |whole| && first == whole[..|first|] && rest == whole[|first|..]
  {
    if first + rest == whole {
      assert whole[..|first|] == first && whole[|first|..] == rest;
    } else if |first| <= |whole| {
      assert whole == whole[..|first|] + whole[|first|..];
    }
  }

  /** The loop of az_json_token_is_text_equal over the pieces of a token with escapes. */
  method AreEscapedPiecesEqual(token: JsonToken, expectedText: Text) returns (r: bool)
    requires token.WellFormed() && token.isMultisegment
    ensures r <==> Unescape(token.Content(), false) == Some(expectedText)
  {
    hide Flatten;
    FromStart(token);
    var expected := expectedText;
    var nextCharEscaped := false;
    var i := token.startBufferIndex;
    while i <= token.endBufferIndex
      invariant token.startBufferIndex <= i <= token.endBufferIndex + 1
      invariant nextCharEscaped ==> expected != []
      invariant Unescape(token.Content(), false) == Some(expectedText) <==>
                Unescape(From(token, i), nextCharEscaped) == Some(expected)
    {
      FromNext(token, i);
      var equal;
      equal, expected, nextCharEscaped :=
        IsPieceEqual(Piece(token, i), expected, nextCharEscaped, From(token, i + 1));
      if !equal && |expected| == 0 {
        return false;
      }
      i := i + 1;
    }
    return |expected| == 0;
  }

  /** az_json_token_is_text_equal: true exactly when the token unescapes to the expected text. */
  method IsTextEqual(token: JsonToken, expectedText: Text) returns (r: bool)
    requires IsString(token) ==> StringReady(token)
    ensures !IsString(token) ==> !r
    ensures IsString(token) ==> (r <==> Unescape(token.Content(), false) == Some(expectedText))
  {
    hide Flatten;
    if !IsString(token) {
      return false;
    }
    if !token.stringHasEscapedChars {
      UnescapePlain(token.Content());
      if !token.isMultisegment {
        return token.slice == expectedText;
      }
      r := ArePiecesEqual(token, expectedText);
      return;
    }
    UnescapedSize(token.Content(), false);
    if token.size < |expectedText| || token.size / 6 > |expectedText| {
      return false;
    }
    if token.isMultisegment {
      r := AreEscapedPiecesEqual(token, expectedText);
    } else {
      var remaining, pending;
      assert token.slice + [] == token.slice;
      r, remaining, pending := IsPieceEqual(token.slice, expectedText, false, []);
    }
  }

  // ---------------------------------------------------------------- copying

  /** az_span_copy into a buffer from index "at" on. */
  method CopyPiece(destination: array<Byte>, at: nat, source: Text) returns (end: nat)
    requires at + |source| <= destination.Length
    modifies destination
    ensures end == at + |source|
    ensures destination[..end] == old(destination[..at]) + source
  {
    end := at + |source|;
    for i := 0 to |source|
      invariant forall k :: 0 <= k < at ==> destination[k] == old(destination[k])
      invariant forall k :: 0 <= k < i ==> destination[at + k] == source[k]
    {
      destination[at + i] := source[i];
    }
  }

  /** _az_json_token_copy_into_span_helper */
  method CopyIntoSpan(token: JsonToken, destination: array<Byte>) returns (end: nat)
    requires token.WellFormed() && token.isMultisegment && token.size == |token.Content()| <= destination.Length
    modifies destination
    ensures end == token.size && destination[..end] == token.Content()
  {
    hide Flatten;
    FromStart(token);
    end := 0;
    if token.size == 0 {
      assert destination[..0] == token.Content();
      return;
    }
    var i := token.startBufferIndex;
    while i <= token.endBufferIndex
      invariant token.startBufferIndex <= i <= token.endBufferIndex + 1
      invariant end <= destination.Length
      invariant destination[..end] + From(token, i) == token.Content()
    {
      FromNext(token, i);
      var source := Piece(token, i);
      ghost var before := destination[..end];
      assert before + (source + From(token, i + 1)) == before + source + From(token, i + 1);
      end := CopyPiece(destination, end, source);
      i := i + 1;
    }
  }

  /** _az_json_token_get_string_helper, for one piece. "produced" is the value written so far. */
  method GetPiece(source: Text, destination: array<Byte>, max: nat, destIdx: nat, nextCharEscaped: bool,
                  ghost rest: Text, ghost produced: Text)
    returns (r: AzResult, destIdx': nat, nextCharEscaped': bool)
    requires max <= destination.Length && destIdx <= max && produced == destination[..destIdx]
    modifies destination
    ensures destIdx' <= max
    ensures var goal := Prepend(produced, Unescape(source + rest, nextCharEscaped));
            match r
            case Ok => goal == Prepend(destination[..destIdx'], Unescape(rest, nextCharEscaped'))
            case NotImplemented => goal == None
            case NotEnoughSpace => goal.Some? ==> |goal.value| > max
            case _ => false
    ensures r.Ok? ==> (WellEscaped(source + rest, nextCharEscaped) <==> WellEscaped(rest, nextCharEscaped'))
  {
    hide Unescape, WellEscaped;
    destIdx', nextCharEscaped' := destIdx, nextCharEscaped;
    ghost var goal := Prepend(produced, Unescape(source + rest, nextCharEscaped));
    var i := 0;
    assert source[0..] == source;
    while i < |source|
      invariant 0 <= i <= |source| && destIdx' <= max
      invariant goal == Prepend(destination[..destIdx'], Unescape(source[i..] + rest, nextCharEscaped'))
      invariant WellEscaped(source + rest, nextCharEscaped) <==> WellEscaped(source[i..] + rest, nextCharEscaped')
    {
      if destIdx' >= max {
        NotEmpty(source[i..] + rest, nextCharEscaped');
        return NotEnoughSpace, destIdx', nextCharEscaped';
      }
      var c;
      c, i := ReadCharacter(source, i, nextCharEscaped', rest);
      if c.Unfinished? {
        return Ok, destIdx', true;
      }
      nextCharEscaped' := false;
      if c.NotSupported? {
        return NotImplemented, destIdx', nextCharEscaped';
      }
      PrependTwice(destination[..destIdx'], [c.b], Unescape(source[i..] + rest, false));
      ghost var before := destination[..destIdx'];
      destination[destIdx'] := c.b;
      assert destination[..destIdx' + 1] == before + [c.b];
      destIdx' := destIdx' + 1;
    }
    assert source[i..] + rest == rest;
    r := Ok;
  }

  /** The loop of az_json_token_get_string over the pieces of a token with escapes. */
  method GetEscapedPieces(token: JsonToken, destination: array<Byte>, max: nat)
    returns (r: AzResult, destIdx: nat, ghost pending: bool)
    requires token.WellFormed() && token.isMultisegment && max <= destination.Length
    modifies destination
    ensures destIdx <= max
    ensures var goal := Unescape(token.Content(), false);
            match r
            case Ok => goal == Prepend(destination[..destIdx], Unescape([], pending))
            case NotImplemented => goal == None
            case NotEnoughSpace => goal.Some? ==> |goal.value| > max
            case _ => false
    ensures r.Ok? ==> (WellEscaped(token.Content(), false) <==> WellEscaped([], pending))
  {
    hide Flatten, Unescape, WellEscaped;
    FromStart(token);
    ghost var goal := Unescape(token.Content(), false);
    PrependNothing(destination[..0], goal);
    destIdx, r := 0, Ok;
    var nextCharEscaped := false;
    var i := token.startBufferIndex;
    while i <= token.endBufferIndex
      invariant token.startBufferIndex <= i <= token.endBufferIndex + 1 && destIdx <= max && r.Ok?
      invariant goal == Prepend(destination[..destIdx], Unescape(From(token, i), nextCharEscaped))
      invariant WellEscaped(token.Content(), false) <==> WellEscaped(From(token, i), nextCharEscaped)
    {
      FromNext(token, i);
      r, destIdx, nextCharEscaped := GetPiece(Piece(token, i), destination, max, destIdx, nextCharEscaped,
                                              From(token, i + 1), destination[..destIdx]);
      if !r.Ok? {
        return r, destIdx, nextCharEscaped;
      }
      i := i + 1;
    }
    pending := nextCharEscaped;
  }

  lemma PrependNothing(none: Text, rest: Option<Text>)
    requires none == []
    ensures Prepend(none, rest) == rest
  {
    if rest.Some? {
      assert none + rest.value == rest.value;
    }
  }

  /** How az_json_token_get_string ends: it succeeds exactly when the token unescapes and the value and
      a terminating zero fit. */
  ghost predicate StringCopied(value: Option<Text>, destination: Text, max: nat, r: AzResult, length: nat)
    requires max <= |destination|
  {
    && (r.Ok? <==> value.Some? && |value.value| < max)
    && (r.Ok? ==> length == |value.value| && destination[..length] == value.value && destination[length] == 0)
    && (r.NotImplemented? ==> value.None?)
    && (r.Ok? || r.NotEnoughSpace? || r.NotImplemented?)
  }

  /** az_json_token_get_string, the branch for a token without escapes. */
  method GetPlainString(token: JsonToken, destination: array<Byte>, max: nat) returns (r: AzResult, length: nat)
    requires StringReady(token) && !token.stringHasEscapedChars && 1 <= max <= destination.Length
    modifies destination
    ensures StringCopied(Some(token.Content()), destination[..], max, r, length)
  {
    hide Flatten;
    length := 0;
    if token.size >= max {
      return NotEnoughSpace, length;
    }
    if token.isMultisegment {
      length := CopyIntoSpan(token, destination);
    } else {
      length := CopyPiece(destination, 0, token.slice);
    }
    destination[length] := 0;
    r := Ok;
  }

  /** az_json_token_get_string, the branch for a token with escapes. */
  method GetEscapedString(token: JsonToken, destination: array<Byte>, max: nat) returns (r: AzResult, length: nat)
    requires StringReady(token) && WellEscaped(token.Content(), false) && 1 <= max <= destination.Length
    modifies destination
    ensures StringCopied(Unescape(token.Content(), false), destination[..], max, r, length)
  {
    hide Flatten;
    ghost var goal, pending := Unescape(token.Content(), false), false;
    length := 0;
    UnescapedSize(token.Content(), false);
    if token.size / 6 >= max {
      return NotEnoughSpace, length;
    }
    if token.isMultisegment {
      r, length, pending := GetEscapedPieces(token, destination, max);
    } else {
      PrependNothing(destination[..0], goal);
      assert token.slice + [] == token.slice;
      r, length, pending := GetPiece(token.slice, destination, max, 0, false, [], destination[..0]);
    }
    if !r.Ok? {
      return;
    }
    assert destination[..length] + [] == destination[..length];
    if length >= max {
      return NotEnoughSpace, length;
    }
    destination[length] := 0;
  }

  /** az_json_token_get_string: "max" is the space for the value and its terminating zero. */
  method GetString(token: JsonToken, destination: array<Byte>, max: nat) returns (r: AzResult, length: nat)
    requires IsString(token) ==> StringReady(token) && WellEscaped(token.Content(), false)
    requires 1 <= max <= destination.Length
    modifies destination
    ensures !IsString(token) ==> r.InvalidState?
    ensures IsString(token) ==> StringCopied(Unescape(token.Content(), false), destination[..], max, r, length)
  {
    hide Flatten, Unescape, WellEscaped;
    if !IsString(token) {
      return InvalidState, 0;
    }
    if !token.stringHasEscapedChars {
      UnescapePlain(token.Content());
      r, length := GetPlainString(token, destination, max);
    } else {
      r, length := GetEscapedString(token, destination, max);
    }
  }
}
