/** The streaming reader over one buffer or over discontiguous buffers (az_json_reader.c), proved
    against the contiguous reader of ReaderSpec on the text that the buffers spell. */
module JsonReader {
  import opened Bytes
  import opened BitStack
  import opened Segments
  import opened ReaderSpec
  import opened JsonToken

  class JsonReader {
    var token: JsonToken
    var jsonBuffer: Text
    const jsonBuffers: seq<Text>
    var bufferIndex: int
    var bytesConsumed: int
    var totalBytesConsumed: int
    var isComplexJson: bool
    const bitStack: JsonStack

    /** The text that the buffers spell, and where each buffer starts in it. */
    ghost const allText: Text
    ghost const starts: seq<nat>

    ghost predicate InBounds()
      reads this
    {
      && LaidOver(allText, jsonBuffers, starts)
      && 0 <= bufferIndex < |jsonBuffers|
      && jsonBuffer == jsonBuffers[bufferIndex]
      && 0 <= bytesConsumed <= |jsonBuffer|
      && token.buffers == jsonBuffers
    }

    ghost function Position(): (p: nat)
      requires InBounds()
      reads this
      ensures p <= |allText|
    {
      starts[bufferIndex] + bytesConsumed
    }

    ghost function CurrentState(): State
      requires InBounds() && bitStack.Valid()
      reads this, bitStack
    {
      State(Position(), token.kind, bitStack.Contents(), isComplexJson)
    }

    ghost predicate NoEmptyBuffer() {
      forall k :: 0 <= k < |jsonBuffers| ==> jsonBuffers[k] != []
    }

    ghost predicate Valid()
      reads this, bitStack
    {
      && InBounds()
      && NoEmptyBuffer()
      && bitStack.Valid()
      && WellFormed(CurrentState())
    }

    /** az_json_reader_chunked_init; with a single buffer, az_json_reader_init. Empty segments are
        not allowed. */
    constructor (buffers: seq<Text>)
      requires |buffers| >= 1 && forall k :: 0 <= k < |buffers| ==> buffers[k] != []
      ensures Valid() && jsonBuffers == buffers && allText == Flatten(buffers) && CurrentState() == INITIAL
      ensures fresh(bitStack)
    {
      token := EmptyToken(buffers);
      jsonBuffer := buffers[0];
      jsonBuffers := buffers;
      bufferIndex := 0;
      bytesConsumed := 0;
      totalBytesConsumed := 0;
      isComplexJson := false;
      bitStack := new JsonStack();
      allText := Flatten(buffers);
      starts := Offsets(buffers);
    }

    // -------------------------------------------------------------- moving over the buffers

    /** A stretch of the current buffer reads the same in the text. */
    lemma BufferStretch(a: nat, b: nat)
      requires InBounds() && a <= b <= |jsonBuffer|
      ensures starts[bufferIndex] + b <= |allText|
      ensures allText[starts[bufferIndex] + a..starts[bufferIndex] + b] == jsonBuffer[a..b]
    {
      StretchOfSegment(allText, jsonBuffers, starts, bufferIndex, a, b);
    }

    /** The byte "current" places after the current position. */
    lemma ByteAt(current: nat)
      requires InBounds() && bytesConsumed + current < |jsonBuffer|
      ensures Position() + current < |allText|
      ensures allText[Position() + current] == jsonBuffer[bytesConsumed + current]
    {
      BufferStretch(bytesConsumed + current, bytesConsumed + current + 1);
      assert allText[Position() + current..Position() + current + 1][0] == jsonBuffer[bytesConsumed + current];
    }

    /** The token being scanned starts at text position "start". */
    ghost predicate Scanning(start: nat)
      requires InBounds()
      reads this
    {
      if token.startBufferIndex == -1 then
        Position() == start
      else
        && 0 <= token.startBufferIndex < bufferIndex
        && 0 <= token.startBufferOffset <= |jsonBuffers[token.startBufferIndex]|
        && starts[token.startBufferIndex] + token.startBufferOffset == start
        && bytesConsumed == 0
    }

    /** A local index, counted from the current position, that stands at text position "head" of the
        token being scanned. The source's local spans always are the rest of the current buffer, so
        only their index is kept. */
    ghost predicate ScanningAt(start: nat, current: nat, head: nat)
      requires InBounds()
      reads this
    {
      && Scanning(start)
      && bytesConsumed + current <= |jsonBuffer|
      && start <= head == Position() + current <= |allText|
    }

    /** _az_json_reader_get_next_buffer */
    method GetNextBuffer(skipWhitespace: bool) returns (r: AzResult)
      requires InBounds()
      modifies this`token, this`bufferIndex, this`jsonBuffer, this`bytesConsumed
      ensures InBounds()
      ensures r == if old(bufferIndex) < |jsonBuffers| - 1 && jsonBuffers[old(bufferIndex) + 1] != []
                   then Ok else UnexpectedEnd
      ensures if old(bufferIndex) == |jsonBuffers| - 1 then
                bufferIndex == old(bufferIndex) && bytesConsumed == old(bytesConsumed) && token == old(token)
              else
                && bufferIndex == old(bufferIndex) + 1 && bytesConsumed == 0
                && token == if skipWhitespace || old(token).startBufferIndex != -1 then old(token)
                            else old(token).(startBufferIndex := old(bufferIndex),
                                             startBufferOffset := old(bytesConsumed))
    {
      if bufferIndex >= |jsonBuffers| - 1 {
        return UnexpectedEnd;
      }
      if !skipWhitespace && token.startBufferIndex == -1 {
        token := token.(startBufferIndex := bufferIndex, startBufferOffset := bytesConsumed);
      }
      bufferIndex := bufferIndex + 1;
      jsonBuffer := jsonBuffers[bufferIndex];
      bytesConsumed := 0;
      if |jsonBuffer| - bytesConsumed < 1 {
        return UnexpectedEnd;
      }
      return Ok;
    }

    /** The step repeated throughout scanning: at the end of the current buffer, go on with the next
        one. */
    method Refill(current: nat, ghost start: nat, ghost head: nat) returns (r: AzResult, current': nat)
      requires InBounds() && NoEmptyBuffer() && ScanningAt(start, current, head)
      modifies this`token, this`bufferIndex, this`jsonBuffer, this`bytesConsumed
      ensures InBounds() && ScanningAt(start, current', head)
      ensures token.kind == old(token.kind) && token.stringHasEscapedChars == old(token.stringHasEscapedChars)
      ensures r.Ok? ==> bytesConsumed + current' < |jsonBuffer| && head < |allText|
      ensures r.Ok? ==> allText[head] == jsonBuffer[bytesConsumed + current']
      ensures !r.Ok? ==> r.UnexpectedEnd? && head == |allText| && current' == current
    {
      if current >= |jsonBuffer| - bytesConsumed {
        r := GetNextBuffer(false);
        current' := if r.Ok? then 0 else current;
        if !r.Ok? {
          return;
        }
      } else {
        r, current' := Ok, current;
      }
      ByteAt(current');
    }

    /** One round of skipping: trims the white space at the current position of the buffer. */
    method TrimCurrent()
      requires InBounds()
      modifies this`bytesConsumed, this`totalBytesConsumed
      ensures InBounds() && old(bytesConsumed) <= bytesConsumed
      ensures SkipWhitespace(allText, old(Position())) == SkipWhitespace(allText, Position())
      ensures bytesConsumed < |jsonBuffer| ==> !IsWhitespace(jsonBuffer[bytesConsumed])
    {
      var consumed := TrimWhitespaceFromStart(jsonBuffer[bytesConsumed..]);
      BufferStretch(bytesConsumed, bytesConsumed + consumed);
      assert jsonBuffer[bytesConsumed..][..consumed] == jsonBuffer[bytesConsumed..bytesConsumed + consumed];
      SkipAcross(allText, Position(), Position() + consumed, jsonBuffer[bytesConsumed..bytesConsumed + consumed]);
      bytesConsumed := bytesConsumed + consumed;
      totalBytesConsumed := totalBytesConsumed + consumed;
    }

    /** _az_json_reader_skip_whitespace: tells whether any text is left. */
    method SkipBlanks() returns (more: bool)
      requires InBounds() && NoEmptyBuffer()
      modifies this`token, this`bufferIndex, this`jsonBuffer, this`bytesConsumed, this`totalBytesConsumed
      ensures InBounds() && token == old(token)
      ensures Position() == SkipWhitespace(allText, old(Position()))
      ensures more <==> Position() < |allText|
      ensures more ==> bytesConsumed < |jsonBuffer| && allText[Position()] == jsonBuffer[bytesConsumed]
    {
      ghost var goal := SkipWhitespace(allText, Position());
      while true
        invariant InBounds() && token == old(token)
        invariant SkipWhitespace(allText, Position()) == goal
        decreases |jsonBuffers| - bufferIndex
      {
        TrimCurrent();
        if bytesConsumed < |jsonBuffer| {
          ByteAt(0);
          return true;
        }
        var r := GetNextBuffer(true);
        if !r.Ok? {
          return false;
        }
      }
    }

    // -------------------------------------------------------------- token bookkeeping

    /** _az_json_reader_update_state */
    method UpdateState(kind: TokenKind, segmentConsumed: nat, consumed: nat, ghost start: nat)
      requires InBounds() && ScanningAt(start, segmentConsumed, start + consumed)
      modifies this`token, this`bytesConsumed, this`totalBytesConsumed
      ensures InBounds() && Position() == start + consumed
      ensures bytesConsumed == old(bytesConsumed) + segmentConsumed
      ensures TokenSpans(kind, start, start + consumed)
      ensures token.stringHasEscapedChars == old(token.stringHasEscapedChars)
    {
      BufferStretch(bytesConsumed, bytesConsumed + segmentConsumed);
      var slice := jsonBuffer[bytesConsumed..bytesConsumed + segmentConsumed];
      token := token.(kind := kind, size := consumed);
      bytesConsumed := bytesConsumed + segmentConsumed;
      totalBytesConsumed := totalBytesConsumed + consumed;
      token := token.(endBufferIndex := bufferIndex, endBufferOffset := bytesConsumed);
      token := token.(isMultisegment := false);
      var startIndex := token.startBufferIndex;
      if startIndex != -1 && startIndex < token.endBufferIndex {
        token := token.(isMultisegment := true);
      }
      token := token.(slice := slice);
    }

    /** The current token is the stretch of the text from "start" to "end". */
    ghost predicate TokenSpans(kind: TokenKind, start: nat, end: nat)
      requires InBounds() && start <= end <= |allText|
      reads this
    {
      && token.kind == kind
      && token.size == end - start
      && token.WellFormed()
      && if token.isMultisegment then
           && starts[token.startBufferIndex] + token.startBufferOffset == start
           && starts[token.endBufferIndex] + token.endBufferOffset == end
         else token.slice == allText[start..end]
    }

    lemma SpanRepresents(kind: TokenKind, start: nat, end: nat, escaped: bool)
      requires InBounds() && start <= end <= |allText| && TokenSpans(kind, start, end)
      requires kind.StringToken? || kind.PropertyName? ==> escaped == token.stringHasEscapedChars
      ensures token.Represents(Token(kind, allText[start..end], escaped))
    {
      if token.isMultisegment {
        StretchOfText(allText, jsonBuffers, starts, token.startBufferIndex, token.startBufferOffset,
                      token.endBufferIndex, token.endBufferOffset);
      }
    }

    // -------------------------------------------------------------- strings

    /** The four hex digits of an escape. On success the local index is past the last of them. */
    method ProcessHexDigits(current: nat, ghost start: nat, ghost head: nat)
      returns (r: AzResult, current': nat)
      requires InBounds() && NoEmptyBuffer() && ScanningAt(start, current, head)
      modifies this`token, this`bufferIndex, this`jsonBuffer, this`bytesConsumed
      ensures InBounds() && token.kind == old(token.kind)
      ensures token.stringHasEscapedChars == old(token.stringHasEscapedChars)
      ensures match ScanHex(allText, head, 4)
              case Bad(code) => r == code && !r.Ok?
              case Found(_, _) => r.Ok? && ScanningAt(start, current', head + 4) && 1 <= current'
    {
      current' := current;
      for i := 0 to 4
        invariant InBounds() && ScanningAt(start, current', head + i)
        invariant token.kind == old(token.kind)
        invariant token.stringHasEscapedChars == old(token.stringHasEscapedChars)
        invariant ScanHex(allText, head, 4) == ScanHex(allText, head + i, 4 - i)
        invariant i > 0 ==> 1 <= current'
      {
        r, current' := Refill(current', start, head + i);
        if !r.Ok? {
          return;
        }
        var nextByte := jsonBuffer[bytesConsumed + current'];
        current' := current' + 1;
        if !IsHexDigit(nextByte) {
          return UnexpectedChar, current';
        }
      }
      r := Ok;
    }

    /** The escape branch of the string loop: on success the index is at the escape's last byte. */
    method ProcessEscape(current: nat, stringLength: nat, ghost start: nat, ghost head: nat)
      returns (r: AzResult, current': nat, stringLength': nat)
      requires InBounds() && NoEmptyBuffer() && ScanningAt(start, current, head)
      requires bytesConsumed + current < |jsonBuffer|
      modifies this`token, this`bufferIndex, this`jsonBuffer, this`bytesConsumed
      ensures InBounds() && token.kind == old(token.kind)
      ensures match ScanEscape(allText, head + 1)
              case Bad(code) => r == code && !r.Ok?
              case Found(end, _) =>
                && r.Ok? && token.stringHasEscapedChars
                && ScanningAt(start, current', end - 1) && bytesConsumed + current' < |jsonBuffer|
                && stringLength' == stringLength + (end - 1 - head)
    {
      token := token.(stringHasEscapedChars := true);
      stringLength' := stringLength + 1;
      r, current' := Refill(current + 1, start, head + 1);
      if !r.Ok? {
        return;
      }
      var nextByte := jsonBuffer[bytesConsumed + current'];
      if nextByte == LOWER_U {
        r, current' := ProcessHexDigits(current' + 1, start, head + 2);
        if r.Ok? {
          stringLength' := stringLength' + 5 - 1;
          current' := current' - 1;
        }
      } else if !IsEscapable(nextByte) {
        r := UnexpectedChar;
      }
    }

    /** The body of the string loop, for one character that is not the closing quote. The index ends
        up at the next character, in the next buffer if need be. */
    method ProcessCharacter(current: nat, stringLength: nat, ghost start: nat, ghost head: nat)
      returns (r: AzResult, current': nat, stringLength': nat)
      requires InBounds() && NoEmptyBuffer() && ScanningAt(start, current, head)
      requires bytesConsumed + current < |jsonBuffer|
      requires head < |allText| && allText[head] == jsonBuffer[bytesConsumed + current] != QUOTE
      modifies this`token, this`bufferIndex, this`jsonBuffer, this`bytesConsumed
      ensures InBounds() && token.kind == old(token.kind)
      ensures match ScanCharacter(allText, head)
              case Bad(code) => r == code && !r.Ok?
              case Found(end, escape) =>
                if end == |allText| then r.UnexpectedEnd? else
                  && r.Ok? && token.stringHasEscapedChars == (old(token.stringHasEscapedChars) || escape)
                  && ScanningAt(start, current', end) && bytesConsumed + current' < |jsonBuffer|
                  && allText[end] == jsonBuffer[bytesConsumed + current']
                  && stringLength' == stringLength + (end - head)
    {
      current', stringLength' := current, stringLength;
      var nextByte := jsonBuffer[bytesConsumed + current];
      ghost var last := head;
      if nextByte == BACKSLASH {
        r, current', stringLength' := ProcessEscape(current, stringLength, start, head);
        if !r.Ok? {
          return;
        }
        last := ScanEscape(allText, head + 1).end - 1;
      } else if nextByte < SPACE {
        return UnexpectedChar, current', stringLength';
      }
      stringLength' := stringLength' + 1;
      r, current' := Refill(current' + 1, start, last + 1);
    }

    /** The loop over the inside of a string, up to the closing quote. */
    method ProcessStringContent(current: nat, ghost start: nat) returns (r: AzResult, current': nat, stringLength: nat)
      requires InBounds() && NoEmptyBuffer() && ScanningAt(start, current, start)
      requires bytesConsumed + current < |jsonBuffer|
      requires start < |allText| && allText[start] == jsonBuffer[bytesConsumed + current]
      modifies this`token, this`bufferIndex, this`jsonBuffer, this`bytesConsumed
      ensures InBounds() && token.kind == old(token.kind)
      ensures match ScanString(allText, start, old(token.stringHasEscapedChars))
              case Bad(code) => r == code && !r.Ok?
              case Found(end, escaped) =>
                && r.Ok? && token.stringHasEscapedChars == escaped && stringLength == end - start
                && ScanningAt(start, current', end) && bytesConsumed + current' < |jsonBuffer|
    {
      r, current', stringLength := Ok, current, 0;
      ghost var head := start;
      while jsonBuffer[bytesConsumed + current'] != QUOTE
        invariant InBounds() && token.kind == old(token.kind) && r.Ok?
        invariant ScanningAt(start, current', head) && head < |allText| && stringLength == head - start
        invariant bytesConsumed + current' < |jsonBuffer|
        invariant allText[head] == jsonBuffer[bytesConsumed + current']
        invariant ScanString(allText, head, token.stringHasEscapedChars)
               == ScanString(allText, start, old(token.stringHasEscapedChars))
        decreases |allText| - head
      {
        ghost var next := ScanCharacter(allText, head);
        r, current', stringLength := ProcessCharacter(current', stringLength, start, head);
        if !r.Ok? {
          return;
        }
        head := next.end;
      }
    }

    /** _az_json_reader_process_string */
    method ProcessString(ghost start: nat) returns (r: AzResult)
      requires InBounds() && NoEmptyBuffer() && token.startBufferIndex == -1
      requires bytesConsumed < |jsonBuffer| && start == Position() + 1
      modifies this`token, this`bufferIndex, this`jsonBuffer, this`bytesConsumed, this`totalBytesConsumed
      ensures InBounds()
      ensures match ScanString(allText, start, false)
              case Bad(code) => r == code && !r.Ok? && token.kind == old(token.kind)
              case Found(end, escaped) =>
                && r.Ok? && Position() == end + 1 && TokenSpans(StringToken, start, end)
                && token.stringHasEscapedChars == escaped
    {
      assert start >= |allText| ==> ScanString(allText, start, false) == Bad(UnexpectedEnd);
      hide ScanString, Flatten, TokenSpans;
      bytesConsumed := bytesConsumed + 1;
      var current, stringLength;
      r, current := Refill(0, start, start);
      if !r.Ok? {
        return;
      }
      token := token.(stringHasEscapedChars := false);
      assert ScanningAt(start, current, start);
      hide ScanningAt;
      r, current, stringLength := ProcessStringContent(current, start);
      if !r.Ok? {
        return;
      }
      EndString(current, stringLength, start);
    }

    /** At the closing quote, which the token leaves out. */
    method EndString(current: nat, stringLength: nat, ghost start: nat)
      requires InBounds() && ScanningAt(start, current, start + stringLength) && bytesConsumed + current < |jsonBuffer|
      modifies this`token, this`bytesConsumed, this`totalBytesConsumed
      ensures InBounds() && Position() == start + stringLength + 1
      ensures TokenSpans(StringToken, start, start + stringLength)
      ensures token.stringHasEscapedChars == old(token.stringHasEscapedChars)
    {
      UpdateState(StringToken, current, stringLength, start);
      bytesConsumed := bytesConsumed + 1;
      totalBytesConsumed := totalBytesConsumed + 1;
    }

    // -------------------------------------------------------------- numbers and literals

    /** How a call that scans a token from "start" ends: "goal" is what the contiguous scanner finds,
        and "kind" the kind of the previous token, which a failure keeps. */
    ghost predicate ScanOutcome(goal: Scan, start: nat, kind: TokenKind, previous: TokenKind, r: AzResult)
      requires InBounds() && (goal.Found? ==> start <= goal.end <= |allText|)
      reads this
    {
      match goal
      case Bad(code) => r == code && !r.Ok? && token.kind == previous
      case Found(end, _) => r.Ok? && Position() == end && TokenSpans(kind, start, end)
    }

    /** _az_json_reader_consume_digits */
    method ConsumeDigits(current: nat, totalConsumed: nat, ghost start: nat)
      returns (current': nat, totalConsumed': nat)
      requires InBounds() && NoEmptyBuffer() && ScanningAt(start, current, start + totalConsumed)
      modifies this`token, this`bufferIndex, this`jsonBuffer, this`bytesConsumed
      ensures InBounds() && token.kind == old(token.kind)
      ensures start + totalConsumed' == EndOfDigits(allText, start + totalConsumed)
      ensures ScanningAt(start, current', start + totalConsumed')
    {
      hide Flatten;
      current', totalConsumed' := current, totalConsumed;
      ghost var goal := EndOfDigits(allText, start + totalConsumed);
      while true
        invariant InBounds() && token.kind == old(token.kind)
        invariant ScanningAt(start, current', start + totalConsumed')
        invariant EndOfDigits(allText, start + totalConsumed') == goal
        decreases |jsonBuffers| - bufferIndex
      {
        current', totalConsumed' := CountDigits(current', totalConsumed', start, goal);
        if bytesConsumed + current' < |jsonBuffer| {
          return;
        }
        var r := GetNextBuffer(false);
        if !r.Ok? {
          return;
        }
        current' := 0;
      }
    }

    /** The inner loop of _az_json_reader_consume_digits, over the current buffer. */
    method CountDigits(current: nat, totalConsumed: nat, ghost start: nat, ghost goal: nat)
      returns (current': nat, totalConsumed': nat)
      requires InBounds() && ScanningAt(start, current, start + totalConsumed)
      requires goal == EndOfDigits(allText, start + totalConsumed)
      ensures ScanningAt(start, current', start + totalConsumed')
      ensures goal == EndOfDigits(allText, start + totalConsumed')
      ensures bytesConsumed + current' < |jsonBuffer| ==> start + totalConsumed' == goal
    {
      current', totalConsumed' := current, totalConsumed;
      while bytesConsumed + current' < |jsonBuffer|
        invariant ScanningAt(start, current', start + totalConsumed')
        invariant goal == EndOfDigits(allText, start + totalConsumed')
      {
        ByteAt(current');
        if !IsDigit(jsonBuffer[bytesConsumed + current']) {
          return;
        }
        current', totalConsumed' := current' + 1, totalConsumed' + 1;
      }
    }

    /** _az_validate_next_byte_is_digit */
    method ValidateNextByteIsDigit(current: nat, ghost start: nat, ghost head: nat)
      returns (r: AzResult, current': nat)
      requires InBounds() && NoEmptyBuffer() && ScanningAt(start, current, head)
      modifies this`token, this`bufferIndex, this`jsonBuffer, this`bytesConsumed
      ensures InBounds() && token.kind == old(token.kind)
      ensures r == if head == |allText| then UnexpectedEnd
                   else if !IsDigit(allText[head]) then UnexpectedChar else Ok
      ensures r.Ok? ==> ScanningAt(start, current', head) && bytesConsumed + current' < |jsonBuffer|
      ensures r.Ok? ==> allText[head] == jsonBuffer[bytesConsumed + current']
    {
      r, current' := Refill(current, start, head);
      if r.Ok? && !IsDigit(jsonBuffer[bytesConsumed + current']) {
        r := UnexpectedChar;
      }
    }

    /** The block after each run of digits: the end of the text
        (_az_json_reader_update_number_state_if_single_value), a delimiter, or a mark that may follow
        (_az_finished_consuming_json_number). */
    method EndNumber(current: nat, totalConsumed: nat, marks: Marks, ghost start: nat)
      returns (finished: bool, r: AzResult, current': nat)
      requires InBounds() && NoEmptyBuffer() && ScanningAt(start, current, start + totalConsumed)
      modifies this`token, this`bufferIndex, this`jsonBuffer, this`bytesConsumed, this`totalBytesConsumed
      ensures InBounds()
      ensures match AfterDigits(allText, start + totalConsumed, isComplexJson, marks)
              case Some(scan) => finished && ScanOutcome(scan, start, NumberToken, old(token.kind), r)
              case None =>
                && !finished && token.kind == old(token.kind)
                && ScanningAt(start, current', start + totalConsumed)
                && bytesConsumed + current' < |jsonBuffer|
                && jsonBuffer[bytesConsumed + current'] == allText[start + totalConsumed]
    {
      r, current' := Refill(current, start, start + totalConsumed);
      if !r.Ok? {
        if isComplexJson {
          return true, UnexpectedEnd, current';
        }
        UpdateState(NumberToken, current', totalConsumed, start);
        return true, Ok, current';
      }
      var nextByte := jsonBuffer[bytesConsumed + current'];
      if IsDelimiter(nextByte) {
        UpdateState(NumberToken, current', totalConsumed, start);
        return true, Ok, current';
      }
      if !IsExpected(nextByte, marks) {
        return true, UnexpectedChar, current';
      }
      finished := false;
    }

    /** _az_json_reader_process_number, the last run of digits. "goal" is what the contiguous scanner
        finds from here. */
    method ProcessExponentDigits(current: nat, totalConsumed: nat, ghost start: nat, ghost goal: Scan)
      returns (r: AzResult)
      requires InBounds() && NoEmptyBuffer() && ScanningAt(start, current, start + totalConsumed)
      requires goal == ScanExponentDigits(allText, start + totalConsumed, isComplexJson)
      modifies this`token, this`bufferIndex, this`jsonBuffer, this`bytesConsumed, this`totalBytesConsumed
      ensures InBounds() && ScanOutcome(goal, start, NumberToken, old(token.kind), r)
    {
      var current', total := ConsumeDigits(current, totalConsumed, start);
      var finished;
      finished, r, current' := EndNumber(current', total, NoMark, start);
    }

    /** The optional sign of an exponent. */
    method ProcessSign(current: nat, totalConsumed: nat, ghost start: nat)
      returns (r: AzResult, current': nat, totalConsumed': nat)
      requires InBounds() && NoEmptyBuffer() && ScanningAt(start, current, start + totalConsumed)
      modifies this`token, this`bufferIndex, this`jsonBuffer, this`bytesConsumed
      ensures InBounds() && token.kind == old(token.kind)
      ensures match ScanSign(allText, start + totalConsumed)
              case Bad(code) => r == code && !r.Ok?
              case Found(end, _) => r.Ok? && end == start + totalConsumed' && ScanningAt(start, current', end)
    {
      totalConsumed' := totalConsumed;
      r, current' := Refill(current, start, start + totalConsumed);
      if !r.Ok? {
        return;
      }
      if IsSign(jsonBuffer[bytesConsumed + current']) {
        totalConsumed', current' := totalConsumed' + 1, current' + 1;
        r, current' := ValidateNextByteIsDigit(current', start, start + totalConsumed');
      }
    }

    /** _az_json_reader_process_number, from the byte after the exponent mark. */
    method ProcessExponent(current: nat, totalConsumed: nat, ghost start: nat, ghost goal: Scan)
      returns (r: AzResult)
      requires InBounds() && NoEmptyBuffer() && ScanningAt(start, current, start + totalConsumed)
      requires goal == ScanExponent(allText, start + totalConsumed, isComplexJson)
      modifies this`token, this`bufferIndex, this`jsonBuffer, this`bytesConsumed, this`totalBytesConsumed
      ensures InBounds() && ScanOutcome(goal, start, NumberToken, old(token.kind), r)
    {
      var current', total;
      r, current', total := ProcessSign(current, totalConsumed, start);
      if r.Ok? {
        r := ProcessExponentDigits(current', total, start, goal);
      }
    }

    /** _az_json_reader_process_number, after the digits of the fraction. */
    method ProcessAfterFraction(current: nat, totalConsumed: nat, ghost start: nat, ghost goal: Scan)
      returns (r: AzResult)
      requires InBounds() && NoEmptyBuffer() && ScanningAt(start, current, start + totalConsumed)
      requires goal == ScanAfterFraction(allText, start + totalConsumed, isComplexJson)
      modifies this`token, this`bufferIndex, this`jsonBuffer, this`bytesConsumed, this`totalBytesConsumed
      ensures InBounds() && ScanOutcome(goal, start, NumberToken, old(token.kind), r)
    {
      var finished, current';
      finished, r, current' := EndNumber(current, totalConsumed, ExponentMark, start);
      if !finished {
        r := ProcessExponent(current' + 1, totalConsumed + 1, start, goal);
      }
    }

    /** _az_json_reader_process_number, from the byte after the decimal point. */
    method ProcessFraction(current: nat, totalConsumed: nat, ghost start: nat, ghost goal: Scan)
      returns (r: AzResult)
      requires InBounds() && NoEmptyBuffer() && ScanningAt(start, current, start + totalConsumed)
      requires goal == ScanFraction(allText, start + totalConsumed, isComplexJson)
      modifies this`token, this`bufferIndex, this`jsonBuffer, this`bytesConsumed, this`totalBytesConsumed
      ensures InBounds() && ScanOutcome(goal, start, NumberToken, old(token.kind), r)
    {
      var current', total;
      r, current' := ValidateNextByteIsDigit(current, start, start + totalConsumed);
      if r.Ok? {
        current', total := ConsumeDigits(current', totalConsumed, start);
        r := ProcessAfterFraction(current', total, start, goal);
      }
    }

    /** _az_json_reader_process_number, at the byte after the integer part. */
    method ProcessMark(current: nat, totalConsumed: nat, ghost start: nat, ghost goal: Scan) returns (r: AzResult)
      requires InBounds() && NoEmptyBuffer() && ScanningAt(start, current, start + totalConsumed)
      requires bytesConsumed + current < |jsonBuffer| && start + totalConsumed < |allText|
      requires jsonBuffer[bytesConsumed + current] == allText[start + totalConsumed]
      requires goal == if allText[start + totalConsumed] == DOT
                       then ScanFraction(allText, start + (totalConsumed + 1), isComplexJson)
                       else ScanExponent(allText, start + (totalConsumed + 1), isComplexJson)
      modifies this`token, this`bufferIndex, this`jsonBuffer, this`bytesConsumed, this`totalBytesConsumed
      ensures InBounds() && ScanOutcome(goal, start, NumberToken, old(token.kind), r)
    {
      hide ScanFraction, ScanExponent;
      if jsonBuffer[bytesConsumed + current] == DOT {
        r := ProcessFraction(current + 1, totalConsumed + 1, start, goal);
      } else {
        r := ProcessExponent(current + 1, totalConsumed + 1, start, goal);
      }
    }

    /** _az_json_reader_process_number, after the integer part. */
    method ProcessAfterInteger(current: nat, totalConsumed: nat, ghost start: nat, ghost goal: Scan)
      returns (r: AzResult)
      requires InBounds() && NoEmptyBuffer() && ScanningAt(start, current, start + totalConsumed)
      requires goal == ScanAfterInteger(allText, start + totalConsumed, isComplexJson)
      modifies this`token, this`bufferIndex, this`jsonBuffer, this`bytesConsumed, this`totalBytesConsumed
      ensures InBounds() && ScanOutcome(goal, start, NumberToken, old(token.kind), r)
    {
      hide ScanFraction, ScanExponent;
      var finished, current';
      finished, r, current' := EndNumber(current, totalConsumed, PointOrExponent, start);
      if !finished {
        r := ProcessMark(current', totalConsumed, start, goal);
      }
    }

    /** _az_json_reader_process_number, from the first digit. */
    method ProcessInteger(current: nat, totalConsumed: nat, ghost start: nat, ghost goal: Scan)
      returns (r: AzResult)
      requires InBounds() && NoEmptyBuffer() && ScanningAt(start, current, start + totalConsumed)
      requires start + totalConsumed < |allText| && bytesConsumed + current < |jsonBuffer|
      requires allText[start + totalConsumed] == jsonBuffer[bytesConsumed + current]
      requires IsDigit(allText[start + totalConsumed])
      requires goal == ScanInteger(allText, start + totalConsumed, isComplexJson)
      modifies this`token, this`bufferIndex, this`jsonBuffer, this`bytesConsumed, this`totalBytesConsumed
      ensures InBounds() && ScanOutcome(goal, start, NumberToken, old(token.kind), r)
    {
      if jsonBuffer[bytesConsumed + current] == ZERO {
        r := ProcessAfterInteger(current + 1, totalConsumed + 1, start, goal);
      } else {
        var current', total := ConsumeDigits(current, totalConsumed, start);
        r := ProcessAfterInteger(current', total, start, goal);
      }
    }

    /** _az_json_reader_process_number */
    method ProcessNumber(ghost start: nat) returns (r: AzResult)
      requires InBounds() && NoEmptyBuffer() && token.startBufferIndex == -1
      requires bytesConsumed < |jsonBuffer| && start == Position() < |allText|
      requires allText[start] == jsonBuffer[bytesConsumed] && (IsDigit(allText[start]) || allText[start] == MINUS)
      modifies this`token, this`bufferIndex, this`jsonBuffer, this`bytesConsumed, this`totalBytesConsumed
      ensures InBounds()
      ensures ScanOutcome(ScanNumber(allText, start, isComplexJson), start, NumberToken, old(token.kind), r)
    {
      ghost var goal := ScanNumber(allText, start, isComplexJson);
      if jsonBuffer[bytesConsumed] == MINUS {
        var current;
        r, current := ValidateNextByteIsDigit(1, start, start + 1);
        if r.Ok? {
          r := ProcessInteger(current, 1, start, goal);
        }
      } else {
        r := ProcessInteger(0, 0, start, goal);
      }
    }

    /** One comparison of _az_json_reader_process_literal, against what the current buffer holds. */
    method MatchPiece(literal: Text, alreadyMatched: nat, ghost start: nat) returns (r: AzResult, matched: nat)
      requires InBounds() && Position() == start + alreadyMatched && alreadyMatched < |literal|
      requires allText[start..start + alreadyMatched] == literal[..alreadyMatched]
      ensures r.Ok? ==> matched == Min(|jsonBuffer| - bytesConsumed, |literal| - alreadyMatched)
      ensures r.Ok? ==> start + (alreadyMatched + matched) <= |allText|
      ensures r.Ok? ==> allText[start..start + (alreadyMatched + matched)] == literal[..alreadyMatched + matched]
      ensures !r.Ok? ==> r.UnexpectedChar? && ScanLiteral(allText, start, literal) == Bad(r)
    {
      matched := Min(|jsonBuffer| - bytesConsumed, |literal| - alreadyMatched);
      BufferStretch(bytesConsumed, bytesConsumed + matched);
      LiteralPiece(allText, start, literal, alreadyMatched, matched);
      r := if jsonBuffer[bytesConsumed..bytesConsumed + matched] == literal[alreadyMatched..alreadyMatched + matched]
           then Ok else UnexpectedChar;
    }

    /** The loop of _az_json_reader_process_literal. On success "matched" bytes of the last buffer end
        the literal. */
    method MatchLiteral(literal: Text, ghost start: nat) returns (r: AzResult, matched: nat)
      requires InBounds() && NoEmptyBuffer() && token.startBufferIndex == -1 && start == Position()
      requires literal != []
      modifies this`token, this`bufferIndex, this`jsonBuffer, this`bytesConsumed
      ensures InBounds() && token.kind == old(token.kind)
      ensures match ScanLiteral(allText, start, literal)
              case Bad(code) => r == code && !r.Ok?
              case Found(end, _) => r.Ok? && ScanningAt(start, matched, start + |literal|)
    {
      var alreadyMatched: nat := 0;
      while true
        invariant InBounds() && token.kind == old(token.kind)
        invariant ScanningAt(start, 0, start + alreadyMatched)
        invariant alreadyMatched < |literal|
        invariant allText[start..start + alreadyMatched] == literal[..alreadyMatched]
        decreases |jsonBuffers| - bufferIndex
      {
        r, matched := MatchPiece(literal, alreadyMatched, start);
        if !r.Ok? {
          return;
        }
        alreadyMatched := alreadyMatched + matched;
        LiteralSoFar(allText, start, literal, alreadyMatched);
        if alreadyMatched == |literal| {
          return;
        }
        r := GetNextBuffer(false);
        if !r.Ok? {
          return;
        }
      }
    }

    /** _az_json_reader_process_literal */
    method ProcessLiteral(literal: Text, kind: TokenKind, ghost start: nat) returns (r: AzResult)
      requires InBounds() && NoEmptyBuffer() && token.startBufferIndex == -1 && start == Position()
      requires literal != [] && (kind.TrueToken? || kind.FalseToken? || kind.NullToken?)
      modifies this`token, this`bufferIndex, this`jsonBuffer, this`bytesConsumed, this`totalBytesConsumed
      ensures InBounds()
      ensures ScanOutcome(ScanLiteral(allText, start, literal), start, kind, old(token.kind), r)
    {
      var matched;
      r, matched := MatchLiteral(literal, start);
      if r.Ok? {
        UpdateState(kind, matched, |literal|, start);
      }
    }

    // -------------------------------------------------------------- tokens

    /** The reader stands where the contiguous reader stands in state s, at any position. */
    ghost predicate Matches(s: State)
      requires bitStack.Valid()
      reads this, bitStack
    {
      s.kind == token.kind && s.stack == bitStack.Contents() && s.complex == isComplexJson
    }

    /** A call ended the way that a step of the contiguous reader says. */
    ghost predicate Outcome(goal: Step, r: AzResult)
      requires InBounds() && bitStack.Valid()
      reads this, bitStack
    {
      match goal
      case Stop(code) => r == code && !r.Ok?
      case Next(s, spec) => r.Ok? && Position() == s.pos && Matches(s) && token.Represents(spec)
    }

    /** _az_json_reader_process_string, for a string value. */
    method ProcessStringValue(ghost s: State, ghost p: nat, ghost goal: Step) returns (r: AzResult)
      requires Valid() && Matches(s) && p == Position() < |allText| && allText[p] == QUOTE
      requires token.startBufferIndex == -1 && bytesConsumed < |jsonBuffer|
      requires goal == StringStep(allText, p, s)
      modifies this`token, this`bufferIndex, this`jsonBuffer, this`bytesConsumed, this`totalBytesConsumed
      ensures Valid() && Outcome(goal, r)
    {
      hide ScanString;
      r := ProcessString(p + 1);
      if r.Ok? {
        SpanRepresents(StringToken, p + 1, goal.state.pos - 1, goal.token.escaped);
      }
    }

    /** _az_json_reader_process_property_name */
    method ProcessPropertyName(ghost s: State, ghost p: nat, ghost goal: Step) returns (r: AzResult)
      requires Valid() && Matches(s) && p == Position() < |allText| && allText[p] == QUOTE
      requires token.startBufferIndex == -1 && bytesConsumed < |jsonBuffer|
      requires s.stack != [] && Top(s.stack).Object?
      requires goal == PropertyNameStep(allText, p, s)
      modifies this`token, this`bufferIndex, this`jsonBuffer, this`bytesConsumed, this`totalBytesConsumed
      ensures Valid() && Outcome(goal, r)
    {
      hide ScanString, SkipWhitespace, JsonStack.Contents, Flatten;
      ghost var inner := StringStep(allText, p, s);
      r := ProcessStringValue(s, p, inner);
      if !r.Ok? {
        return;
      }
      var more := SkipBlanks();
      if !more {
        return UnexpectedEnd;
      }
      if jsonBuffer[bytesConsumed] != COLON {
        return UnexpectedChar;
      }
      token := token.(kind := PropertyName);
      bytesConsumed := bytesConsumed + 1;
      totalBytesConsumed := totalBytesConsumed + 1;
    }

    /** _az_json_reader_process_container_start */
    method ProcessContainerStart(kind: TokenKind, item: Item, ghost s: State, ghost p: nat, ghost goal: Step)
      returns (r: AzResult)
      requires Valid() && Matches(s) && p == Position() < |allText| && isComplexJson
      requires token.startBufferIndex == -1 && bytesConsumed < |jsonBuffer|
      requires kind == if item.Object? then BeginObject else BeginArray
      requires goal == StartStep(allText, p, s, item)
      modifies this`token, this`bytesConsumed, this`totalBytesConsumed, bitStack
      ensures Valid() && Outcome(goal, r)
    {
      if bitStack.currentDepth >= MAX_DEPTH {
        return NestingOverflow;
      }
      bitStack.Push(item);
      UpdateState(kind, 1, 1, p);
      SpanRepresents(kind, p, p + 1, false);
      assert allText[p..p + 1] == [allText[p]];
      r := Ok;
    }

    /** _az_json_reader_process_container_end */
    method ProcessContainerEnd(kind: TokenKind, item: Item, ghost s: State, ghost p: nat, ghost goal: Step)
      returns (r: AzResult)
      requires Valid() && Matches(s) && p == Position() < |allText| && s.stack != []
      requires token.startBufferIndex == -1 && bytesConsumed < |jsonBuffer|
      requires kind == if item.Object? then EndObject else EndArray
      requires goal == EndStep(allText, p, s, item)
      modifies this`token, this`bytesConsumed, this`totalBytesConsumed, bitStack
      ensures Valid() && Outcome(goal, r)
    {
      hide JsonStack.Contents, Flatten;
      if (kind.EndObject? && bitStack.Peek() != Object) || (kind.EndArray? && bitStack.Peek() != Array) {
        return UnexpectedChar;
      }
      var _ := bitStack.Pop();
      UpdateState(kind, 1, 1, p);
      SpanRepresents(kind, p, p + 1, false);
      assert allText[p..p + 1] == [allText[p]];
      assert Matches(goal.state);
      r := Ok;
    }

    /** A number or literal, once scanned. */
    lemma ScannedOutcome(s: State, scan: Scan, p: nat, kind: TokenKind, goal: Step, r: AzResult)
      requires InBounds() && bitStack.Valid() && (scan.Found? ==> p <= scan.end <= |allText|)
      requires ScanOutcome(scan, p, kind, s.kind, r) && !kind.StringToken? && !kind.PropertyName?
      requires s.stack == bitStack.Contents() && s.complex == isComplexJson
      requires goal == match scan
                       case Bad(code) => Stop(code)
                       case Found(end, _) =>
                         Next(State(end, kind, s.stack, s.complex), Token(kind, allText[p..end], false))
      ensures Outcome(goal, r)
    {
      if r.Ok? {
        SpanRepresents(kind, p, scan.end, false);
      }
    }

    /** _az_json_reader_process_number, as a value. */
    method ProcessNumberValue(ghost s: State, ghost p: nat, ghost goal: Step) returns (r: AzResult)
      requires Valid() && Matches(s) && p == Position() < |allText|
      requires token.startBufferIndex == -1 && bytesConsumed < |jsonBuffer| && allText[p] == jsonBuffer[bytesConsumed]
      requires IsDigit(allText[p]) || allText[p] == MINUS
      requires goal == NumberStep(allText, p, s)
      modifies this`token, this`bufferIndex, this`jsonBuffer, this`bytesConsumed, this`totalBytesConsumed
      ensures Valid() && Outcome(goal, r)
    {
      ghost var scan := ScanNumber(allText, p, s.complex);
      r := ProcessNumber(p);
      ScannedOutcome(s, scan, p, NumberToken, goal, r);
    }

    /** _az_json_reader_process_literal, as a value. */
    method ProcessLiteralValue(literal: Text, kind: TokenKind, ghost s: State, ghost p: nat, ghost goal: Step)
      returns (r: AzResult)
      requires Valid() && Matches(s) && p == Position() < |allText|
      requires token.startBufferIndex == -1 && literal != []
      requires kind.TrueToken? || kind.FalseToken? || kind.NullToken?
      requires goal == LiteralStep(allText, p, s, literal, kind)
      modifies this`token, this`bufferIndex, this`jsonBuffer, this`bytesConsumed, this`totalBytesConsumed
      ensures Valid() && Outcome(goal, r)
    {
      ghost var scan := ScanLiteral(allText, p, literal);
      if scan.Found? {
        assert literal == allText[p..][..|literal|];
        SliceOfSlice(allText, p, |allText|, 0, |literal|);
      }
      r := ProcessLiteral(literal, kind, p);
      ScannedOutcome(s, scan, p, kind, goal, r);
    }

    /** _az_json_reader_process_value. Containers start here only inside another container. */
    method ProcessValue(nextByte: Byte, ghost s: State, ghost p: nat, ghost goal: Step) returns (r: AzResult)
      requires Valid() && Matches(s) && p == Position() < |allText|
      requires token.startBufferIndex == -1 && bytesConsumed < |jsonBuffer|
      requires nextByte == allText[p] == jsonBuffer[bytesConsumed]
      requires isComplexJson || (nextByte != OPEN_BRACE && nextByte != OPEN_BRACKET)
      requires goal == ValueStep(allText, p, s)
      modifies this`token, this`bufferIndex, this`jsonBuffer, this`bytesConsumed, this`totalBytesConsumed, bitStack
      ensures Valid() && Outcome(goal, r)
    {
      if nextByte == QUOTE {
        r := ProcessStringValue(s, p, goal);
      } else if nextByte == OPEN_BRACE {
        r := ProcessContainerStart(BeginObject, Object, s, p, goal);
      } else if nextByte == OPEN_BRACKET {
        r := ProcessContainerStart(BeginArray, Array, s, p, goal);
      } else if IsDigit(nextByte) || nextByte == MINUS {
        r := ProcessNumberValue(s, p, goal);
      } else if nextByte == 0x66 {
        r := ProcessLiteralValue(FALSE_TEXT, FalseToken, s, p, goal);
      } else if nextByte == 0x74 {
        r := ProcessLiteralValue(TRUE_TEXT, TrueToken, s, p, goal);
      } else if nextByte == 0x6E {
        r := ProcessLiteralValue(NULL_TEXT, NullToken, s, p, goal);
      } else {
        r := UnexpectedChar;
      }
    }

    /** _az_json_reader_read_first_token */
    method ReadFirstToken(firstByte: Byte, ghost s: State, ghost p: nat, ghost goal: Step) returns (r: AzResult)
      requires Valid() && Matches(s) && p == Position() < |allText| && token.kind.NoToken?
      requires token.startBufferIndex == -1 && bytesConsumed < |jsonBuffer|
      requires firstByte == allText[p] == jsonBuffer[bytesConsumed]
      requires goal == ValueStep(allText, p, s)
      modifies this, bitStack
      ensures Valid() && Outcome(goal, r)
    {
      if firstByte == OPEN_BRACE {
        r := ReadFirstContainer(BeginObject, Object, s, p, goal);
      } else if firstByte == OPEN_BRACKET {
        r := ReadFirstContainer(BeginArray, Array, s, p, goal);
      } else {
        r := ProcessValue(firstByte, s, p, goal);
      }
    }

    /** The container branches of _az_json_reader_read_first_token. */
    method ReadFirstContainer(kind: TokenKind, item: Item, ghost s: State, ghost p: nat, ghost goal: Step)
      returns (r: AzResult)
      requires Valid() && Matches(s) && p == Position() < |allText| && token.kind.NoToken?
      requires token.startBufferIndex == -1 && bytesConsumed < |jsonBuffer|
      requires kind == if item.Object? then BeginObject else BeginArray
      requires goal == StartStep(allText, p, s, item)
      modifies this, bitStack
      ensures Valid() && Outcome(goal, r)
    {
      bitStack.Push(item);
      UpdateState(kind, 1, 1, p);
      SpanRepresents(kind, p, p + 1, false);
      isComplexJson := true;
      r := Ok;
    }

    /** What _az_json_reader_process_next_byte does after a comma. */
    method ProcessAfterComma(withinObject: bool, ghost s: State, ghost p: nat, ghost goal: Step)
      returns (r: AzResult)
      requires Valid() && Matches(s) && p == Position() && s.stack != []
      requires token.startBufferIndex == -1 && withinObject == Top(s.stack).Object?
      requires goal == AfterComma(allText, p, s)
      modifies this`token, this`bufferIndex, this`jsonBuffer, this`bytesConsumed, this`totalBytesConsumed, bitStack
      ensures Valid() && Outcome(goal, r)
    {
      var more := SkipBlanks();
      if !more {
        return UnexpectedEnd;
      }
      ghost var q := Position();
      var nextByte := jsonBuffer[bytesConsumed];
      if withinObject {
        if nextByte != QUOTE {
          return UnexpectedChar;
        }
        r := ProcessPropertyName(s, q, goal);
      } else {
        r := ProcessValue(nextByte, s, q, goal);
      }
    }

    /** _az_json_reader_process_next_byte */
    method ProcessNextByte(nextByte: Byte, ghost s: State, ghost p: nat, ghost goal: Step) returns (r: AzResult)
      requires Valid() && Matches(s) && p == Position() < |allText|
      requires token.startBufferIndex == -1 && bytesConsumed < |jsonBuffer|
      requires nextByte == allText[p] == jsonBuffer[bytesConsumed]
      requires goal == ContinuationStep(allText, p, s)
      modifies this`token, this`bufferIndex, this`jsonBuffer, this`bytesConsumed, this`totalBytesConsumed, bitStack
      ensures Valid() && Outcome(goal, r)
    {
      if bitStack.currentDepth == 0 {
        return UnexpectedChar;
      }
      var withinObject := bitStack.Peek() == Object;
      if nextByte == COMMA {
        bytesConsumed := bytesConsumed + 1;
        r := ProcessAfterComma(withinObject, s, p + 1, goal);
      } else if nextByte == CLOSE_BRACE {
        r := ProcessContainerEnd(EndObject, Object, s, p, goal);
      } else if nextByte == CLOSE_BRACKET {
        r := ProcessContainerEnd(EndArray, Array, s, p, goal);
      } else {
        r := UnexpectedChar;
      }
    }

    /** az_json_reader_next_token: the result, the new state and the token are those of the contiguous
        reader on the text that the buffers spell, however it is split. */
    method NextToken() returns (r: AzResult)
      requires Valid()
      modifies this, bitStack
      ensures Valid()
      ensures Outcome(ReaderSpec.NextToken(allText, old(CurrentState())), r)
      ensures r.ReaderDone? ==> CurrentState() == old(CurrentState()).(pos := |allText|)
    {
      ghost var s := CurrentState();
      ghost var goal := ReaderSpec.NextToken(allText, s);
      var more := SkipBlanks();
      if !more {
        if token.kind.NoToken? || bitStack.currentDepth != 0 {
          return UnexpectedEnd;
        }
        return ReaderDone;
      }
      token := token.(startBufferIndex := -1, startBufferOffset := -1, endBufferIndex := -1, endBufferOffset := -1);
      r := DispatchToken(jsonBuffer[bytesConsumed], s, Position(), goal);
    }

    /** The switch of az_json_reader_next_token. */
    method DispatchToken(firstByte: Byte, ghost s: State, ghost p: nat, ghost goal: Step) returns (r: AzResult)
      requires Valid() && Matches(s) && p == Position() < |allText|
      requires token.startBufferIndex == -1 && bytesConsumed < |jsonBuffer|
      requires firstByte == allText[p] == jsonBuffer[bytesConsumed]
      requires goal == TokenStep(allText, p, s)
      modifies this, bitStack
      ensures Valid() && Outcome(goal, r)
    {
      match token.kind {
        case NoToken =>
          r := ReadFirstToken(firstByte, s, p, goal);
        case BeginObject =>
          if firstByte == CLOSE_BRACE {
            r := ProcessContainerEnd(EndObject, Object, s, p, goal);
          } else if firstByte != QUOTE {
            r := UnexpectedChar;
          } else {
            r := ProcessPropertyName(s, p, goal);
          }
        case BeginArray =>
          if firstByte == CLOSE_BRACKET {
            r := ProcessContainerEnd(EndArray, Array, s, p, goal);
          } else {
            r := ProcessValue(firstByte, s, p, goal);
          }
        case PropertyName =>
          r := ProcessValue(firstByte, s, p, goal);
        case _ =>
          r := ProcessNextByte(firstByte, s, p, goal);
      }
    }

    /** az_json_reader_skip_children: stops where skipping the contiguous text stops. The token is then the
        bracket that ends the container skipped, or the value of the name if that is no container. */
    method SkipChildren() returns (r: AzResult)
      requires Valid()
      modifies this, bitStack
      ensures Valid()
      ensures var goal := ReaderSpec.SkipChildren(allText, old(CurrentState()));
              r == goal.1 && (r.Ok? ==> CurrentState() == goal.0)
      ensures !IsBegin(old(token.kind)) && !old(token.kind).PropertyName? ==> token == old(token)
      ensures var first := ReaderSpec.NextToken(allText, old(CurrentState()));
              r.Ok? ==>
                if IsBegin(old(token.kind)) || (old(token.kind).PropertyName? && IsBegin(first.token.kind))
                then IsClosingBracket()
                else old(token.kind).PropertyName? ==> token.Represents(first.token)
    {
      hide ReaderSpec.NextToken, SkipContainer, IsClosingBracket;
      if token.kind.PropertyName? {
        r := NextToken();
        if !r.Ok? {
          return;
        }
      }
      r := Ok;
      if IsBegin(token.kind) {
        r := SkipToDepth(bitStack.currentDepth);
      }
    }

    /** The token is the last byte consumed. */
    ghost predicate IsClosingBracket()
      requires InBounds()
      reads this
    {
      && 0 < Position() <= |allText|
      && token.Represents(Token(token.kind, allText[Position() - 1..Position()], false))
    }

    /** The loop of az_json_reader_skip_children. */
    method SkipToDepth(depth: nat) returns (r: AzResult)
      requires Valid() && depth <= bitStack.currentDepth
      modifies this, bitStack
      ensures Valid()
      ensures var goal := SkipContainer(allText, old(CurrentState()), depth);
              r == goal.1 && (r.Ok? ==> CurrentState() == goal.0 && IsClosingBracket())
    {
      hide ReaderSpec.NextToken;
      ghost var goal := SkipContainer(allText, CurrentState(), depth);
      r := NextOf(depth, goal);
      while r.Ok? && depth <= bitStack.currentDepth
        invariant Valid()
        invariant if !r.Ok? then goal.1 == r
                  else if depth <= bitStack.currentDepth then SkipContainer(allText, CurrentState(), depth) == goal
                  else goal == (CurrentState(), Ok) && IsClosingBracket()
        decreases if r.Ok? then |allText| - Position() + 1 else 0
      {
        r := NextOf(depth, goal);
      }
    }

    /** One round of that loop. */
    method NextOf(depth: nat, ghost goal: (State, AzResult)) returns (r: AzResult)
      requires Valid() && depth <= bitStack.currentDepth && SkipContainer(allText, CurrentState(), depth) == goal
      modifies this, bitStack
      ensures Valid() && (r.Ok? ==> old(Position()) < Position())
      ensures if !r.Ok? then goal.1 == r
              else if depth <= bitStack.currentDepth then SkipContainer(allText, CurrentState(), depth) == goal
              else goal == (CurrentState(), Ok) && IsClosingBracket()
    {
      hide ReaderSpec.NextToken;
      if ReaderSpec.NextToken(allText, CurrentState()).Next? {
        ClosingToken(allText, CurrentState());
      }
      r := NextToken();
    }
  }

  /** _az_span_trim_whitespace_from_start: how many bytes are trimmed. */
  method TrimWhitespaceFromStart(source: Text) returns (index: nat)
    ensures index <= |source|
    ensures AllWhitespace(source[..index])
    ensures index < |source| ==> !IsWhitespace(source[index])
  {
    hide TokenStep;
    index := 0;
    while index < |source|
      invariant index <= |source|
      invariant AllWhitespace(source[..index])
    {
      if !IsWhitespace(source[index]) {
        break;
      }
      index := index + 1;
    }
  }

  lemma {:induction false} SkipAcross(t: Text, p: nat, q: nat, blanks: Text)
    requires p <= q <= |t| && AllWhitespace(blanks) && t[p..q] == blanks
    ensures SkipWhitespace(t, p) == SkipWhitespace(t, q)
    decreases q - p
  {
    if p < q {
      assert t[p] == blanks[0];
      assert t[p + 1..q] == blanks[1..];
      SkipAcross(t, p + 1, q, blanks[1..]);
    }
  }

  /** Comparing a literal piece by piece decides like comparing it at once. */
  lemma LiteralPiece(t: Text, start: nat, literal: Text, matched: nat, piece: nat)
    requires matched + piece <= |literal| && start + matched + piece <= |t|
    requires t[start..start + matched] == literal[..matched]
    ensures if t[start + matched..start + matched + piece] != literal[matched..matched + piece]
            then ScanLiteral(t, start, literal) == Bad(UnexpectedChar)
            else t[start..start + (matched + piece)] == literal[..matched + piece]
  {
    var n := Min(|t| - start, |literal|);
    if t[start + matched..start + matched + piece] != literal[matched..matched + piece] {
      SliceOfSlice(t, start, start + n, matched, matched + piece);
      SliceOfSlice(literal, 0, n, matched, matched + piece);
    } else {
      var whole := t[start..start + (matched + piece)];
      var front, back := t[start..start + matched], t[start + matched..start + matched + piece];
      assert whole == front + back;
      assert literal[..matched + piece] == literal[..matched] + literal[matched..matched + piece];
    }
  }

  lemma LiteralSoFar(t: Text, start: nat, literal: Text, matched: nat)
    requires matched <= |literal| && start + matched <= |t|
    requires t[start..start + matched] == literal[..matched]
    ensures matched == |literal| ==> ScanLiteral(t, start, literal) == Found(start + |literal|, false)
    ensures matched == |t| - start < |literal| ==> ScanLiteral(t, start, literal) == Bad(UnexpectedEnd)
  {
  }
}
