/** The JSON writer over one buffer or over the packets of a chain (az_json_writer.c). */
module JsonWriter {
  import opened Bytes
  import opened BitStack
  import opened ReaderSpec
  import opened Segments
  import opened Packets
  import opened WriterPackets
  import opened WriterRoom
  import opened WriterSpec
  import opened JsonStrings
  import JsonGrammar
  import JsonReading
  import Decimal

  const MAX_UNESCAPED_STRING_SIZE: nat := 166_666_666

  ghost predicate SizeIsSupported(e: Append) {
    && (e.Str? ==> |e.text| <= MAX_UNESCAPED_STRING_SIZE)
    && (e.Name? ==> |e.name| <= MAX_UNESCAPED_STRING_SIZE)
  }

  class JsonWriter {
    /** The destination span: "size" bytes of the buffer from "start" on. */
    var destinationBuffer: array<Byte>
    var start: nat
    var size: nat
    /** The allocator callback's context; null if there is no callback. */
    const allocator: PacketSink?
    var bytesWritten: nat
    var totalBytesWritten: nat
    var needComma: bool
    var tokenKind: TokenKind
    const bitStack: JsonStack

    /** What the packets carried before, the text in earlier buffers, the text in this one, and what
        precedes it there. */
    ghost const initial: Text
    ghost var done: Text
    ghost var current: Text
    ghost var front: Text
    /** The only buffer, if there is no allocator. */
    ghost const onlyBuffer: array<Byte>

    /** The JSON text written so far. */
    ghost function Written(): Text
      reads this
    {
      done + current
    }

    ghost function SinkObjects(): (objects: set<object>)
      reads allocator
      ensures forall o :: o in objects ==> o is PacketSink || o is PacketPool || o is Packet
    {
      if allocator == null then {} else {allocator, allocator.pool} + (set p | p in allocator.packets)
    }

    /** The destination is the rest of the chain's last packet, and what lies before it is settled. */
    ghost predicate Sunk(sink: PacketSink)
      reads this, sink, sink.packets, Areas(Before(sink.packets))
    {
      && sink.Valid() && sink.Tail().data == destinationBuffer
      && sink.tailPacketOffset == start && start + size == destinationBuffer.Length
      && |front| == start && Flatten(sink.contents) + front[sink.Tail().prependPtr..] == initial + done
    }

    ghost predicate Valid()
      reads this, destinationBuffer, allocator
      reads if allocator == null then {} else set p | p in allocator.packets
      reads if allocator == null then {} else Areas(Before(allocator.packets))
    {
      && start + size <= destinationBuffer.Length && bytesWritten <= size
      && |front| == start && |current| == bytesWritten
      && destinationBuffer[..start + bytesWritten] == front + current
      && (if allocator != null then Sunk(allocator)
          else destinationBuffer == onlyBuffer && size == onlyBuffer.Length && front == done == [])
    }

    /** What is left of the destination, and what the allocator will hand out. */
    ghost function Space(): Room
      reads this`size, this`bytesWritten, if allocator == null then {} else {allocator.pool}
    {
      Room(if bytesWritten <= size then size - bytesWritten else 0,
           if allocator == null then [] else allocator.pool.answers)
    }

    /** The append has found its space, or not: in a single buffer exactly by what it needs there; in any
        case exactly by what it asks for, if it asks once; and if there was enough for its text and what
        comes after it, it succeeds and there is still enough. */
    ghost predicate Placed(before: Room, w: Progress, e: Append, rest: nat, r: AzResult)
      reads this`size, this`bytesWritten, if allocator == null then {} else {allocator.pool}
    {
      && (allocator == null ==> (r.NotEnoughSpace? <==> before.left < SizeNeeded(w, e)))
      && (IsShort(e) ==> (r.NotEnoughSpace? <==> Ask(before, SizeAsked(w, e)).None?))
      && (Suffices(before, |Emit(w, e)| + rest) ==> r.Ok? && Suffices(Space(), rest))
    }

    /** How this comes about for an append that asks once. */
    lemma IsPlaced(before: Room, w: Progress, e: Append, rest: nat, r: AzResult)
      requires IsShort(e) && CanAppend(w, e) && (allocator == null ==> before.answers == [])
      requires r.Ok? || r.NotEnoughSpace?
      requires r.Ok? <==> Ask(before, SizeAsked(w, e)).Some?
      requires r.Ok? ==> |Emit(w, e)| <= SizeAsked(w, e)
                         && Space() == Used(Ask(before, SizeAsked(w, e)).value, |Emit(w, e)|)
      ensures Placed(before, w, e, rest, r)
    {
      hide Emit, CanAppend, Suffices;
      ShortAsksForAChunk(w, e);
      if Suffices(before, |Emit(w, e)| + rest) {
        ShortSuffices(before, w, e, rest);
      }
    }

    /** How it comes about for a long text: its chunks find space if there is enough for them, and what
        follows them. */
    lemma IsPlacedLong(before: Room, w: Progress, e: Append, chunks: nat, rest: nat, r: AzResult)
      requires !IsShort(e) && SizeNeeded(w, e) == chunks + MINIMUM_STRING_CHUNK_SIZE && chunks <= |Emit(w, e)|
      requires r.Ok? || r.NotEnoughSpace?
      requires allocator == null ==> (r.Ok? <==> before.left >= chunks + MINIMUM_STRING_CHUNK_SIZE)
      requires Suffices(before, |Emit(w, e)| + rest) ==> r.Ok?
      requires r.Ok? && Suffices(before, |Emit(w, e)| + rest) ==> Suffices(Space(), rest)
      ensures Placed(before, w, e, rest, r)
    {
      hide Emit;
    }

    ghost function State(): Progress
      requires bitStack.Valid()
      reads this, bitStack
    {
      Progress(bitStack.Contents(), tokenKind, needComma)
    }

    /** az_json_writer_init */
    constructor (buffer: array<Byte>)
      ensures Valid() && bitStack.Valid() && fresh(bitStack) && allocator == null && destinationBuffer == buffer
      ensures onlyBuffer == buffer && Written() == [] && totalBytesWritten == 0 && State() == BLANK
    {
      destinationBuffer, start, size := buffer, 0, buffer.Length;
      allocator := null;
      bytesWritten, totalBytesWritten, needComma, tokenKind := 0, 0, false, NoToken;
      bitStack := new JsonStack();
      initial, done, current, front, onlyBuffer := [], [], [], [], buffer;
    }

    /** az_json_writer_chunked_init, as nx_azure_iot_json_writer_init calls it. */
    constructor OverPackets(sink: PacketSink)
      requires sink.Valid() && sink.tailPacketOffset == sink.Tail().appendPtr
      ensures Valid() && bitStack.Valid() && fresh(bitStack) && allocator == sink
      ensures Written() == [] && totalBytesWritten == 0 && State() == BLANK
      ensures initial == Payload(sink.packets)
    {
      hide Flatten;
      var tail := if sink.packetPtr.last != null then sink.packetPtr.last else sink.packetPtr;
      destinationBuffer, start, size := tail.data, tail.appendPtr, tail.data.Length - tail.appendPtr;
      allocator := sink;
      bytesWritten, totalBytesWritten, needComma, tokenKind := 0, 0, false, NoToken;
      bitStack := new JsonStack();
      done, current, front, onlyBuffer := [], [], tail.data[..tail.appendPtr], tail.data;
      initial := Flatten(sink.contents) + sink.Tail().Content();
      hide Flatten, Payload, PacketSink.Valid;
      new;
      ChainCarries(sink);
    }

    /** az_span_copy and az_span_copy_u8 into the destination, behind what is already written. */
    method Put(at: nat, source: Text) returns (end: nat)
      requires Valid() && start + bytesWritten <= at && at + |source| <= start + size
      modifies destinationBuffer
      ensures Valid() && end == at + |source|
      ensures destinationBuffer[..end] == old(destinationBuffer[..at]) + source
    {
      forall i | 0 <= i < |source| {
        destinationBuffer[at + i] := source[i];
      }
      end := at + |source|;
      assert destinationBuffer[..start + bytesWritten] == old(destinationBuffer[..start + bytesWritten]);
      if allocator != null {
        assert Sunk(allocator);
      }
    }

    /** The packets carry what they carried before, and the text. */
    lemma CarriedIsWritten()
      requires Valid() && allocator != null
      ensures allocator.packets != []
      ensures allocator.Tail().prependPtr <= start
      ensures allocator.Carried(bytesWritten) == initial + Written()
    {
      hide Flatten;
      var prepend := allocator.Tail().prependPtr;
      assert destinationBuffer[prepend..start + bytesWritten] == destinationBuffer[..start + bytesWritten][prepend..];
      assert (front + current)[prepend..] == front[prepend..] + current;
      JoinThree(Flatten(allocator.contents), front[prepend..], current);
      JoinThree(initial, done, current);
    }

    /** _get_remaining_span: the size of what is left of the destination, which may be a new buffer.
        The text in the old one is settled. The size is large enough exactly if the rest of the buffer is,
        or the allocator has a buffer that is. */
    method GetRemainingSpan(requiredSize: nat) returns (remaining: nat)
      requires Valid() && requiredSize > 0
      modifies this`destinationBuffer, this`start, this`size, this`bytesWritten, this`done, this`current, this`front
      modifies SinkObjects()
      ensures Valid() && Written() == old(Written())
      ensures remaining >= requiredSize <==> Ask(old(Space()), requiredSize).Some?
      ensures remaining >= requiredSize ==>
                remaining == size - bytesWritten && Space() == Ask(old(Space()), requiredSize).value
      ensures destinationBuffer == old(destinationBuffer) || fresh(destinationBuffer)
      ensures fresh(SinkObjects() - old(SinkObjects()))
    {
      remaining := size - bytesWritten;
      if remaining < requiredSize && allocator != null {
        hide Valid;
        remaining := NextBuffer(requiredSize);
      }
    }

    /** Asks the allocator for the next buffer. */
    method NextBuffer(requiredSize: nat) returns (remaining: nat)
      requires Valid() && allocator != null && size - bytesWritten < requiredSize
      modifies this`destinationBuffer, this`start, this`size, this`bytesWritten, this`done, this`current, this`front
      modifies SinkObjects()
      ensures Valid() && Written() == old(Written())
      ensures remaining >= requiredSize <==> Answers(old(Space()).answers, requiredSize)
      ensures Space().answers == Later(old(Space()).answers)
      ensures remaining >= requiredSize ==>
                remaining == size - bytesWritten == Space().left == old(Space()).answers[0].value
      ensures destinationBuffer == old(destinationBuffer) || fresh(destinationBuffer)
      ensures fresh(SinkObjects() - old(SinkObjects()))
    {
      hide Flatten;
      CarriedIsWritten();
      hide PacketSink.Valid;
      var buffer := allocator.Allocate(bytesWritten, requiredSize);
      if buffer == null {
        return 0;
      }
      Adopt(buffer);
      remaining := size;
    }

    /** Goes on at the start of a new buffer; the text is settled in the earlier ones. */
    method Adopt(buffer: array<Byte>)
      requires allocator != null && allocator.Valid() && allocator.Tail().data == buffer
      requires allocator.tailPacketOffset == allocator.Tail().prependPtr == 0
      requires Flatten(allocator.contents) == initial + Written()
      modifies this`destinationBuffer, this`start, this`size, this`bytesWritten, this`done, this`current, this`front
      ensures Valid() && Written() == old(Written())
      ensures destinationBuffer == buffer && size == buffer.Length && bytesWritten == 0
    {
      assert allocator.packets != [];
      hide Flatten, PacketSink.Valid, Sunk;
      done, current, front := done + current, [], [];
      destinationBuffer, start, size, bytesWritten := buffer, 0, buffer.Length, 0;
      assert destinationBuffer[..start + bytesWritten] == front + current && allocator.Valid();
      SunkAtStart(allocator);
    }

    /** The destination is a whole buffer, and the text lies in earlier ones. */
    lemma SunkAtStart(sink: PacketSink)
      requires sink.Valid() && sink.Tail().data == destinationBuffer && start == 0 && size == destinationBuffer.Length
      requires sink.tailPacketOffset == sink.Tail().prependPtr == 0 && front == []
      requires Flatten(sink.contents) == initial + done
      ensures Sunk(sink)
    {
      hide Flatten;
      assert Flatten(sink.contents) + front[sink.Tail().prependPtr..] == initial + done;
    }

    /** What is left of a single buffer is what the text does not take. */
    lemma SingleSpace()
      requires Valid() && allocator == null
      ensures Space() == Room(onlyBuffer.Length - |Written()|, []) && |Written()| <= onlyBuffer.Length
    {
    }

    /** A single buffer starts with the text. */
    lemma SingleText()
      requires Valid() && allocator == null
      ensures |Written()| <= onlyBuffer.Length && onlyBuffer[..|Written()|] == Written()
    {
      assert onlyBuffer[..bytesWritten] == [] + current && [] + current == current == Written();
    }

    /** These bytes stand behind what is written, but do not count yet. */
    ghost predicate Ahead(bytes: Text)
      reads this, destinationBuffer
    {
      && bytesWritten + |bytes| <= size && start + bytesWritten + |bytes| <= destinationBuffer.Length
      && destinationBuffer[..start + bytesWritten + |bytes|] == (front + current) + bytes
    }

    /** Counts bytes that were put behind the text, and the text grows by them. */
    method Count(bytes: nat, ghost emitted: Text)
      requires Valid() && bytes == |emitted| && Ahead(emitted)
      modifies this`bytesWritten, this`current
      ensures Valid() && Written() == old(Written()) + emitted && bytesWritten == old(bytesWritten) + bytes
      ensures old(bytesWritten) + bytes <= size && Space() == Used(old(Space()), bytes)
    {
      bytesWritten := bytesWritten + bytes;
      JoinThree(front, current, emitted);
      JoinThree(done, current, emitted);
      current := current + emitted;
    }

    lemma NothingAhead()
      requires Valid()
      ensures Ahead([])
    {
      assert (front + current) + [] == front + current;
    }

    /** _az_update_json_writer_state */
    method UpdateState(bytesWrittenInLast: nat, total: nat, comma: bool, kind: TokenKind, ghost emitted: Text)
      requires Valid() && bytesWrittenInLast == |emitted| && Ahead(emitted)
      modifies this`bytesWritten, this`current, this`totalBytesWritten, this`needComma, this`tokenKind
      ensures Valid() && Written() == old(Written()) + emitted
      ensures totalBytesWritten == old(totalBytesWritten) + total && needComma == comma && tokenKind == kind
      ensures old(bytesWritten) + bytesWrittenInLast <= size && Space() == Used(old(Space()), bytesWrittenInLast)
    {
      hide Ahead, Flatten;
      Count(bytesWrittenInLast, emitted);
      totalBytesWritten := totalBytesWritten + total;
      needComma := comma;
      tokenKind := kind;
    }

    // -------------------------------------------------------------- escaping

    /** _az_json_writer_escape_next_byte_and_copy */
    method EscapeNextByteAndCopy(at: nat, nextByte: Byte) returns (end: nat, written: nat)
      requires Valid() && start + bytesWritten <= at && at + |EscapeByte(nextByte)| <= start + size
      modifies destinationBuffer
      ensures Valid() && written == |EscapeByte(nextByte)| && end == at + written
      ensures destinationBuffer[..end] == old(destinationBuffer[..at]) + EscapeByte(nextByte)
    {
      var escaped := EscapeLetter(nextByte);
      end, written := at, 0;
      if escaped.None? {
        if nextByte < SPACE {
          end := Put(at, [BACKSLASH, LOWER_U, ZERO, ZERO, UpperHex(nextByte / 16), UpperHex(nextByte % 16)]);
          written := written + 6;
        } else {
          end := Put(at, [nextByte]);
          written := written + 1;
        }
      } else {
        end := Put(at, [BACKSLASH]);
        end := Put(end, [escaped.value]);
        written := written + 2;
      }
    }

    /** _az_json_writer_escape_and_copy */
    method EscapeAndCopy(at: nat, source: Text) returns (end: nat)
      requires Valid() && start + bytesWritten <= at && at + |Escape(source)| <= start + size
      modifies destinationBuffer
      ensures Valid() && end == at + |Escape(source)|
      ensures destinationBuffer[..end] == old(destinationBuffer[..at]) + Escape(source)
    {
      hide Escape, EscapeByte, Sunk;
      end := at;
      ghost var before := destinationBuffer[..at];
      EscapeNone(source);
      var i := 0;
      while i < |source|
        invariant 0 <= i <= |source| && Valid()
        invariant start + bytesWritten <= at && end == at + |Escape(source[..i])| <= at + |Escape(source)|
        invariant destinationBuffer[..end] == before + Escape(source[..i])
      {
        EscapePrefix(source, i);
        var written;
        end, written := EscapeNextByteAndCopy(end, source[i]);
        JoinThree(before, Escape(source[..i]), EscapeByte(source[i]));
        i := i + 1;
      }
      assert source[..i] == source;
    }

    /** EscapedLength, which leaves the writer alone. */
    method Measure(value: Text, breakOnFirstEscaped: bool) returns (length: nat, indexOfFirstEscapedChar: int)
      requires Valid() && |value| <= MAX_UNESCAPED_STRING_SIZE
      ensures Valid() && -1 <= indexOfFirstEscapedChar < |value|
      ensures indexOfFirstEscapedChar == -1 ==> AllPlain(value)
      ensures indexOfFirstEscapedChar >= 0 ==>
                AllPlain(value[..indexOfFirstEscapedChar]) && |EscapeByte(value[indexOfFirstEscapedChar])| > 1
      ensures !breakOnFirstEscaped ==> length == |Escape(value)|
    {
      hide Escape, EscapeByte, AllPlain;
      length, indexOfFirstEscapedChar := EscapedLength(value, breakOnFirstEscaped);
    }

    // -------------------------------------------------------------- strings and names that fit one chunk

    /** The bytes of a string between its quotes: what needs no escape at once, the rest byte by byte. */
    method PutEscaped(at: nat, value: Text, indexOfFirstEscapedChar: int) returns (end: nat)
      requires Valid() && start + bytesWritten <= at && at + |Escape(value)| <= start + size
      requires -1 <= indexOfFirstEscapedChar < |value|
      requires AllPlain(if indexOfFirstEscapedChar == -1 then value else value[..indexOfFirstEscapedChar])
      modifies destinationBuffer
      ensures Valid() && end == at + |Escape(value)|
      ensures destinationBuffer[..end] == old(destinationBuffer[..at]) + Escape(value)
    {
      hide Escape, EscapeByte, Sunk;
      if indexOfFirstEscapedChar == -1 {
        EscapePlain(value);
        end := Put(at, value);
      } else {
        var plain, rest := value[..indexOfFirstEscapedChar], value[indexOfFirstEscapedChar..];
        assert value == plain + rest;
        EscapePlain(plain);
        EscapeJoin(plain, rest);
        JoinThree(destinationBuffer[..at], plain, Escape(rest));
        end := Put(at, plain);
        end := EscapeAndCopy(end, rest);
      }
    }

    /** The comma that is due before the next item. */
    method PutComma() returns (at: nat)
      requires Valid() && bytesWritten + |Comma(needComma)| <= size
      modifies destinationBuffer
      ensures Valid() && at == start + bytesWritten + |Comma(needComma)|
      ensures destinationBuffer[..at] ==
              old(destinationBuffer[..start + bytesWritten]) + Comma(needComma)
    {
      at := start + bytesWritten;
      if needComma {
        at := Put(at, [COMMA]);
      }
    }

    /** A quoted text, and after it a given ending. */
    method PutQuotedAt(at: nat, value: Text, indexOfFirstEscapedChar: int, ending: Text)
      requires Valid() && start + bytesWritten <= at && at + |Quoted(value)| + |ending| <= start + size
      requires -1 <= indexOfFirstEscapedChar < |value|
      requires AllPlain(if indexOfFirstEscapedChar == -1 then value else value[..indexOfFirstEscapedChar])
      modifies destinationBuffer
      ensures Valid()
      ensures destinationBuffer[..at + |Quoted(value)| + |ending|] ==
              old(destinationBuffer[..at]) + (Quoted(value) + ending)
    {
      hide Escape, EscapeByte, Sunk, AllPlain;
      ghost var text := destinationBuffer[..at];
      var end := Put(at, [QUOTE]);
      end := PutEscaped(end, value, indexOfFirstEscapedChar);
      end := Put(end, [QUOTE]);
      end := Put(end, ending);
      QuotedParts(text, value, ending);
    }

    /** A quoted text behind what is written, and after it a given ending. */
    method PutQuoted(value: Text, indexOfFirstEscapedChar: int, ending: Text)
      requires Valid() && bytesWritten + |Comma(needComma)| + |Quoted(value)| + |ending| <= size
      requires -1 <= indexOfFirstEscapedChar < |value|
      requires AllPlain(if indexOfFirstEscapedChar == -1 then value else value[..indexOfFirstEscapedChar])
      modifies destinationBuffer
      ensures Valid() && Ahead(Comma(needComma) + (Quoted(value) + ending))
    {
      hide Quoted, Sunk, AllPlain;
      ghost var before := destinationBuffer[..start + bytesWritten];
      var at := PutComma();
      PutQuotedAt(at, value, indexOfFirstEscapedChar, ending);
      JoinThree(before, Comma(needComma), Quoted(value) + ending);
    }

    /** The append has happened: the state, the text and the count of its bytes are as they should be,
        given those before it. */
    ghost predicate Appended(w: Progress, text: Text, total: nat, e: Append)
      reads this, bitStack
    {
      && bitStack.Valid() && CanAppend(w, e) && State() == Advance(w, e)
      && Written() == text + Emit(w, e) && totalBytesWritten == total + |Emit(w, e)|
    }

    /** _az_update_json_writer_state, as an append calls it whose text stands behind what is written. */
    method SetState(e: Append, bytes: nat)
      requires Valid() && bitStack.Valid() && CanAppend(State(), e) && !e.Open? && !e.Close?
      requires bytes == |Emit(State(), e)| && Ahead(Emit(State(), e))
      modifies this`bytesWritten, this`current, this`totalBytesWritten, this`needComma, this`tokenKind
      ensures Valid() && Appended(old(State()), old(Written()), old(totalBytesWritten), e)
      ensures old(bytesWritten) + bytes <= size && Space() == Used(old(Space()), bytes)
    {
      hide Emit, Ahead, CanAppend, JsonStack.Valid, JsonStack.Contents, Valid;
      UpdateState(bytes, bytes, !e.Name?, KindOf(e), Emit(State(), e));
    }

    /** az_json_writer_append_string_small */
    method AppendStringSmall(value: Text, ghost rest: nat) returns (r: AzResult)
      requires Valid() && bitStack.Valid() && CanAppend(State(), Str(value))
      requires |value| <= MAX_UNESCAPED_STRING_SIZE_PER_CHUNK
      modifies this, destinationBuffer, SinkObjects()
      ensures Valid() && fresh(SinkObjects() - old(SinkObjects()))
      ensures destinationBuffer == old(destinationBuffer) || fresh(destinationBuffer)
      ensures r.Ok? || r.NotEnoughSpace?
      ensures r.Ok? ==> Appended(old(State()), old(Written()), old(totalBytesWritten), Str(value))
      ensures Placed(old(Space()), old(State()), Str(value), rest, r)
    {
      hide Appended, Placed, Ask, Escape, EscapeByte, AllPlain, Emit, SizeAsked;
      hide JsonStack.Valid, JsonStack.Contents, Valid;
      var requiredSize := 2;
      if needComma {
        requiredSize := requiredSize + 1;
      }
      var length, indexOfFirstEscapedChar := Measure(value, false);
      requiredSize := requiredSize + length;
      assert requiredSize <= MINIMUM_STRING_CHUNK_SIZE;
      EmitQuoted(State(), Str(value), value, []);
      var remaining := GetRemainingSpan(requiredSize);
      if remaining < requiredSize {
        IsPlaced(old(Space()), old(State()), Str(value), rest, NotEnoughSpace);
        return NotEnoughSpace;
      }
      PutQuoted(value, indexOfFirstEscapedChar, []);
      SetState(Str(value), requiredSize);
      r := Ok;
      IsPlaced(old(Space()), old(State()), Str(value), rest, r);
    }

    /** az_json_writer_append_property_name_small */
    method AppendPropertyNameSmall(name: Text, ghost rest: nat) returns (r: AzResult)
      requires Valid() && bitStack.Valid() && CanAppend(State(), Name(name))
      requires |name| <= MAX_UNESCAPED_STRING_SIZE_PER_CHUNK
      modifies this, destinationBuffer, SinkObjects()
      ensures Valid() && fresh(SinkObjects() - old(SinkObjects()))
      ensures destinationBuffer == old(destinationBuffer) || fresh(destinationBuffer)
      ensures r.Ok? || r.NotEnoughSpace?
      ensures r.Ok? ==> Appended(old(State()), old(Written()), old(totalBytesWritten), Name(name))
      ensures Placed(old(Space()), old(State()), Name(name), rest, r)
    {
      hide Appended, Placed, Ask, Escape, EscapeByte, AllPlain, Emit, SizeAsked;
      hide JsonStack.Valid, JsonStack.Contents, Valid;
      var requiredSize := 3;
      if needComma {
        requiredSize := requiredSize + 1;
      }
      var length, indexOfFirstEscapedChar := Measure(name, false);
      requiredSize := requiredSize + length;
      assert requiredSize <= MINIMUM_STRING_CHUNK_SIZE;
      EmitQuoted(State(), Name(name), name, [COLON]);
      var remaining := GetRemainingSpan(requiredSize);
      if remaining < requiredSize {
        IsPlaced(old(Space()), old(State()), Name(name), rest, NotEnoughSpace);
        return NotEnoughSpace;
      }
      PutQuoted(name, indexOfFirstEscapedChar, [COLON]);
      SetState(Name(name), requiredSize);
      r := Ok;
      IsPlaced(old(Space()), old(State()), Name(name), rest, r);
    }

    // -------------------------------------------------------------- strings and names in chunks

    /** az_json_writer_span_copy_chunked */
    method SpanCopyChunked(remainingJson: nat, value: Text, ghost rest: nat) returns (r: AzResult, remaining: nat)
      requires Valid() && remainingJson == size - bytesWritten
      modifies this`destinationBuffer, this`start, this`size, this`bytesWritten, this`done, this`current, this`front
      modifies destinationBuffer, SinkObjects()
      ensures Valid() && fresh(SinkObjects() - old(SinkObjects()))
      ensures destinationBuffer == old(destinationBuffer) || fresh(destinationBuffer)
      ensures r.Ok? || r.NotEnoughSpace?
      ensures r.Ok? ==> Written() == old(Written()) + value && remaining == size - bytesWritten
      ensures Suffices(old(Space()), |value| + rest) ==> r.Ok? && Suffices(Space(), rest)
      ensures allocator == null ==> (r.Ok? <==> value == [] || |value| < remainingJson)
    {
      hide Suffices, Ask, Sunk, Flatten, Valid;
      remaining := remainingJson;
      if |value| < remaining {
        UseSuffices(Space(), |value|, rest);
        PutCounted(value);
        remaining := remaining - |value|;
      } else {
        var left := value;
        assert Written() + left == old(Written()) + value;
        while |left| != 0
          invariant Valid() && remaining == size - bytesWritten
          invariant fresh(SinkObjects() - old(SinkObjects()))
          invariant destinationBuffer == old(destinationBuffer) || fresh(destinationBuffer)
          invariant Written() + left == old(Written()) + value
          invariant Suffices(old(Space()), |value| + rest) ==> Suffices(Space(), |left| + rest)
          invariant allocator == null ==> left == value && Space() == old(Space())
          decreases |left|, if remaining == 0 then 1 else 0
        {
          var sliceThatFits := left;
          if remaining < |left| {
            sliceThatFits := left[..remaining];
          }
          ghost var before := Written();
          ghost var more := |left| - |sliceThatFits| + rest;
          UseSuffices(Space(), |sliceThatFits|, more);
          AskSuffices(Used(Space(), |sliceThatFits|), MINIMUM_STRING_CHUNK_SIZE, more);
          PutCounted(sliceThatFits);
          assert left == sliceThatFits + left[|sliceThatFits|..];
          JoinThree(before, sliceThatFits, left[|sliceThatFits|..]);
          left := left[|sliceThatFits|..];
          remaining := GetRemainingSpan(MINIMUM_STRING_CHUNK_SIZE);
          if remaining < MINIMUM_STRING_CHUNK_SIZE {
            return NotEnoughSpace, remaining;
          }
        }
        assert Written() + left == Written();
      }
      r := Ok;
    }

    method EscapeCounted(ch: Byte) returns (written: nat)
      requires Valid() && bytesWritten + |EscapeByte(ch)| <= size
      modifies this`bytesWritten, this`current, destinationBuffer
      ensures Valid() && Written() == old(Written()) + EscapeByte(ch) && written == |EscapeByte(ch)|
      ensures bytesWritten == old(bytesWritten) + written
      ensures old(bytesWritten) + written <= size && Space() == Used(old(Space()), written)
    {
      hide EscapeByte, Sunk, Flatten;
      var end;
      assert destinationBuffer[..start + bytesWritten] == front + current;
      end, written := EscapeNextByteAndCopy(start + bytesWritten, ch);
      Count(written, EscapeByte(ch));
    }

    /** Asks for a chunk and puts one escaped byte there, as the loops below do at a byte that needs it. */
    method PutEscapedByte(ch: Byte, ghost rest: nat) returns (r: AzResult, remaining: nat, written: nat)
      requires Valid()
      modifies this`destinationBuffer, this`start, this`size, this`bytesWritten, this`done, this`current, this`front
      modifies destinationBuffer, SinkObjects()
      ensures Valid() && fresh(SinkObjects() - old(SinkObjects()))
      ensures destinationBuffer == old(destinationBuffer) || fresh(destinationBuffer)
      ensures r.Ok? || r.NotEnoughSpace?
      ensures r.Ok? ==> Written() == old(Written()) + EscapeByte(ch) && remaining == size - bytesWritten
      ensures r.Ok? ==> written == |EscapeByte(ch)|
      ensures Suffices(old(Space()), |EscapeByte(ch)| + rest) ==> r.Ok? && Suffices(Space(), rest)
    {
      hide Suffices, Ask, EscapeByte, Sunk, Flatten, SinkObjects, Valid;
      written := 0;
      AskSuffices(Space(), MINIMUM_STRING_CHUNK_SIZE, |EscapeByte(ch)| + rest);
      remaining := GetRemainingSpan(MINIMUM_STRING_CHUNK_SIZE);
      if remaining < MINIMUM_STRING_CHUNK_SIZE {
        return NotEnoughSpace, remaining, written;
      }
      UseSuffices(Space(), |EscapeByte(ch)|, rest);
      written := EscapeCounted(ch);
      r, remaining := Ok, remaining - written;
    }

    /** One turn of the loop that writes a long text: a run of bytes that need no escape, and the byte
        behind it. "extra" is how much longer they become by being escaped. */
    method PutNextRun(remainingJson: nat, valueSlice: Text, ghost rest: nat)
      returns (r: AzResult, remaining: nat, consumed: nat, extra: nat)
      requires Valid() && remainingJson == size - bytesWritten
      requires 1 <= |valueSlice| <= MAX_UNESCAPED_STRING_SIZE
      modifies this`destinationBuffer, this`start, this`size, this`bytesWritten, this`done, this`current, this`front
      modifies destinationBuffer, SinkObjects()
      ensures Valid() && fresh(SinkObjects() - old(SinkObjects()))
      ensures destinationBuffer == old(destinationBuffer) || fresh(destinationBuffer)
      ensures r.Ok? || r.NotEnoughSpace?
      ensures r.Ok? ==> 1 <= consumed <= |valueSlice| && remaining == size - bytesWritten
      ensures r.Ok? ==> Written() == old(Written()) + Escape(valueSlice[..consumed])
      ensures r.Ok? ==> extra == |Escape(valueSlice[..consumed])| - consumed
      ensures Suffices(old(Space()), |Escape(valueSlice)| + rest) ==>
                r.Ok? && Suffices(Space(), |Escape(valueSlice[consumed..])| + rest)
    {
      hide Suffices, Ask, Escape, EscapeByte, Sunk, Flatten, AllPlain, Valid;
      extra, consumed := 0, 0;
      var length, indexOfFirstEscapedChar := Measure(valueSlice, true);
      if indexOfFirstEscapedChar == -1 {
        EscapePlain(valueSlice);
        assert valueSlice[..|valueSlice|] == valueSlice;
        r, remaining := SpanCopyChunked(remainingJson, valueSlice, rest);
        consumed := |valueSlice|;
        assert Escape(valueSlice[consumed..]) == [];
      } else {
        var run, ch := valueSlice[..indexOfFirstEscapedChar], valueSlice[indexOfFirstEscapedChar];
        EscapePlain(run);
        EscapePrefix(valueSlice, indexOfFirstEscapedChar);
        JoinThree(Written(), run, EscapeByte(ch));
        ghost var later := |Escape(valueSlice[indexOfFirstEscapedChar + 1..])| + rest;
        EscapeParts(valueSlice, indexOfFirstEscapedChar);
        r, remaining := SpanCopyChunked(remainingJson, run, |EscapeByte(ch)| + later);
        if !r.Ok? {
          return;
        }
        consumed := indexOfFirstEscapedChar;
        var written;
        r, remaining, written := PutEscapedByte(ch, later);
        if !r.Ok? {
          return;
        }
        extra := written - 1;
        consumed := consumed + 1;
      }
    }

    /** The loop that writes a long text between its quotes. */
    method PutChunks(remainingJson: nat, value: Text, ghost rest: nat) returns (r: AzResult, consumed: nat, extra: nat)
      requires Valid() && remainingJson == size - bytesWritten && 1 <= |value| <= MAX_UNESCAPED_STRING_SIZE
      modifies this`destinationBuffer, this`start, this`size, this`bytesWritten, this`done, this`current, this`front
      modifies destinationBuffer, SinkObjects()
      ensures Valid() && fresh(SinkObjects() - old(SinkObjects()))
      ensures destinationBuffer == old(destinationBuffer) || fresh(destinationBuffer)
      ensures r.Ok? || r.NotEnoughSpace?
      ensures r.Ok? ==> Written() == old(Written()) + Escape(value)
      ensures r.Ok? ==> consumed == |value| && consumed + extra == |Escape(value)|
      ensures Suffices(old(Space()), |Escape(value)| + rest) ==> r.Ok? && Suffices(Space(), rest)
    {
      hide Suffices, Ask, Escape, Sunk, Flatten, Valid;
      var remaining;
      r, remaining, consumed, extra := Ok, remainingJson, 0, 0;
      EscapeNone(value);
      assert value[0..] == value;
      ghost var before := Written();
      while consumed < |value|
        invariant r.Ok? && Valid() && remaining == size - bytesWritten && consumed <= |value|
        invariant fresh(SinkObjects() - old(SinkObjects()))
        invariant destinationBuffer == old(destinationBuffer) || fresh(destinationBuffer)
        invariant Written() == before + Escape(value[..consumed])
        invariant consumed + extra == |Escape(value[..consumed])|
        invariant Suffices(old(Space()), |Escape(value)| + rest) ==>
                    Suffices(Space(), |Escape(value[consumed..])| + rest)
      {
        var valueSlice := value[consumed..];
        var count, more;
        r, remaining, count, more := PutNextRun(remaining, valueSlice, rest);
        if !r.Ok? {
          return;
        }
        assert valueSlice[count..] == value[consumed + count..];
        assert value[..consumed + count] == value[..consumed] + valueSlice[..count];
        EscapeJoin(value[..consumed], valueSlice[..count]);
        JoinThree(before, Escape(value[..consumed]), Escape(valueSlice[..count]));
        extra, consumed := extra + more, consumed + count;
      }
      assert value[..consumed] == value && Escape(value[consumed..]) == [];
    }

    method PutBehind(source: Text)
      requires Valid() && bytesWritten + |source| <= size
      modifies destinationBuffer
      ensures Valid() && Ahead(source)
    {
      hide Sunk;
      var end := Put(start + bytesWritten, source);
    }

    method PutCounted(source: Text)
      requires Valid() && bytesWritten + |source| <= size
      modifies this`bytesWritten, this`current, destinationBuffer
      ensures Valid() && Written() == old(Written()) + source && bytesWritten == old(bytesWritten) + |source|
      ensures old(bytesWritten) + |source| <= size && Space() == Used(old(Space()), |source|)
    {
      hide Sunk;
      PutBehind(source);
      Count(|source|, source);
    }

    /** Asks for a chunk and puts the comma that is due and the opening quote there. */
    method OpenQuoted(ghost rest: nat) returns (r: AzResult)
      requires Valid()
      modifies this`destinationBuffer, this`start, this`size, this`bytesWritten, this`done, this`current, this`front
      modifies destinationBuffer, SinkObjects()
      ensures Valid() && fresh(SinkObjects() - old(SinkObjects()))
      ensures destinationBuffer == old(destinationBuffer) || fresh(destinationBuffer)
      ensures r.Ok? || r.NotEnoughSpace?
      ensures r.Ok? ==> bytesWritten <= size && Written() == (old(Written()) + Comma(needComma)) + [QUOTE]
      ensures Suffices(old(Space()), |Comma(needComma)| + 1 + rest) ==> r.Ok? && Suffices(Space(), rest)
    {
      hide Suffices, Ask, Sunk, Flatten, Valid;
      AskSuffices(Space(), MINIMUM_STRING_CHUNK_SIZE, |Comma(needComma)| + (1 + rest));
      var remaining := GetRemainingSpan(MINIMUM_STRING_CHUNK_SIZE);
      if remaining < MINIMUM_STRING_CHUNK_SIZE {
        return NotEnoughSpace;
      }
      UseSuffices(Space(), |Comma(needComma)|, 1 + rest);
      if needComma {
        PutCounted([COMMA]);
      }
      assert Written() == old(Written()) + Comma(needComma);
      UseSuffices(Space(), 1, rest);
      PutCounted([QUOTE]);
      r := Ok;
    }

    /** What the chunked writers of strings and names share: everything but the ending and the new
        state. "requiredSize" counts the bytes so far and those of the closing quote and the ending. */
    method PutQuotedChunks(value: Text, ending: nat, ghost rest: nat) returns (r: AzResult, requiredSize: nat)
      requires Valid() && 1 <= |value| <= MAX_UNESCAPED_STRING_SIZE
      modifies this`destinationBuffer, this`start, this`size, this`bytesWritten, this`done, this`current, this`front
      modifies destinationBuffer, SinkObjects()
      ensures Valid() && fresh(SinkObjects() - old(SinkObjects()))
      ensures destinationBuffer == old(destinationBuffer) || fresh(destinationBuffer)
      ensures r.Ok? || r.NotEnoughSpace?
      ensures r.Ok? ==> size - bytesWritten >= MINIMUM_STRING_CHUNK_SIZE
      ensures r.Ok? ==> Written() == ((old(Written()) + Comma(needComma)) + [QUOTE]) + Escape(value)
      ensures Suffices(old(Space()), |Comma(needComma)| + 1 + |Escape(value)| + rest) ==>
                r.Ok? && Suffices(Space(), rest)
      ensures r.Ok? ==> requiredSize == |Comma(needComma)| + |Quoted(value)| + ending
    {
      hide Suffices, Ask, Escape, Sunk, Flatten, Valid;
      requiredSize := 2 + ending;
      if needComma {
        requiredSize := requiredSize + 1;
      }
      r := OpenQuoted(|Escape(value)| + rest);
      if !r.Ok? {
        return;
      }
      var consumed, extra;
      r, consumed, extra := PutChunks(size - bytesWritten, value, rest);
      if !r.Ok? {
        return;
      }
      requiredSize := requiredSize + extra;
      AskSuffices(Space(), MINIMUM_STRING_CHUNK_SIZE, rest);
      var remaining := GetRemainingSpan(MINIMUM_STRING_CHUNK_SIZE);
      if remaining < MINIMUM_STRING_CHUNK_SIZE {
        return NotEnoughSpace, requiredSize;
      }
      requiredSize := requiredSize + consumed;
    }

    /** When this finds space: in a single buffer exactly if there is a chunk more than the bytes take. */
    method PutLong(value: Text, ending: nat, ghost rest: nat) returns (r: AzResult, requiredSize: nat)
      requires Valid() && 1 <= |value| <= MAX_UNESCAPED_STRING_SIZE
      modifies this`destinationBuffer, this`start, this`size, this`bytesWritten, this`done, this`current, this`front
      modifies destinationBuffer, SinkObjects()
      ensures Valid() && fresh(SinkObjects() - old(SinkObjects()))
      ensures destinationBuffer == old(destinationBuffer) || fresh(destinationBuffer)
      ensures r.Ok? || r.NotEnoughSpace?
      ensures r.Ok? ==> size - bytesWritten >= MINIMUM_STRING_CHUNK_SIZE
      ensures r.Ok? ==> Written() == ((old(Written()) + Comma(needComma)) + [QUOTE]) + Escape(value)
      ensures r.Ok? ==> requiredSize == |Comma(needComma)| + |Quoted(value)| + ending
      ensures var chunks := |Comma(needComma)| + 1 + |Escape(value)|;
              && (Suffices(old(Space()), chunks + rest) ==> r.Ok? && Suffices(Space(), rest))
              && (allocator == null ==> (r.Ok? <==> old(Space()).left >= chunks + MINIMUM_STRING_CHUNK_SIZE))
    {
      hide Escape, Quoted, Suffices, Comma, SinkObjects, Valid;
      ghost var chunks := |Comma(needComma)| + 1 + |Escape(value)|;
      if allocator == null {
        SingleSpace();
        SingleSuffices(Space(), chunks, rest);
      }
      r, requiredSize := PutQuotedChunks(value, ending, if allocator == null then 0 else rest);
      if r.Ok? && allocator == null {
        SingleSpace();
        SingleSuffices(Space(), 0, rest);
      }
    }

    /** The closing quote and the ending. */
    method CloseQuoted(value: Text, ending: Text, ghost before: Text)
      requires Valid() && bytesWritten + 1 + |ending| <= size
      requires Written() == ((before + Comma(needComma)) + [QUOTE]) + Escape(value)
      modifies this`bytesWritten, this`current, destinationBuffer
      ensures Valid() && Ahead([])
      ensures old(bytesWritten) + 1 + |ending| <= size && Space() == Used(old(Space()), 1 + |ending|)
      ensures Written() == before + (Comma(needComma) + (Quoted(value) + ending))
    {
      hide Escape, Quoted, Valid;
      PutCounted([QUOTE]);
      PutCounted(ending);
      QuotedParts(before + Comma(needComma), value, ending);
      JoinThree(before, Comma(needComma), Quoted(value) + ending);
      NothingAhead();
    }

    /** The closing quote, the ending and the new state. */
    method CloseLong(e: Append, value: Text, ending: Text, total: nat, ghost before: Text)
      requires Valid() && bitStack.Valid() && CanAppend(State(), e) && bytesWritten + 1 + |ending| <= size
      requires (e == Str(value) && ending == []) || (e == Name(value) && ending == [COLON])
      requires Written() == ((before + Comma(needComma)) + [QUOTE]) + Escape(value)
      requires total == |Comma(needComma)| + |Quoted(value)| + |ending|
      modifies this`bytesWritten, this`current, this`totalBytesWritten, this`needComma, this`tokenKind
      modifies destinationBuffer
      ensures Valid() && Appended(old(State()), before, old(totalBytesWritten), e)
      ensures old(bytesWritten) + 1 + |ending| <= size && Space() == Used(old(Space()), 1 + |ending|)
    {
      EmitQuoted(State(), e, value, ending);
      hide Emit, Escape, Quoted, Comma, Ahead, CanAppend, JsonStack.Valid, JsonStack.Contents, Valid;
      CloseQuoted(value, ending, before);
      hide Written, Space, Used;
      UpdateState(0, total, !e.Name?, KindOf(e), []);
      assert Written() == before + Emit(old(State()), e);
      UsesOnce(old(Space()), 1 + |ending|);
    }

    lemma UsesOnce(room: Room, bytes: nat)
      requires bytes <= room.left
      ensures Used(Used(room, bytes), 0) == Used(room, bytes)
    {
    }

    /** az_json_writer_append_string_chunked */
    method AppendStringChunked(value: Text, ghost rest: nat) returns (r: AzResult)
      requires Valid() && bitStack.Valid() && CanAppend(State(), Str(value))
      requires MAX_UNESCAPED_STRING_SIZE_PER_CHUNK < |value| <= MAX_UNESCAPED_STRING_SIZE
      modifies this, destinationBuffer, SinkObjects()
      ensures Valid() && fresh(SinkObjects() - old(SinkObjects()))
      ensures destinationBuffer == old(destinationBuffer) || fresh(destinationBuffer)
      ensures r.Ok? || r.NotEnoughSpace?
      ensures r.Ok? ==> Appended(old(State()), old(Written()), old(totalBytesWritten), Str(value))
      ensures Placed(old(Space()), old(State()), Str(value), rest, r)
    {
      hide Escape, Quoted, Sunk, Flatten, JsonStack.Valid, JsonStack.Contents, Valid;
      hide Appended, Suffices, Placed, Comma, SinkObjects;
      var requiredSize;
      ghost var chunks := |Comma(needComma)| + 1 + |Escape(value)|;
      SizeOfLong(State(), Str(value));
      r, requiredSize := PutLong(value, 0, 1 + rest);
      if !r.Ok? {
        IsPlacedLong(old(Space()), old(State()), Str(value), chunks, rest, r);
        return;
      }
      UseSuffices(Space(), 1, rest);
      CloseLong(Str(value), value, [], requiredSize, old(Written()));
      IsPlacedLong(old(Space()), old(State()), Str(value), chunks, rest, r);
    }

    /** az_json_writer_append_property_name_chunked */
    method AppendPropertyNameChunked(name: Text, ghost rest: nat) returns (r: AzResult)
      requires Valid() && bitStack.Valid() && CanAppend(State(), Name(name))
      requires MAX_UNESCAPED_STRING_SIZE_PER_CHUNK < |name| <= MAX_UNESCAPED_STRING_SIZE
      modifies this, destinationBuffer, SinkObjects()
      ensures Valid() && fresh(SinkObjects() - old(SinkObjects()))
      ensures destinationBuffer == old(destinationBuffer) || fresh(destinationBuffer)
      ensures r.Ok? || r.NotEnoughSpace?
      ensures r.Ok? ==> Appended(old(State()), old(Written()), old(totalBytesWritten), Name(name))
      ensures Placed(old(Space()), old(State()), Name(name), rest, r)
    {
      hide Escape, Quoted, Sunk, Flatten, JsonStack.Valid, JsonStack.Contents, Valid;
      hide Appended, Suffices, Placed, Comma, SinkObjects;
      var requiredSize;
      ghost var chunks := |Comma(needComma)| + 1 + |Escape(name)|;
      SizeOfLong(State(), Name(name));
      r, requiredSize := PutLong(name, 1, 2 + rest);
      if !r.Ok? {
        IsPlacedLong(old(Space()), old(State()), Name(name), chunks, rest, r);
        return;
      }
      UseSuffices(Space(), 2, rest);
      CloseLong(Name(name), name, [COLON], requiredSize, old(Written()));
      IsPlacedLong(old(Space()), old(State()), Name(name), chunks, rest, r);
    }

    /** az_json_writer_append_string */
    method AppendString(value: Text, ghost rest: nat) returns (r: AzResult)
      requires Valid() && bitStack.Valid() && CanAppend(State(), Str(value))
      requires |value| <= MAX_UNESCAPED_STRING_SIZE
      modifies this, destinationBuffer, SinkObjects()
      ensures Valid() && fresh(SinkObjects() - old(SinkObjects()))
      ensures destinationBuffer == old(destinationBuffer) || fresh(destinationBuffer)
      ensures r.Ok? || r.NotEnoughSpace?
      ensures r.Ok? ==> Appended(old(State()), old(Written()), old(totalBytesWritten), Str(value))
      ensures Placed(old(Space()), old(State()), Str(value), rest, r)
    {
      hide Valid, Appended, SinkObjects;
      if |value| <= MAX_UNESCAPED_STRING_SIZE_PER_CHUNK {
        r := AppendStringSmall(value, rest);
      } else {
        r := AppendStringChunked(value, rest);
      }
    }

    /** az_json_writer_append_property_name */
    method AppendPropertyName(name: Text, ghost rest: nat) returns (r: AzResult)
      requires Valid() && bitStack.Valid() && CanAppend(State(), Name(name))
      requires |name| <= MAX_UNESCAPED_STRING_SIZE
      modifies this, destinationBuffer, SinkObjects()
      ensures Valid() && fresh(SinkObjects() - old(SinkObjects()))
      ensures destinationBuffer == old(destinationBuffer) || fresh(destinationBuffer)
      ensures r.Ok? || r.NotEnoughSpace?
      ensures r.Ok? ==> Appended(old(State()), old(Written()), old(totalBytesWritten), Name(name))
      ensures Placed(old(Space()), old(State()), Name(name), rest, r)
    {
      hide Valid, Appended, SinkObjects;
      if |name| <= MAX_UNESCAPED_STRING_SIZE_PER_CHUNK {
        r := AppendPropertyNameSmall(name, rest);
      } else {
        r := AppendPropertyNameChunked(name, rest);
      }
    }

    // -------------------------------------------------------------- literals, numbers and containers

    /** A short item behind what is written, and before it the comma that is due. */
    method PutItem(item: Text)
      requires Valid() && bytesWritten + |Comma(needComma)| + |item| <= size
      modifies destinationBuffer
      ensures Valid() && Ahead(Comma(needComma) + item)
    {
      hide Sunk;
      ghost var before := destinationBuffer[..start + bytesWritten];
      var at := PutComma();
      at := Put(at, item);
      JoinThree(before, Comma(needComma), item);
    }

    /** _az_json_writer_append_literal */
    method AppendLiteral(kind: TokenKind, ghost rest: nat) returns (r: AzResult)
      requires Valid() && bitStack.Valid() && CanAppend(State(), Lit(kind))
      modifies this, destinationBuffer, SinkObjects()
      ensures Valid() && fresh(SinkObjects() - old(SinkObjects()))
      ensures destinationBuffer == old(destinationBuffer) || fresh(destinationBuffer)
      ensures r.Ok? || r.NotEnoughSpace?
      ensures r.Ok? ==> Appended(old(State()), old(Written()), old(totalBytesWritten), Lit(kind))
      ensures Placed(old(Space()), old(State()), Lit(kind), rest, r)
    {
      hide Appended, Placed, Ask, JsonStack.Valid, JsonStack.Contents, Valid, SinkObjects;
      var literal := JsonGrammar.LiteralText(kind);
      var requiredSize := |literal|;
      if needComma {
        requiredSize := requiredSize + 1;
      }
      var remaining := GetRemainingSpan(requiredSize);
      if remaining < requiredSize {
        IsPlaced(old(Space()), old(State()), Lit(kind), rest, NotEnoughSpace);
        return NotEnoughSpace;
      }
      PutItem(literal);
      SetState(Lit(kind), requiredSize);
      r := Ok;
      IsPlaced(old(Space()), old(State()), Lit(kind), rest, r);
    }

    /** az_span_i32toa into the destination. */
    method PutInt32(at: nat, value: int) returns (r: AzResult, end: nat)
      requires Valid() && -Decimal.INT32_MAX - 1 <= value <= Decimal.INT32_MAX
      requires start + bytesWritten <= at && at + Decimal.MAX_SIZE_FOR_INT32 <= start + size
      modifies destinationBuffer
      ensures Valid() && r.Ok? && end == at + |Decimal.SignedDigits(value)| <= at + Decimal.MAX_SIZE_FOR_INT32
      ensures destinationBuffer[..end] == old(destinationBuffer[..at]) + Decimal.SignedDigits(value)
    {
      hide Flatten, Decimal.SignedDigits;
      Decimal.Int32Size(value);
      ghost var written := start + bytesWritten;
      ghost var before := destinationBuffer[..at];
      r, end := Decimal.PrintInt32(destinationBuffer, at, value);
      assert destinationBuffer[..end] == before + destinationBuffer[at..end];
      assert destinationBuffer[..written] == before[..written];
    }

    /** The comma that is due and the number, of which "written" counts the number's bytes. */
    method PutNumber(value: int) returns (r: AzResult, written: nat)
      requires Valid() && -Decimal.INT32_MAX - 1 <= value <= Decimal.INT32_MAX
      requires bytesWritten + |Comma(needComma)| + Decimal.MAX_SIZE_FOR_INT32 <= size
      modifies destinationBuffer
      ensures Valid() && r.Ok? && written == |Decimal.SignedDigits(value)|
      ensures Ahead(Comma(needComma) + Decimal.SignedDigits(value))
    {
      hide Sunk, Decimal.SignedDigits;
      ghost var before := destinationBuffer[..start + bytesWritten];
      var at := PutComma();
      var leftover;
      r, leftover := PutInt32(at, value);
      written := leftover - at;
      JoinThree(before, Comma(needComma), Decimal.SignedDigits(value));
    }

    /** az_json_writer_append_int32 */
    method AppendInt32(value: int, ghost rest: nat) returns (r: AzResult)
      requires Valid() && bitStack.Valid() && CanAppend(State(), Int32(value))
      modifies this, destinationBuffer, SinkObjects()
      ensures Valid() && fresh(SinkObjects() - old(SinkObjects()))
      ensures destinationBuffer == old(destinationBuffer) || fresh(destinationBuffer)
      ensures r.Ok? || r.NotEnoughSpace?
      ensures r.Ok? ==> Appended(old(State()), old(Written()), old(totalBytesWritten), Int32(value))
      ensures Placed(old(Space()), old(State()), Int32(value), rest, r)
    {
      hide Appended, Placed, Ask, JsonStack.Valid, JsonStack.Contents, Decimal.SignedDigits, Valid, SinkObjects;
      var requiredSize := Decimal.MAX_SIZE_FOR_INT32;
      if needComma {
        requiredSize := requiredSize + 1;
      }
      var remaining := GetRemainingSpan(requiredSize);
      if remaining < requiredSize {
        IsPlaced(old(Space()), old(State()), Int32(value), rest, NotEnoughSpace);
        return NotEnoughSpace;
      }
      ShortAsksForAChunk(State(), Int32(value));
      var written;
      r, written := PutNumber(value);
      if !r.Ok? {
        return;
      }
      written := requiredSize + written - Decimal.MAX_SIZE_FOR_INT32;
      SetState(Int32(value), written);
      IsPlaced(old(Space()), old(State()), Int32(value), rest, r);
    }

    method PushItem(item: Item)
      requires Valid() && bitStack.Valid() && bitStack.currentDepth < MAX_DEPTH
      modifies bitStack
      ensures Valid() && bitStack.Valid() && bitStack.Contents() == old(bitStack.Contents()) + [item]
    {
      hide Flatten, JsonStack.Contents;
      bitStack.Push(item);
    }

    method PopItem()
      requires Valid() && bitStack.Valid() && bitStack.currentDepth > 0
      modifies bitStack
      ensures Valid() && bitStack.Valid()
      ensures bitStack.Contents() == old(bitStack.Contents())[..|old(bitStack.Contents())| - 1]
    {
      hide Flatten, JsonStack.Contents;
      var innermost := bitStack.Pop();
    }

    /** The opening bracket, and the nesting with the container. */
    method PutStart(item: Item, requiredSize: nat)
      requires Valid() && bitStack.Valid() && CanAppend(State(), Open(item)) && bitStack.currentDepth < MAX_DEPTH
      requires requiredSize == |Comma(needComma)| + 1 && bytesWritten + requiredSize <= size
      modifies this`bytesWritten, this`current, this`totalBytesWritten, this`needComma, this`tokenKind
      modifies bitStack, destinationBuffer
      ensures Valid() && Appended(old(State()), old(Written()), old(totalBytesWritten), Open(item))
      ensures old(bytesWritten) + requiredSize <= size && Space() == Used(old(Space()), requiredSize)
    {
      hide Ahead, JsonStack.Contents, Items, Valid;
      PutItem([JsonGrammar.OpenByte(item)]);
      ghost var text := Comma(needComma) + [JsonGrammar.OpenByte(item)];
      UpdateState(requiredSize, requiredSize, false, if item.Object? then BeginObject else BeginArray, text);
      PushItem(item);
    }

    /** _az_json_writer_append_container_start */
    method AppendContainerStart(item: Item, ghost rest: nat) returns (r: AzResult)
      requires Valid() && bitStack.Valid() && CanAppend(State(), Open(item))
      modifies this, bitStack, destinationBuffer, SinkObjects()
      ensures Valid() && fresh(SinkObjects() - old(SinkObjects()))
      ensures destinationBuffer == old(destinationBuffer) || fresh(destinationBuffer)
      ensures r.NestingOverflow? <==> Overflows(old(State()), Open(item))
      ensures r.Ok? || r.NotEnoughSpace? || r.NestingOverflow?
      ensures r.Ok? ==> Appended(old(State()), old(Written()), old(totalBytesWritten), Open(item))
      ensures !r.NestingOverflow? ==> Placed(old(Space()), old(State()), Open(item), rest, r)
    {
      hide Appended, Placed, Ask, JsonStack.Contents, Items, Valid, SinkObjects;
      if bitStack.currentDepth >= MAX_DEPTH {
        return NestingOverflow;
      }
      var requiredSize := 1;
      if needComma {
        requiredSize := requiredSize + 1;
      }
      var remaining := GetRemainingSpan(requiredSize);
      if remaining < requiredSize {
        IsPlaced(old(Space()), old(State()), Open(item), rest, NotEnoughSpace);
        return NotEnoughSpace;
      }
      PutStart(item, requiredSize);
      r := Ok;
      IsPlaced(old(Space()), old(State()), Open(item), rest, r);
    }

    /** The closing bracket, and the nesting without the container. */
    method PutEnd(item: Item)
      requires Valid() && bitStack.Valid() && CanAppend(State(), Close(item)) && bytesWritten + 1 <= size
      modifies this`bytesWritten, this`current, this`totalBytesWritten, this`needComma, this`tokenKind
      modifies bitStack, destinationBuffer
      ensures Valid() && Appended(old(State()), old(Written()), old(totalBytesWritten), Close(item))
      ensures old(bytesWritten) + 1 <= size && Space() == Used(old(Space()), 1)
    {
      hide Ahead, Sunk, Flatten, JsonStack.Contents, Items, Valid;
      ghost var text := [] + [JsonGrammar.CloseByte(item)];
      assert text == [JsonGrammar.CloseByte(item)];
      PutBehind([JsonGrammar.CloseByte(item)]);
      UpdateState(1, 1, true, if item.Object? then EndObject else EndArray, text);
      PopItem();
    }

    /** az_json_writer_append_container_end */
    method AppendContainerEnd(item: Item, ghost rest: nat) returns (r: AzResult)
      requires Valid() && bitStack.Valid() && CanAppend(State(), Close(item))
      modifies this, bitStack, destinationBuffer, SinkObjects()
      ensures Valid() && fresh(SinkObjects() - old(SinkObjects()))
      ensures destinationBuffer == old(destinationBuffer) || fresh(destinationBuffer)
      ensures r.Ok? || r.NotEnoughSpace?
      ensures r.Ok? ==> Appended(old(State()), old(Written()), old(totalBytesWritten), Close(item))
      ensures Placed(old(Space()), old(State()), Close(item), rest, r)
    {
      hide Appended, Placed, Ask, Sunk, Flatten, JsonStack.Contents, Items, Valid, SinkObjects;
      var requiredSize := 1;
      var remaining := GetRemainingSpan(requiredSize);
      if remaining < requiredSize {
        IsPlaced(old(Space()), old(State()), Close(item), rest, NotEnoughSpace);
        return NotEnoughSpace;
      }
      PutEnd(item);
      r := Ok;
      IsPlaced(old(Space()), old(State()), Close(item), rest, r);
    }

    // -------------------------------------------------------------- JSON text

    /** _az_validate_json, which leaves the writer alone. */
    method Validate(jsonText: Text) returns (r: AzResult, lastTokenKind: TokenKind)
      requires Valid() && |jsonText| >= 1
      ensures Valid() && (r.Ok? <==> JsonGrammar.IsJson(jsonText))
      ensures !r.Ok? ==> IsScanError(r) || r.NestingOverflow?
      ensures r.Ok? ==> !lastTokenKind.NoToken? && !IsBegin(lastTokenKind) && !lastTokenKind.PropertyName?
    {
      hide JsonGrammar.IsJson, Flatten;
      var firstTokenKind;
      r, firstTokenKind, lastTokenKind := JsonReading.ValidateJson(jsonText);
    }

    /** _az_is_appending_value_valid, called at run time. */
    method IsAppendingValueValid() returns (valid: bool)
      requires Valid() && bitStack.Valid()
      ensures Valid() && bitStack.Valid() && valid == CanAppendValue(State())
    {
      hide JsonStack.Contents;
      if bitStack.Peek().Object? {
        valid := tokenKind.PropertyName?;
      } else if tokenKind.PropertyName? || tokenKind.BeginObject? {
        valid := false;
      } else {
        valid := bitStack.currentDepth != 0 || tokenKind.NoToken?;
      }
    }

    /** The comma that is due and a JSON text, over as many buffers as it takes. */
    method PutJsonText(jsonText: Text, ghost rest: nat) returns (r: AzResult)
      requires Valid() && |jsonText| >= 1
      modifies this`destinationBuffer, this`start, this`size, this`bytesWritten, this`done, this`current, this`front
      modifies destinationBuffer, SinkObjects()
      ensures Valid() && fresh(SinkObjects() - old(SinkObjects()))
      ensures destinationBuffer == old(destinationBuffer) || fresh(destinationBuffer)
      ensures r.Ok? || r.NotEnoughSpace?
      ensures r.Ok? ==> Written() == old(Written()) + (Comma(needComma) + jsonText)
      ensures var bytes := |Comma(needComma)| + |jsonText|;
              && (Suffices(old(Space()), bytes + rest) ==> r.Ok? && Suffices(Space(), rest))
              && (allocator == null ==>
                    (r.NotEnoughSpace? <==>
                     old(Space()).left < MINIMUM_STRING_CHUNK_SIZE || old(Space()).left <= bytes))
    {
      hide Suffices, Ask, Flatten, Valid;
      AskSuffices(Space(), MINIMUM_STRING_CHUNK_SIZE, |Comma(needComma)| + (|jsonText| + rest));
      var remaining := GetRemainingSpan(MINIMUM_STRING_CHUNK_SIZE);
      if remaining < MINIMUM_STRING_CHUNK_SIZE {
        return NotEnoughSpace;
      }
      UseSuffices(Space(), |Comma(needComma)|, |jsonText| + rest);
      if needComma {
        PutCounted([COMMA]);
        remaining := remaining - 1;
      }
      assert Written() == old(Written()) + Comma(needComma);
      JoinThree(old(Written()), Comma(needComma), jsonText);
      r, remaining := SpanCopyChunked(remaining, jsonText, rest);
    }

    /** Which result the append of a JSON text has, and what it leaves. */
    ghost predicate TextPlaced(before: Room, w: Progress, jsonText: Text, rest: nat, r: AzResult)
      reads this`size, this`bytesWritten, if allocator == null then {} else {allocator.pool}
    {
      var bytes := |Comma(w.needComma)| + |jsonText|;
      if !JsonGrammar.IsJson(jsonText) then IsScanError(r) || r.NestingOverflow?
      else if !CanAppendValue(w) then r.InvalidState?
      else
        && (r.Ok? || r.NotEnoughSpace?)
        && (Suffices(before, bytes + rest) ==> r.Ok? && Suffices(Space(), rest))
        && (allocator == null ==>
              (r.NotEnoughSpace? <==> before.left < MINIMUM_STRING_CHUNK_SIZE || before.left <= bytes))
    }

    /** az_json_writer_append_json_text. The comma that is due is written but not counted, so the count
        of the bytes is right exactly when none is due. */
    method AppendJsonText(jsonText: Text, ghost rest: nat) returns (r: AzResult)
      requires Valid() && bitStack.Valid() && |jsonText| >= 1
      modifies this, destinationBuffer, SinkObjects()
      ensures Valid() && fresh(SinkObjects() - old(SinkObjects()))
      ensures destinationBuffer == old(destinationBuffer) || fresh(destinationBuffer)
      ensures r.Ok? ==>
                && JsonGrammar.IsJson(jsonText) && CanAppendValue(old(State())) && bitStack.Valid()
                && Written() == old(Written()) + (Comma(old(needComma)) + jsonText)
                && State() == old(State()).(kind := tokenKind, needComma := true)
                && !tokenKind.NoToken? && !IsBegin(tokenKind) && !tokenKind.PropertyName?
      ensures r.Ok? ==>
                (totalBytesWritten - old(totalBytesWritten) == |Written()| - |old(Written())| <==> !old(needComma))
      ensures TextPlaced(old(Space()), old(State()), jsonText, rest, r)
    {
      hide Suffices, Ask, JsonGrammar.IsJson, Flatten, Valid, JsonStack.Valid, JsonStack.Contents;
      var lastTokenKind;
      r, lastTokenKind := Validate(jsonText);
      if !r.Ok? {
        return;
      }
      var valid := IsAppendingValueValid();
      if !valid {
        return InvalidState;
      }
      r := PutJsonText(jsonText, rest);
      if !r.Ok? {
        return;
      }
      NothingAhead();
      UpdateState(0, |jsonText|, true, lastTokenKind, []);
      ghost var text := old(Written()) + (Comma(old(needComma)) + jsonText);
      assert text + [] == text;
    }

    // -------------------------------------------------------------- any append

    method Append(e: Append, ghost rest: nat) returns (r: AzResult)
      requires Valid() && bitStack.Valid() && CanAppend(State(), e) && SizeIsSupported(e)
      modifies this, bitStack, destinationBuffer, SinkObjects()
      ensures Valid() && fresh(SinkObjects() - old(SinkObjects()))
      ensures destinationBuffer == old(destinationBuffer) || fresh(destinationBuffer)
      ensures r.NestingOverflow? <==> Overflows(old(State()), e)
      ensures r.Ok? || r.NotEnoughSpace? || r.NestingOverflow?
      ensures r.Ok? ==> Appended(old(State()), old(Written()), old(totalBytesWritten), e)
      ensures !r.NestingOverflow? ==> Placed(old(Space()), old(State()), e, rest, r)
    {
      hide Valid, Appended, State;
      match e {
        case Open(item) => r := AppendContainerStart(item, rest);
        case Close(item) => r := AppendContainerEnd(item, rest);
        case Name(name) => r := AppendPropertyName(name, rest);
        case Str(text) => r := AppendString(text, rest);
        case Lit(kind) => r := AppendLiteral(kind, rest);
        case Int32(v) => r := AppendInt32(v, rest);
      }
    }

    /** The nx_azure_iot_json_writer_append functions: the append, and if it succeeded the update of the
        packets, if there are any. */
    method AppendAndUpdate(e: Append, ghost rest: nat) returns (r: AzResult)
      requires Valid() && bitStack.Valid() && CanAppend(State(), e) && SizeIsSupported(e)
      modifies this, bitStack, destinationBuffer, SinkObjects()
      ensures Valid() && fresh(SinkObjects() - old(SinkObjects()))
      ensures destinationBuffer == old(destinationBuffer) || fresh(destinationBuffer)
      ensures r.NestingOverflow? <==> Overflows(old(State()), e)
      ensures r.Ok? || r.NotEnoughSpace? || r.NestingOverflow?
      ensures r.Ok? ==> Appended(old(State()), old(Written()), old(totalBytesWritten), e)
      ensures !r.NestingOverflow? ==> Placed(old(Space()), old(State()), e, rest, r)
      ensures r.Ok? && allocator != null ==>
                && Payload(allocator.packets) == initial + Written()
                && allocator.packetPtr.length == allocator.packetInitLength + totalBytesWritten
    {
      hide State, Sunk, CanAppend;
      r := Append(e, rest);
      if r.Ok? && allocator != null {
        UpdatePackets();
      }
    }

    /** The call of nx_azure_iot_json_writer_packet_update. */
    method UpdatePackets()
      requires Valid() && allocator != null
      modifies set p | p in allocator.packets
      ensures Valid() && SinkObjects() == old(SinkObjects())
      ensures Payload(allocator.packets) == initial + Written()
      ensures allocator.packetPtr.length == allocator.packetInitLength + totalBytesWritten
    {
      hide Flatten, Payload;
      CarriedIsWritten();
      ghost var prepend := allocator.Tail().prependPtr;
      allocator.Update(bytesWritten, totalBytesWritten);
    }

    /** nx_azure_iot_json_writer_append_json_text: the packets carry the text, but their length field is
        right only if no comma was due. */
    method AppendJsonTextAndUpdate(jsonText: Text, ghost rest: nat) returns (r: AzResult)
      requires Valid() && bitStack.Valid() && |jsonText| >= 1 && totalBytesWritten == |Written()|
      modifies this, bitStack, destinationBuffer, SinkObjects()
      ensures Valid() && fresh(SinkObjects() - old(SinkObjects()))
      ensures TextPlaced(old(Space()), old(State()), jsonText, rest, r)
      ensures r.Ok? ==> Written() == old(Written()) + (Comma(old(needComma)) + jsonText)
      ensures r.Ok? && allocator != null ==>
                && Payload(allocator.packets) == initial + Written()
                && (allocator.packetPtr.length == allocator.packetInitLength + |Written()| <==> !old(needComma))
    {
      hide State, Sunk, CanAppend, Valid, JsonGrammar.IsJson;
      r := AppendJsonText(jsonText, rest);
      if r.Ok? && allocator != null {
        UpdatePackets();
      }
    }
  }

  lemma EmitQuoted(w: Progress, e: Append, value: Text, ending: Text)
    requires (e == Str(value) && ending == []) || (e == Name(value) && ending == [COLON])
    ensures Emit(w, e) == Comma(w.needComma) + (Quoted(value) + ending)
    ensures SizeAsked(w, e) == |Emit(w, e)| == |Comma(w.needComma)| + |Quoted(value)| + |ending|
  {
    assert Quoted(value) + [] == Quoted(value);
  }

  lemma QuotedParts(before: Text, s: Text, ending: Text)
    ensures (((before + [QUOTE]) + Escape(s)) + [QUOTE]) + ending == before + (Quoted(s) + ending)
  {
    hide Escape;
  }

  lemma EscapeNone(s: Text)
    ensures Escape(s[..0]) == []
  {
  }

  /** One more byte of a text to escape; what is escaped so far is no longer than the whole. */
  lemma EscapePrefix(s: Text, i: nat)
    requires i < |s|
    ensures Escape(s[..i + 1]) == Escape(s[..i]) + EscapeByte(s[i])
    ensures |Escape(s[..i + 1])| <= |Escape(s)|
  {
    assert s[..i + 1] == s[..i] + [s[i]];
    EscapeJoin(s[..i], [s[i]]);
    EscapeOne(s[i]);
    assert s == s[..i + 1] + s[i + 1..];
    EscapeJoin(s[..i + 1], s[i + 1..]);
  }

  /** What is escaped of a text is what is escaped of its parts. */
  lemma EscapeParts(s: Text, i: nat)
    requires i < |s|
    ensures |Escape(s)| == |Escape(s[..i])| + (|EscapeByte(s[i])| + |Escape(s[i + 1..])|)
  {
    EscapePrefix(s, i);
    assert s == s[..i + 1] + s[i + 1..];
    EscapeJoin(s[..i + 1], s[i + 1..]);
  }

  lemma EscapeSize(b: Byte)
    ensures |EscapeByte(b)| == if EscapeLetter(b).Some? then 2 else if b < SPACE then 6 else 1
  {
  }

  /** The first of "count" bytes that needs an escape is at "index", or none does and it is -1. */
  ghost predicate FirstEscaped(value: Text, count: nat, index: int)
    requires count <= |value|
  {
    if index == -1 then AllPlain(value[..count])
    else 0 <= index < count && AllPlain(value[..index]) && |EscapeByte(value[index])| > 1
  }

  lemma FirstOfMore(value: Text, i: nat, index: int)
    requires i < |value| && FirstEscaped(value, i, index)
    ensures FirstEscaped(value, i + 1, if index == -1 && |EscapeByte(value[i])| > 1 then i else index)
  {
    hide EscapeByte;
    var x, y := value[..i], value[..i + 1];
    assert forall k :: 0 <= k < i ==> x[k] == y[k];
    assert y[i] == value[i];
  }

  /** _az_json_writer_escaped_length: the length of the text once escaped, and the index of the first
      byte that needs it, or -1. If asked to, the count ends at that byte. */
  method EscapedLength(value: Text, breakOnFirstEscaped: bool) returns (length: nat, indexOfFirstEscapedChar: int)
    requires |value| <= MAX_UNESCAPED_STRING_SIZE
    ensures -1 <= indexOfFirstEscapedChar < |value| && FirstEscaped(value, |value|, indexOfFirstEscapedChar)
    ensures indexOfFirstEscapedChar == -1 ==> AllPlain(value)
    ensures length == |Escape(if breakOnFirstEscaped && indexOfFirstEscapedChar >= 0
                              then value[..indexOfFirstEscapedChar + 1] else value)|
    ensures length <= Decimal.INT32_MAX
  {
    assert FirstEscaped(value, 0, -1);
    hide Escape, EscapeByte, FirstEscaped;
    length, indexOfFirstEscapedChar := 0, -1;
    EscapeNone(value);
    var i := 0;
    while i < |value|
      invariant 0 <= i <= |value| && length == |Escape(value[..i])|
      invariant FirstEscaped(value, i, indexOfFirstEscapedChar)
      invariant breakOnFirstEscaped ==> indexOfFirstEscapedChar == -1
      invariant indexOfFirstEscapedChar == -1 ==> length == i
    {
      var ch := value[i];
      EscapePrefix(value, i);
      FirstOfMore(value, i, indexOfFirstEscapedChar);
      EscapeSize(ch);
      if EscapeLetter(ch).Some? {
        length := length + 2;
      } else if ch < SPACE {
        length := length + 6;
      } else {
        length := length + 1;
      }
      i := i + 1;
      if length != i && indexOfFirstEscapedChar == -1 {
        indexOfFirstEscapedChar := i - 1;
        if breakOnFirstEscaped {
          return;
        }
      }
    }
    assert value[..i] == value;
  }
}
