/** The token that the reader hands out (az_json_token). */
module JsonToken {
  import opened Bytes
  import opened ReaderSpec
  import opened Segments

  /** "slice" is the token's text when it lies in one buffer, and its last piece otherwise. */
  datatype JsonToken = JsonToken(
    kind: TokenKind,
    slice: Text,
    size: int,
    isMultisegment: bool,
    stringHasEscapedChars: bool,
    buffers: seq<Text>,
    startBufferIndex: int,
    startBufferOffset: int,
    endBufferIndex: int,
    endBufferOffset: int)
  {
    ghost predicate WellFormed() {
      isMultisegment ==>
        && 0 <= startBufferIndex < endBufferIndex < |buffers|
        && 0 <= startBufferOffset <= |buffers[startBufferIndex]|
        && 0 <= endBufferOffset <= |buffers[endBufferIndex]|
        && slice == buffers[endBufferIndex][..endBufferOffset]
    }

    /** The token's text, wherever its pieces lie. */
    ghost function Content(): Text
      requires WellFormed()
    {
      if !isMultisegment then slice
      else Flatten(Pieces(buffers, startBufferIndex, startBufferOffset, endBufferIndex, endBufferOffset))
    }

    /** This is the token that the contiguous reader produces. */
    ghost predicate Represents(spec: Token) {
      && WellFormed()
      && kind == spec.kind
      && Content() == spec.bytes
      && size == |spec.bytes|
      && (kind.StringToken? || kind.PropertyName? ==> stringHasEscapedChars == spec.escaped)
    }
  }

  function EmptyToken(buffers: seq<Text>): JsonToken {
    JsonToken(NoToken, [], 0, false, false, buffers, -1, -1, -1, -1)
  }
}
