/** Bytes, byte classes and result codes shared by the JSON modules. */
module Bytes {

  type Byte = x: int | 0 <= x < 0x100 witness 0

  type Text = seq<Byte>

  datatype Option<+T> = None | Some(value: T)

  /** The result codes that the modelled functions return (az_result). */
  datatype AzResult =
    | Ok
    | UnexpectedEnd
    | UnexpectedChar
    | NestingOverflow
    | ReaderDone
    | InvalidState
    | NotEnoughSpace
    | NotImplemented

  const QUOTE: Byte := 0x22
  const PLUS: Byte := 0x2B
  const COMMA: Byte := 0x2C
  const MINUS: Byte := 0x2D
  const DOT: Byte := 0x2E
  const ZERO: Byte := 0x30
  const COLON: Byte := 0x3A
  const OPEN_BRACKET: Byte := 0x5B
  const BACKSLASH: Byte := 0x5C
  const CLOSE_BRACKET: Byte := 0x5D
  const LOWER_U: Byte := 0x75
  const OPEN_BRACE: Byte := 0x7B
  const CLOSE_BRACE: Byte := 0x7D
  const SPACE: Byte := 0x20

  const TRUE_TEXT: Text := [0x74, 0x72, 0x75, 0x65]
  const FALSE_TEXT: Text := [0x66, 0x61, 0x6C, 0x73, 0x65]
  const NULL_TEXT: Text := [0x6E, 0x75, 0x6C, 0x6C]

  /** isdigit of the "C" locale. */
  predicate IsDigit(b: Byte) {
    0x30 <= b <= 0x39
  }

  /** isxdigit of the "C" locale. */
  predicate IsHexDigit(b: Byte) {
    IsDigit(b) || 0x41 <= b <= 0x46 || 0x61 <= b <= 0x66
  }

  predicate IsWhitespace(b: Byte) {
    b == 0x20 || b == 0x09 || b == 0x0A || b == 0x0D
  }

  predicate IsExponentMark(b: Byte) {
    b == 0x65 || b == 0x45
  }

  predicate IsSign(b: Byte) {
    b == MINUS || b == PLUS
  }

  ghost predicate AllDigits(s: Text) {
    forall i :: 0 <= i < |s| ==> IsDigit(s[i])
  }

  ghost predicate AllWhitespace(s: Text) {
    forall i :: 0 <= i < |s| ==> IsWhitespace(s[i])
  }

  lemma SliceOfSlice(t: Text, a: nat, b: nat, x: nat, y: nat)
    requires a <= b <= |t| && x <= y <= b - a
    ensures t[a..b][x..y] == t[a + x..a + y]
  {
    var u, v := t[a..b][x..y], t[a + x..a + y];
    assert |u| == |v| && forall i :: 0 <= i < |u| ==> u[i] == v[i];
  }
}
