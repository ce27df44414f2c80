/** The pull reader on one contiguous text: what az_json_reader_next_token does, as a function of the
    text, a position and a stack of containers. JsonReader proves that the reader over any split of
    the text into buffers computes this function; JsonGrammar proves which texts it accepts. */
module ReaderSpec {
  import opened Bytes
  import opened BitStack

  datatype TokenKind =
    | NoToken
    | BeginObject
    | EndObject
    | BeginArray
    | EndArray
    | PropertyName
    | StringToken
    | NumberToken
    | TrueToken
    | FalseToken
    | NullToken

  /** "bytes" is the token's text, without the quotes of a string; "escaped" is false except for
      strings and property names that hold a backslash. */
  datatype Token = Token(kind: TokenKind, bytes: Text, escaped: bool)

  datatype State = State(pos: nat, kind: TokenKind, stack: seq<Item>, complex: bool)

  datatype Scan = Found(end: nat, escaped: bool) | Bad(code: AzResult)

  datatype Step = Next(state: State, token: Token) | Stop(code: AzResult)

  const INITIAL: State := State(0, NoToken, [], false)

  ghost predicate WellFormed(s: State) {
    && |s.stack| <= MAX_DEPTH
    && (s.stack != [] ==> s.complex)
    && (s.kind.NoToken? ==> s.stack == [] && !s.complex)
    && (s.kind.BeginObject? || s.kind.PropertyName? ==> s.stack != [] && Top(s.stack).Object?)
    && (s.kind.BeginArray? ==> s.stack != [] && Top(s.stack).Array?)
  }

  // ---------------------------------------------------------------- lexical scanning

  predicate IsScanError(code: AzResult) {
    code.UnexpectedEnd? || code.UnexpectedChar?
  }

  function SkipWhitespace(t: Text, p: nat): (q: nat)
    requires p <= |t|
    ensures p <= q <= |t|
    ensures AllWhitespace(t[p..q])
    ensures q < |t| ==> !IsWhitespace(t[q])
    decreases |t| - p
  {
    if p < |t| && IsWhitespace(t[p]) then
      var q := SkipWhitespace(t, p + 1);
      assert t[p..q] == [t[p]] + t[p + 1..q];
      q
    else p
  }

  function EndOfDigits(t: Text, p: nat): (q: nat)
    requires p <= |t|
    ensures p <= q <= |t|
    ensures AllDigits(t[p..q])
    ensures q < |t| ==> !IsDigit(t[q])
    decreases |t| - p
  {
    if p < |t| && IsDigit(t[p]) then
      var q := EndOfDigits(t, p + 1);
      assert t[p..q] == [t[p]] + t[p + 1..q];
      q
    else p
  }

  predicate IsEscapable(b: Byte) {
    b == BACKSLASH || b == QUOTE || b == 0x2F || b == 0x62 || b == 0x66 || b == 0x6E || b == 0x72 || b == 0x74
  }

  /** "count" more hex digits from p on. */
  function ScanHex(t: Text, p: nat, count: nat): (r: Scan)
    ensures r.Bad? ==> IsScanError(r.code)
    ensures r.Found? ==> r.end == p + count && (count > 0 ==> r.end <= |t|)
    ensures r.Found? ==> forall i :: p <= i < r.end ==> IsHexDigit(t[i])
    decreases count
  {
    if count == 0 then Found(p, true)
    else if p >= |t| then Bad(UnexpectedEnd)
    else if !IsHexDigit(t[p]) then Bad(UnexpectedChar)
    else ScanHex(t, p + 1, count - 1)
  }

  /** The rest of an escape, from the byte after the backslash. */
  function ScanEscape(t: Text, p: nat): (r: Scan)
    ensures r.Bad? ==> IsScanError(r.code)
    ensures r.Found? ==> p < r.end <= |t|
  {
    if p >= |t| then Bad(UnexpectedEnd)
    else if t[p] == LOWER_U then ScanHex(t, p + 1, 4)
    else if IsEscapable(t[p]) then Found(p + 1, true)
    else Bad(UnexpectedChar)
  }

  /** One character of a string, plain or escaped. */
  function ScanCharacter(t: Text, p: nat): (r: Scan)
    requires p < |t|
    ensures r.Bad? ==> IsScanError(r.code)
    ensures r.Found? ==> p < r.end <= |t|
  {
    if t[p] == BACKSLASH then ScanEscape(t, p + 1)
    else if t[p] < SPACE then Bad(UnexpectedChar)
    else Found(p + 1, false)
  }

  /** The inside of a string from p to the closing quote. */
  function ScanString(t: Text, p: nat, escaped: bool): (r: Scan)
    ensures r.Bad? ==> IsScanError(r.code)
    ensures r.Found? ==> p <= r.end < |t| && t[r.end] == QUOTE
    decreases |t| - p
  {
    if p >= |t| then Bad(UnexpectedEnd)
    else if t[p] == QUOTE then Found(p, escaped)
    else
      match ScanCharacter(t, p)
      case Bad(code) => Bad(code)
      case Found(end, escape) => ScanString(t, end, escaped || escape)
  }

  predicate IsDelimiter(b: Byte) {
    b == COMMA || b == CLOSE_BRACE || b == CLOSE_BRACKET || IsWhitespace(b)
  }

  /** Running out of text after a digit ends a number only when it is the whole JSON text. */
  function NumberAtEnd(p: nat, complex: bool): Scan {
    if complex then Bad(UnexpectedEnd) else Found(p, false)
  }

  function ScanNumber(t: Text, p: nat, complex: bool): (r: Scan)
    requires p < |t| && (IsDigit(t[p]) || t[p] == MINUS)
    ensures r.Bad? ==> IsScanError(r.code)
    ensures r.Found? ==> p < r.end <= |t|
  {
    if t[p] != MINUS then ScanInteger(t, p, complex)
    else if p + 1 >= |t| then Bad(UnexpectedEnd)
    else if !IsDigit(t[p + 1]) then Bad(UnexpectedChar)
    else ScanInteger(t, p + 1, complex)
  }

  /** The bytes that may go on with a number: an exponent mark, a decimal point, or neither. */
  datatype Marks = NoMark | ExponentMark | PointOrExponent

  predicate IsExpected(b: Byte, marks: Marks) {
    (!marks.NoMark? && IsExponentMark(b)) || (marks.PointOrExponent? && b == DOT)
  }

  /** What follows a run of digits either decides the number or is one of the expected marks. */
  function AfterDigits(t: Text, p: nat, complex: bool, marks: Marks): (r: Option<Scan>)
    requires p <= |t|
    ensures r.Some? && r.value.Found? ==> r.value.end == p
    ensures r.Some? && r.value.Bad? ==> IsScanError(r.value.code)
    ensures r.None? ==> p < |t| && IsExpected(t[p], marks)
  {
    if p >= |t| then Some(NumberAtEnd(p, complex))
    else if IsDelimiter(t[p]) then Some(Found(p, false))
    else if !IsExpected(t[p], marks) then Some(Bad(UnexpectedChar))
    else None
  }

  /** The integer part: a single zero, or all the digits. */
  function ScanInteger(t: Text, p: nat, complex: bool): (r: Scan)
    requires p < |t| && IsDigit(t[p])
    ensures r.Bad? ==> IsScanError(r.code)
    ensures r.Found? ==> p < r.end <= |t|
  {
    ScanAfterInteger(t, if t[p] == ZERO then p + 1 else EndOfDigits(t, p), complex)
  }

  function ScanAfterInteger(t: Text, p: nat, complex: bool): (r: Scan)
    requires p <= |t|
    ensures r.Bad? ==> IsScanError(r.code)
    ensures r.Found? ==> p <= r.end <= |t|
  {
    match AfterDigits(t, p, complex, PointOrExponent)
    case Some(scan) => scan
    case None => if t[p] == DOT then ScanFraction(t, p + 1, complex) else ScanExponent(t, p + 1, complex)
  }

  /** From the byte after the decimal point. */
  function ScanFraction(t: Text, p: nat, complex: bool): (r: Scan)
    ensures r.Bad? ==> IsScanError(r.code)
    ensures r.Found? ==> p < r.end <= |t|
  {
    if p >= |t| then Bad(UnexpectedEnd)
    else if !IsDigit(t[p]) then Bad(UnexpectedChar)
    else ScanAfterFraction(t, EndOfDigits(t, p), complex)
  }

  function ScanAfterFraction(t: Text, p: nat, complex: bool): (r: Scan)
    requires p <= |t|
    ensures r.Bad? ==> IsScanError(r.code)
    ensures r.Found? ==> p <= r.end <= |t|
  {
    match AfterDigits(t, p, complex, ExponentMark)
    case Some(scan) => scan
    case None => ScanExponent(t, p + 1, complex)
  }

  /** From the byte after the exponent mark. The digits may be missing after an unsigned mark. */
  function ScanExponent(t: Text, p: nat, complex: bool): (r: Scan)
    ensures r.Bad? ==> IsScanError(r.code)
    ensures r.Found? ==> p <= r.end <= |t|
  {
    match ScanSign(t, p)
    case Bad(code) => Bad(code)
    case Found(end, _) => ScanExponentDigits(t, end, complex)
  }

  /** An optional sign, which must be followed by a digit. */
  function ScanSign(t: Text, p: nat): (r: Scan)
    ensures r.Bad? ==> IsScanError(r.code)
    ensures r.Found? ==> p <= r.end < |t|
  {
    if p >= |t| then Bad(UnexpectedEnd)
    else if !IsSign(t[p]) then Found(p, false)
    else if p + 1 >= |t| then Bad(UnexpectedEnd)
    else if !IsDigit(t[p + 1]) then Bad(UnexpectedChar)
    else Found(p + 1, false)
  }

  function ScanExponentDigits(t: Text, p: nat, complex: bool): (r: Scan)
    requires p <= |t|
    ensures r.Bad? ==> IsScanError(r.code)
    ensures r.Found? ==> p <= r.end <= |t|
  {
    AfterDigits(t, EndOfDigits(t, p), complex, NoMark).value
  }

  function Min(a: int, b: int): int {
    if a < b then a else b
  }

  function ScanLiteral(t: Text, p: nat, literal: Text): (r: Scan)
    requires p <= |t|
    ensures r.Bad? ==> IsScanError(r.code)
    ensures r.Found? <==> literal <= t[p..]
    ensures r.Found? ==> r.end == p + |literal| <= |t|
  {
    var n := Min(|t| - p, |literal|);
    if t[p..p + n] != literal[..n] then
      Bad(UnexpectedChar)
    else if n < |literal| then
      Bad(UnexpectedEnd)
    else
      assert literal == t[p..p + n] == t[p..][..n];
      Found(p + |literal|, false)
  }

  // ---------------------------------------------------------------- tokens

  /** A step from state s that read its token at position p or later. */
  ghost predicate Forward(t: Text, s: State, p: nat, r: Step) {
    if r.Stop? then IsScanError(r.code) || r.code.NestingOverflow? else
      && p < r.state.pos <= |t|
      && (WellFormed(s) ==> WellFormed(r.state))
      && r.token.kind == r.state.kind && !r.state.kind.NoToken?
  }

  function StringStep(t: Text, p: nat, s: State): (r: Step)
    requires p < |t| && t[p] == QUOTE
    ensures Forward(t, s, p, r)
  {
    match ScanString(t, p + 1, false)
    case Bad(code) => Stop(code)
    case Found(end, escaped) =>
      Next(State(end + 1, StringToken, s.stack, s.complex), Token(StringToken, t[p + 1..end], escaped))
  }

  function PropertyNameStep(t: Text, p: nat, s: State): (r: Step)
    requires p < |t| && t[p] == QUOTE
    requires s.stack != [] && Top(s.stack).Object?
    ensures Forward(t, s, p, r)
  {
    match StringStep(t, p, s)
    case Stop(code) => Stop(code)
    case Next(after, token) =>
      var q := SkipWhitespace(t, after.pos);
      if q >= |t| then Stop(UnexpectedEnd)
      else if t[q] != COLON then Stop(UnexpectedChar)
      else Next(State(q + 1, PropertyName, s.stack, s.complex), token.(kind := PropertyName))
  }

  function NumberStep(t: Text, p: nat, s: State): (r: Step)
    requires p < |t| && (IsDigit(t[p]) || t[p] == MINUS)
    ensures Forward(t, s, p, r)
  {
    match ScanNumber(t, p, s.complex)
    case Bad(code) => Stop(code)
    case Found(end, _) =>
      Next(State(end, NumberToken, s.stack, s.complex), Token(NumberToken, t[p..end], false))
  }

  function LiteralStep(t: Text, p: nat, s: State, literal: Text, kind: TokenKind): (r: Step)
    requires p <= |t| && literal != [] && (kind.TrueToken? || kind.FalseToken? || kind.NullToken?)
    ensures Forward(t, s, p, r)
  {
    match ScanLiteral(t, p, literal)
    case Bad(code) => Stop(code)
    case Found(end, _) => Next(State(end, kind, s.stack, s.complex), Token(kind, literal, false))
  }

  function StartStep(t: Text, p: nat, s: State, item: Item): (r: Step)
    requires p < |t|
    ensures Forward(t, s, p, r)
  {
    if |s.stack| >= MAX_DEPTH then
      Stop(NestingOverflow)
    else
      var kind := if item.Object? then BeginObject else BeginArray;
      Next(State(p + 1, kind, s.stack + [item], true), Token(kind, [t[p]], false))
  }

  function EndStep(t: Text, p: nat, s: State, item: Item): (r: Step)
    requires p < |t| && s.stack != []
    ensures Forward(t, s, p, r)
  {
    if Top(s.stack) != item then
      Stop(UnexpectedChar)
    else
      var kind := if item.Object? then EndObject else EndArray;
      Next(State(p + 1, kind, s.stack[..|s.stack| - 1], s.complex), Token(kind, [t[p]], false))
  }

  function ValueStep(t: Text, p: nat, s: State): (r: Step)
    requires p < |t|
    ensures Forward(t, s, p, r)
  {
    var b := t[p];
    if b == QUOTE then StringStep(t, p, s)
    else if b == OPEN_BRACE then StartStep(t, p, s, Object)
    else if b == OPEN_BRACKET then StartStep(t, p, s, Array)
    else if IsDigit(b) || b == MINUS then NumberStep(t, p, s)
    else if b == 0x66 then LiteralStep(t, p, s, FALSE_TEXT, FalseToken)
    else if b == 0x74 then LiteralStep(t, p, s, TRUE_TEXT, TrueToken)
    else if b == 0x6E then LiteralStep(t, p, s, NULL_TEXT, NullToken)
    else Stop(UnexpectedChar)
  }

  function AfterComma(t: Text, p: nat, s: State): (r: Step)
    requires p <= |t| && s.stack != []
    ensures Forward(t, s, p, r)
  {
    var q := SkipWhitespace(t, p);
    if q >= |t| then Stop(UnexpectedEnd)
    else if Top(s.stack).Array? then ValueStep(t, q, s)
    else if t[q] != QUOTE then Stop(UnexpectedChar)
    else PropertyNameStep(t, q, s)
  }

  /** After a complete value. */
  function ContinuationStep(t: Text, p: nat, s: State): (r: Step)
    requires p < |t|
    ensures Forward(t, s, p, r)
  {
    if s.stack == [] then Stop(UnexpectedChar)
    else if t[p] == COMMA then AfterComma(t, p + 1, s)
    else if t[p] == CLOSE_BRACE then EndStep(t, p, s, Object)
    else if t[p] == CLOSE_BRACKET then EndStep(t, p, s, Array)
    else Stop(UnexpectedChar)
  }

  /** The token that starts at p, which is not white space. */
  function TokenStep(t: Text, p: nat, s: State): (r: Step)
    requires p < |t| && WellFormed(s)
    ensures Forward(t, s, p, r)
  {
    match s.kind
    case NoToken => ValueStep(t, p, s)
    case BeginObject =>
      if t[p] == CLOSE_BRACE then EndStep(t, p, s, Object)
      else if t[p] != QUOTE then Stop(UnexpectedChar)
      else PropertyNameStep(t, p, s)
    case BeginArray =>
      if t[p] == CLOSE_BRACKET then EndStep(t, p, s, Array) else ValueStep(t, p, s)
    case PropertyName => ValueStep(t, p, s)
    case _ => ContinuationStep(t, p, s)
  }

  /** az_json_reader_next_token */
  function NextToken(t: Text, s: State): (r: Step)
    requires s.pos <= |t| && WellFormed(s)
    ensures Forward(t, s, s.pos, r) || r == Stop(ReaderDone)
    ensures r == Stop(ReaderDone) <==>
              SkipWhitespace(t, s.pos) == |t| && !s.kind.NoToken? && s.stack == []
  {
    var p := SkipWhitespace(t, s.pos);
    if p < |t| then TokenStep(t, p, s)
    else if s.kind.NoToken? || s.stack != [] then Stop(UnexpectedEnd)
    else Stop(ReaderDone)
  }

  /** A token that leaves a container is the bracket that ends it. */
  lemma ClosingToken(t: Text, s: State)
    requires s.pos <= |t| && WellFormed(s) && NextToken(t, s).Next?
    ensures var Next(next, token) := NextToken(t, s);
            |next.stack| < |s.stack| ==> token == Token(next.kind, t[next.pos - 1..next.pos], false)
  {
    hide ScanString, ScanNumber, ScanLiteral, SkipWhitespace;
  }

  /** Calling next_token until it does not return OK: the tokens, and the last result. */
  function Run(t: Text, s: State): (seq<Token>, AzResult)
    requires s.pos <= |t| && WellFormed(s)
    decreases |t| - s.pos
  {
    match NextToken(t, s)
    case Stop(code) => ([], code)
    case Next(next, token) =>
      var rest := Run(t, next);
      ([token] + rest.0, rest.1)
  }

  ghost predicate Accepts(t: Text, s: State)
    requires s.pos <= |t| && WellFormed(s)
  {
    Run(t, s).1.ReaderDone?
  }

  // ---------------------------------------------------------------- skipping

  /** The loop of az_json_reader_skip_children: tokens are read until the nesting is below "depth". */
  function SkipContainer(t: Text, s: State, depth: nat): (r: (State, AzResult))
    requires s.pos <= |t| && WellFormed(s)
    ensures s.pos <= r.0.pos <= |t| && WellFormed(r.0)
    ensures r.1.Ok? ==> s.pos < r.0.pos && |r.0.stack| < depth
    decreases |t| - s.pos
  {
    match NextToken(t, s)
    case Stop(code) => (s, code)
    case Next(next, _) => if depth <= |next.stack| then SkipContainer(t, next, depth) else (next, Ok)
  }

  predicate IsBegin(kind: TokenKind) {
    kind.BeginObject? || kind.BeginArray?
  }

  /** az_json_reader_skip_children at a token that is not a property name. */
  function SkipHere(t: Text, s: State): (State, AzResult)
    requires s.pos <= |t| && WellFormed(s)
  {
    if IsBegin(s.kind) then SkipContainer(t, s, |s.stack|) else (s, Ok)
  }

  /** az_json_reader_skip_children */
  function SkipChildren(t: Text, s: State): (State, AzResult)
    requires s.pos <= |t| && WellFormed(s)
  {
    if !s.kind.PropertyName? then SkipHere(t, s)
    else
      match NextToken(t, s)
      case Stop(code) => (s, code)
      case Next(next, _) => SkipHere(t, next)
  }
}
