/** What the JSON writer's appends mean: when they are allowed, the text they add and the state they
    leave. JsonWriter proves that the writer over any buffers computes this; JsonRoundTrip proves that
    the reader gets the appended tokens back. */
module WriterSpec {
  import opened Bytes
  import opened BitStack
  import opened ReaderSpec
  import JsonStrings
  import opened JsonGrammar
  import Decimal

  /** One call of an append function. */
  datatype Append =
    | Open(item: Item)
    | Close(item: Item)
    | Name(name: Text)
    | Str(text: Text)
    | Lit(kind: TokenKind)
    | Int32(number: int)

  /** The writer's own record of where it is: the open containers, the last token, and whether the
      next item must be preceded by a comma. */
  datatype Progress = Progress(stack: seq<Item>, kind: TokenKind, needComma: bool)

  const BLANK: Progress := Progress([], NoToken, false)

  predicate IsLiteral(kind: TokenKind) {
    kind.TrueToken? || kind.FalseToken? || kind.NullToken?
  }

  /** _az_is_appending_value_valid, with the preconditions it contains. */
  predicate CanAppendValue(w: Progress) {
    if Top(w.stack).Object? then w.kind.PropertyName?
    else !w.kind.PropertyName? && !w.kind.BeginObject? && (w.stack != [] || w.kind.NoToken?)
  }

  /** _az_is_appending_property_name_valid */
  predicate CanAppendName(w: Progress) {
    Top(w.stack).Object? && !w.kind.PropertyName?
  }

  /** _az_is_appending_container_end_valid */
  predicate CanClose(w: Progress, item: Item) {
    w.stack != [] && !w.kind.PropertyName? && Top(w.stack) == item
  }

  /** What the caller of an append must have made sure of. */
  predicate CanAppend(w: Progress, e: Append) {
    match e
    case Open(_) => CanAppendValue(w)
    case Close(item) => CanClose(w, item)
    case Name(name) => CanAppendName(w)
    case Str(text) => CanAppendValue(w)
    case Lit(kind) => CanAppendValue(w) && IsLiteral(kind)
    case Int32(v) => CanAppendValue(w) && -Decimal.INT32_MAX - 1 <= v <= Decimal.INT32_MAX
  }

  /** The only append that fails for a reason other than space. */
  predicate Overflows(w: Progress, e: Append) {
    e.Open? && |w.stack| >= MAX_DEPTH
  }

  ghost function Comma(needComma: bool): Text {
    if needComma then [COMMA] else []
  }

  ghost function Quoted(s: Text): Text {
    [QUOTE] + JsonStrings.Escape(s) + [QUOTE]
  }

  ghost function Body(e: Append): Text {
    match e
    case Open(item) => [OpenByte(item)]
    case Close(item) => [CloseByte(item)]
    case Name(name) => Quoted(name) + [COLON]
    case Str(text) => Quoted(text)
    case Lit(kind) => LiteralText(kind)
    case Int32(v) => Decimal.SignedDigits(v)
  }

  /** The text that an append adds. */
  ghost function Emit(w: Progress, e: Append): Text {
    (if e.Close? then [] else Comma(w.needComma)) + Body(e)
  }

  function KindOf(e: Append): TokenKind {
    match e
    case Open(item) => if item.Object? then BeginObject else BeginArray
    case Close(item) => if item.Object? then EndObject else EndArray
    case Name(_) => PropertyName
    case Str(_) => StringToken
    case Lit(kind) => kind
    case Int32(_) => NumberToken
  }

  function Advance(w: Progress, e: Append): Progress
    requires CanAppend(w, e)
  {
    var stack :=
      match e
      case Open(item) => w.stack + [item]
      case Close(_) => w.stack[..|w.stack| - 1]
      case _ => w.stack;
    Progress(stack, KindOf(e), !e.Open? && !e.Name?)
  }

  // ---------------------------------------------------------------- runs

  /** A run of appends, each of them allowed and none of them nested too deeply. */
  ghost predicate ValidRun(w: Progress, run: seq<Append>)
    decreases |run|
  {
    run == [] || (CanAppend(w, run[0]) && !Overflows(w, run[0]) && ValidRun(Advance(w, run[0]), run[1..]))
  }

  ghost function Written(w: Progress, run: seq<Append>): Text
    requires ValidRun(w, run)
    decreases |run|
  {
    if run == [] then [] else Emit(w, run[0]) + Written(Advance(w, run[0]), run[1..])
  }

  ghost function After(w: Progress, run: seq<Append>): Progress
    requires ValidRun(w, run)
    decreases |run|
  {
    if run == [] then w else After(Advance(w, run[0]), run[1..])
  }

  lemma {:induction false} RunMore(w: Progress, run: seq<Append>, e: Append)
    requires ValidRun(w, run)
    requires CanAppend(After(w, run), e) && !Overflows(After(w, run), e)
    ensures ValidRun(w, run + [e])
    ensures Written(w, run + [e]) == Written(w, run) + Emit(After(w, run), e)
    ensures After(w, run + [e]) == Advance(After(w, run), e)
    decreases |run|
  {
    hide CanAppend, Overflows, Advance, Emit;
    if run == [] {
      assert run + [e] == [e] && [e][1..] == [];
    } else {
      RunMore(Advance(w, run[0]), run[1..], e);
      assert (run + [e])[1..] == run[1..] + [e];
    }
  }
}
