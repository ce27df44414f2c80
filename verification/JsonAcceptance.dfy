/** The reader accepts exactly the texts of the grammar. Both directions go through the skipping loop:
    inside a container it stops right after the bracket that ends it. */
module JsonAcceptance {
  import opened Bytes
  import opened BitStack
  import opened ReaderSpec
  import opened JsonGrammar

  // ---------------------------------------------------------------- skipping and running

  /** What one token does to the stack: nothing, a push of its own container, or a pop of the matching
      one. */
  lemma StackEffect(t: Text, s: State)
    requires s.pos <= |t| && WellFormed(s) && NextToken(t, s).Next?
    ensures var n := NextToken(t, s).state;
            match n.kind
            case BeginObject => n.stack == s.stack + [Object]
            case BeginArray => n.stack == s.stack + [Array]
            case EndObject => s.stack != [] && Top(s.stack).Object? && n.stack == s.stack[..|s.stack| - 1]
            case EndArray => s.stack != [] && Top(s.stack).Array? && n.stack == s.stack[..|s.stack| - 1]
            case _ => n.stack == s.stack
    ensures s.complex ==> NextToken(t, s).state.complex
  {
    hide ScanString, ScanNumber, ScanLiteral, SkipWhitespace;
  }

  function EndKind(item: Item): TokenKind {
    if item.Object? then EndObject else EndArray
  }

  /** Skipping the innermost container of s succeeds. */
  ghost predicate Skips(t: Text, s: State) {
    && s.pos <= |t| && WellFormed(s) && s.stack != []
    && SkipContainer(t, s, |s.stack|).1.Ok?
  }

  ghost function Skipped(t: Text, s: State): State
    requires Skips(t, s)
  {
    SkipContainer(t, s, |s.stack|).0
  }

  /** State m is where the innermost container of s ends. */
  ghost predicate Closes(s: State, m: State) {
    && s.stack != [] && m.stack == s.stack[..|s.stack| - 1]
    && m.kind == EndKind(Top(s.stack)) && m.complex
  }

  lemma PushPop(stack: seq<Item>, item: Item)
    ensures (stack + [item])[..|stack|] == stack && Top(stack + [item]) == item
  {
  }

  /** Skipping to a lower depth goes through the end of the innermost container, and skipping the
      innermost container closes just that one. */
  lemma {:induction false} SkipNested(t: Text, s: State, depth: nat)
    requires s.pos <= |t| && WellFormed(s) && 1 <= depth <= |s.stack|
    ensures SkipContainer(t, s, depth).1.Ok? ==> Skips(t, s)
    ensures Skips(t, s) ==> Closes(s, Skipped(t, s))
    ensures Skips(t, s) && depth < |s.stack| ==> SkipContainer(t, s, depth) == SkipContainer(t, Skipped(t, s), depth)
    decreases |t| - s.pos
  {
    var top := |s.stack|;
    if NextToken(t, s).Next? {
      var n := NextToken(t, s).state;
      StackEffect(t, s);
      if |n.stack| == top {
        SkipNested(t, n, depth);
      } else if |n.stack| == top + 1 {
        SkipInner(t, s, n, depth);
      }
    }
  }

  /** The case of a container that opens inside the one being skipped. */
  lemma {:induction false} SkipInner(t: Text, s: State, n: State, depth: nat)
    requires s.pos < n.pos <= |t| && WellFormed(s) && WellFormed(n) && 1 <= depth <= |s.stack|
    requires n.stack == s.stack + [Top(n.stack)]
    requires SkipContainer(t, s, depth) == SkipContainer(t, n, depth)
    requires SkipContainer(t, s, |s.stack|) == SkipContainer(t, n, |s.stack|)
    ensures SkipContainer(t, s, depth).1.Ok? ==> Skips(t, s)
    ensures Skips(t, s) ==> Closes(s, Skipped(t, s))
    ensures Skips(t, s) && depth < |s.stack| ==> SkipContainer(t, s, depth) == SkipContainer(t, Skipped(t, s), depth)
    decreases |t| - s.pos, 0
  {
    SkipNested(t, n, depth);
    SkipNested(t, n, |s.stack|);
    if Skips(t, n) {
      var m := Skipped(t, n);
      PushPop(s.stack, Top(n.stack));
      assert m.stack == s.stack;
      SkipNested(t, m, depth);
    }
  }

  /** Running on from inside a container is running on from where skipping it stops. */
  lemma {:induction false} RunThroughSkip(t: Text, s: State, depth: nat)
    requires s.pos <= |t| && WellFormed(s) && 1 <= depth <= |s.stack|
    ensures Accepts(t, s) ==> SkipContainer(t, s, depth).1.Ok?
    ensures SkipContainer(t, s, depth).1.Ok? ==>
              (Accepts(t, s) <==> Accepts(t, SkipContainer(t, s, depth).0))
    decreases |t| - s.pos
  {
    if NextToken(t, s).Next? {
      var n := NextToken(t, s).state;
      if depth <= |n.stack| {
        RunThroughSkip(t, n, depth);
      }
    }
  }

  // ---------------------------------------------------------------- from accepted text to trees

  function KindOf(v: Value): TokenKind {
    match v
    case Literal(kind) => kind
    case Number(_) => NumberToken
    case String(_) => StringToken
    case Empty(item, _) => EndKind(item)
    case Container(item, _) => EndKind(item)
  }

  ghost predicate NumberInPlace(v: Value, t: Text, end: nat, complex: bool) {
    v.Number? ==> NumberEnds(t, end, complex, v.parts)
  }

  /** The state in which the value v has been read, up to "end". */
  ghost predicate HasRead(t: Text, p: nat, v: Value, before: State, after: State) {
    && ValidValue(v) && Has(t, p, Spell(v))
    && after.pos == p + |Spell(v)| <= |t|
    && after.kind == KindOf(v) && after.stack == before.stack && WellFormed(after)
    && (after.complex <==> before.complex || v.Empty? || v.Container?)
    && Depth(v) + |before.stack| <= MAX_DEPTH
    && NumberInPlace(v, t, after.pos, before.complex)
  }

  lemma StringParsed(t: Text, p: nat, s: State) returns (v: Value)
    requires p < |t| && WellFormed(s) && t[p] == QUOTE && StringStep(t, p, s).Next?
    ensures v.String? && HasRead(t, p, v, s, StringStep(t, p, s).state)
  {
    var cs := CharsScanned(t, p + 1, false);
    v := String(cs);
    HasString(t, p, cs);
  }

  lemma NumberParsed(t: Text, p: nat, s: State) returns (v: Value)
    requires p < |t| && WellFormed(s) && (IsDigit(t[p]) || t[p] == MINUS) && NumberStep(t, p, s).Next?
    ensures v.Number? && HasRead(t, p, v, s, NumberStep(t, p, s).state)
  {
    var n := NumberScanned(t, p, s.complex);
    v := Number(n);
  }

  lemma LiteralParsed(t: Text, p: nat, s: State, kind: TokenKind) returns (v: Value)
    requires p < |t| && WellFormed(s) && (kind.TrueToken? || kind.FalseToken? || kind.NullToken?)
    requires LiteralStep(t, p, s, LiteralText(kind), kind).Next?
    ensures v.Literal? && HasRead(t, p, v, s, LiteralStep(t, p, s, LiteralText(kind), kind).state)
  {
    v := Literal(kind);
    HasSlice(t, p, |t|);
    assert LiteralText(kind) <= t[p..];
  }

  /** A string, number or literal that the reader reads is spelled by a valid tree. */
  lemma PrimitiveParsed(t: Text, p: nat, s: State) returns (v: Value)
    requires p < |t| && WellFormed(s) && ValueStep(t, p, s).Next? && !IsBegin(ValueStep(t, p, s).state.kind)
    ensures HasRead(t, p, v, s, ValueStep(t, p, s).state) && !v.Empty? && !v.Container?
  {
    var kind := ValueStep(t, p, s).state.kind;
    if t[p] == QUOTE {
      v := StringParsed(t, p, s);
    } else if IsDigit(t[p]) || t[p] == MINUS {
      v := NumberParsed(t, p, s);
    } else {
      v := LiteralParsed(t, p, s, kind);
    }
  }

  /** The state after the value whose first token led to state s1. */
  ghost predicate ReadsWhole(t: Text, s1: State) {
    && s1.pos <= |t| && WellFormed(s1)
    && (IsBegin(s1.kind) ==> Skips(t, s1))
  }

  ghost function AfterWhole(t: Text, s1: State): State
    requires ReadsWhole(t, s1)
  {
    if IsBegin(s1.kind) then Skipped(t, s1) else s1
  }

  lemma {:induction false} ValueParsed(t: Text, p: nat, s: State) returns (v: Value)
    requires p < |t| && WellFormed(s) && ValueStep(t, p, s).Next? && ReadsWhole(t, ValueStep(t, p, s).state)
    ensures HasRead(t, p, v, s, AfterWhole(t, ValueStep(t, p, s).state))
    decreases |t| - p, 1
  {
    var s1 := ValueStep(t, p, s).state;
    if !IsBegin(s1.kind) {
      v := PrimitiveParsed(t, p, s);
    } else {
      v := ContainerParsed(t, p, s, if t[p] == OPEN_BRACE then Object else Array, s1);
    }
  }

  /** After an opening bracket comes the closing one or a member. */
  lemma AfterOpen(t: Text, s1: State)
    requires IsBegin(s1.kind) && Skips(t, s1)
    ensures SkipWhitespace(t, s1.pos) < |t|
    ensures var q := SkipWhitespace(t, s1.pos);
            if t[q] == CloseByte(Top(s1.stack)) then Skipped(t, s1).pos == q + 1
            else NextToken(t, s1) == AfterComma(t, s1.pos, s1)
  {
  }

  lemma {:induction false} ContainerParsed(t: Text, p: nat, s: State, item: Item, s1: State) returns (v: Value)
    requires p < |t| && WellFormed(s) && IsBegin(s1.kind) && Skips(t, s1)
    requires t[p] == OpenByte(item) && s1.pos == p + 1 && s1.stack == s.stack + [item]
    ensures HasRead(t, p, v, s, Skipped(t, s1))
    decreases |t| - p, 0
  {
    hide NextToken, AfterComma, ValueStep, SkipContainer, Has;
    var q := SkipWhitespace(t, p + 1);
    PushPop(s.stack, item);
    AfterOpen(t, s1);
    ContainerCloses(t, s, item, s1);
    if t[q] == CloseByte(item) {
      v := Empty(item, t[p + 1..q]);
      HasSlice(t, p + 1, q);
      HasEmpty(t, p, q, item, t[p + 1..q]);
    } else {
      var ms := MembersParsed(t, p + 1, s1);
      v := Container(item, ms);
      HasContainer(t, p, item, ms);
    }
  }

  lemma ContainerCloses(t: Text, s: State, item: Item, s1: State)
    requires WellFormed(s) && Skips(t, s1) && s1.stack == s.stack + [item]
    ensures var m := Skipped(t, s1);
            m.stack == s.stack && m.kind == EndKind(item) && m.complex && WellFormed(m) && m.pos <= |t|
    ensures |s.stack| < MAX_DEPTH
  {
    hide SkipContainer;
    SkipNested(t, s1, |s1.stack|);
    PushPop(s.stack, item);
  }

  /** From state s, whose next token opens a member at b, the members up to the closing bracket. */
  lemma {:induction false} MembersParsed(t: Text, b: nat, s: State) returns (ms: Members)
    requires s.pos <= b <= |t| && Skips(t, s) && NextToken(t, s) == AfterComma(t, b, s)
    ensures ValidMembers(ms, Top(s.stack))
    ensures Has(t, b, SpellMembers(ms) + [CloseByte(Top(s.stack))])
    ensures Skipped(t, s).pos == b + |SpellMembers(ms)| + 1
    ensures MembersDepth(ms) + |s.stack| <= MAX_DEPTH
    decreases |t| - b, 4
  {
    hide NextToken, AfterComma, SkipContainer, Spell, SpellMember, Has, ValidMember;
    var item := Top(s.stack);
    var m, e := MemberParsed(t, b, s);
    var q := SkipWhitespace(t, e.pos);
    AfterMember(t, e);
    if t[q] == COMMA {
      var rest := MembersParsed(t, q + 1, e);
      ms := More(m, rest);
      HasMore(t, b, q, m, rest, CloseByte(item));
    } else {
      ms := Last(m);
      HasLast(t, b, q, m, CloseByte(item));
    }
  }

  /** One member, with the name that it has in an object. It ends before the next comma or bracket. */
  lemma {:induction false} MemberParsed(t: Text, b: nat, s: State) returns (m: Member, e: State)
    requires s.pos <= b <= |t| && Skips(t, s) && NextToken(t, s) == AfterComma(t, b, s)
    ensures ValidMember(m, Top(s.stack)) && Has(t, b, SpellMember(m))
    ensures e.stack == s.stack && Skips(t, e) && Skipped(t, e) == Skipped(t, s)
    ensures b < b + |SpellMember(m)| == SkipWhitespace(t, e.pos) < |t|
    ensures !IsBegin(e.kind) && !e.kind.PropertyName? && Depth(m.value) + |s.stack| <= MAX_DEPTH
    decreases |t| - b, 3
  {
    hide ValueStep, Spell, Has;
    var name, b', n := NoName, b, s;
    if Top(s.stack).Object? {
      name := NameParsed(t, b, s);
      n := AfterComma(t, b, s).state;
      b' := n.pos;
    } else {
      HasSlice(t, b, b);
      assert t[b..b] == SpellName(NoName);
    }
    var v;
    v, e := ElementParsed(t, b', n);
    var q := SkipWhitespace(t, b');
    var before, after := t[b'..q], t[e.pos..SkipWhitespace(t, e.pos)];
    m := Member(name, before, v, after);
    SpellNotEmpty(v);
    HasSlice(t, b', q);
    HasSlice(t, e.pos, SkipWhitespace(t, e.pos));
    HasMember(t, b, b', q, e.pos, m);
  }

  /** After a member comes a comma and another member, or the closing bracket. */
  lemma AfterMember(t: Text, e: State)
    requires Skips(t, e) && !IsBegin(e.kind) && !e.kind.PropertyName? && SkipWhitespace(t, e.pos) < |t|
    ensures var q := SkipWhitespace(t, e.pos);
            if t[q] == COMMA then NextToken(t, e) == AfterComma(t, q + 1, e)
            else t[q] == CloseByte(Top(e.stack)) && Skipped(t, e).pos == q + 1
  {
    hide ValueStep, PropertyNameStep, AfterComma;
    var q := SkipWhitespace(t, e.pos);
    assert NextToken(t, e) == ContinuationStep(t, q, e);
    if t[q] != COMMA {
      assert NextToken(t, e).state.pos == q + 1;
    }
  }

  /** Where the parts of a property name lie. */
  lemma NamePlaces(t: Text, b: nat, s: State) returns (q: nat, end: nat, colon: nat)
    requires b <= |t| && WellFormed(s) && s.stack != [] && Top(s.stack).Object? && AfterComma(t, b, s).Next?
    ensures q == SkipWhitespace(t, b) && q + 1 <= end < |t| && t[q] == QUOTE
    ensures ScanString(t, q + 1, false).Found? && ScanString(t, q + 1, false).end == end
    ensures colon == SkipWhitespace(t, end + 1) < |t| && t[colon] == COLON
    ensures AfterComma(t, b, s).state.pos == colon + 1
  {
    q := SkipWhitespace(t, b);
    end := ScanString(t, q + 1, false).end;
    colon := SkipWhitespace(t, end + 1);
  }

  lemma NameParsed(t: Text, b: nat, s: State) returns (name: Name)
    requires b <= |t| && WellFormed(s) && s.stack != [] && Top(s.stack).Object? && AfterComma(t, b, s).Next?
    ensures name.Named? && ValidName(name) && Has(t, b, SpellName(name))
    ensures AfterComma(t, b, s).state.pos == b + |SpellName(name)|
  {
    var q, end, colon := NamePlaces(t, b, s);
    name := NameAt(t, b, q, end, colon);
  }

  lemma NameAt(t: Text, b: nat, q: nat, end: nat, colon: nat) returns (name: Name)
    requires b <= |t| && q == SkipWhitespace(t, b) && q + 1 <= end < |t| && t[q] == QUOTE
    requires ScanString(t, q + 1, false).Found? && ScanString(t, q + 1, false).end == end
    requires colon == SkipWhitespace(t, end + 1) < |t| && t[colon] == COLON
    ensures name.Named? && ValidName(name) && Has(t, b, SpellName(name)) && colon + 1 == b + |SpellName(name)|
  {
    hide ScanString, SpellChars, SkipWhitespace, Has;
    var cs := CharsScanned(t, q + 1, false);
    name := Named(t[b..q], cs, t[end + 1..colon]);
    HasSlice(t, b, q);
    HasSlice(t, end + 1, colon);
    HasName(t, b, q, end, colon, name);
  }

  /** The value of a member, read from state n at b; afterwards the container goes on. */
  lemma {:induction false} ElementParsed(t: Text, b: nat, n: State) returns (v: Value, e: State)
    requires n.pos <= b <= |t| && Skips(t, n) && SkipWhitespace(t, b) < |t|
    requires NextToken(t, n) == ValueStep(t, SkipWhitespace(t, b), n)
    ensures HasRead(t, SkipWhitespace(t, b), v, n, e)
    ensures e.stack == n.stack && Skips(t, e) && Skipped(t, e) == Skipped(t, n)
    ensures SkipWhitespace(t, e.pos) < |t|
    decreases |t| - b, 2
  {
    var q := SkipWhitespace(t, b);
    var s1 := ValueStep(t, q, n).state;
    if IsBegin(s1.kind) {
      SkipNested(t, s1, |n.stack|);
      e := Skipped(t, s1);
    } else {
      e := s1;
    }
    v := ValueParsed(t, q, n);
  }

  // ---------------------------------------------------------------- from trees to accepted text

  ghost predicate IsCompound(v: Value) {
    v.Empty? || v.Container?
  }

  ghost function After(s: State, v: Value, end: nat): State {
    State(end, KindOf(v), s.stack, s.complex || IsCompound(v))
  }

  /** The first byte of a value. */
  predicate StartsValue(b: Byte) {
    || b == QUOTE || b == OPEN_BRACE || b == OPEN_BRACKET || IsDigit(b) || b == MINUS
    || b == 0x66 || b == 0x74 || b == 0x6E
  }

  /** The reader reads the value v at p, and inside containers what it opens, up to "end". */
  ghost predicate Reads(t: Text, p: nat, s: State, v: Value, end: nat)
    requires WellFormed(s)
  {
    && p < end <= |t| && StartsValue(t[p])
    && ValueStep(t, p, s).Next?
    && ReadsWhole(t, ValueStep(t, p, s).state)
    && AfterWhole(t, ValueStep(t, p, s).state) == After(s, v, end)
  }

  lemma StringRead(t: Text, p: nat, s: State, v: Value)
    requires WellFormed(s) && v.String? && ValidValue(v) && Has(t, p, Spell(v))
    ensures Reads(t, p, s, v, p + |Spell(v)|)
  {
    HasString(t, p, v.chars);
    ScansChars(t, p + 1, v.chars, false);
  }

  lemma NumberRead(t: Text, p: nat, s: State, v: Value)
    requires WellFormed(s) && v.Number? && ValidValue(v) && Has(t, p, Spell(v))
    requires NumberEnds(t, p + |Spell(v)|, s.complex, v.parts)
    ensures Reads(t, p, s, v, p + |Spell(v)|)
  {
    ScansNumber(t, p, v.parts, s.complex);
  }

  lemma LiteralRead(t: Text, p: nat, s: State, v: Value)
    requires WellFormed(s) && v.Literal? && ValidValue(v) && Has(t, p, Spell(v))
    ensures Reads(t, p, s, v, p + |Spell(v)|)
  {
    var w := LiteralText(v.kind);
    SliceOfWord(t, p, w);
    assert t[p] == w[0];
    assert t[p..][..|w|] == w by {
      SliceOfSlice(t, p, |t|, 0, |w|);
    }
  }

  lemma {:induction false} ValueRead(t: Text, p: nat, s: State, v: Value)
    requires WellFormed(s) && ValidValue(v) && Has(t, p, Spell(v))
    requires Depth(v) + |s.stack| <= MAX_DEPTH && NumberInPlace(v, t, p + |Spell(v)|, s.complex)
    ensures Reads(t, p, s, v, p + |Spell(v)|)
    decreases v
  {
    match v {
      case Literal(_) => LiteralRead(t, p, s, v);
      case Number(_) => NumberRead(t, p, s, v);
      case String(_) => StringRead(t, p, s, v);
      case Empty(item, blank) =>
        HasEmpty(t, p, p + 1 + |blank|, item, blank);
        EmptyRead(t, p, s, item, blank);
      case Container(item, ms) =>
        HasContainer(t, p, item, ms);
        ContainerOpens(t, p, s, item, ms);
        var s1 := ValueStep(t, p, s).state;
        MembersRead(t, p + 1, s1, ms);
        PushPop(s.stack, item);
    }
  }

  lemma Opens(t: Text, p: nat, s: State, item: Item)
    requires WellFormed(s) && p < |t| && t[p] == OpenByte(item) && |s.stack| < MAX_DEPTH
    ensures StartsValue(t[p]) && ValueStep(t, p, s).Next?
    ensures ValueStep(t, p, s).state ==
              State(p + 1, if item.Object? then BeginObject else BeginArray, s.stack + [item], true)
  {
  }

  lemma EmptyRead(t: Text, p: nat, s: State, item: Item, blank: Text)
    requires WellFormed(s) && |s.stack| < MAX_DEPTH && AllWhitespace(blank)
    requires p < |t| && t[p] == OpenByte(item) && Has(t, p + 1, blank)
    requires p + 1 + |blank| < |t| && t[p + 1 + |blank|] == CloseByte(item)
    ensures Reads(t, p, s, Empty(item, blank), p + 2 + |blank|)
  {
    Opens(t, p, s, item);
    SkipsBlank(t, p + 1, blank);
    PushPop(s.stack, item);
  }

  /** Where the first token of the members starts, and that it is not the closing bracket. */
  lemma ContainerOpens(t: Text, p: nat, s: State, item: Item, ms: Members)
    requires WellFormed(s) && |s.stack| < MAX_DEPTH && ValidMembers(ms, item)
    requires p < |t| && t[p] == OpenByte(item) && Has(t, p + 1, SpellMembers(ms) + [CloseByte(item)])
    ensures StartsValue(t[p]) && ValueStep(t, p, s).Next?
    ensures var s1 := ValueStep(t, p, s).state;
            && s1 == State(p + 1, if item.Object? then BeginObject else BeginArray, s.stack + [item], true)
            && WellFormed(s1) && Top(s1.stack) == item && NextToken(t, s1) == AfterComma(t, p + 1, s1)
  {
    Opens(t, p, s, item);
    PushPop(s.stack, item);
    MembersStart(t, p + 1, ms, item);
  }

  /** The first byte of a well-formed value. */
  lemma {:induction false} ValueStarts(t: Text, p: nat, v: Value)
    requires ValidValue(v) && Has(t, p, Spell(v))
    ensures p < |t| && StartsValue(t[p])
  {
    match v {
      case Literal(kind) => assert t[p] == LiteralText(kind)[0];
      case Number(parts) =>
        if parts.minus {
          HasBoth(t, p, [MINUS], SpellUnsigned(parts));
          HasOne(t, p, MINUS);
        } else {
          assert SpellNumber(parts) == SpellUnsigned(parts);
          HasBoth(t, p, parts.integer, SpellFraction(parts));
          assert t[p] == parts.integer[0];
        }
      case String(cs) => HasString(t, p, cs);
      case Empty(item, blank) => HasEmpty(t, p, p + 1 + |blank|, item, blank);
      case Container(item, ms) => HasContainer(t, p, item, ms);
    }
  }

  lemma MembersStart(t: Text, b: nat, ms: Members, item: Item)
    requires ValidMembers(ms, item) && Has(t, b, SpellMembers(ms) + [CloseByte(item)])
    ensures var q := SkipWhitespace(t, b); q < |t| && StartsValue(t[q]) && (item.Object? ==> t[q] == QUOTE)
  {
    hide SkipWhitespace, Spell, Has;
    var m := ms.m;
    if ms.More? {
      HasMore(t, b, b + |SpellMember(m)|, m, ms.rest, CloseByte(item));
    } else {
      HasLast(t, b, b + |SpellMember(m)|, m, CloseByte(item));
    }
    var b' := b + |SpellName(m.name)|;
    HasMember(t, b, b', b' + |m.before|, b' + |m.before| + |Spell(m.value)|, m);
    if m.name.Named? {
      var q := b + |m.name.before|;
      var end := q + 1 + |SpellChars(m.name.chars)|;
      HasName(t, b, q, end, end + 1 + |m.name.after|, m.name);
      SkipsBlank(t, b, m.name.before);
    } else {
      ValueStarts(t, b + |m.before|, m.value);
      SkipsBlank(t, b, m.before);
    }
  }

  lemma {:induction false} MembersRead(t: Text, b: nat, s: State, ms: Members)
    requires s.pos <= b <= |t| && WellFormed(s) && s.stack != [] && NextToken(t, s) == AfterComma(t, b, s)
    requires ValidMembers(ms, Top(s.stack)) && MembersDepth(ms) + |s.stack| <= MAX_DEPTH
    requires Has(t, b, SpellMembers(ms) + [CloseByte(Top(s.stack))])
    ensures Skips(t, s)
    ensures Skipped(t, s) ==
              State(b + |SpellMembers(ms)| + 1, EndKind(Top(s.stack)), s.stack[..|s.stack| - 1], true)
    decreases ms
  {
    hide NextToken, AfterComma, SkipWhitespace, Spell, SpellMember, Has, ValidMember;
    var close := CloseByte(Top(s.stack));
    var m := ms.m;
    var q := b + |SpellMember(m)|;
    if ms.More? {
      HasMore(t, b, q, m, ms.rest, close);
      var e := MemberRead(t, b, q, s, m);
      MembersRead(t, q + 1, e, ms.rest);
    } else {
      HasLast(t, b, q, m, close);
      var e := MemberRead(t, b, q, s, m);
      assert NextToken(t, e) == EndStep(t, q, e, Top(s.stack));
    }
  }

  /** Where the parts of a member lie that ends before a comma or bracket at q. */
  lemma MemberPlaces(t: Text, b: nat, q: nat, m: Member, item: Item) returns (b': nat, p: nat, end: nat)
    requires ValidMember(m, item) && Has(t, b, SpellMember(m)) && q == b + |SpellMember(m)| < |t|
    requires t[q] == COMMA || t[q] == CloseByte(item)
    ensures b' == b + |SpellName(m.name)| && Has(t, b, SpellName(m.name)) && b' <= p < end <= q
    ensures SkipWhitespace(t, b') == p && Has(t, p, Spell(m.value)) && end == p + |Spell(m.value)|
    ensures IsDelimiter(t[end]) && SkipWhitespace(t, end) == q
  {
    b' := b + |SpellName(m.name)|;
    p := b' + |m.before|;
    end := p + |Spell(m.value)|;
    HasMember(t, b, b', p, end, m);
    ValueStarts(t, p, m.value);
    SkipsBlank(t, b', m.before);
    SkipsBlank(t, end, m.after);
    assert m.after != [] ==> t[end] == m.after[0];
    SpellNotEmpty(m.value);
  }

  lemma SpellNotEmpty(v: Value)
    requires ValidValue(v)
    ensures Spell(v) != []
  {
    if v.Number? {
      assert |SpellNumber(v.parts)| >= |v.parts.integer|;
    }
  }

  /** Before the value of a member: at once in an array, after the name in an object. */
  lemma EntersElement(t: Text, b: nat, s: State, m: Member, b': nat, p: nat) returns (n: State)
    requires s.pos <= b <= |t| && WellFormed(s) && s.stack != [] && NextToken(t, s) == AfterComma(t, b, s)
    requires ValidMember(m, Top(s.stack)) && Has(t, b, SpellName(m.name)) && b' == b + |SpellName(m.name)| <= |t|
    requires p == SkipWhitespace(t, b') < |t|
    ensures s.pos <= n.pos <= b' && WellFormed(n) && n.stack == s.stack && NextToken(t, n) == ValueStep(t, p, n)
    ensures SkipContainer(t, s, |s.stack|) == SkipContainer(t, n, |s.stack|)
  {
    hide SkipWhitespace, ValueStep, Has;
    n := s;
    if m.name.Named? {
      NameRead(t, b, s, m.name);
      n := AfterComma(t, b, s).state;
    }
  }

  lemma LeavesElement(t: Text, e: State, q: nat)
    requires e.pos <= |t| && WellFormed(e) && e.stack != [] && q == SkipWhitespace(t, e.pos) < |t|
    requires !IsBegin(e.kind) && !e.kind.PropertyName?
    ensures t[q] == COMMA ==> NextToken(t, e) == AfterComma(t, q + 1, e)
    ensures t[q] == CloseByte(Top(e.stack)) ==> NextToken(t, e) == EndStep(t, q, e, Top(e.stack))
  {
  }

  /** One member; q is where the next comma or the closing bracket stands. */
  lemma {:induction false} MemberRead(t: Text, b: nat, q: nat, s: State, m: Member) returns (e: State)
    requires s.pos <= b <= |t| && WellFormed(s) && s.stack != [] && NextToken(t, s) == AfterComma(t, b, s)
    requires ValidMember(m, Top(s.stack)) && Depth(m.value) + |s.stack| <= MAX_DEPTH
    requires Has(t, b, SpellMember(m)) && q == b + |SpellMember(m)| < |t|
    requires t[q] == COMMA || t[q] == CloseByte(Top(s.stack))
    ensures s.pos < e.pos <= q && WellFormed(e) && e.stack == s.stack && SkipWhitespace(t, e.pos) == q
    ensures SkipContainer(t, s, |s.stack|) == SkipContainer(t, e, |s.stack|)
    ensures t[q] == COMMA ==> NextToken(t, e) == AfterComma(t, q + 1, e)
    ensures t[q] == CloseByte(Top(s.stack)) ==> NextToken(t, e) == EndStep(t, q, e, Top(s.stack))
    decreases m
  {
    hide NextToken, ValueStep, AfterComma, EndStep, SkipWhitespace, SkipContainer, Spell, SpellMember, SpellName;
    var b', p, end := MemberPlaces(t, b, q, m, Top(s.stack));
    var n := EntersElement(t, b, s, m, b', p);
    ValueRead(t, p, n, m.value);
    ElementSkips(t, p, n, m.value, end);
    e := After(n, m.value, end);
    LeavesElement(t, e, q);
  }

  /** Skipping the container goes on after the element that was read. */
  lemma ElementSkips(t: Text, p: nat, n: State, v: Value, end: nat)
    requires n.pos <= p && ValidValue(v) && WellFormed(n) && n.stack != [] && Reads(t, p, n, v, end)
    requires NextToken(t, n) == ValueStep(t, p, n)
    ensures WellFormed(After(n, v, end)) && !IsBegin(After(n, v, end).kind)
    ensures SkipContainer(t, n, |n.stack|) == SkipContainer(t, After(n, v, end), |n.stack|)
  {
    var s1 := ValueStep(t, p, n).state;
    if IsBegin(s1.kind) {
      SkipNested(t, s1, |n.stack|);
    }
  }

  lemma NameLies(t: Text, b: nat, name: Name) returns (q: nat, end: nat, colon: nat)
    requires name.Named? && ValidName(name) && Has(t, b, SpellName(name))
    ensures b <= q && q + 1 <= end && colon + 1 == b + |SpellName(name)| <= |t|
    ensures SkipWhitespace(t, b) == q < |t| && t[q] == QUOTE
    ensures ScanString(t, q + 1, false).Found? && ScanString(t, q + 1, false).end == end < |t|
    ensures SkipWhitespace(t, end + 1) == colon && t[colon] == COLON
  {
    hide Has, ScanString, SkipWhitespace, SpellName, SpellChars;
    q := b + |name.before|;
    end := q + 1 + |SpellChars(name.chars)|;
    colon := end + 1 + |name.after|;
    HasName(t, b, q, end, colon, name);
    SkipsBlank(t, b, name.before);
    ScansChars(t, q + 1, name.chars, false);
    SkipsBlank(t, end + 1, name.after);
  }

  lemma NameRead(t: Text, b: nat, s: State, name: Name)
    requires b <= |t| && WellFormed(s) && s.stack != [] && Top(s.stack).Object?
    requires name.Named? && ValidName(name) && Has(t, b, SpellName(name))
    ensures AfterComma(t, b, s).Next?
    ensures AfterComma(t, b, s).state == State(b + |SpellName(name)|, PropertyName, s.stack, s.complex)
  {
    hide Has, SpellName, ScanString, SkipWhitespace;
    var q, end, colon := NameLies(t, b, name);
  }

  // ---------------------------------------------------------------- the theorem

  lemma FirstToken(t: Text) returns (p: nat, s1: State)
    requires Accepts(t, INITIAL)
    ensures p == SkipWhitespace(t, 0) < |t| && ValueStep(t, p, INITIAL).Next?
    ensures s1 == ValueStep(t, p, INITIAL).state && ReadsWhole(t, s1) && Accepts(t, AfterWhole(t, s1))
  {
    p := SkipWhitespace(t, 0);
    s1 := ValueStep(t, p, INITIAL).state;
    if IsBegin(s1.kind) {
      RunThroughSkip(t, s1, 1);
    }
  }

  lemma NothingFollows(t: Text, s2: State)
    requires s2.pos <= |t| && WellFormed(s2) && s2.stack == [] && !s2.kind.NoToken?
    ensures Accepts(t, s2) <==> SkipWhitespace(t, s2.pos) == |t|
  {
  }

  lemma SplitText(t: Text, p: nat, w: Text, end: nat)
    requires Has(t, p, w) && end == p + |w|
    ensures t == t[0..p] + (w + t[end..|t|])
  {
    SliceOfWord(t, p, w);
  }

  lemma AcceptedIsJson(t: Text)
    requires Accepts(t, INITIAL)
    ensures IsJson(t)
  {
    hide NextToken, ValueStep, SkipWhitespace, Run, Spell, SkipContainer;
    var p, s1 := FirstToken(t);
    var v := ValueParsed(t, p, INITIAL);
    var end := AfterWhole(t, s1).pos;
    NothingFollows(t, AfterWhole(t, s1));
    SplitText(t, p, Spell(v), end);
    assert SpellsJson(t, t[0..p], v, t[end..|t|]);
  }

  lemma TextPlaces(t: Text, before: Text, v: Value, after: Text) returns (p: nat, end: nat)
    requires SpellsJson(t, before, v, after)
    ensures p == SkipWhitespace(t, 0) && Has(t, p, Spell(v)) && end == p + |Spell(v)| <= |t|
    ensures SkipWhitespace(t, end) == |t| && NumberInPlace(v, t, end, false)
  {
    p, end := |before|, |before| + |Spell(v)|;
    assert Has(t, 0, before + (Spell(v) + after));
    HasBoth(t, 0, before, Spell(v) + after);
    HasBoth(t, p, Spell(v), after);
    ValueStarts(t, p, v);
    SkipsBlank(t, 0, before);
    SkipsBlank(t, end, after);
    assert end < |t| ==> t[end] == after[0];
  }

  lemma JsonIsAccepted(t: Text, before: Text, v: Value, after: Text)
    requires SpellsJson(t, before, v, after)
    ensures Accepts(t, INITIAL)
  {
    hide NextToken, ValueStep, SkipWhitespace, Run, Spell, SkipContainer, Has;
    var p, end := TextPlaces(t, before, v, after);
    ValueRead(t, p, INITIAL, v);
    NothingFollows(t, After(INITIAL, v, end));
    StartsReading(t, p, v, end);
  }

  lemma StartsReading(t: Text, p: nat, v: Value, end: nat)
    requires p == SkipWhitespace(t, 0) && Reads(t, p, INITIAL, v, end) && ValidValue(v)
    requires Accepts(t, After(INITIAL, v, end))
    ensures Accepts(t, INITIAL)
  {
    var s1 := ValueStep(t, p, INITIAL).state;
    if IsBegin(s1.kind) {
      RunThroughSkip(t, s1, 1);
    }
  }

  /** Reading tokens until the reader stops ends with DONE exactly on JSON texts. */
  lemma AcceptsExactlyJson(t: Text)
    ensures Accepts(t, INITIAL) <==> IsJson(t)
  {
    if Accepts(t, INITIAL) {
      AcceptedIsJson(t);
    }
    if IsJson(t) {
      var before, v, after :| SpellsJson(t, before, v, after);
      JsonIsAccepted(t, before, v, after);
    }
  }

  // ---------------------------------------------------------------- skipping children

  /** At a property name, skipping the children succeeds if the name's value follows: reading stops after
      it, whether or not it is a container. */
  lemma SkipsNamedValue(t: Text, s: State, p: nat, v: Value)
    requires s.pos <= |t| && WellFormed(s) && s.kind.PropertyName? && p == SkipWhitespace(t, s.pos)
    requires ValidValue(v) && Has(t, p, Spell(v)) && Depth(v) + |s.stack| <= MAX_DEPTH
    requires NumberInPlace(v, t, p + |Spell(v)|, s.complex)
    ensures SkipChildren(t, s) == (After(s, v, p + |Spell(v)|), Ok)
  {
    ValueRead(t, p, s, v);
    hide Has, Spell, ValidValue, Depth, ValueStep, SkipWhitespace, SkipContainer, WellFormed;
    assert NextToken(t, s) == ValueStep(t, p, s);
  }

  /** Only then: a successful skip at a property name has read one well-formed value. */
  lemma SkipsOnlyNamedValue(t: Text, s: State)
    requires s.pos <= |t| && WellFormed(s) && s.kind.PropertyName? && SkipChildren(t, s).1.Ok?
    ensures exists v :: HasRead(t, SkipWhitespace(t, s.pos), v, s, SkipChildren(t, s).0)
  {
    hide Has, Spell, ValidValue, Depth, ValueStep, SkipWhitespace, SkipContainer, WellFormed, HasRead;
    var p := SkipWhitespace(t, s.pos);
    NameGoesOn(t, s, p);
    var v := ValueParsed(t, p, s);
    assert HasRead(t, p, v, s, SkipChildren(t, s).0);
  }

  lemma NameGoesOn(t: Text, s: State, p: nat)
    requires s.pos <= |t| && WellFormed(s) && s.kind.PropertyName? && p == SkipWhitespace(t, s.pos)
    ensures NextToken(t, s).Next? ==>
              p < |t| && NextToken(t, s) == ValueStep(t, p, s)
              && (IsBegin(NextToken(t, s).state.kind) ==> NextToken(t, s).state.stack != [])
    ensures NextToken(t, s).Stop? ==> !NextToken(t, s).code.Ok?
  {
    hide ValueStep, SkipWhitespace;
  }

  /** At an opening bracket, the value that it opens is skipped. State s is that before the bracket at p,
      from which the reader got to state s1. */
  lemma SkipsOpenedValue(t: Text, p: nat, s: State, s1: State, v: Value)
    requires p < |t| && WellFormed(s) && ValueStep(t, p, s).Next? && s1 == ValueStep(t, p, s).state
    requires IsBegin(s1.kind) && ValidValue(v) && IsCompound(v) && Has(t, p, Spell(v))
    requires Depth(v) + |s.stack| <= MAX_DEPTH
    ensures SkipChildren(t, s1) == (After(s, v, p + |Spell(v)|), Ok)
  {
    hide Has, Spell, ValidValue, Depth, ValueStep, SkipContainer;
    ValueRead(t, p, s, v);
  }

  /** A successful skip at an opening bracket covers one well-formed value. */
  lemma SkipsOnlyOpenedValue(t: Text, p: nat, s: State, s1: State)
    requires p < |t| && WellFormed(s) && ValueStep(t, p, s).Next? && s1 == ValueStep(t, p, s).state
    requires IsBegin(s1.kind) && SkipChildren(t, s1).1.Ok?
    ensures exists v :: HasRead(t, p, v, s, SkipChildren(t, s1).0)
  {
    var v := ValueParsed(t, p, s);
  }

  lemma {:induction false} SkipContainerStops(t: Text, s: State, depth: nat)
    requires s.pos <= |t| && WellFormed(s) && !SkipContainer(t, s, depth).1.Ok?
    ensures SkipContainer(t, s, depth).1 == Run(t, s).1
    decreases |t| - s.pos
  {
    hide NextToken;
    if NextToken(t, s).Next? {
      SkipContainerStops(t, NextToken(t, s).state, depth);
    }
  }

  /** A skip that fails stops for the reason for which reading token by token stops. At a token that opens
      nothing and names nothing, the reader stays where it is. */
  lemma SkipStops(t: Text, s: State)
    requires s.pos <= |t| && WellFormed(s)
    ensures !SkipChildren(t, s).1.Ok? ==> SkipChildren(t, s).1 == Run(t, s).1
    ensures !IsBegin(s.kind) && !s.kind.PropertyName? ==> SkipChildren(t, s) == (s, Ok)
  {
    hide NextToken, SkipContainer;
    var s1 := if s.kind.PropertyName? && NextToken(t, s).Next? then NextToken(t, s).state else s;
    if IsBegin(s1.kind) && !SkipContainer(t, s1, |s1.stack|).1.Ok? {
      SkipContainerStops(t, s1, |s1.stack|);
    }
  }
}
