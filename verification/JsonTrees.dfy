/** The tokens of a run are those of the tree that spells the text. */
module JsonTrees {
  import opened Bytes
  import opened BitStack
  import opened ReaderSpec
  import opened JsonGrammar
  import opened JsonAcceptance

  // ---------------------------------------------------------------- the tokens of a tree

  function OpenToken(item: Item): Token {
    if item.Object? then Token(BeginObject, [OPEN_BRACE], false) else Token(BeginArray, [OPEN_BRACKET], false)
  }

  function CloseToken(item: Item): Token {
    if item.Object? then Token(EndObject, [CLOSE_BRACE], false) else Token(EndArray, [CLOSE_BRACKET], false)
  }

  /** Strings and names are told without their quotes, and whether there is an escape in them. */
  ghost function TokensOf(v: Value): seq<Token> {
    match v
    case Literal(kind) => [Token(kind, LiteralText(kind), false)]
    case Number(parts) => [Token(NumberToken, SpellNumber(parts), false)]
    case String(chars) => [Token(StringToken, SpellChars(chars), HasEscape(chars))]
    case Empty(item, _) => [OpenToken(item)] + [CloseToken(item)]
    case Container(item, members) => [OpenToken(item)] + (TokensOfMembers(members) + [CloseToken(item)])
  }

  ghost function TokensOfMembers(ms: Members): seq<Token> {
    match ms
    case Last(m) => TokensOfMember(m)
    case More(m, rest) => TokensOfMember(m) + TokensOfMembers(rest)
  }

  ghost function TokensOfMember(m: Member): seq<Token> {
    TokensOfName(m.name) + TokensOf(m.value)
  }

  ghost function TokensOfName(name: Name): seq<Token> {
    match name
    case NoName => []
    case Named(_, chars, _) => [Token(PropertyName, SpellChars(chars), HasEscape(chars))]
  }

  // ---------------------------------------------------------------- runs

  /** From state s the reader reads the tokens, and then goes on as from state n. */
  ghost predicate Yields(t: Text, s: State, tokens: seq<Token>, n: State) {
    && s.pos <= n.pos <= |t| && WellFormed(s) && WellFormed(n)
    && Run(t, s).0 == tokens + Run(t, n).0 && Run(t, s).1 == Run(t, n).1
  }

  lemma YieldsOne(t: Text, s: State)
    requires s.pos <= |t| && WellFormed(s) && NextToken(t, s).Next?
    ensures Yields(t, s, [NextToken(t, s).token], NextToken(t, s).state)
  {
    hide NextToken;
  }

  lemma YieldsNone(t: Text, s: State)
    requires s.pos <= |t| && WellFormed(s)
    ensures Yields(t, s, [], s)
  {
    assert [] + Run(t, s).0 == Run(t, s).0;
  }

  lemma YieldsBoth(t: Text, s: State, x: seq<Token>, m: State, y: seq<Token>, n: State)
    requires Yields(t, s, x, m) && Yields(t, m, y, n)
    ensures Yields(t, s, x + y, n)
  {
    hide Run;
    assert x + (y + Run(t, n).0) == (x + y) + Run(t, n).0;
  }

  /** Reading the value v at p from state s yields its tokens. */
  lemma {:induction false} ValueTokens(t: Text, p: nat, s: State, v: Value)
    requires s.pos <= p && WellFormed(s) && ValidValue(v) && Has(t, p, Spell(v))
    requires Depth(v) + |s.stack| <= MAX_DEPTH && NumberInPlace(v, t, p + |Spell(v)|, s.complex)
    requires p < |t| && NextToken(t, s) == ValueStep(t, p, s)
    ensures Yields(t, s, TokensOf(v), JsonAcceptance.After(s, v, p + |Spell(v)|))
    decreases v, 1
  {
    hide NextToken, ValueStep, Run, Spell, SpellMembers, SkipContainer, Has, Yields;
    match v {
      case Empty(item, blank) => EmptyTokens(t, p, s, item, blank);
      case Container(_, _) => ContainerTokens(t, p, s, v);
      case _ =>
        PrimitiveStep(t, p, s, v);
        YieldsOne(t, s);
    }
  }

  lemma PrimitiveStep(t: Text, p: nat, s: State, v: Value)
    requires WellFormed(s) && ValidValue(v) && !IsCompound(v) && Has(t, p, Spell(v))
    requires NumberInPlace(v, t, p + |Spell(v)|, s.complex) && p < |t|
    ensures ValueStep(t, p, s).Next?
    ensures [ValueStep(t, p, s).token] == TokensOf(v)
    ensures ValueStep(t, p, s).state == JsonAcceptance.After(s, v, p + |Spell(v)|)
  {
    match v {
      case Literal(_) => LiteralTokens(t, p, s, v);
      case Number(_) => NumberTokens(t, p, s, v);
      case String(_) => StringTokens(t, p, s, v);
    }
  }

  lemma LiteralTokens(t: Text, p: nat, s: State, v: Value)
    requires WellFormed(s) && v.Literal? && ValidValue(v) && Has(t, p, Spell(v)) && p < |t|
    ensures ValueStep(t, p, s) == Next(JsonAcceptance.After(s, v, p + |Spell(v)|), TokensOf(v)[0])
  {
    var w := LiteralText(v.kind);
    SliceOfWord(t, p, w);
    assert t[p] == w[0];
    assert t[p..][..|w|] == w by {
      SliceOfSlice(t, p, |t|, 0, |w|);
    }
  }

  lemma NumberTokens(t: Text, p: nat, s: State, v: Value)
    requires WellFormed(s) && v.Number? && ValidValue(v) && Has(t, p, Spell(v)) && p < |t|
    requires NumberEnds(t, p + |Spell(v)|, s.complex, v.parts)
    ensures ValueStep(t, p, s) == Next(JsonAcceptance.After(s, v, p + |Spell(v)|), TokensOf(v)[0])
  {
    ScansNumber(t, p, v.parts, s.complex);
    SliceOfWord(t, p, SpellNumber(v.parts));
    hide SpellNumber, ScanNumber;
  }

  lemma StringTokens(t: Text, p: nat, s: State, v: Value)
    requires WellFormed(s) && v.String? && ValidValue(v) && Has(t, p, Spell(v)) && p < |t|
    ensures ValueStep(t, p, s) == Next(JsonAcceptance.After(s, v, p + |Spell(v)|), TokensOf(v)[0])
  {
    var w := SpellChars(v.chars);
    HasString(t, p, v.chars);
    ScansChars(t, p + 1, v.chars, false);
    HasBoth(t, p + 1, w, [QUOTE]);
    SliceOfWord(t, p + 1, w);
    hide SpellChars, ScanString;
  }

  lemma OpenTokens(t: Text, p: nat, s: State, item: Item)
    requires WellFormed(s) && p < |t| && t[p] == OpenByte(item) && |s.stack| < MAX_DEPTH
    ensures ValueStep(t, p, s).Next? && ValueStep(t, p, s).token == OpenToken(item)
  {
  }

  lemma EndTokens(t: Text, p: nat, s: State, item: Item)
    requires p < |t| && t[p] == CloseByte(item) && s.stack != [] && Top(s.stack) == item
    ensures EndStep(t, p, s, item).Next? && EndStep(t, p, s, item).token == CloseToken(item)
    ensures EndStep(t, p, s, item).state == State(p + 1, EndKind(item), s.stack[..|s.stack| - 1], s.complex)
  {
  }

  lemma EmptyTokens(t: Text, p: nat, s: State, item: Item, blank: Text)
    requires s.pos <= p && WellFormed(s) && |s.stack| < MAX_DEPTH && AllWhitespace(blank)
    requires Has(t, p, Spell(Empty(item, blank))) && p < |t| && NextToken(t, s) == ValueStep(t, p, s)
    ensures var v := Empty(item, blank);
            Yields(t, s, TokensOf(v), JsonAcceptance.After(s, v, p + |Spell(v)|))
  {
    hide Run, Yields, NextToken, ValueStep, Has, SkipWhitespace, EndStep;
    var q := p + 1 + |blank|;
    HasEmpty(t, p, q, item, blank);
    Opens(t, p, s, item);
    OpenTokens(t, p, s, item);
    PushPop(s.stack, item);
    var s1 := ValueStep(t, p, s).state;
    assert WellFormed(s1);
    SkipsBlank(t, p + 1, blank);
    ClosesAtOnce(t, s1, q, item);
    EndTokens(t, q, s1, item);
    YieldsOne(t, s);
    YieldsOne(t, s1);
    YieldsBoth(t, s, [OpenToken(item)], s1, [CloseToken(item)], NextToken(t, s1).state);
  }

  lemma ClosesAtOnce(t: Text, s1: State, q: nat, item: Item)
    requires s1.pos <= |t| && WellFormed(s1) && IsBegin(s1.kind) && Top(s1.stack) == item
    requires q == SkipWhitespace(t, s1.pos) < |t| && t[q] == CloseByte(item)
    ensures NextToken(t, s1) == EndStep(t, q, s1, item)
  {
    hide SkipWhitespace, ValueStep, PropertyNameStep;
  }

  lemma {:induction false} ContainerTokens(t: Text, p: nat, s: State, v: Value)
    requires s.pos <= p && WellFormed(s) && v.Container? && ValidMembers(v.members, v.item) && Has(t, p, Spell(v))
    requires 1 + MembersDepth(v.members) + |s.stack| <= MAX_DEPTH
    requires p < |t| && NextToken(t, s) == ValueStep(t, p, s)
    ensures Yields(t, s, TokensOf(v), JsonAcceptance.After(s, v, p + |Spell(v)|))
    decreases v, 0
  {
    hide NextToken, ValueStep, Run, SpellMembers, SkipContainer, Has, Yields, ValidMembers, MembersDepth;
    HasContainer(t, p, v.item, v.members);
    ContainerOpens(t, p, s, v.item, v.members);
    OpenTokens(t, p, s, v.item);
    PushPop(s.stack, v.item);
    var s1 := ValueStep(t, p, s).state;
    MembersTokens(t, p + 1, s1, v.members);
    var rest := TokensOfMembers(v.members) + [CloseToken(v.item)];
    YieldsOne(t, s);
    YieldsBoth(t, s, [OpenToken(v.item)], s1, rest, JsonAcceptance.After(s, v, p + |Spell(v)|));
  }

  lemma {:induction false} MembersTokens(t: Text, b: nat, s: State, ms: Members)
    requires s.pos <= b <= |t| && WellFormed(s) && s.stack != [] && NextToken(t, s) == AfterComma(t, b, s)
    requires ValidMembers(ms, Top(s.stack)) && MembersDepth(ms) + |s.stack| <= MAX_DEPTH
    requires Has(t, b, SpellMembers(ms) + [CloseByte(Top(s.stack))])
    ensures Yields(t, s, TokensOfMembers(ms) + [CloseToken(Top(s.stack))],
                   State(b + |SpellMembers(ms)| + 1, EndKind(Top(s.stack)), s.stack[..|s.stack| - 1], true))
    decreases ms
  {
    hide NextToken, AfterComma, SkipWhitespace, Spell, SpellMember, Has, ValidMember, Run, Yields, TokensOfMember;
    hide SkipContainer, EndStep;
    var close := CloseByte(Top(s.stack));
    var end := [CloseToken(Top(s.stack))];
    var m := ms.m;
    var q := b + |SpellMember(m)|;
    if ms.More? {
      HasMore(t, b, q, m, ms.rest, close);
      var e := MemberTokens(t, b, q, s, m);
      MembersTokens(t, q + 1, e, ms.rest);
      var rest := TokensOfMembers(ms.rest) + end;
      YieldsBoth(t, s, TokensOfMember(m), e, rest,
                 State(q + 1 + |SpellMembers(ms.rest)| + 1, EndKind(Top(s.stack)), s.stack[..|s.stack| - 1], true));
      assert TokensOfMember(m) + rest == TokensOfMembers(ms) + end;
    } else {
      HasLast(t, b, q, m, close);
      var e := MemberTokens(t, b, q, s, m);
      EndTokens(t, q, e, Top(s.stack));
      YieldsOne(t, e);
      YieldsBoth(t, s, TokensOfMember(m), e, end, NextToken(t, e).state);
    }
  }

  lemma {:induction false} MemberTokens(t: Text, b: nat, q: nat, s: State, m: Member) returns (e: State)
    requires s.pos <= b <= |t| && WellFormed(s) && s.stack != [] && NextToken(t, s) == AfterComma(t, b, s)
    requires ValidMember(m, Top(s.stack)) && Depth(m.value) + |s.stack| <= MAX_DEPTH
    requires Has(t, b, SpellMember(m)) && q == b + |SpellMember(m)| < |t|
    requires t[q] == COMMA || t[q] == CloseByte(Top(s.stack))
    ensures s.pos < e.pos <= q && WellFormed(e) && e.stack == s.stack && e.complex
    ensures SkipWhitespace(t, e.pos) == q && Yields(t, s, TokensOfMember(m), e)
    ensures t[q] == COMMA ==> NextToken(t, e) == AfterComma(t, q + 1, e)
    ensures t[q] == CloseByte(Top(s.stack)) ==> NextToken(t, e) == EndStep(t, q, e, Top(s.stack))
    decreases m
  {
    hide NextToken, ValueStep, AfterComma, EndStep, SkipWhitespace, Spell, SpellMember, SpellName;
    hide Run, Yields, TokensOf, TokensOfName;
    var b', p, end := MemberPlaces(t, b, q, m, Top(s.stack));
    var n := NameTokens(t, b, s, m, b', p);
    ValueTokens(t, p, n, m.value);
    e := JsonAcceptance.After(n, m.value, end);
    YieldsBoth(t, s, TokensOfName(m.name), n, TokensOf(m.value), e);
    LeavesElement(t, e, q);
  }

  /** Before the value of a member there may be its name. */
  lemma NameTokens(t: Text, b: nat, s: State, m: Member, b': nat, p: nat) returns (n: State)
    requires s.pos <= b <= |t| && WellFormed(s) && s.stack != [] && NextToken(t, s) == AfterComma(t, b, s)
    requires ValidMember(m, Top(s.stack)) && Has(t, b, SpellName(m.name)) && b' == b + |SpellName(m.name)| <= |t|
    requires p == SkipWhitespace(t, b') < |t|
    ensures s.pos <= n.pos <= b' && WellFormed(n) && n.stack == s.stack && NextToken(t, n) == ValueStep(t, p, n)
    ensures n.complex == s.complex && Yields(t, s, TokensOfName(m.name), n)
  {
    hide SkipWhitespace, ValueStep, Has, Run, Yields, TokensOfName;
    n := s;
    if m.name.Named? {
      NameRead(t, b, s, m.name);
      NameToken(t, b, s, m.name);
      n := AfterComma(t, b, s).state;
      YieldsOne(t, s);
    } else {
      YieldsNone(t, s);
      assert TokensOfName(m.name) == [] by { NoNameTokens(m.name); }
    }
  }

  lemma NoNameTokens(name: Name)
    requires name.NoName?
    ensures TokensOfName(name) == []
  {
  }

  lemma NameToken(t: Text, b: nat, s: State, name: Name)
    requires b <= |t| && WellFormed(s) && s.stack != [] && Top(s.stack).Object?
    requires name.Named? && ValidName(name) && Has(t, b, SpellName(name))
    ensures AfterComma(t, b, s).Next? && [AfterComma(t, b, s).token] == TokensOfName(name)
  {
    hide Has, SpellChars, ScanString, SkipWhitespace;
    var q := b + |name.before|;
    var w := SpellChars(name.chars);
    var end := q + 1 + |w|;
    HasName(t, b, q, end, end + 1 + |name.after|, name);
    SkipsBlank(t, b, name.before);
    ScansChars(t, q + 1, name.chars, false);
    SkipsBlank(t, end + 1, name.after);
    HasBoth(t, q + 1, w, [QUOTE]);
    SliceOfWord(t, q + 1, w);
  }

  // ---------------------------------------------------------------- the theorem

  lemma StartsAt(t: Text, p: nat)
    requires p == SkipWhitespace(t, 0) < |t|
    ensures NextToken(t, INITIAL) == ValueStep(t, p, INITIAL)
  {
  }

  lemma NoTokenFollows(t: Text, s: State)
    requires s.pos <= |t| && WellFormed(s) && s.stack == [] && !s.kind.NoToken? && SkipWhitespace(t, s.pos) == |t|
    ensures Run(t, s) == ([], ReaderDone)
  {
  }

  /** Whichever way a text is spelled, reading it gives the tokens of the tree, and then DONE. */
  lemma ReadsTree(t: Text, before: Text, v: Value, after: Text)
    requires SpellsJson(t, before, v, after)
    ensures Run(t, INITIAL) == (TokensOf(v), ReaderDone)
  {
    hide NextToken, ValueStep, SkipWhitespace, Run, Spell, SkipContainer, Has, TokensOf;
    var p, end := TextPlaces(t, before, v, after);
    ValueStarts(t, p, v);
    StartsAt(t, p);
    ValueTokens(t, p, INITIAL, v);
    NoTokenFollows(t, JsonAcceptance.After(INITIAL, v, end));
    assert TokensOf(v) + [] == TokensOf(v);
  }
}
