/** Where the nesting limit strikes: JSON texts of any depth are read to the end or stopped with
    NESTING_OVERFLOW, and only a container opened at depth 64 stops them. */
module JsonNesting {
  import opened Bytes
  import opened BitStack
  import opened ReaderSpec
  import opened JsonGrammar
  import opened JsonAcceptance
  import opened JsonTrees

  // ---------------------------------------------------------------- texts nested too deep

  /** A text of the grammar, nested as deep as it may be. */
  ghost predicate SpellsNested(t: Text, before: Text, v: Value, after: Text) {
    && t == before + (Spell(v) + after)
    && AllWhitespace(before) && ValidValue(v) && AllWhitespace(after)
    && (v.Number? && BareExponent(v.parts) ==> after != [])
  }

  lemma OpensTooDeep(t: Text, p: nat, s: State, v: Value)
    requires IsCompound(v) && Has(t, p, Spell(v)) && |s.stack| >= MAX_DEPTH
    ensures p < |t| && ValueStep(t, p, s) == Stop(NestingOverflow)
  {
    match v {
      case Empty(item, blank) => HasEmpty(t, p, p + 1 + |blank|, item, blank);
      case Container(item, ms) => HasContainer(t, p, item, ms);
    }
  }

  /** Reading a value that nests too deep from state s on overflows. */
  lemma {:induction false} ValueTooDeep(t: Text, p: nat, s: State, v: Value)
    requires s.pos <= p && WellFormed(s) && ValidValue(v) && Has(t, p, Spell(v))
    requires Depth(v) + |s.stack| > MAX_DEPTH
    requires p < |t| && NextToken(t, s) == ValueStep(t, p, s)
    ensures Run(t, s).1.NestingOverflow?
    decreases v
  {
    if |s.stack| == MAX_DEPTH {
      OpensTooDeep(t, p, s, v);
    } else {
      hide NextToken, ValueStep, Has, Spell, SpellMembers, ValidMembers, MembersDepth;
      HasContainer(t, p, v.item, v.members);
      ContainerOpens(t, p, s, v.item, v.members);
      var s1 := ValueStep(t, p, s).state;
      PushPop(s.stack, v.item);
      MembersTooDeep(t, p + 1, s1, v.members);
    }
  }

  lemma {:induction false} MembersTooDeep(t: Text, b: nat, s: State, ms: Members)
    requires s.pos <= b <= |t| && WellFormed(s) && s.stack != [] && NextToken(t, s) == AfterComma(t, b, s)
    requires ValidMembers(ms, Top(s.stack)) && MembersDepth(ms) + |s.stack| > MAX_DEPTH
    requires Has(t, b, SpellMembers(ms) + [CloseByte(Top(s.stack))])
    ensures Run(t, s).1.NestingOverflow?
    decreases ms
  {
    hide NextToken, AfterComma, SkipWhitespace, Spell, SpellMember, SpellName, Has, ValidMember, Run;
    var close := CloseByte(Top(s.stack));
    var m := ms.m;
    var q := b + |SpellMember(m)|;
    if ms.More? {
      HasMore(t, b, q, m, ms.rest, close);
    } else {
      HasLast(t, b, q, m, close);
    }
    if Depth(m.value) + |s.stack| > MAX_DEPTH {
      var b', p, end := MemberPlaces(t, b, q, m, Top(s.stack));
      var n := NameTokens(t, b, s, m, b', p);
      assert ValidValue(m.value) by {
        MemberValue(m, Top(s.stack));
      }
      ValueTooDeep(t, p, n, m.value);
    } else {
      var e := MemberTokens(t, b, q, s, m);
      MembersTooDeep(t, q + 1, e, ms.rest);
    }
  }

  lemma MemberValue(m: Member, item: Item)
    requires ValidMember(m, item)
    ensures ValidValue(m.value)
  {
  }

  /** A text of the grammar is read to its end if it nests no deeper than the stack, and stops the reader
      with NESTING_OVERFLOW otherwise. */
  lemma NestedResult(t: Text, before: Text, v: Value, after: Text)
    requires SpellsNested(t, before, v, after)
    ensures Run(t, INITIAL).1 == if Depth(v) <= MAX_DEPTH then ReaderDone else NestingOverflow
  {
    hide NextToken, ValueStep, SkipWhitespace, Run, Spell, Has;
    if Depth(v) <= MAX_DEPTH {
      ReadsTree(t, before, v, after);
    } else {
      var p := |before|;
      HasSplit(t, before, Spell(v) + after);
      HasBoth(t, p, Spell(v), after);
      ValueStarts(t, p, v);
      SkipsBlank(t, 0, before);
      StartsAt(t, p);
      ValueTooDeep(t, p, INITIAL, v);
    }
  }

  lemma HasSplit(t: Text, before: Text, rest: Text)
    requires t == before + rest
    ensures Has(t, 0, before) && Has(t, |before|, rest)
  {
    assert Has(t, 0, t);
    HasBoth(t, 0, before, rest);
  }

  // ---------------------------------------------------------------- where it strikes

  const NULL_TOKEN: Token := Token(NullToken, NULL_TEXT, false)

  predicate IsOpening(b: Byte) {
    b == OPEN_BRACE || b == OPEN_BRACKET
  }

  /** In state s a value is due at q: were the rest of the text null, it would be read as the next token. */
  ghost predicate ValueDue(t: Text, s: State, q: nat) {
    && s.pos <= q <= |t| && WellFormed(s)
    && NextToken(t[..q] + NULL_TEXT, s) == Next(State(q + 4, NullToken, s.stack, s.complex), NULL_TOKEN)
  }

  /** The place at which the next token starts, if it is a value. */
  ghost predicate ValueAt(t: Text, s: State, q: nat)
    requires s.pos <= |t| && WellFormed(s)
  {
    var p := SkipWhitespace(t, s.pos);
    && p <= q < |t|
    && match s.kind {
       case BeginObject => false
       case BeginArray => q == p && t[p] != CLOSE_BRACKET
       case NoToken => q == p
       case PropertyName => q == p
       case _ =>
         s.stack != [] && Top(s.stack).Array? && t[p] == COMMA && q == SkipWhitespace(t, p + 1)
       }
  }

  lemma ReadsValueAt(t: Text, s: State, q: nat)
    requires s.pos <= |t| && WellFormed(s) && ValueAt(t, s, q)
    ensures NextToken(t, s) == ValueStep(t, q, s)
  {
    hide ValueStep, SkipWhitespace;
  }

  /** Where a token starts that can only be a value. */
  lemma ValuePlace(t: Text, s: State) returns (q: nat)
    requires s.pos <= |t| && WellFormed(s)
    requires match NextToken(t, s)
             case Stop(code) => code.NestingOverflow?
             case Next(next, _) => next.kind.NumberToken? || next.kind.NullToken?
    ensures ValueAt(t, s, q) && q < |t| && NextToken(t, s) == ValueStep(t, q, s)
  {
    hide ScanNumber, ScanString, ScanLiteral, SkipWhitespace;
    var p := SkipWhitespace(t, s.pos);
    var next := s.stack != [] && t[p] == COMMA && !s.kind.NoToken? && !IsBegin(s.kind) && !s.kind.PropertyName?;
    q := if next then SkipWhitespace(t, p + 1) else p;
  }

  lemma OverflowPlace(t: Text, s: State) returns (q: nat)
    requires s.pos <= |t| && WellFormed(s) && NextToken(t, s) == Stop(NestingOverflow)
    ensures ValueAt(t, s, q) && q < |t| && IsOpening(t[q]) && |s.stack| == MAX_DEPTH
  {
    q := ValuePlace(t, s);
    hide NextToken, ScanNumber, ScanString, ScanLiteral;
  }

  lemma NullPlace(t: Text, s: State) returns (q: nat)
    requires s.pos <= |t| && WellFormed(s) && NextToken(t, s).Next? && NextToken(t, s).state.kind.NullToken?
    ensures ValueAt(t, s, q) && NextToken(t, s).state.pos == q + 4
  {
    q := ValuePlace(t, s);
    hide NextToken, ScanNumber, ScanString;
  }

  lemma {:induction false} SameBlank(t: Text, w: Text, a: nat, p: nat)
    requires a <= p < |w| && p < |t| && (forall i :: a <= i < p ==> w[i] == t[i]) && !IsWhitespace(w[p])
    requires SkipWhitespace(t, a) == p
    ensures SkipWhitespace(w, a) == p
    decreases p - a
  {
    if a < p {
      assert w[a] == t[a];
      SameBlank(t, w, a + 1, p);
    }
  }

  /** Texts that agree before q have a value there alike, if what stands there is the first byte of one. */
  lemma SameValueAt(t: Text, w: Text, s: State, q: nat)
    requires s.pos <= |t| && s.pos <= |w| && WellFormed(s) && ValueAt(t, s, q)
    requires q < |w| && (forall i :: 0 <= i < q ==> w[i] == t[i]) && StartsValue(w[q])
    ensures ValueAt(w, s, q)
  {
    hide SkipWhitespace;
    var p := SkipWhitespace(t, s.pos);
    SameBlank(t, w, s.pos, p);
    if p < q {
      SameBlank(t, w, p + 1, q);
    }
  }

  lemma ReadsNull(w: Text, q: nat, s: State)
    requires WellFormed(s) && Has(w, q, NULL_TEXT)
    ensures q < |w| && ValueStep(w, q, s) == Next(State(q + 4, NullToken, s.stack, s.complex), NULL_TOKEN)
  {
    LiteralTokens(w, q, s, Literal(NullToken));
  }

  /** The next token overflows the nesting if and only if 64 containers are open and an opening bracket
      stands where a value is due. */
  lemma OverflowsExactlyAt(t: Text, s: State)
    requires s.pos <= |t| && WellFormed(s)
    ensures NextToken(t, s) == Stop(NestingOverflow) <==>
              |s.stack| == MAX_DEPTH && exists q :: 0 <= q < |t| && IsOpening(t[q]) && ValueDue(t, s, q)
  {
    hide NextToken, ValueAt;
    if NextToken(t, s) == Stop(NestingOverflow) {
      var q := OverflowPlace(t, s);
      OverflowIsDue(t, s, q);
    }
    if q :| |s.stack| == MAX_DEPTH && 0 <= q < |t| && IsOpening(t[q]) && ValueDue(t, s, q) {
      var w := t[..q] + NULL_TEXT;
      var n := NullPlace(w, s);
      SameValueAt(w, t, s, q);
      ReadsValueAt(t, s, q);
    }
  }

  lemma OverflowIsDue(t: Text, s: State, q: nat)
    requires s.pos <= |t| && WellFormed(s) && ValueAt(t, s, q)
    ensures ValueDue(t, s, q)
  {
    hide NextToken, ValueStep;
    var w := t[..q] + NULL_TEXT;
    SameValueAt(t, w, s, q);
    ReadsValueAt(w, s, q);
    ReadsNull(w, q, s);
  }
}
