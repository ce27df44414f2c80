/** The texts of RFC 8259 among those that the reader accepts: its number rule allows an exponent mark
    without digits, and section 6 of RFC 8259 does not. */
module JsonStrict {
  import opened Bytes
  import opened BitStack
  import opened ReaderSpec
  import opened JsonGrammar
  import opened JsonAcceptance
  import opened JsonTrees

  // ---------------------------------------------------------------- the strict grammar

  /** Every exponent in the tree has digits. */
  ghost predicate StrictValue(v: Value) {
    match v
    case Number(parts) => !BareExponent(parts)
    case Container(_, members) => StrictMembers(members)
    case _ => true
  }

  ghost predicate StrictMembers(ms: Members) {
    StrictValue(ms.m.value) && (ms.More? ==> StrictMembers(ms.rest))
  }

  /** A JSON text as sections 2 to 7 of RFC 8259 define it, nested no deeper than the reader's stack. */
  ghost predicate IsStrictJson(t: Text) {
    exists before, v, after ::
      && t == before + (Spell(v) + after)
      && AllWhitespace(before) && ValidValue(v) && StrictValue(v) && AllWhitespace(after) && Depth(v) <= MAX_DEPTH
  }

  predicate EndsInMark(s: Text) {
    s != [] && IsExponentMark(s[|s| - 1])
  }

  predicate IsBare(token: Token) {
    token.kind.NumberToken? && EndsInMark(token.bytes)
  }

  /** No number token ends in an exponent mark. */
  ghost predicate NoneBare(tokens: seq<Token>) {
    forall i :: 0 <= i < |tokens| ==> !IsBare(tokens[i])
  }

  lemma LastOf(a: Text, b: Text)
    ensures EndsInMark(a + b) <==> if b == [] then EndsInMark(a) else EndsInMark(b)
  {
    assert b == [] ==> a + b == a;
  }

  lemma DigitsEndInNoMark(ds: Text)
    requires AllDigits(ds)
    ensures !EndsInMark(ds)
  {
  }

  lemma BareEndsInMark(n: NumberParts)
    requires ValidNumber(n)
    ensures EndsInMark(SpellNumber(n)) <==> BareExponent(n)
  {
    var tail := n.sign + n.exponent;
    DigitsEndInNoMark(n.integer);
    DigitsEndInNoMark(n.fraction);
    DigitsEndInNoMark(n.exponent);
    LastOf(n.sign, n.exponent);
    LastOf(n.mark, tail);
    LastOf([DOT], n.fraction);
    LastOf(if n.fraction == [] then [] else [DOT] + n.fraction, SpellExponent(n));
    LastOf(n.integer, SpellFraction(n));
    LastOf(if n.minus then [MINUS] else [], SpellUnsigned(n));
    hide EndsInMark, AllDigits;
    if n.mark == [] {
      assert tail == [] && SpellExponent(n) == [];
    } else if BareExponent(n) {
      assert tail == [] && EndsInMark(n.mark) by { MarkEnds(n); }
    }
  }

  lemma MarkEnds(n: NumberParts)
    requires ValidNumber(n) && n.mark != []
    ensures EndsInMark(n.mark)
  {
  }

  // ---------------------------------------------------------------- trees and tokens

  lemma NoneBareIn(x: seq<Token>, y: seq<Token>)
    ensures NoneBare(x + y) <==> NoneBare(x) && NoneBare(y)
  {
    var z := x + y;
    if NoneBare(z) {
      assert forall i :: 0 <= i < |x| ==> x[i] == z[i];
      assert forall i :: 0 <= i < |y| ==> y[i] == z[|x| + i];
    }
  }

  lemma NotBare(token: Token)
    requires !token.kind.NumberToken?
    ensures NoneBare([token])
  {
  }

  lemma NumberIsBare(n: NumberParts)
    requires ValidNumber(n)
    ensures NoneBare(TokensOf(Number(n))) <==> !BareExponent(n)
  {
    BareEndsInMark(n);
    hide SpellNumber, EndsInMark, BareExponent;
    assert TokensOf(Number(n))[0] == Token(NumberToken, SpellNumber(n), false);
  }

  /** A tree is strict if and only if its tokens are. */
  lemma {:induction false} TokensAreStrict(v: Value)
    requires ValidValue(v)
    ensures NoneBare(TokensOf(v)) <==> StrictValue(v)
    decreases v
  {
    hide NoneBare;
    match v {
      case Number(n) => NumberIsBare(n);
      case Literal(_) => NotBare(TokensOf(v)[0]);
      case String(_) => NotBare(TokensOf(v)[0]);
      case Empty(item, _) =>
        NotBare(OpenToken(item));
        NotBare(CloseToken(item));
        NoneBareIn([OpenToken(item)], [CloseToken(item)]);
      case Container(item, ms) =>
        NotBare(OpenToken(item));
        NotBare(CloseToken(item));
        NoneBareIn([OpenToken(item)], TokensOfMembers(ms) + [CloseToken(item)]);
        NoneBareIn(TokensOfMembers(ms), [CloseToken(item)]);
        MembersAreStrict(ms, item);
    }
  }

  lemma {:induction false} MembersAreStrict(ms: Members, item: Item)
    requires ValidMembers(ms, item)
    ensures NoneBare(TokensOfMembers(ms)) <==> StrictMembers(ms)
    decreases ms
  {
    hide NoneBare;
    var m := ms.m;
    TokensAreStrict(m.value);
    NoneBareIn(TokensOfName(m.name), TokensOf(m.value));
    assert NoneBare(TokensOfName(m.name)) by {
      NameIsNotBare(m.name);
    }
    if ms.More? {
      NoneBareIn(TokensOfMember(m), TokensOfMembers(ms.rest));
      MembersAreStrict(ms.rest, item);
    }
  }

  lemma NameIsNotBare(name: Name)
    ensures NoneBare(TokensOfName(name))
  {
  }

  // ---------------------------------------------------------------- the theorem

  /** Whichever way a text is spelled, its tree is strict exactly if its tokens are. */
  lemma SpelledStrictly(t: Text, before: Text, v: Value, after: Text)
    requires SpellsJson(t, before, v, after)
    ensures StrictValue(v) <==> NoneBare(Run(t, INITIAL).0)
  {
    ReadsTree(t, before, v, after);
    TokensAreStrict(v);
  }

  /** The texts of RFC 8259 are exactly those that the reader accepts without reading a number that ends in
      its exponent mark. */
  lemma AcceptsBeyondStrict(t: Text)
    ensures IsStrictJson(t) <==> Accepts(t, INITIAL) && NoneBare(Run(t, INITIAL).0)
  {
    hide NextToken, Run, Spell, StrictValue, ValidValue;
    if IsStrictJson(t) {
      var before, v, after :|
        && t == before + (Spell(v) + after)
        && AllWhitespace(before) && ValidValue(v) && StrictValue(v) && AllWhitespace(after) && Depth(v) <= MAX_DEPTH;
      NumberIsStrict(v);
      JsonIsAccepted(t, before, v, after);
      SpelledStrictly(t, before, v, after);
    }
    if Accepts(t, INITIAL) && NoneBare(Run(t, INITIAL).0) {
      AcceptedIsJson(t);
      var before, v, after :| SpellsJson(t, before, v, after);
      SpelledStrictly(t, before, v, after);
    }
  }

  lemma NumberIsStrict(v: Value)
    requires StrictValue(v)
    ensures v.Number? ==> !BareExponent(v.parts)
  {
  }

  const BARE_EXPONENT: NumberParts := NumberParts(false, [0x31], [], [0x65], [], [])

  /** The reader accepts the text [1e], which is no JSON text of RFC 8259, though not the text 1e alone. */
  lemma AcceptsBareExponent()
    ensures Accepts([OPEN_BRACKET] + (SpellNumber(BARE_EXPONENT) + [CLOSE_BRACKET]), INITIAL)
    ensures !IsStrictJson([OPEN_BRACKET] + (SpellNumber(BARE_EXPONENT) + [CLOSE_BRACKET]))
    ensures !Accepts(SpellNumber(BARE_EXPONENT), INITIAL)
  {
    var v := BareInArray();
    var t := [OPEN_BRACKET] + (SpellNumber(BARE_EXPONENT) + [CLOSE_BRACKET]);
    hide Accepts, Run, SpellsJson, IsStrictJson, StrictValue, Spell;
    AcceptsExactlyJson(t);
    AcceptsBeyondStrict(t);
    SpelledStrictly(t, [], v, []);
    AcceptsNoBareAlone();
  }

  lemma BareInArray() returns (v: Value)
    ensures SpellsJson([OPEN_BRACKET] + (SpellNumber(BARE_EXPONENT) + [CLOSE_BRACKET]), [], v, []) && !StrictValue(v)
  {
    var n := BARE_EXPONENT;
    v := Container(Array, Last(Member(NoName, [], Number(n), [])));
    assert SpellMember(v.members.m) == SpellNumber(n);
    assert [OPEN_BRACKET] + (SpellNumber(n) + [CLOSE_BRACKET]) == [] + (Spell(v) + []);
  }

  lemma AcceptsNoBareAlone()
    ensures !Accepts(SpellNumber(BARE_EXPONENT), INITIAL)
  {
    var u := SpellNumber(BARE_EXPONENT);
    assert u == [0x31, 0x65];
    assert EndOfDigits(u, 1) == 1 && EndOfDigits(u, 0) == 1 && ScanExponent(u, 2, false) == Bad(UnexpectedEnd);
    assert ScanNumber(u, 0, false) == Bad(UnexpectedEnd);
    hide ScanNumber;
    assert NextToken(u, INITIAL) == Stop(UnexpectedEnd);
  }
}
