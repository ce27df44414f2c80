/** The JSON grammar of RFC 8259, sections 2 to 7, as trees that spell texts. The number rule is as
    loose as the reader's: an exponent mark without sign may have no digits. */
module JsonGrammar {
  import opened Bytes
  import opened BitStack
  import opened ReaderSpec

  datatype StringChar =
    | Plain(b: Byte)
    | Escape(b: Byte)
    | Unicode(h1: Byte, h2: Byte, h3: Byte, h4: Byte)

  /** [minus] integer [.fraction] [mark [sign] exponent]; an empty text is an absent part. */
  datatype NumberParts = NumberParts(minus: bool, integer: Text, fraction: Text, mark: Text, sign: Text, exponent: Text)

  datatype Value =
    | Literal(kind: TokenKind)
    | Number(parts: NumberParts)
    | String(chars: seq<StringChar>)
    | Empty(item: Item, blank: Text)
    | Container(item: Item, members: Members)

  datatype Members = Last(m: Member) | More(m: Member, rest: Members)

  /** An element of an array, or with a name a member of an object. */
  datatype Member = Member(name: Name, before: Text, value: Value, after: Text)

  /** The name of an object's member, with the white space around it, up to the colon. */
  datatype Name = NoName | Named(before: Text, chars: seq<StringChar>, after: Text)

  // ---------------------------------------------------------------- what the trees spell

  function SpellChar(c: StringChar): Text {
    match c
    case Plain(b) => [b]
    case Escape(b) => [BACKSLASH, b]
    case Unicode(h1, h2, h3, h4) => [BACKSLASH, LOWER_U, h1, h2, h3, h4]
  }

  ghost function SpellChars(cs: seq<StringChar>): Text {
    if cs == [] then [] else SpellChar(cs[0]) + SpellChars(cs[1..])
  }

  ghost function SpellNumber(n: NumberParts): Text {
    (if n.minus then [MINUS] else []) + SpellUnsigned(n)
  }

  ghost function SpellUnsigned(n: NumberParts): Text {
    n.integer + SpellFraction(n)
  }

  ghost function SpellFraction(n: NumberParts): Text {
    (if n.fraction == [] then [] else [DOT] + n.fraction) + SpellExponent(n)
  }

  ghost function SpellExponent(n: NumberParts): Text {
    n.mark + (n.sign + n.exponent)
  }

  function LiteralText(kind: TokenKind): Text {
    if kind.TrueToken? then TRUE_TEXT else if kind.FalseToken? then FALSE_TEXT else NULL_TEXT
  }

  function OpenByte(item: Item): Byte {
    if item.Object? then OPEN_BRACE else OPEN_BRACKET
  }

  function CloseByte(item: Item): Byte {
    if item.Object? then CLOSE_BRACE else CLOSE_BRACKET
  }

  ghost function Spell(v: Value): Text {
    match v
    case Literal(kind) => LiteralText(kind)
    case Number(parts) => SpellNumber(parts)
    case String(chars) => [QUOTE] + (SpellChars(chars) + [QUOTE])
    case Empty(item, blank) => [OpenByte(item)] + (blank + [CloseByte(item)])
    case Container(item, members) => [OpenByte(item)] + (SpellMembers(members) + [CloseByte(item)])
  }

  ghost function SpellMembers(ms: Members): Text {
    match ms
    case Last(m) => SpellMember(m)
    case More(m, rest) => SpellMember(m) + ([COMMA] + SpellMembers(rest))
  }

  ghost function SpellMember(m: Member): Text {
    SpellName(m.name) + (m.before + (Spell(m.value) + m.after))
  }

  ghost function SpellName(name: Name): Text {
    match name
    case NoName => []
    case Named(before, chars, after) => before + ([QUOTE] + (SpellChars(chars) + ([QUOTE] + (after + [COLON]))))
  }

  // ---------------------------------------------------------------- which trees are well formed

  ghost predicate ValidChar(c: StringChar) {
    match c
    case Plain(b) => b >= SPACE && b != QUOTE && b != BACKSLASH
    case Escape(b) => IsEscapable(b)
    case Unicode(h1, h2, h3, h4) => IsHexDigit(h1) && IsHexDigit(h2) && IsHexDigit(h3) && IsHexDigit(h4)
  }

  ghost predicate ValidChars(cs: seq<StringChar>) {
    forall i :: 0 <= i < |cs| ==> ValidChar(cs[i])
  }

  ghost predicate ValidNumber(n: NumberParts) {
    && n.integer != [] && AllDigits(n.integer) && (n.integer[0] == ZERO ==> |n.integer| == 1)
    && AllDigits(n.fraction)
    && ValidExponent(n)
  }

  ghost predicate ValidExponent(n: NumberParts) {
    && AllDigits(n.exponent)
    && if n.mark == [] then n.sign == [] && n.exponent == []
       else
         && |n.mark| == 1 && IsExponentMark(n.mark[0])
         && |n.sign| <= 1 && (n.sign != [] ==> IsSign(n.sign[0]) && n.exponent != [])
  }

  /** The form that RFC 8259 does not allow: an exponent mark and nothing after it. */
  ghost predicate BareExponent(n: NumberParts) {
    n.mark != [] && n.sign == [] && n.exponent == []
  }

  ghost predicate ValidValue(v: Value) {
    match v
    case Literal(kind) => kind.TrueToken? || kind.FalseToken? || kind.NullToken?
    case Number(parts) => ValidNumber(parts)
    case String(chars) => ValidChars(chars)
    case Empty(_, blank) => AllWhitespace(blank)
    case Container(item, members) => ValidMembers(members, item)
  }

  ghost predicate ValidMembers(ms: Members, item: Item) {
    ValidMember(ms.m, item) && (ms.More? ==> ValidMembers(ms.rest, item))
  }

  ghost predicate ValidMember(m: Member, item: Item) {
    && ValidName(m.name)
    && (m.name.Named? <==> item.Object?)
    && AllWhitespace(m.before) && ValidValue(m.value) && AllWhitespace(m.after)
  }

  ghost predicate ValidName(name: Name) {
    name.Named? ==> AllWhitespace(name.before) && ValidChars(name.chars) && AllWhitespace(name.after)
  }

  ghost function Depth(v: Value): nat {
    match v
    case Empty(_, _) => 1
    case Container(_, members) => 1 + MembersDepth(members)
    case _ => 0
  }

  ghost function MembersDepth(ms: Members): nat {
    match ms
    case Last(m) => Depth(m.value)
    case More(m, rest) => Max(Depth(m.value), MembersDepth(rest))
  }

  function Max(a: nat, b: nat): nat {
    if a < b then b else a
  }

  /** A JSON text: a value between white space, nested no deeper than the reader's stack. */
  ghost predicate SpellsJson(t: Text, before: Text, v: Value, after: Text) {
    && t == before + (Spell(v) + after)
    && AllWhitespace(before) && ValidValue(v) && AllWhitespace(after)
    && Depth(v) <= MAX_DEPTH
    && (v.Number? && BareExponent(v.parts) ==> after != [])
  }

  ghost predicate IsJson(t: Text) {
    exists before, v, after :: SpellsJson(t, before, v, after)
  }

  // ---------------------------------------------------------------- words in a text

  /** The word w stands in t at p. */
  ghost predicate Has(t: Text, p: nat, w: Text) {
    p + |w| <= |t| && forall i {:trigger w[i]} :: 0 <= i < |w| ==> t[p + i] == w[i]
  }

  lemma HasBoth(t: Text, p: nat, x: Text, y: Text)
    ensures Has(t, p, x + y) <==> Has(t, p, x) && Has(t, p + |x|, y)
  {
    var w := x + y;
    if Has(t, p, w) {
      assert forall i {:trigger x[i]} :: 0 <= i < |x| ==> w[i] == x[i];
      assert forall i {:trigger y[i]} :: 0 <= i < |y| ==> w[|x| + i] == y[i];
    }
  }

  lemma HasTail(t: Text, p: nat, w: Text)
    requires Has(t, p, w) && w != []
    ensures Has(t, p + 1, w[1..])
  {
    assert forall i {:trigger w[1..][i]} :: 0 <= i < |w| - 1 ==> w[1..][i] == w[i + 1];
  }

  lemma HasOne(t: Text, p: nat, b: Byte)
    ensures Has(t, p, [b]) <==> p < |t| && t[p] == b
  {
    assert [b][0] == b;
  }

  lemma HasSlice(t: Text, p: nat, q: nat)
    requires p <= q <= |t|
    ensures Has(t, p, t[p..q])
  {
  }

  lemma SliceOfWord(t: Text, p: nat, w: Text)
    requires Has(t, p, w)
    ensures t[p..p + |w|] == w
  {
  }

  // ---------------------------------------------------------------- the parts of a tree in a text

  /** A quoted word and what follows it. */
  lemma HasQuoted(t: Text, q: nat, cs: Text, end: nat, tail: Text)
    requires end == q + 1 + |cs|
    ensures Has(t, q, [QUOTE] + (cs + ([QUOTE] + tail))) <==>
              q < |t| && t[q] == QUOTE && Has(t, q + 1, cs + [QUOTE]) && Has(t, end + 1, tail)
  {
    hide Has;
    HasOne(t, q, QUOTE);
    HasBoth(t, q, [QUOTE], cs + ([QUOTE] + tail));
    HasBoth(t, q + 1, cs + [QUOTE], tail);
    assert cs + ([QUOTE] + tail) == (cs + [QUOTE]) + tail;
  }

  lemma HasName(t: Text, b: nat, q: nat, end: nat, colon: nat, name: Name)
    requires name.Named?
    requires q == b + |name.before| && end == q + 1 + |SpellChars(name.chars)| && colon == end + 1 + |name.after|
    ensures b + |SpellName(name)| == colon + 1
    ensures Has(t, b, SpellName(name)) <==>
              && Has(t, b, name.before)
              && q < |t| && t[q] == QUOTE && Has(t, q + 1, SpellChars(name.chars) + [QUOTE])
              && Has(t, end + 1, name.after) && colon < |t| && t[colon] == COLON
  {
    hide Has;
    var cs := SpellChars(name.chars);
    HasBoth(t, b, name.before, [QUOTE] + (cs + ([QUOTE] + (name.after + [COLON]))));
    HasQuoted(t, q, cs, end, name.after + [COLON]);
    HasBoth(t, end + 1, name.after, [COLON]);
    HasOne(t, colon, COLON);
  }

  lemma HasMember(t: Text, b: nat, b': nat, q: nat, e: nat, m: Member)
    requires b' == b + |SpellName(m.name)| && q == b' + |m.before| && e == q + |Spell(m.value)|
    ensures b + |SpellMember(m)| == e + |m.after|
    ensures Has(t, b, SpellMember(m)) <==>
              Has(t, b, SpellName(m.name)) && Has(t, b', m.before) && Has(t, q, Spell(m.value)) && Has(t, e, m.after)
  {
    hide Has;
    HasBoth(t, b, SpellName(m.name), m.before + (Spell(m.value) + m.after));
    HasBoth(t, b', m.before, Spell(m.value) + m.after);
    HasBoth(t, q, Spell(m.value), m.after);
  }

  lemma HasLast(t: Text, b: nat, q: nat, m: Member, close: Byte)
    requires q == b + |SpellMember(m)|
    ensures Has(t, b, SpellMembers(Last(m)) + [close]) <==> Has(t, b, SpellMember(m)) && q < |t| && t[q] == close
  {
    hide Has;
    HasOne(t, q, close);
    HasBoth(t, b, SpellMember(m), [close]);
  }

  lemma HasMore(t: Text, b: nat, q: nat, m: Member, rest: Members, close: Byte)
    requires q == b + |SpellMember(m)|
    ensures Has(t, b, SpellMembers(More(m, rest)) + [close]) <==>
              && Has(t, b, SpellMember(m)) && q < |t| && t[q] == COMMA
              && Has(t, q + 1, SpellMembers(rest) + [close])
  {
    hide Has;
    var tail := SpellMembers(rest) + [close];
    HasOne(t, q, COMMA);
    HasBoth(t, q, [COMMA], tail);
    HasBoth(t, b, SpellMember(m), [COMMA] + tail);
    assert SpellMembers(More(m, rest)) + [close] == SpellMember(m) + ([COMMA] + tail);
  }

  lemma HasEmpty(t: Text, p: nat, q: nat, item: Item, blank: Text)
    requires q == p + 1 + |blank|
    ensures Has(t, p, Spell(Empty(item, blank))) <==>
              p < |t| && t[p] == OpenByte(item) && Has(t, p + 1, blank) && q < |t| && t[q] == CloseByte(item)
  {
    hide Has;
    HasOne(t, p, OpenByte(item));
    HasOne(t, q, CloseByte(item));
    HasBoth(t, p + 1, blank, [CloseByte(item)]);
    HasBoth(t, p, [OpenByte(item)], blank + [CloseByte(item)]);
  }

  lemma HasContainer(t: Text, p: nat, item: Item, ms: Members)
    ensures Has(t, p, Spell(Container(item, ms))) <==>
              p < |t| && t[p] == OpenByte(item) && Has(t, p + 1, SpellMembers(ms) + [CloseByte(item)])
  {
    hide Has;
    HasOne(t, p, OpenByte(item));
    HasBoth(t, p, [OpenByte(item)], SpellMembers(ms) + [CloseByte(item)]);
  }

  lemma HasString(t: Text, p: nat, cs: seq<StringChar>)
    ensures Has(t, p, Spell(String(cs))) <==> p < |t| && t[p] == QUOTE && Has(t, p + 1, SpellChars(cs) + [QUOTE])
  {
    hide Has;
    HasOne(t, p, QUOTE);
    HasBoth(t, p, [QUOTE], SpellChars(cs) + [QUOTE]);
  }

  // ---------------------------------------------------------------- white space

  lemma {:induction false} SkipsBlank(t: Text, p: nat, blank: Text)
    requires Has(t, p, blank) && AllWhitespace(blank)
    requires p + |blank| < |t| ==> !IsWhitespace(t[p + |blank|])
    ensures SkipWhitespace(t, p) == p + |blank|
    decreases |blank|
  {
    if blank != [] {
      assert t[p] == blank[0];
      HasTail(t, p, blank);
      SkipsBlank(t, p + 1, blank[1..]);
    }
  }

  // ---------------------------------------------------------------- strings

  ghost predicate HasEscape(cs: seq<StringChar>) {
    exists i :: 0 <= i < |cs| && !cs[i].Plain?
  }

  lemma ScansChar(t: Text, p: nat, c: StringChar)
    requires Has(t, p, SpellChar(c)) && ValidChar(c)
    ensures p < |t| && t[p] != QUOTE
    ensures ScanCharacter(t, p) == Found(p + |SpellChar(c)|, !c.Plain?)
  {
    var w := SpellChar(c);
    assert w[0] == t[p];
    if c.Unicode? {
      assert w[1] == t[p + 1] && w[2] == t[p + 2] && w[3] == t[p + 3] && w[4] == t[p + 4] && w[5] == t[p + 5];
      assert ScanHex(t, p + 4, 2) == Found(p + 6, true);
      assert ScanHex(t, p + 2, 4) == Found(p + 6, true);
    } else if c.Escape? {
      assert w[1] == t[p + 1];
    }
  }

  lemma HasChars(t: Text, p: nat, c: StringChar, rest: seq<StringChar>)
    ensures SpellChars([c] + rest) == SpellChar(c) + SpellChars(rest)
    ensures Has(t, p, SpellChars([c] + rest) + [QUOTE]) <==>
              Has(t, p, SpellChar(c)) && Has(t, p + |SpellChar(c)|, SpellChars(rest) + [QUOTE])
  {
    hide Has;
    assert ([c] + rest)[1..] == rest;
    assert SpellChars([c] + rest) + [QUOTE] == SpellChar(c) + (SpellChars(rest) + [QUOTE]);
    HasBoth(t, p, SpellChar(c), SpellChars(rest) + [QUOTE]);
  }

  lemma EscapeInChars(c: StringChar, rest: seq<StringChar>)
    ensures HasEscape([c] + rest) <==> !c.Plain? || HasEscape(rest)
  {
    var cs := [c] + rest;
    if HasEscape(rest) {
      var i :| 0 <= i < |rest| && !rest[i].Plain?;
      assert !cs[i + 1].Plain?;
    }
    if HasEscape(cs) {
      var i :| 0 <= i < |cs| && !cs[i].Plain?;
      assert i > 0 ==> !rest[i - 1].Plain?;
    }
    assert cs[0] == c;
  }

  /** The scanner reads the spelling of any valid characters, up to the closing quote. */
  lemma {:induction false} ScansChars(t: Text, p: nat, cs: seq<StringChar>, escaped: bool)
    requires Has(t, p, SpellChars(cs) + [QUOTE]) && ValidChars(cs)
    ensures ScanString(t, p, escaped) == Found(p + |SpellChars(cs)|, escaped || HasEscape(cs))
    decreases |cs|
  {
    hide Has, ScanCharacter;
    if cs == [] {
      HasOne(t, p, QUOTE);
      assert SpellChars(cs) + [QUOTE] == [QUOTE];
    } else {
      var c, rest := cs[0], cs[1..];
      assert cs == [c] + rest;
      HasChars(t, p, c, rest);
      EscapeInChars(c, rest);
      ScansChar(t, p, c);
      ScansChars(t, p + |SpellChar(c)|, rest, escaped || !c.Plain?);
    }
  }

  /** What the scanner takes for a character is the spelling of a valid one. */
  lemma CharScanned(t: Text, p: nat) returns (c: StringChar)
    requires p < |t| && t[p] != QUOTE && ScanCharacter(t, p).Found?
    ensures ValidChar(c) && Has(t, p, SpellChar(c)) && ScanCharacter(t, p).end == p + |SpellChar(c)|
  {
    if t[p] != BACKSLASH {
      c := Plain(t[p]);
    } else if t[p + 1] != LOWER_U {
      c := Escape(t[p + 1]);
    } else {
      c := Unicode(t[p + 2], t[p + 3], t[p + 4], t[p + 5]);
    }
  }

  /** What the scanner takes for the inside of a string is spelled by valid characters. */
  lemma {:induction false} CharsScanned(t: Text, p: nat, escaped: bool) returns (cs: seq<StringChar>)
    requires ScanString(t, p, escaped).Found?
    ensures ValidChars(cs) && Has(t, p, SpellChars(cs) + [QUOTE])
    ensures ScanString(t, p, escaped).end == p + |SpellChars(cs)|
    decreases |t| - p
  {
    cs := [];
    if t[p] == QUOTE {
      HasOne(t, p, QUOTE);
      assert SpellChars(cs) + [QUOTE] == [QUOTE];
    } else {
      var scan := ScanCharacter(t, p);
      var c := CharScanned(t, p);
      var rest := CharsScanned(t, scan.end, escaped || scan.escaped);
      cs := [c] + rest;
      HasChars(t, p, c, rest);
    }
  }

  // ---------------------------------------------------------------- numbers

  lemma {:induction false} ScansDigits(t: Text, p: nat, ds: Text)
    requires Has(t, p, ds) && AllDigits(ds)
    requires p + |ds| < |t| ==> !IsDigit(t[p + |ds|])
    ensures EndOfDigits(t, p) == p + |ds|
    decreases |ds|
  {
    if ds != [] {
      assert t[p] == ds[0];
      HasTail(t, p, ds);
      ScansDigits(t, p + 1, ds[1..]);
    }
  }

  /** Where the text may go on after a number: at a delimiter, or nowhere at all if the number is the
      whole JSON text and its exponent is complete. */
  ghost predicate NumberEnds(t: Text, end: nat, complex: bool, n: NumberParts) {
    if end < |t| then IsDelimiter(t[end]) else end == |t| && !complex && !BareExponent(n)
  }

  lemma ScansExponent(t: Text, p: nat, n: NumberParts, complex: bool)
    requires Has(t, p, SpellExponent(n)) && ValidExponent(n) && n.mark != []
    requires NumberEnds(t, p + |SpellExponent(n)|, complex, n)
    ensures p < |t| && IsExponentMark(t[p])
    ensures ScanExponent(t, p + 1, complex) == Found(p + |SpellExponent(n)|, false)
  {
    var rest := n.sign + n.exponent;
    HasBoth(t, p, n.mark, rest);
    assert t[p] == n.mark[0];
    HasBoth(t, p + 1, n.sign, n.exponent);
    if n.sign != [] {
      assert t[p + 1] == n.sign[0] && t[p + 2] == n.exponent[0];
    } else if n.exponent != [] {
      assert t[p + 1] == n.exponent[0];
    }
    ScansDigits(t, p + 1 + |n.sign|, n.exponent);
  }

  lemma ScansFraction(t: Text, p: nat, n: NumberParts, complex: bool)
    requires Has(t, p, SpellFraction(n)) && ValidNumber(n)
    requires NumberEnds(t, p + |SpellFraction(n)|, complex, n)
    ensures p < |t| ==> !IsDigit(t[p])
    ensures ScanAfterInteger(t, p, complex) == Found(p + |SpellFraction(n)|, false)
  {
    hide ScanExponent, EndOfDigits;
    if n.fraction == [] {
      assert SpellFraction(n) == SpellExponent(n);
      ScansTail(t, p, n, complex);
    } else {
      HasBoth(t, p, [DOT] + n.fraction, SpellExponent(n));
      HasBoth(t, p, [DOT], n.fraction);
      HasOne(t, p, DOT);
      assert t[p + 1] == n.fraction[0];
      var q := p + 1 + |n.fraction|;
      ScansTail(t, q, n, complex);
      ScansDigits(t, p + 1, n.fraction);
    }
  }

  /** After the last digits before the exponent. */
  lemma ScansTail(t: Text, p: nat, n: NumberParts, complex: bool)
    requires Has(t, p, SpellExponent(n)) && ValidExponent(n)
    requires NumberEnds(t, p + |SpellExponent(n)|, complex, n)
    ensures p < |t| ==> !IsDigit(t[p]) && t[p] != DOT
    ensures ScanAfterFraction(t, p, complex) == Found(p + |SpellExponent(n)|, false)
    ensures ScanAfterInteger(t, p, complex) == Found(p + |SpellExponent(n)|, false)
  {
    if n.mark != [] {
      ScansExponent(t, p, n, complex);
    } else {
      assert SpellExponent(n) == [];
    }
  }

  lemma ScansUnsigned(t: Text, p: nat, n: NumberParts, complex: bool)
    requires Has(t, p, SpellUnsigned(n)) && ValidNumber(n)
    requires NumberEnds(t, p + |SpellUnsigned(n)|, complex, n)
    ensures p < |t| && IsDigit(t[p])
    ensures ScanInteger(t, p, complex) == Found(p + |SpellUnsigned(n)|, false)
  {
    HasBoth(t, p, n.integer, SpellFraction(n));
    assert t[p] == n.integer[0];
    ScansFraction(t, p + |n.integer|, n, complex);
    if t[p] != ZERO {
      ScansDigits(t, p, n.integer);
    }
  }

  /** The scanner reads every spelling of a number that ends properly. */
  lemma ScansNumber(t: Text, p: nat, n: NumberParts, complex: bool)
    requires Has(t, p, SpellNumber(n)) && ValidNumber(n)
    requires NumberEnds(t, p + |SpellNumber(n)|, complex, n)
    ensures p < |t| && (IsDigit(t[p]) || t[p] == MINUS)
    ensures ScanNumber(t, p, complex) == Found(p + |SpellNumber(n)|, false)
  {
    if n.minus {
      HasBoth(t, p, [MINUS], SpellUnsigned(n));
      HasOne(t, p, MINUS);
      ScansUnsigned(t, p + 1, n, complex);
    } else {
      assert SpellNumber(n) == SpellUnsigned(n);
      ScansUnsigned(t, p, n, complex);
    }
  }

  const NO_PARTS: NumberParts := NumberParts(false, [], [], [], [], [])

  lemma ExponentScanned(t: Text, p: nat, complex: bool) returns (n: NumberParts)
    requires p < |t| && IsExponentMark(t[p]) && ScanExponent(t, p + 1, complex).Found?
    ensures ValidExponent(n) && n.mark != [] && Has(t, p, SpellExponent(n))
    ensures n == NO_PARTS.(mark := n.mark, sign := n.sign, exponent := n.exponent)
    ensures ScanExponent(t, p + 1, complex).end == p + |SpellExponent(n)|
    ensures NumberEnds(t, p + |SpellExponent(n)|, complex, n)
  {
    var q := ScanSign(t, p + 1).end;
    var end := EndOfDigits(t, q);
    n := NO_PARTS.(mark := [t[p]], sign := t[p + 1..q], exponent := t[q..end]);
    assert t[p..end] == [t[p]] + (t[p + 1..q] + t[q..end]);
    if n.sign != [] {
      assert t[q] == t[q..end][0];
    }
  }

  lemma TailScanned(t: Text, p: nat, complex: bool) returns (n: NumberParts)
    requires p <= |t| && ScanAfterFraction(t, p, complex).Found?
    ensures ValidExponent(n) && Has(t, p, SpellExponent(n))
    ensures n == NO_PARTS.(mark := n.mark, sign := n.sign, exponent := n.exponent)
    ensures ScanAfterFraction(t, p, complex).end == p + |SpellExponent(n)|
    ensures NumberEnds(t, p + |SpellExponent(n)|, complex, n)
  {
    n := NO_PARTS;
    if AfterDigits(t, p, complex, ExponentMark).None? {
      n := ExponentScanned(t, p, complex);
    } else {
      assert SpellExponent(n) == [];
    }
  }

  lemma DigitsScanned(t: Text, p: nat) returns (end: nat)
    requires p < |t| && IsDigit(t[p])
    ensures p < end == EndOfDigits(t, p) <= |t|
    ensures AllDigits(t[p..end]) && t[p..end][0] == t[p] && Has(t, p, t[p..end])
  {
    end := EndOfDigits(t, p);
  }

  lemma SameExponent(n: NumberParts, m: NumberParts)
    requires m == n.(fraction := m.fraction)
    ensures SpellExponent(m) == SpellExponent(n) && BareExponent(m) == BareExponent(n)
    ensures ValidExponent(m) == ValidExponent(n)
  {
  }

  lemma FractionScanned(t: Text, p: nat, complex: bool) returns (n: NumberParts)
    requires p <= |t| && ScanAfterInteger(t, p, complex).Found?
    ensures ValidExponent(n) && AllDigits(n.fraction) && Has(t, p, SpellFraction(n)) && !n.minus
    ensures ScanAfterInteger(t, p, complex).end == p + |SpellFraction(n)|
    ensures NumberEnds(t, p + |SpellFraction(n)|, complex, n)
  {
    hide Has, ScanExponent;
    if p < |t| && t[p] == DOT {
      var q := DigitsScanned(t, p + 1);
      var tail := TailScanned(t, q, complex);
      n := tail.(fraction := t[p + 1..q]);
      SameExponent(tail, n);
      HasOne(t, p, DOT);
      HasBoth(t, p, [DOT], n.fraction);
      HasBoth(t, p, [DOT] + n.fraction, SpellExponent(n));
    } else {
      n := TailScanned(t, p, complex);
      assert SpellFraction(n) == SpellExponent(n);
    }
  }

  lemma UnsignedScanned(t: Text, p: nat, complex: bool) returns (n: NumberParts)
    requires p < |t| && IsDigit(t[p]) && ScanInteger(t, p, complex).Found?
    ensures ValidNumber(n) && !n.minus && Has(t, p, SpellUnsigned(n))
    ensures ScanInteger(t, p, complex).end == p + |SpellUnsigned(n)|
    ensures NumberEnds(t, p + |SpellUnsigned(n)|, complex, n)
  {
    hide Has, ScanFraction, ScanExponent;
    var end := p + 1;
    if t[p] != ZERO {
      end := DigitsScanned(t, p);
    }
    var tail := FractionScanned(t, end, complex);
    n := tail.(integer := t[p..end]);
    SameFraction(tail, n);
    HasSlice(t, p, end);
    HasBoth(t, p, n.integer, SpellFraction(n));
  }

  lemma SameFraction(n: NumberParts, m: NumberParts)
    requires m == n.(minus := m.minus, integer := m.integer)
    ensures SpellFraction(m) == SpellFraction(n) && BareExponent(m) == BareExponent(n)
    ensures ValidExponent(m) == ValidExponent(n)
  {
  }

  /** What the scanner takes for a number is the spelling of one that ends properly. */
  lemma NumberScanned(t: Text, p: nat, complex: bool) returns (n: NumberParts)
    requires p < |t| && (IsDigit(t[p]) || t[p] == MINUS) && ScanNumber(t, p, complex).Found?
    ensures ValidNumber(n) && Has(t, p, SpellNumber(n))
    ensures ScanNumber(t, p, complex).end == p + |SpellNumber(n)|
    ensures NumberEnds(t, p + |SpellNumber(n)|, complex, n)
  {
    hide Has;
    if t[p] == MINUS {
      var m := UnsignedScanned(t, p + 1, complex);
      n := m.(minus := true);
      SameFraction(m, n);
      HasOne(t, p, MINUS);
      HasBoth(t, p, [MINUS], SpellUnsigned(n));
    } else {
      n := UnsignedScanned(t, p, complex);
      assert SpellNumber(n) == SpellUnsigned(n);
    }
  }
}
