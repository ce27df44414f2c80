/** What the characters of a JSON string denote (section 7 of RFC 8259), and that the writer's escapes and
    the accessors' unescaping agree with it. */
module JsonChars {
  import opened Bytes
  import opened BitStack
  import opened ReaderSpec
  import opened JsonGrammar
  import opened JsonStrings

  // ---------------------------------------------------------------- the bytes of the grammar

  function Ascii(s: string): Text
    requires forall i :: 0 <= i < |s| ==> s[i] as int < 0x80
  {
    seq(|s|, i requires 0 <= i < |s| => s[i] as int)
  }

  /** The classes of bytes are those that RFC 8259 has. A number ends at a delimiter. */
  lemma ByteClasses(b: Byte, c: char)
    requires b == c as int
    ensures IsWhitespace(b) <==> c in " \t\n\r"
    ensures IsDigit(b) <==> c in "0123456789"
    ensures IsHexDigit(b) <==> c in "0123456789abcdefABCDEF"
    ensures IsExponentMark(b) <==> c in "eE"
    ensures IsSign(b) <==> c in "+-"
    ensures IsEscapable(b) <==> c in "\"\\/bfnrt"
    ensures IsDelimiter(b) <==> c in ",}] \t\n\r"
  {
  }

  lemma FixedTexts()
    ensures TRUE_TEXT == Ascii("true") && FALSE_TEXT == Ascii("false") && NULL_TEXT == Ascii("null")
    ensures [OpenByte(Object), CloseByte(Object), OpenByte(Array), CloseByte(Array)] == Ascii("{}[]")
    ensures [QUOTE, BACKSLASH, LOWER_U, COMMA, COLON, MINUS, DOT, ZERO] == Ascii("\"\\u,:-.0")
  {
  }

  // ---------------------------------------------------------------- meaning

  /** The value of a hexadecimal digit. */
  function HexValue(h: Byte): nat
    requires IsHexDigit(h)
  {
    if h <= '9' as int then h - '0' as int
    else if h <= 'F' as int then 10 + (h - 'A' as int)
    else 10 + (h - 'a' as int)
  }

  /** The byte or, for a \u escape, the code unit that a character of a string denotes. */
  function Denotes(c: StringChar): nat
    requires ValidChar(c)
  {
    match c
    case Plain(b) => b
    case Escape(b) =>
      if b == 'b' as int then 0x08
      else if b == 't' as int then 0x09
      else if b == 'n' as int then 0x0A
      else if b == 'f' as int then 0x0C
      else if b == 'r' as int then 0x0D
      else b
    case Unicode(h1, h2, h3, h4) => 0x1000 * HexValue(h1) + 0x100 * HexValue(h2) + 0x10 * HexValue(h3) + HexValue(h4)
  }

  /** The characters denote the bytes of the text, one by one. */
  ghost predicate Means(cs: seq<StringChar>, s: Text) {
    ValidChars(cs) && |cs| == |s| && forall i :: 0 <= i < |cs| ==> Denotes(cs[i]) == s[i]
  }

  ghost predicate HasUnicode(cs: seq<StringChar>) {
    exists i :: 0 <= i < |cs| && cs[i].Unicode?
  }

  /** A text is spelled by at most one sequence of characters. */
  lemma {:induction false} SpelledOnce(cs: seq<StringChar>, ds: seq<StringChar>)
    requires ValidChars(cs) && ValidChars(ds) && SpellChars(cs) == SpellChars(ds)
    ensures cs == ds
  {
    if cs == [] || ds == [] {
      assert forall c: StringChar :: |SpellChar(c)| > 0;
    } else {
      var c, t := SpellChar(cs[0]), SpellChars(cs);
      FirstSpelled(cs[0], ds[0], t);
      assert t[|c|..] == SpellChars(cs[1..]) == SpellChars(ds[1..]);
      SpelledOnce(cs[1..], ds[1..]);
      assert cs == [cs[0]] + cs[1..] && ds == [ds[0]] + ds[1..];
    }
  }

  lemma FirstSpelled(c: StringChar, d: StringChar, t: Text)
    requires ValidChar(c) && ValidChar(d) && SpellChar(c) <= t && SpellChar(d) <= t
    ensures c == d
  {
    var x, y := SpellChar(c), SpellChar(d);
    assert forall i :: 0 <= i < |x| ==> x[i] == t[i];
    assert forall i :: 0 <= i < |y| ==> y[i] == t[i];
    assert x[0] == y[0];
    if c.Unicode? && d.Unicode? {
      assert x[2] == y[2] && x[3] == y[3] && x[4] == y[4] && x[5] == y[5];
    } else if !c.Plain? {
      assert x[1] == y[1];
    }
  }

  // ---------------------------------------------------------------- the writer

  /** How the writer spells a byte: plain, with the letter that section 7 has for it, or with four
      upper-case hexadecimal digits. In each case the character denotes the byte. */
  lemma EscapeDenotes(b: Byte) returns (c: StringChar)
    ensures ValidChar(c) && SpellChar(c) == EscapeByte(b) && Denotes(c) == b
    ensures c.Plain? <==> b >= 0x20 && b != '"' as int && b != '\\' as int
    ensures c.Escape? <==> b in [0x08, 0x09, 0x0A, 0x0C, 0x0D, '"' as int, '\\' as int]
    ensures c.Unicode? ==> !('a' as int <= c.h3 <= 'f' as int) && !('a' as int <= c.h4 <= 'f' as int)
  {
    if EscapeLetter(b).Some? {
      c := Escape(EscapeLetter(b).value);
    } else if b < SPACE {
      c := Unicode(ZERO, ZERO, UpperHex(b / 16), UpperHex(b % 16));
    } else {
      c := Plain(b);
    }
  }

  /** What the writer escapes is spelled by valid characters that denote it. */
  lemma {:induction false} EscapeMeans(s: Text) returns (cs: seq<StringChar>)
    ensures SpellChars(cs) == JsonStrings.Escape(s) && Means(cs, s)
  {
    cs := [];
    if s != [] {
      var c := EscapeDenotes(s[0]);
      var rest := EscapeMeans(s[1..]);
      cs := [c] + rest;
      assert cs[1..] == rest;
    }
  }

  /** So decoding what the writer escapes, with every \u escape read as its value, gives the text back. */
  lemma EscapeDecodes(s: Text, cs: seq<StringChar>)
    requires ValidChars(cs) && SpellChars(cs) == JsonStrings.Escape(s)
    ensures Means(cs, s)
  {
    var ds := EscapeMeans(s);
    SpelledOnce(cs, ds);
  }

  // ---------------------------------------------------------------- the accessors

  lemma UnescapeChar(c: StringChar, rest: Text)
    requires ValidChar(c)
    ensures c.Unicode? ==> Unescape(SpellChar(c) + rest, false).None?
    ensures !c.Unicode? ==> Denotes(c) < 0x100
    ensures !c.Unicode? ==> Unescape(SpellChar(c) + rest, false) == Prepend([Denotes(c)], Unescape(rest, false))
  {
    hide Unescape;
    var w := SpellChar(c);
    UnescapeStep(w, rest, false);
    if c.Plain? {
      assert w[1..] + rest == rest;
    } else {
      UnescapeStep(w[1..], rest, true);
      assert c.Escape? ==> w[1..][1..] + rest == rest;
    }
  }

  /** Unescaping a string gives the bytes that its characters denote, and nothing if there is a \u escape
      among them. */
  lemma {:induction false} UnescapeMeans(cs: seq<StringChar>)
    requires ValidChars(cs)
    ensures HasUnicode(cs) <==> Unescape(SpellChars(cs), false).None?
    ensures !HasUnicode(cs) ==> Means(cs, Unescape(SpellChars(cs), false).value)
  {
    if cs != [] {
      var c, rest := cs[0], cs[1..];
      UnescapeChar(c, SpellChars(rest));
      UnescapeMeans(rest);
      assert HasUnicode(cs) <==> c.Unicode? || HasUnicode(rest) by {
        if HasUnicode(rest) {
          var i :| 0 <= i < |rest| && rest[i].Unicode?;
          assert cs[i + 1].Unicode?;
        }
        if HasUnicode(cs) {
          var i :| 0 <= i < |cs| && cs[i].Unicode?;
          assert i > 0 ==> rest[i - 1].Unicode?;
        }
      }
    }
  }
}
