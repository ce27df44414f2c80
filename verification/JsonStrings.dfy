/** What the text between the quotes of a JSON string means (az_json_token.c), and how the writer
    spells a text as a JSON string (az_json_writer.c). */
module JsonStrings {
  import opened Bytes

  /** _az_json_unescape_single_byte */
  function UnescapeByte(b: Byte): Byte {
    if b == 0x62 then 0x08
    else if b == 0x66 then 0x0C
    else if b == 0x6E then 0x0A
    else if b == 0x72 then 0x0D
    else if b == 0x74 then 0x09
    else b
  }

  function Prepend(prefix: Text, rest: Option<Text>): Option<Text> {
    if rest.None? then None else Some(prefix + rest.value)
  }

  /** The bytes that a string's text stands for, if "pending" says whether a backslash came before;
      none if there is a \u escape, which the accessors do not decode. */
  ghost function Unescape(raw: Text, pending: bool): Option<Text> {
    if raw == [] then
      if pending then None else Some([])
    else if pending then
      if raw[0] == LOWER_U then None else Prepend([UnescapeByte(raw[0])], Unescape(raw[1..], false))
    else if raw[0] == BACKSLASH then
      Unescape(raw[1..], true)
    else
      Prepend([raw[0]], Unescape(raw[1..], false))
  }

  /** Every backslash is followed by the byte it escapes. */
  ghost predicate WellEscaped(raw: Text, pending: bool) {
    if raw == [] then !pending
    else WellEscaped(raw[1..], !pending && raw[0] == BACKSLASH)
  }

  /** Reading the first byte, with more text behind the rest of the piece. */
  lemma UnescapeStep(piece: Text, rest: Text, pending: bool)
    requires piece != []
    ensures Unescape(piece + rest, pending) ==
            if pending then
              if piece[0] == LOWER_U then None
              else Prepend([UnescapeByte(piece[0])], Unescape(piece[1..] + rest, false))
            else if piece[0] == BACKSLASH then Unescape(piece[1..] + rest, true)
            else Prepend([piece[0]], Unescape(piece[1..] + rest, false))
  {
    assert (piece + rest)[1..] == piece[1..] + rest;
  }

  lemma {:induction false} UnescapePlain(raw: Text)
    requires BACKSLASH !in raw
    ensures Unescape(raw, false) == Some(raw)
  {
    if raw != [] {
      UnescapePlain(raw[1..]);
      assert raw == [raw[0]] + raw[1..];
    }
  }

  /** Without \u, unescaping at most halves the text, so the divisions by six never lose a match. */
  lemma {:induction false} UnescapedSize(raw: Text, pending: bool)
    ensures Unescape(raw, pending).Some? ==>
              var u := Unescape(raw, pending).value;
              |u| <= |raw| && |raw| + (if pending then 1 else 0) <= 2 * |u|
  {
    if raw != [] {
      UnescapedSize(raw[1..], !pending && raw[0] == BACKSLASH);
    }
  }

  lemma PrependTwice(p: Text, q: Text, rest: Option<Text>)
    ensures Prepend(p, Prepend(q, rest)) == Prepend(p + q, rest)
  {
    if rest.Some? {
      assert p + (q + rest.value) == (p + q) + rest.value;
    }
  }

  /** Comparing the first byte is enough to go on with what follows. */
  lemma PrependOne(b: Byte, rest: Option<Text>, expected: Text)
    requires expected != []
    ensures Prepend([b], rest) == Some(expected) <==> b == expected[0] && rest == Some(expected[1..])
  {
    if rest.Some? {
      var whole := [b] + rest.value;
      assert whole[0] == b && whole[1..] == rest.value;
      assert expected == [expected[0]] + expected[1..];
    }
  }

  lemma WellEscapedStep(piece: Text, rest: Text, pending: bool)
    requires piece != []
    ensures WellEscaped(piece + rest, pending) <==> WellEscaped(piece[1..] + rest, !pending && piece[0] == BACKSLASH)
  {
    assert (piece + rest)[1..] == piece[1..] + rest;
  }

  // ---------------------------------------------------------------- escaping

  /** _az_number_to_upper_hex */
  function UpperHex(number: nat): Byte
    requires number < 16
  {
    if number < 10 then 0x30 + number else 0x37 + number
  }

  /** The letter of a byte's two-byte escape. */
  function EscapeLetter(b: Byte): Option<Byte> {
    if b == BACKSLASH || b == QUOTE then Some(b)
    else if b == 0x08 then Some(0x62)
    else if b == 0x0C then Some(0x66)
    else if b == 0x0A then Some(0x6E)
    else if b == 0x0D then Some(0x72)
    else if b == 0x09 then Some(0x74)
    else None
  }

  /** How the writer spells a byte. */
  function EscapeByte(b: Byte): (r: Text)
    ensures 1 <= |r| <= 6 && (|r| == 1 ==> r == [b])
  {
    if EscapeLetter(b).Some? then [BACKSLASH, EscapeLetter(b).value]
    else if b < SPACE then [BACKSLASH, LOWER_U, ZERO, ZERO, UpperHex(b / 16), UpperHex(b % 16)]
    else [b]
  }

  ghost function Escape(s: Text): (r: Text)
    ensures |s| <= |r| <= 6 * |s|
  {
    if s == [] then [] else EscapeByte(s[0]) + Escape(s[1..])
  }

  lemma EscapeNext(b: Byte, rest: Text)
    ensures Escape([b] + rest) == EscapeByte(b) + Escape(rest)
  {
    assert ([b] + rest)[1..] == rest;
  }

  lemma {:induction false} EscapeJoin(s: Text, t: Text)
    ensures Escape(s + t) == Escape(s) + Escape(t)
  {
    if s == [] {
      assert s + t == t;
    } else {
      var b, rest := s[0], s[1..];
      assert s + t == [b] + (rest + t);
      EscapeNext(b, rest + t);
      EscapeJoin(rest, t);
      assert EscapeByte(b) + (Escape(rest) + Escape(t)) == Escape(s) + Escape(t);
    }
  }

  lemma EscapeOne(b: Byte)
    ensures Escape([b]) == EscapeByte(b)
  {
    assert [b][1..] == [];
  }

  /** No byte of the text needs an escape. */
  ghost predicate AllPlain(s: Text) {
    forall i :: 0 <= i < |s| ==> |EscapeByte(s[i])| == 1
  }

  lemma {:induction false} EscapePlain(s: Text)
    requires AllPlain(s)
    ensures Escape(s) == s
  {
    if s != [] {
      EscapePlain(s[1..]);
      assert s == [s[0]] + s[1..];
    }
  }

  /** The byte is not spelled with a \u escape. */
  predicate IsReadable(b: Byte) {
    b >= SPACE || EscapeLetter(b).Some?
  }

  ghost predicate AllReadable(s: Text) {
    forall i :: 0 <= i < |s| ==> IsReadable(s[i])
  }

  lemma UnescapeEscapedByte(b: Byte, rest: Text)
    ensures Unescape(EscapeByte(b) + rest, false) ==
            if IsReadable(b) then Prepend([b], Unescape(rest, false)) else None
  {
    hide Unescape;
    var w := EscapeByte(b);
    UnescapeStep(w, rest, false);
    if |w| == 1 {
      assert w[1..] + rest == rest;
    } else {
      UnescapeStep(w[1..], rest, true);
      assert EscapeLetter(b).Some? ==> w[1..][1..] + rest == rest;
    }
  }

  /** What the writer escapes reads back as it was, exactly when no byte needs a \u escape, and
      cannot be read back at all otherwise. */
  lemma {:induction false} EscapeRoundTrip(s: Text)
    ensures Unescape(Escape(s), false) == if AllReadable(s) then Some(s) else None
  {
    hide EscapeByte, IsReadable;
    if s != [] {
      UnescapeEscapedByte(s[0], Escape(s[1..]));
      EscapeRoundTrip(s[1..]);
      assert s == [s[0]] + s[1..];
      if AllReadable(s[1..]) && IsReadable(s[0]) {
        assert AllReadable(s);
      } else if IsReadable(s[0]) {
        var i :| 0 <= i < |s[1..]| && !IsReadable(s[1..][i]);
        assert !IsReadable(s[i + 1]);
      }
    }
  }
}
