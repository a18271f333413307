/** What the two decoders of the compile stage promise, alone and together. */
module WordCompileProperties {
  import opened Syntax
  import Digits
  import PyRepr
  import Utf8
  import opened WordCompile

  /** The two decoders share exactly the single-letter, hex and Unicode kinds;
      octal escapes, `\c`, bad backslashes and literal runs are refused by the
      regex decoder, and bare names by the C-string decoder. */
  lemma HandledKinds(id: Id)
    ensures CStringHandles(id) && RegexHandles(id)
            <==> id in {Char_OneChar, Char_Hex, Char_Unicode4, Char_Unicode8}
    ensures RegexHandles(id) && !CStringHandles(id) <==> id == Expr_Name
    ensures CStringHandles(id) && !RegexHandles(id)
            <==> id in {Char_Literals, Char_BadBackslash, Char_Stop, Char_Octal3, Char_Octal4}
  {
  }

  /** A bad backslash writes exactly one warning line, with no newline inside
      it, from which the raw text can be read back; no other kind writes one. */
  lemma BadBackslashWarning(tok: Token)
    requires CStringHandles(tok.id)
    ensures |Diagnostics(tok)| == (if tok.id == Char_BadBackslash then 1 else 0)
    ensures tok.id == Char_BadBackslash ==>
      var line := Diagnostics(tok)[0];
      && '\n' !in line
      && |line| >= |WarningPrefix| + 2
      && line[..|WarningPrefix|] == WarningPrefix
      && PyRepr.Unrepr(line[|WarningPrefix|..]) == tok.val
  {
    if tok.id == Char_BadBackslash {
      var r := PyRepr.Repr(tok.val);
      var line := WarningPrefix + r;
      assert Diagnostics(tok) == [line];
      assert PyRepr.Unrepr(r) == tok.val by {
        PyRepr.ReprIsOneRecoverableLine(tok.val);
      }
      assert line[|WarningPrefix|..] == r;
    }
  }

  /** Both decoders look the letter after the backslash up in the same table,
      and the C-string bytes are the regex term's byte set. */
  lemma OneCharAgrees(tok: Token, lookup: Byte -> Bytes, encode: nat -> Bytes)
    requires tok.id == Char_OneChar && WellFormed(tok)
    ensures EvalCStringToken(tok, lookup, encode) == Some(lookup(tok.val[1]))
    ensures EvalCharLiteralForRegex(tok, lookup) == Some(ByteSet(lookup(tok.val[1]), tok.span_id))
  {
  }

  /** An octal escape is one byte: the value of its digits modulo 256, which
      is the value itself when it is below 256. */
  lemma OctalByte(tok: Token, lookup: Byte -> Bytes, encode: nat -> Bytes)
    requires (tok.id == Char_Octal3 || tok.id == Char_Octal4) && WellFormed(tok)
    ensures var r := EvalCStringToken(tok, lookup, encode);
      && r.Some? && |r.value| == 1
      && r.value[0] as int == EscapeValue(tok) % 256 < 256
      && (EscapeValue(tok) < 256 ==> r.value[0] as int == EscapeValue(tok))
  {
  }

  /** `echo -e '\0377'` and `$'\377'` spell the same byte: an Octal4 token is
      an Octal3 token with a `0` after its backslash. */
  lemma EchoAndDollarOctalAgree(ds: Bytes, span: int, lookup: Byte -> Bytes, encode: nat -> Bytes)
    requires Digits.IsNumeral(ds, 8)
    ensures WellFormed(Token(Char_Octal3, ['\\'] + ds, span))
    ensures WellFormed(Token(Char_Octal4, ['\\', '0'] + ds, span))
    ensures EvalCStringToken(Token(Char_Octal3, ['\\'] + ds, span), lookup, encode)
         == EvalCStringToken(Token(Char_Octal4, ['\\', '0'] + ds, span), lookup, encode)
  {
    var t3 := Token(Char_Octal3, ['\\'] + ds, span);
    var t4 := Token(Char_Octal4, ['\\', '0'] + ds, span);
    assert EscapeDigits(t3) == ds;
    assert EscapeDigits(t4) == ds;
    SameOctalValue(t3, t4, lookup, encode);
  }

  /** Text of the form `\0ddd` means the same byte whether it is read as an
      Octal3 escape (the `0` is a digit) or as an Octal4 escape (the `0` is
      the marker): a leading zero adds nothing. */
  lemma OctalMarkerIsLeadingZero(ds: Bytes, span: int, lookup: Byte -> Bytes, encode: nat -> Bytes)
    requires Digits.IsNumeral(ds, 8)
    ensures WellFormed(Token(Char_Octal3, ['\\', '0'] + ds, span))
    ensures WellFormed(Token(Char_Octal4, ['\\', '0'] + ds, span))
    ensures EvalCStringToken(Token(Char_Octal3, ['\\', '0'] + ds, span), lookup, encode)
         == EvalCStringToken(Token(Char_Octal4, ['\\', '0'] + ds, span), lookup, encode)
  {
    var t3 := Token(Char_Octal3, ['\\', '0'] + ds, span);
    var t4 := Token(Char_Octal4, ['\\', '0'] + ds, span);
    Digits.LeadingZero(ds, 8);
    assert EscapeDigits(t3) == ['0'] + ds;
    assert EscapeDigits(t4) == ds;
    SameOctalValue(t3, t4, lookup, encode);
  }

  /** Two octal escapes whose digits have the same value decode alike. */
  lemma SameOctalValue(t: Token, u: Token, lookup: Byte -> Bytes, encode: nat -> Bytes)
    requires (t.id == Char_Octal3 || t.id == Char_Octal4) && WellFormed(t)
    requires (u.id == Char_Octal3 || u.id == Char_Octal4) && WellFormed(u)
    requires EscapeValue(t) == EscapeValue(u)
    ensures EvalCStringToken(t, lookup, encode) == EvalCStringToken(u, lookup, encode)
  {
    OctalByte(t, lookup, encode);
    OctalByte(u, lookup, encode);
  }

  /** Both decoders turn a hex escape into the same single byte, the value of
      its digits. */
  lemma HexAgrees(tok: Token, lookup: Byte -> Bytes, encode: nat -> Bytes)
    requires tok.id == Char_Hex && WellFormed(tok)
    ensures EscapeValue(tok) < 256
    ensures var b := Chr(EscapeValue(tok));
      && EvalCStringToken(tok, lookup, encode) == Some([b])
      && EvalCharLiteralForRegex(tok, lookup) == Some(ByteSet([b], tok.span_id))
  {
  }

  /** The lexer's hex escape, `\x` and one or two hex digits, always fits in
      one byte, so `chr` never raises on it. */
  lemma ShortHexFitsAByte(tok: Token)
    requires tok.id == Char_Hex && 3 <= |tok.val| <= 4
    requires Digits.AllDigits(tok.val[2..], 16)
    ensures WellFormed(tok)
  {
    var ds := tok.val[2..];
    assert Digits.Pow(16, |ds|) <= Digits.Pow(16, 2) == 256;
  }

  /** Both decoders read the same code point from a Unicode escape: the C-string
      decoder encodes it, the regex decoder keeps it with the token's location. */
  lemma UnicodeAgrees(tok: Token, lookup: Byte -> Bytes, encode: nat -> Bytes)
    requires (tok.id == Char_Unicode4 || tok.id == Char_Unicode8) && WellFormed(tok)
    ensures EvalCStringToken(tok, lookup, encode) == Some(encode(EscapeValue(tok)))
    ensures EvalCharLiteralForRegex(tok, lookup) == Some(CodePoint(EscapeValue(tok), tok.span_id))
  {
  }

  /** The lexer's `\u` takes at most four hex digits and `\U` at most eight,
      which bounds the code point. */
  lemma UnicodeRange(tok: Token)
    requires (tok.id == Char_Unicode4 || tok.id == Char_Unicode8) && WellFormed(tok)
    requires tok.id == Char_Unicode4 ==> |tok.val| <= 6
    requires tok.id == Char_Unicode8 ==> |tok.val| <= 10
    ensures tok.id == Char_Unicode4 ==> EscapeValue(tok) <= 0xFFFF
    ensures tok.id == Char_Unicode8 ==> EscapeValue(tok) <= 0xFFFF_FFFF
  {
    var n := |EscapeDigits(tok)|;
    if tok.id == Char_Unicode4 {
      Digits.PowMono(16, n, 4);
      assert Digits.Pow(16, 4) == 0x1_0000;
    } else {
      Digits.PowMono(16, n, 8);
      assert Digits.Pow(16, 8) == 0x1_0000_0000;
    }
  }

  /** With a standard UTF-8 encoder and an escape naming a scalar value, the
      C-string bytes of a Unicode escape decode to the regex decoder's code
      point, in as many bytes as RFC 3629 prescribes; a `\u` escape needs at
      most three. */
  lemma UnicodeIsUtf8(tok: Token, lookup: Byte -> Bytes, encode: nat -> Bytes)
    requires (tok.id == Char_Unicode4 || tok.id == Char_Unicode8) && WellFormed(tok)
    requires forall cp: nat :: Utf8.IsScalarValue(cp) ==> encode(cp) == Utf8.Encode(cp)
    requires Utf8.IsScalarValue(EscapeValue(tok))
    ensures var r := EvalCStringToken(tok, lookup, encode);
            var t := EvalCharLiteralForRegex(tok, lookup);
      && r.Some? && t.Some? && t.value.CodePoint?
      && |r.value| == Utf8.Width(t.value.i)
      && Utf8.Decode(r.value) == t.value.i
    ensures tok.id == Char_Unicode4 && |tok.val| <= 6 ==>
      |EvalCStringToken(tok, lookup, encode).value| <= 3
  {
    var i := EscapeValue(tok);
    UnicodeAgrees(tok, lookup, encode);
    Utf8.DecodeEncode(i);
    if tok.id == Char_Unicode4 && |tok.val| <= 6 {
      UnicodeRange(tok);
    }
  }

  /** Two worked cases: a literal run such as `hello` passes through without
      a warning, and `\c` stops. */
  lemma Examples(lookup: Byte -> Bytes, encode: nat -> Bytes)
    ensures EvalCStringToken(Token(Char_Literals, "hello", 0), lookup, encode) == Some("hello")
    ensures Diagnostics(Token(Char_Literals, "hello", 0)) == []
    ensures EvalCStringToken(Token(Char_Stop, "\\c", 0), lookup, encode) == None
  {
  }

  /** `\x41` is `A`. */
  lemma HexExample(t: Token, lookup: Byte -> Bytes, encode: nat -> Bytes)
    requires t.id == Char_Hex && t.val == "\\x41"
    ensures WellFormed(t) && EvalCStringToken(t, lookup, encode) == Some("A")
  {
    Digits.ParseExamples();
    assert EscapeDigits(t) == "41";
  }

  /** `$'\377'` and `echo -e '\0377'` are byte 255. */
  lemma OctalMaxExamples(t3: Token, t4: Token, lookup: Byte -> Bytes, encode: nat -> Bytes)
    requires t3.id == Char_Octal3 && t3.val == "\\377"
    requires t4.id == Char_Octal4 && t4.val == "\\0377"
    ensures WellFormed(t3) && EvalCStringToken(t3, lookup, encode) == Some([Chr(255)])
    ensures WellFormed(t4) && EvalCStringToken(t4, lookup, encode) == Some([Chr(255)])
  {
    Digits.ParseExamples();
    assert EscapeDigits(t3) == "377";
    assert EscapeDigits(t4) == "377";
    OctalByte(t3, lookup, encode);
    OctalByte(t4, lookup, encode);
  }

  /** `\400` is 256, which wraps to byte 0. */
  lemma OctalWrapExample(t: Token, lookup: Byte -> Bytes, encode: nat -> Bytes)
    requires t.id == Char_Octal3 && t.val == "\\400"
    ensures WellFormed(t) && EvalCStringToken(t, lookup, encode) == Some([Chr(0)])
  {
    Digits.ParseExamples();
    assert EscapeDigits(t) == "400";
    OctalByte(t, lookup, encode);
  }

  /** A bad backslash passes through, and its warning quotes the text with the
      backslash doubled: `\z` is reported as `'\\z'`. */
  lemma BadBackslashExample(lookup: Byte -> Bytes, encode: nat -> Bytes)
    ensures EvalCStringToken(Token(Char_BadBackslash, "\\z", 0), lookup, encode) == Some("\\z")
    ensures Diagnostics(Token(Char_BadBackslash, "\\z", 0)) == [WarningPrefix + "'\\\\z'"]
  {
    var raw: Bytes := "\\z";
    var q: Byte := '\'';
    assert PyRepr.QuoteFor(raw) == q;
    assert raw[1..] == "z";
    assert PyRepr.EscapeByte('z', q) == "z";
    assert PyRepr.EscapeByte('\\', q) == "\\\\";
    assert PyRepr.Escape("z", q) == "z" + PyRepr.Escape([], q);
    assert PyRepr.Escape(raw, q) == "\\\\" + PyRepr.Escape("z", q);
    assert PyRepr.Repr(raw) == [q] + "\\\\z" + [q];
    assert [q] + "\\\\z" + [q] == "'\\\\z'";
  }
}
