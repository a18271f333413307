/** Python 2's `repr` of a byte string, which the `%r` in the bad-backslash
    warning applies to the token text, and its inverse. */
module PyRepr {
  import opened Syntax
  import Digits

  /** Single quotes are preferred; double quotes are used when the text holds a
      single quote and no double quote. */
  function QuoteFor(s: Bytes): (q: Byte)
    ensures q == '\'' || q == '"'
    ensures q == '"' <==> '\'' in s && '"' !in s
  {
    if '\'' in s && '"' !in s then '"' else '\''
  }

  /** How one byte appears between the quotes: the quote and the backslash get
      a backslash, tab, newline and carriage return get their letter escapes,
      other bytes below space or from 0x7f up become `\xhh`, the rest are kept. */
  function EscapeByte(c: Byte, q: Byte): (e: Bytes)
  {
    if c == q || c == '\\' then ['\\', c]
    else if c == '\t' then ['\\', 't']
    else if c == '\n' then ['\\', 'n']
    else if c == '\r' then ['\\', 'r']
    else if c < ' ' || c as int >= 0x7f then ['\\', 'x'] + Digits.Format(c as nat, 16, 2)
    else [c]
  }

  function Escape(s: Bytes, q: Byte): (e: Bytes)
  {
    if s == [] then [] else EscapeByte(s[0], q) + Escape(s[1..], q)
  }

  /** The text `%r` inserts: the escaped bytes between two quotes, all on one
      line. */
  function Repr(s: Bytes): (r: Bytes)
    ensures |r| >= 2 && r[0] == r[|r| - 1] == QuoteFor(s)
    ensures '\n' !in r
  {
    var q := QuoteFor(s);
    EscapeHasNoNewline(s, q);
    [q] + Escape(s, q) + [q]
  }

  /** Reads escaped text back into bytes. */
  function Unescape(e: Bytes): (s: Bytes)
    decreases |e|
  {
    if |e| == 0 then []
    else if e[0] == '\\' && |e| >= 2 then
      var k := e[1];
      if k == 't' then ['\t'] + Unescape(e[2..])
      else if k == 'n' then ['\n'] + Unescape(e[2..])
      else if k == 'r' then ['\r'] + Unescape(e[2..])
      else if k == 'x' && |e| >= 4 && Digits.AllDigits(e[2..4], 16) then
        [Chr(Digits.Parse(e[2..4], 16))] + Unescape(e[4..])
      else [k] + Unescape(e[2..])
    else [e[0]] + Unescape(e[1..])
  }

  /** Drops the quotes and reads the text between them back. */
  function Unrepr(r: Bytes): (s: Bytes)
    requires |r| >= 2
  {
    Unescape(r[1..|r| - 1])
  }

  /** Reading one escaped byte back gives the byte. */
  lemma UnescapeEscapeByte(c: Byte, q: Byte, rest: Bytes)
    requires q == '\'' || q == '"'
    ensures Unescape(EscapeByte(c, q) + rest) == [c] + Unescape(rest)
  {
    if c == q || c == '\\' {
      UnescapeTwo(c, c, rest);
    } else if c == '\t' {
      UnescapeTwo('t', c, rest);
    } else if c == '\n' {
      UnescapeTwo('n', c, rest);
    } else if c == '\r' {
      UnescapeTwo('r', c, rest);
    } else if c < ' ' || c as int >= 0x7f {
      UnescapeHex(c, rest);
    } else {
      var e := [c] + rest;
      assert e[1..] == rest;
    }
  }

  /** A backslash and a letter other than `x` read back as one byte. */
  lemma UnescapeTwo(k: Byte, c: Byte, rest: Bytes)
    requires k != 'x'
    requires c == (if k == 't' then '\t' else if k == 'n' then '\n' else if k == 'r' then '\r' else k)
    ensures Unescape(['\\', k] + rest) == [c] + Unescape(rest)
  {
    var e := ['\\', k] + rest;
    assert e[2..] == rest;
  }

  /** `\xhh` reads back as the byte it was formatted from. */
  lemma UnescapeHex(c: Byte, rest: Bytes)
    ensures Unescape(['\\', 'x'] + Digits.Format(c as nat, 16, 2) + rest) == [c] + Unescape(rest)
  {
    var h := Digits.Format(c as nat, 16, 2);
    var e := ['\\', 'x'] + h + rest;
    assert e[2..4] == h && e[4..] == rest;
    Digits.ParseFormat(c as nat, 16, 2);
  }

  /** Escaping loses nothing. */
  lemma {:induction false} UnescapeEscape(s: Bytes, q: Byte)
    requires q == '\'' || q == '"'
    ensures Unescape(Escape(s, q)) == s
  {
    if s != [] {
      UnescapeEscapeByte(s[0], q, Escape(s[1..], q));
      UnescapeEscape(s[1..], q);
    }
  }

  /** No escape produces a newline. */
  lemma {:induction false} EscapeHasNoNewline(s: Bytes, q: Byte)
    requires q == '\'' || q == '"'
    ensures '\n' !in Escape(s, q)
  {
    if s != [] {
      EscapeHasNoNewline(s[1..], q);
    }
  }

  /** Read as a reader of the literal reads it, one unit at a time (a
      backslash with the byte after it, or a single other byte), the text
      holds no bare quote and does not end in a lone backslash. So the first
      bare quote after the opening one is the closing one. */
  predicate NoBareQuote(e: Bytes, q: Byte)
    decreases |e|
  {
    if e == [] then true
    else if e[0] == '\\' then |e| >= 2 && NoBareQuote(e[2..], q)
    else e[0] != q && NoBareQuote(e[1..], q)
  }

  /** The unit reading refuses an escaped backslash followed by a bare quote,
      and a lone trailing backslash, which would swallow the closing quote. */
  lemma NoBareQuoteRefuses()
    ensures !NoBareQuote(['\\', '\\', '\''], '\'')
    ensures !NoBareQuote(['a', '\\'], '\'')
  {
    var e := ['\\', '\\', '\''];
    assert e[2..] == ['\''];
    var f := ['a', '\\'];
    assert f[1..] == ['\\'];
  }

  lemma {:induction false} NoBareQuoteAppend(a: Bytes, b: Bytes, q: Byte)
    requires NoBareQuote(a, q) && NoBareQuote(b, q)
    ensures NoBareQuote(a + b, q)
    decreases |a|
  {
    if a != [] {
      if a[0] == '\\' {
        NoBareQuoteAppend(a[2..], b, q);
        assert (a + b)[2..] == a[2..] + b;
      } else {
        NoBareQuoteAppend(a[1..], b, q);
        assert (a + b)[1..] == a[1..] + b;
      }
    } else {
      assert a + b == b;
    }
  }

  /** One escaped byte is a whole number of units with no bare quote. */
  lemma EscapeByteNoBareQuote(c: Byte, q: Byte)
    requires q == '\'' || q == '"'
    ensures NoBareQuote(EscapeByte(c, q), q)
  {
    var e := EscapeByte(c, q);
    if c == q || c == '\\' || c == '\t' || c == '\n' || c == '\r' {
      assert e[2..] == [];
    } else if c < ' ' || c as int >= 0x7f {
      var h := Digits.Format(c as nat, 16, 2);
      assert e[2..] == h;
      assert Digits.IsDigitOf(h[0], 16) && Digits.IsDigitOf(h[1], 16);
      assert NoBareQuote([h[1]], q);
      assert h[1..] == [h[1]];
      assert NoBareQuote(h, q);
    } else {
      assert e[1..] == [];
    }
  }

  /** The escaped text, read unit by unit, holds no bare quote. */
  lemma {:induction false} EscapeNoBareQuote(s: Bytes, q: Byte)
    requires q == '\'' || q == '"'
    ensures NoBareQuote(Escape(s, q), q)
  {
    if s != [] {
      EscapeNoBareQuote(s[1..], q);
      EscapeByteNoBareQuote(s[0], q);
      NoBareQuoteAppend(EscapeByte(s[0], q), Escape(s[1..], q), q);
    } else {
      assert Escape(s, q) == [];
    }
  }

  /** Between the quotes, the quote character only ever follows a backslash,
      and the escaped text read unit by unit holds no bare quote and no lone
      trailing backslash, so it never ends the text early; the quote does not
      occur at all when the text does not contain it. */
  lemma {:induction false} QuoteOnlyEscaped(s: Bytes, q: Byte)
    requires q == '\'' || q == '"'
    ensures forall i :: 0 <= i < |Escape(s, q)| && Escape(s, q)[i] == q ==>
      0 < i && Escape(s, q)[i - 1] == '\\'
    ensures NoBareQuote(Escape(s, q), q)
    ensures q !in s ==> q !in Escape(s, q)
  {
    EscapeNoBareQuote(s, q);
    if s != [] {
      var h := EscapeByte(s[0], q);
      var t := Escape(s[1..], q);
      QuoteOnlyEscaped(s[1..], q);
      assert forall j :: 0 <= j < |h| && h[j] == q ==> j == 1 && h[0] == '\\' && s[0] == q;
      assert |h| >= 1;
      var e := h + t;
      forall i | 0 <= i < |e| && e[i] == q
        ensures 0 < i && e[i - 1] == '\\'
      {
        if i >= |h| {
          assert t[i - |h|] == q;
        }
      }
      if q !in s {
        assert q !in s[1..];
        assert q !in h;
      }
    }
  }

  /** The repr of any byte string is one line from which the bytes can be read back. */
  lemma ReprIsOneRecoverableLine(s: Bytes)
    ensures '\n' !in Repr(s)
    ensures Unrepr(Repr(s)) == s
  {
    var q := QuoteFor(s);
    var r := Repr(s);
    EscapeHasNoNewline(s, q);
    UnescapeEscape(s, q);
    assert r[1..|r| - 1] == Escape(s, q);
  }
}
