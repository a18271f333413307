/** The compile stage for escape tokens: it turns one lexed escape token into
    its final value without looking at any runtime state. `EvalCStringToken`
    serves `echo -e` and `$'...'`; `EvalCharLiteralForRegex` serves the
    members of a regex character class.

    The single-letter escape table and the UTF-8 encoder are collaborators
    whose code is not part of this model. They become parameters:
    `EvalCStringToken` takes both, `lookup` and `encode`;
    `EvalCharLiteralForRegex` takes only `lookup`. */
module WordCompile {
  import opened Syntax
  import Digits
  import PyRepr
  import Utf8

  /** The kinds `EvalCStringToken` has a branch for; any other kind raises
      AssertionError. */
  predicate CStringHandles(id: Id) {
    || id.Char_Literals? || id.Char_BadBackslash? || id.Char_OneChar? || id.Char_Stop?
    || id.Char_Octal3? || id.Char_Octal4? || id.Char_Hex?
    || id.Char_Unicode4? || id.Char_Unicode8?
  }

  /** The kinds `EvalCharLiteralForRegex` has a branch for; any other kind
      raises AssertionError. */
  predicate RegexHandles(id: Id) {
    id.Char_OneChar? || id.Char_Hex? || id.Char_Unicode4? || id.Char_Unicode8? || id.Expr_Name?
  }

  /** How many characters come before the digits: the backslash for
      `\377`, the backslash and the marker for `\0377`, `\x41`, `\u00e9`
      and `\U0001f600`. */
  function PrefixLength(id: Id): nat {
    if id.Char_Octal3? then 1 else 2
  }

  predicate HasDigits(id: Id) {
    id.Char_Octal3? || id.Char_Octal4? || id.Char_Hex? || id.Char_Unicode4? || id.Char_Unicode8?
  }

  function DigitBase(id: Id): Digits.Base {
    if id.Char_Octal3? || id.Char_Octal4? then 8 else 16
  }

  /** The digit string of a numeric escape, after its prefix. */
  function EscapeDigits(tok: Token): (s: Bytes)
    requires HasDigits(tok.id) && |tok.val| >= PrefixLength(tok.id)
    ensures |s| == |tok.val| - PrefixLength(tok.id)
    ensures forall k :: 0 <= k < |s| ==> s[k] == tok.val[PrefixLength(tok.id) + k]
  {
    tok.val[PrefixLength(tok.id)..]
  }

  /** What the decoders need of a token's text so that indexing, `int(s, base)`
      and `chr` do not raise; the lexer only produces such tokens. A
      single-letter escape has a letter after its backslash; a numeric escape
      has digits of its base after its prefix; a hex escape fits in one byte. */
  predicate WellFormed(tok: Token) {
    if tok.id.Char_OneChar? then |tok.val| >= 2
    else if HasDigits(tok.id) then
      && |tok.val| >= PrefixLength(tok.id)
      && Digits.IsNumeral(EscapeDigits(tok), DigitBase(tok.id))
      && (tok.id.Char_Hex? ==> Digits.Parse(EscapeDigits(tok), 16) < 256)
    else true
  }

  /** The number a numeric escape spells. */
  function EscapeValue(tok: Token): nat
    requires HasDigits(tok.id) && WellFormed(tok)
  {
    Digits.Parse(EscapeDigits(tok), DigitBase(tok.id))
  }

  /** Decodes one token of a C-style string to its bytes. Only `\c` yields
      `None`, the sentinel that stops the output, which differs from every
      string including the empty one; literal runs and bad backslashes pass
      through; octal and hex escapes become exactly one byte. */
  function EvalCStringToken(tok: Token, lookup: Byte -> Bytes, encode: nat -> Bytes): (r: Option<Bytes>)
    requires CStringHandles(tok.id) && WellFormed(tok)
    ensures r.None? <==> tok.id == Char_Stop
    ensures tok.id in {Char_Literals, Char_BadBackslash} ==> r == Some(tok.val)
    ensures tok.id in {Char_Octal3, Char_Octal4, Char_Hex} ==> r.Some? && |r.value| == 1
  {
    var id := tok.id;
    var value := tok.val;
    if id == Char_Literals then Some(value)
    else if id == Char_BadBackslash then Some(value)
    else if id == Char_OneChar then Some(lookup(value[1]))
    else if id == Char_Stop then None
    else if id == Char_Octal3 || id == Char_Octal4 then
      var s := if id == Char_Octal3 then value[1..] else value[2..];
      var i := Digits.Parse(s, 8);
      var i := if i >= 256 then i % 256 else i;
      Some([Chr(i)])
    else if id == Char_Hex then
      var s := value[2..];
      var i := Digits.Parse(s, 16);
      Some([Chr(i)])
    else
      var s := value[2..];
      var i := Digits.Parse(s, 16);
      Some(encode(i))
  }

  /** Decodes one token inside a regex character class. Only a bare name yields
      `None`; every term carries the token's own location. */
  function EvalCharLiteralForRegex(tok: Token, lookup: Byte -> Bytes): (r: Option<ClassLiteralTerm>)
    requires RegexHandles(tok.id) && WellFormed(tok)
    ensures r.None? <==> tok.id == Expr_Name
    ensures r.Some? ==> r.value.span_id == tok.span_id
    ensures r.Some? ==> (r.value.CodePoint? <==> tok.id in {Char_Unicode4, Char_Unicode8})
  {
    var id := tok.id;
    var value := tok.val;
    if id == Char_OneChar then
      var c := value[1];
      var s := lookup(c);
      Some(ByteSet(s, tok.span_id))
    else if id == Char_Hex then
      var s := value[2..];
      var i := Digits.Parse(s, 16);
      Some(ByteSet([Chr(i)], tok.span_id))
    else if id == Char_Unicode4 || id == Char_Unicode8 then
      var s := value[2..];
      var i := Digits.Parse(s, 16);
      Some(CodePoint(i, tok.span_id))
    else
      None
  }

  /** The text before the `%r` of the warning. */
  const WarningPrefix: Bytes := "warning: " + "Invalid " + "backslash " + "escape " + "in " + "C-style " + "string: "

  /** The lines `EvalCStringToken` writes to stderr for a token: one warning,
      quoting the raw text with `%r`, for a bad backslash, and nothing otherwise. */
  function Diagnostics(tok: Token): (lines: seq<Bytes>)
    requires CStringHandles(tok.id)
    ensures |lines| <= 1
    ensures lines != [] <==> tok.id == Char_BadBackslash
    ensures forall k :: 0 <= k < |lines| ==> WarningPrefix <= lines[k] && '\n' !in lines[k]
  {
    assert '\n' !in WarningPrefix;
    if tok.id == Char_BadBackslash then [WarningPrefix + PyRepr.Repr(tok.val)] else []
  }
}
