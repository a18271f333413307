/** The values the compile stage reads and builds: token kinds, tokens,
    character-class terms, and Python 2 byte strings. */
module Syntax {

  /** One byte of a Python 2 `str`: a character whose code is below 256. */
  type Byte = c: char | c as int < 256

  /** A Python 2 `str`. */
  type Bytes = seq<Byte>

  /** Python's `chr`: the one-byte string with code `i`; `chr` raises for `i >= 256`. */
  function Chr(i: nat): (c: Byte)
    requires i < 256
    ensures c as int == i
  {
    i as char
  }

  /** The token kinds the compile stage dispatches on. `Other` stands for
      every remaining kind of the lexer's enumeration, by its name. */
  datatype Id =
    | Char_Literals
    | Char_BadBackslash
    | Char_OneChar
    | Char_Stop
    | Char_Octal3
    | Char_Octal4
    | Char_Hex
    | Char_Unicode4
    | Char_Unicode8
    | Expr_Name
    | Other(name: string)

  /** A lexed token: its kind, its raw text and an opaque source location. */
  datatype Token = Token(id: Id, val: Bytes, span_id: int)

  /** One member of a regex character class: a byte string or a code point,
      with the location of the token it came from. */
  datatype ClassLiteralTerm =
    | ByteSet(s: Bytes, span_id: int)
    | CodePoint(i: nat, span_id: int)

  /** Python's `Optional`: `None` or a value. */
  datatype Option<+T> = None | Some(value: T)
}
