# Escape-token compile stage of the OSH front end, in Dafny

This project models the "compile" stage of the OSH shell front end
(`osh/word_compile.py`). After the lexer has classified an escape sequence, this
stage turns the one token into its final value. It looks at no runtime state.
There are two entry points:

- `EvalCStringToken` serves `echo -e` and `$'...'` strings. It turns a token
  into a byte string, or into `None` for the `\c` stop sentinel.
- `EvalCharLiteralForRegex` serves the members of a regex character class. It
  turns a token into a `ByteSet` or `CodePoint` term, or into `None` for a bare
  name.

Both are pure, so both are Dafny functions. The modules are:

- `Syntax` (syntax.dfy): the token kinds (`Id`), the `Token` (`id`, `val`,
  `span_id`), the `ClassLiteralTerm` union, `Option`, and Python 2 byte strings.
  A byte string is `Bytes`, a sequence of characters below 256. `Chr` is
  Python's `chr`, which refuses values of 256 and up.
- `Digits` (digits.dfy): `int(s, 8)` and `int(s, 16)` as a left fold (`Parse`),
  with a bound on the result. Its inverse, `Format`, and round trips in both
  directions.
- `PyRepr` (py_repr.dfy): Python 2's `%r` of a byte string, which the
  bad-backslash warning applies to the raw text. It comes with an inverse,
  `Unrepr`.
- `Utf8` (utf8.dfy): a reference UTF-8 encoder for Unicode scalar values (code
  points up to 0x10FFFF other than the surrogates 0xD800 to 0xDFFF), following
  section 3 of RFC 3629, with a decoder and a round-trip proof.
- `WordCompile` (word_compile.dfy): the two decoders and the warning lines
  (`Diagnostics`).
- `WordCompileProperties` (word_compile_properties.dfy): what the decoders
  promise, alone and together.

The single-letter escape table (`consts.LookupCharC`) and the UTF-8 encoder
(`string_ops.Utf8Encode`) are not part of this model. They become parameters:
`EvalCStringToken` takes both, `lookup: Byte -> Bytes` and
`encode: nat -> Bytes`; `EvalCharLiteralForRegex` takes only `lookup`.

A token kind that a decoder has no branch for raises `AssertionError` in the
source. In the model, the `requires` clause (`CStringHandles`, `RegexHandles`)
rules such a call out. `WellFormed` states what the lexer guarantees and what
indexing, `int(s, base)` and `chr` need:

- a letter after the backslash of a single-letter escape;
- a non-empty digit string of the right base after the prefix (1 character for
  `Char_Octal3`, 2 for the other numeric kinds);
- a value below 256 for a hex escape.

Three behaviours of `osh/word_compile.py` worth stating:

- The warning line does not contain the raw text verbatim. It contains its `%r`
  form: `\z` is reported as `'\\z'`. The model proves that the line is one line
  and that the raw text can be read back from it.
- The hex branch range-checks its value through `chr`, which raises from 256
  up. The model requires a value below 256 and proves that the lexer's one or
  two hex digits always meet that.
- Octal escapes are not limited to exactly three digits. Any non-empty octal
  digit string is decoded, and the value wraps modulo 256.

## Model

| member | source | states |
|---|---|---|
| `WordCompile.EvalCStringToken` | osh/word_compile.py:56-113 | The result is `None` if and only if the token is `Char_Stop`, so `\c` is distinct from every string, the empty one included. `Char_Literals` and `Char_BadBackslash` return the token text unchanged. Octal and hex escapes yield exactly one byte. Only handled kinds on well-formed tokens are accepted. |
| `WordCompile.EvalCharLiteralForRegex` | osh/word_compile.py:19-47 | The result is `None` if and only if the token is `Expr_Name`. Every term carries the token's own `span_id`. The term is a `CodePoint` exactly for `Char_Unicode4`/`Char_Unicode8`, and a `ByteSet` otherwise. |
| `WordCompileProperties.HandledKinds` | osh/word_compile.py:19-113 | The two decoders share exactly the single-letter, hex and Unicode kinds. The regex decoder alone takes `Expr_Name`. The C-string decoder alone takes literal runs, bad backslashes, `\c` and both octal kinds. |
| `WordCompileProperties.BadBackslashWarning` | osh/word_compile.py:69-79 | A bad backslash produces exactly one diagnostic line and every other kind none. The line holds no newline, starts with the fixed warning text, and the raw token text can be read back from the rest. |
| `WordCompileProperties.BadBackslashExample` | osh/word_compile.py:69-79 | `\z` passes through unchanged. Its warning is the fixed text followed by `'\\z'`. |
| `WordCompileProperties.OneCharAgrees` | osh/word_compile.py:81-83 | Both decoders look up `val[1]` in the same table. The C-string result is the `ByteSet` payload of the regex result, which is built at lines 28-31. |
| `WordCompileProperties.OctalByte` | osh/word_compile.py:88-99 | An octal escape decodes to exactly one byte. Its code is the value of the digits modulo 256, so it is below 256. A value already below 256 is kept as it is. |
| `WordCompileProperties.EchoAndDollarOctalAgree` | osh/word_compile.py:88-94 | `Char_Octal4` strips two characters where `Char_Octal3` strips one. So `\0ddd` read as Octal4 and `\ddd` read as Octal3 give the same byte. |
| `WordCompileProperties.OctalMarkerIsLeadingZero` | osh/word_compile.py:88-94 | Text `\0ddd` gives the same byte whether it is read as Octal3 (the `0` is a digit) or as Octal4 (the `0` is the marker). |
| `WordCompileProperties.OctalMaxExamples` | osh/word_compile.py:88-99 | `$'\377'` and `echo -e '\0377'` both decode to byte 255. |
| `WordCompileProperties.OctalWrapExample` | osh/word_compile.py:94-99 | `\400` is 256, which wraps to byte 0. |
| `WordCompileProperties.HexAgrees` | osh/word_compile.py:101-104 | Both decoders turn a hex escape into the same single byte: the base-16 value of `val[2:]`. The regex side is lines 33-36. |
| `WordCompileProperties.ShortHexFitsAByte` | osh/word_compile.py:101-104 | `\x` followed by one or two hex digits is always below 256, so `chr` never raises on a lexed hex escape. |
| `WordCompileProperties.HexExample` | osh/word_compile.py:101-104 | `\x41` decodes to `A`. |
| `WordCompileProperties.UnicodeAgrees` | osh/word_compile.py:106-110 | Both decoders parse `val[2:]` base 16 to the same integer `i`. The C-string decoder returns `encode(i)`. The regex decoder returns `CodePoint(i, span_id)` (lines 38-41). |
| `WordCompileProperties.UnicodeRange` | osh/word_compile.py:106-108 | At most 4 digits after `\u` give a code point of at most 0xFFFF. At most 8 after `\U` give at most 0xFFFFFFFF. |
| `WordCompileProperties.UnicodeIsUtf8` | osh/word_compile.py:106-110 | Suppose the encoder agrees with RFC 3629 on every Unicode scalar value, and the escape names one (at most 0x10FFFF, not a surrogate). Then the C-string bytes decode back to the regex decoder's code point and have the RFC's length. A `\u` escape needs at most 3 bytes. |
| `WordCompileProperties.Examples` | osh/word_compile.py:63-86 | `hello` as a literal run is returned unchanged with no warning. `\c` yields `None`. |
| `Digits.Parse` | osh/word_compile.py:94 | `int(s, base)` on a digit string of n digits gives a value below base to the n. |
| `Digits.DigitValue` | osh/word_compile.py:94 | Every digit is worth less than 16, and octal digits are exactly those worth less than 8. |
| `Digits.ParseFormat` | osh/word_compile.py:103 | Formatting a number to enough digits and parsing it back gives the number. |
| `Digits.FormatParse` | osh/word_compile.py:103 | Parsing a lower-case digit string and formatting back to its width gives the string, so parsing loses nothing but letter case. |
| `Digits.LeadingZero` | osh/word_compile.py:94 | A leading `0` does not change the parsed value. |
| `WordCompile.Diagnostics` | osh/word_compile.py:75-76 | At most one line is written, and one is written exactly for a bad backslash. The line starts with the fixed warning text and holds no newline. |
| `PyRepr.Repr` | osh/word_compile.py:75-76 | The `%r` text opens and closes with the same quote, the one `%r` chooses for the bytes, and is a single line. |
| `PyRepr.QuoteOnlyEscaped` | osh/word_compile.py:75-76 | Between the quotes of `%r`, the quote character only ever appears right after a backslash. Read one escape unit at a time (a backslash with the byte after it, or a single other byte), the text holds no bare quote and does not end in a lone backslash (`NoBareQuote`), so the closing quote is the first bare one and the text never ends early. The quote does not appear at all when the bytes do not contain it. |
| `PyRepr.ReprIsOneRecoverableLine` | osh/word_compile.py:75-76 | The `%r` text of any byte string contains no newline, and the byte string can be read back from it. |
| `PyRepr.UnescapeEscape` | osh/word_compile.py:75-76 | The escaping inside `%r` loses nothing. |
| `Syntax.Chr` | osh/word_compile.py:99 | `chr(i)` is the one byte whose code is `i`, and it exists only for `i` below 256 (Python raises otherwise; the hex branch at line 104 shares it). |
| `Utf8.Encode` | osh/word_compile.py:110 | A Unicode scalar value becomes 1 to 4 bytes, by range. The lead byte announces the length, and the remaining bytes are continuation bytes. |
| `Utf8.DecodeEncode` | osh/word_compile.py:110 | Decoding the UTF-8 bytes of a scalar value gives the value back. |

## Left out

- `consts.LookupCharC` is not part of this model. The table is the parameter
  `lookup`, so nothing is assumed about which letters it maps or what to.
- `string_ops.Utf8Encode` is not part of this model. The encoder is the
  parameter `encode`. `UnicodeIsUtf8` relates it to the reference encoder only
  for Unicode scalar values. What it produces for a surrogate (`\ud800` to
  `\udfff`, which RFC 3629 does not encode) or for a value above 0x10FFFF from
  a `\U` escape is not modelled.
- Writing to stderr is I/O. `Diagnostics` gives the line that `stderr_line`
  writes, without its terminating newline.
- Python's `repr` is not part of the repository. `PyRepr` follows CPython 2's
  rules for byte strings.
- The strict-mode errors are commented out in the source. They are not
  modelled, and no `strict` flag exists.
- `AssertionError` for unhandled kinds is not modelled as a value. The
  preconditions `CStringHandles` and `RegexHandles` rule those calls out.
- `int(s, base)` also accepts signs and surrounding spaces, and raises on
  malformed input. The model only takes the non-empty digit strings the lexer
  produces (`WellFormed`).
- The generated `Id`, `Token` and `class_literal_term` types are reduced to the
  fields used. `Other(name)` stands for every other token kind.
- Repeated calls giving the same result needs no lemma: both decoders are
  functions.
