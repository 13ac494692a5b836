# datetime: the date-template compiler, modelled in Dafny

This project models `src/format.rs` of the `datetime` crate. That file turns a
template such as `"{:Y}-{:M}-{:D}"` into a `DateFormat`, which is a list of fields.
It then renders that list against a calendar date.

- **Parsing** makes a single pass over the `(byte offset, char)` pairs that
  `char_indices` yields.
  - A run of plain text becomes a `Literal` field.
  - `{:Y}`, `{:y}`, `{:M}`, `{:D}` and `{:E}` become `Year`, `YearOfCentury`,
    `MonthName(true)`, `Day` and `WeekdayName(true)`.
  - Every error carries the byte offset it is reported at.
- **Formatting** writes each field's text in order. Numbers are written in
  decimal. Month and weekday names come from four fixed tables.

## Files

| file | module | what it holds |
|---|---|---|
| `wrappers.dfy` | `Wrappers` | `Option` and `Result` |
| `local.dfy` | `Local` | `Month`, `Weekday`, `LocalDate`: what the formatter reads from a date |
| `decimal.dfy` | `Decimal` | decimal numerals, as Rust's `{}` writes an integer, and their reading |
| `utf8.dfy` | `Utf8` | byte offsets of characters, and byte-offset slicing (`slice`, `slice_from`) |
| `format.dfy` | `Format` | fields, errors, name tables, rendering, the reference parser `Scan`/`ScanDirective`, and the `FormatParser` class |
| `format_properties.dfy` | `FormatProperties` | what parsing and rendering promise, proved about the reference definitions |
| `format_tests.dfy` | `FormatTests` | the crate's unit tests as lemmas, with a few more inputs |

The model keeps the source's shape.

- **The parser is a class.** `Format.FormatParser` has the same state as the Rust
  `FormatParser`: the input, the iterator position, and the fields vector. Its
  position is kept two ways: `cursor` is a character index, and `front` is the
  byte offset `char_indices` reports next.
  - `Next`, `ParseFormatString` and `ParseAThing` are methods with the source's
    loops.
  - Each method is proved to compute the index-based reference functions
    `Format.Scan` and `Format.ScanDirective`. `Format.Parsed` is the result of
    `DateFormat::parse` as a function. `Format.Parse` is proved to return it.
- **Formatting is a method plus a function.** `Format.Format` is the loop that
  writes into a buffer. It is proved to produce `Format.Rendered`.
- **Positions are UTF-8 byte offsets.** `Utf8.Offset(s, i)` is the byte length of
  the UTF-8 encoding of `s[..i]`. The model covers all of Unicode, not only ASCII.
- **Literal text is copied.** A `Literal` holds its text as a string, where the
  source borrows a `&str` from the input.

### Directives with several kind letters

After a kind letter, `parse_a_thing` (src/format.rs:156-175) goes back to its
loop instead of demanding the closing `}`.

- A further `:X` replaces the field chosen so far, so `"{:Y:M}"` parses to
  `MonthName(true)`.
- The directive ends only at the first `}`.

`FormatProperties.LastKindWins` and
`FormatTests.LaterKindOverwrites` state and prove this behaviour.

## Model

| member | source | states |
|---|---|---|
| Format.LongMonthName | src/format.rs:184-194 | every long month name has at least three characters |
| Format.ShortMonthName | src/format.rs:196-206 | each short month name is the first three characters of the long name of the same month |
| Format.LongDayName | src/format.rs:208-217 | every long weekday name has at least three characters |
| Format.ShortDayName | src/format.rs:219-228 | each short weekday name is the first three characters of the long name of the same weekday |
| FormatProperties.NamesIdentify | src/format.rs:184-228 | each of the four name tables is one-to-one: equal names mean equal months or weekdays |
| FormatProperties.ShortNamesAbbreviate | src/format.rs:26-30 | `MonthName(false)` and `WeekdayName(false)` render the first three characters of what `MonthName(true)` and `WeekdayName(true)` render |
| FormatProperties.NumbersReadBack | src/format.rs:24-28 | `Year`, `YearOfCentury` and `Day` render a non-empty signed decimal numeral that reads back as the date's year, year of century and day |
| Decimal.NatToDecimal | src/format.rs:24-28 | the numeral of a natural number is non-empty, all digits, and has no leading zero except for "0" itself |
| Decimal.IntToDecimal | src/format.rs:24-28 | a numeral starts with '-' exactly when the number is negative, and the rest is the numeral of its magnitude |
| Decimal.NatToDecimalRoundTrip | src/format.rs:24-28 | reading back the decimal numeral of n gives n |
| Decimal.IntToDecimalRoundTrip | src/format.rs:24-28 | reading back the signed numeral of i gives i |
| Decimal.IntToDecimalInjective | src/format.rs:24-28 | distinct integers are written as distinct numerals |
| Format.RenderField | src/format.rs:21-32 | `Field::format` as a function: the text one field writes for a date; what that text is, is stated by `NumbersReadBack`, `ShortNamesAbbreviate` and `LiteralPassthrough` |
| Format.Rendered | src/format.rs:78-84 | the reference definition of the formatter's output, each field's text in order; `Format.Format` is proved to compute it and `RenderedConcat` to distribute over concatenation |
| Format.RenderedConcat | src/format.rs:78-84 | the output for a concatenation of field lists is the concatenation of their outputs |
| Format.Format | src/format.rs:78-84 | the loop's buffer ends up holding every field's text, in field order |
| FormatProperties.FormatConcat | src/format.rs:78-84 | `RenderedConcat` seen on `DateFormat` values: formatting the fields of a and then b gives a's output followed by b's |
| Format.KindField | src/format.rs:159-164 | exactly the letters Y, y, M, D and E select a field, and each selects a directive field |
| Format.ScanDirective | src/format.rs:152-181 | on success the directive ends just past a '}', contains no earlier '}', and yields a directive field; a directive error is never a close-brace error |
| Format.FormatParser.constructor | src/format.rs:86-91 | a fresh parser starts at the beginning of the input with no fields |
| Format.FormatParser.Next | src/format.rs:106-108 | before the end it yields the byte offset and the character at the cursor and moves one character on; at the end it yields None and does not move |
| Format.FormatParser.GetInputSlice | src/format.rs:110-117 | yields a literal whose text is `to - from` bytes long, or, when `to` is None, as many bytes as the input has after `from` |
| Format.FormatParser.GetInputSliceAtOffsets | src/format.rs:110-117 | at the byte offsets of characters i and j the literal holds exactly the characters i..j, and from the offset of i with no end it holds the characters from i to the end |
| Format.FormatParser.ParseAThing | src/format.rs:152-181 | returns the directive's field and leaves the iterator just past its '}', or returns the error `ScanDirective` defines |
| Format.FormatParser.ParseFormatString | src/format.rs:119-150 | leaves in `fields` exactly the fields `Scan` defines, pushed in order with pending literals closed, or returns the first error |
| Format.Scan | src/format.rs:119-150 | the reference definition of the scan from a character index, with the pending literal run and the fields so far; `ParseFormatString` is proved to compute it and the lemmas of `FormatProperties` state what it yields |
| Format.Parsed | src/format.rs:86-96 | the reference definition of `DateFormat::parse`: `Scan` over the whole input from an empty state; `Parse` is proved to return it |
| Format.Parse | src/format.rs:86-96 | returns exactly `Parsed(input)`: the fields of the whole input, or its first error |
| Utf8.OffsetStep | src/format.rs:88 | the byte offset after a character is its offset plus that character's UTF-8 width |
| Utf8.OffsetStrictlyIncreasing | src/format.rs:88 | later characters have strictly larger byte offsets |
| Utf8.Slice | src/format.rs:127 | a slice between two character boundaries is `to - from` bytes long |
| Utf8.SliceFrom | src/format.rs:145 | a slice from a boundary to the end holds the rest of the bytes |
| Utf8.SliceAtOffsets | src/format.rs:127 | slicing between the byte offsets of characters i and j gives exactly the characters i..j |
| Utf8.SliceFromOffset | src/format.rs:145 | slicing from the byte offset of character i gives the characters from i to the end |
| Utf8.AsciiOffset | src/format.rs:88 | in ASCII text the byte offset of a character is its index |
| FormatProperties.EmptyTemplate | src/format.rs:119-150 | the empty template parses to no fields and renders as "" |
| FormatProperties.LiteralPassthrough | src/format.rs:135-147 | non-empty text without braces parses to one literal, and renders as itself on every date |
| FormatProperties.ScanWellFormed | src/format.rs:119-150 | every successful scan yields non-empty, brace-free literals and directive fields, with no two literals side by side |
| FormatProperties.ParsedWellFormed | src/format.rs:86-96 | every successful parse is well formed in that sense |
| FormatProperties.LastKindWins | src/format.rs:156-170 | `{:k0:k1...:kn}` is accepted and yields the field of the last kind letter |
| FormatProperties.StrayCloseBraceReported | src/format.rs:134 | after a prefix that parses, a '}' outside a directive is the error, reported at its own byte offset, whatever follows |
| FormatProperties.UnclosedBraceReported | src/format.rs:156-175 | a directive that runs to the end of the input, with or without a trailing ':', fails at its '{' |
| FormatProperties.EmptyDirectiveReported | src/format.rs:177-180 | after a prefix that parses, `{}` is a missing field reported at its '{' |
| FormatProperties.InvalidCharReported | src/format.rs:156-174 | after a prefix that parses, an unexpected character inside a directive is reported at its own byte offset, flagged as after a ':' or not |
| FormatProperties.DirectiveErrorAfterPrefix | src/format.rs:131 | an error in a directive that follows a prefix that parses is the error of the whole parse |
| FormatProperties.ScanDirectiveOverPairs | src/format.rs:156-170 | reading ':' and a kind letter any number of times leaves the directive scanner in the state of the last pair |
| FormatProperties.ScanPrefix | src/format.rs:122-142 | the scan of a parseable prefix reaches the prefix's end in the same state whatever text follows |
| FormatProperties.ScanErrorLocated | src/format.rs:119-181 | every error other than a stray '}' points at a real character of the input with the meaning the error names |
| FormatProperties.ScanCloseBraceLocated | src/format.rs:134 | a stray-'}' error points at a '}' whose offset it carries, and the text before it parses |
| FormatProperties.ParsedErrorLocated | src/format.rs:86-181 | every parse error locates its character: the offending character, the '{' concerned, or the first stray '}' |
| FormatProperties.ScanUnparse | src/format.rs:119-181 | scanning the canonical text of well-formed fields yields those fields after the ones already pushed |
| FormatProperties.ParseUnparse | src/format.rs:86-181 | the canonical text of any well-formed field list parses back to that list |
| FormatProperties.ParsedCanonical | src/format.rs:86-181 | re-parsing the canonical text of a parsed template gives the same template |
| FormatTests.EmptyString | src/format.rs:239-242 | "" parses to no fields |
| FormatTests.EntirelyLiteral | src/format.rs:244-247 | "Date!" parses to one literal |
| FormatTests.SingleElement | src/format.rs:249-252 | "{:Y}" parses to `Year` |
| FormatTests.TwoLongYears | src/format.rs:254-257 | "{:Y}{:Y}" parses to `Year, Year` |
| FormatTests.Surrounded | src/format.rs:259-262 | "({:D})" parses to "(" then `Day` then ")" |
| FormatTests.ABunchOfElements | src/format.rs:264-267 | "{:Y}-{:M}-{:D}" parses to the five fields the test expects |
| FormatTests.MissingFieldError | src/format.rs:269-272 | "{}" is a missing field at 0 |
| FormatTests.InvalidCharError | src/format.rs:274-277 | "{7}" is an invalid '7' at 1, not after a colon |
| FormatTests.InvalidCharAfterColon | src/format.rs:279-282 | "{:7}" is an invalid '7' at 2, after a colon |
| FormatTests.OpenCurlyBraceError | src/format.rs:284-287 | "{" is an unclosed brace at 0 |
| FormatTests.MysteryCloseBrace | src/format.rs:289-292 | "}" is a stray close brace at 0 |
| FormatTests.AnotherMysteryCloseBrace | src/format.rs:294-297 | "This is a test: }" is a stray close brace at 16 |
| FormatTests.NoEscapingOpen | src/format.rs:301-304 | "{{" is not an escape: it is an invalid '{' at 1 |
| FormatTests.NoEscapingClose | src/format.rs:306-309 | "}}" is not an escape: it is a stray close brace at 0 |
| FormatTests.LaterKindOverwrites | src/format.rs:158-170 | "{:Y:M}" parses to `MonthName(true)` |
| FormatTests.ColonThenClose | src/format.rs:165 | "{:}" is an invalid '}' at 2, after a colon |
| FormatTests.ByteOffsets | src/format.rs:134 | in "é}" the stray '}' is at byte 2, because 'é' takes two bytes |
| FormatTests.FormatOneDate | src/format.rs:21-84 | the fields of "{:Y}-{:M}-{:D}" render 7 March 2015 as "2015-March-7" |

## Left out

- `Alignment` and `Arguments` (src/format.rs:50-75) are left out. `parse_a_thing` creates an empty one and never reads it, so it has no effect on any result.
- `io::MemWriter`, `IoResult` and `String::from_utf8(...).unwrap()` are left out. The output buffer is a string that grows by concatenation. The model does not cover the write failures the code ignores, or the UTF-8 check.
- The calendar code in `local` is not part of this model. A `LocalDate` is only the five values the formatter reads from it, with no relation assumed between them.
- Escaping of `{{` and `}}` exists only as commented-out tests. The code gives no escape, and `FormatTests.NoEscapingOpen` and `FormatTests.NoEscapingClose` state what it does instead.
- `src/lib.rs` holds only crate attributes, `extern crate` lines and module declarations, so it is not part of this model.
- Integers are unbounded. `usize` offsets cannot overflow for inputs that fit in memory. The date's numbers are whatever the date holds.
- Nothing calls `get_input_slice` in the source, and nothing calls its model `Format.FormatParser.GetInputSlice`. `ParseFormatString` slices the input directly, as lines 127 and 145 do.
- Slicing at a byte offset that is not a character boundary panics in Rust. `Utf8.Slice` and `Utf8.SliceFrom` require boundaries instead. The parser is proved to slice only at character offsets.
- Literal fields hold a copy of their text, not a borrowed slice, so the lifetime `'a` has no counterpart.
