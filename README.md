# A verified model of the escher-rust reader

escher-rust reads an S-expression-like source text into a tree of `Cell`s
with a hand-written recursive-descent reader (`src/parser.rs`). Each reader
takes the input that is still unread. It returns a `ParseResult`: the cell it
read, and the input it left over for the next reader.

- `parse_cells` trims the input and dispatches on its first character:
  - `(` goes to `parse_list`;
  - `"` goes to `parse_string`;
  - a digit goes to `parse_int`;
  - anything else goes to `parse_ident`.
- `parse_list` calls `parse_cells` until the leftover starts with `)` or runs out.
- `parse` wraps the whole source in one more pair of parentheses.

The project models this reader in Dafny and proves what it does.

- `sexp.dfy` (module `Sexp`): the `Cell` tree. It has the three variants that
  `src/sexp.rs` declares, plus the `StringCell` variant that the string reader
  constructs.
- `text.dfy` (module `Text`): the string primitives the reader relies on.
  These are `trim`, the digit and white-space tests, scanning up to a stop
  character, and decimal values.
- `parser.dfy` (module `Parser`): the readers.
  - Each reader is first a function: `ReadCell` for `parse_cells`, `ReadList`
    and `ListLoop` for `parse_list`, `ReadInt`, `ReadIdent`, `ReadString` and
    `Parse`.
  - The four readers that the source writes as `while` loops are then methods
    with those loops: `ParseInt`, `ParseIdent`, `ParseString` and `ParseList`.
    Each method is proved to return exactly what its function returns.
  - A panic of the source becomes an `Err` result. `char_at(0)` on an input
    that is empty once trimmed is `EmptyInput`. Slicing past the end after a
    string literal with no closing quote is `UnterminatedString`.
- `properties.dfy` (module `ParserProperties`): what the reader guarantees.
  - The primitive readers split their input exactly, and reading a printed
    number gives it back.
  - The dispatcher's choice shows in the cell it returns.
  - Every leftover is a suffix of the trimmed input. (The mutual recursion
    terminates because `ReadCell` promises a leftover strictly shorter than
    its trimmed input, parser.dfy:100.)
  - A list is characterised, in both directions, as the cells the dispatcher
    reads one after another.
  - On ASCII input, `parse` can fail only on an unclosed string literal.
  - The `uint` accumulator of `parse_int` wraps, modulo 2^64 on a 64-bit
    target (see Findings).
- `examples.dfy` (module `ParserExamples`): the examples in the source's
  comments and the demo program's input, worked through the model. Some
  quirks of the reader as written are stated here for any input of the
  shape shown.

The reader is modelled as the code is written.

- The `)` test in `parse_list` (src/parser.rs:39 and 49) looks at the leftover
  before it is trimmed.
  - After `2 )` the leftover is ` )`. The `)` is then read as an identifier,
    and the list runs on to the end of the input.
  - So the comment's own example `2 4 ) 2` at src/parser.rs:33 does not give
    `[2, 4]`. The mechanism is proved by `ParserExamples.SpacedCloseIsIdent`.
- The identifier reader stops only at an ASCII space, so it swallows closing
  parentheses. `parse("(fun)")` gives a list holding a list holding the
  identifier `fun))`, not `fun` (`ParserExamples.IdentSwallowsClose`).
- A nested list leaves its `)` in the leftover. The enclosing list then stops
  at that `)`, so whatever follows a nested list is dropped.
  - `parse("(1) 2")` holds only the list `(1)` (`ParserExamples.NestedListDropsRest`).
  - Only the last element of a list can itself be a list
    (`ParserProperties.OnlyLastIsList`).
- On ASCII input, a source without any `"` always parses. The wrapping parentheses mean that
  every leftover ends in `)`, so no reader is ever handed an empty input
  (`ParserProperties.ParseFailsOnlyOnUnterminatedString`).
- `parse_cells` has no case for `{`: it goes to the identifier reader like
  any other character. The `TypeSignature`, `Type` and `ParameterType`
  records of src/sexp.rs:9-22 are never built.

White space is the ASCII set (space, tab, line feed, vertical tab, form feed,
carriage return) and digits are `'0'..'9'`. Strings are sequences of
characters, so a byte index of the source is a character index here. That is
exact for ASCII input.

## Model

| member | source | states |
|---|---|---|
| Sexp.Cell | src/sexp.rs:2-6 | a cell is an integer, an identifier or a list of cells, plus the `StringCell` that `parse_string` builds at src/parser.rs:94; the integer is a `nat` (see `Parser.ReadInt` under Left out) |
| Parser.Read | src/parser.rs:9-12 | `ParseResult`: the cell read and the input left over |
| Parser.Panic | src/parser.rs:17 | the two ways the reader panics: `char_at(0)` on input that is empty once trimmed (here and at :36) is `EmptyInput`, and `slice_from(index + 1)` past the end at :94 is `UnterminatedString` |
| Text.IsWhitespace | src/parser.rs:15 | the white space `trim` strips, restricted to ASCII: space, tab, line feed, vertical tab, form feed and carriage return |
| Text.IsDigit | src/parser.rs:24 | `is_digit`, restricted to the ASCII digits `'0'..'9'` |
| Text.DigitValue | src/parser.rs:61 | `to_digit(10)` on an ASCII digit: a value below ten |
| Text.DigitRoundTrip | src/parser.rs:61 | spelling the value of an ASCII digit with `DigitChar` gives the digit back |
| Text.Trim | src/parser.rs:15 | the trimmed input is no longer than the input, and starts and ends with a non-space character |
| Text.TrimIsSlice | src/parser.rs:15 | the trimmed input is the slice of the input that starts right after its leading white space, and everything cut off at either end is white space |
| Text.TrimEmptyIffBlank | src/parser.rs:15-17 | trimming leaves nothing exactly when the input is all white space, which is when `char_at(0)` panics |
| Text.TrimIsSuffix | src/parser.rs:15 | on an input ending in a non-space, trimming only strips the front and keeps the last character |
| Text.DigitRun | src/parser.rs:60 | the length of the maximal leading run of digits: all of it is digits, and the character after it is not a digit |
| Text.RunBefore | src/parser.rs:78 | the number of characters before the first stop character: none of them is the stop character, and the next one is |
| Text.DecimalValue | src/parser.rs:64 | the value of `number = 10 * number + x` folded over the digits, below ten to the number of digits |
| Text.ShowNat | src/parser.rs:64 | a printed number is a non-empty string of digits, with no leading zero unless it is `0`, whose decimal value is the number |
| Text.DigitRunOfSplit | src/parser.rs:60 | the digit run of a run of digits followed by a non-digit is exactly that run |
| Text.RunBeforeOfSplit | src/parser.rs:78 | scanning stops right after a prefix free of the stop character when the stop character follows |
| Parser.ReadInt | src/parser.rs:56-71 | the integer reader returns an `IntCell`, and consumes at least one character when the input starts with a digit |
| Parser.ReadIntSpec | src/parser.rs:56-71 | the input is the digits read plus the leftover; the digits are all digits, the value is their decimal value, and the leftover does not start with a digit |
| Parser.ReadIdent | src/parser.rs:73-83 | the identifier reader returns an `IdentCell`, and consumes at least one character unless the input starts with a space |
| Parser.ReadIdentSpec | src/parser.rs:73-83 | the input is the name plus the leftover; the name has no space, and the leftover is empty or starts with a space |
| Parser.ReadString | src/parser.rs:85-95 | on success the string reader returns a `StringCell` and a leftover strictly shorter than its input |
| Parser.ReadStringSpec | src/parser.rs:85-95 | the string reader succeeds exactly when the input holds a quote; the input is then the text, the quote and the leftover, and the text holds no quote |
| Parser.ReadCell | src/parser.rs:14-30 | the dispatcher's leftover is strictly shorter than its trimmed input, which makes the mutual recursion terminate |
| Parser.ReadList | src/parser.rs:32-54 | the list reader returns a list, and its leftover is empty or starts with the `)` it stopped at |
| Parser.ListLoop | src/parser.rs:39-53 | the loop keeps the items read so far as a prefix of the list, and stops with a leftover that is empty or starts with `)` |
| Parser.Parse | src/parser.rs:3-7 | the entry point always returns a list |
| Parser.WrappedDecimal | src/parser.rs:58-66 | the accumulator as typed in the source, `10 * number + x` on a `uint` of a 64-bit target, stays below 2^64 |
| Parser.ParseInt | src/parser.rs:56-71 | the scanning loop returns exactly what `ReadInt` specifies |
| Parser.ParseIdent | src/parser.rs:73-83 | the scanning loop returns exactly what `ReadIdent` specifies |
| Parser.ParseString | src/parser.rs:85-95 | the scanning loop returns exactly what `ReadString` specifies, including the error on a missing closing quote |
| Parser.ParseList | src/parser.rs:32-54 | the loop that pushes cells and reassigns the leftover returns exactly what `ReadList` specifies |
| ParserProperties.ReadIntSplit | src/parser.rs:56-71 | a run of digits followed by a non-digit is read as its decimal value, with the rest left over |
| ParserProperties.ReadIntRoundTrip | src/parser.rs:56-71 | reading a printed number gives the number back and leaves the rest |
| ParserProperties.ReadIdentSplit | src/parser.rs:73-83 | a space-free name followed by a space or the end is read as that name, with the rest left over |
| ParserProperties.ReadStringSplit | src/parser.rs:85-95 | a quote-free text followed by a quote is read as that text; the quote is dropped and the rest is left over |
| ParserProperties.DispatchByFirstChar | src/parser.rs:14-30 | a successful read returns a list, string, integer or identifier exactly when the trimmed input starts with `(`, `"`, a digit or anything else |
| ParserProperties.DispatchRoutes | src/parser.rs:14-30 | which reader gets the trimmed input (past the `(` or `"`), and the empty-input error |
| ParserProperties.NestedListLeavesClose | src/parser.rs:18-19 | a list read by the dispatcher leaves a leftover that is empty or starts with its unconsumed `)` |
| ParserProperties.CellLeftoverIsSuffix | src/parser.rs:14-30 | the dispatcher's leftover is a suffix of its trimmed input |
| ParserProperties.ListLeftoverIsSuffix | src/parser.rs:32-54 | the list reader's leftover is a suffix of its trimmed input |
| ParserProperties.LoopLeftoverIsSuffix | src/parser.rs:39-53 | the loop's final leftover is a suffix of the leftover it started from |
| ParserProperties.LoopReadsInOrder | src/parser.rs:39-53 | the items the loop adds are cells read one after another, none from a leftover starting with `)` |
| ParserProperties.ReadsInOrderIsLoop | src/parser.rs:39-53 | cells read one after another up to a `)` or the end are exactly what the loop appends |
| ParserProperties.ListReadsInOrder | src/parser.rs:32-54 | a list holds exactly the cells read in order from the trimmed input, up to a leftover that is empty or starts with `)` (both directions) |
| ParserProperties.OnlyLastIsList | src/parser.rs:39-53 | no element of a list except the last is itself a list |
| ParserProperties.NoCloseMeansExhausted | src/parser.rs:45-46 | when the list reader succeeds on an input without any `)`, it has run to the end and leaves nothing over (that running out of input is itself no error is the right-to-left direction of `ListReadsInOrder` with an empty leftover) |
| ParserProperties.CellOnClosedInput | src/parser.rs:14-30 | on an input ending in `)` the dispatcher fails only on an unclosed string literal, and its leftover again ends in `)` |
| ParserProperties.ListOnClosedInput | src/parser.rs:32-54 | on an input ending in `)` the list reader fails only on an unclosed string literal |
| ParserProperties.LoopOnClosedInput | src/parser.rs:39-53 | on a leftover ending in `)` the loop fails only on an unclosed string literal |
| ParserProperties.ParseFailsOnlyOnUnterminatedString | src/parser.rs:3-7 | the entry point never fails on empty input; it fails only on an unclosed string literal, so a source without `"` always parses |
| ParserProperties.ParseReadsOuterList | src/parser.rs:3-7 | the entry point succeeds exactly when the list reader succeeds on the source followed by `)`, and returns that list |
| ParserProperties.WrappedIsModulo | src/parser.rs:64 | the accumulator as written is the decimal value of the digits modulo 2^64 |
| ParserProperties.WrapLosesNumber | src/parser.rs:64 | on the digits of any number from 2^64 up, the accumulator as written loses the number, while `ReadInt` reads it |
| ParserProperties.WrapCounterexample | src/parser.rs:64 | the digits of 2^64 wrap round to 0 in the accumulator as written, while `ReadInt` reads 2^64 |
| ParserExamples.IntExample | src/parser.rs:57 | `23 ew` is read as the integer 23 with ` ew` left over |
| ParserExamples.IdentExample | src/parser.rs:74 | `la 2` is read as the identifier `la` with ` 2` left over |
| ParserExamples.StringExample | src/parser.rs:86 | `e" 2` past the opening quote is read as the string `e` with ` 2` left over |
| ParserExamples.DemoExample | src/escher.rs:5 | the demo input `"ef"` parses as a list holding the string `ef` |
| ParserExamples.SpacedCloseIsIdent | src/parser.rs:49 | after an integer, a `)` preceded by a space is read as the identifier `)`, and the list runs to the end |
| ParserExamples.CloseStaysInLeftover | src/parser.rs:53 | a `)` right after an integer ends the list and stays at the front of the leftover |
| ParserExamples.NestedListDropsRest | src/parser.rs:39 | whatever follows a nested list is dropped: `(digits) tail` parses as a list holding only the nested list |
| ParserExamples.IdentSwallowsClose | src/parser.rs:78 | an identifier swallows the closing parentheses after it: `(name)` gives the identifier `name))` |

## Left out

- src/escher.rs: the demo `main` only prints. It also calls `parse` as if it returned a `Result` with a `.sexp` field, which does not match src/parser.rs:3. Only its input string is used, in `ParserExamples.DemoExample`.
- `TypeSignature`, `Type` and `ParameterType` (src/sexp.rs:9-22): no code reads `{...}`, and nothing builds these records.
- Unicode: Rust's `trim()` and `is_digit()` also accept non-ASCII white space and digits. The model uses the ASCII sets, and indexes by character where the source indexes by byte. The two agree on ASCII input.
- Non-ASCII digits: a digit such as U+0663 passes `is_digit` (src/parser.rs:24, 60) but `to_digit(10)` answers `None` for it (src/parser.rs:61, 67). `parse_int` then returns `IntCell(0)` without consuming anything, and `parse_list` (src/parser.rs:39-50) loops for ever pushing `IntCell(0)`. The model's digits are ASCII only, so it reads such a digit as an identifier instead. Its progress and termination results therefore say nothing about the source on this input.
- Multi-byte characters: the source scans by byte, stepping `index += 1` and calling `char_at(index)` (src/parser.rs:78-80, 90-92). After a character of more than one byte, `char_at` lands inside it and panics. So the source fails on any non-ASCII character that the identifier or string reader reaches: `parse("é")` panics in `parse_ident`. The model reads one character per step and accepts such input, so `ParserProperties.ParseFailsOnlyOnUnterminatedString` describes the source only on ASCII input.
- Parser.ReadInt: holds its value as an unbounded `nat` rather than the source's pointer-sized `uint`, which on a 64-bit target wraps on every value from 2^64 up. The as-written wrap-around is `Parser.WrappedDecimal` (see Findings).
- Parser.ParseInt: accumulates in a `nat` for the same reason, so it agrees with `Parser.ReadInt` and not with the wrapped value.
- The `None => break` branch of `parse_int` (src/parser.rs:67) is unreachable under the model's ASCII digits, because `to_digit(10)` answers every ASCII digit. The loop has no such branch.
- Parser.ParseList: each element is read by the function `Parser.ReadCell`, not by a method, because a Dafny function cannot call a method. The `Vec` and the reassigned `left` are a sequence and a string variable.
- Recursion depth: deeply nested input can overflow the stack of the source. The model has no stack.
- Debug formatting (`#[deriving(Show)]`) and string allocation (`to_string`, `String::from_str`) have no behaviour to model.
- The comment's example `2 4 ) 2` (src/parser.rs:33) is not worked through as a literal string. Its first step, an integer followed by a spaced `)`, is `ParserExamples.SpacedCloseIsIdent`.

## Findings

| source | as written | input that shows it | evidently intended | confidence | as-written member | corrected member |
|---|---|---|---|---|---|---|
| src/parser.rs:64 | `number = 10 * number + x` on a `uint` wraps, modulo 2^64 on a 64-bit target, because this pre-1.0 Rust has no overflow check (on a 32-bit target the same input also gives 0) | `18446744073709551616`, the digits of 2^64, is read as 0 | the integer literal's value | not executed | ParserProperties.WrapCounterexample | Parser.ReadInt |
