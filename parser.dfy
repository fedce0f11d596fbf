/** The recursive-descent reader of src/parser.rs. Every reader takes the
    remaining input and returns the cell it read together with the input it
    left over; the dispatcher and the list reader call each other.

    The readers are first given as functions (the dispatcher and the entry
    point are functions in the source too); the four readers that the source
    writes as `while` loops over an index are then given as methods with those
    loops, each proved to compute exactly its function. */
module Parser {
  import opened Sexp
  import opened Text

  /** `ParseResult`: the cell read and the input left over. */
  datatype Read = Read(value: Cell, left: string)

  /** The two ways the reader panics in the source. */
  datatype Panic =
    | EmptyInput          // `char_at(0)` on a string that is empty once trimmed
    | UnterminatedString  // `slice_from(index + 1)` past the end: no closing quote

  datatype Result<T> = Ok(value: T) | Err(panic: Panic)

  /** `parse_int`: the decimal value of the longest run of leading digits.
      It consumes at least one character when the input starts with a digit. */
  function ReadInt(s: string): (r: Read)
    ensures r.value.IntCell? && |r.left| <= |s|
    ensures s != [] && IsDigit(s[0]) ==> |r.left| < |s|
  {
    var n := DigitRun(s);
    Read(IntCell(DecimalValue(s[..n])), s[n..])
  }

  /** `parse_ident`: everything up to the first ASCII space. Tabs and line
      breaks do not stop it, and neither does a closing parenthesis. It
      consumes at least one character unless the input starts with a space. */
  function ReadIdent(s: string): (r: Read)
    ensures r.value.IdentCell? && |r.left| <= |s|
    ensures s != [] && s[0] != ' ' ==> |r.left| < |s|
  {
    var n := RunBefore(s, ' ');
    Read(IdentCell(s[..n]), s[n..])
  }

  /** `parse_string`, given the input just past the opening quote: the text up
      to the next quote, which is dropped. Without a closing quote the source
      slices past the end of the string. */
  function ReadString(s: string): (r: Result<Read>)
    ensures r.Ok? ==> r.value.value.StringCell? && |r.value.left| < |s|
  {
    var n := RunBefore(s, '"');
    if n == |s| then Err(UnterminatedString)
    else Ok(Read(StringCell(s[..n]), s[n + 1..]))
  }

  /** The integer reader splits its input into a run of digits, which it
      reads as a decimal number, and a leftover that does not start with a
      digit. */
  lemma ReadIntSpec(s: string)
    ensures var r := ReadInt(s); var digits := s[..|s| - |r.left|];
      && s == digits + r.left
      && AllDigits(digits)
      && r.value == IntCell(DecimalValue(digits))
      && (r.left == [] || !IsDigit(r.left[0]))
  {
    var n := DigitRun(s);
    assert s == s[..n] + s[n..];
  }

  /** The identifier reader splits its input into a space-free name and a
      leftover that is empty or starts with a space. */
  lemma ReadIdentSpec(s: string)
    ensures var r := ReadIdent(s);
      && s == r.value.name + r.left
      && ' ' !in r.value.name
      && (r.left == [] || r.left[0] == ' ')
  {
    var n := RunBefore(s, ' ');
    assert s == s[..n] + s[n..];
  }

  /** The string reader succeeds exactly when its input holds a quote; the
      text is then everything before the first quote, and the leftover
      everything after it. */
  lemma ReadStringSpec(s: string)
    ensures ReadString(s).Ok? <==> '"' in s
    ensures var r := ReadString(s);
      r.Ok? ==> s == r.value.value.text + ['"'] + r.value.left && '"' !in r.value.value.text
  {
    var n := RunBefore(s, '"');
    if n == |s| {
      assert s[..n] == s;
    } else {
      assert s == s[..n] + ['"'] + s[n + 1..];
    }
  }

  /** `parse_cells`: trim the input and dispatch on its first character. The
      leftover is always shorter than the trimmed input. */
  function ReadCell(s: string): (r: Result<Read>)
    ensures r.Ok? ==> |r.value.left| < |Trim(s)|
    decreases |s|, 0
  {
    var t := Trim(s);
    if t == [] then Err(EmptyInput)
    else if t[0] == '(' then ReadList(t[1..])
    else if t[0] == '"' then ReadString(t[1..])
    else if IsDigit(t[0]) then Ok(ReadInt(t))
    else Ok(ReadIdent(t))
  }

  /** `parse_list`, given the input just past an opening parenthesis: trim it
      (it must not be empty) and read cells until the leftover starts with `)`,
      which stays in the leftover, or runs out. */
  function ReadList(s: string): (r: Result<Read>)
    ensures r.Ok? ==> |r.value.left| <= |Trim(s)|
    ensures r.Ok? ==> r.value.value.ListCell?
    ensures r.Ok? ==> r.value.left == [] || r.value.left[0] == ')'
    decreases |s|, 2
  {
    var t := Trim(s);
    if t == [] then Err(EmptyInput) else ListLoop(t, [])
  }

  /** The loop of `parse_list` from the leftover `left`, with `items` read so
      far. The `)` test looks at the leftover as the previous reader returned
      it, before any trimming. */
  function ListLoop(left: string, items: seq<Cell>): (r: Result<Read>)
    requires left != []
    ensures r.Ok? ==> |r.value.left| <= |left|
    ensures r.Ok? ==> r.value.value.ListCell? && items <= r.value.value.items
    ensures r.Ok? ==> r.value.left == [] || r.value.left[0] == ')'
    decreases |left|, 1
  {
    if left[0] == ')' then Ok(Read(ListCell(items), left))
    else
      match ReadCell(left)
      case Err(p) => Err(p)
      case Ok(Read(c, rest)) =>
        if rest == [] then Ok(Read(ListCell(items + [c]), []))
        else ListLoop(rest, items + [c])
  }

  /** `parse`: read the source wrapped in one more pair of parentheses, and
      keep the cell, which is always a list. */
  function Parse(source: string): (r: Result<Cell>)
    ensures r.Ok? ==> r.value.ListCell?
  {
    var wrapped := "(" + source + ")";
    assert Trim(wrapped) == wrapped by { TrimNothingToStrip(wrapped); }
    match ReadCell(wrapped)
    case Ok(read) => Ok(read.value)
    case Err(p) => Err(p)
  }

  /** A string that neither starts nor ends with white space is its own trim. */
  lemma TrimNothingToStrip(s: string)
    requires s != [] && !IsWhitespace(s[0]) && !IsWhitespace(s[|s| - 1])
    ensures Trim(s) == s
  {
    assert TrimLeft(s) == s;
  }

  /** The accumulator of `parse_int` as the source types it: `10 * number + x`
      on a `uint`, which is pointer-sized and, on a 64-bit target, wraps modulo
      2^64. */
  const UintModulus: nat := 0x1_0000_0000_0000_0000

  function WrappedDecimal(d: string): (v: nat)
    requires AllDigits(d)
    ensures v < UintModulus
    decreases |d|
  {
    if d == [] then 0
    else (10 * WrappedDecimal(d[..|d| - 1]) + DigitValue(d[|d| - 1])) % UintModulus
  }

  /** `parse_int` as a loop over an index. */
  method ParseInt(source: string) returns (r: Read)
    ensures r == ReadInt(source)
  {
    var number: nat := 0;
    var index: nat := 0;
    while index < |source| && IsDigit(source[index])
      invariant index <= DigitRun(source)
      invariant number == DecimalValue(source[..index])
    {
      // `to_digit(10)` never answers `None` on the ASCII digits '0'..'9', so
      // the source's `break` branch is not reachable on them.
      var x := DigitValue(source[index]);
      assert source[..index + 1][..index] == source[..index];
      number := 10 * number + x;
      index := index + 1;
    }
    r := Read(IntCell(number), source[index..]);
  }

  /** `parse_ident` as a loop over an index. */
  method ParseIdent(source: string) returns (r: Read)
    ensures r == ReadIdent(source)
  {
    var text := "";
    var index: nat := 0;
    while index < |source| && source[index] != ' '
      invariant index <= RunBefore(source, ' ')
      invariant text == source[..index]
    {
      text := text + [source[index]];
      index := index + 1;
    }
    r := Read(IdentCell(text), source[index..]);
  }

  /** `parse_string` as a loop over an index; the slice past the end that the
      source would panic on is the `UnterminatedString` error. */
  method ParseString(source: string) returns (r: Result<Read>)
    ensures r == ReadString(source)
  {
    var text := "";
    var index: nat := 0;
    while index < |source| && source[index] != '"'
      invariant index <= RunBefore(source, '"')
      invariant text == source[..index]
    {
      text := text + [source[index]];
      index := index + 1;
    }
    if index + 1 > |source| {
      r := Err(UnterminatedString);
    } else {
      r := Ok(Read(StringCell(text), source[index + 1..]));
    }
  }

  /** `parse_list` as the source's loop: each element is read by the
      dispatcher and pushed, and the leftover is reassigned. */
  method ParseList(source: string) returns (r: Result<Read>)
    ensures r == ReadList(source)
  {
    var trimmed := Trim(source);
    if trimmed == [] {
      return Err(EmptyInput);
    }
    var list: seq<Cell> := [];
    var first := trimmed[0];
    var left := trimmed;
    while first != ')'
      invariant left != [] && first == left[0]
      invariant ListLoop(left, list) == ListLoop(trimmed, [])
      decreases |left|
    {
      var result := ReadCell(left);
      if result.Err? {
        return Err(result.panic);
      }
      left := result.value.left;
      list := list + [result.value.value];
      if left == [] {
        return Ok(Read(ListCell(list), []));
      }
      first := left[0];
    }
    r := Ok(Read(ListCell(list), left));
  }
}
