/** What the reader of src/parser.rs guarantees, proved about the functions
    of module Parser: the primitive readers undo a concatenation, the
    dispatcher's choice shows in the cell it returns, every leftover is a
    suffix of the trimmed input, a list holds exactly the cells read one after
    another up to a `)` or the end of the input, and the entry point can only
    fail on a string literal that is never closed. */
module ParserProperties {
  import opened Sexp
  import opened Text
  import opened Parser

  // Primitive readers

  /** The integer reader takes exactly a run of digits that the rest of the
      input does not continue. */
  lemma ReadIntSplit(digits: string, rest: string)
    requires AllDigits(digits)
    requires rest == [] || !IsDigit(rest[0])
    ensures ReadInt(digits + rest) == Read(IntCell(DecimalValue(digits)), rest)
  {
    var s := digits + rest;
    DigitRunOfSplit(digits, rest);
    assert s[..|digits|] == digits && s[|digits|..] == rest;
  }

  /** Reading a printed number back gives the number, and leaves the rest. */
  lemma ReadIntRoundTrip(n: nat, rest: string)
    requires rest == [] || !IsDigit(rest[0])
    ensures ReadInt(ShowNat(n) + rest) == Read(IntCell(n), rest)
  {
    ReadIntSplit(ShowNat(n), rest);
  }

  /** The identifier reader takes exactly a space-free label followed by a
      space or the end of the input. */
  lemma ReadIdentSplit(name: string, rest: string)
    requires ' ' !in name
    requires rest == [] || rest[0] == ' '
    ensures ReadIdent(name + rest) == Read(IdentCell(name), rest)
  {
    var s := name + rest;
    RunBeforeOfSplit(name, ' ', rest);
    assert s[..|name|] == name && s[|name|..] == rest;
  }

  /** The string reader takes the text up to the first quote and drops it. */
  lemma ReadStringSplit(text: string, rest: string)
    requires '"' !in text
    ensures ReadString(text + ['"'] + rest) == Ok(Read(StringCell(text), rest))
  {
    var s := text + ['"'] + rest;
    RunBeforeOfSplit(text, '"', ['"'] + rest);
    assert text + ['"'] + rest == text + (['"'] + rest);
    assert s[..|text|] == text && s[|text| + 1..] == rest;
  }

  // The dispatcher

  /** The dispatcher routes on the first non-space character, and the kind of
      cell it returns tells which: `(` gives a list, `"` a string, a digit an
      integer and anything else an identifier. */
  lemma DispatchByFirstChar(s: string)
    requires ReadCell(s).Ok?
    ensures Trim(s) != []
    ensures var t, c := Trim(s), ReadCell(s).value.value;
      && (c.ListCell? <==> t[0] == '(')
      && (c.StringCell? <==> t[0] == '"')
      && (c.IntCell? <==> IsDigit(t[0]))
      && (c.IdentCell? <==> t[0] != '(' && t[0] != '"' && !IsDigit(t[0]))
  {
  }

  /** Which reader the dispatcher hands the trimmed input to. */
  lemma DispatchRoutes(s: string)
    ensures var t := Trim(s);
      && (t == [] ==> ReadCell(s) == Err(EmptyInput))
      && (t != [] && t[0] == '(' ==> ReadCell(s) == ReadList(t[1..]))
      && (t != [] && t[0] == '"' ==> ReadCell(s) == ReadString(t[1..]))
      && (t != [] && IsDigit(t[0]) ==> ReadCell(s) == Ok(ReadInt(t)))
      && (t != [] && t[0] != '(' && t[0] != '"' && !IsDigit(t[0]) ==> ReadCell(s) == Ok(ReadIdent(t)))
  {
  }

  /** A nested list leaves its closing `)` unconsumed, so its leftover is
      empty or starts with `)`. */
  lemma NestedListLeavesClose(s: string)
    requires ReadCell(s).Ok? && ReadCell(s).value.value.ListCell?
    ensures ReadCell(s).value.left == [] || ReadCell(s).value.left[0] == ')'
  {
  }

  // Leftovers are suffixes

  /** The dispatcher's leftover is a suffix of its trimmed input. (That it is
      strictly shorter, which termination rests on, is `ReadCell`'s own
      contract.) */
  lemma {:induction false} CellLeftoverIsSuffix(s: string)
    requires ReadCell(s).Ok?
    ensures IsSuffix(ReadCell(s).value.left, Trim(s))
    decreases |s|, 0
  {
    var t := Trim(s);
    var left := ReadCell(s).value.left;
    if t[0] == '(' {
      ListLeftoverIsSuffix(t[1..]);
      AfterOpenSuffix(t, left);
    } else if t[0] == '"' {
      ReadStringSpec(t[1..]);
      SuffixTransitive(left, t[1..], t);
    } else if IsDigit(t[0]) {
      ReadIntSpec(t);
    } else {
      ReadIdentSpec(t);
    }
  }

  /** A suffix of the trimmed text after an opening `(` is a suffix of the
      whole, when that ends in a non-space. */
  lemma AfterOpenSuffix(t: string, left: string)
    requires t != [] && !IsWhitespace(t[|t| - 1])
    requires IsSuffix(left, Trim(t[1..]))
    ensures IsSuffix(left, t)
  {
    var u := t[1..];
    if u != [] {
      assert u[|u| - 1] == t[|t| - 1];
      TrimIsSuffix(u);
      SuffixTransitive(left, Trim(u), u);
    } else {
      assert Trim(u) == [];
    }
    SuffixTransitive(left, u, t);
  }

  /** The list reader's leftover is a suffix of its trimmed input. */
  lemma {:induction false} ListLeftoverIsSuffix(s: string)
    requires ReadList(s).Ok?
    ensures IsSuffix(ReadList(s).value.left, Trim(s))
    decreases |s|, 2
  {
    LoopLeftoverIsSuffix(Trim(s), []);
  }

  lemma {:induction false} LoopLeftoverIsSuffix(left: string, items: seq<Cell>)
    requires left != [] && !IsWhitespace(left[|left| - 1])
    requires ListLoop(left, items).Ok?
    ensures IsSuffix(ListLoop(left, items).value.left, left)
    decreases |left|, 1
  {
    if left[0] != ')' {
      var read := ReadCell(left).value;
      CellLeftoverIsSuffix(left);
      TrimIsSuffix(left);
      SuffixTransitive(read.left, Trim(left), left);
      if read.left != [] {
        LoopLeftoverIsSuffix(read.left, items + [read.value]);
        SuffixTransitive(ListLoop(read.left, items + [read.value]).value.left, read.left, left);
      }
    }
  }

  // Lists

  /** `cells` are what the dispatcher reads one after another from `left`,
      each from the leftover of the one before and none from a leftover that
      starts with `)`; `rest` is the last leftover. */
  ghost predicate ReadsInOrder(left: string, cells: seq<Cell>, rest: string)
    decreases |cells|
  {
    if cells == [] then rest == left
    else
      && left != [] && left[0] != ')'
      && ReadCell(left).Ok?
      && ReadCell(left).value.value == cells[0]
      && ReadsInOrder(ReadCell(left).value.left, cells[1..], rest)
  }

  /** What the loop of `parse_list` returns are cells read in order. */
  lemma {:induction false} LoopReadsInOrder(left: string, items: seq<Cell>)
    requires left != []
    requires ListLoop(left, items).Ok?
    ensures var r := ListLoop(left, items).value;
      ReadsInOrder(left, r.value.items[|items|..], r.left)
    decreases |left|
  {
    var r := ListLoop(left, items).value;
    if left[0] == ')' {
      assert r.value.items[|items|..] == [];
    } else {
      var read := ReadCell(left).value;
      var c, l1 := read.value, read.left;
      if l1 == [] {
        assert r.value.items[|items|..] == [c];
        assert [c][1..] == [];
      } else {
        LoopReadsInOrder(l1, items + [c]);
        DropPrefix(r.value.items, items, c);
      }
    }
  }

  lemma DropPrefix(all: seq<Cell>, items: seq<Cell>, c: Cell)
    requires items + [c] <= all
    ensures |items| < |all| && all[|items|..][0] == c
    ensures all[|items|..][1..] == all[|items| + 1..]
  {
    assert all[|items|] == (items + [c])[|items|];
  }

  /** One turn of the loop of `parse_list` after a successful read. */
  lemma LoopStep(left: string, items: seq<Cell>)
    requires left != [] && left[0] != ')' && ReadCell(left).Ok?
    ensures var read := ReadCell(left).value;
      ListLoop(left, items) ==
        if read.left == [] then Ok(Read(ListCell(items + [read.value]), []))
        else ListLoop(read.left, items + [read.value])
  {
  }

  /** Cells read in order up to a `)` or the end are what the loop returns. */
  lemma {:induction false} ReadsInOrderIsLoop(left: string, items: seq<Cell>, cells: seq<Cell>, rest: string)
    requires left != []
    requires ReadsInOrder(left, cells, rest) && (rest == [] || rest[0] == ')')
    ensures ListLoop(left, items) == Ok(Read(ListCell(items + cells), rest))
    decreases |cells|
  {
    if cells == [] {
      ReadsInOrderNone(left, items, rest);
    } else {
      var l1 := ReadCell(left).value.left;
      if l1 == [] {
        ReadsInOrderLast(left, items, cells, rest);
      } else {
        ReadsInOrderIsLoop(l1, items + [cells[0]], cells[1..], rest);
        AppendFirst(items, cells);
        ReadsInOrderNext(left, items, cells[0], l1, Ok(Read(ListCell(items + cells), rest)));
      }
    }
  }

  /** No cell read: the loop stops at once on the `)`. */
  lemma ReadsInOrderNone(left: string, items: seq<Cell>, rest: string)
    requires left != [] && ReadsInOrder(left, [], rest) && (rest == [] || rest[0] == ')')
    ensures ListLoop(left, items) == Ok(Read(ListCell(items + []), rest))
  {
    assert items + [] == items;
  }

  lemma AppendFirst(items: seq<Cell>, cells: seq<Cell>)
    requires cells != []
    ensures items + [cells[0]] + cells[1..] == items + cells
  {
  }

  /** The last cell, read with nothing left over. */
  lemma ReadsInOrderLast(left: string, items: seq<Cell>, cells: seq<Cell>, rest: string)
    requires left != [] && cells != []
    requires ReadsInOrder(left, cells, rest)
    requires ReadCell(left).value.left == []
    ensures ListLoop(left, items) == Ok(Read(ListCell(items + cells), rest))
  {
    assert cells == [cells[0]];
    LoopStep(left, items);
  }

  /** A cell read with more input left over: the loop goes on from there. */
  lemma ReadsInOrderNext(left: string, items: seq<Cell>, c: Cell, l1: string, r: Result<Read>)
    requires left != [] && left[0] != ')'
    requires ReadCell(left) == Ok(Read(c, l1)) && l1 != []
    requires ListLoop(l1, items + [c]) == r
    ensures ListLoop(left, items) == r
  {
    LoopStep(left, items);
  }

  /** A list holds exactly the cells the dispatcher reads one after another
      from the trimmed input, in source order, up to a leftover that is empty
      or starts with `)`; running out of input before a `)` is not an error. */
  lemma ListReadsInOrder(s: string, cells: seq<Cell>, rest: string)
    ensures ReadList(s) == Ok(Read(ListCell(cells), rest))
        <==> Trim(s) != [] && ReadsInOrder(Trim(s), cells, rest) && (rest == [] || rest[0] == ')')
  {
    var t := Trim(s);
    if t != [] {
      if ReadList(s) == Ok(Read(ListCell(cells), rest)) {
        LoopReadsInOrder(t, []);
        assert cells[0..] == cells;
      }
      if ReadsInOrder(t, cells, rest) && (rest == [] || rest[0] == ')') {
        ReadsInOrderIsLoop(t, [], cells, rest);
        assert [] + cells == cells;
      }
    }
  }

  lemma {:induction false} ReadsInOrderOnlyLastIsList(left: string, cells: seq<Cell>, rest: string)
    requires ReadsInOrder(left, cells, rest)
    ensures forall i :: 0 <= i < |cells| - 1 ==> !cells[i].ListCell?
    decreases |cells|
  {
    if |cells| >= 2 {
      var l1 := ReadCell(left).value.left;
      if cells[0].ListCell? {
        NestedListLeavesClose(left);
      }
      ReadsInOrderOnlyLastIsList(l1, cells[1..], rest);
      assert forall i :: 1 <= i < |cells| - 1 ==> cells[i] == cells[1..][i - 1];
    }
  }

  /** Because a nested list leaves its `)` unconsumed and the enclosing list
      stops at that `)`, only the last element of a list can itself be a
      list: whatever follows a nested list is not read into the list. */
  lemma OnlyLastIsList(s: string, cells: seq<Cell>, rest: string)
    requires ReadList(s) == Ok(Read(ListCell(cells), rest))
    ensures forall i :: 0 <= i < |cells| - 1 ==> !cells[i].ListCell?
  {
    ListReadsInOrder(s, cells, rest);
    ReadsInOrderOnlyLastIsList(Trim(s), cells, rest);
  }

  /** Without any `)` in its input the list reader always runs to the end. */
  lemma NoCloseMeansExhausted(s: string)
    requires ')' !in s
    requires ReadList(s).Ok?
    ensures ReadList(s).value.left == []
  {
    var left := ReadList(s).value.left;
    ListLeftoverIsSuffix(s);
    if left != [] {
      InSuffix(')', left, Trim(s));
      TrimKeepsCharacter(')', s);
    }
  }

  // Panics

  ghost predicate EndsWithClose(x: string) {
    x != [] && x[|x| - 1] == ')'
  }

  lemma {:induction false} CellOnClosedInput(x: string)
    requires EndsWithClose(x)
    ensures ReadCell(x).Err? ==> ReadCell(x).panic == UnterminatedString && '"' in x
    ensures ReadCell(x).Ok? ==> ReadCell(x).value.left == [] || EndsWithClose(ReadCell(x).value.left)
    decreases |x|, 0
  {
    var t := Trim(x);
    TrimIsSuffix(x);
    if t[0] == '(' {
      var u := t[1..];
      ListOnClosedInput(u);
      if ReadList(u).Err? {
        InSuffix('"', u, t);
        InSuffix('"', t, x);
      }
    } else if t[0] == '"' {
      InSuffix('"', t, x);
    }
    if ReadCell(x).Ok? {
      CellLeftoverIsSuffix(x);
    }
  }

  lemma {:induction false} ListOnClosedInput(x: string)
    requires EndsWithClose(x)
    ensures ReadList(x).Err? ==> ReadList(x).panic == UnterminatedString && '"' in x
    decreases |x|, 2
  {
    var t := Trim(x);
    TrimIsSuffix(x);
    LoopOnClosedInput(t, []);
    if ReadList(x).Err? {
      InSuffix('"', t, x);
    }
  }

  lemma {:induction false} LoopOnClosedInput(left: string, items: seq<Cell>)
    requires EndsWithClose(left)
    ensures ListLoop(left, items).Err? ==> ListLoop(left, items).panic == UnterminatedString && '"' in left
    decreases |left|, 1
  {
    if left[0] != ')' {
      CellOnClosedInput(left);
      if ReadCell(left).Ok? && ReadCell(left).value.left != [] {
        var read := ReadCell(left).value;
        LoopOnClosedInput(read.left, items + [read.value]);
        if ListLoop(read.left, items + [read.value]).Err? {
          CellLeftoverIsSuffix(left);
          TrimIsSuffix(left);
          SuffixTransitive(read.left, Trim(left), left);
          InSuffix('"', read.left, left);
        }
      }
    }
  }

  /** The entry point never panics on an empty string: the source is wrapped
      in parentheses, so every leftover ends in `)`. The only panic left is a
      string literal without its closing quote, so a source without any `"`
      always parses. */
  lemma ParseFailsOnlyOnUnterminatedString(source: string)
    ensures Parse(source).Err? ==> Parse(source).panic == UnterminatedString && '"' in source
    ensures '"' !in source ==> Parse(source).Ok?
  {
    var w := "(" + source + ")";
    CellOnClosedInput(w);
    if Parse(source).Err? {
      QuoteInWrapped(source);
    }
  }

  /** The parentheses the entry point wraps around its source are not quotes. */
  lemma QuoteInWrapped(source: string)
    requires '"' in "(" + source + ")"
    ensures '"' in source
  {
    var w := "(" + source + ")";
    var k :| 0 <= k < |w| && w[k] == '"';
    assert source[k - 1] == '"';
  }

  /** The entry point reads its source as the body of a list: the result is
      the list that the list reader reads from the source followed by `)`. */
  lemma ParseReadsOuterList(source: string)
    ensures Parse(source).Ok? <==> ReadList(source + ")").Ok?
    ensures Parse(source).Ok? ==> Parse(source).value == ReadList(source + ")").value.value
  {
    var w := "(" + source + ")";
    TrimNothingToStrip(w);
    assert w[1..] == source + ")";
  }

  // Integer width

  /** Folding one more digit into the remainder modulo 2^64 gives the
      remainder of folding it into the whole number. */
  lemma ModStep(a: nat, x: nat)
    ensures (10 * (a % UintModulus) + x) % UintModulus == (10 * a + x) % UintModulus
  {
    var q, y := a / UintModulus, 10 * (a % UintModulus) + x;
    assert 10 * a + x == (10 * q + y / UintModulus) * UintModulus + y % UintModulus;
    ModUnique(10 * a + x, 10 * q + y / UintModulus, y % UintModulus);
  }

  /** The remainder modulo 2^64 is the only one in range. */
  lemma ModUnique(n: nat, k: int, r: int)
    requires n == k * UintModulus + r && 0 <= r < UintModulus
    ensures n % UintModulus == r
  {
  }

  /** The accumulator of `parse_int` as written is the decimal value of the
      digits reduced modulo 2^64: the two agree exactly on numbers below 2^64. */
  lemma {:induction false} WrappedIsModulo(d: string)
    requires AllDigits(d)
    ensures WrappedDecimal(d) == DecimalValue(d) % UintModulus
    decreases |d|
  {
    if d != [] {
      var init := d[..|d| - 1];
      WrappedIsModulo(init);
      ModStep(DecimalValue(init), DigitValue(d[|d| - 1]));
    }
  }

  /** On the digits of any number from 2^64 up, the accumulator as written
      loses the number, while the integer reader of the model reads it. */
  lemma WrapLosesNumber(n: nat)
    requires n >= UintModulus
    ensures WrappedDecimal(ShowNat(n)) == n % UintModulus < n
    ensures ReadInt(ShowNat(n)) == Read(IntCell(n), [])
  {
    WrappedIsModulo(ShowNat(n));
    ReadIntRoundTrip(n, []);
    assert ShowNat(n) + [] == ShowNat(n);
  }

  /** The smallest such input: the digits of 2^64 wrap round to 0. */
  lemma WrapCounterexample()
    ensures WrappedDecimal(ShowNat(UintModulus)) == 0
    ensures ReadInt(ShowNat(UintModulus)).value == IntCell(UintModulus)
  {
    WrapLosesNumber(UintModulus);
  }
}
