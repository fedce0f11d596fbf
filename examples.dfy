/** The inputs written in the comments of src/parser.rs and in the demo
    program, read by the model. Where the reader as written disagrees with a
    comment, the lemma states what it actually returns. */
module ParserExamples {
  import opened Sexp
  import opened Text
  import opened Parser
  import opened ParserProperties

  /** `parse 23 ew -> IntCell(23), " ew"` */
  lemma IntExample()
    ensures ReadInt("23 ew") == Read(IntCell(23), " ew")
  {
    ReadIntSplit("23", " ew");
  }

  /** `parse la 2 -> IdentCell("la"), " 2"` */
  lemma IdentExample()
    ensures ReadIdent("la 2") == Read(IdentCell("la"), " 2")
  {
    ReadIdentSplit("la", " 2");
  }

  /** `parse e" 2 -> StringCell("e"), " 2"` */
  lemma StringExample()
    ensures ReadString("e\" 2") == Ok(Read(StringCell("e"), " 2"))
  {
    ReadStringSplit("e", " 2");
    assert "e" + ['"'] + " 2" == "e\" 2";
  }

  /** The demo program's input: one string literal in the implicit list. */
  lemma DemoExample()
    ensures Parse("\"ef\"") == Ok(ListCell([StringCell("ef")]))
  {
    assert "\"ef\"" + ")" == "\"ef\")";
    ParseReadsOuterList("\"ef\"");
    DemoBody();
  }

  lemma DemoBody()
    ensures ReadList("\"ef\")") == Ok(Read(ListCell([StringCell("ef")]), ")"))
  {
    var body := "\"ef\")";
    TrimNothingToStrip(body);
    DemoCell();
    assert ReadsInOrder(body, [StringCell("ef")], ")");
    ListReadsInOrder(body, [StringCell("ef")], ")");
  }

  lemma DemoCell()
    ensures ReadCell("\"ef\")") == Ok(Read(StringCell("ef"), ")"))
  {
    var s := "\"ef\")";
    assert s[1..] == "ef" + ['"'] + ")";
    QuotedCell(s, "ef", ")");
  }

  /** A string literal that starts the trimmed input. */
  lemma QuotedCell(s: string, text: string, rest: string)
    requires s != [] && s[0] == '"' && !IsWhitespace(s[|s| - 1])
    requires s[1..] == text + ['"'] + rest && '"' !in text
    ensures ReadCell(s) == Ok(Read(StringCell(text), rest))
  {
    StringCellAt(s);
    ReadStringSplit(text, rest);
  }

  // How the reader as written treats closing parentheses. `digits` stands
  // for any integer literal.

  /** The `)` test looks at the untrimmed leftover: after an integer the
      leftover is ` )`, which does not start with `)`, so that `)` is read as
      an identifier and the list runs on to the end of the input. This is why
      the comment's own example `2 4 ) 2` does not stop at its `)`. */
  lemma SpacedCloseIsIdent(digits: string)
    requires digits != [] && AllDigits(digits)
    ensures ReadList(digits + " )")
      == Ok(Read(ListCell([IntCell(DecimalValue(digits)), IdentCell(")")]), ""))
  {
    var s := digits + " )";
    TrimNothingToStrip(s);
    IntCellAt(s, digits, " )");
    assert " )"[1..] == ")";
    SpacedCloseReadsIdent(" )");
    Cons(s, IntCell(DecimalValue(digits)), " )", [IdentCell(")")], "");
    ListReadsInOrder(s, [IntCell(DecimalValue(digits)), IdentCell(")")], "");
  }

  /** A `)` right after a cell ends the list, and stays at the front of the
      leftover together with everything after it. */
  lemma CloseStaysInLeftover(digits: string, tail: string)
    requires digits != [] && AllDigits(digits)
    requires tail == [] || !IsWhitespace(tail[|tail| - 1])
    ensures ReadList(digits + ")" + tail)
      == Ok(Read(ListCell([IntCell(DecimalValue(digits))]), ")" + tail))
  {
    var s := digits + ")" + tail;
    assert s == digits + (")" + tail);
    TrimNothingToStrip(s);
    IntCellAt(s, digits, ")" + tail);
    Cons(s, IntCell(DecimalValue(digits)), ")" + tail, [], ")" + tail);
    ListReadsInOrder(s, [IntCell(DecimalValue(digits))], ")" + tail);
  }

  /** Whatever follows a nested list is dropped: the nested list leaves its
      `)` in the leftover and the implicit outer list stops at it. So
      `(1) 2` parses as a list holding only the list `(1)`. */
  lemma NestedListDropsRest(digits: string, tail: string)
    requires digits != [] && AllDigits(digits)
    ensures Parse("(" + digits + ")" + tail) == Ok(ListCell([ListCell([IntCell(DecimalValue(digits))])]))
  {
    var source := "(" + digits + ")" + tail;
    NestedOuterList(source + ")", digits, tail);
    ParseOfOuter(source, ListCell([ListCell([IntCell(DecimalValue(digits))])]), ")" + (tail + ")"));
  }

  lemma NestedOuterList(outer: string, digits: string, tail: string)
    requires digits != [] && AllDigits(digits)
    requires outer == "(" + digits + ")" + tail + ")"
    ensures ReadList(outer)
      == Ok(Read(ListCell([ListCell([IntCell(DecimalValue(digits))])]), ")" + (tail + ")")))
  {
    TrimNothingToStrip(outer);
    NestedListCell(digits, tail);
    var nested := ListCell([IntCell(DecimalValue(digits))]);
    Cons(outer, nested, ")" + (tail + ")"), [], ")" + (tail + ")"));
    ListReadsInOrder(outer, [nested], ")" + (tail + ")"));
  }

  /** A white space character and a `)` are read as the identifier `)`. */
  lemma SpacedCloseReadsIdent(w: string)
    requires |w| == 2 && IsWhitespace(w[0]) && w[1] == ')'
    ensures ReadsInOrder(w, [IdentCell(w[1..])], "")
  {
    var close := w[1..];
    TrimDropsLeadingSpace(w);
    TrimNothingToStrip(close);
    IdentRoute(w);
    assert close + [] == close;
    ReadIdentSplit(close, []);
    Cons(w, IdentCell(close), [], [], []);
  }

  lemma NestedListCell(digits: string, tail: string)
    requires digits != [] && AllDigits(digits)
    ensures ReadCell("(" + digits + ")" + tail + ")")
      == Ok(Read(ListCell([IntCell(DecimalValue(digits))]), ")" + (tail + ")")))
  {
    var outer := "(" + digits + ")" + tail + ")";
    var inner := digits + ")" + (tail + ")");
    assert outer[1..] == inner;
    CloseStaysInLeftover(digits, tail + ")");
    ListCellAt(outer);
  }

  /** An identifier runs to the next space, so it swallows the closing
      parentheses after it: `(fun)` parses as a list holding a list holding
      the identifier `fun))`. */
  lemma IdentSwallowsClose(name: string)
    requires name != [] && ' ' !in name
    requires name[0] != '(' && name[0] != ')' && name[0] != '"'
    requires !IsDigit(name[0]) && !IsWhitespace(name[0])
    ensures Parse("(" + name + ")") == Ok(ListCell([ListCell([IdentCell(name + "))")])]))
  {
    var source := "(" + name + ")";
    var nested := ListCell([IdentCell(name + "))")]);
    InnerIdentList(name);
    assert (source + ")")[1..] == name + "))";
    OuterOfInner(source + ")", nested);
    ParseOfOuter(source, ListCell([nested]), "");
  }

  /** The entry point returns the list its list reader reads. */
  lemma ParseOfOuter(source: string, v: Cell, rest: string)
    requires ReadList(source + ")") == Ok(Read(v, rest))
    ensures Parse(source) == Ok(v)
  {
    ParseReadsOuterList(source);
  }

  /** The identifier with the two closing parentheses it swallowed is the
      only cell of the inner list. */
  lemma InnerIdentList(name: string)
    requires name != [] && ' ' !in name
    requires name[0] != '(' && name[0] != ')' && name[0] != '"'
    requires !IsDigit(name[0]) && !IsWhitespace(name[0])
    ensures ReadList(name + "))") == Ok(Read(ListCell([IdentCell(name + "))")]), ""))
  {
    var inner := name + "))";
    assert inner[0] == name[0] && ' ' !in inner;
    TrimNothingToStrip(inner);
    IdentCellAt(inner, inner, "");
    Cons(inner, IdentCell(inner), "", [], "");
    ListReadsInOrder(inner, [IdentCell(inner)], "");
  }

  /** A list read to the very end is the only cell of the implicit list. */
  lemma OuterOfInner(outer: string, nested: Cell)
    requires outer != [] && outer[0] == '(' && !IsWhitespace(outer[|outer| - 1])
    requires ReadList(outer[1..]) == Ok(Read(nested, ""))
    ensures ReadList(outer) == Ok(Read(ListCell([nested]), ""))
  {
    TrimNothingToStrip(outer);
    ListCellAt(outer);
    Cons(outer, nested, "", [], "");
    ListReadsInOrder(outer, [nested], "");
  }

  // Single dispatches on inputs with nothing to trim.

  /** A digit starts an integer. */
  lemma IntRoute(s: string)
    requires Trim(s) != [] && IsDigit(Trim(s)[0])
    ensures ReadCell(s) == Ok(ReadInt(Trim(s)))
  {
  }

  /** Anything that is not a list, a string or an integer is read as an
      identifier. */
  lemma IdentRoute(s: string)
    requires Trim(s) != []
    requires var c := Trim(s)[0]; c != '(' && c != '"' && !IsDigit(c)
    ensures ReadCell(s) == Ok(ReadIdent(Trim(s)))
  {
  }

  lemma StringCellAt(s: string)
    requires s != [] && s[0] == '"' && !IsWhitespace(s[|s| - 1])
    ensures ReadCell(s) == ReadString(s[1..])
  {
    TrimNothingToStrip(s);
  }

  lemma IntCellAt(s: string, digits: string, rest: string)
    requires s == digits + rest && digits != [] && AllDigits(digits)
    requires rest == [] || !IsDigit(rest[0])
    requires !IsWhitespace(s[|s| - 1])
    ensures ReadCell(s) == Ok(Read(IntCell(DecimalValue(digits)), rest))
  {
    assert s[0] == digits[0];
    TrimNothingToStrip(s);
    IntRoute(s);
    ReadIntSplit(digits, rest);
  }

  lemma IdentCellAt(s: string, name: string, rest: string)
    requires s == name + rest && name != [] && ' ' !in name
    requires name[0] != '(' && name[0] != '"' && !IsDigit(name[0]) && !IsWhitespace(name[0])
    requires rest == [] || rest[0] == ' '
    requires !IsWhitespace(s[|s| - 1])
    ensures ReadCell(s) == Ok(Read(IdentCell(name), rest))
  {
    assert s[0] == name[0];
    assert ReadCell(s) == Ok(ReadIdent(s)) by {
      TrimNothingToStrip(s);
    }
    ReadIdentSplit(name, rest);
  }

  lemma ListCellAt(s: string)
    requires s != [] && s[0] == '(' && !IsWhitespace(s[|s| - 1])
    ensures ReadCell(s) == ReadList(s[1..])
  {
    TrimNothingToStrip(s);
  }

  /** One more cell in front of a chain of reads. */
  lemma Cons(left: string, c: Cell, l1: string, cells: seq<Cell>, rest: string)
    requires left != [] && left[0] != ')'
    requires ReadCell(left) == Ok(Read(c, l1))
    requires ReadsInOrder(l1, cells, rest)
    ensures ReadsInOrder(left, [c] + cells, rest)
  {
    assert ([c] + cells)[1..] == cells;
  }
}
