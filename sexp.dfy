/** The tree the reader builds: one `Cell` per integer, identifier, string
    literal or parenthesised list of the source text. */
module Sexp {

  /** A parsed cell. `IntCell`, `IdentCell` and `ListCell` are the variants the
      enum declares; `StringCell` is the variant the string reader constructs. */
  datatype Cell =
    | IntCell(number: nat)
    | IdentCell(name: string)
    | ListCell(items: seq<Cell>)
    | StringCell(text: string)
}
