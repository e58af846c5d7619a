/**
 * Spreadsheet cell values and the JavaScript notions the pipeline applies to
 * them: truthiness (`if (x)`, `x || y`), strict equality and `trim() !== ""`.
 */
module Cells {
  import opened Outcomes

  /**
   * The value of one cell. Numbers are kept integral; rich text, dates,
   * hyperlinks and formulas are `Other` objects, told apart by a tag.
   */
  datatype Cell = Null | Str(s: string) | Num(n: int) | Bool(b: bool) | Other(tag: nat)

  /** JavaScript truthiness: null, "", 0 and false are falsy; every object is truthy. */
  predicate Truthy(v: Cell)
  {
    match v
    case Null => false
    case Str(s) => s != ""
    case Num(n) => n != 0
    case Bool(b) => b
    case Other(_) => true
  }

  /** The status text both the loader and the status writer use. */
  const EmailSent: string := "email sent"

  /** The characters `String.prototype.trim` removes: white space and line terminators. */
  predicate IsJsSpace(c: char)
  {
    c == ' ' || c == '\t' || c == '\n' || c == '\r' || c == '\U{B}' || c == '\U{C}'
    || c == '\U{A0}' || c == '\U{1680}' || ('\U{2000}' <= c <= '\U{200A}')
    || c == '\U{2028}' || c == '\U{2029}' || c == '\U{202F}' || c == '\U{205F}'
    || c == '\U{3000}' || c == '\U{FEFF}'
  }

  /** `s.trim() === ""`. */
  predicate IsBlank(s: string)
  {
    forall i :: 0 <= i < |s| ==> IsJsSpace(s[i])
  }

  /**
   * `p && p.trim() !== ""` for an optional password: an absent or empty
   * password is falsy, a white-space-only one trims to "".
   */
  predicate Provided(p: Option<string>)
  {
    p.Some? && !IsBlank(p.value)
  }
}
