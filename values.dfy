/** Cell values of a data frame as the analysis script sees them. */
module Values {

  /** The usual present/absent wrapper; `None` is pandas' NaN in a numeric column. */
  datatype Option<+T> = None | Some(value: T)

  /** One spreadsheet cell: text, a number (exact, not floating point) or missing (NaN). */
  datatype Cell = Str(s: string) | Num(x: real) | Null
}
