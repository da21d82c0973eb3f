/**
  Spreadsheet cells as the workbook reader hands them over (`values_only`
  rows), with the Python conversions the importers apply to them.
*/
module Cells {
  import opened Options
  import opened Text

  /** One cell. A float carries the text Python's `str` gives for it. */
  datatype Value = NoValue | IntValue(i: int) | FloatValue(r: real, shown: string) | StrValue(s: string) | BoolValue(b: bool)

  type Row = seq<Value>

  /** Python truthiness of a cell. */
  predicate Truthy(v: Value) {
    match v
    case NoValue => false
    case IntValue(i) => i != 0
    case FloatValue(r, _) => r != 0.0
    case StrValue(s) => s != ""
    case BoolValue(b) => b
  }

  /** `any(row)`. */
  predicate AnyTruthy(row: Row) {
    exists i :: 0 <= i < |row| && Truthy(row[i])
  }

  /** `int(r)` on a float: rounds toward zero. */
  function TruncReal(r: real): (i: int)
    ensures r >= 0.0 ==> i as real <= r < i as real + 1.0
    ensures r < 0.0 ==> i as real - 1.0 < r <= i as real
  {
    if r >= 0.0 then r.Floor else -((-r).Floor)
  }

  /** `float(v)`, or nothing where Python raises: an empty cell or text
      that is not a decimal number. */
  function FloatOf(v: Value): (r: Option<real>)
    ensures v.NoValue? ==> r.None?
    ensures v.IntValue? ==> r == Some(v.i as real)
    ensures v.FloatValue? ==> r == Some(v.r)
  {
    match v
    case NoValue => None
    case IntValue(i) => Some(i as real)
    case FloatValue(r, _) => Some(r)
    case StrValue(s) => ParseFloat(s)
    case BoolValue(b) => Some(if b then 1.0 else 0.0)
  }
}
