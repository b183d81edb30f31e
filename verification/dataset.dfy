/**
 * The element table the explorer loads once and never changes: one row per
 * chemical element, with the columns the filter-and-derive pipeline reads by
 * name, and every other CSV column kept as a named cell.
 */
module Dataset {

  datatype Option<+T> = None | Some(value: T)

  /** One cell of the table: a number, a piece of text, or NaN (absent). */
  datatype Value = Num(x: real) | Text(s: string) | Absent

  /**
   * One row of the CSV. `group` and `period` are whole numbers or NaN;
   * `elementType` is the `Type` column and `radioactive` the `Radioactive`
   * column (the literal "yes" or "no", or NaN).
   */
  datatype Element = Element(
    atomicNumber: int,
    name: Option<string>,
    symbol: string,
    group: Option<int>,
    period: Option<int>,
    elementType: Option<string>,
    radioactive: Option<string>,
    properties: map<string, Value>)

  /** A column of the table, as the column pickers offer it. */
  datatype Column =
    | AtomicNumberCol
    | ElementCol
    | SymbolCol
    | GroupCol
    | PeriodCol
    | TypeCol
    | RadioactiveCol
    | Property(header: string)

  function OptionalNumber(v: Option<int>): Value {
    match v
    case None => Absent
    case Some(n) => Num(n as real)
  }

  function OptionalText(v: Option<string>): Value {
    match v
    case None => Absent
    case Some(s) => Text(s)
  }

  /** `row[column]`: the cell of a row under a column. */
  function Cell(r: Element, c: Column): Value {
    match c
    case AtomicNumberCol => Num(r.atomicNumber as real)
    case ElementCol => OptionalText(r.name)
    case SymbolCol => Text(r.symbol)
    case GroupCol => OptionalNumber(r.group)
    case PeriodCol => OptionalNumber(r.period)
    case TypeCol => OptionalText(r.elementType)
    case RadioactiveCol => OptionalText(r.radioactive)
    case Property(h) => if h in r.properties then r.properties[h] else Absent
  }

  /**
   * Whether pandas gives the column a numeric dtype. AtomicNumber, Group
   * and Period are numeric; which of the other columns are is a property
   * of the loaded file, given as the set of their headers.
   */
  predicate IsNumeric(c: Column, numericHeaders: set<string>) {
    match c
    case AtomicNumberCol => true
    case GroupCol => true
    case PeriodCol => true
    case Property(h) => h in numericHeaders
    case _ => false
  }

  /** The shipped dataset lists the elements by ascending atomic number. */
  predicate AscendingByAtomicNumber(rows: seq<Element>) {
    forall i, j :: 0 <= i < j < |rows| ==> rows[i].atomicNumber < rows[j].atomicNumber
  }
}
