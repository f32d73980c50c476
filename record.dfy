/**
 * One row of the ingredient frame as the row passes see it. A cell is a
 * string or pandas' NaN, which the passes detect with `x == x`.
 */
module Record {

  datatype Field = Missing | Text(s: string)

  /** The numeric `qty` cell. */
  datatype Quantity = NoQty | Qty(value: real)

  /** The cells of a row at one moment. */
  datatype Cells = Cells(input: Field, name: Field, unit: Field, comment: Field, qty: Quantity)

  /** The text columns a pass can name in its `columns` list. */
  datatype Column = Input | Name | Unit | Comment

  function Get(c: Cells, col: Column): Field {
    match col
    case Input => c.input
    case Name => c.name
    case Unit => c.unit
    case Comment => c.comment
  }

  /** `row[col] = f`: the named cell changes and no other. */
  function Set(c: Cells, col: Column, f: Field): (r: Cells)
    ensures Get(r, col) == f && r.qty == c.qty
    ensures forall other :: other != col ==> Get(r, other) == Get(c, other)
  {
    match col
    case Input => c.(input := f)
    case Name => c.(name := f)
    case Unit => c.(unit := f)
    case Comment => c.(comment := f)
  }

  /** A row whose cells the passes assign in place. */
  class Row {
    var input: Field
    var name: Field
    var unit: Field
    var comment: Field
    var qty: Quantity

    constructor (c: Cells)
      ensures Snapshot() == c
    {
      input, name, unit, comment, qty := c.input, c.name, c.unit, c.comment, c.qty;
    }

    function Snapshot(): Cells
      reads this
    {
      Cells(input, name, unit, comment, qty)
    }

    function Cell(col: Column): Field
      reads this
    {
      Get(Snapshot(), col)
    }

    method Assign(col: Column, f: Field)
      modifies this
      ensures Snapshot() == Set(old(Snapshot()), col, f)
    {
      match col
      case Input => input := f;
      case Name => name := f;
      case Unit => unit := f;
      case Comment => comment := f;
    }
  }
}
