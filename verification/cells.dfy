/**
  The cell values of a worksheet as pandas hands them to the compressor, and
  the rectangular grid they sit in.
 */
module Cells {
  import opened Strings

  /**
    A cell value. `Missing` is pandas' NaN. `Bool` is a TRUE/FALSE cell, which
    reaches the compressor as a Python `bool`. Floats and date-times are kept
    as the text Python prints for them: the compressor only asks for their
    type, compares them for equality and prints them.
   */
  datatype Value = Missing | Int(i: int) | Bool(b: bool) | Flt(repr: string) | Text(s: string) | Date(repr: string)

  /** `type(x)` of a cell value; NaN is a Python float, and `bool` is a type of its own. */
  datatype Kind = FloatKind | IntKind | BoolKind | StrKind | DateKind

  function KindOf(v: Value): Kind
  {
    match v
    case Missing => FloatKind
    case Flt(_) => FloatKind
    case Int(_) => IntKind
    case Bool(_) => BoolKind
    case Text(_) => StrKind
    case Date(_) => DateKind
  }

  /**
    A cell's contribution to its row's or column's text length: 0 for floats
    (NaN included), ints, bools (a Python `bool` is an `int`) and date-times,
    `len(x)` for text.
   */
  function CellLength(v: Value): nat
  {
    if v.Text? then |v.s| else 0
  }

  /** `str(v)`. */
  function Str(v: Value): string
  {
    match v
    case Missing => "nan"
    case Int(i) => IntToString(i)
    case Bool(b) => if b then "True" else "False"
    case Flt(r) => r
    case Text(s) => s
    case Date(r) => r
  }

  /**
    A worksheet: `cells[r][c]`, 0-based, with the column count kept apart so
    that a sheet without rows still has a width.
   */
  datatype Grid = Grid(cells: seq<seq<Value>>, width: nat)
  {
    predicate Valid() {
      forall r :: 0 <= r < |cells| ==> |cells[r]| == width
    }

    function Height(): nat {
      |cells|
    }
  }
}
