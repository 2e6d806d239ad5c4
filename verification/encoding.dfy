/**
  The encoding stage: one (address, value, format) record per cell of the
  pruned sheet, in row-major order, with the style flags of `get_format`.
 */
module Encoding {
  import opened Wrappers
  import opened Cells
  import opened ColumnLetters

  /** An xlrd font record; only its weight is read. */
  datatype Font = Font(bold: bool)

  /**
    The parts of an xlrd XF (extended format) record that `get_format`
    reads: the four border line styles (0 means no line), the background
    colour index and the font index.
   */
  datatype XF = XF(topLine: nat, bottomLine: nat, leftLine: nat, rightLine: nat,
                   backgroundColour: int, fontIndex: nat)

  /**
    The workbook as `encode` sees it: the XF index of every cell of sheet 0,
    the XF list and the font list.
   */
  datatype Workbook = Workbook(xfIndex: seq<seq<nat>>, xfList: seq<XF>, fonts: seq<Font>)

  /** The colour index xlrd reports for "no fill". */
  const NoFill: int := 65

  /** The style flags `get_format` can emit, declared in the order it emits them. */
  datatype Flag = TopBorder | BottomBorder | LeftBorder | RightBorder | FillColor | FontBold

  /** The flag's text in the output table. */
  function Label(f: Flag): string
  {
    match f
    case TopBorder => "Top Border"
    case BottomBorder => "Bottom Border"
    case LeftBorder => "Left Border"
    case RightBorder => "Right Border"
    case FillColor => "Fill Color"
    case FontBold => "Font Bold"
  }

  /** Position of a flag in the fixed emission order. */
  function Rank(f: Flag): nat
  {
    match f
    case TopBorder => 0
    case BottomBorder => 1
    case LeftBorder => 2
    case RightBorder => 3
    case FillColor => 4
    case FontBold => 5
  }

  /** Distinct flags have distinct labels, so the text form loses nothing. */
  lemma LabelsDistinct(f: Flag, h: Flag)
    ensures Label(f) == Label(h) ==> f == h
  {
    if Label(f) == Label(h) {
      assert Label(f)[0] == Label(h)[0];
      if f.TopBorder? || f.BottomBorder? || f.LeftBorder? || f.RightBorder? || f.FillColor? || f.FontBold? {
        assert Label(f)[1] == Label(h)[1];
      }
    }
  }

  /** The flags come in the fixed order, each at most once. */
  predicate InFlagOrder(flags: seq<Flag>)
  {
    forall i, j :: 0 <= i < j < |flags| ==> Rank(flags[i]) < Rank(flags[j])
  }

  /** The flag of rank k. */
  function FlagOfRank(k: nat): (f: Flag)
    requires k < 6
    ensures Rank(f) == k
  {
    [TopBorder, BottomBorder, LeftBorder, RightBorder, FillColor, FontBold][k]
  }

  /** Whether the style carries flag `f`. */
  predicate On(xf: XF, fonts: seq<Font>, f: Flag)
    requires xf.fontIndex < |fonts|
  {
    match f
    case TopBorder => xf.topLine != 0
    case BottomBorder => xf.bottomLine != 0
    case LeftBorder => xf.leftLine != 0
    case RightBorder => xf.rightLine != 0
    case FillColor => xf.backgroundColour != NoFill
    case FontBold => fonts[xf.fontIndex].bold
  }

  /** The flags of rank k and above that the style carries, in rank order. */
  function FlagsFrom(xf: XF, fonts: seq<Font>, k: nat): seq<Flag>
    requires xf.fontIndex < |fonts|
    decreases 6 - k
  {
    if k >= 6 then []
    else (if On(xf, fonts, FlagOfRank(k)) then [FlagOfRank(k)] else []) + FlagsFrom(xf, fonts, k + 1)
  }

  /** `FlagsFrom(xf, fonts, k)` holds exactly the carried flags of rank k and above. */
  lemma {:induction false} FlagsFromMembers(xf: XF, fonts: seq<Font>, k: nat)
    requires xf.fontIndex < |fonts|
    ensures forall f :: f in FlagsFrom(xf, fonts, k) <==> Rank(f) >= k && On(xf, fonts, f)
    decreases 6 - k
  {
    if k < 6 {
      var f := FlagOfRank(k);
      FlagsFromMembers(xf, fonts, k + 1);
      assert forall h :: Rank(h) >= k ==> h == f || Rank(h) >= k + 1;
    }
  }

  /** `FlagsFrom(xf, fonts, k)` lists flags of rank k and above, in rank order. */
  lemma {:induction false} FlagsFromOrder(xf: XF, fonts: seq<Font>, k: nat)
    requires xf.fontIndex < |fonts|
    ensures forall i :: 0 <= i < |FlagsFrom(xf, fonts, k)| ==> Rank(FlagsFrom(xf, fonts, k)[i]) >= k
    ensures InFlagOrder(FlagsFrom(xf, fonts, k))
    decreases 6 - k
  {
    if k < 6 {
      FlagsFromOrder(xf, fonts, k + 1);
    }
  }

  /** `get_format(xf, wb)`: the border, fill and bold flags of one cell style. */
  function GetFormat(xf: XF, fonts: seq<Font>): seq<Flag>
    requires xf.fontIndex < |fonts|
  {
    FlagsFrom(xf, fonts, 0)
  }

  /** Each flag is present exactly when the style has that border, fill or weight, in the fixed order. */
  lemma GetFormatFlags(xf: XF, fonts: seq<Font>)
    requires xf.fontIndex < |fonts|
    ensures TopBorder in GetFormat(xf, fonts) <==> xf.topLine != 0
    ensures BottomBorder in GetFormat(xf, fonts) <==> xf.bottomLine != 0
    ensures LeftBorder in GetFormat(xf, fonts) <==> xf.leftLine != 0
    ensures RightBorder in GetFormat(xf, fonts) <==> xf.rightLine != 0
    ensures FillColor in GetFormat(xf, fonts) <==> xf.backgroundColour != NoFill
    ensures FontBold in GetFormat(xf, fonts) <==> fonts[xf.fontIndex].bold
    ensures InFlagOrder(GetFormat(xf, fonts))
  {
    FlagsFromMembers(xf, fonts, 0);
    FlagsFromOrder(xf, fonts, 0);
  }

  /** One row of `encode`'s output table. */
  datatype Record = Record(address: string, value: Value, format: seq<Flag>)

  /**
    The workbook describes every cell position of the `g`-shaped sheet:
    sheet 0 has an XF index there, that XF exists and so does its font.
    `encode` reads sheet 0 at the pruned coordinates, so this is what it
    needs of sheet 0 not to fail.
   */
  predicate Describes(wb: Workbook, g: Grid)
  {
    && |wb.xfIndex| >= |g.cells|
    && (forall r :: 0 <= r < |g.cells| ==> |wb.xfIndex[r]| >= g.width)
    && (forall r, c :: 0 <= r < |wb.xfIndex| && 0 <= c < |wb.xfIndex[r]| ==> wb.xfIndex[r][c] < |wb.xfList|)
    && (forall x :: 0 <= x < |wb.xfList| ==> wb.xfList[x].fontIndex < |wb.fonts|)
  }

  /** The style flags of sheet 0's cell (r, c). */
  function FormatAt(wb: Workbook, g: Grid, r: nat, c: nat): seq<Flag>
    requires Describes(wb, g) && r < |g.cells| && c < g.width
  {
    GetFormat(wb.xfList[wb.xfIndex[r][c]], wb.fonts)
  }

  /** The record of cell (r, c) of the (pruned) sheet `g`. */
  function CellRecord(wb: Workbook, g: Grid, r: nat, c: nat): Record
    requires g.Valid() && Describes(wb, g) && r < g.Height() && c < g.width
  {
    Record(Address(r, c), g.cells[r][c], FormatAt(wb, g, r, c))
  }

  function RowRecords(wb: Workbook, g: Grid, r: nat): (rs: seq<Record>)
    requires g.Valid() && Describes(wb, g) && r < g.Height()
    ensures |rs| == g.width
  {
    seq(g.width, c requires 0 <= c < g.width => CellRecord(wb, g, r, c))
  }

  /** The rows of records of the whole sheet. */
  function RecordRows(wb: Workbook, g: Grid): (rows: seq<seq<Record>>)
    requires g.Valid() && Describes(wb, g)
    ensures |rows| == g.Height()
    ensures forall r :: 0 <= r < |rows| ==> rows[r] == RowRecords(wb, g, r)
  {
    seq(g.Height(), r requires 0 <= r < g.Height() => RowRecords(wb, g, r))
  }

  /** The rows laid end to end, first row first. */
  function Flatten<T>(rows: seq<seq<T>>): seq<T>
  {
    if |rows| == 0 then [] else Flatten(rows[..|rows| - 1]) + rows[|rows| - 1]
  }

  /** The number of items in `rows` full rows of `n` items, counted row by row. */
  function Offset(rows: nat, n: nat): nat
  {
    if rows == 0 then 0 else Offset(rows - 1, n) + n
  }

  lemma {:induction false} OffsetIsProduct(rows: nat, n: nat)
    ensures Offset(rows, n) == rows * n
  {
    if rows > 0 {
      OffsetIsProduct(rows - 1, n);
    }
  }

  lemma {:induction false} OffsetMonotone(a: nat, b: nat, n: nat)
    requires a < b
    ensures Offset(a, n) + n <= Offset(b, n)
    decreases b - a
  {
    if a + 1 < b {
      OffsetMonotone(a, b - 1, n);
    }
  }

  lemma AppendIndex<T>(a: seq<T>, b: seq<T>, c: nat)
    requires c < |b|
    ensures (a + b)[|a| + c] == b[c]
  {
  }

  lemma AppendIndexLeft<T>(a: seq<T>, b: seq<T>, i: nat)
    requires i < |a|
    ensures (a + b)[i] == a[i]
  {
  }

  /** Appending the next item of `s` extends the prefix taken from it. */
  lemma ExtendPrefix<T>(a: seq<T>, s: seq<T>, c: nat)
    requires c < |s|
    ensures a + s[..c] + [s[c]] == a + s[..c + 1]
  {
    assert s[..c + 1] == s[..c] + [s[c]];
  }

  lemma PrefixStep<T>(s: seq<T>, c: nat)
    requires c < |s|
    ensures s[..c] + [s[c]] == s[..c + 1]
  {
  }

  /** Flattening one more row appends that row whole. */
  lemma FlattenStep<T>(rows: seq<seq<T>>, r: nat)
    requires r < |rows|
    ensures Flatten(rows[..r + 1]) == Flatten(rows[..r]) + rows[r][..|rows[r]|]
  {
    assert rows[..r + 1][..r] == rows[..r];
    assert rows[r][..|rows[r]|] == rows[r];
  }

  /**
    Where item c of row r lands when rows of n items are laid end to end:
    r * n + c, counted without multiplication (see `OffsetIsProduct`).
   */
  function Slot(r: nat, c: nat, n: nat): nat
  {
    Offset(r, n) + c
  }

  /** Row-major layout: item c of row r follows the r full rows before it. */
  lemma {:induction false} FlattenLayout<T>(rows: seq<seq<T>>, n: nat)
    requires forall r :: 0 <= r < |rows| ==> |rows[r]| == n
    ensures |Flatten(rows)| == Offset(|rows|, n)
    ensures forall r: nat, c: nat :: r < |rows| && c < n ==>
      Slot(r, c, n) < |Flatten(rows)| && Flatten(rows)[Slot(r, c, n)] == rows[r][c]
    decreases |rows|
  {
    if |rows| > 0 {
      var k := |rows| - 1;
      var prev, last := Flatten(rows[..k]), rows[k];
      FlattenLayout(rows[..k], n);
      assert Flatten(rows) == prev + last;
      forall r: nat, c: nat | r < |rows| && c < n
        ensures Slot(r, c, n) < |Flatten(rows)| && Flatten(rows)[Slot(r, c, n)] == rows[r][c]
      {
        if r < k {
          OffsetMonotone(r, k, n);
          assert prev[Slot(r, c, n)] == rows[..k][r][c] == rows[r][c];
          AppendIndexLeft(prev, last, Slot(r, c, n));
        } else {
          assert Offset(r, n) == |prev|;
          AppendIndex(prev, last, c);
        }
      }
    }
  }

  lemma FlattenLength<T>(rows: seq<seq<T>>, n: nat)
    requires forall i :: 0 <= i < |rows| ==> |rows[i]| == n
    ensures |Flatten(rows)| == Offset(|rows|, n)
  {
    FlattenLayout(rows, n);
  }

  lemma FlattenAt<T>(rows: seq<seq<T>>, n: nat, r: nat, c: nat)
    requires forall i :: 0 <= i < |rows| ==> |rows[i]| == n
    requires r < |rows| && c < n
    ensures Offset(r, n) + c < |Flatten(rows)| && Flatten(rows)[Offset(r, n) + c] == rows[r][c]
  {
    FlattenLayout(rows, n);
    assert Slot(r, c, n) == Offset(r, n) + c;
  }

  /**
    The inner loop of `encode(wb, sheet)`: the records of row `r`, column by
    column, each with the style read from sheet 0 at the same (pruned)
    coordinates.
   */
  method EncodeRow(wb: Workbook, g: Grid, r: nat) returns (row: seq<Record>)
    requires g.Valid() && Describes(wb, g) && r < g.Height()
    ensures row == RowRecords(wb, g, r)
  {
    ghost var want := RowRecords(wb, g, r);
    row := [];
    var c := 0;
    while c < g.width
      invariant 0 <= c <= g.width
      invariant row == want[..c]
    {
      var style := wb.xfList[wb.xfIndex[r][c]];
      var record := Record(Address(r, c), g.cells[r][c], GetFormat(style, wb.fonts));
      assert record == want[c];
      PrefixStep(want, c);
      row := row + [record];
      c := c + 1;
    }
    assert want[..c] == want;
  }

  /** Row-major order: cell (r, c) of the record rows sits at slot r * width + c. */
  lemma RecordLayout(wb: Workbook, g: Grid)
    requires g.Valid() && Describes(wb, g)
    ensures |Flatten(RecordRows(wb, g))| == g.Height() * g.width
    ensures forall r: nat, c: nat :: r < g.Height() && c < g.width ==>
      Slot(r, c, g.width) < |Flatten(RecordRows(wb, g))| && Flatten(RecordRows(wb, g))[Slot(r, c, g.width)] == CellRecord(wb, g, r, c)
  {
    var rows := RecordRows(wb, g);
    FlattenLayout(rows, g.width);
    OffsetIsProduct(g.Height(), g.width);
    forall r: nat, c: nat | r < g.Height() && c < g.width
      ensures rows[r][c] == CellRecord(wb, g, r, c)
    {
      assert rows[r][c] == RowRecords(wb, g, r)[c];
    }
  }

  /**
    `encode(wb, sheet)`: walks the pruned sheet row by row, appending one
    record per cell, so that cell (r, c) lands at slot r * width + c.
   */
  method Encode(wb: Workbook, g: Grid) returns (markdown: seq<Record>)
    requires g.Valid() && Describes(wb, g)
    ensures |markdown| == g.Height() * g.width
    ensures forall r: nat, c: nat :: r < g.Height() && c < g.width ==>
      Slot(r, c, g.width) < |markdown| && markdown[Slot(r, c, g.width)] == CellRecord(wb, g, r, c)
  {
    markdown := [];
    ghost var rows := RecordRows(wb, g);
    var r := 0;
    while r < g.Height()
      invariant 0 <= r <= g.Height()
      invariant markdown == Flatten(rows[..r])
    {
      var row := EncodeRow(wb, g, r);
      assert row == rows[r];
      FlattenStep(rows, r);
      markdown := markdown + row;
      r := r + 1;
    }
    assert rows[..r] == rows;
    RecordLayout(wb, g);
  }

  /** Every record's address reads back as the (re-indexed) cell it describes. */
  lemma AddressesReadBack(wb: Workbook, g: Grid, r: nat, c: nat)
    requires g.Valid() && Describes(wb, g) && r < g.Height() && c < g.width
    ensures ParseAddress(CellRecord(wb, g, r, c).address) == Some((r, c))
  {
    AddressRoundTrip(r, c);
  }
}
