/**
  `compress_spreadsheet`: the sheet as pandas reads it, after the
  column-wise newline replacement (which also turns the non-text cells of a
  mixed text column into NaN), gets its column labels back as row 0, then goes through the stages in the order the
  wrapper runs them: anchor selection, encoding, a category per record, the
  value-to-category dictionary, area aggregation and the inverted index.
  A `RecursionError` during aggregation ends the run with no result.
 */
module Pipeline {
  import opened Wrappers
  import opened Cells
  import opened Categories
  import opened Anchors
  import opened Encoding
  import opened InvertedIndex
  import opened Aggregation

  /**
    `sheet.loc[-1] = sheet.columns`, then the index shift and sort: the
    column labels become row 0 and every other row moves down by one.
   */
  function PromoteHeader(header: seq<Value>, body: Grid): (g: Grid)
    requires |header| == body.width
    ensures body.Valid() ==> g.Valid()
    ensures g.width == body.width && g.Height() == body.Height() + 1
    ensures g.cells[0] == header
    ensures forall r :: 0 <= r < body.Height() ==> g.cells[r + 1] == body.cells[r]
  {
    Grid([header] + body.cells, body.width)
  }

  /** `markdown['Value'].apply(get_category)`, as label text. */
  function Categorised(markdown: seq<Record>, guess: string -> Option<string>): (category: seq<string>)
    ensures |category| == |markdown|
  {
    seq(|markdown|, i requires 0 <= i < |markdown| => CategoryText(GetCategory(markdown[i].value, guess)))
  }

  /** The category of every cell of a sheet, as label text. */
  function CategoryGrid(g: Grid, guess: string -> Option<string>): (labels: seq<seq<string>>)
    requires g.Valid()
    ensures Rect(labels, g.width) && |labels| == g.Height()
  {
    seq(g.Height(), r requires 0 <= r < g.Height() =>
      seq(g.width, c requires 0 <= c < g.width => CategoryText(GetCategory(g.cells[r][c], guess))))
  }

  /** A workbook that describes a sheet describes any smaller one. */
  lemma DescribesSmaller(wb: Workbook, g: Grid, p: Grid)
    requires Describes(wb, g) && p.Height() <= g.Height() && p.width <= g.width
    ensures Describes(wb, p)
  {
  }

  /** The pruned sheet is no larger than the sheet, so a workbook that describes the sheet describes it too. */
  lemma DescribesPruned(wb: Workbook, g: Grid)
    requires g.Valid() && Describes(wb, g)
    ensures Describes(wb, Prune(g, RetainedRows(g), RetainedColumns(g)))
  {
    RetainedFits(RowPivots(g), g.Height());
    RetainedFits(ColumnPivots(g), g.width);
    var p := Prune(g, RetainedRows(g), RetainedColumns(g));
    DescribesSmaller(wb, g, p);
  }

  /** Every cell's value has a record, so the dictionary knows it, with the category of the value. */
  lemma CellsCategorised(wb: Workbook, g: Grid, markdown: seq<Record>, guess: string -> Option<string>)
    requires g.Valid() && Describes(wb, g)
    requires |markdown| == g.Height() * g.width
    requires forall r: nat, c: nat :: r < g.Height() && c < g.width ==>
      Slot(r, c, g.width) < |markdown| && markdown[Slot(r, c, g.width)] == CellRecord(wb, g, r, c)
    ensures forall r, c :: 0 <= r < g.Height() && 0 <= c < g.width ==>
      var dictionary := CategoryMap(markdown, Categorised(markdown, guess));
      g.cells[r][c] in dictionary && dictionary[g.cells[r][c]] == CategoryText(GetCategory(g.cells[r][c], guess))
  {
    var category := Categorised(markdown, guess);
    var dictionary := CategoryMap(markdown, category);
    CategoryMapKeys(markdown, category);
    CategoryMapOfValues(markdown, category, guess);
    forall r, c | 0 <= r < g.Height() && 0 <= c < g.width
      ensures g.cells[r][c] in dictionary && dictionary[g.cells[r][c]] == CategoryText(GetCategory(g.cells[r][c], guess))
    {
      var k := Slot(r, c, g.width);
      assert ValuesOf(markdown)[k] == g.cells[r][c];
    }
  }

  /**
    The dictionary `inverted_category` builds from the encoded sheet knows
    every cell's value, and `replace_nan` then gives each cell exactly its
    own category: blanks are "Other" either way.
   */
  lemma LabelsAreCategories(wb: Workbook, g: Grid, markdown: seq<Record>, guess: string -> Option<string>)
    requires g.Valid() && Describes(wb, g)
    requires |markdown| == g.Height() * g.width
    requires forall r: nat, c: nat :: r < g.Height() && c < g.width ==>
      Slot(r, c, g.width) < |markdown| && markdown[Slot(r, c, g.width)] == CellRecord(wb, g, r, c)
    ensures Labelled(g, CategoryMap(markdown, Categorised(markdown, guess)))
    ensures LabelGrid(g, CategoryMap(markdown, Categorised(markdown, guess))) == CategoryGrid(g, guess)
  {
    CellsCategorised(wb, g, markdown, guess);
    LabelsMatch(g, CategoryMap(markdown, Categorised(markdown, guess)), guess);
  }

  /** A dictionary holding every cell's own category labels the sheet with those categories. */
  lemma LabelsMatch(g: Grid, dictionary: map<Value, string>, guess: string -> Option<string>)
    requires g.Valid()
    requires forall r, c :: 0 <= r < g.Height() && 0 <= c < g.width ==>
      g.cells[r][c] in dictionary && dictionary[g.cells[r][c]] == CategoryText(GetCategory(g.cells[r][c], guess))
    ensures Labelled(g, dictionary)
    ensures LabelGrid(g, dictionary) == CategoryGrid(g, guess)
  {
    assert Labelled(g, dictionary);
    var labels := LabelGrid(g, dictionary);
    var expected := CategoryGrid(g, guess);
    forall r | 0 <= r < g.Height() ensures labels[r] == expected[r] {
      forall c | 0 <= c < g.width ensures labels[r][c] == expected[r][c] {
        assert labels[r][c] == LabelOf(g.cells[r][c], dictionary);
      }
    }
  }

  /** What one run returns: the areas and the inverted index. */
  datatype Compressed = Compressed(areas: seq<Area>, index: seq<Entry>)

  /** `entries` is the inverted index of `markdown`: one entry per distinct present value, in first-seen order. */
  ghost predicate IndexOf(markdown: seq<Record>, entries: seq<Entry>)
  {
    |entries| == |Present(FirstOccurrences(ValuesOf(markdown)))| &&
    forall i :: 0 <= i < |entries| ==>
      var k := Present(FirstOccurrences(ValuesOf(markdown)))[i];
      |AddressesOf(markdown, k)| > 0 && entries[i] == Entry(k, CombineCells(AddressesOf(markdown, k)))
  }

  /**
    `compress_spreadsheet` on the sheet `body` with column labels `header`
    from workbook `wb`; `body` is the sheet after the newline replacement,
    so the non-text cells of a mixed text column are already `Missing`. `guess` is pandas' date-format guesser and
    `budget` the depth of nested searches the interpreter allows.
   */
  method CompressSpreadsheet(wb: Workbook, header: seq<Value>, body: Grid, guess: string -> Option<string>, budget: nat)
    returns (result: Option<Compressed>, sheet: Grid, markdown: seq<Record>,
             ghost seeds: seq<Cell>, ghost comps: seq<set<Cell>>)
    requires body.Valid() && |header| == body.width
    requires Describes(wb, PromoteHeader(header, body))
    ensures var g := PromoteHeader(header, body); sheet == Prune(g, RetainedRows(g), RetainedColumns(g))
    ensures sheet.Valid() && Describes(wb, sheet)
    ensures |markdown| == sheet.Height() * sheet.width
    ensures forall r: nat, c: nat :: r < sheet.Height() && c < sheet.width ==>
      Slot(r, c, sheet.width) < |markdown| && markdown[Slot(r, c, sheet.width)] == CellRecord(wb, sheet, r, c)
    ensures budget >= sheet.Height() * sheet.width ==> result.Some?
    ensures result.Some? ==> Aggregated(CategoryGrid(sheet, guess), sheet.width, result.value.areas, seeds, comps)
    ensures result.Some? ==> IndexOf(markdown, result.value.index)
  {
    var promoted := PromoteHeader(header, body);
    var compressor := new SheetCompressor();
    var pruned := compressor.Anchor(promoted);
    sheet := pruned;
    DescribesPruned(wb, promoted);
    var records := Encode(wb, pruned);
    markdown := records;
    var category := Categorised(records, guess);
    var dictionary := InvertedCategory(records, category);
    LabelsAreCategories(wb, pruned, records, guess);
    var areas;
    areas, seeds, comps := IdenticalCellAggregation(pruned, dictionary, budget);
    if areas.None? {
      return None, sheet, markdown, seeds, comps;
    }
    var index := InvertedIndex.InvertedIndex(records);
    result := Some(Compressed(areas.value, index));
  }
}
