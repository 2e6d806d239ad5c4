# docQuest core, modelled in Dafny

docQuest is a document question-answering front end. This project models the
parts of it that compute rather than talk to services:

- **Spreadsheet compression** (`SpreadsheetParser.py`, after SpreadsheetLLM).
  `compress_spreadsheet` does the following stages in order:
  - It promotes the column labels to row 0.
  - A fresh `SheetCompressor` keeps only the rows and columns near structural anchors. Anchors are indices where the cell-type signature changes and the text length is a two-sigma outlier, plus both borders, each widened by K = 4.
  - It encodes the pruned sheet as row-major (address, value, format) records.
  - It classifies every value with a first-match-wins pattern cascade.
  - It groups same-category cells into 4-connected areas with their bounding boxes.
  - It builds an inverted index, value → "first:last" address range.
  - `write_areas` and `write_dict` turn the results into text.
- **PDF page pipeline** (`pdf_processing.py`, `utils/pdf_processing.py`):
  - text cleaning: punctuation and stop words removed, whitespace normalised;
  - the five-page batch plan;
  - the page record and its summary;
  - the image entries of one page;
  - the final sort of the collected pages by page number.
- **Office conversion** (`file_conversion.py`): the extension → MIME table, `get_mime_type`, and the guard and response handling of `convert_office_to_pdf`.
- **Chat front end** (`main.py`): the Word export of one question and answer, as a list of blocks, and the filter that picks the new uploads.

Modules, one per file:

| module | contents |
|---|---|
| `Wrappers` | `Option`, `Result` |
| `Strings` | Python whitespace, `str.split()` / `' '.join`, `lower`, `replace`, `split(sep)`, decimal numerals |
| `Cells` | cell values `Missing \| Int \| Bool \| Flt \| Text \| Date`, their Python type and text length, the grid |
| `ColumnLetters` | spreadsheet column letters (bijective base 26) and cell addresses, with their parser |
| `Anchors` | the specification of the anchor stages, and the `SheetCompressor` class whose four fields its methods update in place |
| `Encoding` | `get_format` and `encode` |
| `Categories` | `get_category` and its patterns |
| `Aggregation` | `identical_cell_aggregation`: the row-major sweep and the depth-first search on a `visited` matrix, kept recursive like `dfs` (`Dfs`/`Extend`) with a recursion budget rather than rewritten as an explicit worklist |
| `InvertedIndex` | `inverted_index` and `inverted_category` |
| `Pipeline` | header promotion and `compress_spreadsheet` |
| `Serialise` | `write_areas` and `write_dict` string building, with parsers that read the text back |
| `PdfProcessing` | the batch pipeline's cleaning, batching, page record and sort |
| `PdfUtils` | the single-page helper: whitespace cleaning and the image entries |
| `FileConversion` | MIME lookup and conversion request |
| `ChatExport` | the Word export blocks and the upload filter |

Three behaviours of the source as written are proved as they are.
- In `get_category`, `""`, `"+"`, `"-"` and `"."` are Floats, because every part of `^[-+]?\d*\.?\d*$` is optional.
- The scientific-notation pattern starts with `'\b'`, which in a non-raw Python string is the backspace character. So "Scientific Notation" is only reported for text that begins with a backspace, and `"1e5"` never gets it.
- `combine_cells` spans from the first to the last address of a value, whatever lies between.

## Model

| member | source | states |
|---|---|---|
| Anchors.SheetCompressor.constructor | SpreadsheetParser.py:16-20 | a new compressor has empty candidate lists and empty length tables |
| Anchors.SheetCompressor.GetDtypeRow | SpreadsheetParser.py:62-67 | appends to `rowCandidates` exactly the row indices whose type signature differs from the previous one, in scan order |
| Anchors.SheetCompressor.GetDtypeColumn | SpreadsheetParser.py:69-74 | the same for columns and `columnCandidates` |
| Anchors.DtypeChangesSpec | SpreadsheetParser.py:62-74 | the recorded indices are strictly increasing, in range, and an index is recorded iff its signature differs from its predecessor's (the empty list before index 0) |
| Anchors.FirstIndexAlwaysChanges | SpreadsheetParser.py:63-67 | with at least one column, index 0 is always the first candidate |
| Anchors.SheetCompressor.GetLengthRow | SpreadsheetParser.py:77-85 | leaves in `rowLengths` exactly the two-sigma outlier rows, each with its text length |
| Anchors.SheetCompressor.GetLengthColumn | SpreadsheetParser.py:87-95 | the same for columns and `columnLengths` |
| Anchors.OutliersSpec | SpreadsheetParser.py:77-95 | an index is in the outlier table iff its length is an outlier, and it maps to that length |
| Anchors.OutlierIsOutsideTwoSigma | SpreadsheetParser.py:81-85 | the exact integer test (n·v − S)² > 4(n·Q − S²) holds iff the length lies strictly outside [mean − 2σ, mean + 2σ] with population σ |
| Anchors.EqualLengthsNoOutliers | SpreadsheetParser.py:77-95 | when all lengths are equal, no index is an outlier |
| Anchors.SheetCompressor.Scan | SpreadsheetParser.py:103-106 | on a fresh compressor, the four scans leave the type-change lists and the outlier tables of the sheet |
| Anchors.SelectAxis | SpreadsheetParser.py:109-122 | intersecting, adding the borders, widening by K, de-duplicating and clipping one axis yields the retained indices of its pivots |
| Anchors.PivotsAreBothCandidates | SpreadsheetParser.py:109-110 | pivots are ascending, and an index is a pivot iff it is both a type-change index and a length outlier |
| Anchors.RetainedSpec | SpreadsheetParser.py:113-122 | retained indices are strictly increasing, in [0, n), include 0 and n − 1, and are exactly the in-range indices within K of a pivot or a border |
| Anchors.RetainedFits | SpreadsheetParser.py:121-122 | at most n retained indices, all inside the axis |
| Anchors.NoPivotsKeepsBorders | SpreadsheetParser.py:113-122 | without pivots, exactly the indices x ≤ K or x ≥ n − 1 − K are kept |
| Anchors.UniformRowsKeepOnlyBorders | SpreadsheetParser.py:77-122 | a sheet whose rows all have the same text length keeps only the first and last K + 1 rows |
| Anchors.Selected | SpreadsheetParser.py:109-122 | what `anchor` keeps from the scans is the retained rows and columns of the sheet, all inside it |
| Anchors.Prune | SpreadsheetParser.py:124-128 | the pruned sheet is \|rows\| × \|cols\| with cell (i, j) = sheet[rows[i]][cols[j]], re-indexed from 0 |
| Anchors.SheetCompressor.Anchor | SpreadsheetParser.py:97-130 | the candidate fields end as the retained rows and columns, the length fields as the outlier tables, and the result is the pruned sheet |
| Encoding.LabelsDistinct | SpreadsheetParser.py:28-45 | distinct style flags have distinct texts |
| Encoding.GetFormatFlags | SpreadsheetParser.py:23-47 | each border flag is present iff that line style is non-zero, Fill Color iff the colour index ≠ 65, Font Bold iff the cell's font is bold, all in the fixed order |
| Encoding.FlagsFromMembers | SpreadsheetParser.py:27-45 | the flags emitted from a given position on are exactly the carried flags of that rank or later |
| Encoding.EncodeRow | SpreadsheetParser.py:54-58 | the inner loop produces one record per column of the row |
| Encoding.Encode | SpreadsheetParser.py:50-59 | exactly one record per pruned cell, H·W in all, cell (r, c) at slot r·W + c, with its address, value and the style of sheet 0's cell (r, c) |
| Encoding.RecordLayout | SpreadsheetParser.py:53-58 | the flattened record rows have H·W entries in row-major order |
| Encoding.FlattenLayout | SpreadsheetParser.py:53-58 | item c of row r of equal-width rows sits at slot r·n + c of their concatenation |
| Encoding.AddressesReadBack | SpreadsheetParser.py:55 | every record's address parses back to the re-indexed coordinates of its cell |
| ColumnLetters.ColNumberOfLetters | SpreadsheetParser.py:55 | column letters of a positive number read back as that number |
| ColumnLetters.ColLettersOfNumber | SpreadsheetParser.py:287-288 | every non-empty upper-case word is the column letters of its number |
| ColumnLetters.AddressRoundTrip | SpreadsheetParser.py:55 | letters of c + 1 then the decimal of r + 1 parse back to (r, c) |
| Strings.DecimalRoundTrip | SpreadsheetParser.py:55 | `str(n)` of a natural number reads back as n |
| Categories.GetCategory | SpreadsheetParser.py:165-173 | missing → Other, float → Float, int and bool (a Python `bool` is an `int`) → Integer, datetime → the date label, text → the cascade; the result is never empty text |
| Categories.CascadeIsFirstMatch | SpreadsheetParser.py:174-188 | the text cascade is the first rule that matches, in the order Integer, Float, Percentage, Currency, Scientific Notation, Email, then the guessed date format, then Other |
| Categories.FirstMatchSpec | SpreadsheetParser.py:174-185 | first-match answers iff some rule holds, with the verdict of the earliest one |
| Categories.TypicalTexts | SpreadsheetParser.py:174-185 | "123" → Integer, "12.5" → Float, "45%" → Percentage, "$12.34" → Currency, "a@b.com" → Email |
| Categories.DigitsAreIntegers | SpreadsheetParser.py:174 | any non-empty digit run, with or without "-", is an Integer |
| Categories.DegenerateFloats | SpreadsheetParser.py:176 | "", "+", "-" and "." are Floats |
| Categories.SignAloneIsFloat | SpreadsheetParser.py:176 | a lone sign is a Float |
| Categories.DollarIsNotNumeric | SpreadsheetParser.py:174-179 | a text starting with "$" is no Integer, Float or Percentage |
| Categories.WholeCurrency | SpreadsheetParser.py:180 | "$12" and "$1234" are Currency |
| Categories.WholeAmountIsCurrency | SpreadsheetParser.py:180 | "$" followed by two or more digits is Currency |
| Categories.ScientificNeedsBackspace | SpreadsheetParser.py:182-183 | Scientific Notation only for text that starts with a backspace |
| Categories.ExponentNotationIsNotScientific | SpreadsheetParser.py:182-188 | "1e5" is never Scientific Notation, and is Other when no date format is guessed |
| Aggregation.Dfs | SpreadsheetParser.py:200-213 | with enough recursion depth, the search marks exactly the same-label component of its start among the unvisited cells, and returns that component's bounding box |
| Aggregation.Extend | SpreadsheetParser.py:206-212 | one neighbour step keeps the search's invariant and leaves that neighbour visited when it has the label |
| Aggregation.VisitCell | SpreadsheetParser.py:223-226 | a visited cell adds nothing; an unvisited one adds the area of its component, labelled with its own label |
| Aggregation.SweepRow | SpreadsheetParser.py:222-226 | after a row, every cell up to its end is visited and the areas found so far are the components seeded before that point |
| Aggregation.Aggregate | SpreadsheetParser.py:215-227 | with recursion depth ≥ m·n there is a result; a result has one area per component, with seeds in row-major order, disjoint, covering the grid |
| Aggregation.IdenticalCellAggregation | SpreadsheetParser.py:190-227 | the same for the grid labelled by the category dictionary, and each area's label is what `replace_nan` gives its seed |
| Aggregation.LabelGrid | SpreadsheetParser.py:193-197 | the label grid has the sheet's shape |
| Aggregation.OwnArea | SpreadsheetParser.py:221-226 | every cell lies in exactly one area's component, which is its own maximal component |
| Aggregation.EveryCellOnce | SpreadsheetParser.py:218-226 | the areas' cell counts sum to m·n: every cell is visited once |
| Aggregation.AreaBox | SpreadsheetParser.py:205-212 | each box lies inside the sheet and contains its seed |
| Aggregation.ComponentUnique | SpreadsheetParser.py:200-213 | a component is determined by its seed |
| Aggregation.SeedLabels | SpreadsheetParser.py:224-226 | each area's label is "Other" for a blank seed, else the dictionary's category of the seed's value |
| InvertedIndex.GroupAddresses | SpreadsheetParser.py:147-152 | keys in first-occurrence order, each mapped to the addresses of its records in order |
| InvertedIndex.FirstOccurrencesSpec | SpreadsheetParser.py:148-152 | the key list holds every value once, and nothing else |
| InvertedIndex.AddressesOfSpec | SpreadsheetParser.py:148-152 | a value has an address iff some record holds it |
| InvertedIndex.AddressesOfEnds | SpreadsheetParser.py:143-152 | a value's first and last addresses are those of its first and last records, and a single record gives just its address |
| InvertedIndex.PresentLoop | SpreadsheetParser.py:153 | the missing key is dropped, the order kept |
| InvertedIndex.PresentSpec | SpreadsheetParser.py:153 | a key survives iff it is not missing |
| InvertedIndex.FirstOccurrencesOrder | SpreadsheetParser.py:148-152 | the keys are listed in the order in which the records first show them |
| InvertedIndex.PresentKeepsOrder | SpreadsheetParser.py:153 | dropping the missing key keeps the relative order of the other keys |
| InvertedIndex.KeysInFirstSeenOrder | SpreadsheetParser.py:147-153 | the index's keys are exactly the non-missing values, in first-seen order |
| InvertedIndex.CombineAll | SpreadsheetParser.py:154 | each key gets `combine_cells` of its address list |
| InvertedIndex.InvertedIndex | SpreadsheetParser.py:133-155 | one entry per distinct present value, in first-seen order, with its address or its first:last range |
| InvertedIndex.InvertedIndexExampleKeys | SpreadsheetParser.py:147-153 | values x, blank, x, y give the keys x, y |
| InvertedIndex.InvertedIndexExampleRanges | SpreadsheetParser.py:143-145 | x at the first and third records gets "first:third" over the blank, y its one address |
| InvertedIndex.InvertedCategory | SpreadsheetParser.py:158-162 | the dictionary has exactly the sheet's values as keys, the missing one included |
| InvertedIndex.CategoryMapLast | SpreadsheetParser.py:160-161 | a value keeps the category of its last record |
| InvertedIndex.CategoryMapOfValues | SpreadsheetParser.py:158-162 | when every record's category is that of its value, so is the dictionary's |
| Pipeline.PromoteHeader | SpreadsheetParser.py:249-253 | the labels become row 0 and body row r becomes row r + 1, same width |
| Pipeline.DescribesPruned | SpreadsheetParser.py:256-259 | the workbook has a style for every pruned cell it is encoded with |
| Pipeline.CellsCategorised | SpreadsheetParser.py:262-263 | every cell's value is in the category dictionary with its own category |
| Pipeline.LabelsMatch | SpreadsheetParser.py:193-197 | a dictionary holding each cell's own category labels the sheet with those categories |
| Pipeline.LabelsAreCategories | SpreadsheetParser.py:262-265 | the label grid aggregation sees is the category of every cell |
| Pipeline.CompressSpreadsheet | SpreadsheetParser.py:244-272 | the stages run in order on a fresh compressor; the areas are the components of the pruned sheet's categories, the index is the inverted index of its records, and a result exists whenever the recursion depth covers the pruned sheet |
| Serialise.WriteAreas | SpreadsheetParser.py:283-288 | the text is one "(label\|TL:BR), " piece per area, in order, the last one included |
| Serialise.AreasRoundTrip | SpreadsheetParser.py:286-288 | areas whose labels hold no "\|" read back from that text unchanged |
| Serialise.WriteDict | SpreadsheetParser.py:292-295 | the text is one "range,key\|" piece per entry, in order |
| Serialise.DictRoundTrip | SpreadsheetParser.py:294-295 | entries whose ranges hold no "," and keys no "\|" read back as (range, key) pairs in order |
| PdfProcessing.StripPunctuation | pdf_processing.py:48-52 | no punctuation character remains, the rest is kept |
| PdfProcessing.KeepWords | pdf_processing.py:53-55 | kept words are exactly the words whose lower-case form is no stop word |
| PdfProcessing.CleanedIsJoin | pdf_processing.py:53-56 | the result is the surviving words joined by single spaces |
| PdfProcessing.CleanedHasNoPunctuation | pdf_processing.py:48-56 | no character of `string.punctuation` survives |
| PdfProcessing.CleanedWords | pdf_processing.py:53-56 | output words are, in order and case, the stripped words that are no stop word |
| PdfProcessing.CleanedIsTrimmed | pdf_processing.py:56 | no whitespace at either end; "" iff no word survives, so blank input gives "" |
| PdfProcessing.CleanIdempotent | pdf_processing.py:51-56 | cleaning twice equals cleaning once |
| PdfProcessing.Range | pdf_processing.py:164 | `range(lo, hi)` as a sequence |
| PdfProcessing.BatchesCover | pdf_processing.py:162-166 | the batches concatenated are the pages 0 .. total − 1 |
| PdfProcessing.BatchesShape | pdf_processing.py:162-166 | ⌈total/5⌉ batches, each non-empty with at most 5 pages, 5 in all but the last, none for no pages |
| PdfProcessing.RecordOf | pdf_processing.py:103-123 | the record of page index i is numbered i + 1; on success it holds the cleaned text and summary and one image entry, numbered i + 1 with the explanation, exactly when images were detected; on error it holds empty text, the summary "Error in processing this page" and no images |
| PdfProcessing.SummaryOfCleanedPage | pdf_processing.py:91-98 | the summariser is called only when some word survives cleaning, otherwise the summary is "" |
| PdfProcessing.Insert | pdf_processing.py:183 | inserting into sorted records keeps them sorted and adds exactly that record |
| PdfProcessing.SortPages | pdf_processing.py:183 | the pages come out sorted by page number, as a permutation of the input |
| PdfProcessing.SortRestoresPageOrder | pdf_processing.py:125-183 | whatever order the threads deliver the pages in, the sort yields page i + 1 at index i |
| PdfProcessing.SortedNumbersAreIndices | pdf_processing.py:183 | sorted numbers that are 1..n in some order are 1..n |
| PdfUtils.CleanKeepsWords | utils/pdf_processing.py:7-10 | cleaning removes no word: the word sequence is unchanged |
| PdfUtils.CleanIsTrimmed | utils/pdf_processing.py:9 | "" iff there are no words; no whitespace at either end; blank input gives "" |
| PdfUtils.CleanIdempotent | utils/pdf_processing.py:7-10 | cleaning twice equals cleaning once |
| PdfUtils.ImageAnalysis | utils/pdf_processing.py:23-27 | the entries are the detections on page number + 1, in detection order |
| PdfUtils.ImagesOnExact | utils/pdf_processing.py:25-27 | every entry comes from a detection on that page, and every such detection has an entry |
| PdfUtils.ProcessSinglePage | utils/pdf_processing.py:12-33 | the record is numbered page + 1; the returned summary is the stored one, from the cleaned text, the previous summary and page + 1; its images are those of that page |
| FileConversion.ExtensionAfterLastDot | file_conversion.py:39 | the extension is the lower-cased text after the last dot |
| FileConversion.ListedHasType | file_conversion.py:39-40 | a listed extension, in any case, gives its listed type |
| FileConversion.UnlistedHasNoType | file_conversion.py:40 | an unlisted extension gives None |
| FileConversion.PdfHasNoType | file_conversion.py:5-40 | ".pdf" gives None |
| FileConversion.CaseInsensitive | file_conversion.py:39 | names whose extensions differ only in case get the same type |
| FileConversion.ExtensionWithoutDot | file_conversion.py:39-40 | a name without a dot is its own extension |
| FileConversion.BareDocx | file_conversion.py:20-40 | "docx" alone maps to the Word document type |
| FileConversion.TrailingDot | file_conversion.py:39-40 | a name ending in "." gives None |
| FileConversion.LegacyExcel | file_conversion.py:13-15 | xls, xlt and xla all map to application/vnd.ms-excel |
| FileConversion.ConversionGuard | file_conversion.py:43-63 | an unsupported name fails with the unsupported-type error whatever the service would answer; a supported one succeeds iff the service answers 200, with its content |
| ChatExport.ExportChat | main.py:157-176 | the document is the four-block preamble, then one block per non-blank answer line, in order |
| ChatExport.OneBlockPerLine | main.py:165-176 | each answer line gives at most one block, exactly the non-blank lines give one |
| ChatExport.LineBlockKinds | main.py:166-176 | "#### " gives a level-3 heading, "- " a bullet, "### " a level-2 heading, a blank line nothing, any other line a plain paragraph of itself |
| ChatExport.BulletText | main.py:168-172 | a "- **" line loses every "- **" and has "**:" replaced by ":"; another "- " line stays as it is |
| ChatExport.Heading3Text | main.py:166-167 | a level-3 heading keeps what follows its marker, further markers removed |
| ChatExport.Heading2Text | main.py:173-174 | likewise for level 2 |
| ChatExport.SelectNewFiles | main.py:232-244 | the loop keeps the uploads whose names are neither loaded nor removed, in order |
| ChatExport.NewFilesExact | main.py:236-244 | an upload is kept iff its name is neither a loaded document's nor a removed one |
| ChatExport.AllNewKept | main.py:236-244 | uploads are not compared with each other: same-named new files are all kept |

## Left out

- Workbook and file I/O: reading the workbook, writing the text files, the command line block and `llm()`. `write_areas` and `write_dict` are modelled as the string they write.
- `read_spreadsheet`'s extension check and the `SpreadsheetLLMWrapper` constructor do nothing the model needs.
- `IndexColumnConverter` is not part of this model. `parse_colindex` is taken to be bijective base 26 (1 → A, 26 → Z, 27 → AA). This is an assumption about that module.
- The column-wise `str.replace('\n', '<br>')` at SpreadsheetParser.py:247 is not modelled. It does more than replace newlines. On an object-dtype column it turns every non-string element (a number or date in a column that also holds text) into NaN. It raises `AttributeError` on an object column whose non-null values are all booleans or all `datetime.time`. The model's input `body` stands for the sheet after this line, with those cells already `Missing`; the raising case has no counterpart.
- Float statistics: `np.mean`/`np.std` in float64 are replaced by an exact integer test. Results can differ from the source only where float rounding moves a length across the band boundary.
- Python dictionary keys: Python merges equal keys across types (1 == 1.0 == True). Here values are tagged, so `Int(1)`, `Flt("1.0")` and `Bool(true)` stay separate keys in `inverted_index` and `inverted_category`.
- Float cell values are opaque tokens: only their kind, equality and length 0 are used. `str(value)` for floats and dates is their stored text.
- `lower()`, `\d` and `\w` cover ASCII only. Python applies them to all of Unicode. Whitespace for `split()` and `strip()` is Python's full set.
- `guess_datetime_format` is a function parameter `guess`, and its answer is used as given. Datetime cells get the fixed label "yyyy/mm/dd".
- The RFC 2821 style e-mail pattern is written out as predicates over ASCII `\w`. No general regular-expression engine is modelled.
- Aggregation.Dfs: the interpreter's recursion limit is a `budget` parameter. Running out is the `RecursionError`, which makes `compress_spreadsheet` return nothing. The model proves a budget of m·n nested calls always suffices, but does not fix Python's actual limit.
- Aggregation.IdenticalCellAggregation: labels are looked up once per cell before the sweep, instead of inside every `dfs` call. The lookups are pure, so this changes no result. A value missing from the dictionary (`KeyError`) is excluded by a precondition, because `compress_spreadsheet` always builds the dictionary from the same sheet.
- The unreachable guard at the head of `dfs` (a visited or differently labelled start) is a precondition of `Dfs`, because both callers test the same condition first.
- Encoding.Encode: `encode` reads styles from sheet 0 at the pruned coordinates. The model requires the workbook to have a style record for every such cell (`Describes`); in the source a missing one raises `IndexError`.
- Serialise.WriteAreas requires every corner to be non-negative (`Placed`). Areas from the aggregation always are.
- `pd.concat`, `DataFrame.apply`, `iloc` and `reset_index` are modelled by their effect on a sequence-of-rows grid.
- The threaded `process_page_batch` (pdf_processing.py:83-133) is not modelled as threads. `as_completed` delivers pages in any order, so the collected list is modelled as any permutation of the page records, and `SortRestoresPageOrder` is proved for every such order.
- The `nonlocal previous_summary` shared across threads is left out. The summariser is a function parameter, called with the summary it is given.
- Page reading, `get_text`, the OCR and vector-graphics heuristics (`detect_ocr_images_and_vector_graphics*`) and `get_image_explanation` are left out. Their results are inputs: the raw page text, the detections and the explanations.
- The system-prompt generation for the first file, token counting, the Celery task and its retry are left out.
- PdfProcessing.SortPages: `list.sort` is modelled by an insertion sort that is proved to sort and to permute. Stability is not stated, because page numbers are distinct.
- PdfUtils.ProcessSinglePage: the `.strip()` before cleaning is omitted, because `split()` already ignores surrounding whitespace.
- FileConversion.ConvertOfficeToPdf: the HTTP post to the conversion service is a function parameter. Reading the upload and `io.BytesIO` are not modelled.
- `MIME_TYPES` is modelled with its 28 entries; configuration reads (`utils/config.py`) are left out.
- ChatExport.ExportChat: python-docx is replaced by the list of blocks the loop adds. Saving the document, the download button and the chat display are left out.
- main.py's document removal loop (lines 209-220), Redis, blob storage, Bing search and the token budget are left out.
