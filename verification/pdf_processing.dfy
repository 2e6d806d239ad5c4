/**
  The pure parts of the PDF pipeline: the cleaning of a page's text before it
  is summarised (punctuation stripped, stop words dropped, whitespace
  collapsed), the split of a document's pages into batches of five, and the
  final ordering of the collected page records by page number.
 */
module PdfProcessing {
  import opened Strings
  import opened Wrappers

  // ---------------------------------------------------------------- text cleaning

  /** The 32 characters of Python's `string.punctuation`. */
  predicate IsPunctuation(c: char) {
    ('!' <= c <= '/') || (':' <= c <= '@') || ('[' <= c <= '`') || ('{' <= c <= '~')
  }

  predicate NoPunctuation(s: string) {
    forall i :: 0 <= i < |s| ==> !IsPunctuation(s[i])
  }

  /** `text.translate(str.maketrans("", "", string.punctuation))`: every punctuation character deleted, the rest kept in order. */
  function StripPunctuation(s: string): (r: string)
    ensures NoPunctuation(r)
    ensures |r| <= |s|
    ensures NoPunctuation(s) ==> r == s
  {
    if |s| == 0 then ""
    else if IsPunctuation(s[0]) then StripPunctuation(s[1..])
    else [s[0]] + StripPunctuation(s[1..])
  }

  /** The comprehension's filter: the words whose lower-case form is no stop word, in their order. */
  function KeepWords(ws: seq<string>, stopWords: set<string>): (kept: seq<string>)
    ensures |kept| <= |ws|
    ensures forall i :: 0 <= i < |kept| ==> kept[i] in ws && Lower(kept[i]) !in stopWords
    ensures forall i :: 0 <= i < |ws| && Lower(ws[i]) !in stopWords ==> ws[i] in kept
  {
    if |ws| == 0 then []
    else if Lower(ws[0]) in stopWords then KeepWords(ws[1..], stopWords)
    else [ws[0]] + KeepWords(ws[1..], stopWords)
  }

  /** The words that survive cleaning: those of the stripped text that are no stop word. */
  function Kept(text: string, stopWords: set<string>): seq<string>
  {
    KeepWords(Words(StripPunctuation(text)), stopWords)
  }

  /** `remove_stopwords_and_blanks` of the batch pipeline, with the stop-word set as a parameter. */
  function RemoveStopwordsAndBlanks(text: string, stopWords: set<string>): string
  {
    var filtered := JoinSpace(KeepWords(Words(StripPunctuation(text)), stopWords));
    JoinSpace(Words(filtered))
  }

  lemma {:induction false} KeepWordsWords(ws: seq<string>, stopWords: set<string>)
    requires AllWords(ws)
    ensures AllWords(KeepWords(ws, stopWords))
  {
    var kept := KeepWords(ws, stopWords);
    forall i | 0 <= i < |kept| ensures IsWord(kept[i]) {
      var j :| 0 <= j < |ws| && ws[j] == kept[i];
    }
  }

  /** A filter that every word passes keeps them all. */
  lemma {:induction false} KeepWordsAll(ws: seq<string>, stopWords: set<string>)
    requires forall i :: 0 <= i < |ws| ==> Lower(ws[i]) !in stopWords
    ensures KeepWords(ws, stopWords) == ws
    decreases |ws|
  {
    if |ws| > 0 {
      KeepWordsAll(ws[1..], stopWords);
      assert [ws[0]] + ws[1..] == ws;
    }
  }

  /** Every word of `s` is made of characters of `s`. */
  lemma {:induction false} WordsNoPunctuation(s: string)
    requires NoPunctuation(s)
    ensures forall i :: 0 <= i < |Words(s)| ==> NoPunctuation(Words(s)[i])
    decreases |s|
  {
    if |s| > 0 {
      if IsSpace(s[0]) {
        WordsNoPunctuation(s[1..]);
      } else {
        var k := LeadingRun(s);
        WordsNoPunctuation(s[k..]);
        assert Words(s) == [s[..k]] + Words(s[k..]);
      }
    }
  }

  /** Joining words without punctuation by spaces adds none. */
  lemma {:induction false} JoinNoPunctuation(ws: seq<string>)
    requires forall i :: 0 <= i < |ws| ==> NoPunctuation(ws[i])
    ensures NoPunctuation(JoinSpace(ws))
    decreases |ws|
  {
    if |ws| > 1 {
      JoinNoPunctuation(ws[1..]);
      var rest := JoinSpace(ws[1..]);
      forall i | 0 <= i < |ws[0] + " " + rest| ensures !IsPunctuation((ws[0] + " " + rest)[i]) {
        if i < |ws[0]| {
          assert (ws[0] + " " + rest)[i] == ws[0][i];
        } else if i > |ws[0]| {
          assert (ws[0] + " " + rest)[i] == rest[i - |ws[0]| - 1];
        }
      }
    }
  }

  /** The result is the surviving words joined by single spaces: the outer re-split changes nothing. */
  lemma CleanedIsJoin(text: string, stopWords: set<string>)
    ensures RemoveStopwordsAndBlanks(text, stopWords) == JoinSpace(Kept(text, stopWords))
    ensures Words(RemoveStopwordsAndBlanks(text, stopWords)) == Kept(text, stopWords)
  {
    var ws := Words(StripPunctuation(text));
    WordsAreWords(StripPunctuation(text));
    KeepWordsWords(ws, stopWords);
    WordsOfJoin(Kept(text, stopWords));
  }

  /** No character of `string.punctuation` survives. */
  lemma CleanedHasNoPunctuation(text: string, stopWords: set<string>)
    ensures NoPunctuation(RemoveStopwordsAndBlanks(text, stopWords))
  {
    CleanedIsJoin(text, stopWords);
    var ws := Words(StripPunctuation(text));
    WordsNoPunctuation(StripPunctuation(text));
    var kept := Kept(text, stopWords);
    forall i | 0 <= i < |kept| ensures NoPunctuation(kept[i]) {
      var j :| 0 <= j < |ws| && ws[j] == kept[i];
    }
    JoinNoPunctuation(kept);
  }

  /** The output words are, in order and with their case, the stripped words that are no stop word. */
  lemma CleanedWords(text: string, stopWords: set<string>)
    ensures forall i :: 0 <= i < |Words(RemoveStopwordsAndBlanks(text, stopWords))| ==>
      Lower(Words(RemoveStopwordsAndBlanks(text, stopWords))[i]) !in stopWords
    ensures Words(RemoveStopwordsAndBlanks(text, stopWords)) == KeepWords(Words(StripPunctuation(text)), stopWords)
  {
    CleanedIsJoin(text, stopWords);
  }

  /** Single spaces between words, nothing around them; "" exactly when no word survives. */
  lemma CleanedIsTrimmed(text: string, stopWords: set<string>)
    ensures var r := RemoveStopwordsAndBlanks(text, stopWords);
      (r == "" <==> |Kept(text, stopWords)| == 0) &&
      (r != "" ==> !IsSpace(r[0]) && !IsSpace(r[|r| - 1]))
    ensures IsBlank(text) ==> RemoveStopwordsAndBlanks(text, stopWords) == ""
  {
    CleanedIsJoin(text, stopWords);
    var ws := Words(StripPunctuation(text));
    WordsAreWords(StripPunctuation(text));
    KeepWordsWords(ws, stopWords);
    JoinTrimmed(Kept(text, stopWords));
    if IsBlank(text) {
      BlankStripped(text);
      WordsOfBlank(StripPunctuation(text));
    }
  }

  /** Whitespace is no punctuation, so stripping a blank text leaves it blank. */
  lemma {:induction false} BlankStripped(s: string)
    requires IsBlank(s)
    ensures IsBlank(StripPunctuation(s))
    decreases |s|
  {
    if |s| > 0 {
      BlankStripped(s[1..]);
    }
  }

  /** Cleaning a cleaned text changes nothing. */
  lemma CleanIdempotent(text: string, stopWords: set<string>)
    ensures RemoveStopwordsAndBlanks(RemoveStopwordsAndBlanks(text, stopWords), stopWords)
         == RemoveStopwordsAndBlanks(text, stopWords)
  {
    var r := RemoveStopwordsAndBlanks(text, stopWords);
    CleanedHasNoPunctuation(text, stopWords);
    CleanedIsJoin(text, stopWords);
    var kept := Kept(text, stopWords);
    assert StripPunctuation(r) == r;
    assert Words(r) == kept;
    KeepWordsAll(kept, stopWords);
    assert KeepWords(Words(StripPunctuation(r)), stopWords) == kept;
    CleanedIsJoin(r, stopWords);
  }

  // ---------------------------------------------------------------- batches

  const BatchSize: nat := 5

  /** `range(lo, hi)` as a sequence. */
  function Range(lo: nat, hi: nat): (r: seq<nat>)
    ensures |r| == if lo <= hi then hi - lo else 0
    ensures forall i :: 0 <= i < |r| ==> r[i] == lo + i
    decreases hi - lo
  {
    if lo >= hi then [] else [lo] + Range(lo + 1, hi)
  }

  function Min(a: nat, b: nat): nat {
    if a <= b then a else b
  }

  /** The batches that start at page `i` or later: `range(i, min(i + 5, total))` every five pages. */
  function BatchesFrom(i: nat, total: nat): seq<seq<nat>>
    decreases total - i
  {
    if i >= total then [] else [Range(i, Min(i + BatchSize, total))] + BatchesFrom(i + BatchSize, total)
  }

  /** The `page_batches` comprehension. */
  function PageBatches(total: nat): seq<seq<nat>>
  {
    BatchesFrom(0, total)
  }

  function Flatten(bs: seq<seq<nat>>): seq<nat>
  {
    if |bs| == 0 then [] else bs[0] + Flatten(bs[1..])
  }

  lemma RangeSplit(a: nat, b: nat, c: nat)
    requires a <= b <= c
    ensures Range(a, c) == Range(a, b) + Range(b, c)
  {
    assert forall i :: 0 <= i < c - a ==> Range(a, c)[i] == (Range(a, b) + Range(b, c))[i];
  }

  lemma {:induction false} BatchesFromCover(i: nat, total: nat)
    requires i <= total
    ensures Flatten(BatchesFrom(i, total)) == Range(i, total)
    decreases total - i
  {
    if i < total {
      var j := Min(i + BatchSize, total);
      if j < total {
        BatchesFromCover(j, total);
      } else {
        assert BatchesFrom(i + BatchSize, total) == [];
      }
      RangeSplit(i, j, total);
      assert BatchesFrom(i, total)[1..] == BatchesFrom(i + BatchSize, total);
    }
  }

  /** The batches, concatenated in order, are the pages 0 to total - 1, each exactly once. */
  lemma BatchesCover(total: nat)
    ensures Flatten(PageBatches(total)) == Range(0, total)
  {
    BatchesFromCover(0, total);
  }

  lemma {:induction false} BatchesFromShape(i: nat, total: nat)
    ensures |BatchesFrom(i, total)| == if i < total then (total - i + BatchSize - 1) / BatchSize else 0
    ensures forall k :: 0 <= k < |BatchesFrom(i, total)| ==> 1 <= |BatchesFrom(i, total)[k]| <= BatchSize
    ensures forall k :: 0 <= k < |BatchesFrom(i, total)| - 1 ==> |BatchesFrom(i, total)[k]| == BatchSize
    decreases total - i
  {
    if i < total {
      var bs := BatchesFrom(i, total);
      var rest := BatchesFrom(i + BatchSize, total);
      BatchesFromShape(i + BatchSize, total);
      assert bs == [Range(i, Min(i + BatchSize, total))] + rest;
      forall k | 0 <= k < |bs| ensures 1 <= |bs[k]| <= BatchSize {
        if k > 0 {
          assert bs[k] == rest[k - 1];
        }
      }
      forall k | 0 <= k < |bs| - 1 ensures |bs[k]| == BatchSize {
        if k > 0 {
          assert bs[k] == rest[k - 1];
        } else {
          assert i + BatchSize < total;
        }
      }
    }
  }

  /** ceil(total / 5) batches, none empty, at most five pages each, exactly five in all but the last; none for an empty document. */
  lemma BatchesShape(total: nat)
    ensures |PageBatches(total)| == (total + BatchSize - 1) / BatchSize
    ensures forall k :: 0 <= k < |PageBatches(total)| ==> 1 <= |PageBatches(total)[k]| <= BatchSize
    ensures forall k :: 0 <= k < |PageBatches(total)| - 1 ==> |PageBatches(total)[k]| == BatchSize
    ensures total == 0 <==> PageBatches(total) == []
  {
    BatchesFromShape(0, total);
  }

  // ---------------------------------------------------------------- page records

  /** One entry of a page's `image_analysis`: the page it was found on and the model's explanation. */
  datatype ImageExplanation = ImageExplanation(pageNumber: int, explanation: string)

  /** The record `process_single_page` returns for one page. */
  datatype PageRecord = PageRecord(pageNumber: int, fullText: string, textSummary: string,
                                   imageAnalysis: seq<ImageExplanation>)

  /**
    What reading and summarising page `index` produced: its cleaned text, its
    summary and, when images or vector graphics were detected, their
    explanation; or an error anywhere along the way.
   */
  datatype PageOutcome = Processed(text: string, summary: string, explanation: Option<string>) | Failed

  /** The summary the record of a failed page carries. */
  const ErrorSummary := "Error in processing this page"

  /** The record for the page at 0-based `index`, on success or on error. */
  function RecordOf(index: nat, outcome: PageOutcome): (r: PageRecord)
    ensures r.pageNumber == index + 1
    ensures |r.imageAnalysis| <= 1
    ensures forall e :: e in r.imageAnalysis ==> e.pageNumber == r.pageNumber
    ensures outcome.Failed? ==> r.fullText == "" && r.textSummary == ErrorSummary && r.imageAnalysis == []
    ensures outcome.Processed? ==> r.fullText == outcome.text && r.textSummary == outcome.summary
    ensures outcome.Processed? ==> (r.imageAnalysis == [] <==> outcome.explanation.None?)
    ensures outcome.Processed? && outcome.explanation.Some? ==> r.imageAnalysis[0].explanation == outcome.explanation.value
  {
    match outcome
    case Processed(text, summary, explanation) =>
      var images := if explanation.Some? then [ImageExplanation(index + 1, explanation.value)] else [];
      PageRecord(index + 1, text, summary, images)
    case Failed => PageRecord(index + 1, "", ErrorSummary, [])
  }

  /** The summary kept for a page: the summariser is asked only when the cleaned text is not empty. */
  function PageSummary(text: string, previousSummary: string, pageNumber: nat,
                       summarize: (string, string, nat) -> string): string
  {
    if text != "" then summarize(text, previousSummary, pageNumber) else ""
  }

  /**
    A page is summarised exactly when some word survives cleaning; a page of
    punctuation, stop words and whitespace keeps the empty summary.
   */
  lemma SummaryOfCleanedPage(raw: string, stopWords: set<string>, previousSummary: string, pageNumber: nat,
                             summarize: (string, string, nat) -> string)
    ensures var text := RemoveStopwordsAndBlanks(raw, stopWords);
      PageSummary(text, previousSummary, pageNumber, summarize)
        == if |Kept(raw, stopWords)| == 0 then "" else summarize(text, previousSummary, pageNumber)
  {
    CleanedIsTrimmed(raw, stopWords);
  }

  /** The page numbers of the records, in their order. */
  function Numbers(pages: seq<PageRecord>): seq<int>
  {
    seq(|pages|, i requires 0 <= i < |pages| => pages[i].pageNumber)
  }

  predicate SortedByPage(pages: seq<PageRecord>) {
    forall i, j :: 0 <= i < j < |pages| ==> pages[i].pageNumber <= pages[j].pageNumber
  }

  /** `pages` with `p` placed after every record whose number is not larger. */
  function Insert(pages: seq<PageRecord>, p: PageRecord): (r: seq<PageRecord>)
    requires SortedByPage(pages)
    ensures SortedByPage(r)
    ensures multiset(r) == multiset(pages) + multiset{p}
  {
    if |pages| == 0 then [p]
    else if pages[|pages| - 1].pageNumber <= p.pageNumber then pages + [p]
    else
      var front, last := pages[..|pages| - 1], pages[|pages| - 1];
      var r := Insert(front, p);
      assert pages == front + [last];
      NotAfter(front, p, r, last.pageNumber);
      r + [last]
  }

  /** Records drawn from `front` and `p` are numbered no higher than a bound they all respect. */
  lemma NotAfter(front: seq<PageRecord>, p: PageRecord, r: seq<PageRecord>, bound: int)
    requires multiset(r) == multiset(front) + multiset{p}
    requires forall i :: 0 <= i < |front| ==> front[i].pageNumber <= bound
    requires p.pageNumber <= bound
    ensures forall i :: 0 <= i < |r| ==> r[i].pageNumber <= bound
  {
    forall i | 0 <= i < |r| ensures r[i].pageNumber <= bound {
      assert r[i] in multiset(r);
      if r[i] != p {
        assert r[i] in multiset(front);
      }
    }
  }

  /** `document_data["pages"].sort(key=lambda x: x["page_number"])`: the collected records in ascending page order. */
  method SortPages(pages: seq<PageRecord>) returns (sorted: seq<PageRecord>)
    ensures SortedByPage(sorted)
    ensures multiset(sorted) == multiset(pages)
  {
    sorted := [];
    for i := 0 to |pages|
      invariant SortedByPage(sorted)
      invariant multiset(sorted) == multiset(pages[..i])
    {
      assert pages[..i + 1] == pages[..i] + [pages[i]];
      sorted := Insert(sorted, pages[i]);
    }
    assert pages[..|pages|] == pages;
  }

  /** The page numbers 1 to n in order. */
  function OneTo(n: nat): (ns: seq<int>)
    ensures |ns| == n && forall i :: 0 <= i < n ==> ns[i] == i + 1
  {
    if n == 0 then [] else OneTo(n - 1) + [n]
  }

  /** Records with the same members in another order carry the same page numbers. */
  lemma {:induction false} NumbersOfPermutation(a: seq<PageRecord>, b: seq<PageRecord>)
    requires multiset(a) == multiset(b)
    ensures multiset(Numbers(a)) == multiset(Numbers(b))
    decreases |a|
  {
    if |a| > 0 {
      var n := |a|;
      var front, last := a[..n - 1], a[n - 1];
      assert a == front + [last];
      assert last in multiset(b);
      var j :| 0 <= j < |b| && b[j] == last;
      var rest := b[..j] + b[j + 1..];
      MoveToEnd(b, j);
      CancelLast(front, rest, last);
      NumbersOfPermutation(front, rest);
      NumbersRemoveAt(b, j);
      NumbersRemoveAt(a, n - 1);
      assert a[..n - 1] + a[n..] == front;
    } else {
      assert |b| == |multiset(b)| == 0;
    }
  }

  lemma MoveToEnd<T>(b: seq<T>, j: nat)
    requires j < |b|
    ensures multiset(b) == multiset(b[..j] + b[j + 1..] + [b[j]])
  {
    assert b == b[..j] + [b[j]] + b[j + 1..];
  }

  /** The numbers of `b` are those of `b` without its record `j`, plus that record's number. */
  lemma NumbersRemoveAt(b: seq<PageRecord>, j: nat)
    requires j < |b|
    ensures multiset(Numbers(b)) == multiset(Numbers(b[..j] + b[j + 1..])) + multiset{b[j].pageNumber}
  {
    var x, y := b[..j], b[j + 1..];
    var nx, ny := Numbers(x), Numbers(y);
    assert b == x + [b[j]] + y;
    assert Numbers(b) == nx + [b[j].pageNumber] + ny;
    assert Numbers(x + y) == nx + ny;
    assert multiset(nx + [b[j].pageNumber] + ny) == multiset(nx) + multiset{b[j].pageNumber} + multiset(ny);
    assert multiset(nx + ny) == multiset(nx) + multiset(ny);
  }

  /** Removing the same last element from two sequences with equal members leaves equal members. */
  lemma CancelLast<T>(xs: seq<T>, ys: seq<T>, z: T)
    requires multiset(xs + [z]) == multiset(ys + [z])
    ensures multiset(xs) == multiset(ys)
  {
    assert multiset(xs + [z]) == multiset(xs) + multiset{z};
    assert multiset(ys + [z]) == multiset(ys) + multiset{z};
    forall x ensures multiset(xs)[x] == multiset(ys)[x] {
      assert multiset(xs + [z])[x] == multiset(xs)[x] + multiset{z}[x];
      assert multiset(ys + [z])[x] == multiset(ys)[x] + multiset{z}[x];
    }
  }

  /** The last of sorted numbers that are 1 to n in some order is n. */
  lemma LastIsLargest(ns: seq<int>)
    requires |ns| > 0
    requires forall i, j :: 0 <= i < j < |ns| ==> ns[i] <= ns[j]
    requires multiset(ns) == multiset(OneTo(|ns|))
    ensures ns[|ns| - 1] == |ns|
  {
    var n := |ns|;
    assert OneTo(n)[n - 1] == n;
    assert n in multiset(OneTo(n));
    var k :| 0 <= k < n && ns[k] == n;
    assert ns[n - 1] in multiset(OneTo(n));
    var m :| 0 <= m < n && OneTo(n)[m] == ns[n - 1];
  }

  /** A sorted list whose numbers are, in some order, 1 to n holds number i + 1 at index i. */
  lemma {:induction false} SortedNumbersAreIndices(ns: seq<int>)
    requires forall i, j :: 0 <= i < j < |ns| ==> ns[i] <= ns[j]
    requires multiset(ns) == multiset(OneTo(|ns|))
    ensures ns == OneTo(|ns|)
    decreases |ns|
  {
    var n := |ns|;
    if n > 0 {
      var front := ns[..n - 1];
      LastIsLargest(ns);
      assert ns == front + [n];
      assert OneTo(n) == OneTo(n - 1) + [n];
      CancelLast(front, OneTo(n - 1), n);
      SortedNumbersAreIndices(front);
    }
  }

  /** One record per page, in page order: what the document should hold. */
  function AllRecords(outcomes: seq<PageOutcome>): (rs: seq<PageRecord>)
    ensures |rs| == |outcomes|
    ensures forall i :: 0 <= i < |outcomes| ==> rs[i] == RecordOf(i, outcomes[i])
  {
    seq(|outcomes|, i requires 0 <= i < |outcomes| => RecordOf(i, outcomes[i]))
  }

  /**
    Whatever order the threads delivered the records in, sorting them by page
    number yields one record per page in page order: record i has number i + 1.
   */
  lemma SortRestoresPageOrder(outcomes: seq<PageOutcome>, collected: seq<PageRecord>, sorted: seq<PageRecord>)
    requires multiset(collected) == multiset(AllRecords(outcomes))
    requires SortedByPage(sorted) && multiset(sorted) == multiset(collected)
    ensures sorted == AllRecords(outcomes)
    ensures forall i :: 0 <= i < |sorted| ==> sorted[i].pageNumber == i + 1
  {
    var all := AllRecords(outcomes);
    assert |sorted| == |multiset(sorted)| == |all|;
    NumbersOfPermutation(sorted, all);
    assert Numbers(all) == OneTo(|all|);
    SortedNumbersAreIndices(Numbers(sorted));
    forall i | 0 <= i < |sorted| ensures sorted[i] == all[i] {
      assert sorted[i] in multiset(all);
      var j :| 0 <= j < |all| && all[j] == sorted[i];
      assert Numbers(sorted)[i] == i + 1 && all[j].pageNumber == j + 1;
    }
  }
}
