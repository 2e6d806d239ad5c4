/**
  The single-page helper of the older PDF path: whitespace normalisation of
  a page's text, and the record built for one page from its summary and the
  images detected in the document. The summariser and the image detector are
  outside the model: the summary is a function parameter and the detections
  are an input list.
 */
module PdfUtils {
  import opened Strings

  /** `' '.join(word for word in text.split())`: despite its name, no word is removed. */
  function CleanText(text: string): string
  {
    JoinSpace(Words(text))
  }

  /** The cleaned text has exactly the words of the input, in order and unchanged. */
  lemma CleanKeepsWords(text: string)
    ensures Words(CleanText(text)) == Words(text)
  {
    WordsAreWords(text);
    WordsOfJoin(Words(text));
  }

  /** Nothing before the first word or after the last; whitespace-only text gives "". */
  lemma CleanIsTrimmed(text: string)
    ensures CleanText(text) == "" <==> |Words(text)| == 0
    ensures CleanText(text) != "" ==> !IsSpace(CleanText(text)[0]) && !IsSpace(CleanText(text)[|CleanText(text)| - 1])
    ensures IsBlank(text) ==> CleanText(text) == ""
  {
    WordsAreWords(text);
    JoinTrimmed(Words(text));
    if IsBlank(text) {
      WordsOfBlank(text);
    }
  }

  /** Cleaning twice is cleaning once. */
  lemma CleanIdempotent(text: string)
    ensures CleanText(CleanText(text)) == CleanText(text)
  {
    CleanKeepsWords(text);
  }

  // ---------------------------------------------------------------- page record

  /** One detection: the 1-based page an image was found on, and the image as base64 text. */
  datatype Detection = Detection(page: int, image: string)

  /** One entry of `image_analysis`. */
  datatype ImageEntry = ImageEntry(pageNumber: int, imageData: string)

  /** The page record: its 1-based number, its summary and the images found on it. */
  datatype PageData = PageData(pageNumber: int, textSummary: string, imageAnalysis: seq<ImageEntry>)

  /** The detections on `page`, as entries, in detection order. */
  function ImagesOn(detected: seq<Detection>, page: int): seq<ImageEntry>
  {
    if |detected| == 0 then []
    else
      var rest := ImagesOn(detected[1..], page);
      if detected[0].page == page then [ImageEntry(page, detected[0].image)] + rest else rest
  }

  lemma {:induction false} ImagesOnAppend(a: seq<Detection>, b: seq<Detection>, page: int)
    ensures ImagesOn(a + b, page) == ImagesOn(a, page) + ImagesOn(b, page)
    decreases |a|
  {
    if |a| > 0 {
      assert (a + b)[1..] == a[1..] + b;
      ImagesOnAppend(a[1..], b, page);
    } else {
      assert a + b == b;
    }
  }

  /**
    Exactly the detections on `page` appear, each as its own entry: every
    entry is on `page` and comes from a detection, and every detection on
    `page` has an entry.
   */
  lemma {:induction false} ImagesOnExact(detected: seq<Detection>, page: int)
    ensures forall e :: e in ImagesOn(detected, page) ==> e.pageNumber == page && Detection(page, e.imageData) in detected
    ensures forall i :: 0 <= i < |detected| && detected[i].page == page ==> ImageEntry(page, detected[i].image) in ImagesOn(detected, page)
    ensures |ImagesOn(detected, page)| <= |detected|
    decreases |detected|
  {
    if |detected| > 0 {
      ImagesOnExact(detected[1..], page);
      forall i | 0 <= i < |detected| && detected[i].page == page
        ensures ImageEntry(page, detected[i].image) in ImagesOn(detected, page)
      {
        if i > 0 {
          assert detected[i] == detected[1..][i - 1];
        }
      }
      forall e | e in ImagesOn(detected, page)
        ensures e.pageNumber == page && Detection(page, e.imageData) in detected
      {
        if e !in ImagesOn(detected[1..], page) {
          assert detected[0] == Detection(page, e.imageData);
        } else {
          assert Detection(page, e.imageData) in detected[1..];
        }
      }
    }
  }

  /** The loop that fills `image_analysis`: keep the detections whose page is this page. */
  method ImageAnalysis(detected: seq<Detection>, pageNumber: nat) returns (analysis: seq<ImageEntry>)
    ensures analysis == ImagesOn(detected, pageNumber + 1)
  {
    analysis := [];
    for i := 0 to |detected|
      invariant analysis == ImagesOn(detected[..i], pageNumber + 1)
    {
      var d := detected[i];
      ImagesOnAppend(detected[..i], [d], pageNumber + 1);
      assert detected[..i + 1] == detected[..i] + [d];
      if d.page == pageNumber + 1 {
        analysis := analysis + [ImageEntry(d.page, d.image)];
      }
    }
    assert detected[..|detected|] == detected;
  }

  /**
    `process_single_page`: the page text is cleaned and summarised with the
    previous summary and the 1-based page number, the images found on this
    page are collected, and the record is returned with the summary, which
    becomes the next page's previous summary.
   */
  method ProcessSinglePage(pageNumber: nat, pageText: string, previousSummary: string,
                           summarize: (string, string, nat) -> string, detected: seq<Detection>)
    returns (data: PageData, summary: string)
    ensures data.pageNumber == pageNumber + 1
    ensures summary == data.textSummary == summarize(CleanText(pageText), previousSummary, pageNumber + 1)
    ensures data.imageAnalysis == ImagesOn(detected, pageNumber + 1)
  {
    var preprocessed := CleanText(pageText);
    summary := summarize(preprocessed, previousSummary, pageNumber + 1);
    var analysis := ImageAnalysis(detected, pageNumber);
    data := PageData(pageNumber + 1, summary, analysis);
  }
}
