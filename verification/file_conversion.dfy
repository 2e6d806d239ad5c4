/**
  Office-to-PDF conversion: the extension-to-MIME-type table, the lookup of
  a file name's type, and the request that conversion sends (or the error it
  raises first). The HTTP call itself is a function parameter.
 */
module FileConversion {
  import opened Wrappers
  import opened Strings

  const MsWord := "application/msword"
  const MsExcel := "application/vnd.ms-excel"
  const MsPowerPoint := "application/vnd.ms-powerpoint"
  const WordDocument := "application/vnd.openxmlformats-officedocument.wordprocessingml.document"

  /** `MIME_TYPES`: the Office extensions conversion accepts. */
  const MimeTypes: map<string, string> := map[
    "doc" := MsWord,
    "dot" := MsWord,
    "csv" := "text/csv",
    "docx" := WordDocument,
    "dotx" := "application/vnd.openxmlformats-officedocument.wordprocessingml.template",
    "docm" := "application/vnd.ms-word.document.macroEnabled.12",
    "dotm" := "application/vnd.ms-word.template.macroEnabled.12",
    "xls" := MsExcel,
    "xlt" := MsExcel,
    "xla" := MsExcel,
    "xlsx" := "application/vnd.openxmlformats-officedocument.spreadsheetml.sheet",
    "xltx" := "application/vnd.openxmlformats-officedocument.spreadsheetml.template",
    "xlsm" := "application/vnd.ms-excel.sheet.macroEnabled.12",
    "xltm" := "application/vnd.ms-excel.template.macroEnabled.12",
    "xlam" := "application/vnd.ms-excel.addin.macroEnabled.12",
    "xlsb" := "application/vnd.ms-excel.sheet.binary.macroEnabled.12",
    "ppt" := MsPowerPoint,
    "pot" := MsPowerPoint,
    "pps" := MsPowerPoint,
    "ppa" := MsPowerPoint,
    "pptx" := "application/vnd.openxmlformats-officedocument.presentationml.presentation",
    "potx" := "application/vnd.openxmlformats-officedocument.presentationml.template",
    "ppsx" := "application/vnd.openxmlformats-officedocument.presentationml.slideshow",
    "ppam" := "application/vnd.ms-powerpoint.addin.macroEnabled.12",
    "pptm" := "application/vnd.ms-powerpoint.presentation.macroEnabled.12",
    "potm" := "application/vnd.ms-powerpoint.template.macroEnabled.12",
    "ppsm" := "application/vnd.ms-powerpoint.slideshow.macroEnabled.12",
    "mdb" := "application/vnd.ms-access"
  ]

  /** `file_name.split(".")[-1].lower()`. */
  function Extension(name: string): string
  {
    var pieces := SplitOn(name, '.');
    Lower(pieces[|pieces| - 1])
  }

  /** `get_mime_type`: the type listed for the extension, or `None`. */
  function GetMimeType(name: string): Option<string>
  {
    var ext := Extension(name);
    if ext in MimeTypes then Some(MimeTypes[ext]) else None
  }

  /** The last piece of a split is whatever follows the last separator. */
  lemma {:induction false} LastPiece(a: string, b: string)
    requires '.' !in b
    ensures |SplitOn(a + ['.'] + b, '.')| >= 2
    ensures SplitOn(a + ['.'] + b, '.')[|SplitOn(a + ['.'] + b, '.')| - 1] == b
    decreases |a|
  {
    var s := a + ['.'] + b;
    if |a| == 0 {
      assert s[1..] == b;
      SplitOnWithout(b, '.');
    } else {
      assert s[1..] == a[1..] + ['.'] + b;
      LastPiece(a[1..], b);
    }
  }

  /** The extension is the lower-cased text after the last dot. */
  lemma ExtensionAfterLastDot(stem: string, ext: string)
    requires '.' !in ext
    ensures Extension(stem + "." + ext) == Lower(ext)
  {
    LastPiece(stem, ext);
  }

  /** A name without a dot is its own extension: "docx" is a Word document. */
  lemma ExtensionWithoutDot(name: string)
    requires '.' !in name
    ensures Extension(name) == Lower(name)
    ensures GetMimeType(name) == if Lower(name) in MimeTypes then Some(MimeTypes[Lower(name)]) else None
  {
    SplitOnWithout(name, '.');
  }

  /** A name ending in a dot has the empty extension, which is not listed. */
  lemma TrailingDot(stem: string)
    ensures GetMimeType(stem + ".") == None
  {
    LastPiece(stem, "");
    assert stem + "." == stem + ['.'] + "";
  }

  /** The type depends on the extension only up to letter case. */
  lemma CaseInsensitive(stem1: string, stem2: string, ext1: string, ext2: string)
    requires '.' !in ext1 && '.' !in ext2
    requires Lower(ext1) == Lower(ext2)
    ensures GetMimeType(stem1 + "." + ext1) == GetMimeType(stem2 + "." + ext2)
  {
    ExtensionAfterLastDot(stem1, ext1);
    ExtensionAfterLastDot(stem2, ext2);
  }

  /** Extensions outside the table, PDF among them, have no type. */
  lemma UnlistedHasNoType(stem: string, ext: string)
    requires '.' !in ext && Lower(ext) !in MimeTypes
    ensures GetMimeType(stem + "." + ext) == None
  {
    ExtensionAfterLastDot(stem, ext);
  }

  /** A PDF is not converted: "pdf" is not in the table. */
  lemma PdfHasNoType(stem: string)
    ensures GetMimeType(stem + ".pdf") == None
  {
    assert Lower("pdf") == "pdf";
    assert "pdf" !in MimeTypes;
    UnlistedHasNoType(stem, "pdf");
    assert stem + ".pdf" == stem + "." + "pdf";
  }

  /** A listed extension, in whatever case, gives its listed type. */
  lemma ListedHasType(stem: string, ext: string)
    requires '.' !in ext && Lower(ext) in MimeTypes
    ensures GetMimeType(stem + "." + ext) == Some(MimeTypes[Lower(ext)])
  {
    ExtensionAfterLastDot(stem, ext);
  }

  /** The three legacy Excel extensions share one type. */
  lemma LegacyExcel(stem: string)
    ensures GetMimeType(stem + ".xls") == GetMimeType(stem + ".xlt") == GetMimeType(stem + ".xla") == Some(MsExcel)
  {
    assert Lower("xls") == "xls" && Lower("xlt") == "xlt" && Lower("xla") == "xla";
    ListedHasType(stem, "xls");
    ListedHasType(stem, "xlt");
    ListedHasType(stem, "xla");
    assert stem + ".xls" == stem + "." + "xls";
    assert stem + ".xlt" == stem + "." + "xlt";
    assert stem + ".xla" == stem + "." + "xla";
  }

  /** The bare name "docx" is read as the extension of a Word document. */
  lemma BareDocx()
    ensures GetMimeType("docx") == Some(WordDocument)
  {
    ExtensionWithoutDot("docx");
    assert Lower("docx") == "docx";
  }

  // ---------------------------------------------------------------- conversion

  /** The headers and body `convert_office_to_pdf` posts to the conversion service. */
  datatype Request = Request(contentType: string, contentTypeActual: string, body: seq<bv8>)

  datatype Response = Response(statusCode: int, content: seq<bv8>, text: string)

  datatype ConversionError =
    | Unsupported(message: string)        // the ValueError raised for an unknown type
    | ConversionFailed(statusCode: int, text: string)

  /**
    `convert_office_to_pdf`: an unknown type fails before anything is sent;
    otherwise the file is posted with its type and the PDF bytes come back on
    status 200.
   */
  function ConvertOfficeToPdf(name: string, body: seq<bv8>, post: Request -> Response): (r: Result<seq<bv8>, ConversionError>)
  {
    match GetMimeType(name)
    case None => Failure(Unsupported("Unsupported file type: " + name))
    case Some(mime) =>
      var response := post(Request("application/octet-stream", mime, body));
      if response.statusCode == 200 then Success(response.content)
      else Failure(ConversionFailed(response.statusCode, response.text))
  }

  /**
    An unsupported name fails with the `ValueError`, whatever the service
    would answer: no request is made. A supported one is posted with its
    type and succeeds exactly when the service answers 200.
   */
  lemma ConversionGuard(name: string, body: seq<bv8>, post: Request -> Response, other: Request -> Response)
    ensures GetMimeType(name).None? ==>
      ConvertOfficeToPdf(name, body, post) == ConvertOfficeToPdf(name, body, other) == Failure(Unsupported("Unsupported file type: " + name))
    ensures GetMimeType(name).Some? ==>
      var response := post(Request("application/octet-stream", GetMimeType(name).value, body));
      (ConvertOfficeToPdf(name, body, post).Success? <==> response.statusCode == 200) &&
      (response.statusCode == 200 ==> ConvertOfficeToPdf(name, body, post) == Success(response.content))
  {
  }
}
