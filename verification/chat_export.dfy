/**
  Two pieces of the chat front end: the Word export of one question and its
  answer, emitted here as the list of blocks added to the document, and the
  choice of which uploaded files are new. The document library and the user
  interface are not modelled.
 */
module ChatExport {
  import opened Wrappers
  import opened Strings

  // ---------------------------------------------------------------- export

  /** What `display_chat` adds to the document: a heading of some level, or a paragraph with an optional style. */
  datatype Block =
    | Heading(text: string, level: nat)
    | Para(text: string, style: Option<string>)

  const ListBullet := "List Bullet"

  predicate IsBullet(b: Block) {
    b.Para? && b.style == Some(ListBullet)
  }

  /** The block one answer line becomes, with the tests in `display_chat`'s order; blank lines become nothing. */
  function LineBlock(line: string): Option<Block>
  {
    if StartsWith(line, "#### ") then Some(Heading(Replace(line, "#### ", ""), 3))
    else if StartsWith(line, "- **") then Some(Para(Replace(Replace(line, "- **", ""), "**:", ":"), Some(ListBullet)))
    else if StartsWith(line, "- ") then Some(Para(line, Some(ListBullet)))
    else if StartsWith(line, "### ") then Some(Heading(Replace(line, "### ", ""), 2))
    else if !IsBlank(line) then Some(Para(line, None))
    else None
  }

  /**
    Which kind of block a line yields depends on its prefix alone: level-3
    headings for "#### ", bullets for "- " (with or without bold), level-2
    headings for "### ", nothing for blank lines, and a plain paragraph of
    the line itself otherwise.
   */
  lemma LineBlockKinds(line: string)
    ensures LineBlock(line).Some? && LineBlock(line).value.Heading? && LineBlock(line).value.level == 3
      <==> StartsWith(line, "#### ")
    ensures LineBlock(line).Some? && IsBullet(LineBlock(line).value) <==> StartsWith(line, "- ")
    ensures LineBlock(line).Some? && LineBlock(line).value.Heading? && LineBlock(line).value.level == 2
      <==> StartsWith(line, "### ")
    ensures LineBlock(line).None? <==> IsBlank(line)
    ensures LineBlock(line) == Some(Para(line, None))
      <==> !IsBlank(line) && !StartsWith(line, "#### ") && !StartsWith(line, "- ") && !StartsWith(line, "### ")
  {
    if StartsWith(line, "#### ") {
      assert line[0] == '#' && line[3] == '#';
    } else if StartsWith(line, "- ") {
      assert line[0] == '-';
    } else if StartsWith(line, "### ") {
      assert line[0] == '#';
    }
  }

  /** A "- **" line is a bullet with the bold markers taken out; any other "- " line is a bullet of the line as it is. */
  lemma BulletText(line: string)
    requires StartsWith(line, "- ")
    ensures StartsWith(line, "- **") ==> LineBlock(line) == Some(Para(Replace(Replace(line, "- **", ""), "**:", ":"), Some(ListBullet)))
    ensures !StartsWith(line, "- **") ==> LineBlock(line) == Some(Para(line, Some(ListBullet)))
  {
    assert !StartsWith(line, "#### ") by {
      assert line[0] == '-';
    }
  }

  /** A leading marker that is removed drops from the front of the text. */
  lemma ReplaceLeading(marker: string, rest: string)
    requires |marker| > 0
    ensures Replace(marker + rest, marker, "") == Replace(rest, marker, "")
  {
    var s := marker + rest;
    assert s[..|marker|] == marker;
    assert s[|marker|..] == rest;
  }

  /** A level-3 heading keeps what follows its marker, with any further markers removed. */
  lemma Heading3Text(rest: string)
    ensures LineBlock("#### " + rest) == Some(Heading(Replace(rest, "#### ", ""), 3))
  {
    var line := "#### " + rest;
    assert StartsWith(line, "#### ") by {
      assert line[..5] == "#### ";
    }
    ReplaceLeading("#### ", rest);
  }

  /** So does a level-2 heading. */
  lemma Heading2Text(rest: string)
    ensures LineBlock("### " + rest) == Some(Heading(Replace(rest, "### ", ""), 2))
  {
    var line := "### " + rest;
    assert StartsWith(line, "### ") by {
      assert line[..4] == "### ";
    }
    assert !StartsWith(line, "#### ") by {
      assert line[3] == ' ' && "#### "[3] == '#';
    }
    assert !StartsWith(line, "- ") by {
      assert line[0] == '#';
    }
    ReplaceLeading("### ", rest);
  }

  /** The blocks for the answer's lines, in order. */
  function AnswerBlocks(lines: seq<string>): seq<Block>
  {
    if |lines| == 0 then []
    else
      match LineBlock(lines[0])
      case None => AnswerBlocks(lines[1..])
      case Some(b) => [b] + AnswerBlocks(lines[1..])
  }

  /** The number of lines that are not blank. */
  function NonBlank(lines: seq<string>): nat
  {
    if |lines| == 0 then 0 else (if IsBlank(lines[0]) then 0 else 1) + NonBlank(lines[1..])
  }

  lemma {:induction false} AnswerBlocksAppend(a: seq<string>, b: seq<string>)
    ensures AnswerBlocks(a + b) == AnswerBlocks(a) + AnswerBlocks(b)
    decreases |a|
  {
    if |a| > 0 {
      assert (a + b)[1..] == a[1..] + b;
      AnswerBlocksAppend(a[1..], b);
    } else {
      assert a + b == b;
    }
  }

  /** Each line gives at most one block, and exactly the non-blank lines give one. */
  lemma {:induction false} OneBlockPerLine(lines: seq<string>)
    ensures |AnswerBlocks(lines)| == NonBlank(lines) <= |lines|
    decreases |lines|
  {
    if |lines| > 0 {
      LineBlockKinds(lines[0]);
      OneBlockPerLine(lines[1..]);
    }
  }

  /** The four blocks every export starts with. */
  function Preamble(question: string): seq<Block>
  {
    [Heading("Chat Response", 1), Para("Question:", Some("Heading 2")), Para(question, None), Para("Answer:", Some("Heading 2"))]
  }

  /** The document built for one chat entry: the preamble, then one block per non-blank answer line. */
  method ExportChat(question: string, answer: string) returns (doc: seq<Block>)
    ensures doc == Preamble(question) + AnswerBlocks(SplitOn(answer, '\n'))
    ensures |doc| == 4 + NonBlank(SplitOn(answer, '\n'))
  {
    doc := [Heading("Chat Response", 1)];
    doc := doc + [Para("Question:", Some("Heading 2"))];
    doc := doc + [Para(question, None)];
    doc := doc + [Para("Answer:", Some("Heading 2"))];
    var lines := SplitOn(answer, '\n');
    for i := 0 to |lines|
      invariant doc == Preamble(question) + AnswerBlocks(lines[..i])
    {
      var line := lines[i];
      AnswerBlocksAppend(lines[..i], [line]);
      assert lines[..i + 1] == lines[..i] + [line];
      assert AnswerBlocks([line]) == match LineBlock(line) case None => [] case Some(b) => [b];
      match LineBlock(line) {
        case Some(b) => doc := doc + [b];
        case None =>
      }
    }
    assert lines[..|lines|] == lines;
    OneBlockPerLine(lines);
  }

  // ---------------------------------------------------------------- uploads

  datatype UploadedFile = UploadedFile(name: string, content: seq<bv8>)

  /** The names of the documents already loaded, from the map of document id to name. */
  function CurrentNames(documents: map<string, string>): set<string>
  {
    set id | id in documents :: documents[id]
  }

  /** The uploads to process: those named neither like a loaded document nor like a removed one, in upload order. */
  function NewFiles(uploaded: seq<UploadedFile>, names: set<string>, removed: seq<string>): seq<UploadedFile>
  {
    if |uploaded| == 0 then []
    else
      var rest := NewFiles(uploaded[1..], names, removed);
      var f := uploaded[0];
      if f.name !in names && f.name !in removed then [f] + rest else rest
  }

  lemma {:induction false} NewFilesAppend(a: seq<UploadedFile>, b: seq<UploadedFile>, names: set<string>, removed: seq<string>)
    ensures NewFiles(a + b, names, removed) == NewFiles(a, names, removed) + NewFiles(b, names, removed)
    decreases |a|
  {
    if |a| > 0 {
      assert (a + b)[1..] == a[1..] + b;
      NewFilesAppend(a[1..], b, names, removed);
    } else {
      assert a + b == b;
    }
  }

  /** An upload is kept exactly when its name is neither loaded nor removed. */
  lemma {:induction false} NewFilesExact(uploaded: seq<UploadedFile>, names: set<string>, removed: seq<string>)
    ensures forall f :: f in NewFiles(uploaded, names, removed) ==> f in uploaded && f.name !in names && f.name !in removed
    ensures forall i :: 0 <= i < |uploaded| && uploaded[i].name !in names && uploaded[i].name !in removed ==>
      uploaded[i] in NewFiles(uploaded, names, removed)
    decreases |uploaded|
  {
    if |uploaded| > 0 {
      NewFilesExact(uploaded[1..], names, removed);
      forall i | 0 <= i < |uploaded| && uploaded[i].name !in names && uploaded[i].name !in removed
        ensures uploaded[i] in NewFiles(uploaded, names, removed)
      {
        if i > 0 {
          assert uploaded[i] == uploaded[1..][i - 1];
        }
      }
    }
  }

  /** Uploads are not compared with each other: when every name is new, all are kept, same-named ones included. */
  lemma {:induction false} AllNewKept(uploaded: seq<UploadedFile>, names: set<string>, removed: seq<string>)
    requires forall i :: 0 <= i < |uploaded| ==> uploaded[i].name !in names && uploaded[i].name !in removed
    ensures NewFiles(uploaded, names, removed) == uploaded
    decreases |uploaded|
  {
    if |uploaded| > 0 {
      AllNewKept(uploaded[1..], names, removed);
      assert [uploaded[0]] + uploaded[1..] == uploaded;
    }
  }

  /** The loop that fills `new_files`. */
  method SelectNewFiles(uploaded: seq<UploadedFile>, documents: map<string, string>, removed: seq<string>)
    returns (newFiles: seq<UploadedFile>)
    ensures newFiles == NewFiles(uploaded, CurrentNames(documents), removed)
  {
    newFiles := [];
    for i := 0 to |uploaded|
      invariant newFiles == NewFiles(uploaded[..i], CurrentNames(documents), removed)
    {
      var f := uploaded[i];
      var names := CurrentNames(documents);
      NewFilesAppend(uploaded[..i], [f], names, removed);
      assert uploaded[..i + 1] == uploaded[..i] + [f];
      if f.name !in names && f.name !in removed {
        newFiles := newFiles + [f];
      }
    }
    assert uploaded[..|uploaded|] == uploaded;
  }
}
