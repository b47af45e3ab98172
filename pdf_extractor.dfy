/**
 * Text extraction from a PDF. The PDF library is replaced by its output: the
 * pages in order, each the list of items of its text content, and the
 * document's information dictionary. What is modelled is the loop that glues
 * the pages into one text and records where each page starts.
 */
module PdfExtractor {
  import opened Wrappers
  import opened JsStrings

  /** An item of a page's text content: a run of text, or a marked-content marker without a `str`. */
  datatype TextItem = TextRun(str: string) | MarkedContent

  /** The information dictionary entries that are read; a missing or non-string entry is `None`. */
  datatype DocumentInfo = DocumentInfo(title: Option<string>, author: Option<string>, subject: Option<string>)

  /** A loaded document: page `i + 1` of the library is `pages[i]`. */
  datatype PdfDocument = PdfDocument(pages: seq<seq<TextItem>>, info: Option<DocumentInfo>)

  datatype PdfMetadata = PdfMetadata(title: Option<string>, author: Option<string>, subject: Option<string>)

  datatype PdfExtractionResult = PdfExtractionResult(
    textContent: string,
    pageBreaks: seq<int>,
    pageCount: nat,
    metadata: PdfMetadata)

  /** What one item contributes to its page: its text, or nothing for a marker. */
  function ItemText(item: TextItem): string {
    match item
    case TextRun(s) => s
    case MarkedContent => ""
  }

  function PageTexts(items: seq<TextItem>): (r: seq<string>)
    ensures |r| == |items|
  {
    seq(|items|, i requires 0 <= i < |items| => ItemText(items[i]))
  }

  /** The text one page adds: its items joined by single spaces, then a blank line. */
  function PageChunk(items: seq<TextItem>): (r: string)
    ensures |r| >= 2 && r[|r| - 2..] == "\n\n"
  {
    Join(PageTexts(items), " ") + "\n\n"
  }

  /** The untrimmed text of a run of pages: their chunks in page order. */
  function Assembled(pages: seq<seq<TextItem>>): string {
    if pages == [] then "" else Assembled(pages[..|pages| - 1]) + PageChunk(pages[|pages| - 1])
  }

  /** Where each page starts in the untrimmed text: the length of everything before it. */
  function PageBreaks(pages: seq<seq<TextItem>>): (r: seq<int>)
    ensures |r| == |pages|
  {
    seq(|pages|, i requires 0 <= i < |pages| => |Assembled(pages[..i])|)
  }

  /** `info?.Title`, `info?.Author` and `info?.Subject`; the metadata object itself is always there. */
  function MetadataOf(info: Option<DocumentInfo>): (r: PdfMetadata)
    ensures info.None? ==> r == PdfMetadata(None, None, None)
    ensures info.Some? ==> r.title == info.value.title && r.author == info.value.author && r.subject == info.value.subject
  {
    match info
    case None => PdfMetadata(None, None, None)
    case Some(d) => PdfMetadata(d.title, d.author, d.subject)
  }

  /** `extractTextFromPDF`, after the document has been loaded. */
  method ExtractTextFromPdf(doc: PdfDocument) returns (res: PdfExtractionResult)
    ensures res.pageCount == |doc.pages|
    ensures res.pageBreaks == PageBreaks(doc.pages)
    ensures res.textContent == Trim(Assembled(doc.pages))
    ensures res.metadata == MetadataOf(doc.info)
  {
    var fullText := "";
    var pageBreaks: seq<int> := [];
    var metadata := MetadataOf(doc.info);
    var numPages := |doc.pages|;
    var i := 1;
    while i <= numPages
      invariant 1 <= i <= numPages + 1
      invariant fullText == Assembled(doc.pages[..i - 1])
      invariant |pageBreaks| == i - 1
      invariant forall j :: 0 <= j < i - 1 ==> pageBreaks[j] == |Assembled(doc.pages[..j])|
    {
      var content := doc.pages[i - 1];
      pageBreaks := pageBreaks + [|fullText|];
      var textItems := seq(|content|, k requires 0 <= k < |content| => ItemText(content[k]));
      var pageText := Join(textItems, " ");
      assert doc.pages[..i][..i - 1] == doc.pages[..i - 1];
      fullText := fullText + pageText + "\n\n";
      i := i + 1;
    }
    assert doc.pages[..numPages] == doc.pages;
    res := PdfExtractionResult(Trim(fullText), pageBreaks, numPages, metadata);
  }

  /** Gluing two runs of pages glues their texts. */
  lemma {:induction false} AssembledAppend(a: seq<seq<TextItem>>, b: seq<seq<TextItem>>)
    ensures Assembled(a + b) == Assembled(a) + Assembled(b)
    decreases |b|
  {
    if b == [] {
      assert a + b == a;
    } else {
      var b', last := b[..|b| - 1], b[|b| - 1];
      assert (a + b)[..|a + b| - 1] == a + b';
      assert (a + b)[|a + b| - 1] == last;
      assert b[..|b| - 1] == b';
      AssembledAppend(a, b');
      calc {
        Assembled(a + b);
        Assembled(a + b') + PageChunk(last);
        Assembled(a) + Assembled(b') + PageChunk(last);
        Assembled(a) + (Assembled(b') + PageChunk(last));
        Assembled(a) + Assembled(b);
      }
    }
  }

  /** Every page adds at least its blank line. */
  lemma {:induction false} AssembledLength(pages: seq<seq<TextItem>>)
    ensures |Assembled(pages)| >= 2 * |pages|
  {
    if pages != [] {
      AssembledLength(pages[..|pages| - 1]);
    }
  }

  /** The text before page `i` is the text of the pages before it, and page `j > i` starts later. */
  lemma AssembledPrefix(pages: seq<seq<TextItem>>, i: nat, j: nat)
    requires i <= j <= |pages|
    ensures Assembled(pages[..j]) == Assembled(pages[..i]) + Assembled(pages[i..j])
    ensures |Assembled(pages[..j])| >= |Assembled(pages[..i])| + 2 * (j - i)
  {
    assert pages[..j] == pages[..i] + pages[i..j];
    AssembledAppend(pages[..i], pages[i..j]);
    AssembledLength(pages[i..j]);
  }

  /** One break per page, the first at offset 0, strictly increasing, all inside the untrimmed text. */
  lemma PageBreaksOrdered(pages: seq<seq<TextItem>>)
    ensures |PageBreaks(pages)| == |pages|
    ensures pages != [] ==> PageBreaks(pages)[0] == 0
    ensures forall i, j :: 0 <= i < j < |pages| ==> PageBreaks(pages)[i] < PageBreaks(pages)[j]
    ensures forall i :: 0 <= i < |pages| ==> 0 <= PageBreaks(pages)[i] < |Assembled(pages)|
  {
    var b := PageBreaks(pages);
    forall i, j | 0 <= i < j < |pages| ensures b[i] < b[j] {
      AssembledPrefix(pages, i, j);
    }
    forall i | 0 <= i < |pages| ensures b[i] < |Assembled(pages)| {
      AssembledPrefix(pages, i, |pages|);
      assert pages[..|pages|] == pages;
    }
  }

  /** Page `i`'s chunk is found in the untrimmed text exactly at its break. */
  lemma PageChunkAtBreak(pages: seq<seq<TextItem>>, i: nat)
    requires i < |pages|
    ensures PageBreaks(pages)[i] + |PageChunk(pages[i])| <= |Assembled(pages)|
    ensures Assembled(pages)[PageBreaks(pages)[i]..PageBreaks(pages)[i] + |PageChunk(pages[i])|] == PageChunk(pages[i])
  {
    var before := Assembled(pages[..i]);
    AssembledPrefix(pages, i + 1, |pages|);
    assert pages[..|pages|] == pages;
    assert pages[..i + 1][..i] == pages[..i];
    assert Assembled(pages[..i + 1]) == before + PageChunk(pages[i]);
  }

  /**
   * The breaks index the untrimmed text, not the returned one: for a first
   * page holding "a" and an empty second page, the second break is 3 while
   * the returned text is the single character "a".
   */
  lemma BreaksIndexUntrimmedText()
    ensures PageBreaks([[TextRun("a")], []]) == [0, 3]
    ensures Trim(Assembled([[TextRun("a")], []])) == "a"
  {
    var pages: seq<seq<TextItem>> := [[TextRun("a")], []];
    ExampleAssembled();
    var b := PageBreaks(pages);
    assert b[0] == 0 by {
      assert pages[..0] == [];
    }
    assert b[1] == 3 by {
      assert pages[..1] == [[TextRun("a")]];
    }
    assert b == [b[0], b[1]];
    TrimOfPadded("", "a", "\n\n\n\n");
    assert "" + "a" + "\n\n\n\n" == "a\n\n\n\n";
  }

  /** The chunks of the two pages of the example above. */
  lemma ExampleChunks()
    ensures PageChunk([TextRun("a")]) == "a\n\n"
    ensures PageChunk([]) == "\n\n"
  {
    assert PageTexts([TextRun("a")]) == ["a"];
    assert PageTexts([]) == [];
  }

  /** The untrimmed text of one and of both pages of the example above. */
  lemma ExampleAssembled()
    ensures Assembled([[TextRun("a")]]) == "a\n\n"
    ensures Assembled([[TextRun("a")], []]) == "a\n\n\n\n"
  {
    ExampleChunks();
    var first: seq<TextItem> := [TextRun("a")];
    assert [first][..0] == [];
    assert Assembled([first]) == "" + PageChunk(first);
    var pages: seq<seq<TextItem>> := [first, []];
    assert pages[..1] == [first];
    assert Assembled(pages) == Assembled([first]) + PageChunk([]);
  }
}
