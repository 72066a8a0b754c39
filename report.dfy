/**
 * What save_book_to_pdf prepares for the document library, and the PDF mode
 * of the entry point that calls it once per book: the output file name and
 * the table rows. The layout itself is the library's business.
 */
module Report {
  import opened PyJson
  import opened Extract
  import opened Sanitize
  import opened Group

  const FileSuffix: string := "_Annotations.pdf"
  const Header: seq<string> := ["Page No.", "Quote", "Annotation"]
  /** The page cell of an annotation that has no `page_number` key. */
  const PagePlaceholder: string := "N/A"

  /** A table of rows of cell texts, or the notice for a book without
      annotations. */
  datatype Body = Table(rows: seq<seq<string>>) | NoAnnotationsNotice

  /** One book's document: the file it goes to, its heading and its body. */
  datatype BookPdf = BookPdf(fileName: string, title: string, body: Body)

  /** `str(ann.get(key, default))` */
  function Cell(v: Option<Json>, default: string): string {
    match v
    case Some(j) => Show(j)
    case None => default
  }

  /** The table row of one annotation: page, quote, note. */
  function RowOf(e: Entry): seq<string> {
    [Cell(e.page, PagePlaceholder), Cell(e.quote, ""), Cell(e.annotation, "")]
  }

  /** save_book_to_pdf up to the document library: nothing for an empty
      list, otherwise the file name and a table with a header row and one
      row per annotation, in order. */
  method SaveBookToPdf(bookTitle: Json, annotations: seq<Entry>) returns (pdf: Option<BookPdf>)
    requires annotations != [] ==> bookTitle.JStr?
    ensures pdf.None? <==> annotations == []
    ensures pdf.Some? ==>
      && pdf.value.fileName == SanitizeFilename(bookTitle.s) + FileSuffix
      && pdf.value.title == bookTitle.s
      && pdf.value.body.Table?
      && |pdf.value.body.rows| == |annotations| + 1
      && pdf.value.body.rows[0] == Header
      && forall i :: 0 <= i < |annotations| ==> pdf.value.body.rows[i + 1] == RowOf(annotations[i])
  {
    if annotations == [] {
      return None;
    }
    var safeTitle := SanitizeFilename(bookTitle.s);
    var pdfFilename := safeTitle + FileSuffix;
    var data := [Header];
    for i := 0 to |annotations|
      invariant |data| == i + 1 && data[0] == Header
      invariant forall k :: 0 <= k < i ==> data[k + 1] == RowOf(annotations[k])
    {
      var ann := annotations[i];
      var pageStr := Cell(ann.page, PagePlaceholder);
      var quoteStr := Cell(ann.quote, "");
      var annotationStr := Cell(ann.annotation, "");
      data := data + [[pageStr, quoteStr, annotationStr]];
    }
    var body := if |data| == 1 then NoAnnotationsNotice else Table(data);
    pdf := Some(BookPdf(pdfFilename, bookTitle.s, body));
  }

  /** The PDF mode of the entry point: group the records by book, then
      prepare one document per book, in first-seen order. */
  method SavePdfs(records: seq<Record>) returns (pdfs: seq<Option<BookPdf>>)
    requires forall r :: r in records ==> r.bookName.JStr?
    ensures |pdfs| == |Titles(records)|
    ensures forall i :: 0 <= i < |pdfs| ==>
      var title := Titles(records)[i];
      var annotations := EntriesFor(records, title);
      && pdfs[i].Some?
      && pdfs[i].value.fileName == SanitizeFilename(Show(title)) + FileSuffix
      && pdfs[i].value.title == Show(title)
      && pdfs[i].value.body.Table?
      && |pdfs[i].value.body.rows| == |annotations| + 1
      && pdfs[i].value.body.rows[0] == Header
      && forall k :: 0 <= k < |annotations| ==> pdfs[i].value.body.rows[k + 1] == RowOf(annotations[k])
  {
    var booksData := GroupByBook(records);
    EntriesNonEmpty(records);
    TitlesFirstSeen(records);
    pdfs := [];
    if |booksData| == 0 {
      return;
    }
    for i := 0 to |booksData|
      invariant |pdfs| == i
      invariant forall j :: 0 <= j < i ==>
        var title := Titles(records)[j];
        var annotations := EntriesFor(records, title);
        && pdfs[j].Some?
        && pdfs[j].value.fileName == SanitizeFilename(Show(title)) + FileSuffix
        && pdfs[j].value.title == Show(title)
        && pdfs[j].value.body.Table?
        && |pdfs[j].value.body.rows| == |annotations| + 1
        && pdfs[j].value.body.rows[0] == Header
        && forall k :: 0 <= k < |annotations| ==> pdfs[j].value.body.rows[k + 1] == RowOf(annotations[k])
    {
      var (bookTitle, annotationsForBook) := booksData[i];
      var title := Titles(records)[i];
      var p := FirstIndex(records, title);
      assert records[p] in records;
      var pdf := SaveBookToPdf(bookTitle, annotationsForBook);
      pdfs := pdfs + [pdf];
    }
  }

  /** "N/A" shows in the page cell only when the `page_number` key is
      absent, or when the page is that very string. */
  lemma PagePlaceholderOnlyWhenAbsent(e: Entry)
    ensures RowOf(e)[0] == PagePlaceholder <==> e.page.None? || e.page == Some(JStr(PagePlaceholder))
  {
    if e.page.Some? {
      ShowNotAvailable(e.page.value);
    }
  }

  /** The rows of grouped records: the grouping always stores a page, so a
      citation without `note_page` shows "None", not the placeholder. */
  lemma GroupedRowsShowRecords(r: Record)
    ensures RowOf(EntryOf(r)) == [Show(r.page), Show(r.quote), Show(r.annotation)]
    ensures RowOf(EntryOf(r))[0] == PagePlaceholder <==> r.page == JStr(PagePlaceholder)
    ensures r.page == JNull ==> RowOf(EntryOf(r))[0] == "None"
  {
    PagePlaceholderOnlyWhenAbsent(EntryOf(r));
  }

  /** An end-to-end example: one document titled
      "T" with one citation on page 5 gives one record, one book, the file
      "T_Annotations.pdf" and the data row ["5", "Q", "A"]. */
  lemma WorkedExample(citation: Json, doc: Json, top: Json)
    requires citation == JObj([("note_page", JNum(5)), ("note_body", JStr("Q")), ("note_extra", JStr("A"))])
    requires doc == JObj([("data", JObj([("doc_title", JStr("T"))])), ("citations", JArr([citation]))])
    requires top == JObj([("docs", JArr([doc]))])
    ensures Readable(top)
    ensures Extracted(top) == [Record(JStr("T"), JNum(5), JStr("Q"), JStr("A"))]
    ensures Titles(Extracted(top)) == [JStr("T")]
    ensures EntriesFor(Extracted(top), JStr("T")) == [Entry(Some(JNum(5)), Some(JStr("Q")), Some(JStr("A")))]
  {
    ExampleCitation(citation);
    ExampleDocument(doc, citation);
    var r := Record(JStr("T"), JNum(5), JStr("Q"), JStr("A"));
    assert Docs(top) == [doc];
    assert CitationRecords(JStr("T"), [citation]) == [r];
    assert ExtractDocs([doc]) == [r] + ExtractDocs([]);
    assert Titles([r]) == Titles([]) + [JStr("T")];
    assert EntriesFor([r], JStr("T")) == EntriesFor([], JStr("T")) + [EntryOf(r)];
  }

  /** The example's book goes to "T_Annotations.pdf", and its one row reads
      ["5", "Q", "A"]. */
  lemma ExampleOutput(title: string, e: Entry)
    requires title == "T" && e == Entry(Some(JNum(5)), Some(JStr("Q")), Some(JStr("A")))
    ensures SanitizeFilename(title) + FileSuffix == "T_Annotations.pdf"
    ensures RowOf(e) == ["5", "Q", "A"]
  {
    SanitizeKeepsSafeNames(title);
    assert Show(JNum(5)) == [DigitChar(5)];
  }

  /** The example's citation qualifies and gives page 5, quote "Q", note "A". */
  lemma ExampleCitation(citation: Json)
    requires citation == JObj([("note_page", JNum(5)), ("note_body", JStr("Q")), ("note_extra", JStr("A"))])
    ensures Qualifies(citation)
    ensures RecordOf(JStr("T"), citation) == Record(JStr("T"), JNum(5), JStr("Q"), JStr("A"))
  {
    assert "note_extra" != "note_body" by { assert "note_extra"[5] != "note_body"[5]; }
    assert "note_extra" != "note_page" by { assert "note_extra"[5] != "note_page"[5]; }
    assert "note_body" != "note_page" by { assert "note_body"[5] != "note_page"[5]; }
    var cf := citation.fields;
    assert Lookup(cf, "note_page") == Lookup(cf[..2], "note_page");
    assert Lookup(cf[..2], "note_page") == Lookup(cf[..1], "note_page");
    assert Lookup(cf, "note_body") == Lookup(cf[..2], "note_body");
  }

  /** The example's document is named by its `doc_title` and cites one
      citation. */
  lemma ExampleDocument(doc: Json, citation: Json)
    requires citation.JObj?
    requires doc == JObj([("data", JObj([("doc_title", JStr("T"))])), ("citations", JArr([citation]))])
    ensures DocReadable(doc)
    ensures BookName(doc.fields) == JStr("T")
    ensures Citations(doc.fields) == [citation]
  {
    var info := JObj([("doc_title", JStr("T"))]);
    assert "citations" != "data" by { assert "citations"[0] != "data"[0]; }
    assert Lookup(doc.fields, "data") == Lookup([("data", info)], "data");
    assert DocData(doc.fields) == info;
    assert Get(info.fields, "doc_title") == JStr("T");
  }
}
