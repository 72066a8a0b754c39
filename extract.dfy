/**
 * Flattening an export into annotation records (extract_annotations_from_json,
 * from the point where the file has been decoded). Every document of the
 * top-level `docs` list gives its book name to each of its citations whose
 * quote (`note_body`) and note (`note_extra`) are both truthy.
 */
module Extract {
  import opened PyJson

  /** One extracted annotation. The fields hold the JSON values as found;
      a missing `note_page` is None. */
  datatype Record = Record(bookName: Json, page: Json, quote: Json, annotation: Json)

  /** `data['docs']` when the top level holds a list under `docs`. */
  predicate HasDocsList(top: Json) {
    top.JObj? && match Lookup(top.fields, "docs")
                 case Some(JArr(_)) => true
                 case _ => false
  }

  /** The documents the loop walks: none unless `docs` holds a list. */
  function Docs(top: Json): seq<Json> {
    if HasDocsList(top) then Lookup(top.fields, "docs").value.items else []
  }

  /** `doc.get('data', {})` */
  function DocData(doc: seq<(string, Json)>): Json {
    GetOr(doc, "data", JObj([]))
  }

  /** The book name of a document: a truthy `doc_title`, else whatever
      `doc_file_name_title` holds, else "Unknown Title". */
  function BookName(doc: seq<(string, Json)>): Json
    requires DocData(doc).JObj?
  {
    var info := DocData(doc).fields;
    var title := Get(info, "doc_title");
    if Truthy(title) then title else GetOr(info, "doc_file_name_title", JStr("Unknown Title"))
  }

  /** The citations of a document; a missing, empty or non-list `citations`
      gives none. */
  function Citations(doc: seq<(string, Json)>): seq<Json> {
    match Lookup(doc, "citations")
    case Some(JArr(cs)) => cs
    case _ => []
  }

  predicate AllObjects(js: seq<Json>) {
    forall j :: j in js ==> j.JObj?
  }

  /** A citation is kept when its quote and its note are both truthy. */
  predicate Qualifies(citation: Json)
    requires citation.JObj?
  {
    Truthy(Get(citation.fields, "note_body")) && Truthy(Get(citation.fields, "note_extra"))
  }

  function RecordOf(bookName: Json, citation: Json): Record
    requires citation.JObj?
  {
    Record(bookName, Get(citation.fields, "note_page"),
           Get(citation.fields, "note_body"), Get(citation.fields, "note_extra"))
  }

  /** A document the loop reads without raising: an object whose `data`, if
      present, is an object, and whose citation list holds objects only. */
  predicate DocReadable(doc: Json) {
    doc.JObj? && DocData(doc.fields).JObj? && AllObjects(Citations(doc.fields))
  }

  predicate AllReadable(docs: seq<Json>) {
    forall doc :: doc in docs ==> DocReadable(doc)
  }

  /** A decoded export the extractor processes without raising. */
  predicate Readable(top: Json) {
    top.JObj? && AllReadable(Docs(top))
  }

  /** The records of one document's citations, in citation order. */
  function CitationRecords(bookName: Json, citations: seq<Json>): (rs: seq<Record>)
    requires AllObjects(citations)
    ensures |rs| <= |citations|
    ensures forall r :: r in rs ==> r.bookName == bookName && Truthy(r.quote) && Truthy(r.annotation)
  {
    if citations == [] then []
    else
      (if Qualifies(citations[0]) then [RecordOf(bookName, citations[0])] else [])
      + CitationRecords(bookName, citations[1..])
  }

  function DocRecords(doc: Json): seq<Record>
    requires DocReadable(doc)
  {
    CitationRecords(BookName(doc.fields), Citations(doc.fields))
  }

  /** The records of a list of documents, in document order. */
  function ExtractDocs(docs: seq<Json>): (rs: seq<Record>)
    requires AllReadable(docs)
    ensures forall r :: r in rs ==> Truthy(r.quote) && Truthy(r.annotation)
  {
    if docs == [] then [] else DocRecords(docs[0]) + ExtractDocs(docs[1..])
  }

  /** What extract_annotations_from_json returns for a decoded export. */
  function Extracted(top: Json): seq<Record>
    requires Readable(top)
  {
    ExtractDocs(Docs(top))
  }

  /** The extraction loop of the source: one pass over the documents,
      resolving each one's book name and skipping those without citations. */
  method ExtractAnnotations(top: Json) returns (extracted: seq<Record>)
    requires Readable(top)
    ensures extracted == Extracted(top)
  {
    extracted := [];
    if !HasDocsList(top) {
      return [];
    }
    var docs := Lookup(top.fields, "docs").value.items;
    for i := 0 to |docs|
      invariant extracted == ExtractDocs(docs[..i])
    {
      ExtractDocsStep(docs, i);
      var doc := docs[i].fields;
      var bookName := Get(DocData(doc).fields, "doc_title");
      if !Truthy(bookName) {
        bookName := GetOr(DocData(doc).fields, "doc_file_name_title", JStr("Unknown Title"));
      }
      assert bookName == BookName(doc);
      var citations := Get(doc, "citations");
      if !Truthy(citations) || !citations.JArr? {
        assert Citations(doc) == [];
        continue;
      }
      assert citations.items == Citations(doc);
      extracted := AppendCitations(extracted, bookName, citations.items);
    }
    assert docs[..|docs|] == docs;
  }

  /** The inner loop: one record appended per qualifying citation. */
  method AppendCitations(start: seq<Record>, bookName: Json, cs: seq<Json>) returns (extracted: seq<Record>)
    requires AllObjects(cs)
    ensures extracted == start + CitationRecords(bookName, cs)
  {
    extracted := start;
    for j := 0 to |cs|
      invariant extracted == start + CitationRecords(bookName, cs[..j])
    {
      CitationRecordsStep(bookName, cs, j);
      var citation := cs[j].fields;
      var pageNumber := Get(citation, "note_page");
      var quote := Get(citation, "note_body");
      var annotation := Get(citation, "note_extra");
      if Truthy(quote) && Truthy(annotation) {
        extracted := extracted + [Record(bookName, pageNumber, quote, annotation)];
      }
    }
    assert cs[..|cs|] == cs;
  }

  lemma CitationRecordsStep(bookName: Json, cs: seq<Json>, j: nat)
    requires AllObjects(cs) && j < |cs|
    ensures CitationRecords(bookName, cs[..j + 1]) == CitationRecords(bookName, cs[..j]) +
      (if Qualifies(cs[j]) then [RecordOf(bookName, cs[j])] else [])
  {
    assert cs[..j + 1] == cs[..j] + [cs[j]];
    CitationRecordsAppend(bookName, cs[..j], [cs[j]]);
    assert [cs[j]][1..] == [];
  }

  lemma ExtractDocsStep(docs: seq<Json>, i: nat)
    requires AllReadable(docs) && i < |docs|
    ensures DocReadable(docs[i])
    ensures ExtractDocs(docs[..i + 1]) == ExtractDocs(docs[..i]) + DocRecords(docs[i])
  {
    assert docs[i] in docs;
    assert docs[..i + 1] == docs[..i] + [docs[i]];
    ExtractDocsAppend(docs[..i], [docs[i]]);
    assert [docs[i]][1..] == [];
  }

  lemma {:induction false} CitationRecordsAppend(bookName: Json, a: seq<Json>, b: seq<Json>)
    requires AllObjects(a) && AllObjects(b)
    ensures CitationRecords(bookName, a + b) == CitationRecords(bookName, a) + CitationRecords(bookName, b)
  {
    if a == [] {
      assert a + b == b;
    } else {
      assert (a + b)[0] == a[0];
      assert (a + b)[1..] == a[1..] + b;
      CitationRecordsAppend(bookName, a[1..], b);
      var head := if Qualifies(a[0]) then [RecordOf(bookName, a[0])] else [];
      assert CitationRecords(bookName, a + b) == head + CitationRecords(bookName, a[1..] + b);
      assert CitationRecords(bookName, a) == head + CitationRecords(bookName, a[1..]);
    }
  }

  /** The records of consecutive document lists are the records of each,
      one after the other. */
  lemma {:induction false} ExtractDocsAppend(a: seq<Json>, b: seq<Json>)
    requires AllReadable(a) && AllReadable(b)
    ensures ExtractDocs(a + b) == ExtractDocs(a) + ExtractDocs(b)
  {
    if a == [] {
      assert a + b == b;
    } else {
      assert (a + b)[0] == a[0];
      assert (a + b)[1..] == a[1..] + b;
      ExtractDocsAppend(a[1..], b);
      assert ExtractDocs(a + b) == DocRecords(a[0]) + ExtractDocs(a[1..] + b);
    }
  }

  /** Without a `docs` list there is nothing to extract. */
  lemma ExtractWithoutDocs(top: Json)
    requires top.JObj? && !HasDocsList(top)
    ensures Readable(top) && Extracted(top) == []
  {
  }

  /** A document without usable citations contributes no record, and the
      documents after it are processed as if it were not there. */
  lemma SkippedDocument(before: seq<Json>, doc: Json, after: seq<Json>)
    requires AllReadable(before) && DocReadable(doc) && AllReadable(after)
    requires Citations(doc.fields) == []
    ensures AllReadable(before + [doc] + after)
    ensures DocRecords(doc) == []
    ensures ExtractDocs(before + [doc] + after) == ExtractDocs(before) + ExtractDocs(after)
  {
    var mid := before + [doc];
    assert AllReadable([doc]);
    assert AllReadable(mid);
    assert DocRecords(doc) == [];
    assert ExtractDocs([doc]) == [] by {
      assert [doc][1..] == [];
    }
    ExtractDocsAppend(before, [doc]);
    assert ExtractDocs(mid) == ExtractDocs(before);
    ExtractDocsAppend(mid, after);
  }

  /** A record is extracted exactly when some citation of some document
      qualifies and yields it. */
  lemma {:induction false} CitationRecordsMembership(bookName: Json, cs: seq<Json>, r: Record)
    requires AllObjects(cs)
    ensures r in CitationRecords(bookName, cs) <==>
      exists c :: c in cs && Qualifies(c) && r == RecordOf(bookName, c)
  {
    if cs != [] {
      CitationRecordsMembership(bookName, cs[1..], r);
      var head := if Qualifies(cs[0]) then [RecordOf(bookName, cs[0])] else [];
      assert CitationRecords(bookName, cs) == head + CitationRecords(bookName, cs[1..]);
      if r in CitationRecords(bookName, cs) {
        if r in head {
          assert cs[0] in cs;
        } else {
          var c :| c in cs[1..] && Qualifies(c) && r == RecordOf(bookName, c);
          assert c in cs;
        }
      } else {
        forall c | c in cs && Qualifies(c)
          ensures r != RecordOf(bookName, c)
        {
          var k :| 0 <= k < |cs| && cs[k] == c;
          if k > 0 {
            assert c == cs[1..][k - 1];
          }
        }
      }
    }
  }

  lemma {:induction false} ExtractDocsMembership(docs: seq<Json>, r: Record)
    requires AllReadable(docs)
    ensures r in ExtractDocs(docs) <==>
      exists doc, c :: doc in docs && c in Citations(doc.fields) && Qualifies(c) &&
        r == RecordOf(BookName(doc.fields), c)
  {
    if docs != [] {
      ExtractDocsMembership(docs[1..], r);
      var d := docs[0];
      assert d in docs;
      CitationRecordsMembership(BookName(d.fields), Citations(d.fields), r);
      if r in ExtractDocs(docs) {
        if r in DocRecords(d) {
          var c :| c in Citations(d.fields) && Qualifies(c) && r == RecordOf(BookName(d.fields), c);
          assert d in docs;
        } else {
          var doc, c :| doc in docs[1..] && c in Citations(doc.fields) && Qualifies(c) &&
            r == RecordOf(BookName(doc.fields), c);
          assert doc in docs;
        }
      } else {
        forall doc, c | doc in docs && c in Citations(doc.fields) && Qualifies(c)
          ensures r != RecordOf(BookName(doc.fields), c)
        {
          var k :| 0 <= k < |docs| && docs[k] == doc;
          if k > 0 {
            assert doc == docs[1..][k - 1];
          }
        }
      }
    }
  }

  /** Membership in the whole extraction. */
  lemma ExtractedMembership(top: Json, r: Record)
    requires Readable(top)
    ensures r in Extracted(top) <==>
      exists doc, c :: doc in Docs(top) && c in Citations(doc.fields) && Qualifies(c) &&
        r == RecordOf(BookName(doc.fields), c)
  {
    ExtractDocsMembership(Docs(top), r);
  }

  /** The positions of the qualifying citations, in increasing order. */
  function QualifyingIndices(cs: seq<Json>): (idx: seq<nat>)
    requires AllObjects(cs)
    ensures forall k :: 0 <= k < |idx| ==> idx[k] < |cs| && Qualifies(cs[idx[k]])
    ensures forall k, l :: 0 <= k < l < |idx| ==> idx[k] < idx[l]
    ensures forall j :: 0 <= j < |cs| && Qualifies(cs[j]) ==> j in idx
  {
    if cs == [] then []
    else
      var n := |cs| - 1;
      assert forall j :: 0 <= j < n ==> cs[..n][j] == cs[j];
      var prefix := QualifyingIndices(cs[..n]);
      prefix + (if Qualifies(cs[n]) then [n] else [])
  }

  /** Exactly one record per qualifying citation, in citation order. */
  lemma {:induction false} CitationRecordsFollowCitations(bookName: Json, cs: seq<Json>)
    requires AllObjects(cs)
    ensures var idx := QualifyingIndices(cs);
      var rs := CitationRecords(bookName, cs);
      && |rs| == |idx|
      && forall k :: 0 <= k < |idx| ==> rs[k] == RecordOf(bookName, cs[idx[k]])
  {
    if cs != [] {
      var n := |cs| - 1;
      var p := cs[..n];
      assert cs == p + [cs[n]];
      CitationRecordsFollowCitations(bookName, p);
      CitationRecordsAppend(bookName, p, [cs[n]]);
      assert [cs[n]][1..] == [];
      var idxp := QualifyingIndices(p);
      forall k | 0 <= k < |idxp|
        ensures cs[idxp[k]] == p[idxp[k]]
      {
      }
    }
  }

  /** The book name resolution of the source, case by case. */
  lemma BookNameCases(doc: seq<(string, Json)>)
    requires DocData(doc).JObj?
    ensures var info := DocData(doc).fields;
      var title := Lookup(info, "doc_title");
      var fileTitle := Lookup(info, "doc_file_name_title");
      && (title.Some? && Truthy(title.value) ==> BookName(doc) == title.value)
      && (!(title.Some? && Truthy(title.value)) && fileTitle.Some? ==> BookName(doc) == fileTitle.value)
      && (!(title.Some? && Truthy(title.value)) && fileTitle.None? ==> BookName(doc) == JStr("Unknown Title"))
  {
  }

  /** The three title cases (a `doc_title`, only a `doc_file_name_title`,
      neither), and an empty `doc_file_name_title`, which is kept as the name. */
  lemma BookNameExamples(a: Json, b: Json, neither: Json, empty: Json)
    requires a == JObj([("doc_title", JStr("A"))])
    requires b == JObj([("doc_file_name_title", JStr("B"))])
    requires neither == JObj([])
    requires empty == JObj([("doc_title", JStr("")), ("doc_file_name_title", JStr(""))])
    ensures BookName([("data", a)]) == JStr("A")
    ensures BookName([("data", b)]) == JStr("B")
    ensures BookName([("data", neither)]) == JStr("Unknown Title")
    ensures BookName([]) == JStr("Unknown Title")
    ensures BookName([("data", empty)]) == JStr("")
  {
  }
}
