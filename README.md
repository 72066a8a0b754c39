# Readera annotation extractor, modelled in Dafny

`extract_annotations.py` reads a Readera JSON export. The export has a top-level
`docs` list, one document per book. Each document has a `data` object holding
its titles and a `citations` list holding the highlighted quotes with their
notes. The program flattens these into annotation records, keeping only
citations whose quote (`note_body`) and note (`note_extra`) are both truthy.
In PDF mode it then groups the records by book name and prepares one table
per book, written to a file named after the sanitised title.

The model has five modules, one per file:

- `PyJson` (`pyjson.dfy`): decoded JSON values, and the parts of Python the
  program relies on. These are truthiness, `dict.get` (last occurrence wins for
  a repeated key, as `json.load` does) and `str`.
- `Extract` (`extract.dfy`): the extraction loop, proved equal to a recursive
  specification `Extracted`, and the properties of that specification.
- `Sanitize` (`sanitize.dfy`): `sanitize_filename` and its properties.
- `Group` (`group.dfy`): the grouping loop of the entry point, proved equal to
  `Grouped`, and the properties of that dict.
- `Report` (`report.dfy`): the file name and the table rows prepared by
  `save_book_to_pdf`, the PDF-mode loop that calls it once per book, and an
  end-to-end example.

A Python dict that keeps insertion order is modelled as a sequence of
(key, list) pairs with distinct keys. Key equality follows Python: `True`
equals `1` and `False` equals `0`, and a key keeps the value it was first
stored under. Inputs that make the program raise are the preconditions of
the operations:

- a document, `data` object or citation that is not an object;
- a list or dict used as a book name while grouping;
- a book name that is not a string when the file name is built.

The title fallback follows the code. A falsy `doc_title` gives
`data.get('doc_file_name_title', 'Unknown Title')`. That value is used as
found, even when it is empty or null. It is not used only when it is
non-empty. `Extract.BookNameExamples` shows the empty case.

Two consequences of the code are proved, not assumed:

- The "no annotations found for this book" branch of `save_book_to_pdf` is
  never taken. A non-empty list always gives the header row plus at least one
  data row.
- The page placeholder "N/A" never appears for records from the grouping
  loop. That loop always stores a `page_number` key, so a citation without
  `note_page` shows "None".

## Model

| member | source | states |
|---|---|---|
| PyJson.Lookup | extract_annotations.py:41-55 | `dict.get` on a decoded object: no result exactly when no member has the key; otherwise the value of the key's last occurrence |
| PyJson.DecimalRoundTrip | extract_annotations.py:113 | the decimal text of a page number reads back as that number |
| PyJson.ShowNotAvailable | extract_annotations.py:113 | `str` of a value is "N/A" exactly when the value is the string "N/A" |
| Extract.ExtractAnnotations | extract_annotations.py:36-65 | the nested extraction loop returns exactly the specified record list `Extracted(top)` |
| Extract.AppendCitations | extract_annotations.py:51-63 | the inner loop appends, in order, the records of the qualifying citations of one document |
| Extract.CitationRecords | extract_annotations.py:51-63 | a document gives at most one record per citation; each record carries the document's book name and a truthy quote and note |
| Extract.ExtractDocs | extract_annotations.py:40-63 | every extracted record has a truthy quote and a truthy note |
| Extract.ExtractWithoutDocs | extract_annotations.py:36-38 | a missing `docs` key, or a `docs` value that is not a list, gives the empty list |
| Extract.SkippedDocument | extract_annotations.py:47-49 | a document with missing, empty or non-list citations contributes nothing, wherever it stands |
| Extract.ExtractDocsAppend | extract_annotations.py:40-63 | the records of two consecutive document lists are the records of the first, then those of the second |
| Extract.CitationRecordsAppend | extract_annotations.py:51-63 | the records of two consecutive citation lists are the records of the first, then those of the second |
| Extract.ExtractedMembership | extract_annotations.py:40-63 | a record is extracted if and only if some document holds a qualifying citation it is made from, under that document's book name |
| Extract.QualifyingIndices | extract_annotations.py:51-57 | the positions of the citations that pass the filter, in strictly increasing order and all of them |
| Extract.CitationRecordsFollowCitations | extract_annotations.py:51-63 | one record per qualifying citation, the k-th record made from the k-th qualifying citation |
| Extract.BookNameCases | extract_annotations.py:41-44 | a truthy `doc_title` names the book; otherwise `doc_file_name_title` when present, whatever it holds; otherwise "Unknown Title" |
| Extract.BookNameExamples | extract_annotations.py:41-44 | the titled, file-named, untitled and missing-`data` documents, and an empty file-name title kept as the name |
| Sanitize.DeleteForbidden | extract_annotations.py:70 | the substitution leaves no forbidden character, adds no space, never lengthens, and leaves a string without forbidden characters unchanged |
| Sanitize.SpacesToUnderscores | extract_annotations.py:72 | the same length, each space turned to `_` and every other character kept |
| Sanitize.Truncate | extract_annotations.py:75 | the first min(200, length) characters: exactly 200 of a longer string, the whole string when it is short enough |
| Sanitize.SanitizeFilename | extract_annotations.py:67-75 | the stem has at most 200 characters, and none is a space or one of the nine forbidden characters |
| Sanitize.TwoPassesAreOnePass | extract_annotations.py:70-72 | deleting and then replacing equals the one-pass cleaning `Cleaned` |
| Sanitize.SanitizeIsCleanedPrefix | extract_annotations.py:67-75 | the stem is the first min(200, length) characters of the cleaned title |
| Sanitize.SanitizeKeepsSafeNames | extract_annotations.py:67-75 | a safe title of at most 200 characters is its own stem |
| Sanitize.SanitizeIdempotent | extract_annotations.py:67-75 | sanitising a stem again changes nothing |
| Sanitize.SanitizeExample | extract_annotations.py:67-75 | "My/Book Title" becomes "MyBook_Title" |
| Sanitize.DeleteAppend | extract_annotations.py:70 | the substitution works piece by piece over concatenation |
| Group.Find | extract_annotations.py:169 | `book_name in books_data`: the position of the key equal to the name, or -1 exactly when no key is equal |
| Group.GroupByBook | extract_annotations.py:166-176 | the grouping loop builds exactly the specified dict `Grouped(records)` |
| Group.GroupedStep | extract_annotations.py:167-176 | one more record opens a new book at the end when its name is new, and otherwise appends its entry to that book's list alone |
| Group.TitlesUnique | extract_annotations.py:169-170 | no two keys are equal as dict keys |
| Group.TitlesOfPrefix | extract_annotations.py:169-170 | keys are only ever added at the end |
| Group.TitlesListEveryRecord | extract_annotations.py:167-172 | every record's book name is a key |
| Group.EntriesUnlisted | extract_annotations.py:169-176 | a name that is no key has no entries |
| Group.FirstIndex | extract_annotations.py:169-170 | the first record filed under a name |
| Group.TitlesFirstSeen | extract_annotations.py:169-170 | each key is the name of the first record filed under it, and keys are ordered by that record's position |
| Group.EntriesForMembership | extract_annotations.py:172-176 | an entry is in a book's list if and only if some record of that book gives it |
| Group.EntriesNonEmpty | extract_annotations.py:169-176 | no book's list is empty |
| Group.TotalEntriesGrow | extract_annotations.py:172 | appending to one list raises the total by one |
| Group.GroupedTotal | extract_annotations.py:167-176 | the lists together hold exactly as many entries as there were records |
| Report.SaveBookToPdf | extract_annotations.py:86-123 | nothing for an empty list; otherwise the file `sanitize(title) + "_Annotations.pdf"`, the title as heading, and a table of the header row and then one row per annotation in order (1 + n rows, never the notice) |
| Report.SavePdfs | extract_annotations.py:164-182 | one document per book in key order, each with its file name from the sanitised title, the title as heading, the header row, and one data row per entry of that book |
| Report.PagePlaceholderOnlyWhenAbsent | extract_annotations.py:113 | the page cell is "N/A" exactly when the page key is absent or holds the string "N/A" |
| Report.GroupedRowsShowRecords | extract_annotations.py:113-115 | a grouped record's row is the `str` of its page, quote and note; "N/A" only for the page "N/A"; "None" for a missing page |
| Report.WorkedExample | extract_annotations.py:36-65 | the one-document, one-citation export gives one record for book "T" and one book with one entry |
| Report.ExampleCitation | extract_annotations.py:51-63 | the example citation qualifies and gives page 5, quote "Q" and note "A" |
| Report.ExampleDocument | extract_annotations.py:41-48 | the example document is named "T" by its `doc_title` and has one citation |
| Report.ExampleOutput | extract_annotations.py:90-121 | the example book is written to "T_Annotations.pdf" with the data row ["5", "Q", "A"] |

## Left out

- Reading the file and decoding the JSON (lines 26-34). The model starts from the decoded value, so the two error messages and their empty results are not modelled.
- A top level that is not a JSON object. Python returns the empty list for a list or string that does not contain "docs", and raises for one that does and for any other value. The model requires an object.
- JSON numbers with a fraction or exponent. Numbers are integers, so the page cell of a float page is not modelled.
- PyJson.Repr: the `str` of a list or dict is an approximation of Python's `repr`. Quotes inside strings are not escaped, and a repeated key is printed once per occurrence. Only the first character and non-emptiness are relied on.
- The layout by the PDF library (lines 93-104 and 127-148): page size, margins, styles, column widths, table style, and the text-wrapping Paragraph objects. A cell is modelled by its text.
- `os.path.join` with `base_path` (line 91). The model gives the file name relative to the output directory, which is always "." here.
- Building the document and the error caught around it (lines 144-148). Nothing is written.
- Argument parsing, the early exit on an empty result, the "no books found" message, and the console listing (lines 151-162, 178-179 and 184-191).
- Everything printed by the program.
- The records handed over before a crash. When a book name is not a string, the Python writes the earlier books and then raises. The model instead requires every book name to be a string.
