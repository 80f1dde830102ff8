# PDFS-easy: personalised PDF batches, modelled in Dafny

PDFS-easy turns one template PDF and one CSV file of credentials into a batch
of PDFs. Each output shows one row's login and password. The work happens in
`app.py`:

- `load_rows_from_csv` validates the CSV records and turns them into `CredentialRow`s.
- `escape_pdf` escapes a credential for a PDF literal string.
- `ensure_font` makes sure the page binds the font `/FSP` (Helvetica, WinAnsiEncoding).
- `update_page_text` finds the placeholder block (`PLACEHOLDER_PATTERN`) in the
  page's content stream. It replaces the block with one that shows the
  credentials, using `re.subn`, and stores the result as a new stream.
- `generate_pdfs` copies every template page into a fresh writer once per row.
  It patches the chosen page unless credentials are kept.

The Dafny modules follow that structure:

| file | module | models |
|---|---|---|
| `results.dfy` | `Results` | `Option`, `Result`, `Outcome`; exceptions become `Err`/`Fail` values |
| `text.dfy` | `Text` | `str.strip()` over Python's whitespace set, `encode("latin1")` |
| `pdf_escape.dfy` | `PdfEscape` | `escape_pdf`, and a reader for PDF literal strings (section 7.3.4.2 of ISO 32000-1) that reads the escaped text back |
| `placeholder.dfy` | `Placeholder` | `PLACEHOLDER_PATTERN` as a recogniser, `subn`, and the replacement-template processing of Python's `re` |
| `pdf_objects.dfy` | `PdfObjects` | the PDF objects the patcher touches, a page (`PdfPage`) and a writer (`PdfWriter`) as classes |
| `fonts.dfy` | `Fonts` | `ensure_font`: a specification function on page states, and a method on `PdfPage`/`PdfWriter` proved against it |
| `content_patch.dfy` | `ContentPatch` | `update_page_text` with the replacement block inserted verbatim, as a function and as a method proved against it; the source's own insertion through `re.subn`'s template expansion is modelled beside it, for the finding below |
| `credentials.dfy` | `Credentials` | `CredentialRow`, `load_rows_from_csv` over the records the CSV reader yields |
| `batch.dfy` | `Batch` | `generate_pdfs` over documents held as pages and an object table |

Ordinary function arguments stand in for the input files and the CSV reader.
The header is `Option<seq<string>>` (`fieldnames`), a record is a
`map<string, string>`, and a template is a `Document`. Bytes are strings whose
characters all lie below U+0100.

## Model

| member | source | states |
|---|---|---|
| Text.LeadingWhitespace | app.py:55-57 | the count of leading characters that `str.strip()` removes: all of them whitespace, and the next one not |
| Text.TrailingWhitespace | app.py:55-57 | the count of trailing characters that `str.strip()` removes: all of them whitespace, and the one before them not |
| Text.StripSpec | app.py:55-57 | `strip()` leaves the slice that follows the leading whitespace; only whitespace comes after it; the result neither starts nor ends with whitespace |
| Text.StripIdempotent | app.py:55-57 | stripping a stripped field changes nothing |
| Text.Latin1 | app.py:116-122 | `encode("latin1")` succeeds exactly when every character is below U+0100, and then keeps the text byte for byte |
| PdfEscape.EscapePdf | app.py:69-70 | `escape_pdf` as the source chains it; what it means is stated by `EscapePdfIsEscaped`, `EscapedLength`, `EscapedAt`, `UnescapeEscapePdf` and `ReadEscapedLiteral` |
| PdfEscape.ReplaceChar | app.py:70 | `str.replace` leaves text without the character unchanged |
| PdfEscape.ReplaceCharAppend | app.py:70 | `str.replace` of a single character works piecewise over a concatenation |
| PdfEscape.EscapePdfIsEscaped | app.py:69-70 | the three chained `replace` calls equal escaping each character on its own: `\`, `(` and `)` get a backslash in front, nothing else changes |
| PdfEscape.EscapedLength | app.py:69-70 | the escaped text is longer by exactly the number of backslashes and parentheses |
| PdfEscape.EscapedLengthRef | app.py:69-70 | the same length law for the per-character definition |
| PdfEscape.EscapedAt | app.py:69-70 | where each input character lands in the output, and that a special character gets exactly one backslash before it |
| PdfEscape.EscapedAtRef | app.py:69-70 | the same position law for the per-character definition |
| PdfEscape.UnescapeEscapePdf | app.py:69-70 | escaping is undone by unescaping, so it is injective |
| PdfEscape.UnescapeEscaped | app.py:69-70 | the round trip for the per-character definition |
| PdfEscape.EscapeUnescapeStable | app.py:69-70 | re-escaping an unescaped escape gives the same text |
| PdfEscape.NormaliseEol | app.py:119-121 | the text a PDF reader makes of raw line ends inside a literal string: CR and CR LF become LF (section 7.3.4.2 of ISO 32000-1) |
| PdfEscape.NormaliseEolWithoutCr | app.py:119-121 | text without a carriage return is left as it is |
| PdfEscape.ReadEscapedLiteral | app.py:119-121 | a PDF reader reading `(escape_pdf(s))` gets back `s` with its line ends normalised, exactly `s` when it has no carriage return, and stops at the closing parenthesis |
| PdfEscape.ReadEscaped | app.py:119-121 | the same, for the per-character definition, by induction over the text |
| PdfEscape.ReadEscapedCrLf | app.py:119-121 | induction step: an escaped CR LF is read as one LF |
| PdfEscape.ReadEscapedFirst | app.py:119-121 | induction step: any other first character is read back as itself, or a lone CR as LF |
| Placeholder.Spaces | app.py:28 | the length of the `\s*` run at the start of the text, followed by a non-space |
| Placeholder.SplitSpaces | app.py:28 | splits a text into its leading `\s` run and a rest that starts with a non-space |
| Placeholder.AfterLiteral | app.py:28 | what follows a literal, which must start the text |
| Placeholder.CloseIndex | app.py:28 | the first `]`, with none before it (`[^\]]`) |
| Placeholder.ShowText | app.py:28 | a match of `\[[^\]]+\]TJ`: a non-empty payload free of `]` |
| Placeholder.MatchAtom | app.py:28 | a matched element accepts its piece, and the piece is a prefix of the text |
| Placeholder.MatchAtoms | app.py:28 | a matched element sequence accepts its pieces in order, and they are a prefix of the text |
| Placeholder.Match | app.py:27-30 | a match is an occurrence of `PLACEHOLDER_PATTERN` at the start of the text, and it is never empty |
| Placeholder.PatternDeterministic | app.py:27-30 | every `\s` run in the pattern is followed by a part that cannot start with a space |
| Placeholder.SpacesCount | app.py:28 | a space run followed by a non-space is counted exactly |
| Placeholder.SpacesThen | app.py:28 | a space run followed by a non-space is split exactly there |
| Placeholder.LiteralThen | app.py:28 | a literal at the start is consumed exactly |
| Placeholder.CloseIndexThen | app.py:28 | the first `]` is found exactly where the payload ends |
| Placeholder.ShowTextThen | app.py:28 | every `[payload]TJ` with a non-empty, `]`-free payload is matched exactly |
| Placeholder.MatchAtomThen | app.py:28 | each pattern element matches every piece it accepts, and nothing longer |
| Placeholder.MatchAtomsThen | app.py:28 | completeness of the matcher: every accepted piece sequence is found, by induction over the elements |
| Placeholder.MatchOccurrence | app.py:27-30 | every occurrence of the pattern at the start of a text is the match found there |
| Placeholder.Subn | app.py:124 | `re.subn` with a replacement inserted verbatim, scanning left to right and resuming after each match; its meaning is stated by `SubnNoMatch`, `SubnSplice` and `ExactlyOnce` |
| Placeholder.SubnNoMatch | app.py:124-126 | `subn` reports zero replacements exactly when no occurrence exists, and then returns the text unchanged |
| Placeholder.SubnSplice | app.py:124 | text before the first occurrence is copied, the occurrence is replaced, and scanning resumes after it |
| Placeholder.ExactlyOnce | app.py:124 | a stream holding one occurrence gets exactly that occurrence replaced, with count 1 |
| Placeholder.ExpandTemplate | app.py:124 | the replacement-template processing `re.subn` applies to a string replacement: `\\` becomes `\`, `\a \b \f \n \r \t \v` become control characters, an escape of any other ASCII letter, a digit or `g` fails, and any other escaped character keeps its backslash; its meaning for the block is stated by `ContentPatch.ExpandEscaped`, `ContentPatch.ExpandPlain` and `ContentPatch.ExpandBlock` |
| Placeholder.SubnAsWritten | app.py:124 | definition step: `subn` as the source calls it is `Subn` of the expanded template (it fails where the expansion does) |
| PdfObjects.Get | app.py:74 | `dict.get`: present exactly for a key in the dictionary |
| PdfObjects.Resolve | app.py:75-76 | `get_object`: present exactly for a number in the table |
| PdfObjects.PdfPage.constructor | app.py:151 | the copy holds the template page's entries |
| PdfObjects.PdfWriter.constructor | app.py:149 | a writer with no pages yet |
| PdfObjects.PdfWriter.AddObject | app.py:100 | `_add_object` stores the object under a number that was unused, refers to it, and keeps the table's numbers below the next one |
| PdfObjects.PdfWriter.AddPage | app.py:154 | `add_page` appends the page and touches no object |
| Fonts.ResourcesOf | app.py:74-79 | when `/Resources` is a reference, the dictionary returned is the one it resolves to in the table |
| Fonts.FontsOf | app.py:81-87 | when `/Font` is a reference, the dictionary returned is the one it resolves to in the table |
| Fonts.FontSites | app.py:74-87 | the indirect resource and font dictionaries are table entries holding dictionaries |
| Fonts.EnsuringFonts | app.py:89-101 | once found, the fonts bind the name afterwards; a Helvetica object is added under a fresh number exactly when the name was missing; the resources are the old ones with `/Font` set to the ensured fonts |
| Fonts.EnsuringFrame | app.py:73-101 | `ensure_font` changes no page entry other than `/Resources`, and no object other than the resource and font dictionaries; an indirect font slot other than the resources' own holds the ensured fonts |
| Fonts.WithFont | app.py:73-101 | `ensure_font` as a function: fails (Malformed) exactly when resources or fonts are not dictionaries; otherwise binds the name, adds one font object exactly when needed, leaves the resources dictionary with every entry but `/Font` kept and `/Font` the ensured font dictionary (also at an indirect font slot other than the resources' own), keeps every other page entry and object, and keeps object numbers valid |
| Fonts.WithFontIdempotent | app.py:89-90 | a second `ensure_font` with the same name changes nothing |
| Fonts.WithFontEnsuring | app.py:73-101 | definition step used by `EnsureFont`: once both dictionaries are found, `WithFont` is the found-resources update |
| Fonts.StoreResources | app.py:79 | assigning `/Resources` in place changes only the page entry or the table slot it lives in |
| Fonts.OpenResources | app.py:74-79 | the method's first step yields what `ResourcesOf` computes, and places a missing dictionary in the page |
| Fonts.OpenFonts | app.py:81-87 | the method's second step yields what `FontsOf` computes, and writes the resolved font dictionary into the resources |
| Fonts.EnsuringPresent | app.py:89-90 | when the name is already bound, only the resource and font dictionaries are written back |
| Fonts.StoreTwice | app.py:79-87 | step used by `EnsureFont`: storing the resources twice is storing the last value |
| Fonts.EnsuringAfterStore | app.py:79-101 | step used by `EnsureFont`: an earlier store of the resources is overwritten by the final update |
| Fonts.AddFont | app.py:92-101 | adding the font gives exactly the state `Ensuring` describes, with object numbers valid |
| Fonts.EnsureFont | app.py:73-101 | the in-place `ensure_font` on a page and writer fails exactly when `WithFont` does, and otherwise leaves the state `WithFont` gives |
| ContentPatch.Latin1Concat | app.py:116-122 | a concatenation encodes as latin-1 exactly when both parts do |
| ContentPatch.EscapedLatin1 | app.py:119-122 | escaping keeps a text encodable as latin-1, and keeps it unencodable |
| ContentPatch.FixedPartsLatin1 | app.py:116-122 | the fixed operator text of the replacement encodes as latin-1 |
| ContentPatch.Latin1Around | app.py:116-122 | a block with latin-1 fixed parts encodes exactly when its two variable parts do |
| ContentPatch.Replacement | app.py:116-122 | the replacement encodes exactly when login and password are latin-1, and then it is the block text itself |
| ContentPatch.ReplacementShowsCredentials | app.py:116-121 | read as PDF content, the block's first literal string is the login and its second is the password (line ends normalised as a PDF reader does), each closed where it should be |
| ContentPatch.Deref | app.py:111-114 | a reference resolves through the table; any other object is itself |
| ContentPatch.StreamData | app.py:112-114 | `get_data()` is present exactly when the object resolves to a stream |
| ContentPatch.JoinedData | app.py:111-112 | the joined data of an array is present exactly when every item resolves to a stream |
| ContentPatch.ContentData | app.py:107-114 | the content bytes: an array's streams joined, or the single stream's data; its meaning is stated by `StreamData`, `JoinedData`, `ContentDataOnlyStreams` and `JoinStreams` |
| ContentPatch.ContentDataOnlyStreams | app.py:107-114 | reading the contents depends only on the table's streams |
| ContentPatch.JoinedDataOnlyStreams | app.py:112 | joining an array's streams depends only on the table's streams |
| ContentPatch.WithFontKeepsContent | app.py:105-114 | `ensure_font` does not change what the contents read as |
| ContentPatch.ReadsSameContent | app.py:105-114 | after `ensure_font`, the page has `/Contents` exactly when it had it before, and the content reads the same |
| ContentPatch.ReplaceContents | app.py:107-131 | the steps of `update_page_text` after `ensure_font`; its meaning is stated by `ReplaceContentsOutcome` and `ReplaceContentsOk` |
| ContentPatch.PatchUsing | app.py:104-131 | `ensure_font` followed by `ReplaceContents`, for any inserted text; its meaning is stated by `PatchUsingOutcome` and `PatchUsingFrame` |
| ContentPatch.PatchUsingOutcome | app.py:104-131 | the checks in source order (fonts, missing contents, unreadable contents, latin-1, zero matches), each with its error; on success the content is the `subn` result |
| ContentPatch.ReplaceContentsOutcome | app.py:107-131 | the same checks after `ensure_font`, one by one |
| ContentPatch.PatchedPage | app.py:104-131 | `update_page_text`, with the block inserted verbatim as intended, fails with the error of the first failing check, and succeeds exactly when all pass, including at least one occurrence of the placeholder |
| ContentPatch.PatchedPageOk | app.py:104-131 | after success, `/FSP` is bound, the content is the old content with every placeholder replaced (count > 0), other entries are kept, the resources dictionary keeps every entry but `/Font`, which becomes the ensured font dictionary (as does an indirect font slot other than the resources' own), and only the resource and font dictionaries among old objects change |
| ContentPatch.PatchedPageFrame | app.py:104-131 | after success, object numbers stay valid and every old object other than the resource and font dictionaries is kept |
| ContentPatch.PatchUsingFrame | app.py:104-131 | the same frame for any inserted text |
| ContentPatch.ReplaceContentsOk | app.py:124-131 | success stores the `subn` result as a fresh stream object that `/Contents` refers to, and leaves the resources and fonts as they were |
| ContentPatch.FreshStreamKeepsFonts | app.py:128-131 | adding the new stream under a fresh number changes neither the page's resources nor its fonts |
| ContentPatch.PatchedPageSplice | app.py:104-131 | a page with one placeholder ends up with exactly that block replaced and every other byte kept |
| ContentPatch.JoinStreams | app.py:111-112 | the loop joining an array's streams computes `JoinedData` |
| ContentPatch.JoinedPrefixFails | app.py:112 | once an item is not a stream, the whole join fails |
| ContentPatch.ReplaceContentStream | app.py:107-131 | the in-place content step on a page and writer fails exactly when `ReplaceContents` does, and otherwise leaves its state |
| ContentPatch.UpdatePageText | app.py:104-131 | the in-place `update_page_text` fails exactly when `PatchedPage` does, with the same error, and otherwise leaves the state `PatchedPage` gives |
| ContentPatch.ExpandPair | app.py:124 | step of `ExpandEscaped`: one escaped `\`, `(` or `)` expands as `\\` to `\`, and `\(` and `\)` unchanged |
| ContentPatch.ExpandOrdinary | app.py:124 | step of `ExpandEscaped`: a character that is not a backslash is copied |
| ContentPatch.ExpandEscaped | app.py:119-124 | expanding an escaped credential gives the credential with only its parentheses escaped |
| ContentPatch.ExpandPlain | app.py:124 | expansion copies text without a backslash |
| ContentPatch.ExpandBlock | app.py:116-124 | expanding the whole replacement block always succeeds |
| ContentPatch.FixedPartsPlain | app.py:116-121 | the fixed operator text has no backslash |
| ContentPatch.AsWrittenReplacement | app.py:116-124 | the bytes the source actually inserts: the template expansion of the block |
| ContentPatch.PatchedPageAsWritten | app.py:104-131 | the page as the source patches it: same success condition as `PatchedPage`, with content from the expanded template |
| ContentPatch.EscapeParensLength | app.py:69-70 | the inserted text is shorter than the escaped text exactly when the credential has a backslash |
| ContentPatch.AsWrittenDiffers | app.py:116-124 | the inserted bytes equal the intended block exactly when neither credential has a backslash |
| ContentPatch.ReopenedTail | app.py:121 | the end of the as-written block does not close the literal string |
| ContentPatch.UnclosedTail | app.py:120-121 | nor does the rest of the block after the first credential |
| ContentPatch.NeverCloses | app.py:116-124 | with login `a\`, the as-written first literal string never closes |
| ContentPatch.AsWrittenTrailingBackslash | app.py:116-124 | with login `a\`, the inserted text after the font operator is `a\` followed by the rest of the block |
| ContentPatch.TrailingBackslashCounterexample | app.py:116-126 | for login `a\`, the intended block reads back the login, but the inserted block does not read back at all |
| Credentials.Field | app.py:55-57 | a missing column gives the empty string |
| Credentials.RowOf | app.py:55-62 | `CredentialRow` built from one record's three stripped fields; its meaning is stated by `Field`, `RowOfStripped` and `RowsOfAt` |
| Credentials.RowOfStripped | app.py:55-57 | every field of a row is stripped and stays the same when stripped again |
| Credentials.RowsOf | app.py:54-62 | one row per record |
| Credentials.RowsOfAt | app.py:54-62 | row `i` is built from record `i` |
| Credentials.Problem | app.py:58-61 | a row is rejected exactly when the output name is blank, or a credential is blank and blanks are not allowed; the output-name check comes first |
| Credentials.FirstProblem | app.py:54-61 | the first rejected row: every earlier row passes |
| Credentials.AllowingBlanksDefersProblems | app.py:58-61 | allowing blank credentials never makes an earlier row fail |
| Credentials.LoadRowsFromCsv | app.py:40-66 | rejects a header without the three columns; otherwise fails at the first bad record, with its line number (index + 2) and error; fails for no records; otherwise returns all rows in order, each with an output name and, unless blanks are allowed, a login and a password |
| Batch.Personalised | app.py:150-154 | a kept-credentials output is the template itself; otherwise it succeeds exactly when the page patches, has every other page as in the template, keeps every template object other than the chosen page's resource and font dictionaries, and keeps object numbers valid |
| Batch.PersonalisedContent | app.py:150-154 | in a personalised document, the chosen page binds `/FSP`, and its content is the template page's with the block replaced |
| Batch.PatchCopy | app.py:151-153 | patching the copied page fails with the error `Personalised` gives, or leaves the writer holding that document's objects |
| Batch.KeepPage | app.py:150-154 | a page that is not patched is appended unchanged |
| Batch.PatchPage | app.py:151-154 | the chosen page is appended patched, or the error is `Personalised`'s |
| Batch.CopyPage | app.py:150-154 | one iteration of the page loop keeps the writer equal to a prefix of the output document |
| Batch.WriteDocument | app.py:149-154 | the page loop writes exactly the `Personalised` document, or fails with its error |
| Batch.Collect | app.py:147-157 | gathering per-row results, stopping at the first error; its meaning is stated by `CollectOk`, `CollectFirstError` and `CollectNext` |
| Batch.CollectOk | app.py:147-158 | gathering results succeeds exactly when every one succeeds, and then keeps them all in order |
| Batch.CollectFirstError | app.py:147-158 | a failed gathering reports the error of the first failure, and everything before it succeeded |
| Batch.CollectNext | app.py:148-157 | one more result extends the gathered prefix, or stops it at the first error |
| Batch.CollectPrefixError | app.py:148-158 | an error in a prefix is the error of the whole |
| Batch.Output | app.py:147-157 | one row's entry: its output name with its `Personalised` document, or that document's error; stated for each row by `OutputAt` |
| Batch.Outputs | app.py:148-157 | one entry per row |
| Batch.OutputAt | app.py:148-157 | unfolding used by `GeneratedDocuments`: row `i`'s entry is its output name with its personalised document, or that document's error |
| Batch.WriteOutput | app.py:149-157 | the entry appended for one row is `Output` of that row |
| Batch.GeneratePdfs | app.py:134-158 | rejects exactly a page index outside the template; otherwise returns the gathered entries of all rows, or the first row's patch error |
| Batch.GeneratedDocuments | app.py:147-158 | a batch succeeds exactly when every row's document does; then entry `i` is row `i`'s output name and document; otherwise the error is the first failing row's |

## Left out

- The Streamlit interface (`main`), ZIP packaging and every other I/O are not modelled. Arguments stand in for uploads, and outputs stay as values.
- CSV tokenisation, the UTF-8 BOM and the text wrapper are not modelled. `load_rows_from_csv` starts from the header and records that `csv.DictReader` yields. A short row's missing value (`None`) is an absent key.
- pypdf's parsing, serialisation (`writer.write`) and `flate_encode` are not modelled. Streams hold their decoded data, and a document is its pages plus one object table.
- The reader and the writer share one object table. pypdf keeps them apart and copies objects on `add_page`, so the model does not capture object renumbering.
- `src_page.copy()` is a shallow copy. The aliasing between copies through shared nested dictionaries is not modelled: each copy is a fresh map.
- Python raises `AttributeError` or `TypeError` when `/Resources` or `/Font` is not a dictionary. The model gives one error, `Malformed`. A dangling reference for either is treated the same way. The list-valued `/Font` corner case, where `in` tests list membership, is not modelled.
- `PdfEscape.ReadLiteral` reads only what literal strings need here: escapes, balanced parentheses and line ends. It does not decode PDFDocEncoding or UTF-16 text strings.
- `Placeholder.ExpandTemplate` answers `None` for octal escapes and group references. The replacement block can contain neither: escaped credentials put a backslash only before `\`, `(` or `)`.
- `Placeholder.Match` is a hand-written recogniser for the one pattern. It is not a general regular-expression engine.
- Text.Strip: its own contract only bounds the length. Its meaning is stated in `Text.StripSpec`.
- Fonts.EnsureFont: the page and writer after a failure are not specified. The batch abandons them.
- ContentPatch.ReplaceContentStream: the page and writer after a failure are not specified, for the same reason.
- ContentPatch.UpdatePageText: the page and writer after a failure are not specified, for the same reason.
- ContentPatch.UpdatePageText: models the corrected insertion, with the replacement block inserted verbatim, not the template expansion `re.subn` applies at app.py:124. The two differ only when a credential contains `\`. The source's behaviour is `ContentPatch.PatchedPageAsWritten`; see Findings. The same holds for `ContentPatch.PatchedPage`, `ContentPatch.ReplaceContentStream`, `Batch.PatchCopy`, `Batch.PatchPage` and `Batch.WriteDocument`.
- Batch.GeneratePdfs: writes the documents with the corrected, verbatim insertion, as `ContentPatch.UpdatePageText` does. It does not write the as-written bytes for credentials containing `\`. The same holds for `Batch.GeneratedDocuments`.
- Fonts.WithFont: when `/Font` is a reference to the resources dictionary itself, Python's in-place writes alias the two. The model treats them as separate values, and does not state the content of that shared slot.

## Findings

| source | as written | input that shows it | evidently intended | confidence | as-written member | corrected member |
|---|---|---|---|---|---|---|
| app.py:116-126 | `escape_pdf` doubles each backslash, but `PLACEHOLDER_PATTERN.subn(replacement, data)` treats the replacement as a template. `\\` becomes `\`, so a backslash reaches the content stream unescaped. | login `a\`, password `b`: the stream gets `(a\) Tj` and the first literal string never closes | the credentials appear in the stream exactly as `escape_pdf` escaped them, so a PDF reader reads back the login and the password | not executed | ContentPatch.AsWrittenReplacement, ContentPatch.PatchedPageAsWritten, ContentPatch.TrailingBackslashCounterexample | ContentPatch.PatchedPage, ContentPatch.ReplacementShowsCredentials |
