# msg_converter: a Dafny model of the Outlook `.msg` converters

msg_converter turns Outlook `.msg` files into three other forms. This project models what each converter computes:

- **CSV.** `convert_to_csv` reads a batch of messages. It builds one `EmailRow` per message and collects one error line per message that cannot be read. Its helpers are `_safe`, `_join`, `_normalize_date`, `_recipient_list` and `_attachment_names`.
- **PDF.** `convert_to_pdf` works out the header values and does one pass over the attachments. Each attachment's bytes are written to a file. Images are inlined as data URLs, and other files are linked. It then picks a body, drops `@page` rules with `remove_page_rules`, and fills the HTML template that goes to the renderer.
- **EML.** `convert_to_eml` fills a standard-library `EmailMessage`: headers, body text, and one `application/octet-stream` part per attachment.

The modules follow the program:

| module | what it holds |
|---|---|
| `Wrappers` | `Option` and `Result` |
| `Text` | the Python string operations the converters use: strip, lower-casing, find and rfind, join, replace and split, `html.escape` with its inverse |
| `Message` | the parsed message that `extract_msg` produces; `Message.get` on the raw header block; the attachment-name fallback |
| `MsgToCsv` | converters/msg_to_csv.py |
| `PdfPatterns` | the three regular expressions of converters/msg_to_pdf.py |
| `MsgToPdf` | the rest of converters/msg_to_pdf.py |
| `MsgToEml` | converters/msg_to_eml.py, with `EmailMessage` as a class whose fields the converter updates |

Calls into libraries become function parameters:

- `strptime` plus `astimezone().isoformat()` is the pair `parse`/`render`.
- `base64.b64encode` is `b64`.
- The rounded size-in-KB label is `sizeKb`.
- `strptime` plus `format_datetime` is the pair `parseDate`/`formatDate`.

Each loop of the source is a method with loop invariants. Each method is proved equal to a specification function, and the properties the code promises are lemmas about those functions.

## Model

| member | source | states |
|---|---|---|
| `Message.OrElse` | converters/msg_to_eml.py:13-15 | `x or fallback`: the value when it is present and non-empty, the fallback otherwise |
| `Message.HeaderGetFirst` | converters/msg_to_pdf.py:21-27 | `Message.get` finds nothing exactly when no field has the name (compared case-insensitively); otherwise it returns the value of the first field with that name |
| `Message.HeaderOr` | converters/msg_to_pdf.py:22-27 | `get(name, default)` returns the header's value when the header is present, even if that value is empty, and the default only when it is absent |
| `Message.AttachmentName` | converters/msg_to_pdf.py:37 | the name is never empty: the long file name if truthy, else the short one if truthy, else `"attachment"` |
| `Text.StripSpec` | converters/msg_to_csv.py:27 | `strip` yields the contiguous slice of the input between its leading and its trailing whitespace |
| `Text.StripEmptyIff` | converters/msg_to_csv.py:30 | a value strips to empty exactly when it is all whitespace |
| `Text.StripIdempotent` | converters/msg_to_csv.py:27 | stripping twice is stripping once |
| `Text.EscapeRoundTrip` | converters/msg_to_pdf.py:68-70 | `html.unescape(html.escape(s)) == s` for every text, so the escaped RTF and plain bodies lose nothing |
| `Text.HtmlEscape` | converters/msg_to_pdf.py:57 | the escaped text is at least as long as the input and holds none of `<`, `>`, `"`, `'` |
| `Text.SplitJoinInverse` | converters/msg_to_csv.py:121 | joining non-empty parts that do not contain the separator's first character, then splitting on the separator, gives the parts back |
| `Text.ReplaceIsJoinOfSplit` | converters/msg_to_pdf.py:53 | `str.replace` is split on the pattern and then join with the replacement |
| `MsgToCsv.Safe` | converters/msg_to_csv.py:26-27 | `None` becomes `""`, and any other value is stripped |
| `MsgToCsv.SafeIdempotent` | converters/msg_to_csv.py:26-27 | applying `_safe` to its own output changes nothing |
| `MsgToCsv.Kept` | converters/msg_to_csv.py:30 | the kept items are no more than the inputs, and none of them is empty |
| `MsgToCsv.KeptAppend` | converters/msg_to_csv.py:30 | the filter distributes over concatenation |
| `MsgToCsv.JoinEmptyIff` | converters/msg_to_csv.py:29-30 | `_join` gives `""` exactly when every item strips to empty |
| `MsgToCsv.JoinSnoc` | converters/msg_to_csv.py:29-30 | appending an item adds `", "` and the stripped item, adds nothing when the item is blank, and adds no separator to an empty join |
| `MsgToCsv.FirstSuccess` | converters/msg_to_csv.py:39-50 | there is no result exactly when every format fails; otherwise the result is that of the first format that parses |
| `MsgToCsv.NormalizedDateEmpty` | converters/msg_to_csv.py:37-38 | an empty date stays empty |
| `MsgToCsv.NormalizedDateFallback` | converters/msg_to_csv.py:51 | when no format parses, the input is returned unchanged |
| `MsgToCsv.NormalizedDateFirstWins` | converters/msg_to_csv.py:39-50 | when format k is the first to parse, the result is format k's rendering |
| `MsgToCsv.NormalizeDate` | converters/msg_to_csv.py:32-51 | the loop over the five formats returns exactly the normalized date |
| `MsgToCsv.MatchesAppend` | converters/msg_to_csv.py:62-67 | the entries of the matching recipients distribute over concatenation |
| `MsgToCsv.MatchesEmptyIff` | converters/msg_to_csv.py:64 | no entry is collected exactly when no recipient has the role |
| `MsgToCsv.RecipientListStructured` | converters/msg_to_csv.py:58-69 | when every recipient is typed and one has the role, the cell is the `_join` of the matching entries |
| `MsgToCsv.RecipientListFallback` | converters/msg_to_csv.py:59-73 | with no recipients, or no recipient of the role, the cell is `_safe` of the flat field |
| `MsgToCsv.RecipientListAliceExample` | converters/msg_to_csv.py:64-69 | a To recipient named Alice ahead of a Cc recipient gives the To cell `Alice <alice@x.com>` |
| `MsgToCsv.RecipientList` | converters/msg_to_csv.py:53-73 | returns exactly the specified cell: the `_join` of the matching entries whenever some recipient has the role, even when that join is empty; `_safe` of the flat field otherwise |
| `MsgToCsv.CollectEntries` | converters/msg_to_csv.py:61-67 | the loop gives up (None) exactly when some recipient has no type; otherwise it collects exactly the entries of the recipients with the role, in order |
| `MsgToCsv.AttachmentNamesOf` | converters/msg_to_csv.py:75-85 | there are at most as many names as attachments, and every name is non-empty |
| `MsgToCsv.AttachmentNamesAppend` | converters/msg_to_csv.py:78-82 | the names of concatenated lists are the concatenated names |
| `MsgToCsv.AttachmentNamesAllNamed` | converters/msg_to_csv.py:78-82 | when every attachment resolves to a name, the names are exactly those names, in order |
| `MsgToCsv.BlankLongNameHidesShortName` | converters/msg_to_csv.py:80-82 | a long name of one space wins over a real short name, strips to empty, and the attachment is skipped |
| `MsgToCsv.AttachmentNames` | converters/msg_to_csv.py:75-85 | the loop returns exactly the specified names |
| `MsgToCsv.RowAttachmentColumns` | converters/msg_to_csv.py:109-121 | the count is the number of names; the cell is empty exactly when the count is zero; when no name holds `;`, the cell splits on `"; "` back into the names |
| `MsgToCsv.BuildRow` | converters/msg_to_csv.py:108-123 | the row built field by field is the specified row |
| `MsgToCsv.FieldNames` | converters/msg_to_csv.py:132 | the header is the eleven `EmailRow` field names, in declaration order, whether or not any row was built |
| `MsgToCsv.CsvAccounting` | converters/msg_to_csv.py:105-126 | every input file yields exactly one row or exactly one error |
| `MsgToCsv.CsvRowsAppend` | converters/msg_to_csv.py:105-124 | the rows of concatenated batches are the concatenated rows, so rows follow input order |
| `MsgToCsv.CsvErrorsAppend` | converters/msg_to_csv.py:105-126 | the errors of concatenated batches are the concatenated errors, so errors follow input order |
| `MsgToCsv.CsvNoErrors` | converters/msg_to_csv.py:125-126 | a batch where every file parses has no errors |
| `MsgToCsv.OneCorruptFile` | converters/msg_to_csv.py:105-126 | one unreadable file among readable ones costs exactly one row and yields the one error line `path: message` |
| `MsgToCsv.ConvertFile` | converters/msg_to_csv.py:106-126 | one turn of the batch loop appends the file's row when it parses, and its error line `path: message` otherwise |
| `MsgToCsv.ConvertToCsv` | converters/msg_to_csv.py:88-139 | the batch loop returns the specified rows and errors, the field names, and a count equal to the number of rows that, added to the number of errors, is the number of files |
| `PdfPatterns.SkipSpaces` | converters/msg_to_pdf.py:15 | `\s*` consumes exactly the run of whitespace at the position |
| `PdfPatterns.MatchEnd` | converters/msg_to_pdf.py:13-15 | a match is non-empty and starts at `@page` or `page` in either case, or at `<` for the wrapper tags |
| `PdfPatterns.SubWithoutPage` | converters/msg_to_pdf.py:13-15 | a text that never mentions `page` in any case is left unchanged by both page patterns |
| `PdfPatterns.RemovePageRulesAsWritten` | converters/msg_to_pdf.py:11-16 | the function as written never lengthens the text, and leaves a text without `page` unchanged |
| `PdfPatterns.SingleSpaceBlockNotMatched` | converters/msg_to_pdf.py:13 | as written, neither pattern matches at a rule `@page {…}` with one space before the brace |
| `PdfPatterns.AsWrittenKeepsSingleSpaceBlock` | converters/msg_to_pdf.py:11-16 | as written, the whole rule `@page {decls}` survives when its body holds no `@` and no `p` |
| `PdfPatterns.AsWrittenKeepsEmptyBlock` | converters/msg_to_pdf.py:11-16 | as written, `"@page {}"` comes back unchanged |
| `PdfPatterns.RemovePageRules` | converters/msg_to_pdf.py:11-16 | the corrected function never lengthens the text, and leaves a text without `page` unchanged |
| `PdfPatterns.IntendedBlockRemoved` | converters/msg_to_pdf.py:13 | with the corrected pattern, a whole `@page … { … }` rule, with or without a selector, is removed and the text after it is processed in the same way |
| `PdfPatterns.IntendedRemovesEmptyBlock` | converters/msg_to_pdf.py:11-16 | with the correction, `"@page {}"` is removed completely |
| `PdfPatterns.DeclRemoved` | converters/msg_to_pdf.py:15 | a `page: value;` declaration, in any case, is removed and the rest is processed in the same way |
| `PdfPatterns.StripWrapperTags` | converters/msg_to_pdf.py:66 | stripping the wrapper tags never lengthens the text, and leaves a text without `<` unchanged |
| `PdfPatterns.WrapperTagRemoved` | converters/msg_to_pdf.py:66 | an opening or closing `html`, `head` or `body` tag with attributes, in any case, is removed |
| `MsgToPdf.PdfHeadersOf` | converters/msg_to_pdf.py:21-27 | each of the six header values is the raw header if present, else the message field if truthy, else the placeholder |
| `MsgToPdf.PlaceholderHeaders` | converters/msg_to_pdf.py:22-27 | a message with no headers and no fields gets `(Unknown Sender)`, `(No Recipient)`, `(No Subject)` and empty optional values |
| `MsgToPdf.MimeType` | converters/msg_to_pdf.py:46 | `jpg` maps to `image/jpeg`, and any other extension to `image/<ext>` |
| `MsgToPdf.ExtensionOfPlainName` | converters/msg_to_pdf.py:42 | the extension of `stem.ext` is `ext` in lower case |
| `MsgToPdf.DotFileHasNoExtension` | converters/msg_to_pdf.py:42-45 | a name such as `.png` has no suffix, so it is linked and not inlined |
| `MsgToPdf.UpperCaseJpegIsInline` | converters/msg_to_pdf.py:42-46 | `name.JPG` is an inline image with MIME type `image/jpeg` |
| `MsgToPdf.DocumentIsLinked` | converters/msg_to_pdf.py:42-45 | `name.docx` is linked, not inlined |
| `MsgToPdf.PassPrefix` | converters/msg_to_pdf.py:36-58 | the pass over one more attachment is one more step |
| `MsgToPdf.StepFields` | converters/msg_to_pdf.py:37-58 | one step writes the file under its name, adds an image to the inline set, and appends a link for any other file |
| `MsgToPdf.InlineStepRewritesCid` | converters/msg_to_pdf.py:49-54 | an inline image replaces every `cid:<name>` in a present HTML body with its data URL and keeps the text in between; a body without the reference is left as it is |
| `MsgToPdf.StepKeepsHtml` | converters/msg_to_pdf.py:51-58 | a linked file, or a step with no HTML body, leaves the body alone |
| `MsgToPdf.PassExternalFiles` | converters/msg_to_pdf.py:55-58 | the links are those of the non-image attachments, in attachment order |
| `MsgToPdf.PassInlineImages` | converters/msg_to_pdf.py:45-48 | the inline set is the set of names of the image attachments |
| `MsgToPdf.PassWritesFiles` | converters/msg_to_pdf.py:36-40 | the written files are those of writing each attachment in turn |
| `MsgToPdf.WrittenFileNames` | converters/msg_to_pdf.py:37-40 | one file is written per distinct attachment name |
| `MsgToPdf.LastWriteWins` | converters/msg_to_pdf.py:38-40 | when two attachments share a name, the file holds the bytes of the last one |
| `MsgToPdf.ProcessAttachment` | converters/msg_to_pdf.py:37-58 | one turn of the loop body is one step |
| `MsgToPdf.ProcessAttachments` | converters/msg_to_pdf.py:33-58 | the loop computes the specified pass |
| `MsgToPdf.AttachmentsSummary` | converters/msg_to_pdf.py:29-61 | the summary is empty exactly when no file is linked |
| `MsgToPdf.LinksNonEmpty` | converters/msg_to_pdf.py:57-58 | no link is empty |
| `MsgToPdf.SelectBody` | converters/msg_to_pdf.py:63-70 | an HTML body is only shortened; otherwise the escaped RTF body, or else the escaped plain body, holds no markup and unescapes to the original text |
| `MsgToPdf.EmptyBody` | converters/msg_to_pdf.py:69-72 | a message without any body gets an empty cleaned body |
| `MsgToPdf.MetaRows` | converters/msg_to_pdf.py:142-148 | there are 3 rows plus one per non-empty optional value, with From and To first |
| `MsgToPdf.MetaRowsCaptions` | converters/msg_to_pdf.py:142-148 | a caption is present exactly when it is From, To or Subject, or Cc, Reply-To, Date or Attachments with a non-empty value |
| `MsgToPdf.WithoutAttachments` | converters/msg_to_pdf.py:29-72 | with no attachments, no Attachments row appears and the body is the selected body with page rules removed |
| `MsgToPdf.EmptyMessageDocument` | converters/msg_to_pdf.py:18-72 | an empty message yields the three placeholder rows and an empty body |
| `MsgToPdf.RenderRowsAppend` | converters/msg_to_pdf.py:142-148 | the rows of a table are rendered one after another, each once, in table order |
| `MsgToPdf.CellValueRecovered` | converters/msg_to_pdf.py:142-148 | a row value without `<` is exactly what its rendered value cell holds, up to the cell's closing tag |
| `MsgToPdf.MetaValuesEscaped` | converters/msg_to_pdf.py:142-148 | every value except the Attachments summary is escaped and holds none of `<`, `>`, `"`, `'` |
| `MsgToPdf.MetaCellsReadBack` | converters/msg_to_pdf.py:142-148 | in the rendered table, the cell of every row other than Attachments reads back as its value, so no header value can open or close a cell |
| `MsgToPdf.ConvertToPdf` | converters/msg_to_pdf.py:18-167 | the method returns the specified HTML and the attachment files it wrote |
| `MsgToEml.EmailMessage.constructor` | converters/msg_to_eml.py:10 | a new message has no headers, no content and no parts |
| `MsgToEml.EmailMessage.SetHeader` | converters/msg_to_eml.py:13-27 | setting an absent header adds exactly that header |
| `MsgToEml.EmailMessage.SetContent` | converters/msg_to_eml.py:30 | sets the body text and nothing else |
| `MsgToEml.EmailMessage.AddAttachment` | converters/msg_to_eml.py:34-39 | appends exactly one part |
| `MsgToEml.DateHeader` | converters/msg_to_eml.py:23-27 | a date that parses is reformatted; a date that does not is kept as it is |
| `MsgToEml.EmlHeaders` | converters/msg_to_eml.py:12-27 | Subject, From and To are always set (empty when missing); Cc is set exactly when truthy; Reply-To exactly when the raw header is truthy; Date exactly when truthy, reformatted when it parses and raw otherwise |
| `MsgToEml.PartOf` | converters/msg_to_eml.py:34-39 | each part is `application/octet-stream`, named by the non-empty fallback name, and carries the attachment's bytes |
| `MsgToEml.EmlParts` | converters/msg_to_eml.py:33-39 | there is one part per attachment |
| `MsgToEml.EmlPartsAt` | converters/msg_to_eml.py:33-39 | part k is made from attachment k |
| `MsgToEml.PartsCarryNamesAndData` | converters/msg_to_eml.py:35-38 | every part has a name and the attachment's bytes unchanged |
| `MsgToEml.SingleAttachmentPart` | converters/msg_to_eml.py:33-39 | an attachment named `invoice.pdf` gives one octet-stream part named `invoice.pdf` |
| `MsgToEml.SetAddressHeaders` | converters/msg_to_eml.py:13-17 | Subject, From and To are set, then Cc when it is non-empty, each on a field not yet present |
| `MsgToEml.SetReplyTo` | converters/msg_to_eml.py:18-21 | Reply-To is added, from the raw header block, exactly when it is non-empty |
| `MsgToEml.SetDate` | converters/msg_to_eml.py:22-27 | Date is added when the message has one: reformatted when it parses, raw otherwise |
| `MsgToEml.SetHeaders` | converters/msg_to_eml.py:12-27 | the header assignments produce exactly the specified header map |
| `MsgToEml.AddAttachments` | converters/msg_to_eml.py:32-39 | the loop appends exactly the specified parts |
| `MsgToEml.ConvertToEml` | converters/msg_to_eml.py:8-39 | the new message has the specified headers, the body text or `""`, and one part per attachment |

## Left out

- Reading `.msg` files (`extract_msg`) is left out, because it is a foreign library. A parsed message is the input. A file that cannot be read is an `Err` outcome, whose message stands for the exception text.
- Finding the input files (`is_file`, `rglob`, `sorted`) and creating the output directory are left out, being filesystem work. `ConvertToCsv` takes the files in the order given.
- CSV output (`DictWriter` quoting, the UTF-8 BOM, the file write) is left out as library I/O. The model stops at the table: field names plus rows.
- `EmailMessage` serialization (`as_bytes`) and the `.eml` write are left out, as library I/O. Header-value checks are also left out: the standard library raises on a value with a line break, such as a folded raw `Reply-To`.
- `MsgToEml.EmailMessage.SetHeader`: assigning a header that is already present is not modelled. Under `email.policy.default` Subject, From, To, Cc, Reply-To and Date may each appear once, and `email[name] = value` raises `ValueError` for a second one. The `requires field !in headers` is that precondition of the library, and the converter meets it because it sets each header once.
- PDF rendering (WeasyPrint) and the directory creation are left out, as foreign I/O. Attachment writes are modelled as a map from file name to bytes.
- The exact template whitespace and the stylesheet's text are left out. The stylesheet is a fixed constant, and the template is modelled as head, rows, rule, body and tail.
- The relative link path is taken as `stem + ".attachments/" + name`. `Path.relative_to` is left out, as path arithmetic of the library.
- `MsgToPdf.Link` does not model the size label: `round(size/1024, 1)` is floating point and is the parameter `sizeKb`.
- Base64, `strptime`, `astimezone().isoformat()` and `format_datetime` are parameters, because they are library code. The EML converter's single format is whatever `parseDate` accepts.
- Decoding and re-encoding the HTML body as UTF-8 (`errors='ignore'`) is not modelled. The body is text throughout, so a body whose bytes all fail to decode counts as non-empty here. The RTF body is taken to be text, as `html.escape` requires.
- `Text.Lower`: lower-casing covers ASCII letters only (`re.IGNORECASE`, `str.lower`). Other Unicode case mappings are left out.
- `_recipient_list`'s `except` branch is not separate. The one failure the model has, a recipient without a type (where `None.lower()` would raise), falls back to the flat field. A recipient without a name or address is `""`, as `getattr` with a default would give.
- `_attachment_names`' `except` branch is left out, because no attachment access can fail in the model.
- `MsgToPdf.ConvertToPdf`'s body uses the corrected page-block pattern (see Findings). The as-written pattern is modelled beside it.
- `msg_to_mbox.py`, `main.py` and the tests are not part of this model.

## Findings

| source | as written | input that shows it | evidently intended | confidence | as-written member | corrected member |
|---|---|---|---|---|---|---|
| converters/msg_to_pdf.py:13 | `@page\s+[^{]+{[^}]*}` needs whitespace and then at least one more character other than `{` before the brace. A rule written `@page {…}` is therefore never removed, and its `size`/`margin` settings reach the renderer, which the comment on line 12 says should not happen | `"@page {}"` comes back unchanged | `@page[^{]*{[^}]*}`, which removes every `@page` rule, with or without a selector | not executed | `PdfPatterns.AsWrittenKeepsEmptyBlock` (over `PdfPatterns.RemovePageRulesAsWritten`, with `PdfPatterns.SingleSpaceBlockNotMatched` and `PdfPatterns.AsWrittenKeepsSingleSpaceBlock`) | `PdfPatterns.IntendedRemovesEmptyBlock` (over `PdfPatterns.RemovePageRules`, with `PdfPatterns.IntendedBlockRemoved`) |
