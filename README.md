# DocxDiff document model in Dafny

DocxDiff compares two Word (`.docx`) documents and writes a copy of the modified one with the
differences marked. This project models the document model it is built on:

- **Runs** (`DocxDiff/WordParagraphRange.cs`). A run is a piece of text with its formatting: bold,
  italic, underline, colour, highlight and the `xml:space` preserve flag. The model covers three
  things:
  - how the constructor reads a run from a `w:r` element;
  - how `AppendTo` writes one back as `w:r` / `w:rPr` / `w:t`;
  - how `ToHTML` and `AttachStyles` render it as a styled `<span>`.
- **Paragraphs** (`DocxDiff/WordParagraph.cs`). A paragraph has a style, a text and a list of runs.
  The model covers how the constructor reads them from a `w:p` element and how `AppendTo` writes a
  `w:p` back.
- **Documents** (`DocxDiff/WordDocument.cs`). The model covers four operations:
  - the constructor collects every `w:p` of `word/document.xml`;
  - `getDocumentInArchive` finds a package entry by its bare file name;
  - `ToStream` appends the paragraphs to the first `w:body` of the output template;
  - `SaveTo` copies every other entry into a new package and adds the new body as
    `word/document.xml`.

XML is a value tree (`Xml.Node`). An element that `AppendChild` writes into is a small mutable
class (`Xml.XmlElement`). `WordParagraphRange`, `WordParagraph` and `WordDocument` are classes
whose fields the constructors and loops fill in the same order the source does. Each class has a
`Value()` function that gives its state as a datatype (`Run`, `Paragraph`, `Document`).

Every method is proved against a specification function on those values:
- `ParseRun`, `RunElement`, `ParseParagraph`, `ParagraphElement`;
- `ParseDocument`, `LookupDocument`, `SerializeDocument`, `RewrittenArchive`.

Lemmas state what those functions mean, and the round trips between reading and writing.

The file system is a map from paths to archives (`Package.FileStore`). An archive is its list of
entries. `XmlDocument.Load` and `XmlDocument.Save` are function parameters: `load` gives `None` for
bytes that are not well-formed XML. The constant header-and-footer template that `ToStream` loads is
a tree parameter. Exceptions become `Result` values:
- `CannotOpen` when `File.OpenRead` finds no file;
- `MalformedXml` when `Load` fails;
- `DocumentNotFound` for the constructor's "File not found.";
- `MissingBody` when `ToStream` has paragraphs and the template has no `w:body`.

Where the code and its design description differ, the model follows the code:
- **Paragraph text.** The paragraph text is the whole inner text of the `w:p` element, not the
  concatenation of its run texts. Runs are read only from direct `w:r` children, so a run inside a
  `w:hyperlink` is dropped while its text stays in the paragraph's text (`NestedRunSkipped`).
- **Run text.** A run's text is the whole inner text of the `w:r` element.
- **Empty elements.** `AppendTo` always writes `w:rPr`, even when it is empty. It always writes
  `w:pPr/w:pStyle`, even for the empty style.
- **Entries dropped on save.** `SaveTo` drops every entry whose bare name is `document.xml`, not
  only the first.
- **Unmatched `xml:space`.** The preserve flag is set by the presence of `xml:space` on the first
  `w:t`, whatever its value.
- **No escaping.** `ToHTML` does no HTML escaping of the text or the colours.

## Model

| member | source | states |
|---|---|---|
| Runs.ApplyPropertyMeaning | DocxDiff/WordParagraphRange.cs:33-57 | one case of the switch: `w:b`, `w:i` and `w:u` set their flag; `w:color` and `w:highlight` take the child's `w:val`, or "" without one; any other child changes nothing; text and the preserve flag are never touched |
| Runs.ApplyPropertiesMeaning | DocxDiff/WordParagraphRange.cs:31-58 | after the whole loop: a flag is set iff it was set before or some child has its name; a colour is the `w:val` of the last child of that name, or its earlier value if there is none |
| Runs.ParseRunMeaning | DocxDiff/WordParagraphRange.cs:18-59 | text is the node's whole inner text; preserve iff the first `w:t` has `xml:space`; without a `w:rPr` every property keeps its default; otherwise each property is read from the element children of the first `w:rPr` |
| Runs.WordParagraphRange.constructor | DocxDiff/WordParagraphRange.cs:8-16 | the parameterless constructor leaves every property at its default |
| Runs.WordParagraphRange.FromXml | DocxDiff/WordParagraphRange.cs:18-59 | the object's state is `ParseRun` of the node, including the early return when there is no `w:rPr` |
| Runs.WordParagraphRange.ReadProperties | DocxDiff/WordParagraphRange.cs:31-58 | the loop leaves the state that applying every child in document order gives |
| Runs.WordParagraphRange.ReadProperty | DocxDiff/WordParagraphRange.cs:33-57 | one switch case changes exactly the property it names |
| Runs.RunPropertyElementsOrdered | DocxDiff/WordParagraphRange.cs:126-189 | the formatting elements come in strictly increasing rank b, bCs, i, iCs, u, color, highlight, so each appears at most once |
| Runs.RunPropertyElementsChildless | DocxDiff/WordParagraphRange.cs:126-189 | every formatting element is an element without children |
| Runs.RunPropertyElementsPresence | DocxDiff/WordParagraphRange.cs:126-189 | b and bCs appear iff bold; i and iCs iff italic; u iff underlined; color and highlight iff their value is non-empty |
| Runs.ColorElementValue | DocxDiff/WordParagraphRange.cs:168-177 | reading back the last `w:color` gives the run's colour, including "" when none is written |
| Runs.ColorElementPresent | DocxDiff/WordParagraphRange.cs:168-189 | with a colour set, the one `w:color` written is the last one, since only `w:highlight` follows it |
| Runs.HighlightElementValue | DocxDiff/WordParagraphRange.cs:180-189 | reading back the last `w:highlight` gives the run's highlight, including "" |
| Runs.UnderlineElementValue | DocxDiff/WordParagraphRange.cs:156-166 | every `w:u` written carries exactly `w:val="single"` |
| Runs.RunElementInnerText | DocxDiff/WordParagraphRange.cs:194-207 | the inner text of the written `w:r` is the run's text: `w:rPr` contributes none |
| Runs.ReadBackProperties | DocxDiff/WordParagraphRange.cs:126-189 | the constructor's switch over the written formatting elements restores all five formatting properties |
| Runs.RunElementChildren | DocxDiff/WordParagraphRange.cs:191-207 | the first `w:rPr` and the first `w:t` of the written `w:r` are the ones `AppendTo` built |
| Runs.RunRoundTrip | DocxDiff/WordParagraphRange.cs:116-211 | reading the `w:r` that `AppendTo` writes gives back the same run in all seven properties |
| Runs.StyleAttribute | DocxDiff/WordParagraphRange.cs:99-114 | empty iff both colours are empty; otherwise `style="…"` holds `color: …` and/or `background-color: …`, colour first, joined by ';' |
| Runs.InlineTags | DocxDiff/WordParagraphRange.cs:69-93 | the tags are i, b and u, each present iff its flag is set, with none repeated |
| Runs.WrapOptional | DocxDiff/WordParagraphRange.cs:69-93 | an optional outermost tag adds its opening and closing tags around the rest |
| Runs.WrapInlineTags | DocxDiff/WordParagraphRange.cs:69-93 | the three opening ifs, the text and the three closing ifs nest properly: each tag closes inside the one opened before it |
| Runs.WordParagraphRange.ToHTML | DocxDiff/WordParagraphRange.cs:63-97 | the HTML is `<span` + style attribute + `>`, then the text wrapped in the nested inline tags, then `</span>` |
| Runs.WordParagraphRange.AppendOpenTags | DocxDiff/WordParagraphRange.cs:69-80 | appends `<i>`, `<b>`, `<u>` in this order, each iff its flag is set |
| Runs.WordParagraphRange.AppendCloseTags | DocxDiff/WordParagraphRange.cs:82-93 | appends `</u>`, `</b>`, `</i>` in this order, each iff its flag is set |
| Runs.WordParagraphRange.AttachStyles | DocxDiff/WordParagraphRange.cs:99-114 | appends exactly the style attribute to the HTML built so far |
| Runs.WordParagraphRange.AppendTo | DocxDiff/WordParagraphRange.cs:116-211 | appends exactly one child, the `w:r` that `RunElement` describes; earlier children and the attributes of the target are unchanged |
| Runs.WordParagraphRange.BuildRunProperties | DocxDiff/WordParagraphRange.cs:124-189 | a fresh `w:rPr` holding the formatting elements in the order they are appended |
| Runs.WordParagraphRange.AppendBoldElements | DocxDiff/WordParagraphRange.cs:126-137 | appends `w:b` and `w:bCs` iff bold |
| Runs.WordParagraphRange.AppendItalicElements | DocxDiff/WordParagraphRange.cs:139-154 | appends `w:i` and `w:iCs` iff italic |
| Runs.WordParagraphRange.AppendUnderlineElement | DocxDiff/WordParagraphRange.cs:156-166 | appends `w:u val="single"` iff underlined |
| Runs.WordParagraphRange.AppendColorElement | DocxDiff/WordParagraphRange.cs:168-177 | appends `w:color` carrying the colour iff it is non-empty |
| Runs.WordParagraphRange.AppendHighlightElement | DocxDiff/WordParagraphRange.cs:180-189 | appends `w:highlight` carrying the highlight iff it is non-empty |
| Runs.WordParagraphRange.BuildText | DocxDiff/WordParagraphRange.cs:194-204 | a fresh `w:t` holding the text as its only child, with `xml:space="preserve"` iff the flag is set |
| Paragraphs.StyleElementsOf | DocxDiff/WordParagraph.cs:19 | the path `w:pPr/w:pStyle` selects nothing iff no `w:pPr` child has a `w:pStyle` child |
| Paragraphs.StyleIsFirst | DocxDiff/WordParagraph.cs:19 | the style comes from the first `w:pStyle` under the first `w:pPr` that has one |
| Paragraphs.NoStyleElement | DocxDiff/WordParagraph.cs:19 | without any `w:pPr/w:pStyle` the style is "" |
| Paragraphs.WordParagraph.constructor | DocxDiff/WordParagraph.cs:11-15 | the parameterless constructor gives no style, no text and no runs |
| Paragraphs.WordParagraph.FromXml | DocxDiff/WordParagraph.cs:17-31 | the object's state is `ParseParagraph` of the node: its style, its whole inner text, and one run per direct `w:r` child, in order |
| Paragraphs.WordParagraph.ReadRanges | DocxDiff/WordParagraph.cs:22-30 | one new run object per `w:r` node, in order, each holding that node's parsed run |
| Paragraphs.RunElementsRoundTrip | DocxDiff/WordParagraph.cs:53-56 | parsing the written `w:r` elements gives back the runs, in order |
| Paragraphs.RunElementsText | DocxDiff/WordParagraph.cs:53-56 | the inner text of the written runs is the concatenation of the runs' texts |
| Paragraphs.RunElementsAreRuns | DocxDiff/WordParagraph.cs:53-56 | every written run element is a `w:r`, and none is a `w:pPr` |
| Paragraphs.StyleRoundTrip | DocxDiff/WordParagraph.cs:40-47 | the written `w:pPr` yields exactly one `w:pStyle`, and its `w:val` reads back as the style |
| Paragraphs.PropertiesElementText | DocxDiff/WordParagraph.cs:40-50 | the written `w:pPr` contributes no text |
| Paragraphs.ParagraphRoundTrip | DocxDiff/WordParagraph.cs:32-60 | reading the written `w:p` back gives the same style and the same runs; the text becomes the concatenation of the run texts |
| Paragraphs.NestedRunSkipped | DocxDiff/WordParagraph.cs:20-22 | a run under `w:hyperlink` is not a run of the paragraph, but its text is part of the paragraph's text |
| Paragraphs.WordParagraph.AppendTo | DocxDiff/WordParagraph.cs:32-60 | appends exactly one child, the `w:p` that `ParagraphElement` describes; earlier children and the attributes of the target are unchanged |
| Paragraphs.WordParagraph.AppendRanges | DocxDiff/WordParagraph.cs:53-56 | appends one `w:r` per run, in list order, after the `w:pPr` |
| Package.BareNameIsLastSegment | DocxDiff/WordDocument.cs:67 | the bare name of an entry is the longest suffix of its full name without '/' |
| Package.BareNameAfterSlash | DocxDiff/WordDocument.cs:101 | the bare name of `directory/name` is `name` |
| Package.DocumentEntryBareName | DocxDiff/WordDocument.cs:101 | the bare name of `word/document.xml` is `document.xml` |
| Package.FirstEntryIndex | DocxDiff/WordDocument.cs:65-73 | the result is the first entry with that bare name; None iff no entry has it |
| Package.KeptEntriesMembers | DocxDiff/WordDocument.cs:88-99 | an entry is copied iff it is in the original archive and its bare name is not `document.xml` |
| Package.KeptEntriesAppend | DocxDiff/WordDocument.cs:88-99 | the copy keeps the archive order |
| Package.KeptEntriesHaveOtherNames | DocxDiff/WordDocument.cs:90 | no copied entry is called `document.xml` |
| Package.RewrittenArchiveLookup | DocxDiff/WordDocument.cs:88-107 | in the saved archive, the first entry named `document.xml` is the new body entry, and it holds the bytes `ToStream` produced |
| Package.FileStore.Write | DocxDiff/WordDocument.cs:110-114 | the file at the path becomes the new archive; every other file is unchanged |
| Documents.TableParagraphCollected | DocxDiff/WordDocument.cs:32-36 | a `w:p` inside a table cell is collected like a top-level one |
| Documents.BodyHoldsParagraphs | DocxDiff/WordDocument.cs:47-50 | after `ToStream`, the first `w:body` holds its earlier children, then one `w:p` per paragraph in list order |
| Documents.RunElementHasNoParagraph | DocxDiff/WordDocument.cs:47-50 | a written `w:r` contains no `w:p`, so it adds nothing to the paragraph search |
| Documents.ParagraphElementIsOnlyParagraph | DocxDiff/WordDocument.cs:47-50 | a written `w:p` is the only `w:p` in its subtree |
| Documents.ParagraphElementsAreParagraphs | DocxDiff/WordDocument.cs:47-50 | searching the written paragraphs for `w:p` finds exactly them, in order |
| Documents.DocumentRoundTrip | DocxDiff/WordDocument.cs:39-57 | with a template without paragraphs, reading what `ToStream` builds gives one paragraph per paragraph written, in order, with the same style and runs |
| Documents.SavedDocumentReopens | DocxDiff/WordDocument.cs:80-116 | looking `document.xml` up in the file `SaveTo` wrote finds the saved body, given a loader that reads what the saver writes |
| Documents.WordDocument.constructor | DocxDiff/WordDocument.cs:17-37 | records the path; the text is the document's inner text; one paragraph per `w:p` at any depth, in document order |
| Documents.WordDocument.ReadParagraphs | DocxDiff/WordDocument.cs:32-36 | one new paragraph object per `w:p` node, in order, each holding that node's parsed paragraph |
| Documents.WordDocument.Open | DocxDiff/WordDocument.cs:17-26 | passes on the lookup's errors; "File not found." when no entry is named `document.xml`; otherwise a fresh document read from the entry |
| Documents.WordDocument.GetDocumentInArchive | DocxDiff/WordDocument.cs:59-78 | CannotOpen for a missing file; the first entry with the bare name, loaded, or MalformedXml; Success(None) when no entry matches |
| Documents.WordDocument.ToStream | DocxDiff/WordDocument.cs:39-57 | the saved template, with the paragraphs appended to its first `w:body`; MissingBody only when there are paragraphs and no body |
| Documents.WordDocument.AppendParagraphs | DocxDiff/WordDocument.cs:47-50 | appends one `w:p` per paragraph to the body, in list order, keeping its attributes |
| Documents.WordDocument.CopyOtherEntries | DocxDiff/WordDocument.cs:88-99 | the entries copied are exactly those not named `document.xml`, in archive order |
| Documents.WordDocument.SaveTo | DocxDiff/WordDocument.cs:80-116 | CannotOpen and nothing written when the original file is missing; on a `ToStream` error, that error and nothing written; otherwise the file at `path` becomes the copied entries plus the new `word/document.xml` |

## Left out

- Program.cs is not part of this model.
- **Namespaces.** XML namespace URIs, `XmlNamespaceManager` and prefix binding are not modelled.
  Names are qualified strings such as `w:r`, and an XPath step matches on the qualified name.
  `SetAttribute("val", uri, v)` is modelled as the attribute `w:val`. The `xml:space` attribute
  created in the `urn:xml` namespace is modelled as `xml:space`.
- **Owner document.** `AppendTo`'s choice between `node.OwnerDocument` and `node` only decides
  which document creates the elements. A document without a root element (a
  `NullReferenceException` there) is not modelled.
- **Zip, streams and bytes.** Compression, streams and `MemoryStream` rewinding are left out.
  Entry timestamps and compression attributes are also left out. Reading `Load` and `Save` as
  function parameters leaves the XML text format out.
- **Other I/O errors.** Only a missing file is modelled, as `CannotOpen`. A corrupt archive,
  permissions and disk errors are left out.
- **Saving over the source file.** The model has `SaveTo` write whatever the path is. The source
  opens the destination while the original file is still open for reading, and any file-sharing
  conflict that causes is not modelled.
- **Output template.** The constant header-and-footer template of `ToStream` is a parameter,
  because `Constants` is not part of this model.
- **Indent and Spacing.** The properties at WordParagraph.cs:7-10 are placeholders that nothing
  reads or writes, so they are not modelled.
- BareName: `ZipArchiveEntry.Name` is modelled as the part after the last '/'. The extra
  splitting on '\\' and ':' that the zip library applies to archives written on Windows is left
  out.
- Documents.WordDocument.ToStream: the source looks up `w:body` again before each paragraph. The
  model opens the first `w:body` once, appends every paragraph, and puts it back in place. This
  is the same body because the appended `w:p` elements contain no `w:body`.
- Documents.WordDocument.constructor: the constructor takes the tree that
  `getDocumentInArchive` returns. The lookup and its "File not found." exception are in the static
  `Open`, since a Dafny constructor cannot fail.
