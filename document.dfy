/**
 * A Word document (DocxDiff/WordDocument.cs): every paragraph of `word/document.xml`, how the
 * constructor collects them, how ToStream writes them into the body of a template, and how the
 * package is looked up in and rewritten into a file.
 *
 * XmlDocument.Load and XmlDocument.Save are parameters: `load` parses bytes into a tree (None when
 * they are not well-formed XML) and `save` serialises a tree. The template that ToStream loads
 * (the document header and footer) is the tree `template`.
 */
module Documents {
  import opened Wrappers
  import opened Xml
  import opened Runs
  import opened Paragraphs
  import opened Package

  /** The properties of a document, as a value. */
  datatype Document = Document(paragraphs: seq<Paragraph>, text: string)

  // ---------------------------------------------------------------------------------------------
  // Reading

  /** One paragraph per node of `paragraphNodes`, in order. */
  function ParseParagraphs(paragraphNodes: seq<Node>): seq<Paragraph> {
    seq(|paragraphNodes|, i requires 0 <= i < |paragraphNodes| => ParseParagraph(paragraphNodes[i]))
  }

  /**
   * What the constructor reads: one paragraph per `w:p` element at any depth, in document order,
   * and the inner text of the whole document.
   */
  function ParseDocument(root: Node): Document {
    Document(ParseParagraphs(ElementsByTagName(root, "w:p")), InnerText(root))
  }

  /** A paragraph in a table cell is collected like any other: the search goes to every depth. */
  lemma TableParagraphCollected()
    ensures var p := Element("w:p", map[], []);
            var cell := Element("w:tc", map[], [p]);
            var root := Element("w:document", map[], [Element("w:body", map[], [Element("w:tbl", map[], [cell])])]);
            ParseDocument(root).paragraphs == [ParseParagraph(p)]
  {
    var p := Element("w:p", map[], []);
    var cell := Element("w:tc", map[], [p]);
    var table := Element("w:tbl", map[], [cell]);
    var body := Element("w:body", map[], [table]);
    var root := Element("w:document", map[], [body]);
    assert [p][1..] == [] && [cell][1..] == [] && [table][1..] == [] && [body][1..] == [];
    assert ElementsByTagName(p, "w:p") == [p] + ElementsByTagNameOfAll([], "w:p");
    assert ElementsByTagNameOfAll([p], "w:p") == [p];
    assert ElementsByTagName(cell, "w:p") == [p];
    assert ElementsByTagNameOfAll([cell], "w:p") == [p];
    assert ElementsByTagName(table, "w:p") == [p];
    assert ElementsByTagNameOfAll([table], "w:p") == [p];
    assert ElementsByTagName(body, "w:p") == [p];
    assert ElementsByTagNameOfAll([body], "w:p") == [p];
  }

  /**
   * getDocumentInArchive: the tree of the first entry whose bare name is `search`; Success(None)
   * when no entry has that name; an error when the file is missing or the entry is not XML.
   */
  function LookupDocument(files: map<string, Archive>, path: string, search: string, load: Bytes -> Option<Node>)
    : Result<Option<Node>, Error>
  {
    if path !in files then Failure(CannotOpen(path))
    else
      match FirstEntryIndex(files[path], search)
      case None => Success(None)
      case Some(k) =>
        match load(files[path][k].content)
        case None => Failure(MalformedXml)
        case Some(root) => Success(Some(root))
  }

  // ---------------------------------------------------------------------------------------------
  // Writing

  /** The `w:p` elements AppendTo writes for the paragraphs `ps`, one per paragraph, in list order. */
  function ParagraphElements(ps: seq<Paragraph>): seq<Node> {
    seq(|ps|, i requires 0 <= i < |ps| => ParagraphElement(ps[i]))
  }

  /**
   * The tree ToStream saves: the template unchanged when there are no paragraphs; otherwise its
   * first `w:body` with the paragraphs appended after whatever it held, and MissingBody when the
   * template has no `w:body` (GetElementsByTagName("w:body")[0] is null then).
   */
  function BuildBody(template: Node, ps: seq<Paragraph>): Result<Node, Error> {
    if ps == [] then Success(template)
    else if ElementsByTagName(template, "w:body") == [] then Failure(MissingBody)
    else
      var body := ElementsByTagName(template, "w:body")[0];
      Success(ReplaceFirstNamed(template, "w:body", Element(body.name, body.attributes, body.children + ParagraphElements(ps))))
  }

  /** What ToStream returns: the saved tree, or the error that stopped it. */
  function SerializeDocument(template: Node, ps: seq<Paragraph>, save: Node -> Bytes): Result<Bytes, Error> {
    match BuildBody(template, ps)
    case Success(document) => Success(save(document))
    case Failure(e) => Failure(e)
  }

  /**
   * When ToStream succeeds with paragraphs, the first `w:body` of the result holds the body's
   * earlier children, then one `w:p` per paragraph in list order; its attributes are kept.
   */
  lemma BodyHoldsParagraphs(template: Node, ps: seq<Paragraph>)
    requires ps != [] && BuildBody(template, ps).Success?
    ensures var body := ElementsByTagName(template, "w:body")[0];
            var bodies := ElementsByTagName(BuildBody(template, ps).value, "w:body");
            bodies != [] && bodies[0] == Element("w:body", body.attributes, body.children + ParagraphElements(ps))
  {
    var body := ElementsByTagName(template, "w:body")[0];
    ReplaceFirstNamedIsFirst(template, "w:body",
      Element(body.name, body.attributes, body.children + ParagraphElements(ps)));
  }

  // ---------------------------------------------------------------------------------------------
  // Round trip

  /** Every node of `cs` is an element without children, none of them named `name`. */
  lemma {:induction false} ChildlessHaveNone(cs: seq<Node>, name: string)
    requires Childless(cs)
    requires forall i :: 0 <= i < |cs| ==> Name(cs[i]) != name
    ensures ElementsByTagNameOfAll(cs, name) == []
  {
    if cs != [] {
      assert cs[0].children == [];
      assert ElementsByTagName(cs[0], name) == [] + ElementsByTagNameOfAll([], name);
      ChildlessHaveNone(cs[1..], name);
    }
  }

  /** A `w:r` element AppendTo writes holds no `w:p`. */
  lemma RunElementHasNoParagraph(r: Run)
    ensures ElementsByTagName(RunElement(r), "w:p") == []
  {
    var props := RunPropertyElements(r);
    var rPr := Element("w:rPr", map[], props);
    var t := Element("w:t", TextAttributes(r), [Text(r.text)]);
    RunPropertyElementsChildless(r);
    RunPropertyElementsOrdered(r);
    assert PropertyRank("w:p") == -1;
    ChildlessHaveNone(props, "w:p");
    assert [rPr, t][1..] == [t] && [t][1..] == [] && [Text(r.text)][1..] == [];
    assert ElementsByTagName(rPr, "w:p") == [];
    assert ElementsByTagNameOfAll([Text(r.text)], "w:p") == [];
    assert ElementsByTagName(t, "w:p") == [];
    assert ElementsByTagNameOfAll([t], "w:p") == [];
    assert ElementsByTagNameOfAll([rPr, t], "w:p") == [];
  }

  lemma {:induction false} RunElementsHaveNoParagraph(rs: seq<Run>)
    ensures ElementsByTagNameOfAll(RunElements(rs), "w:p") == []
  {
    if rs != [] {
      var init := rs[..|rs| - 1];
      var last := [RunElement(rs[|rs| - 1])];
      assert RunElements(rs) == RunElements(init) + last;
      RunElementsHaveNoParagraph(init);
      ElementsByTagNameOfAllAppend(RunElements(init), last, "w:p");
      RunElementHasNoParagraph(rs[|rs| - 1]);
      assert last[1..] == [];
    }
  }

  /** A `w:p` element AppendTo writes is the only `w:p` in its subtree. */
  lemma ParagraphElementIsOnlyParagraph(p: Paragraph)
    ensures ElementsByTagName(ParagraphElement(p), "w:p") == [ParagraphElement(p)]
  {
    var pPr := PropertiesElement(p.style);
    var pStyle := Element("w:pStyle", map["w:val" := p.style], []);
    var es := RunElements(p.ranges);
    RunElementsHaveNoParagraph(p.ranges);
    ElementsByTagNameOfAllAppend([pPr], es, "w:p");
    assert [pPr][1..] == [] && [pStyle][1..] == [];
    assert ElementsByTagName(pStyle, "w:p") == [];
    assert ElementsByTagNameOfAll([pStyle], "w:p") == [];
    assert ElementsByTagName(pPr, "w:p") == [];
    assert ElementsByTagNameOfAll([pPr], "w:p") == [];
  }

  lemma {:induction false} ParagraphElementsAreParagraphs(ps: seq<Paragraph>)
    ensures ElementsByTagNameOfAll(ParagraphElements(ps), "w:p") == ParagraphElements(ps)
  {
    if ps != [] {
      var init := ps[..|ps| - 1];
      var last := [ParagraphElement(ps[|ps| - 1])];
      assert ParagraphElements(ps) == ParagraphElements(init) + last;
      ParagraphElementsAreParagraphs(init);
      ElementsByTagNameOfAllAppend(ParagraphElements(init), last, "w:p");
      ParagraphElementIsOnlyParagraph(ps[|ps| - 1]);
      assert last[1..] == [];
    }
  }

  /** A paragraph as it reads back from what AppendTo writes: its text becomes its runs' texts. */
  function Reread(p: Paragraph): Paragraph {
    Paragraph(p.style, RangesText(p.ranges), p.ranges)
  }

  /**
   * Reading back what ToStream builds from a template without paragraphs gives one paragraph per
   * paragraph written, in order, each with the same style and the same runs.
   */
  lemma DocumentRoundTrip(template: Node, ps: seq<Paragraph>)
    requires ElementsByTagName(template, "w:p") == []
    requires BuildBody(template, ps).Success?
    ensures var reread := ParseDocument(BuildBody(template, ps).value).paragraphs;
            |reread| == |ps| && forall i :: 0 <= i < |ps| ==> reread[i] == Reread(ps[i])
  {
    if ps != [] {
      var body := ElementsByTagName(template, "w:body")[0];
      var newBody := Element(body.name, body.attributes, body.children + ParagraphElements(ps));
      ReplaceFirstNamedElsewhere(template, "w:body", newBody, "w:p");
      FirstNamedHasNone(template, "w:body", "w:p");
      assert ElementsByTagNameOfAll(body.children, "w:p") == [];
      ElementsByTagNameOfAllAppend(body.children, ParagraphElements(ps), "w:p");
      ParagraphElementsAreParagraphs(ps);
      assert ElementsByTagName(newBody, "w:p") == ParagraphElements(ps);
      forall i | 0 <= i < |ps| ensures ParseParagraph(ParagraphElements(ps)[i]) == Reread(ps[i]) {
        ParagraphRoundTrip(ps[i]);
      }
    }
  }

  /**
   * Opening the file SaveTo wrote finds the new body entry: with a loader that parses what the
   * saver writes, the lookup gives back the saved tree.
   */
  lemma SavedDocumentReopens(files: map<string, Archive>, source: Archive, path: string, document: Node,
                             save: Node -> Bytes, load: Bytes -> Option<Node>)
    requires load(save(document)) == Some(document)
    ensures LookupDocument(files[path := RewrittenArchive(source, save(document))], path, "document.xml", load)
            == Success(Some(document))
  {
    RewrittenArchiveLookup(source, save(document));
  }

  // ---------------------------------------------------------------------------------------------
  // The document object

  /** The run objects of the paragraph objects `ps`. */
  ghost function RangeObjects(ps: seq<WordParagraph>): set<object>
    reads ps
  {
    if ps == [] then {}
    else RangeObjects(ps[..|ps| - 1]) + (var rs := ps[|ps| - 1].ranges; set r: WordParagraphRange | r in rs)
  }

  /** The values of the paragraph objects `ps`, in order. */
  function ParagraphValues(ps: seq<WordParagraph>): (vs: seq<Paragraph>)
    reads ps, RangeObjects(ps)
    ensures |vs| == |ps|
    ensures forall i :: 0 <= i < |ps| ==> vs[i] == ps[i].Value()
  {
    if ps == [] then []
    else
      var init := ps[..|ps| - 1];
      var vs := ParagraphValues(init) + [ps[|ps| - 1].Value()];
      assert forall i :: 0 <= i < |init| ==> init[i] == ps[i];
      vs
  }

  /** A document read from a package (WordDocument). */
  class WordDocument {
    var filePath: string
    var paragraphs: seq<WordParagraph>
    var text: string

    /** The document as a value, paragraph objects replaced by their values. */
    function Value(): Document
      reads this, paragraphs, RangeObjects(paragraphs)
    {
      Document(ParagraphValues(paragraphs), text)
    }

    /** The constructor once the lookup has given the tree `root` of `document.xml`. */
    constructor (path: string, root: Node)
      ensures filePath == path
      ensures Value() == ParseDocument(root)
    {
      filePath := path;
      text := InnerText(root);
      var paragraphObjects := ReadParagraphs(ElementsByTagName(root, "w:p"));
      paragraphs := paragraphObjects;
    }

    /** The constructor's foreach over the `w:p` elements: one new paragraph object per node, in order. */
    static method ReadParagraphs(paragraphNodes: seq<Node>) returns (paragraphs: seq<WordParagraph>)
      ensures ParagraphValues(paragraphs) == ParseParagraphs(paragraphNodes)
    {
      paragraphs := [];
      for i := 0 to |paragraphNodes|
        invariant |paragraphs| == i
        invariant forall j :: 0 <= j < i ==> paragraphs[j].Value() == ParseParagraph(paragraphNodes[j])
      {
        var paragraph := new WordParagraph.FromXml(paragraphNodes[i]);
        paragraphs := paragraphs + [paragraph];
      }
      assert forall j :: 0 <= j < |paragraphs| ==> ParagraphValues(paragraphs)[j] == ParseParagraphs(paragraphNodes)[j];
    }

    /**
     * The constructor as a whole: looks up `document.xml` in the file at `path` and reads it; the
     * lookup's errors, and DocumentNotFound ("File not found.") when there is no such entry.
     */
    static method Open(fs: FileStore, path: string, load: Bytes -> Option<Node>) returns (r: Result<WordDocument, Error>)
      ensures match LookupDocument(fs.files, path, "document.xml", load)
              case Failure(e) => r == Failure(e)
              case Success(None) => r == Failure(DocumentNotFound)
              case Success(Some(root)) => r.Success? && fresh(r.value) && r.value.filePath == path
                                          && r.value.Value() == ParseDocument(root)
    {
      var wordDocument := GetDocumentInArchive(fs, path, "document.xml", load);
      if wordDocument.Failure? {
        return Failure(wordDocument.error);
      }
      if wordDocument.value.None? {
        return Failure(DocumentNotFound);
      }
      var document := new WordDocument(path, wordDocument.value.value);
      return Success(document);
    }

    /** getDocumentInArchive: the first entry whose bare name is `search`, loaded as XML. */
    static method GetDocumentInArchive(fs: FileStore, path: string, search: string, load: Bytes -> Option<Node>)
      returns (r: Result<Option<Node>, Error>)
      ensures r == LookupDocument(fs.files, path, search, load)
    {
      if path !in fs.files {
        return Failure(CannotOpen(path));
      }
      var entries := fs.files[path];
      for i := 0 to |entries|
        invariant forall j :: 0 <= j < i ==> BareName(entries[j].fullName) != search
      {
        if BareName(entries[i].fullName) == search {
          var document := load(entries[i].content);
          if document.None? {
            return Failure(MalformedXml);
          }
          return Success(document);
        }
      }
      return Success(None);
    }

    /**
     * ToStream: the template with the paragraphs appended to its first `w:body`, saved; an error
     * when there are paragraphs and no body.
     */
    method ToStream(template: Node, save: Node -> Bytes) returns (r: Result<Bytes, Error>)
      ensures r == SerializeDocument(template, ParagraphValues(paragraphs), save)
    {
      if |paragraphs| == 0 {
        return Success(save(template));
      }
      var bodies := ElementsByTagName(template, "w:body");
      if bodies == [] {
        return Failure(MissingBody);
      }
      var body := new XmlElement.Open(bodies[0]);
      AppendParagraphs(body);
      var document := ReplaceFirstNamed(template, "w:body", body.ToNode());
      return Success(save(document));
    }

    /** ToStream's foreach over the paragraphs: each appends its `w:p` to `body`, in list order. */
    method AppendParagraphs(body: XmlElement)
      modifies body
      ensures body.children == old(body.children) + ParagraphElements(ParagraphValues(paragraphs))
      ensures body.attributes == old(body.attributes)
    {
      ghost var values := ParagraphValues(paragraphs);
      for i := 0 to |paragraphs|
        invariant body.children == old(body.children) + ParagraphElements(values[..i])
        invariant body.attributes == old(body.attributes)
      {
        paragraphs[i].AppendTo(body);
        assert ParagraphElements(values[..i + 1]) == ParagraphElements(values[..i]) + [ParagraphElement(values[i])];
      }
      assert values[..|paragraphs|] == values;
    }

    /** SaveTo's loop over the entries: copies every entry except those named "document.xml". */
    static method CopyOtherEntries(original: Archive) returns (archive: Archive)
      ensures archive == KeptEntries(original)
    {
      archive := [];
      for i := 0 to |original|
        invariant archive == KeptEntries(original[..i])
      {
        var entry := original[i];
        assert original[..i + 1][..i] == original[..i];
        if BareName(entry.fullName) == "document.xml" {
          continue;
        }
        archive := archive + [entry];
      }
      assert original[..|original|] == original;
    }

    /**
     * SaveTo: reads the package at the path the document was opened from, copies every entry
     * except those named "document.xml", appends the new "word/document.xml" and only then writes
     * the whole archive to `path`. Nothing is written when it stops with an error.
     */
    method SaveTo(fs: FileStore, path: string, template: Node, save: Node -> Bytes) returns (r: Result<(), Error>)
      modifies fs
      ensures filePath !in old(fs.files) ==> r == Failure(CannotOpen(filePath)) && fs.files == old(fs.files)
      ensures filePath in old(fs.files) ==>
                match SerializeDocument(template, ParagraphValues(paragraphs), save)
                case Failure(e) => r == Failure(e) && fs.files == old(fs.files)
                case Success(bytes) => r == Success(()) && fs.files == old(fs.files)[path := RewrittenArchive(old(fs.files)[filePath], bytes)]
    {
      if filePath !in fs.files {
        return Failure(CannotOpen(filePath));
      }
      var archive := CopyOtherEntries(fs.files[filePath]);
      var documentStream := ToStream(template, save);
      if documentStream.Failure? {
        return Failure(documentStream.error);
      }
      archive := archive + [Entry(DocumentEntryName, documentStream.value)];
      assert archive == RewrittenArchive(old(fs.files)[filePath], documentStream.value);
      ghost var values := ParagraphValues(paragraphs);
      fs.Write(path, archive);
      assert ParagraphValues(paragraphs) == values;
      return Success(());
    }
  }
}
