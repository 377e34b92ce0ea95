/**
 * The package side of a Word document (DocxDiff/WordDocument.cs): a .docx file is a zip archive,
 * modelled as its list of entries, each with its full name and its content. The file system is a
 * map from paths to archives, so reading and writing a file moves whole archives.
 */
module Package {
  import opened Wrappers

  newtype byte = x: int | 0 <= x < 256

  type Bytes = seq<byte>

  /** A zip entry: its full name inside the archive ("word/document.xml") and its uncompressed content. */
  datatype Entry = Entry(fullName: string, content: Bytes)

  /** The entries of an archive, in the order the archive lists them. */
  type Archive = seq<Entry>

  /** Why an operation stopped with an exception. */
  datatype Error =
    | CannotOpen(path: string)    // File.OpenRead: no file at the path
    | MalformedXml                // XmlDocument.Load: the entry is not well-formed XML
    | DocumentNotFound            // the constructor's "File not found." exception
    | MissingBody                 // ToStream: the template has no w:body to append to

  /** The name of the package entry that holds the document body. */
  const DocumentEntryName: string := "word/document.xml"

  /**
   * ZipArchiveEntry.Name: the last segment of the full name, the part after the last '/'
   * (the whole name when there is no '/').
   */
  function BareName(fullName: string): string {
    if fullName == [] then []
    else if fullName[|fullName| - 1] == '/' then []
    else BareName(fullName[..|fullName| - 1]) + [fullName[|fullName| - 1]]
  }

  /**
   * The bare name is the longest suffix without '/': a suffix of the full name, holding no '/',
   * and either the whole name or preceded by a '/'.
   */
  lemma {:induction false} BareNameIsLastSegment(fullName: string)
    ensures var name := BareName(fullName);
            && |name| <= |fullName| && fullName[|fullName| - |name|..] == name
            && '/' !in name
            && (|name| == |fullName| || fullName[|fullName| - |name| - 1] == '/')
  {
    if fullName != [] && fullName[|fullName| - 1] != '/' {
      var init := fullName[..|fullName| - 1];
      BareNameIsLastSegment(init);
      var name := BareName(fullName);
      assert name == BareName(init) + [fullName[|fullName| - 1]];
      assert fullName == init + [fullName[|fullName| - 1]];
      assert fullName[|fullName| - |name|..] == init[|init| - |BareName(init)|..] + [fullName[|fullName| - 1]];
      if |name| < |fullName| {
        assert fullName[|fullName| - |name| - 1] == init[|init| - |BareName(init)| - 1];
      }
    }
  }

  /** The bare name of a file in a directory is the file's own name. */
  lemma {:induction false} BareNameAfterSlash(directory: string, name: string)
    requires '/' !in name
    ensures BareName(directory + "/" + name) == name
  {
    var full := directory + "/" + name;
    if name == [] {
      assert full[|full| - 1] == '/';
    } else {
      var init := name[..|name| - 1];
      assert full[..|full| - 1] == directory + "/" + init;
      assert full[|full| - 1] == name[|name| - 1];
      BareNameAfterSlash(directory, init);
      assert name == init + [name[|name| - 1]];
    }
  }

  /** SaveTo's new body entry is what a lookup of "document.xml" finds. */
  lemma DocumentEntryBareName()
    ensures BareName(DocumentEntryName) == "document.xml"
  {
    assert DocumentEntryName == "word" + "/" + "document.xml";
    BareNameAfterSlash("word", "document.xml");
  }

  /** The position of the first entry whose bare name is `search`, None when no entry has that name. */
  function FirstEntryIndex(archive: Archive, search: string): (r: Option<nat>)
    ensures r.Some? ==> r.value < |archive| && BareName(archive[r.value].fullName) == search
    ensures r.Some? ==> forall j :: 0 <= j < r.value ==> BareName(archive[j].fullName) != search
    ensures r.None? <==> forall j :: 0 <= j < |archive| ==> BareName(archive[j].fullName) != search
  {
    if archive == [] then None
    else if BareName(archive[0].fullName) == search then Some(0)
    else
      match FirstEntryIndex(archive[1..], search)
      case None => None
      case Some(k) => Some(k + 1)
  }

  /** The entries SaveTo copies: those whose bare name is not "document.xml", in archive order. */
  function KeptEntries(archive: Archive): Archive {
    if archive == [] then []
    else
      var last := archive[|archive| - 1];
      KeptEntries(archive[..|archive| - 1]) + (if BareName(last.fullName) == "document.xml" then [] else [last])
  }

  /** The archive SaveTo writes: the kept entries, then one new "word/document.xml" entry holding `body`. */
  function RewrittenArchive(archive: Archive, body: Bytes): Archive {
    KeptEntries(archive) + [Entry(DocumentEntryName, body)]
  }

  /** An entry is kept iff it is in the archive and its bare name is not "document.xml". */
  lemma {:induction false} KeptEntriesMembers(archive: Archive)
    ensures forall e :: e in KeptEntries(archive) <==> e in archive && BareName(e.fullName) != "document.xml"
  {
    if archive != [] {
      var init := archive[..|archive| - 1];
      KeptEntriesMembers(init);
      assert archive == init + [archive[|archive| - 1]];
    }
  }

  /** Filtering keeps the archive order: the kept entries of two parts are the two parts' kept entries. */
  lemma {:induction false} KeptEntriesAppend(a: Archive, b: Archive)
    ensures KeptEntries(a + b) == KeptEntries(a) + KeptEntries(b)
    decreases |b|
  {
    if b == [] {
      assert a + b == a;
    } else {
      var init := b[..|b| - 1];
      var last := b[|b| - 1];
      assert (a + b)[..|a + b| - 1] == a + init;
      assert (a + b)[|a + b| - 1] == last;
      KeptEntriesAppend(a, init);
    }
  }

  /** No kept entry is called "document.xml". */
  lemma {:induction false} KeptEntriesHaveOtherNames(archive: Archive)
    ensures forall j :: 0 <= j < |KeptEntries(archive)| ==> BareName(KeptEntries(archive)[j].fullName) != "document.xml"
  {
    KeptEntriesMembers(archive);
    forall j | 0 <= j < |KeptEntries(archive)|
      ensures BareName(KeptEntries(archive)[j].fullName) != "document.xml"
    {
      assert KeptEntries(archive)[j] in KeptEntries(archive);
    }
  }

  /**
   * In the archive SaveTo writes, the first entry named "document.xml" is the new body entry:
   * opening the saved file finds the new body and no stale copy.
   */
  lemma RewrittenArchiveLookup(archive: Archive, body: Bytes)
    ensures FirstEntryIndex(RewrittenArchive(archive, body), "document.xml") == Some(|KeptEntries(archive)|)
    ensures RewrittenArchive(archive, body)[|KeptEntries(archive)|].content == body
  {
    var kept := KeptEntries(archive);
    var rewritten := RewrittenArchive(archive, body);
    KeptEntriesHaveOtherNames(archive);
    DocumentEntryBareName();
    assert forall j :: 0 <= j < |kept| ==> rewritten[j] == kept[j];
    assert rewritten[|kept|] == Entry(DocumentEntryName, body);
  }

  /** The file system: each path holds an archive. */
  class FileStore {
    var files: map<string, Archive>

    constructor (files: map<string, Archive>)
      ensures this.files == files
    {
      this.files := files;
    }

    /** new FileStream(path, FileMode.Create) and a copy into it: the file at `path` becomes `archive`. */
    method Write(path: string, archive: Archive)
      modifies this
      ensures files == old(files)[path := archive]
    {
      files := files[path := archive];
    }
  }
}
