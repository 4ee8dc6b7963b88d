/**
 * The package `generate_package` writes (`src/generate_config.py`): a zip
 * archive of three entries, and the way `verify_cfg` opens one again. Entries
 * are modelled as name, content and compression; the zip format is not.
 */
module Package {
  import opened Wrappers
  import opened Strings
  import Merge
  import AccelXml
  import Validator

  const MimeType := "application/vnd.sun.xml.ui.configuration"
  const MimeTypePath := "mimetype"
  const XmlPath := "Configurations2/accelerator/current.xml"
  const ManifestPath := "META-INF/manifest.xml"

  /** The three entry names differ (already in their first character). */
  lemma PathsDistinct()
    ensures MimeTypePath != XmlPath && MimeTypePath != ManifestPath && XmlPath != ManifestPath
  {
    assert MimeTypePath[0] == 'm' && XmlPath[0] == 'C' && ManifestPath[0] == 'M';
  }

  /**
   * How an entry is written. `zipfile.ZipFile(path, 'w')` defaults to
   * `ZIP_STORED`, and `writestr` without a compression argument uses the
   * archive's default, so every entry `generate_package` writes is stored.
   */
  datatype Compression = Stored | Deflated

  datatype Entry = Entry(name: string, content: string, compression: Compression)

  /** One `manifest:file-entry` line. */
  function ManifestEntry(path: string, mediaType: string): string {
    " <manifest:file-entry manifest:full-path=\"" + path + "\" manifest:media-type=\"" + mediaType + "\"/>"
  }

  /** The lines of `create_manifest`. */
  const ManifestLines: seq<string> := [
    "<?xml version=\"1.0\" encoding=\"UTF-8\"?>",
    "<manifest:manifest xmlns:manifest=\"http://openoffice.org/2001/manifest\">",
    ManifestEntry("/", MimeType),
    ManifestEntry("Configurations2/", MimeType),
    ManifestEntry(XmlPath, ""),
    "</manifest:manifest>"
  ]

  /** `create_manifest`: the manifest text. */
  function CreateManifest(): string {
    Join(ManifestLines, '\n')
  }

  /**
   * The archive `generate_package` writes around an accelerator document: the
   * `mimetype` entry first, then the document and the manifest, all stored
   * uncompressed.
   */
  function Archive(document: string): (entries: seq<Entry>)
    ensures |entries| == 3
    ensures entries[0] == Entry(MimeTypePath, MimeType, Stored)
    ensures forall i | 0 <= i < 3 :: entries[i].compression == Stored
    ensures forall i, j | 0 <= i < j < 3 :: entries[i].name != entries[j].name
  {
    PathsDistinct();
    [Entry(MimeTypePath, MimeType, Stored),
     Entry(XmlPath, document, Stored),
     Entry(ManifestPath, CreateManifest(), Stored)]
  }

  /** `generate_package` after loading its inputs: merge, write the document, store the archive. */
  function GeneratePackage(customs: seq<Merge.Mapping>, defaults: Option<seq<Merge.Mapping>>): seq<Entry> {
    Archive(AccelXml.CreateXml(Merge.MergeMappings(customs, defaults)))
  }

  /** The names in an archive, in order (`namelist`). */
  function Names(entries: seq<Entry>): (names: seq<string>)
    ensures |names| == |entries|
    ensures forall i | 0 <= i < |entries| :: names[i] == entries[i].name
  {
    if entries == [] then [] else [entries[0].name] + Names(entries[1..])
  }

  /** The content stored under `name`; with several such entries the last one is read. */
  function Read(entries: seq<Entry>, name: string): (content: Option<string>)
    ensures content.Some? <==> name in Names(entries)
    ensures content.Some? ==> exists i | 0 <= i < |entries| :: entries[i].name == name && entries[i].content == content.value
  {
    if entries == [] then None
    else
      var n := |entries| - 1;
      var last := entries[n];
      assert Names(entries) == Names(entries[..n]) + [last.name] by {
        NamesSnoc(entries[..n], last);
        assert entries[..n] + [last] == entries;
      }
      if last.name == name then Some(last.content) else Read(entries[..n], name)
  }

  lemma {:induction false} NamesSnoc(entries: seq<Entry>, e: Entry)
    ensures Names(entries + [e]) == Names(entries) + [e.name]
  {
  }

  /**
   * How `verify_cfg` opens a file: not a zip archive (`None`), no accelerator
   * document, a document that does not parse, or its items. Only documents in
   * the generator's layout are recognised as parsing.
   */
  function OpenPackage(file: Option<seq<Entry>>): Validator.Archive {
    match file
    case None => Validator.BadZip
    case Some(entries) =>
      match Read(entries, XmlPath)
      case None => Validator.MissingEntry
      case Some(doc) =>
        match AccelXml.ReadDocument(doc)
        case None => Validator.ParseError
        case Some(items) => Validator.Ok(items)
  }

  /** The manifest declares the package media type and lists the accelerator document. */
  lemma ManifestListsDocument()
    ensures Contains(CreateManifest(), XmlPath)
    ensures Contains(CreateManifest(), MimeType)
  {
    var entry, root := ManifestEntry(XmlPath, ""), ManifestEntry("/", MimeType);
    JoinContains(ManifestLines, 4, '\n');
    JoinContains(ManifestLines, 2, '\n');
    var open, tail := " <manifest:file-entry manifest:full-path=\"", "\" manifest:media-type=\"" + "" + "\"/>";
    ContainsSpliced(open, XmlPath, tail);
    assert "\" manifest:media-type=\"" + "" == "\" manifest:media-type=\"";
    ConcatAssoc(open + XmlPath, "\" manifest:media-type=\"", "\"/>");
    assert open + XmlPath + tail == entry;
    ContainsSpliced(" <manifest:file-entry manifest:full-path=\"" + "/" + "\" manifest:media-type=\"", MimeType, "\"/>");
    ContainsTransitive(CreateManifest(), entry, XmlPath);
    ContainsTransitive(CreateManifest(), root, MimeType);
  }

  /** In a three-entry archive, a name held only by the middle entry reads that entry's content. */
  lemma {:induction false} ReadMiddle(first: Entry, middle: Entry, last: Entry, name: string)
    requires first.name != name && middle.name == name && last.name != name
    ensures Read([first, middle, last], name) == Some(middle.content)
  {
    assert [first, middle, last][..2] == [first, middle];
    assert [first, middle][..1] == [first];
  }

  /** Reading the accelerator document back out of an archive gives the document stored. */
  lemma {:induction false} ArchiveReadsDocument(document: string)
    ensures Read(Archive(document), XmlPath) == Some(document)
  {
    var entries := Archive(document);
    PathsDistinct();
    ReadMiddle(entries[0], entries[1], entries[2], XmlPath);
    assert entries == [entries[0], entries[1], entries[2]];
  }

  /** Opening an archive yields the items its accelerator document reads as. */
  lemma {:induction false} OpenArchive(document: string, items: seq<Validator.Item>)
    requires AccelXml.ReadDocument(document) == Some(items)
    ensures OpenPackage(Some(Archive(document))) == Validator.Ok(items)
  {
    ArchiveReadsDocument(document);
  }

  /**
   * Opening a generated package reads back one item per mapping that parses,
   * provided no code or command holds a `"` or a character outside plain text.
   */
  lemma {:induction false} GeneratedPackageOpens(customs: seq<Merge.Mapping>, defaults: Option<seq<Merge.Mapping>>)
    requires forall b | b in AccelXml.Bindings(Merge.MergeMappings(customs, defaults)) :: AccelXml.SafeBinding(b)
    ensures OpenPackage(Some(GeneratePackage(customs, defaults)))
         == Validator.Ok(AccelXml.ItemsOf(AccelXml.Bindings(Merge.MergeMappings(customs, defaults))))
  {
    var ms := Merge.MergeMappings(customs, defaults);
    AccelXml.CreateXmlRoundTrip(ms);
    OpenArchive(AccelXml.CreateXml(ms), AccelXml.ItemsOf(AccelXml.Bindings(ms)));
  }

  /** An archive without the accelerator document is reported as such, whatever else it holds. */
  lemma {:induction false} MissingDocument(entries: seq<Entry>)
    requires forall e | e in entries :: e.name != XmlPath
    ensures OpenPackage(Some(entries)) == Validator.MissingEntry
  {
    assert XmlPath !in Names(entries);
  }
}
